/**
 * The control rule of the terminal loop, specialised to the app: render the
 * model, then for each event from the input queue apply `Update`, stopping
 * when it returns `None` (Escape) or when the queue has no further events,
 * and render after every accepted event. The finite sequence of events
 * stands for the queue; the rendered frames are the loop's observable output.
 */
module Play {
  import opened Wrappers
  import opened Content
  import opened App
  import Tui

  /** The model the loop ends with, the frames it rendered and whether it stopped on Escape. */
  datatype Session = Session(model: Model, frames: seq<Tui.UI>, quit: bool)

  /** The frame shows the screen of some step of the scenario. */
  ghost predicate OnScreen(content: seq<Content>, ui: Tui.UI)
  {
    exists j :: 0 <= j < |content| && ui.text == content[j].screen
  }

  /**
   * The loop after the first render: one frame per event consumed, until
   * the first Escape or the end of the events.
   */
  function Loop(m: Model, events: seq<Tui.Event>): (s: Session)
    requires |m.content| > 0
    ensures s.model.content == m.content
    ensures m.pos <= s.model.pos <= m.pos + |s.frames|
    ensures |s.frames| <= |events|
    ensures s.quit <==> Tui.KeyEvent(Tui.Esc) in events
    ensures s.quit ==> |s.frames| < |events| && events[|s.frames|] == Tui.KeyEvent(Tui.Esc) &&
                       Tui.KeyEvent(Tui.Esc) !in events[..|s.frames|]
    ensures !s.quit ==> |s.frames| == |events|
    ensures forall k :: 0 <= k < |s.frames| ==> OnScreen(m.content, s.frames[k])
    decreases |events|
  {
    if events == [] then Session(m, [], false)
    else
      match Update(events[0], m)
      case None => Session(m, [], true)
      case Some(next) =>
        assert OnScreen(m.content, View(next)) by {
          assert View(next).text == next.content[Index(next)].screen;
        }
        var rest := Loop(next, events[1..]);
        Session(rest.model, [View(next)] + rest.frames, rest.quit)
  }

  /** `run`: the initial render followed by the loop. */
  function Run(app: Model, events: seq<Tui.Event>): (s: Session)
    requires |app.content| > 0
    ensures s.model.content == app.content
    ensures |s.frames| >= 1 && s.frames[0] == View(app)
    ensures |s.frames| <= |events| + 1
    ensures !s.quit ==> |s.frames| == |events| + 1
  {
    var l := Loop(app, events);
    Session(l.model, [View(app)] + l.frames, l.quit)
  }

  /**
   * The terminal is left showing the view of the model the loop ends with:
   * the last frame is that model's view, and with no frame the model is
   * the one the loop started from.
   */
  lemma {:induction false} LastFrameIsFinalView(m: Model, events: seq<Tui.Event>)
    requires |m.content| > 0
    ensures var s := Loop(m, events);
      && (|s.frames| == 0 ==> s.model == m)
      && (|s.frames| > 0 ==> s.frames[|s.frames| - 1] == View(s.model))
    ensures var r := Run(m, events); r.frames[|r.frames| - 1] == View(r.model)
    decreases |events|
  {
    if events != [] && Update(events[0], m).Some? {
      LoopAccepts(m, events);
      LastFrameIsFinalView(Update(events[0], m).value, events[1..]);
    } else {
      LoopStops(m, events);
    }
  }

  /** Events after the first Escape are never looked at. */
  lemma {:induction false} EventsAfterEscIgnored(m: Model, before: seq<Tui.Event>, after: seq<Tui.Event>)
    requires |m.content| > 0 && Tui.KeyEvent(Tui.Esc) in before
    ensures Loop(m, before + after) == Loop(m, before)
    decreases |before|
  {
    if before[0] == Tui.KeyEvent(Tui.Esc) {
    } else {
      assert (before + after)[1..] == before[1..] + after;
      var next := Update(before[0], m).value;
      EventsAfterEscIgnored(next, before[1..], after);
    }
  }

  /** Events the app ignores (mouse, unsupported sequences, keys other than Escape and characters) re-render the same frame. */
  lemma IgnoredEventRerenders(m: Model, e: Tui.Event, events: seq<Tui.Event>)
    requires |m.content| > 0 && e != Tui.KeyEvent(Tui.Esc) && !IsChar(e)
    ensures Loop(m, [e] + events) == Session(Loop(m, events).model, [View(m)] + Loop(m, events).frames, Loop(m, events).quit)
  {
  }

  /** One accepted event: its frame, then the rest of the loop from the new model. */
  lemma LoopAccepts(m: Model, events: seq<Tui.Event>)
    requires |m.content| > 0 && events != [] && Update(events[0], m).Some?
    ensures var next := Update(events[0], m).value;
      var rest := Loop(next, events[1..]);
      Loop(m, events) == Session(rest.model, [View(next)] + rest.frames, rest.quit)
  {
  }

  /** After an accepted event, the frames so far grow by that event's frame. */
  lemma AcceptedFrameRendered(frames: seq<Tui.UI>, m: Model, events: seq<Tui.Event>)
    requires |m.content| > 0 && events != [] && Update(events[0], m).Some?
    ensures var next := Update(events[0], m).value;
      AfterFrames(frames, Loop(m, events)) == AfterFrames(frames + [View(next)], Loop(next, events[1..]))
  {
    var next := Update(events[0], m).value;
    var rest := Loop(next, events[1..]);
    LoopAccepts(m, events);
    assert frames + ([View(next)] + rest.frames) == (frames + [View(next)]) + rest.frames;
  }

  /** The loop stops without a frame when the queue is empty or the app returns `None`. */
  lemma LoopStops(m: Model, events: seq<Tui.Event>)
    requires |m.content| > 0 && (events == [] || Update(events[0], m).None?)
    ensures Loop(m, events) == Session(m, [], events != [])
  {
  }

  /** A session whose frames come after the frames already rendered. */
  function AfterFrames(frames: seq<Tui.UI>, s: Session): Session
  {
    Session(s.model, frames + s.frames, s.quit)
  }

  /**
   * The loop as the terminal front end runs it: wait for an event, stop on
   * `None` from the app or from the queue, otherwise keep the new model and
   * render it.
   */
  method RunLoop(app: Model, events: seq<Tui.Event>) returns (model: Model, frames: seq<Tui.UI>, quit: bool)
    requires |app.content| > 0
    ensures Session(model, frames, quit) == Run(app, events)
  {
    model := app;
    frames := [View(model)];
    quit := false;
    var i := 0;
    while i < |events|
      invariant 0 <= i <= |events|
      invariant |model.content| > 0
      invariant Run(app, events) == AfterFrames(frames, Loop(model, events[i..]))
      decreases |events| - i
    {
      var r := Update(events[i], model);
      if r.None? {
        LoopStops(model, events[i..]);
        quit := true;
        break;
      }
      assert events[i..][1..] == events[i + 1..];
      AcceptedFrameRendered(frames, model, events[i..]);
      model := r.value;
      frames := frames + [View(model)];
      i := i + 1;
    }
    if !quit {
      LoopStops(model, events[i..]);
    }
  }
}
