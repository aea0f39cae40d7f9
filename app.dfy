/**
 * The navigation state machine: the scenario's steps and a cursor that moves
 * one step forward each time the user types one of the current step's key
 * characters. The cursor may run past the last step; the view then keeps
 * showing the last screen.
 */
module App {
  import opened Wrappers
  import opened Seqs
  import opened Content
  import Tui

  datatype Model = Model(content: seq<Content>, pos: nat)

  /** `app`: a model over the given steps with the cursor at the first one. */
  function Start(content: seq<Content>): Model
  {
    Model(content, 0)
  }

  /** The step the cursor designates, `min(pos, len - 1)`: always a valid index, even past the end. */
  function Index(m: Model): (i: nat)
    requires |m.content| > 0
    ensures i < |m.content| && i <= m.pos
    ensures m.pos < |m.content| ==> i == m.pos
    ensures m.pos >= |m.content| - 1 ==> i == |m.content| - 1
  {
    Min(m.pos, |m.content| - 1)
  }

  /** Only a character key reads the current step, so only it needs a non-empty scenario. */
  predicate IsChar(event: Tui.Event)
  {
    event.KeyEvent? && event.key.Char?
  }

  /**
   * `update`: Escape ends the session (`None`); a character that occurs in
   * the current step's key advances the cursor by one; every other event
   * leaves the model as it is.
   */
  function Update(event: Tui.Event, m: Model): (r: Option<Model>)
    requires IsChar(event) ==> |m.content| > 0
    ensures r.None? <==> event == Tui.KeyEvent(Tui.Esc)
    ensures r.Some? ==> r.value.content == m.content
    ensures r.Some? ==> r.value.pos == m.pos || r.value.pos == m.pos + 1
    ensures r.Some? && r.value.pos == m.pos + 1 <==>
              IsChar(event) && event.key.c in m.content[Index(m)].key
    ensures event != Tui.KeyEvent(Tui.Esc) && !IsChar(event) ==> r == Some(m)
  {
    match event
    case KeyEvent(Esc) => None
    case KeyEvent(Char(c)) =>
      var index := Index(m);
      if c in m.content[index].key then Some(m.(pos := m.pos + 1)) else Some(m)
    case _ => Some(m)
  }

  /**
   * `view`: the screen of the designated step. While the cursor is within
   * the scenario that is the cursor's own step; from the last step on it is
   * the last screen.
   */
  function View(m: Model): (ui: Tui.UI)
    requires |m.content| > 0
    ensures m.pos < |m.content| ==> ui == Tui.UI.Content(m.content[m.pos].screen)
    ensures m.pos >= |m.content| - 1 ==> ui == Tui.UI.Content(m.content[|m.content| - 1].screen)
  {
    var index := Index(m);
    Tui.UI.Content(m.content[index].screen)
  }

  /** A freshly started app shows the first screen. */
  lemma StartShowsFirstScreen(content: seq<Content>)
    requires |content| > 0
    ensures View(Start(content)) == Tui.UI.Content(content[0].screen)
  {
  }

  /** Once the cursor has reached the last step, no event changes what is shown. */
  lemma ViewStaysOnLastScreen(event: Tui.Event, m: Model)
    requires |m.content| > 0 && m.pos >= |m.content| - 1
    ensures Update(event, m).Some? ==> View(Update(event, m).value) == View(m)
  {
  }

  /** Typing a key character of the current step, while not yet on the last step, shows the next screen. */
  lemma KeyAdvancesScreen(c: char, m: Model)
    requires m.pos < |m.content| - 1 && c in m.content[m.pos].key
    ensures Update(Tui.KeyEvent(Tui.Char(c)), m) == Some(m.(pos := m.pos + 1))
    ensures View(Update(Tui.KeyEvent(Tui.Char(c)), m).value) == Tui.UI.Content(m.content[m.pos + 1].screen)
  {
  }
}
