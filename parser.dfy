/**
 * Extraction of a scenario from tokenized markdown: screens are the code
 * blocks tagged `screen`, keys are the inline code spans of paragraphs, and
 * the two lists are paired in document order. Reading the file and
 * tokenizing it happen before this module; it starts from the blocks.
 */
module Parser {
  import opened Wrappers
  import opened Seqs
  import opened Markdown
  import opened Content

  const ScreenLanguage: string := "screen"

  /** A code block whose language tag is exactly `screen`. */
  predicate IsScreenBlock(b: Block)
  {
    b.CodeBlock? && b.lang == Some(ScreenLanguage)
  }

  /** The screen text of a block, if it has one: the reference the flat-map is checked against. */
  function ScreenText(b: Block): (t: Option<string>)
    ensures t.Some? <==> IsScreenBlock(b)
    ensures t.Some? ==> t.value == b.text
  {
    if IsScreenBlock(b) then Some(b.text) else None
  }

  /** `markdown_block_to_screen`: one screen for a `screen` code block, none for anything else. */
  function BlockToScreen(b: Block): (screens: seq<string>)
    ensures IsScreenBlock(b) ==> screens == [b.text]
    ensures !IsScreenBlock(b) ==> screens == []
  {
    match b
    case CodeBlock(Some(lang), text) => if lang == ScreenLanguage then [text] else []
    case _ => []
  }

  /** `markdown_span_to_key`: the text of an inline code span; nothing for any other span. */
  function SpanToKey(s: Span): (key: Option<string>)
    ensures key.Some? <==> s.Code?
    ensures s.Code? ==> key == Some(s.text)
  {
    match s
    case Code(text) => Some(text)
    case _ => None
  }

  /** `markdown_block_to_key`: the code-span texts of a paragraph; nothing for any other block. */
  function BlockToKey(b: Block): (keys: seq<string>)
    ensures !b.Paragraph? ==> keys == []
    ensures b.Paragraph? ==> |keys| <= |b.spans|
  {
    match b
    case Paragraph(spans) => FilterMap(spans, SpanToKey)
    case _ => []
  }

  /** All screens of a document, in order. */
  function Screens(blocks: seq<Block>): seq<string>
  {
    FlatMap(blocks, BlockToScreen)
  }

  /** All keys of a document, in order. */
  function Keys(blocks: seq<Block>): seq<string>
  {
    FlatMap(blocks, BlockToKey)
  }

  /**
   * `read_markdown` after tokenizing: the i-th screen is paired with the
   * i-th key, and whichever list is longer loses its tail.
   */
  function ReadMarkdown(blocks: seq<Block>): (content: seq<Content>)
    ensures |content| == Min(|Screens(blocks)|, |Keys(blocks)|)
    ensures forall i :: 0 <= i < |content| ==>
              content[i] == Content(Screens(blocks)[i], Keys(blocks)[i])
  {
    var pairs := Zip(Screens(blocks), Keys(blocks));
    seq(|pairs|, i requires 0 <= i < |pairs| => Content(pairs[i].0, pairs[i].1))
  }

  /** Screen extraction is a filter over the blocks: each block gives at most one screen. */
  lemma {:induction false} ScreensAreScreenBlocks(blocks: seq<Block>)
    ensures Screens(blocks) == FilterMap(blocks, ScreenText)
  {
    if blocks != [] {
      ScreensAreScreenBlocks(blocks[1..]);
    }
  }

  /**
   * The screens are the texts of the top-level `screen` code blocks, every
   * one of them and nothing else, in document order.
   */
  lemma ScreensInDocumentOrder(blocks: seq<Block>)
    ensures var idx := Kept(blocks, ScreenText);
      && |Screens(blocks)| == |idx|
      && (forall k :: 0 <= k < |idx| ==>
            IsScreenBlock(blocks[idx[k]]) && Screens(blocks)[k] == blocks[idx[k]].text)
      && (forall k, l :: 0 <= k < l < |idx| ==> idx[k] < idx[l])
      && (forall j :: 0 <= j < |blocks| && IsScreenBlock(blocks[j]) ==> j in idx)
  {
    ScreensAreScreenBlocks(blocks);
    FilterMapKept(blocks, ScreenText);
  }

  /**
   * The keys of a paragraph are the texts of its inline code spans, every
   * one of them and nothing else, in order.
   */
  lemma ParagraphKeys(spans: seq<Span>)
    ensures var idx := Kept(spans, SpanToKey);
      var keys := BlockToKey(Paragraph(spans));
      && |keys| == |idx|
      && (forall k :: 0 <= k < |idx| ==> spans[idx[k]] == Code(keys[k]))
      && (forall k, l :: 0 <= k < l < |idx| ==> idx[k] < idx[l])
      && (forall j :: 0 <= j < |spans| && spans[j].Code? ==> j in idx)
  {
    FilterMapKept(spans, SpanToKey);
  }

  /** Key extraction keeps document order across blocks. */
  lemma KeysAppend(a: seq<Block>, b: seq<Block>)
    ensures Keys(a + b) == Keys(a) + Keys(b)
  {
    FlatMapAppend(a, b, BlockToKey);
  }

  /** Screen extraction keeps document order across blocks. */
  lemma ScreensAppend(a: seq<Block>, b: seq<Block>)
    ensures Screens(a + b) == Screens(a) + Screens(b)
  {
    FlatMapAppend(a, b, BlockToScreen);
  }

  /** A block contributes to the keys exactly what `BlockToKey` gives for it. */
  lemma KeysOfBlock(b: Block)
    ensures Keys([b]) == BlockToKey(b)
  {
    assert [b][1..] == [];
    assert FlatMap([b], BlockToKey) == BlockToKey(b) + FlatMap([b][1..], BlockToKey);
  }

  /**
   * The extracted scenario is non-empty (so the app can show and update it)
   * exactly when the document has a `screen` code block and a paragraph
   * with an inline code span.
   */
  lemma ReadMarkdownNonEmpty(blocks: seq<Block>)
    ensures ReadMarkdown(blocks) != [] <==>
      (exists j :: 0 <= j < |blocks| && IsScreenBlock(blocks[j])) &&
      (exists j, k :: 0 <= j < |blocks| && blocks[j].Paragraph? &&
                      0 <= k < |blocks[j].spans| && blocks[j].spans[k].Code?)
  {
    ScreensInDocumentOrder(blocks);
    FlatMapEmpty(blocks, BlockToKey);
    forall j | 0 <= j < |blocks| && blocks[j].Paragraph?
      ensures BlockToKey(blocks[j]) == [] <==>
        forall k :: 0 <= k < |blocks[j].spans| ==> !blocks[j].spans[k].Code?
    {
      FilterMapEmpty(blocks[j].spans, SpanToKey);
    }
  }

  /**
   * Where a key and a screen sit relative to each other does not matter:
   * a part of the document without screens and a part without keys pair
   * up the same whichever comes first.
   */
  lemma PairingIgnoresInterleaving(a: seq<Block>, b: seq<Block>)
    requires Screens(a) == [] && Keys(b) == []
    ensures ReadMarkdown(a + b) == ReadMarkdown(b + a)
  {
    ScreensAppend(a, b);
    ScreensAppend(b, a);
    KeysAppend(a, b);
    KeysAppend(b, a);
  }

  /** `p` comes before `q` in document order: an earlier block, or an earlier span of the same block. */
  predicate Before(p: (nat, nat), q: (nat, nat))
  {
    p.0 < q.0 || (p.0 == q.0 && p.1 < q.1)
  }

  /** The (block, span) positions of the inline code spans of block `j`, if it is a paragraph. */
  function CodeSpansOf(j: nat, b: Block): (pos: seq<(nat, nat)>)
    ensures forall i :: 0 <= i < |pos| ==>
              pos[i].0 == j && b.Paragraph? && pos[i].1 < |b.spans| && b.spans[pos[i].1].Code?
    ensures forall i, l :: 0 <= i < l < |pos| ==> pos[i].1 < pos[l].1
  {
    if b.Paragraph? then
      var idx := Kept(b.spans, SpanToKey);
      seq(|idx|, i requires 0 <= i < |idx| => (j, idx[i]))
    else []
  }

  /** Every inline code span of a paragraph has its position listed. */
  lemma CodeSpansOfComplete(j: nat, b: Block, k: nat)
    requires b.Paragraph? && k < |b.spans| && b.spans[k].Code?
    ensures (j, k) in CodeSpansOf(j, b)
  {
    var idx := Kept(b.spans, SpanToKey);
    assert SpanToKey(b.spans[k]).Some?;
    var i :| 0 <= i < |idx| && idx[i] == k;
    assert CodeSpansOf(j, b)[i] == (j, k);
  }

  /**
   * The positions of every inline code span of every paragraph of the
   * document, in document order: the reference the keys are checked against.
   * That no code span is missing is `CodeSpanPositionsComplete`.
   */
  function CodeSpanPositions(blocks: seq<Block>): (pos: seq<(nat, nat)>)
    ensures forall i :: 0 <= i < |pos| ==>
              pos[i].0 < |blocks| && blocks[pos[i].0].Paragraph? &&
              pos[i].1 < |blocks[pos[i].0].spans| && blocks[pos[i].0].spans[pos[i].1].Code?
    ensures forall i, l :: 0 <= i < l < |pos| ==> Before(pos[i], pos[l])
  {
    if blocks == [] then []
    else
      var n := |blocks| - 1;
      CodeSpanPositions(blocks[..n]) + CodeSpansOf(n, blocks[n])
  }

  /** Every inline code span of every paragraph has its position listed. */
  lemma {:induction false} CodeSpanPositionsComplete(blocks: seq<Block>, j: nat, k: nat)
    requires j < |blocks| && blocks[j].Paragraph? && k < |blocks[j].spans| && blocks[j].spans[k].Code?
    ensures (j, k) in CodeSpanPositions(blocks)
  {
    var n := |blocks| - 1;
    if j < n {
      assert blocks[..n][j] == blocks[j];
      CodeSpanPositionsComplete(blocks[..n], j, k);
    } else {
      CodeSpansOfComplete(n, blocks[n], k);
    }
  }

  /** One block's keys, against the positions of that block's code spans. */
  lemma BlockKeysAtPositions(j: nat, b: Block)
    ensures |BlockToKey(b)| == |CodeSpansOf(j, b)|
    ensures forall l :: 0 <= l < |CodeSpansOf(j, b)| ==>
              b.spans[CodeSpansOf(j, b)[l].1] == Code(BlockToKey(b)[l])
  {
    if b.Paragraph? {
      ParagraphKeys(b.spans);
    }
  }

  /** Key `i` is the text of the code span at position `pos[i]` of `blocks`. */
  ghost predicate KeysAt(blocks: seq<Block>, keys: seq<string>, pos: seq<(nat, nat)>)
  {
    && |keys| == |pos|
    && forall i :: 0 <= i < |pos| ==>
         pos[i].0 < |blocks| && blocks[pos[i].0].Paragraph? && pos[i].1 < |blocks[pos[i].0].spans|
         && blocks[pos[i].0].spans[pos[i].1] == Code(keys[i])
  }

  /** Appending a block and its keys at its own positions keeps keys and positions in step. */
  lemma KeysAtAppend(init: seq<Block>, b: Block, front: seq<string>, tail: seq<string>,
                     before: seq<(nat, nat)>, here: seq<(nat, nat)>)
    requires KeysAt(init, front, before)
    requires |tail| == |here|
    requires forall l :: 0 <= l < |here| ==>
               here[l].0 == |init| && b.Paragraph? && here[l].1 < |b.spans| && b.spans[here[l].1] == Code(tail[l])
    ensures KeysAt(init + [b], front + tail, before + here)
  {
    var blocks, keys, pos := init + [b], front + tail, before + here;
    forall i | 0 <= i < |pos|
      ensures pos[i].0 < |blocks| && blocks[pos[i].0].Paragraph? && pos[i].1 < |blocks[pos[i].0].spans|
              && blocks[pos[i].0].spans[pos[i].1] == Code(keys[i])
    {
      if i < |before| {
        assert pos[i] == before[i] && keys[i] == front[i];
        assert blocks[before[i].0] == init[before[i].0];
      } else {
        assert pos[i] == here[i - |before|] && keys[i] == tail[i - |before|];
      }
    }
  }

  /** The key at each position is the text of the code span found there. */
  lemma {:induction false} KeysAtPositions(blocks: seq<Block>)
    ensures KeysAt(blocks, Keys(blocks), CodeSpanPositions(blocks))
  {
    if blocks != [] {
      var n := |blocks| - 1;
      var init := blocks[..n];
      KeysAtPositions(init);
      assert blocks == init + [blocks[n]];
      KeysAppend(init, [blocks[n]]);
      KeysOfBlock(blocks[n]);
      BlockKeysAtPositions(n, blocks[n]);
      KeysAtAppend(init, blocks[n], Keys(init), BlockToKey(blocks[n]),
                   CodeSpanPositions(init), CodeSpansOf(n, blocks[n]));
    }
  }

  /**
   * The keys are the texts of all inline code spans that are direct spans
   * of top-level paragraphs, and nothing else, in document order.
   */
  lemma KeysInDocumentOrder(blocks: seq<Block>)
    ensures var pos := CodeSpanPositions(blocks);
      && |Keys(blocks)| == |pos|
      && (forall i :: 0 <= i < |pos| ==>
            blocks[pos[i].0].Paragraph? && blocks[pos[i].0].spans[pos[i].1] == Code(Keys(blocks)[i]))
      && (forall i, l :: 0 <= i < l < |pos| ==> Before(pos[i], pos[l]))
      && (forall j, k :: (0 <= j < |blocks| && blocks[j].Paragraph? &&
                          0 <= k < |blocks[j].spans| && blocks[j].spans[k].Code?) ==> (j, k) in pos)
  {
    KeysAtPositions(blocks);
    forall j, k | 0 <= j < |blocks| && blocks[j].Paragraph? &&
                  0 <= k < |blocks[j].spans| && blocks[j].spans[k].Code?
      ensures (j, k) in CodeSpanPositions(blocks)
    {
      CodeSpanPositionsComplete(blocks, j, k);
    }
  }
}
