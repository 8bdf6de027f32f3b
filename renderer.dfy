/** `render` of markdown-renderer.js, step by step: the two replacement scans
    that grow `mathBlocks`, the parse with its error path, and the
    restoration loop that swaps placeholder nodes in place. */
module Renderer {
  import opened Wrappers
  import opened MathPlaceholders
  import opened MathProperties

  /** The regular-expression engine's search for the closing `$$` of a
      display span opened just before `from`. */
  method FindClosingPair(s: string, from: nat) returns (j: nat)
    requires from <= |s|
    ensures j == FindDollarPair(s, from)
  {
    j := from;
    while j + 1 < |s| && !(s[j] == '$' && s[j + 1] == '$')
      invariant from <= j <= |s|
      invariant FindDollarPair(s, j) == FindDollarPair(s, from)
      decreases |s| - j
    {
      j := j + 1;
    }
    if j + 1 >= |s| {
      j := |s|;
    }
  }

  /** The loop invariant of `ReplaceDisplaySpans`: what has been emitted plus what the scan still emits is the whole scan. */
  ghost predicate DisplayScanned(s: string, i: nat, out: seq<Piece>, mathBlocks: seq<string>)
  {
    i <= |s|
    && out + DisplayFrom(s, i, |mathBlocks|).pieces == DisplayFrom(s, 0, 0).pieces
    && mathBlocks + DisplayFrom(s, i, |mathBlocks|).blocks == DisplayFrom(s, 0, 0).blocks
  }

  /** Replacing the span `s[i..j+2]` keeps the invariant. */
  lemma {:induction false} DisplayScannedMatch(s: string, i: nat, j: nat, out: seq<Piece>, mathBlocks: seq<string>)
    requires DisplayScanned(s, i, out, mathBlocks)
    requires i + 1 < |s| && s[i] == '$' && s[i + 1] == '$'
    requires j == FindDollarPair(s, i + 2) < |s|
    ensures DisplayScanned(s, j + 2, out + [Ph(|mathBlocks|)], mathBlocks + [s[i..j + 2]])
  {
    var id := |mathBlocks|;
    var span := s[i..j + 2];
    DisplayMatchStep(s, i, id);
    var rest := DisplayFrom(s, j + 2, id + 1);
    assert (out + [Ph(id)]) + rest.pieces == out + ([Ph(id)] + rest.pieces);
    assert (mathBlocks + [span]) + rest.blocks == mathBlocks + ([span] + rest.blocks);
    assert |mathBlocks + [span]| == id + 1;
  }

  /** Keeping the character at `i` keeps the invariant. */
  lemma {:induction false} DisplayScannedSkip(s: string, i: nat, out: seq<Piece>, mathBlocks: seq<string>)
    requires DisplayScanned(s, i, out, mathBlocks) && i < |s|
    requires !(i + 1 < |s| && s[i] == '$' && s[i + 1] == '$' && FindDollarPair(s, i + 2) < |s|)
    ensures DisplayScanned(s, i + 1, out + [Ch(s[i])], mathBlocks)
  {
    DisplaySkipStep(s, i, |mathBlocks|);
    var rest := DisplayFrom(s, i + 1, |mathBlocks|);
    assert (out + [Ch(s[i])]) + rest.pieces == out + ([Ch(s[i])] + rest.pieces);
  }

  /** The first `replace`: each display span is pushed onto `mathBlocks`
      and replaced by a placeholder carrying the index it was pushed at. */
  method ReplaceDisplaySpans(s: string) returns (out: seq<Piece>, mathBlocks: seq<string>)
    ensures Extraction(out, mathBlocks) == DisplayFrom(s, 0, 0)
  {
    mathBlocks := [];
    out := [];
    var i := 0;
    while i < |s|
      invariant DisplayScanned(s, i, out, mathBlocks)
      decreases |s| - i
    {
      var j := |s|;
      if i + 1 < |s| && s[i] == '$' && s[i + 1] == '$' {
        j := FindClosingPair(s, i + 2);
      }
      if j < |s| {
        DisplayScannedMatch(s, i, j, out, mathBlocks);
        out := out + [Ph(|mathBlocks|)];
        mathBlocks := mathBlocks + [s[i..j + 2]];
        i := j + 2;
      } else {
        DisplayScannedSkip(s, i, out, mathBlocks);
        out := out + [Ch(s[i])];
        i := i + 1;
      }
    }
    assert DisplayFrom(s, i, |mathBlocks|) == Extraction([], []);
  }

  /** The search for the end of an inline span's content starting at
      `from`: the first `$` or line break. With `crossPlaceholders`, the
      code as written, a placeholder's markup is content like any other
      text; otherwise a placeholder ends the content. */
  method FindInlineStop(ps: seq<Piece>, from: nat, crossPlaceholders: bool) returns (k: nat)
    requires from <= |ps|
    ensures k == InlineStop(ps, from, crossPlaceholders)
  {
    k := from;
    while k < |ps| && (if ps[k].Ch? then ps[k].c != '$' && ps[k].c != '\n' else crossPlaceholders)
      invariant from <= k <= |ps|
      invariant InlineStop(ps, k, crossPlaceholders) == InlineStop(ps, from, crossPlaceholders)
      decreases |ps| - k
    {
      k := k + 1;
    }
  }

  /** The loop invariant of `ReplaceInlineSpans`: what has been emitted plus what the scan still emits is the whole scan. */
  ghost predicate InlineScanned(ps: seq<Piece>, i: nat, out: seq<Piece>, mathBlocks: seq<string>, mathBlocks0: seq<string>, cross: bool)
  {
    i <= |ps|
    && out + InlineFrom(ps, i, |mathBlocks|, cross).pieces == InlineFrom(ps, 0, |mathBlocks0|, cross).pieces
    && mathBlocks + InlineFrom(ps, i, |mathBlocks|, cross).blocks == mathBlocks0 + InlineFrom(ps, 0, |mathBlocks0|, cross).blocks
  }

  /** Replacing the span `ps[i..k+1]` keeps the invariant. */
  lemma {:induction false} InlineScannedMatch(ps: seq<Piece>, i: nat, k: nat, out: seq<Piece>, mathBlocks: seq<string>, mathBlocks0: seq<string>, cross: bool)
    requires InlineScanned(ps, i, out, mathBlocks, mathBlocks0, cross) && i < |ps|
    requires k == InlineStop(ps, i + 1, cross)
    requires ps[i] == Ch('$') && i + 1 < k < |ps| && ps[k] == Ch('$')
    ensures InlineScanned(ps, k + 1, out + [Ph(|mathBlocks|)], mathBlocks + [SpanText(ps, i, k + 1)], mathBlocks0, cross)
  {
    var id := |mathBlocks|;
    var span := SpanText(ps, i, k + 1);
    assert InlineMatchAt(ps, i, cross);
    InlineMatchStep(ps, i, id, k, cross);
    var rest := InlineFrom(ps, k + 1, id + 1, cross);
    assert (out + [Ph(id)]) + rest.pieces == out + ([Ph(id)] + rest.pieces);
    assert (mathBlocks + [span]) + rest.blocks == mathBlocks + ([span] + rest.blocks);
    assert |mathBlocks + [span]| == id + 1;
  }

  /** Keeping the piece at `i` keeps the invariant. */
  lemma {:induction false} InlineScannedSkip(ps: seq<Piece>, i: nat, out: seq<Piece>, mathBlocks: seq<string>, mathBlocks0: seq<string>, cross: bool)
    requires InlineScanned(ps, i, out, mathBlocks, mathBlocks0, cross) && i < |ps|
    requires ps[i] != Ch('$') || !(i + 1 < InlineStop(ps, i + 1, cross) < |ps| && ps[InlineStop(ps, i + 1, cross)] == Ch('$'))
    ensures InlineScanned(ps, i + 1, out + [ps[i]], mathBlocks, mathBlocks0, cross)
  {
    InlineSkipStep(ps, i, |mathBlocks|, cross);
    var rest := InlineFrom(ps, i + 1, |mathBlocks|, cross);
    assert (out + [ps[i]]) + rest.pieces == out + ([ps[i]] + rest.pieces);
  }

  /** The second `replace`, over the result of the first: each inline span
      is pushed onto `mathBlocks`, continuing its ids, and replaced by a
      placeholder. `crossPlaceholders` is true for the code as written, in
      which an inline span may run across a placeholder (see MathFinding). */
  method ReplaceInlineSpans(ps: seq<Piece>, mathBlocks0: seq<string>, crossPlaceholders: bool) returns (out: seq<Piece>, mathBlocks: seq<string>)
    ensures out == InlineFrom(ps, 0, |mathBlocks0|, crossPlaceholders).pieces
    ensures mathBlocks == mathBlocks0 + InlineFrom(ps, 0, |mathBlocks0|, crossPlaceholders).blocks
  {
    mathBlocks := mathBlocks0;
    out := [];
    var i := 0;
    while i < |ps|
      invariant InlineScanned(ps, i, out, mathBlocks, mathBlocks0, crossPlaceholders)
      decreases |ps| - i
    {
      var k := FindInlineStop(ps, i + 1, crossPlaceholders);
      if ps[i] == Ch('$') && i + 1 < k < |ps| && ps[k] == Ch('$') {
        InlineScannedMatch(ps, i, k, out, mathBlocks, mathBlocks0, crossPlaceholders);
        out := out + [Ph(|mathBlocks|)];
        mathBlocks := mathBlocks + [SpanText(ps, i, k + 1)];
        i := k + 1;
      } else {
        InlineScannedSkip(ps, i, out, mathBlocks, mathBlocks0, crossPlaceholders);
        out := out + [ps[i]];
        i := i + 1;
      }
    }
    assert InlineFrom(ps, i, |mathBlocks|, crossPlaceholders) == Extraction([], []);
  }

  /** Lines 8-19 of `render`: display spans first, then inline spans on what
      is left (`crossPlaceholders` true for the code as written). Every
      placeholder left indexes `mathBlocks`. With placeholders ending inline
      spans, or as written on a text without `$$`, restoring every span
      gives the input back; with placeholders ending inline spans there are
      as many placeholders as recorded spans. */
  method ExtractMath(markdownText: string, crossPlaceholders: bool) returns (textWithPlaceholders: seq<Piece>, mathBlocks: seq<string>)
    ensures Extraction(textWithPlaceholders, mathBlocks) == Extract(markdownText, crossPlaceholders)
    ensures forall k :: 0 <= k < |PhIds(textWithPlaceholders)| ==> PhIds(textWithPlaceholders)[k] < |mathBlocks|
    ensures !crossPlaceholders || NoDisplayPair(markdownText) ==> Expand(textWithPlaceholders, mathBlocks) == markdownText
    ensures !crossPlaceholders ==> |PhIds(textWithPlaceholders)| == |mathBlocks|
  {
    var display, displayBlocks := ReplaceDisplaySpans(markdownText);
    textWithPlaceholders, mathBlocks := ReplaceInlineSpans(display, displayBlocks, crossPlaceholders);
    ExtractIds(markdownText, crossPlaceholders);
    if !crossPlaceholders || NoDisplayPair(markdownText) {
      if crossPlaceholders {
        AsWrittenWithoutDisplay(markdownText);
      }
      ExtractRoundTrip(markdownText);
    }
  }

  /** The `forEach` over `span.math-placeholder`: a placeholder whose id
      indexes `mathBlocks` is replaced by a text node holding that span; any
      other placeholder and every other node is left as it was. */
  method RestoreMathBlocks(doc: array<Node>, mathBlocks: seq<string>)
    modifies doc
    ensures forall k :: 0 <= k < doc.Length ==>
      doc[k] == (if old(doc[k]).Placeholder? && 0 <= old(doc[k]).id < |mathBlocks|
                 then Text(mathBlocks[old(doc[k]).id]) else old(doc[k]))
    ensures doc[..] == Restore(old(doc[..]), mathBlocks)
  {
    var k := 0;
    while k < doc.Length
      invariant 0 <= k <= doc.Length
      invariant forall m :: 0 <= m < k ==> doc[m] == RestoreNode(old(doc[m]), mathBlocks)
      invariant forall m :: k <= m < doc.Length ==> doc[m] == old(doc[m])
      decreases doc.Length - k
    {
      match doc[k] {
        case Placeholder(id) =>
          if 0 <= id < |mathBlocks| {
            doc[k] := Text(mathBlocks[id]);
          }
        case Text(_) =>
      }
      k := k + 1;
    }
  }

  /** `render` up to the restored document: extraction, the parse (None when
      `marked.parse` throws, which yields the fixed error markup and nothing
      else), then restoration. `crossPlaceholders` is true for the code as
      written. */
  method Render(markdownText: string, parse: string -> Option<seq<Node>>, crossPlaceholders: bool) returns (r: RenderResult)
    ensures r == RenderOutcome(markdownText, parse, crossPlaceholders)
    ensures r.ParseFailed? <==> parse(Flatten(Extract(markdownText, crossPlaceholders).pieces)).None?
    ensures r.ParseFailed? ==> r.html == ParseErrorHtml
  {
    var textWithPlaceholders, mathBlocks := ExtractMath(markdownText, crossPlaceholders);
    var parsed := parse(Flatten(textWithPlaceholders));
    if parsed.None? {
      return ParseFailed(ParseErrorHtml);
    }
    var nodes := parsed.value;
    var doc := new Node[|nodes|](k requires 0 <= k < |nodes| => nodes[k]);
    assert doc[..] == nodes;
    RestoreMathBlocks(doc, mathBlocks);
    r := Document(doc[..]);
  }
}
