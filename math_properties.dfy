/** What the extraction and restoration of math spans guarantee: the shape
    of every recorded span, sequential ids, text without `$` left alone, and
    the round trip through restoration; and the input on which the inline
    pass as written loses a display span. */
module MathProperties {
  import opened Wrappers
  import opened Strings
  import opened MathPlaceholders

  /** What a piece reads as once every placeholder with a recorded span has
      been restored (an unrestored placeholder has no text). */
  function PieceText(p: Piece, blocks: seq<string>): string {
    match p
    case Ch(c) => [c]
    case Ph(id) => if id < |blocks| then blocks[id] else []
  }

  function Expand(ps: seq<Piece>, blocks: seq<string>): string {
    if ps == [] then [] else PieceText(ps[0], blocks) + Expand(ps[1..], blocks)
  }

  /** Ids of the placeholders, in text order. */
  function PhIds(ps: seq<Piece>): seq<nat> {
    if ps == [] then [] else (if ps[0].Ph? then [ps[0].id] else []) + PhIds(ps[1..])
  }

  /** [from, from + 1, …, from + n - 1] */
  function Ids(from: nat, n: nat): seq<nat>
    decreases n
  {
    if n == 0 then [] else [from] + Ids(from + 1, n - 1)
  }

  function Below(xs: seq<nat>, n: nat): seq<nat> {
    if xs == [] then [] else (if xs[0] < n then [xs[0]] else []) + Below(xs[1..], n)
  }

  function AtLeast(xs: seq<nat>, n: nat): seq<nat> {
    if xs == [] then [] else (if xs[0] >= n then [xs[0]] else []) + AtLeast(xs[1..], n)
  }

  /** A recorded display span: `$$`, the shortest content, `$$`. */
  predicate DisplaySpan(b: string) {
    4 <= |b| && b[..2] == "$$" && b[|b| - 2..] == "$$" &&
    forall m :: 2 <= m < |b| - 2 ==> !PairAt(b, m)
  }

  /** A suffix is its first element and the rest. */
  lemma {:induction false} SliceCons<T>(s: seq<T>, i: nat)
    requires i < |s|
    ensures s[i..] == [s[i]] + s[i + 1..]
  {
  }

  /** A suffix split at `j`. */
  lemma {:induction false} SliceSplit<T>(s: seq<T>, i: nat, j: nat)
    requires i <= j <= |s|
    ensures s[i..] == s[i..j] + s[j..]
  {
  }

  /** A recorded inline span: `$`, at least one character that is neither `$`
      nor a line break, `$`. */
  predicate InlineSpan(b: string) {
    3 <= |b| && b[0] == '$' && b[|b| - 1] == '$' &&
    forall m :: 0 < m < |b| - 1 ==> b[m] != '$' && b[m] != '\n'
  }

  function Chars(t: string): (r: seq<Piece>)
    ensures |r| == |t|
    ensures forall k :: 0 <= k < |t| ==> r[k] == Ch(t[k])
  {
    if t == [] then [] else [Ch(t[0])] + Chars(t[1..])
  }

  // ---------------------------------------------------------------------
  // Small facts about pieces

  lemma {:induction false} ExpandAppend(a: seq<Piece>, b: seq<Piece>, blocks: seq<string>)
    ensures Expand(a + b, blocks) == Expand(a, blocks) + Expand(b, blocks)
  {
    if a != [] {
      assert (a + b)[0] == a[0];
      assert (a + b)[1..] == a[1..] + b;
      ExpandAppend(a[1..], b, blocks);
      AppendAssoc(PieceText(a[0], blocks), Expand(a[1..], blocks), Expand(b, blocks));
    } else {
      assert a + b == b;
    }
  }

  lemma {:induction false} ExpandCons(p: Piece, ps: seq<Piece>, blocks: seq<string>)
    ensures Expand([p] + ps, blocks) == PieceText(p, blocks) + Expand(ps, blocks)
  {
    assert ([p] + ps)[0] == p;
    assert ([p] + ps)[1..] == ps;
  }

  lemma {:induction false} FlattenAppend(a: seq<Piece>, b: seq<Piece>)
    ensures Flatten(a + b) == Flatten(a) + Flatten(b)
  {
    if a != [] {
      assert (a + b)[0] == a[0];
      assert (a + b)[1..] == a[1..] + b;
      FlattenAppend(a[1..], b);
      AppendAssoc(PieceMarkup(a[0]), Flatten(a[1..]), Flatten(b));
    } else {
      assert a + b == b;
    }
  }

  lemma {:induction false} AppendAssoc<T>(x: seq<T>, y: seq<T>, z: seq<T>)
    ensures (x + y) + z == x + (y + z)
  {
  }

  lemma {:induction false} PhIdsAppend(a: seq<Piece>, b: seq<Piece>)
    ensures PhIds(a + b) == PhIds(a) + PhIds(b)
  {
    if a != [] {
      assert (a + b)[0] == a[0];
      assert (a + b)[1..] == a[1..] + b;
      PhIdsAppend(a[1..], b);
      AppendAssoc(if a[0].Ph? then [a[0].id] else [], PhIds(a[1..]), PhIds(b));
    } else {
      assert a + b == b;
    }
  }

  lemma {:induction false} PhIdsCons(p: Piece, ps: seq<Piece>)
    ensures PhIds([p] + ps) == (if p.Ph? then [p.id] else []) + PhIds(ps)
  {
    assert ([p] + ps)[0] == p;
    assert ([p] + ps)[1..] == ps;
  }

  lemma {:induction false} SplitAppend(a: seq<nat>, b: seq<nat>, n: nat)
    ensures Below(a + b, n) == Below(a, n) + Below(b, n)
    ensures AtLeast(a + b, n) == AtLeast(a, n) + AtLeast(b, n)
  {
    if a != [] {
      assert (a + b)[0] == a[0];
      assert (a + b)[1..] == a[1..] + b;
      SplitAppend(a[1..], b, n);
      AppendAssoc(if a[0] < n then [a[0]] else [], Below(a[1..], n), Below(b, n));
      AppendAssoc(if a[0] >= n then [a[0]] else [], AtLeast(a[1..], n), AtLeast(b, n));
    } else {
      assert a + b == b;
    }
  }

  /** Over characters alone, the text handed on, the restored text and the
      pieces agree, and there is no placeholder. */
  lemma {:induction false} CharsOnly(ps: seq<Piece>, blocks: seq<string>)
    requires IsChars(ps)
    ensures |Flatten(ps)| == |ps|
    ensures forall m :: 0 <= m < |ps| ==> Flatten(ps)[m] == ps[m].c
    ensures Expand(ps, blocks) == Flatten(ps)
    ensures PhIds(ps) == []
  {
    if ps != [] {
      CharsOnly(ps[1..], blocks);
      assert Flatten(ps) == [ps[0].c] + Flatten(ps[1..]);
    }
  }

  lemma {:induction false} IdsAt(from: nat, n: nat)
    ensures |Ids(from, n)| == n
    ensures forall k :: 0 <= k < n ==> Ids(from, n)[k] == from + k
    decreases n
  {
    if n > 0 {
      IdsAt(from + 1, n - 1);
    }
  }

  /** Every id lands on one side of the split. */
  lemma {:induction false} BelowAtLeastCount(xs: seq<nat>, n: nat)
    ensures |Below(xs, n)| + |AtLeast(xs, n)| == |xs|
  {
    if xs != [] {
      BelowAtLeastCount(xs[1..], n);
    }
  }

  lemma {:induction false} BelowAtLeastBound(xs: seq<nat>, n: nat, hi: nat)
    requires n <= hi
    requires forall k :: 0 <= k < |AtLeast(xs, n)| ==> AtLeast(xs, n)[k] < hi
    ensures forall k :: 0 <= k < |xs| ==> xs[k] < hi
  {
    if xs != [] {
      if xs[0] >= n {
        assert AtLeast(xs, n) == [xs[0]] + AtLeast(xs[1..], n);
        assert AtLeast(xs, n)[0] == xs[0];
        forall k | 0 <= k < |AtLeast(xs[1..], n)| ensures AtLeast(xs[1..], n)[k] < hi {
          assert AtLeast(xs, n)[k + 1] == AtLeast(xs[1..], n)[k];
        }
      } else {
        assert AtLeast(xs, n) == AtLeast(xs[1..], n);
      }
      BelowAtLeastBound(xs[1..], n, hi);
      forall k | 0 <= k < |xs| ensures xs[k] < hi {
        if k > 0 { assert xs[k] == xs[1..][k - 1]; }
      }
    }
  }

  // ---------------------------------------------------------------------
  // One step of each scan

  /** A step of the display scan at `i` that replaces a span. */
  lemma {:induction false} DisplayMatchStep(s: string, i: nat, next: nat)
    requires i < |s| && DisplayMatchAt(s, i)
    ensures var j := FindDollarPair(s, i + 2); var rest := DisplayFrom(s, j + 2, next + 1);
      DisplayFrom(s, i, next) == Extraction([Ph(next)] + rest.pieces, [s[i..j + 2]] + rest.blocks)
  {
  }

  /** A step of the display scan at `i` that keeps one character. */
  lemma {:induction false} DisplaySkipStep(s: string, i: nat, next: nat)
    requires i < |s| && !DisplayMatchAt(s, i)
    ensures var rest := DisplayFrom(s, i + 1, next);
      DisplayFrom(s, i, next) == Extraction([Ch(s[i])] + rest.pieces, rest.blocks)
  {
  }

  /** A step of the inline scan at `i` that replaces a span. */
  lemma {:induction false} InlineMatchStep(ps: seq<Piece>, i: nat, next: nat, k: nat, cross: bool)
    requires i < |ps| && InlineMatchAt(ps, i, cross) && k == InlineStop(ps, i + 1, cross)
    ensures k + 1 <= |ps|
    ensures InlineFrom(ps, i, next, cross)
      == Extraction([Ph(next)] + InlineFrom(ps, k + 1, next + 1, cross).pieces,
                    [SpanText(ps, i, k + 1)] + InlineFrom(ps, k + 1, next + 1, cross).blocks)
  {
  }

  /** A step of the inline scan at `i` that keeps one piece. */
  lemma {:induction false} InlineSkipStep(ps: seq<Piece>, i: nat, next: nat, cross: bool)
    requires i < |ps|
    requires ps[i] != Ch('$') || !(i + 1 < InlineStop(ps, i + 1, cross) < |ps| && ps[InlineStop(ps, i + 1, cross)] == Ch('$'))
    ensures InlineFrom(ps, i, next, cross)
      == Extraction([ps[i]] + InlineFrom(ps, i + 1, next, cross).pieces, InlineFrom(ps, i + 1, next, cross).blocks)
  {
    assert !InlineMatchAt(ps, i, cross);
  }

  // ---------------------------------------------------------------------
  // Display pass

  /** Every display span starts and ends with `$$` and closes at the first
      `$$` after its opening. */
  lemma {:induction false} DisplaySpans(s: string, i: nat, next: nat)
    requires i <= |s|
    ensures forall k :: 0 <= k < |DisplayFrom(s, i, next).blocks| ==> DisplaySpan(DisplayFrom(s, i, next).blocks[k])
    decreases |s| - i
  {
    if i < |s| {
      if DisplayMatchAt(s, i) {
        var j := FindDollarPair(s, i + 2);
        DisplayMatchStep(s, i, next);
        DisplaySpans(s, j + 2, next + 1);
        MatchedDisplaySpan(s, i);
      } else {
        DisplaySkipStep(s, i, next);
        DisplaySpans(s, i + 1, next);
      }
    }
  }

  /** The text of a matched display span has the span's shape. */
  lemma {:induction false} MatchedDisplaySpan(s: string, i: nat)
    requires i < |s| && DisplayMatchAt(s, i)
    ensures DisplaySpan(s[i..FindDollarPair(s, i + 2) + 2])
  {
    var j := FindDollarPair(s, i + 2);
    var b := s[i..j + 2];
    FindDollarPairFirst(s, i + 2);
    assert b[..2] == "$$" && b[|b| - 2..] == "$$";
    forall m | 2 <= m < |b| - 2 ensures !PairAt(b, m) {
      assert b[m] == s[i + m] && b[m + 1] == s[i + m + 1];
      assert !PairAt(s, i + m);
    }
  }

  /** The placeholders of the display pass carry the ids next, next + 1, …,
      one per recorded span, in order. */
  lemma {:induction false} DisplayIds(s: string, i: nat, next: nat)
    requires i <= |s|
    ensures PhIds(DisplayFrom(s, i, next).pieces) == Ids(next, |DisplayFrom(s, i, next).blocks|)
    decreases |s| - i
  {
    if i < |s| {
      if DisplayMatchAt(s, i) {
        var j := FindDollarPair(s, i + 2);
        DisplayMatchStep(s, i, next);
        DisplayIds(s, j + 2, next + 1);
        var rest := DisplayFrom(s, j + 2, next + 1);
        PhIdsCons(Ph(next), rest.pieces);
      } else {
        DisplaySkipStep(s, i, next);
        DisplayIds(s, i + 1, next);
        var rest := DisplayFrom(s, i + 1, next);
        PhIdsCons(Ch(s[i]), rest.pieces);
      }
    }
  }

  /** `rb` sits in `blocks` from index `next` on. */
  predicate RecordedAt(blocks: seq<string>, next: nat, rb: seq<string>) {
    next + |rb| <= |blocks| && blocks[next..next + |rb|] == rb
  }

  lemma {:induction false} RecordedAtCons(blocks: seq<string>, next: nat, b: string, rb: seq<string>)
    requires RecordedAt(blocks, next, [b] + rb)
    ensures blocks[next] == b && RecordedAt(blocks, next + 1, rb)
  {
    assert blocks[next..next + 1 + |rb|][0] == b;
    assert blocks[next + 1..next + 1 + |rb|] == blocks[next..next + 1 + |rb|][1..];
  }

  /** A placeholder whose span is recorded expands to that span. */
  lemma {:induction false} ExpandRecorded(next: nat, rest: seq<Piece>, blocks: seq<string>, b: string, rb: seq<string>)
    requires RecordedAt(blocks, next, [b] + rb)
    ensures RecordedAt(blocks, next + 1, rb)
    ensures Expand([Ph(next)] + rest, blocks) == b + Expand(rest, blocks)
  {
    RecordedAtCons(blocks, next, b, rb);
    ExpandCons(Ph(next), rest, blocks);
  }

  /** Restoring the display spans gives back the text. */
  lemma {:induction false} DisplayExpand(s: string, i: nat, next: nat, blocks: seq<string>)
    requires i <= |s|
    requires RecordedAt(blocks, next, DisplayFrom(s, i, next).blocks)
    ensures Expand(DisplayFrom(s, i, next).pieces, blocks) == s[i..]
    decreases |s| - i, 1
  {
    if i == |s| {
      assert s[i..] == [];
    } else if DisplayMatchAt(s, i) {
      DisplayExpandMatch(s, i, next, blocks);
    } else {
      DisplayExpandSkip(s, i, next, blocks);
    }
  }

  lemma {:induction false} DisplayExpandMatch(s: string, i: nat, next: nat, blocks: seq<string>)
    requires i < |s| && DisplayMatchAt(s, i)
    requires RecordedAt(blocks, next, DisplayFrom(s, i, next).blocks)
    ensures Expand(DisplayFrom(s, i, next).pieces, blocks) == s[i..]
    decreases |s| - i, 0
  {
    var j := FindDollarPair(s, i + 2);
    DisplayMatchRecorded(s, i, next, j, blocks);
    DisplayExpand(s, j + 2, next + 1, blocks);
    SliceSplit(s, i, j + 2);
  }

  /** The span a display placeholder stands for is recorded in front of the
      rest of the pass's spans. */
  lemma {:induction false} DisplayMatchRecorded(s: string, i: nat, next: nat, j: nat, blocks: seq<string>)
    requires i < |s| && DisplayMatchAt(s, i) && j == FindDollarPair(s, i + 2)
    requires RecordedAt(blocks, next, DisplayFrom(s, i, next).blocks)
    ensures j + 2 <= |s|
    ensures RecordedAt(blocks, next + 1, DisplayFrom(s, j + 2, next + 1).blocks)
    ensures Expand(DisplayFrom(s, i, next).pieces, blocks)
      == s[i..j + 2] + Expand(DisplayFrom(s, j + 2, next + 1).pieces, blocks)
  {
    DisplayMatchStep(s, i, next);
    ExpandAfterPlaceholder(DisplayFrom(s, i, next), DisplayFrom(s, j + 2, next + 1), s[i..j + 2], next, blocks);
  }

  lemma {:induction false} DisplayExpandSkip(s: string, i: nat, next: nat, blocks: seq<string>)
    requires i < |s| && !DisplayMatchAt(s, i)
    requires RecordedAt(blocks, next, DisplayFrom(s, i, next).blocks)
    ensures Expand(DisplayFrom(s, i, next).pieces, blocks) == s[i..]
    decreases |s| - i, 0
  {
    var rest := DisplayFrom(s, i + 1, next);
    DisplaySkipStep(s, i, next);
    DisplayExpand(s, i + 1, next, blocks);
    ExpandCons(Ch(s[i]), rest.pieces, blocks);
    SliceCons(s, i);
  }

  // ---------------------------------------------------------------------
  // Inline pass

  /** Every inline span is `$`, content without `$` or line break, `$`, in
      both scans: placeholder markup holds neither. */
  lemma {:induction false} InlineSpans(ps: seq<Piece>, i: nat, next: nat, cross: bool)
    requires i <= |ps|
    ensures forall k :: 0 <= k < |InlineFrom(ps, i, next, cross).blocks| ==> InlineSpan(InlineFrom(ps, i, next, cross).blocks[k])
    decreases |ps| - i
  {
    if i < |ps| {
      var k := InlineStop(ps, i + 1, cross);
      if InlineMatchAt(ps, i, cross) {
        InlineSpans(ps, k + 1, next + 1, cross);
        InlineMatchStep(ps, i, next, k, cross);
        MatchedInlineSpan(ps, i, k, cross);
      } else {
        InlineSkipStep(ps, i, next, cross);
        InlineSpans(ps, i + 1, next, cross);
      }
    }
  }

  /** Text with neither `$` nor a line break. */
  predicate InlineText(t: string) {
    forall m :: 0 <= m < |t| ==> t[m] != '$' && t[m] != '\n'
  }

  lemma {:induction false} InlineTextAppend(a: string, b: string)
    requires InlineText(a) && InlineText(b)
    ensures InlineText(a + b)
  {
    forall m | 0 <= m < |a + b| ensures (a + b)[m] != '$' && (a + b)[m] != '\n' {
      if m < |a| { assert (a + b)[m] == a[m]; } else { assert (a + b)[m] == b[m - |a|]; }
    }
  }

  /** A piece that may sit inside an inline span reads as at least one
      character, none of them `$` or a line break. */
  lemma {:induction false} ContentMarkup(p: Piece, cross: bool)
    requires InlineContent(p, cross)
    ensures 1 <= |PieceMarkup(p)| && InlineText(PieceMarkup(p))
  {
    match p
    case Ch(c) =>
    case Ph(id) =>
      DecimalDigits(id);
      assert InlineText(Decimal(id));
      assert InlineText(PlaceholderOpen);
      assert InlineText(PlaceholderClose);
      InlineTextAppend(PlaceholderOpen, Decimal(id));
      InlineTextAppend(PlaceholderOpen + Decimal(id), PlaceholderClose);
  }

  /** Inline content reads as inline text, at least one character a piece. */
  lemma {:induction false} SpanTextContent(ps: seq<Piece>, m: nat, e: nat, cross: bool)
    requires m <= e <= |ps|
    requires forall t :: m <= t < e ==> InlineContent(ps[t], cross)
    ensures e - m <= |SpanText(ps, m, e)| && InlineText(SpanText(ps, m, e))
    decreases e - m
  {
    if m < e {
      SpanTextContent(ps, m + 1, e, cross);
      ContentMarkup(ps[m], cross);
      InlineTextAppend(PieceMarkup(ps[m]), SpanText(ps, m + 1, e));
    }
  }

  /** The span text grows at its end one piece at a time. */
  lemma {:induction false} SpanTextSnoc(ps: seq<Piece>, m: nat, e: nat)
    requires m <= e < |ps|
    ensures SpanText(ps, m, e + 1) == SpanText(ps, m, e) + PieceMarkup(ps[e])
    decreases e - m
  {
    if m < e {
      SpanTextSnoc(ps, m + 1, e);
      assert SpanText(ps, m, e + 1) == PieceMarkup(ps[m]) + SpanText(ps, m + 1, e + 1);
      assert SpanText(ps, m, e) == PieceMarkup(ps[m]) + SpanText(ps, m + 1, e);
      AppendAssoc(PieceMarkup(ps[m]), SpanText(ps, m + 1, e), PieceMarkup(ps[e]));
    } else {
      assert SpanText(ps, m, e + 1) == PieceMarkup(ps[m]) + SpanText(ps, m + 1, e + 1);
      assert SpanText(ps, m + 1, e + 1) == [];
    }
  }

  /** The text of a matched inline span has the span's shape. */
  lemma {:induction false} MatchedInlineSpan(ps: seq<Piece>, i: nat, k: nat, cross: bool)
    requires i < |ps| && k == InlineStop(ps, i + 1, cross)
    requires ps[i] == Ch('$') && i + 1 < k < |ps| && ps[k] == Ch('$')
    ensures InlineSpan(SpanText(ps, i, k + 1))
  {
    InlineStopContent(ps, i + 1, cross);
    SpanTextContent(ps, i + 1, k, cross);
    SpanTextSnoc(ps, i + 1, k);
    var c := SpanText(ps, i + 1, k);
    var b := SpanText(ps, i, k + 1);
    assert b == ['$'] + (c + ['$']);
    forall m | 0 < m < |b| - 1 ensures b[m] != '$' && b[m] != '\n' {
      assert b[m] == c[m - 1];
    }
  }

  /** The placeholder ids `ps` already carries are all below `base`. */
  predicate IdsBelow(ps: seq<Piece>, base: nat) {
    forall k :: 0 <= k < |ps| && ps[k].Ph? ==> ps[k].id < base
  }

  /** `PhIds(ps[i..])`, walking `ps` by index. */
  function PhIdsFrom(ps: seq<Piece>, i: nat): seq<nat>
    requires i <= |ps|
    decreases |ps| - i
  {
    if i == |ps| then [] else (if ps[i].Ph? then [ps[i].id] else []) + PhIdsFrom(ps, i + 1)
  }

  /** `Expand(ps[i..], blocks)`, walking `ps` by index. */
  function ExpandFrom(ps: seq<Piece>, i: nat, blocks: seq<string>): string
    requires i <= |ps|
    decreases |ps| - i
  {
    if i == |ps| then [] else PieceText(ps[i], blocks) + ExpandFrom(ps, i + 1, blocks)
  }

  /** The walks by index agree with the functions on the suffix. */
  lemma {:induction false} FromSuffix(ps: seq<Piece>, i: nat, blocks: seq<string>)
    requires i <= |ps|
    ensures PhIdsFrom(ps, i) == PhIds(ps[i..])
    ensures ExpandFrom(ps, i, blocks) == Expand(ps[i..], blocks)
    decreases |ps| - i
  {
    if i < |ps| {
      FromSuffix(ps, i + 1, blocks);
      SliceCons(ps, i);
      PhIdsCons(ps[i], ps[i + 1..]);
      ExpandCons(ps[i], ps[i + 1..], blocks);
    }
  }

  /** The pieces of a matched inline span, from its opening to its closing
      `$`, are characters. */
  lemma {:induction false} InlineMatchCharsAt(ps: seq<Piece>, i: nat)
    requires i < |ps| && InlineMatchAt(ps, i, false)
    ensures forall t :: i <= t <= InlineStop(ps, i + 1, false) ==> ps[t].Ch?
  {
    var k := InlineStop(ps, i + 1, false);
    InlineStopContent(ps, i + 1, false);
    forall t | i <= t <= k ensures ps[t].Ch? {
      if i < t < k { assert InlineContent(ps[t], false); }
    }
  }

  /** Characters carry no placeholder id. */
  lemma {:induction false} PhIdsSkipChars(ps: seq<Piece>, m: nat, e: nat)
    requires m <= e <= |ps|
    requires forall t :: m <= t < e ==> ps[t].Ch?
    ensures PhIdsFrom(ps, m) == PhIdsFrom(ps, e)
    decreases e - m
  {
    if m < e {
      PhIdsSkipChars(ps, m + 1, e);
    }
  }

  /** Characters expand to themselves. */
  lemma {:induction false} ExpandSkipChars(ps: seq<Piece>, m: nat, e: nat, blocks: seq<string>)
    requires m <= e <= |ps|
    requires forall t :: m <= t < e ==> ps[t].Ch?
    ensures ExpandFrom(ps, m, blocks) == SpanText(ps, m, e) + ExpandFrom(ps, e, blocks)
    decreases e - m
  {
    if m < e {
      ExpandSkipChars(ps, m + 1, e, blocks);
      assert PieceText(ps[m], blocks) == PieceMarkup(ps[m]) == [ps[m].c];
      AppendAssoc([ps[m].c], SpanText(ps, m + 1, e), ExpandFrom(ps, e, blocks));
    }
  }

  /** Over characters, the span text is the characters themselves. */
  lemma {:induction false} SpanTextChars(ps: seq<Piece>, m: nat, e: nat)
    requires m <= e <= |ps|
    requires forall t :: m <= t < e ==> ps[t].Ch?
    ensures |SpanText(ps, m, e)| == e - m
    ensures forall t :: 0 <= t < e - m ==> SpanText(ps, m, e)[t] == ps[m + t].c
    decreases e - m
  {
    if m < e {
      SpanTextChars(ps, m + 1, e);
      var rest := SpanText(ps, m + 1, e);
      assert SpanText(ps, m, e) == [ps[m].c] + rest;
      forall t | 0 <= t < e - m ensures SpanText(ps, m, e)[t] == ps[m + t].c {
        if t > 0 { assert SpanText(ps, m, e)[t] == rest[t - 1]; }
      }
    }
  }

  /** The span text is the flattened slice. */
  lemma {:induction false} SpanTextFlatten(ps: seq<Piece>, m: nat, e: nat)
    requires m <= e <= |ps|
    ensures SpanText(ps, m, e) == Flatten(ps[m..e])
    decreases e - m
  {
    if m < e {
      SpanTextFlatten(ps, m + 1, e);
      assert ps[m..e][0] == ps[m];
      assert ps[m..e][1..] == ps[m + 1..e];
    } else {
      assert ps[m..e] == [];
    }
  }

  /** The inline pass adds placeholders next, next + 1, … for its spans, in
      order, in both scans. With placeholders ending spans it also keeps the
      placeholders it is given (all below `base`) in their order. */
  lemma {:induction false} InlineIds(ps: seq<Piece>, i: nat, next: nat, base: nat, cross: bool)
    requires i <= |ps| && base <= next && IdsBelow(ps, base)
    ensures !cross ==> Below(PhIds(InlineFrom(ps, i, next, cross).pieces), base) == PhIdsFrom(ps, i)
    ensures AtLeast(PhIds(InlineFrom(ps, i, next, cross).pieces), base) == Ids(next, |InlineFrom(ps, i, next, cross).blocks|)
    decreases |ps| - i, 1
  {
    if i < |ps| {
      if InlineMatchAt(ps, i, cross) {
        InlineIdsMatch(ps, i, next, base, cross);
      } else {
        InlineIdsSkip(ps, i, next, base, cross);
      }
    }
  }

  lemma {:induction false} InlineIdsMatch(ps: seq<Piece>, i: nat, next: nat, base: nat, cross: bool)
    requires i < |ps| && base <= next && IdsBelow(ps, base) && InlineMatchAt(ps, i, cross)
    ensures !cross ==> Below(PhIds(InlineFrom(ps, i, next, cross).pieces), base) == PhIdsFrom(ps, i)
    ensures AtLeast(PhIds(InlineFrom(ps, i, next, cross).pieces), base) == Ids(next, |InlineFrom(ps, i, next, cross).blocks|)
    decreases |ps| - i, 0
  {
    var k := InlineStop(ps, i + 1, cross);
    var rest := InlineFrom(ps, k + 1, next + 1, cross);
    InlineIds(ps, k + 1, next + 1, base, cross);
    InlineMatchStep(ps, i, next, k, cross);
    if !cross {
      InlineMatchCharsAt(ps, i);
      PhIdsSkipChars(ps, i, k + 1);
    }
    IdsAfterPlaceholder(InlineFrom(ps, i, next, cross), rest,
                        SpanText(ps, i, k + 1), next, base, Below(PhIds(rest.pieces), base));
  }

  /** A new placeholder in front of an extraction whose ids split as `kept`
      below `base` and next + 1, … from `base` on. */
  lemma {:induction false} IdsAfterPlaceholder(x: Extraction, rest: Extraction, b: string, next: nat, base: nat, kept: seq<nat>)
    requires base <= next
    requires x == Extraction([Ph(next)] + rest.pieces, [b] + rest.blocks)
    requires Below(PhIds(rest.pieces), base) == kept
    requires AtLeast(PhIds(rest.pieces), base) == Ids(next + 1, |rest.blocks|)
    ensures Below(PhIds(x.pieces), base) == kept
    ensures AtLeast(PhIds(x.pieces), base) == Ids(next, |x.blocks|)
  {
    PhIdsCons(Ph(next), rest.pieces);
    SplitAppend([next], PhIds(rest.pieces), base);
    assert Below([next], base) == [] && AtLeast([next], base) == [next];
    assert Ids(next, 1 + |rest.blocks|) == [next] + Ids(next + 1, |rest.blocks|);
  }

  lemma {:induction false} InlineIdsSkip(ps: seq<Piece>, i: nat, next: nat, base: nat, cross: bool)
    requires i < |ps| && base <= next && IdsBelow(ps, base) && !InlineMatchAt(ps, i, cross)
    ensures !cross ==> Below(PhIds(InlineFrom(ps, i, next, cross).pieces), base) == PhIdsFrom(ps, i)
    ensures AtLeast(PhIds(InlineFrom(ps, i, next, cross).pieces), base) == Ids(next, |InlineFrom(ps, i, next, cross).blocks|)
    decreases |ps| - i, 0
  {
    var rest := InlineFrom(ps, i + 1, next, cross);
    InlineIds(ps, i + 1, next, base, cross);
    InlineSkipStep(ps, i, next, cross);
    IdsAfterKept(InlineFrom(ps, i, next, cross), rest, ps[i], next, base, Below(PhIds(rest.pieces), base));
  }

  /** A kept piece in front of an extraction: a placeholder it carries has an
      id below `base`. */
  lemma {:induction false} IdsAfterKept(x: Extraction, rest: Extraction, p: Piece, next: nat, base: nat, kept: seq<nat>)
    requires p.Ph? ==> p.id < base
    requires x == Extraction([p] + rest.pieces, rest.blocks)
    requires Below(PhIds(rest.pieces), base) == kept
    requires AtLeast(PhIds(rest.pieces), base) == Ids(next, |rest.blocks|)
    ensures Below(PhIds(x.pieces), base) == (if p.Ph? then [p.id] else []) + kept
    ensures AtLeast(PhIds(x.pieces), base) == Ids(next, |x.blocks|)
  {
    var h := if p.Ph? then [p.id] else [];
    PhIdsCons(p, rest.pieces);
    SplitAppend(h, PhIds(rest.pieces), base);
    assert Below(h, base) == h && AtLeast(h, base) == [];
  }

  /** Restoring the inline spans gives back the pieces they replaced. */
  lemma {:induction false} InlineExpand(ps: seq<Piece>, i: nat, next: nat, blocks: seq<string>)
    requires i <= |ps|
    requires RecordedAt(blocks, next, InlineFrom(ps, i, next, false).blocks)
    ensures Expand(InlineFrom(ps, i, next, false).pieces, blocks) == ExpandFrom(ps, i, blocks)
    decreases |ps| - i, 1
  {
    if i < |ps| {
      if InlineMatchAt(ps, i, false) {
        InlineExpandMatch(ps, i, next, blocks);
      } else {
        InlineExpandSkip(ps, i, next, blocks);
      }
    }
  }

  lemma {:induction false} InlineExpandMatch(ps: seq<Piece>, i: nat, next: nat, blocks: seq<string>)
    requires i < |ps| && InlineMatchAt(ps, i, false)
    requires RecordedAt(blocks, next, InlineFrom(ps, i, next, false).blocks)
    ensures Expand(InlineFrom(ps, i, next, false).pieces, blocks) == ExpandFrom(ps, i, blocks)
    decreases |ps| - i, 0
  {
    var k := InlineStop(ps, i + 1, false);
    InlineMatchRecorded(ps, i, next, k, blocks);
    InlineExpand(ps, k + 1, next + 1, blocks);
    InlineMatchExpandFrom(ps, i, k, blocks);
  }

  /** The span an inline placeholder stands for is recorded in front of the
      rest of the pass's spans. */
  lemma {:induction false} InlineMatchRecorded(ps: seq<Piece>, i: nat, next: nat, k: nat, blocks: seq<string>)
    requires i < |ps| && InlineMatchAt(ps, i, false) && k == InlineStop(ps, i + 1, false)
    requires RecordedAt(blocks, next, InlineFrom(ps, i, next, false).blocks)
    ensures RecordedAt(blocks, next + 1, InlineFrom(ps, k + 1, next + 1, false).blocks)
    ensures Expand(InlineFrom(ps, i, next, false).pieces, blocks)
      == SpanText(ps, i, k + 1) + Expand(InlineFrom(ps, k + 1, next + 1, false).pieces, blocks)
  {
    InlineMatchStep(ps, i, next, k, false);
    ExpandAfterPlaceholder(InlineFrom(ps, i, next, false), InlineFrom(ps, k + 1, next + 1, false),
                           SpanText(ps, i, k + 1), next, blocks);
  }

  /** Expanding from an inline span's opening `$` reads the span, then the rest. */
  lemma {:induction false} InlineMatchExpandFrom(ps: seq<Piece>, i: nat, k: nat, blocks: seq<string>)
    requires i < |ps| && InlineMatchAt(ps, i, false) && k == InlineStop(ps, i + 1, false)
    ensures ExpandFrom(ps, i, blocks) == SpanText(ps, i, k + 1) + ExpandFrom(ps, k + 1, blocks)
  {
    InlineMatchCharsAt(ps, i);
    ExpandSkipChars(ps, i, k + 1, blocks);
  }

  /** A placeholder whose span is recorded, in front of an extraction. */
  lemma {:induction false} ExpandAfterPlaceholder(x: Extraction, rest: Extraction, b: string, next: nat, blocks: seq<string>)
    requires x == Extraction([Ph(next)] + rest.pieces, [b] + rest.blocks)
    requires RecordedAt(blocks, next, x.blocks)
    ensures RecordedAt(blocks, next + 1, rest.blocks)
    ensures Expand(x.pieces, blocks) == b + Expand(rest.pieces, blocks)
  {
    ExpandRecorded(next, rest.pieces, blocks, b, rest.blocks);
  }

  lemma {:induction false} InlineExpandSkip(ps: seq<Piece>, i: nat, next: nat, blocks: seq<string>)
    requires i < |ps| && !InlineMatchAt(ps, i, false)
    requires RecordedAt(blocks, next, InlineFrom(ps, i, next, false).blocks)
    ensures Expand(InlineFrom(ps, i, next, false).pieces, blocks) == ExpandFrom(ps, i, blocks)
    decreases |ps| - i, 0
  {
    InlineSkipStep(ps, i, next, false);
    ExpandAfterKept(InlineFrom(ps, i, next, false), InlineFrom(ps, i + 1, next, false), ps[i], blocks);
    InlineExpand(ps, i + 1, next, blocks);
  }

  /** A kept piece in front of an extraction. */
  lemma {:induction false} ExpandAfterKept(x: Extraction, rest: Extraction, p: Piece, blocks: seq<string>)
    requires x == Extraction([p] + rest.pieces, rest.blocks)
    ensures Expand(x.pieces, blocks) == PieceText(p, blocks) + Expand(rest.pieces, blocks)
  {
    ExpandCons(p, rest.pieces, blocks);
  }

  // ---------------------------------------------------------------------
  // Both passes

  /** Display spans come first in `mathBlocks`, inline spans after them,
      each of its shape, in both scans. */
  lemma {:induction false} ExtractSpans(s: string, cross: bool)
    ensures var d := DisplayFrom(s, 0, 0); var x := Extract(s, cross);
      |d.blocks| <= |x.blocks| && x.blocks[..|d.blocks|] == d.blocks &&
      (forall k :: 0 <= k < |d.blocks| ==> DisplaySpan(x.blocks[k])) &&
      (forall k :: |d.blocks| <= k < |x.blocks| ==> InlineSpan(x.blocks[k]))
  {
    var d := DisplayFrom(s, 0, 0);
    var D := |d.blocks|;
    var n := InlineFrom(d.pieces, 0, D, cross);
    var x := Extract(s, cross);
    DisplaySpans(s, 0, 0);
    InlineSpans(d.pieces, 0, D, cross);
    assert forall k :: D <= k < |x.blocks| ==> x.blocks[k] == n.blocks[k - D];
  }

  /** The inline placeholders get the ids D, D + 1, … in order after the D
      display spans, and every id left in the text indexes `mathBlocks`, in
      both scans. With placeholders ending inline spans, the display
      placeholders keep the ids 0 … D-1 in order, and there are as many
      placeholders as spans. */
  lemma {:induction false} ExtractIds(s: string, cross: bool)
    ensures var D := |DisplayFrom(s, 0, 0).blocks|; var x := Extract(s, cross);
      D <= |x.blocks| &&
      AtLeast(PhIds(x.pieces), D) == Ids(D, |x.blocks| - D) &&
      (forall k :: 0 <= k < |PhIds(x.pieces)| ==> PhIds(x.pieces)[k] < |x.blocks|) &&
      (!cross ==> Below(PhIds(x.pieces), D) == Ids(0, D) && |PhIds(x.pieces)| == |x.blocks|)
  {
    var d := DisplayFrom(s, 0, 0);
    var D := |d.blocks|;
    var n := InlineFrom(d.pieces, 0, D, cross);
    var x := Extract(s, cross);
    DisplayIds(s, 0, 0);
    IdsAt(0, D);
    IdsBelowOf(d.pieces, D);
    InlineIds(d.pieces, 0, D, D, cross);
    FromSuffix(d.pieces, 0, []);
    assert d.pieces[0..] == d.pieces;
    IdsAt(D, |n.blocks|);
    BelowAtLeastCount(PhIds(x.pieces), D);
    BelowAtLeastBound(PhIds(x.pieces), D, |x.blocks|);
  }

  /** When the placeholder ids are all below `n`, so is every placeholder's id. */
  lemma {:induction false} IdsBelowOf(ps: seq<Piece>, n: nat)
    requires forall k :: 0 <= k < |PhIds(ps)| ==> PhIds(ps)[k] < n
    ensures IdsBelow(ps, n)
  {
    forall k | 0 <= k < |ps| && ps[k].Ph? ensures ps[k].id < n {
      PhIdsAppend(ps[..k], ps[k..]);
      assert ps == ps[..k] + ps[k..];
      PhIdsCons(ps[k], ps[k + 1..]);
      SliceCons(ps, k);
      assert PhIds(ps)[|PhIds(ps[..k])|] == ps[k].id;
    }
  }

  /** Round trip: restoring every recorded span in place of its placeholder
      gives back the original text. */
  lemma {:induction false} ExtractRoundTrip(s: string)
    ensures Expand(Extract(s, false).pieces, Extract(s, false).blocks) == s
  {
    var d := DisplayFrom(s, 0, 0);
    var D := |d.blocks|;
    var n := InlineFrom(d.pieces, 0, D, false);
    var blocks := d.blocks + n.blocks;
    InlineExpand(d.pieces, 0, D, blocks);
    FromSuffix(d.pieces, 0, blocks);
    DisplayExpand(s, 0, 0, blocks);
    assert d.pieces[0..] == d.pieces;
  }

  /** `$$` occurs nowhere in the text. */
  predicate NoDisplayPair(s: string) {
    forall m :: 0 <= m < |s| ==> !PairAt(s, m)
  }

  /** Text without `$$` goes through the display pass unchanged. */
  lemma {:induction false} NoPairDisplay(s: string, i: nat, next: nat)
    requires i <= |s| && forall m :: i <= m < |s| ==> !PairAt(s, m)
    ensures DisplayFrom(s, i, next) == Extraction(Chars(s[i..]), [])
    decreases |s| - i
  {
    if i < |s| {
      assert s[i] == s[i..][0];
      assert s[i..][1..] == s[i + 1..];
      NoPairDisplay(s, i + 1, next);
    }
  }

  lemma {:induction false} NoDollarInline(ps: seq<Piece>, i: nat, next: nat, cross: bool)
    requires i <= |ps| && Ch('$') !in ps[i..]
    ensures InlineFrom(ps, i, next, cross) == Extraction(ps[i..], [])
    decreases |ps| - i
  {
    if i < |ps| {
      assert ps[i] == ps[i..][0];
      SliceCons(ps, i);
      NoDollarInline(ps, i + 1, next, cross);
    }
  }

  lemma {:induction false} FlattenChars(t: string)
    ensures Flatten(Chars(t)) == t
  {
    if t != [] {
      FlattenChars(t[1..]);
    }
  }

  /** Text without `$` reaches the parser unchanged and nothing is
      recorded, in both scans. */
  lemma {:induction false} NoDollarUnchanged(s: string, cross: bool)
    requires '$' !in s
    ensures Extract(s, cross).blocks == []
    ensures Flatten(Extract(s, cross).pieces) == s
  {
    assert s[0..] == s;
    forall m | 0 <= m < |s| ensures !PairAt(s, m) {
      assert s[m] in s;
    }
    NoPairDisplay(s, 0, 0);
    assert Ch('$') !in Chars(s);
    NoDollarInline(Chars(s), 0, 0, cross);
    assert Chars(s)[0..] == Chars(s);
    FlattenChars(s);
  }

  /** Over characters alone, the two scans stop at the same place. */
  lemma {:induction false} InlineStopChars(ps: seq<Piece>, from: nat)
    requires from <= |ps| && IsChars(ps)
    ensures InlineStop(ps, from, true) == InlineStop(ps, from, false)
    decreases |ps| - from
  {
    if from < |ps| {
      InlineStopChars(ps, from + 1);
    }
  }

  /** Over characters alone, the two scans agree. */
  lemma {:induction false} InlineChars(ps: seq<Piece>, i: nat, next: nat)
    requires i <= |ps| && IsChars(ps)
    ensures InlineFrom(ps, i, next, true) == InlineFrom(ps, i, next, false)
    decreases |ps| - i
  {
    if i < |ps| {
      var k := InlineStop(ps, i + 1, false);
      InlineStopChars(ps, i + 1);
      if InlineMatchAt(ps, i, false) {
        InlineChars(ps, k + 1, next + 1);
      } else {
        InlineChars(ps, i + 1, next);
      }
    }
  }

  /** In a text without `$$` there is no display placeholder to swallow,
      and the inline pass as written extracts what the corrected one does. */
  lemma {:induction false} AsWrittenWithoutDisplay(s: string)
    requires NoDisplayPair(s)
    ensures Extract(s, true) == Extract(s, false)
  {
    NoPairDisplay(s, 0, 0);
    InlineChars(Chars(s[0..]), 0, 0);
  }

  /** A display span with a lone `$` inside is one display span, in both
      scans. */
  lemma {:induction false} LoneDollarInsideDisplay()
    ensures Extract("$$a$b$$", false) == Extraction([Ph(0)], ["$$a$b$$"])
    ensures Extract("$$a$b$$", true) == Extraction([Ph(0)], ["$$a$b$$"])
  {
    var s := "$$a$b$$";
    assert FindDollarPair(s, 2) == 5;
    assert DisplayFrom(s, 7, 1) == Extraction([], []);
    assert s[0..7] == s;
    assert DisplayMatchAt(s, 0);
    assert DisplayFrom(s, 0, 0) == Extraction([Ph(0)], [s]);
    assert InlineFrom([Ph(0)], 1, 1, false) == Extraction([], []);
    assert InlineFrom([Ph(0)], 0, 1, false) == Extraction([Ph(0)], []);
    assert InlineFrom([Ph(0)], 1, 1, true) == Extraction([], []);
    assert InlineFrom([Ph(0)], 0, 1, true) == Extraction([Ph(0)], []);
  }

  // ---------------------------------------------------------------------
  // Restoration and render

  /** Restoring the parser's identity image of the pieces and reading the
      text equals expanding the pieces. */
  lemma {:induction false} RestoreExpand(ps: seq<Piece>, blocks: seq<string>)
    ensures TextContent(Restore(ToNodes(ps), blocks)) == Expand(ps, blocks)
  {
    if ps != [] {
      RestoreExpand(ps[1..], blocks);
      assert Restore(ToNodes(ps), blocks)[1..] == Restore(ToNodes(ps[1..]), blocks);
    }
  }

  /** Restoration leaves no placeholder behind when every id is in range. */
  lemma {:induction false} AllRestored(ps: seq<Piece>, blocks: seq<string>)
    requires forall k :: 0 <= k < |PhIds(ps)| ==> PhIds(ps)[k] < |blocks|
    ensures forall k :: 0 <= k < |ps| ==> Restore(ToNodes(ps), blocks)[k].Text?
  {
    forall k | 0 <= k < |ps| && ps[k].Ph? ensures ps[k].id < |blocks| {
      PhIdsAppend(ps[..k], ps[k..]);
      assert ps == ps[..k] + ps[k..];
      SliceCons(ps, k);
      PhIdsAppend([ps[k]], ps[k + 1..]);
      assert PhIds(ps)[|PhIds(ps[..k])|] == ps[k].id;
    }
  }

  /** Round trip of `render`: with a parser that hands every piece back as
      its own node, the document is all text in both scans, and reads as
      the input with placeholders ending inline spans, or as written when
      the input has no `$$`. */
  lemma {:induction false} RenderRoundTrip(s: string, parse: string -> Option<seq<Node>>, cross: bool)
    requires parse(Flatten(Extract(s, cross).pieces)) == Some(ToNodes(Extract(s, cross).pieces))
    ensures RenderOutcome(s, parse, cross).Document?
    ensures forall k :: 0 <= k < |RenderOutcome(s, parse, cross).nodes| ==> RenderOutcome(s, parse, cross).nodes[k].Text?
    ensures !cross || NoDisplayPair(s) ==> TextContent(RenderOutcome(s, parse, cross).nodes) == s
  {
    var x := Extract(s, cross);
    ExtractIds(s, cross);
    AllRestored(x.pieces, x.blocks);
    RestoreExpand(x.pieces, x.blocks);
    if !cross || NoDisplayPair(s) {
      if cross {
        AsWrittenWithoutDisplay(s);
      }
      ExtractRoundTrip(s);
    }
  }
}

/** The inline pass as written reads placeholder markup as ordinary inline
    content, so an inline span may enclose a display placeholder. */
module MathFinding {
  import opened Strings
  import opened MathPlaceholders
  import opened MathProperties

  const Example: string := "$a $$x$$ b$"

  /** The pieces after the display pass on `Example`. */
  const ExamplePieces: seq<Piece> := [Ch('$'), Ch('a'), Ch(' '), Ph(0), Ch(' '), Ch('b'), Ch('$')]

  /** The display pass records "$$x$$" as span 0. */
  lemma {:induction false} ExampleDisplay()
    ensures DisplayFrom(Example, 0, 0) == Extraction(ExamplePieces, ["$$x$$"])
  {
    var s := Example;
    assert DisplayFrom(s, 11, 1) == Extraction([], []);
    assert !DisplayMatchAt(s, 10);
    assert DisplayFrom(s, 10, 1) == Extraction([Ch('$')], []);
    assert !DisplayMatchAt(s, 9);
    assert DisplayFrom(s, 9, 1) == Extraction([Ch('b'), Ch('$')], []);
    assert !DisplayMatchAt(s, 8);
    assert DisplayFrom(s, 8, 1) == Extraction([Ch(' '), Ch('b'), Ch('$')], []);
    assert FindDollarPair(s, 6) == 6;
    assert FindDollarPair(s, 5) == 6;
    assert DisplayMatchAt(s, 3);
    assert s[3..8] == "$$x$$";
    assert DisplayFrom(s, 3, 0) == Extraction([Ph(0), Ch(' '), Ch('b'), Ch('$')], ["$$x$$"]);
    assert !DisplayMatchAt(s, 2);
    assert !DisplayMatchAt(s, 1);
    assert !DisplayMatchAt(s, 0);
  }

  /** The inline pass as written takes the whole of `ExamplePieces` as one span. */
  lemma {:induction false} ExampleInlineAsWritten()
    ensures InlineFrom(ExamplePieces, 0, 1, true) == Extraction([Ph(1)], [Flatten(ExamplePieces)])
  {
    var ps := ExamplePieces;
    SpanTextFlatten(ps, 0, 7);
    assert InlineStop(ps, 6, true) == 6;
    assert InlineStop(ps, 5, true) == 6;
    assert InlineStop(ps, 4, true) == 6;
    assert InlineStop(ps, 3, true) == 6;
    assert InlineStop(ps, 2, true) == 6;
    assert InlineStop(ps, 1, true) == 6;
    assert InlineMatchAt(ps, 0, true);
    assert InlineFrom(ps, 7, 2, true) == Extraction([], []);
    assert ps[0..7] == ps;
  }

  lemma {:induction false} ExampleFlatten()
    ensures |Flatten(ExamplePieces)| > |Example|
  {
    var ps := ExamplePieces;
    assert ps == ps[..3] + [Ph(0)] + ps[4..];
    FlattenAppend(ps[..3] + [Ph(0)], ps[4..]);
    FlattenAppend(ps[..3], [Ph(0)]);
    assert Flatten([Ph(0)]) == PlaceholderMarkup(0) + [];
    assert |PlaceholderMarkup(0)| > 11;
  }

  /** On "$a $$x$$ b$" the code as written records "$$x$$" as span 0 and then
      the inline span "$a <span … data-id="0"></span> b$", which swallows
      placeholder 0: one placeholder for two spans, and the restored text is
      not the input (it holds placeholder markup and lacks "$$x$$"). */
  lemma {:induction false} InlineSwallowsDisplayPlaceholder()
    ensures var x := Extract(Example, true);
      |x.blocks| == 2 && x.blocks[0] == "$$x$$" &&
      PhIds(x.pieces) == [1] && Expand(x.pieces, x.blocks) != Example
  {
    ExampleDisplay();
    ExampleInlineAsWritten();
    ExampleFlatten();
    var span := Flatten(ExamplePieces);
    var x := Extract(Example, true);
    assert x == Extraction([Ph(1)], ["$$x$$", span]);
    assert PhIds(x.pieces) == [1];
    assert Expand(x.pieces, x.blocks) == span + [];
  }

  /** The inline pass with placeholders ending spans leaves `ExamplePieces` alone. */
  lemma {:induction false} ExampleInlineCorrected()
    ensures InlineFrom(ExamplePieces, 0, 1, false) == Extraction(ExamplePieces, [])
  {
    var ps := ExamplePieces;
    assert InlineStop(ps, 3, false) == 3;
    assert InlineStop(ps, 2, false) == 3;
    assert InlineStop(ps, 1, false) == 3;
    assert InlineStop(ps, 7, false) == 7;
    assert !InlineMatchAt(ps, 0, false) && !InlineMatchAt(ps, 6, false);
    assert InlineFrom(ps, 7, 1, false) == Extraction([], []);
    assert InlineFrom(ps, 6, 1, false) == Extraction([Ch('$')], []);
    assert InlineFrom(ps, 5, 1, false) == Extraction([Ch('b'), Ch('$')], []);
    assert InlineFrom(ps, 4, 1, false) == Extraction([Ch(' '), Ch('b'), Ch('$')], []);
    assert InlineFrom(ps, 3, 1, false) == Extraction([Ph(0), Ch(' '), Ch('b'), Ch('$')], []);
    assert InlineFrom(ps, 2, 1, false) == Extraction([Ch(' '), Ph(0), Ch(' '), Ch('b'), Ch('$')], []);
    assert InlineFrom(ps, 1, 1, false) == Extraction([Ch('a'), Ch(' '), Ph(0), Ch(' '), Ch('b'), Ch('$')], []);
  }

  /** With placeholders ending inline spans (the model's extraction), the same
      input keeps its display span and comes back whole. */
  lemma {:induction false} PlaceholderEndsInlineSpan()
    ensures var x := Extract(Example, false);
      x.blocks == ["$$x$$"] && PhIds(x.pieces) == [0] && Expand(x.pieces, x.blocks) == Example
  {
    ExampleDisplay();
    ExampleInlineCorrected();
    assert Extract(Example, false) == Extraction(ExamplePieces, ["$$x$$"]);
    ExamplePhIds();
    ExtractRoundTrip(Example);
  }

  /** The only placeholder left after the display pass on `Example` is 0. */
  lemma {:induction false} ExamplePhIds()
    ensures PhIds(ExamplePieces) == [0]
  {
    var ps := ExamplePieces;
    CharsOnly(ps[4..], []);
    PhIdsAppend(ps[..3], [Ph(0)] + ps[4..]);
    PhIdsCons(Ph(0), ps[4..]);
    CharsOnly(ps[..3], []);
    assert ps == ps[..3] + ([Ph(0)] + ps[4..]);
  }
}
