/** `updateCounts` of script.js: the character count is the length of the
    text, the word count the number of pieces `trim().split(/\s+/)` leaves
    once empty pieces are filtered out, and 0 for a blank text. The word
    count is proved equal to the number of maximal runs of non-white-space
    characters. */
module Counts {
  import opened Strings

  datatype TextCounts = TextCounts(chars: nat, words: nat)

  /** Index of the first white-space character, or `|s|`. */
  function FirstWhitespace(s: string): (i: nat)
    ensures i <= |s|
    ensures forall k :: 0 <= k < i ==> !IsWhitespace(s[k])
    ensures i < |s| ==> IsWhitespace(s[i])
  {
    if s == [] || IsWhitespace(s[0]) then 0 else 1 + FirstWhitespace(s[1..])
  }

  /** `s.split(/\s+/)`: the pieces between maximal runs of white space; a
      run at either end leaves an empty piece there. */
  function SplitOnWhitespace(s: string): (r: seq<string>)
    ensures 1 <= |r|
    ensures forall k, j :: 0 <= k < |r| && 0 <= j < |r[k]| ==> !IsWhitespace(r[k][j])
    decreases |s|
  {
    var i := FirstWhitespace(s);
    if i == |s| then [s]
    else
      var j := i + LeadingWhitespace(s[i..]);
      [s[..i]] + SplitOnWhitespace(s[j..])
  }

  /** `parts.filter(word => word.length > 0)` */
  function NonEmpty(parts: seq<string>): (r: seq<string>)
    ensures |r| <= |parts|
    ensures forall k :: 0 <= k < |r| ==> r[k] != [] && r[k] in parts
    ensures multiset(r) == multiset(parts)[[] := 0]
  {
    if parts == [] then []
    else
      assert parts == [parts[0]] + parts[1..];
      if parts[0] == [] then
        assert multiset(parts)[[] := 0] == multiset(parts[1..])[[] := 0];
        NonEmpty(parts[1..])
      else [parts[0]] + NonEmpty(parts[1..])
  }

  /** The number of maximal non-white-space runs of `s`; `afterSpace` says
      whether what precedes `s` ends a run. */
  function RunCountFrom(s: string, afterSpace: bool): nat
  {
    if s == [] then 0
    else if IsWhitespace(s[0]) then RunCountFrom(s[1..], true)
    else (if afterSpace then 1 else 0) + RunCountFrom(s[1..], false)
  }

  /** The number of words of `s`, as a reader counts them. */
  function RunCount(s: string): nat {
    RunCountFrom(s, true)
  }

  /** A run of non-white-space characters counts once, when it starts one. */
  lemma {:induction false} RunCountWord(a: string, t: string, afterSpace: bool)
    requires forall k :: 0 <= k < |a| ==> !IsWhitespace(a[k])
    ensures RunCountFrom(a + t, afterSpace)
      == (if a != [] && afterSpace then 1 else 0) + RunCountFrom(t, if a == [] then afterSpace else false)
    decreases |a|
  {
    if a != [] {
      assert (a + t)[0] == a[0];
      assert (a + t)[1..] == a[1..] + t;
      RunCountWord(a[1..], t, false);
    } else {
      assert a + t == t;
    }
  }

  /** White space counts nothing and ends the run before it. */
  lemma {:induction false} RunCountSpace(w: string, t: string, afterSpace: bool)
    requires forall k :: 0 <= k < |w| ==> IsWhitespace(w[k])
    ensures RunCountFrom(w + t, afterSpace) == RunCountFrom(t, if w == [] then afterSpace else true)
    decreases |w|
  {
    if w != [] {
      assert (w + t)[0] == w[0];
      assert (w + t)[1..] == w[1..] + t;
      RunCountSpace(w[1..], t, true);
    } else {
      assert w + t == t;
    }
  }

  /** White space at the end counts nothing. */
  lemma {:induction false} RunCountTrailingSpace(t: string, w: string, afterSpace: bool)
    requires forall k :: 0 <= k < |w| ==> IsWhitespace(w[k])
    ensures RunCountFrom(t + w, afterSpace) == RunCountFrom(t, afterSpace)
    decreases |t|
  {
    if t == [] {
      assert t + w == w + [];
      RunCountSpace(w, [], afterSpace);
    } else {
      assert (t + w)[0] == t[0];
      assert (t + w)[1..] == t[1..] + w;
      RunCountTrailingSpace(t[1..], w, true);
      RunCountTrailingSpace(t[1..], w, false);
    }
  }

  /** The non-empty pieces of the white-space split are the runs. */
  lemma {:induction false} SplitPiecesAreRuns(s: string)
    ensures |NonEmpty(SplitOnWhitespace(s))| == RunCount(s)
    decreases |s|
  {
    var i := FirstWhitespace(s);
    if i == |s| {
      RunCountWord(s, [], true);
      assert s + [] == s;
    } else {
      var j := i + LeadingWhitespace(s[i..]);
      var a := s[..i];
      var w := s[i..j];
      var rest := s[j..];
      SplitStep(s, i, j);
      RunCountWord(a, w + rest, true);
      RunCountSpace(w, rest, a == []);
      SplitPiecesAreRuns(rest);
    }
  }

  /** One step of the white-space split: a word, a run of white space, the rest. */
  lemma {:induction false} SplitStep(s: string, i: nat, j: nat)
    requires i == FirstWhitespace(s) < |s| && j == i + LeadingWhitespace(s[i..])
    ensures i < j <= |s|
    ensures s == s[..i] + (s[i..j] + s[j..])
    ensures forall k :: 0 <= k < i ==> !IsWhitespace(s[..i][k])
    ensures forall k :: 0 <= k < j - i ==> IsWhitespace(s[i..j][k])
    ensures |NonEmpty(SplitOnWhitespace(s))| == (if i == 0 then 0 else 1) + |NonEmpty(SplitOnWhitespace(s[j..]))|
  {
    SplitStepShape(s, i, j);
    SplitStepCount(s, i, j);
  }

  /** The word before the first white space, the run of white space, and the rest. */
  lemma {:induction false} SplitStepShape(s: string, i: nat, j: nat)
    requires i == FirstWhitespace(s) < |s| && j == i + LeadingWhitespace(s[i..])
    ensures i < j <= |s|
    ensures s == s[..i] + (s[i..j] + s[j..])
    ensures forall k :: 0 <= k < i ==> !IsWhitespace(s[..i][k])
    ensures forall k :: 0 <= k < j - i ==> IsWhitespace(s[i..j][k])
  {
    assert s[i..][0] == s[i];
    forall k | 0 <= k < i
      ensures !IsWhitespace(s[..i][k])
    {
      assert s[..i][k] == s[k];
    }
    forall k | 0 <= k < j - i
      ensures IsWhitespace(s[i..j][k])
    {
      assert s[i..j][k] == s[i..][k];
    }
  }

  /** The split's first piece is the word before the first white space;
      the filter counts it when it is not empty. */
  lemma {:induction false} SplitStepCount(s: string, i: nat, j: nat)
    requires i == FirstWhitespace(s) < |s| && j == i + LeadingWhitespace(s[i..])
    ensures |NonEmpty(SplitOnWhitespace(s))| == (if i == 0 then 0 else 1) + |NonEmpty(SplitOnWhitespace(s[j..]))|
  {
    SplitUnfold(s, i, j);
    NonEmptyCons(s[..i], SplitOnWhitespace(s[j..]));
  }

  /** The split past the first white space. */
  lemma {:induction false} SplitUnfold(s: string, i: nat, j: nat)
    requires i == FirstWhitespace(s) < |s| && j == i + LeadingWhitespace(s[i..])
    ensures SplitOnWhitespace(s) == [s[..i]] + SplitOnWhitespace(s[j..])
  {
  }

  /** The filter keeps the first piece exactly when it is not empty. */
  lemma {:induction false} NonEmptyCons(p: string, rest: seq<string>)
    ensures |NonEmpty([p] + rest)| == (if p == [] then 0 else 1) + |NonEmpty(rest)|
  {
    assert ([p] + rest)[0] == p;
    assert ([p] + rest)[1..] == rest;
  }

  /** The word count of `updateCounts`. */
  function WordCount(text: string): nat {
    if Trim(text) == [] then 0 else |NonEmpty(SplitOnWhitespace(Trim(text)))|
  }

  /** The word count is the number of maximal non-white-space runs of the
      whole text: trimming changes nothing about it. */
  lemma {:induction false} WordCountIsRunCount(text: string)
    ensures WordCount(text) == RunCount(text)
  {
    var t := Trim(text);
    var lead, trail := TrimParts(text);
    RunCountTrimmed(lead, t, trail);
    if t != [] {
      SplitPiecesAreRuns(t);
    }
  }

  /** A text is its leading white space, its trimmed text and its trailing
      white space. */
  lemma {:induction false} TrimParts(text: string) returns (lead: string, trail: string)
    ensures text == lead + (Trim(text) + trail)
    ensures forall k :: 0 <= k < |lead| ==> IsWhitespace(lead[k])
    ensures forall k :: 0 <= k < |trail| ==> IsWhitespace(trail[k])
  {
    var a := LeadingWhitespace(text);
    var t := Trim(text);
    lead := text[..a];
    trail := text[a + |t|..];
    forall k | 0 <= k < |lead|
      ensures IsWhitespace(lead[k])
    {
      assert lead[k] == text[k];
    }
    forall k | 0 <= k < |trail|
      ensures IsWhitespace(trail[k])
    {
      assert trail[k] == text[a + |t| + k];
    }
  }

  /** White space around a text adds no runs. */
  lemma {:induction false} RunCountTrimmed(lead: string, t: string, trail: string)
    requires forall k :: 0 <= k < |lead| ==> IsWhitespace(lead[k])
    requires forall k :: 0 <= k < |trail| ==> IsWhitespace(trail[k])
    ensures RunCountFrom(lead + (t + trail), true) == RunCountFrom(t, true)
  {
    RunCountSpace(lead, t + trail, true);
    RunCountTrailingSpace(t, trail, true);
  }

  /** `updateCounts`: the counts shown under the editor. */
  function CountsOf(text: string): (c: TextCounts)
    ensures c.chars == |text|
    ensures c.words == RunCount(text)
    ensures c.words == 0 <==> forall k :: 0 <= k < |text| ==> IsWhitespace(text[k])
  {
    WordCountIsRunCount(text);
    BlankHasNoRuns(text);
    TextCounts(|text|, WordCount(text))
  }

  /** A text has no words exactly when it is all white space. */
  lemma {:induction false} BlankHasNoRuns(text: string)
    ensures RunCount(text) == 0 <==> forall k :: 0 <= k < |text| ==> IsWhitespace(text[k])
  {
    var i := LeadingWhitespace(text);
    RunCountSpace(text[..i], text[i..], true);
    assert text == text[..i] + text[i..];
    if i < |text| {
      assert text[i..][0] == text[i];
    }
  }
}
