/** What the toolbar actions of script.js promise about the text they
    produce: wrapping can be undone, prefixed and numbered lines are the
    selected lines with their prefixes, fences, images and rules sit on
    lines of their own. */
module ToolbarProperties {
  import opened Wrappers
  import opened Strings
  import opened Toolbar

  /** Deleting the inserted delimiters from a wrapped selection gives back
      the text as it was. */
  lemma {:induction false} WrapUndo(st: EditorState, open: string, close: string, placeholder: string)
    requires Valid(st) && Selected(st) != []
    ensures var r := Wrap(st, open, close, placeholder);
      var i := st.selStart;
      var n := |Selected(st)|;
      i + |open| + n + |close| <= |r.text|
      && r.text[..i] + r.text[i + |open|..i + |open| + n] + r.text[i + |open| + n + |close|..] == st.text
  {
    var r := Wrap(st, open, close, placeholder);
    var i := st.selStart;
    var n := |Selected(st)|;
    var head := Before(st) + open + Selected(st) + close;
    assert r.text == head + After(st) by {
      assert r.text == r.text[..r.selStart] + r.text[r.selEnd..];
    }
    assert r.text[..i] == Before(st);
    assert r.text[i + |open|..i + |open| + n] == Selected(st);
    assert r.text[i + |open| + n + |close|..] == After(st);
    assert st.text == Before(st) + Selected(st) + After(st);
  }

  /** Without a selection, deleting the delimiters and the selected
      placeholder gives back the text as it was. */
  lemma {:induction false} WrapPlaceholderUndo(st: EditorState, open: string, close: string, placeholder: string)
    requires Valid(st) && Selected(st) == []
    ensures var r := Wrap(st, open, close, placeholder);
      |open| <= r.selStart && r.selEnd + |close| <= |r.text|
      && r.text[..r.selStart - |open|] + r.text[r.selEnd + |close|..] == st.text
  {
    var r := Wrap(st, open, close, placeholder);
    assert r.text[..r.selStart - |open|] == Before(st) by {
      assert Before(r)[..|Before(st)|] == Before(st);
    }
    assert r.text[r.selEnd + |close|..] == After(st) by {
      assert After(r)[|close|..] == After(st);
    }
    assert st.text == Before(st) + Selected(st) + After(st);
  }

  /** Total width of prefixed lines. */
  lemma {:induction false} PrefixEachWidth(lines: seq<string>, prefix: string)
    ensures Width(PrefixEach(lines, prefix)) == Width(lines) + |lines| * |prefix|
    decreases |lines|
  {
    if lines != [] {
      PrefixEachWidth(lines[1..], prefix);
      assert PrefixEach(lines, prefix)[1..] == PrefixEach(lines[1..], prefix);
    }
  }

  /** Width of the labels "f. ", "f+1. ", ... of `n` numbered lines. */
  function LabelWidth(first: nat, n: nat): nat
    decreases n
  {
    if n == 0 then 0 else |Decimal(first)| + 2 + LabelWidth(first + 1, n - 1)
  }

  /** Total width of numbered lines. */
  lemma {:induction false} NumberEachWidth(lines: seq<string>, first: nat)
    ensures Width(NumberEach(lines, first)) == Width(lines) + LabelWidth(first, |lines|)
    decreases |lines|
  {
    if lines != [] {
      NumberEachWidth(lines[1..], first + 1);
      assert NumberEach(lines, first)[1..] == NumberEach(lines[1..], first + 1);
    }
  }

  /** Labels below ten take three characters, two-digit labels four. */
  lemma {:induction false} LabelWidthDigits(first: nat, n: nat)
    ensures first + n <= 10 ==> LabelWidth(first, n) == 3 * n
    ensures 10 <= first && first + n <= 100 ==> LabelWidth(first, n) == 4 * n
    decreases n
  {
    if n > 0 {
      LabelWidthDigits(first + 1, n - 1);
      DecimalWidth(first);
    }
  }

  /** Labelling `a + b` lines from `first` is labelling `a` and then `b`. */
  lemma {:induction false} LabelWidthSplit(first: nat, a: nat, b: nat)
    ensures LabelWidth(first, a + b) == LabelWidth(first, a) + LabelWidth(first + a, b)
    decreases a
  {
    if a > 0 {
      LabelWidthSplit(first + 1, a - 1, b);
    }
  }

  /** The labels 1. to n. take 3n characters up to nine lines and 4n - 9
      from ten to ninety-nine lines. */
  lemma {:induction false} OrderedLabelsWidth(n: nat)
    ensures n <= 9 ==> LabelWidth(1, n) == 3 * n
    ensures 10 <= n <= 99 ==> LabelWidth(1, n) == 4 * n - 9
  {
    LabelWidthDigits(1, n);
    if 10 <= n <= 99 {
      LabelWidthSplit(1, 9, n - 9);
      LabelWidthDigits(1, 9);
      LabelWidthDigits(10, n - 9);
    }
  }

  /** A selection spanning lines, prefixed: the lines of the new block are
      exactly the selected lines with the prefix in front, the block is
      `|lines| * |prefix|` longer than the selection, and a selection that
      starts at a line start ends up covering the block after its first
      prefix with nothing outside it changed. */
  lemma {:induction false} PrefixLinesShape(st: EditorState, prefix: string)
    requires Valid(st) && '\n' in Selected(st) && '\n' !in prefix
    ensures var lines := Split(Selected(st), '\n');
      var block := Join(PrefixEach(lines, prefix), '\n');
      var r := InsertAtLineStart(st, prefix, "");
      Split(block, '\n') == PrefixEach(lines, prefix)
      && |block| == |Selected(st)| + |lines| * |prefix|
      && (st.selStart == LineStart(Before(st)) ==>
            r.text == Before(st) + block + After(st)
            && r.selStart == st.selStart + |prefix|
            && r.selEnd == st.selStart + |block|)
  {
    var sel := Selected(st);
    var lines := Split(sel, '\n');
    var parts := PrefixEach(lines, prefix);
    var block := Join(parts, '\n');
    forall k | 0 <= k < |parts|
      ensures '\n' !in parts[k]
    {
      assert parts[k] == prefix + lines[k];
    }
    SplitJoin(parts, '\n');
    JoinSplit(sel, '\n');
    PrefixEachWidth(lines, prefix);
    assert |block| == |sel| + |lines| * |prefix|;
    var r := InsertAtLineStart(st, prefix, "");
    if st.selStart == LineStart(Before(st)) {
      var text := ReplaceLines(st, block);
      assert r.text == text;
      assert text == Before(st) + block + After(st);
    }
  }

  /** Where a prefixed selection spanning lines leaves the selection: it
      starts after the first prefix and ends as many characters after the
      old selection start as the block is long, which is past the block's
      end by the text between the line start and the selection (cut to the
      text). */
  lemma {:induction false} PrefixLinesSelection(st: EditorState, prefix: string)
    requires Valid(st) && '\n' in Selected(st)
    ensures var block := Join(PrefixEach(Split(Selected(st), '\n'), prefix), '\n');
      var ls := LineStart(Before(st));
      var r := InsertAtLineStart(st, prefix, "");
      ls + |block| <= |r.text| && r.text[ls..ls + |block|] == block
      && r.selStart == ls + |prefix|
      && r.selEnd == Min(st.selStart + |block|, |r.text|)
  {
    var lines := Split(Selected(st), '\n');
    var block := Join(PrefixEach(lines, prefix), '\n');
    var ls := LineStart(Before(st));
    var r := InsertAtLineStart(st, prefix, "");
    assert r == PrefixLines(st, prefix);
    assert r.text == ReplaceLines(st, block);
    PrefixedBlockWidth(Selected(st), prefix);
    assert |Before(st)| == st.selStart;
    assert PrefixedEnd(st.selEnd, |lines|, |prefix|) == st.selStart + |block|;
  }

  /** The prefixed block is the selection plus one prefix per line, so at
      least one prefix long. */
  lemma {:induction false} PrefixedBlockWidth(sel: string, prefix: string)
    ensures var lines := Split(sel, '\n');
      var block := Join(PrefixEach(lines, prefix), '\n');
      |block| == |sel| + |lines| * |prefix| && |prefix| <= |block|
  {
    var lines := Split(sel, '\n');
    PrefixEachWidth(lines, prefix);
    JoinSplit(sel, '\n');
    AtLeastOnce(|lines|, |prefix|);
  }

  lemma AtLeastOnce(n: nat, w: nat)
    requires 1 <= n
    ensures w <= n * w
  {
  }

  /** A selection spanning lines, numbered: line i of the new block is
      line i of the selection behind the label "i+1. ". */
  lemma {:induction false} NumberLinesShape(st: EditorState)
    requires Valid(st) && '\n' in Selected(st)
    ensures var lines := Split(Selected(st), '\n');
      var block := Join(NumberEach(lines, 1), '\n');
      var r := InsertOrderedList(st, "List item");
      Split(block, '\n') == NumberEach(lines, 1)
      && (forall i :: 0 <= i < |lines| ==> Split(block, '\n')[i] == Decimal(i + 1) + ". " + lines[i])
      && |block| == |Selected(st)| + LabelWidth(1, |lines|)
      && r.text == ReplaceLines(st, block)
  {
    var sel := Selected(st);
    var lines := Split(sel, '\n');
    var parts := NumberEach(lines, 1);
    forall k | 0 <= k < |parts|
      ensures '\n' !in parts[k]
    {
      assert parts[k] == Decimal(1 + k) + ". " + lines[k];
      DecimalDigits(1 + k);
      assert '\n' !in Decimal(1 + k);
    }
    SplitJoin(parts, '\n');
    JoinSplit(sel, '\n');
    NumberEachWidth(lines, 1);
  }

  /** The cursor estimate of the ordered list, for a selection of `n`
      lines: the numbered block replaces the text from the line start, so
      the estimate overshoots the block's end by the text between the line
      start and the selection, plus nine characters from ten to
      ninety-nine lines. The new selection starts after the first label
      and ends at the estimate, cut to the text; a selection starting at
      its line start gets the block's exact end up to nine lines. */
  lemma {:induction false} OrderedListEstimateError(st: EditorState, placeholder: string)
    requires Valid(st) && '\n' in Selected(st)
    ensures var n := |Split(Selected(st), '\n')|;
      var block := Join(NumberEach(Split(Selected(st), '\n'), 1), '\n');
      var blockEnd := LineStart(Before(st)) + |block|;
      var skipped := st.selStart - LineStart(Before(st));
      var r := InsertOrderedList(st, placeholder);
      0 <= skipped && blockEnd <= |r.text|
      && r.selStart == LineStart(Before(st)) + 3
      && r.selEnd == Min(OrderedListEstimate(st.selEnd, n), |r.text|)
      && (n <= 9 ==> OrderedListEstimate(st.selEnd, n) == blockEnd + skipped)
      && (10 <= n <= 99 ==> OrderedListEstimate(st.selEnd, n) == blockEnd + skipped + 9)
      && (skipped == 0 && n <= 9 ==> r.selEnd == blockEnd)
  {
    var sel := Selected(st);
    var n := |Split(sel, '\n')|;
    var block := Join(NumberEach(Split(sel, '\n'), 1), '\n');
    var r := InsertOrderedList(st, placeholder);
    assert r == NumberLines(st);
    assert r.text == ReplaceLines(st, block);
    NumberedBlockWidth(sel);
    EstimateOvershoot(st);
  }

  /** The estimate against the end of the numbered block. */
  lemma {:induction false} EstimateOvershoot(st: EditorState)
    requires Valid(st) && '\n' in Selected(st)
    ensures var n := |Split(Selected(st), '\n')|;
      var block := Join(NumberEach(Split(Selected(st), '\n'), 1), '\n');
      var blockEnd := LineStart(Before(st)) + |block|;
      var skipped := st.selStart - LineStart(Before(st));
      0 <= skipped
      && (n <= 9 ==> OrderedListEstimate(st.selEnd, n) == blockEnd + skipped)
      && (10 <= n <= 99 ==> OrderedListEstimate(st.selEnd, n) == blockEnd + skipped + 9)
  {
    var sel := Selected(st);
    var n := |Split(sel, '\n')|;
    NumberedBlockWidth(sel);
    OrderedLabelsWidth(n);
    assert |sel| == st.selEnd - st.selStart;
    assert |Before(st)| == st.selStart;
  }

  /** The numbered block is the selection plus its labels, the first of
      them three characters at least. */
  lemma {:induction false} NumberedBlockWidth(sel: string)
    ensures |Join(NumberEach(Split(sel, '\n'), 1), '\n')| == |sel| + LabelWidth(1, |Split(sel, '\n')|)
    ensures |sel| + 3 <= |Join(NumberEach(Split(sel, '\n'), 1), '\n')|
  {
    assert |Decimal(1)| >= 1;
    var lines := Split(sel, '\n');
    NumberEachWidth(lines, 1);
    JoinSplit(sel, '\n');
  }

  /** A selection within one line that starts after the line start: the
      text between the line start and the selection is gone, and the
      reselection, computed from the old positions, lies that many
      characters to the right of the moved selection (cut to the text). */
  lemma {:induction false} MidLineSelectionDropsText(st: EditorState, prefix: string, placeholder: string)
    requires Valid(st) && Selected(st) != [] && '\n' !in Selected(st)
    requires LineStart(Before(st)) < st.selStart
    ensures var r := InsertAtLineStart(st, prefix, placeholder);
      var ls := LineStart(Before(st));
      var skipped := st.selStart - ls;
      var moved := ls + |prefix|;
      r.text == st.text[..ls] + prefix + Selected(st) + After(st)
      && |r.text| == |st.text| + |prefix| - skipped
      && r.text[moved..moved + |Selected(st)|] == Selected(st)
      && r.selEnd == Min(moved + |Selected(st)| + skipped, |r.text|)
      && r.selStart == Min(moved + skipped, r.selEnd)
  {
    var ls := LineStart(Before(st));
    var r := InsertAtLineStart(st, prefix, placeholder);
    assert r.text == ReplaceLines(st, prefix + Selected(st));
    assert r.text == st.text[..ls] + prefix + Selected(st) + After(st);
    assert r == PrefixSelection(st, prefix);
  }

  /** An instance: the selection `cd` of `ab cd` becomes `- cd` with the
      cursor collapsed after it, nothing selected. */
  lemma MidLineReselectCollapses()
    ensures InsertAtLineStart(EditorState("ab cd", 3, 5), "- ", "") == EditorState("- cd", 4, 4)
  {
    var st := EditorState("ab cd", 3, 5);
    assert Before(st) == "ab ";
    assert LineStart("ab ") == 0 by {
      assert LineStart("ab") == 0 by {
        assert LineStart("a") == 0 by {
          assert "a"[..0] == [];
        }
        assert "ab"[..1] == "a";
      }
      assert "ab "[..2] == "ab";
    }
    assert Selected(st) == "cd";
    assert ReplaceLines(st, "- cd") == "- cd";
  }

  /** A selection within one line that starts at the line start gets the
      prefix in front and stays selected. */
  lemma {:induction false} LineStartSelectionPrefixed(st: EditorState, prefix: string, placeholder: string)
    requires Valid(st) && Selected(st) != [] && '\n' !in Selected(st)
    requires LineStart(Before(st)) == st.selStart
    ensures var r := InsertAtLineStart(st, prefix, placeholder);
      r.text == Before(st) + prefix + Selected(st) + After(st)
      && Selected(r) == Selected(st)
  {
    var r := InsertAtLineStart(st, prefix, placeholder);
    assert r.text == ReplaceLines(st, prefix + Selected(st));
    var t := Before(st) + prefix + Selected(st) + After(st);
    assert r.text == t;
    assert t[st.selStart + |prefix|..st.selEnd + |prefix|] == Selected(st);
  }

  /** The opening fence starts a line of its own. */
  lemma {:induction false} OpeningFenceStartsLine(before: string, lang: string)
    ensures var fence := "```" + lang + "\n";
      var h := before + OpeningFence(before, lang);
      var p := |h| - |fence|;
      0 <= p && (p == 0 || h[p - 1] == '\n') && h[p..] == fence
  {
    var fence := "```" + lang + "\n";
    var open := OpeningFence(before, lang);
    var h := before + open;
    if |before| == 0 || EndsWith(before, "\n") {
      assert h[|before|..] == fence;
      if |before| > 0 {
        assert h[|before| - 1] == before[|before| - 1];
      }
    } else {
      assert open[1..] == fence;
      assert h[|before| + 1..] == fence;
      assert h[|before|] == '\n';
    }
  }

  /** The closing fence has a line of its own. */
  lemma {:induction false} ClosingFenceOwnLine(head: string, after: string)
    ensures var t := head + ClosingFence(after) + after;
      var q := |head| + 1;
      q + 4 <= |t| && t[q - 1] == '\n' && t[q..q + 3] == "```" && t[q + 3] == '\n'
  {
    var close := ClosingFence(after);
    var t := head + close + after;
    assert t[|head|..|head| + |close|] == close;
    if StartsWith(after, "\n") {
      assert t[|head| + 4] == after[0];
    } else {
      assert t[|head| + 4] == close[4];
    }
  }

  /** The layout of a fenced code block between `before` and `after`: the
      opening fence starts a line and carries the language, the body
      follows on the next line, and the closing fence has a line to
      itself. */
  lemma {:induction false} FenceLayout(before: string, lang: string, body: string, after: string)
    ensures var t := before + OpeningFence(before, lang) + body + ClosingFence(after) + after;
      var fence := "```" + lang + "\n";
      var p := |before| + |OpeningFence(before, lang)| - |fence|;
      var q := p + |fence| + |body| + 1;
      q + 4 <= |t|
      && (p == 0 || t[p - 1] == '\n')
      && t[p..p + |fence|] == fence
      && t[p + |fence|..q - 1] == body
      && t[q - 1] == '\n' && t[q..q + 3] == "```" && t[q + 3] == '\n'
  {
    FenceOpeningLayout(before, lang, body, after);
    FenceClosingLayout(before, lang, body, after);
  }

  /** The opening fence of a code block starts a line, and the body follows it. */
  lemma {:induction false} FenceOpeningLayout(before: string, lang: string, body: string, after: string)
    ensures var t := before + OpeningFence(before, lang) + body + ClosingFence(after) + after;
      var fence := "```" + lang + "\n";
      var p := |before| + |OpeningFence(before, lang)| - |fence|;
      0 <= p && p + |fence| + |body| <= |t|
      && (p == 0 || t[p - 1] == '\n')
      && t[p..p + |fence|] == fence
      && t[p + |fence|..p + |fence| + |body|] == body
  {
    var fence := "```" + lang + "\n";
    var h := before + OpeningFence(before, lang);
    var t := h + body + ClosingFence(after) + after;
    var p := |h| - |fence|;
    OpeningFenceStartsLine(before, lang);
    Parts5(before, OpeningFence(before, lang), body, ClosingFence(after), after);
    if p > 0 {
      assert t[p - 1] == h[p - 1];
    }
  }

  /** The closing fence of a code block has a line of its own. */
  lemma {:induction false} FenceClosingLayout(before: string, lang: string, body: string, after: string)
    ensures var t := before + OpeningFence(before, lang) + body + ClosingFence(after) + after;
      var q := |before| + |OpeningFence(before, lang)| + |body| + 1;
      q + 4 <= |t| && t[q - 1] == '\n' && t[q..q + 3] == "```" && t[q + 3] == '\n'
  {
    ClosingFenceOwnLine(before + OpeningFence(before, lang) + body, after);
  }

  /** An inserted image sits on a line of its own: it starts a line and the
      cursor after it ends the text or a line. */
  lemma {:induction false} ImageOnOwnLine(st: EditorState, altText: string, imageUrl: string)
    requires Valid(st) && Trim(imageUrl) != []
    ensures var r := Image(st, Some(altText), Some(imageUrl));
      var m := r.selStart - |"![" + altText + "](" + imageUrl + ")"|;
      (m == 0 || r.text[m - 1] == '\n')
      && (r.selEnd == |r.text| || r.text[r.selEnd] == '\n')
  {
    var before := Before(st);
    var after := After(st);
    var markup := "![" + altText + "](" + imageUrl + ")";
    var prefix := BreakBefore(before);
    var suffix := BreakAfter(after);
    ImageInserted(st, altText, imageUrl);
    LineBreakAround(before, prefix, markup, suffix, after);
  }

  /** A line break inserted unless `before` is empty or ends with one, and
      one inserted unless `after` is empty or starts with one, put `markup`
      on a line of its own. */
  lemma {:induction false} LineBreakAround(before: string, prefix: string, markup: string, suffix: string, after: string)
    requires prefix == BreakBefore(before)
    requires suffix == BreakAfter(after)
    ensures var t := before + prefix + markup + suffix + after;
      var m := |before| + |prefix|;
      var e := m + |markup|;
      (m == 0 || t[m - 1] == '\n') && (e == |t| || t[e] == '\n')
  {
    var t := before + prefix + markup + suffix + after;
    var m := |before| + |prefix|;
    var e := m + |markup|;
    Parts5(before, prefix, markup, suffix, after);
    if m > 0 {
      if prefix == "" {
        assert t[m - 1] == before[|before| - 1];
      } else {
        assert t[m - 1] == prefix[0];
      }
    }
    if e < |t| {
      if suffix == "" {
        assert t[e] == after[0];
      } else {
        assert t[e] == suffix[0];
      }
    }
  }

  /** A horizontal rule sits on a line of its own after a blank line,
      unless it opens the text. */
  lemma {:induction false} RuleOnOwnLine(st: EditorState)
    requires Valid(st)
    ensures var r := Hr(st);
      var h := r.selStart - 4;
      r.text[h..h + 4] == "---\n"
      && (h == 0 <==> Before(st) == [])
      && (h > 0 ==> h >= 2 && r.text[h - 2..h] == "\n\n")
  {
    var before := Before(st);
    var prefix := RulePrefix(before);
    var r := Hr(st);
    var text := before + prefix + "---\n" + After(st);
    assert r.text == text;
    var h := |before| + |prefix|;
    assert text[h..h + 4] == "---\n";
    if h > 0 {
      if prefix == "\n" {
        assert text[h - 2..h] == [before[|before| - 1]] + prefix;
      } else {
        assert text[h - 2..h] == prefix;
      }
    }
  }

  /** An action name the toolbar does not know leaves the editor as it is. */
  lemma {:induction false} UnknownSyntaxUnchanged(st: EditorState, syntaxType: string, answers: Prompts)
    requires Valid(st)
    requires syntaxType !in {"bold", "italic", "strikethrough", "inline-code", "link", "code-block",
                             "image", "h1", "h2", "h3", "ul-list", "ol-list", "blockquote", "hr"}
    ensures Apply(st, syntaxType, answers) == st
  {
  }
}
