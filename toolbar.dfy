/** `applyMarkdownSyntax` of script.js as functions from the editor state
    before a toolbar action to the editor state after it. The text area is
    the text with its selection `[selStart, selEnd)`; `prompt` answers are
    parameters, `None` standing for a cancelled prompt. */
module Toolbar {
  import opened Wrappers
  import opened Strings

  datatype EditorState = EditorState(text: string, selStart: nat, selEnd: nat)

  /** A text area's selection always lies inside its text. */
  predicate Valid(st: EditorState) {
    st.selStart <= st.selEnd <= |st.text|
  }

  function Selected(st: EditorState): string
    requires Valid(st)
  {
    st.text[st.selStart..st.selEnd]
  }

  function Before(st: EditorState): string
    requires Valid(st)
  {
    st.text[..st.selStart]
  }

  function After(st: EditorState): string
    requires Valid(st)
  {
    st.text[st.selEnd..]
  }

  function Min(a: nat, b: nat): nat {
    if a <= b then a else b
  }

  /** `value = text` followed by `setSelectionRange(start, end)`: both ends
      are clamped to the text and a start past the end is moved onto it. */
  function Select(text: string, start: nat, end: nat): (r: EditorState)
    ensures Valid(r) && r.text == text
    ensures start <= end <= |text| ==> r.selStart == start && r.selEnd == end
    ensures end <= |text| ==> r.selEnd == end
    ensures end > |text| ==> r.selEnd == |text|
    ensures r.selEnd == Min(end, |text|)
    ensures r.selStart == Min(start, r.selEnd)
  {
    var e := Min(end, |text|);
    var s := Min(start, |text|);
    EditorState(text, if s > e then e else s, e)
  }

  /** `wrapSelection`: a selection is wrapped in `open` and `close` and the
      cursor put after it; without one, `placeholder` is wrapped instead and
      selected. */
  function Wrap(st: EditorState, open: string, close: string, placeholder: string): (r: EditorState)
    requires Valid(st)
    ensures Valid(r)
    ensures Selected(st) != [] ==>
      r.selStart == r.selEnd
      && r.text[..r.selStart] == Before(st) + open + Selected(st) + close
      && r.text[r.selEnd..] == After(st)
    ensures Selected(st) == [] ==>
      Selected(r) == placeholder
      && Before(r) == Before(st) + open
      && After(r) == close + After(st)
  {
    var before := Before(st);
    var after := After(st);
    var sel := Selected(st);
    if sel != [] then
      var text := before + open + sel + close + after;
      var cursor := st.selStart + |open| + |sel| + |close|;
      assert text[..cursor] == before + open + sel + close;
      Select(text, cursor, cursor)
    else
      var text := before + open + placeholder + close + after;
      var cursor := st.selStart + |open|;
      assert text[..cursor] == before + open;
      assert text[cursor..cursor + |placeholder|] == placeholder;
      assert text[cursor + |placeholder|..] == close + after;
      Select(text, cursor, cursor + |placeholder|)
  }

  /** `textBefore.lastIndexOf('\n') + 1`: where the line holding the end of
      `s` begins. */
  function LineStart(s: string): (k: nat)
    ensures k <= |s|
    ensures k == 0 || s[k - 1] == '\n'
    ensures '\n' !in s[k..]
  {
    if s == [] then 0
    else if s[|s| - 1] == '\n' then |s|
    else
      var k := LineStart(s[..|s| - 1]);
      assert s[k..] == s[..|s| - 1][k..] + [s[|s| - 1]];
      k
  }

  /** `lines.map(line => prefix + line)` */
  function PrefixEach(lines: seq<string>, prefix: string): (r: seq<string>)
    ensures |r| == |lines|
    ensures forall i :: 0 <= i < |lines| ==> r[i] == prefix + lines[i]
  {
    seq(|lines|, i requires 0 <= i < |lines| => prefix + lines[i])
  }

  /** `lines.map((line, index) => (index + first) + ". " + line)` */
  function NumberEach(lines: seq<string>, first: nat): (r: seq<string>)
    ensures |r| == |lines|
    ensures forall i :: 0 <= i < |lines| ==> r[i] == Decimal(first + i) + ". " + lines[i]
  {
    seq(|lines|, i requires 0 <= i < |lines| => Decimal(first + i) + ". " + lines[i])
  }

  /** `insertAtLineStart(prefix, placeholder)`. A selection spanning lines
      has every line prefixed; a one-line selection gets the prefix in
      front of it; with no selection `prefix + placeholder` is inserted at
      the start of the cursor's line and the placeholder selected. With a
      selection, the text between the line start and the selection start
      is not kept. */
  function InsertAtLineStart(st: EditorState, prefix: string, placeholder: string): (r: EditorState)
    requires Valid(st)
    ensures Valid(r) && LineStart(Before(st)) <= |r.text|
    ensures r.text[..LineStart(Before(st))] == st.text[..LineStart(Before(st))]
    ensures Selected(st) != [] ==> EndsWith(r.text, After(st))
    ensures Selected(st) == [] ==>
      r.text[LineStart(Before(st))..] == prefix + placeholder + st.text[LineStart(Before(st))..]
      && r.selStart == LineStart(Before(st)) + |prefix|
      && Selected(r) == placeholder
  {
    var sel := Selected(st);
    if sel != [] && '\n' in sel then PrefixLines(st, prefix)
    else if sel != [] then PrefixSelection(st, prefix)
    else PrefixCursorLine(st, prefix, placeholder)
  }

  /** The text with the lines from the cursor's line start to the selection
      end replaced by `block`. */
  function ReplaceLines(st: EditorState, block: string): (text: string)
    requires Valid(st)
    ensures |text| == LineStart(Before(st)) + |block| + |After(st)|
    ensures text[..LineStart(Before(st))] == st.text[..LineStart(Before(st))]
    ensures text[LineStart(Before(st))..LineStart(Before(st)) + |block|] == block
    ensures EndsWith(text, After(st))
  {
    var ls := LineStart(Before(st));
    var text := st.text[..ls] + block + After(st);
    assert text[..ls] == st.text[..ls];
    assert text[ls..ls + |block|] == block;
    assert text[|text| - |After(st)|..] == After(st);
    text
  }

  /** The selection end `insertAtLineStart` computes for `n` selected
      lines ending at `end`: each line gains `width` characters. */
  function PrefixedEnd(end: nat, n: nat, width: nat): nat {
    end + n * width
  }

  /** A selection spanning lines: every selected line gets the prefix. */
  function PrefixLines(st: EditorState, prefix: string): (r: EditorState)
    requires Valid(st)
    ensures Valid(r)
    ensures r.text == ReplaceLines(st, Join(PrefixEach(Split(Selected(st), '\n'), prefix), '\n'))
    ensures r.selEnd == Min(PrefixedEnd(st.selEnd, |Split(Selected(st), '\n')|, |prefix|), |r.text|)
    ensures r.selStart == Min(LineStart(Before(st)) + |prefix|, r.selEnd)
  {
    var lines := Split(Selected(st), '\n');
    var text := ReplaceLines(st, Join(PrefixEach(lines, prefix), '\n'));
    Select(text, LineStart(Before(st)) + |prefix|, PrefixedEnd(st.selEnd, |lines|, |prefix|))
  }

  /** A selection within one line: the prefix goes in front of it. */
  function PrefixSelection(st: EditorState, prefix: string): (r: EditorState)
    requires Valid(st)
    ensures Valid(r)
    ensures r.text == ReplaceLines(st, prefix + Selected(st))
    ensures r.selEnd == Min(st.selEnd + |prefix|, |r.text|)
    ensures r.selStart == Min(st.selStart + |prefix|, r.selEnd)
  {
    Select(ReplaceLines(st, prefix + Selected(st)), st.selStart + |prefix|, st.selEnd + |prefix|)
  }

  /** No selection: `prefix + placeholder` goes in at the line start and
      the placeholder is selected. */
  function PrefixCursorLine(st: EditorState, prefix: string, placeholder: string): (r: EditorState)
    requires Valid(st)
    ensures Valid(r) && LineStart(Before(st)) <= |r.text|
    ensures r.text[..LineStart(Before(st))] == st.text[..LineStart(Before(st))]
    ensures r.text[LineStart(Before(st))..] == prefix + placeholder + st.text[LineStart(Before(st))..]
    ensures r.selStart == LineStart(Before(st)) + |prefix|
    ensures r.text[r.selStart..r.selEnd] == placeholder
  {
    var ls := LineStart(Before(st));
    var text := st.text[..ls] + prefix + placeholder + st.text[ls..];
    assert text[..ls] == st.text[..ls];
    assert text[ls..] == prefix + placeholder + st.text[ls..];
    assert text[ls + |prefix|..ls + |prefix| + |placeholder|] == placeholder;
    Select(text, ls + |prefix|, ls + |prefix| + |placeholder|)
  }

  /** The cursor estimate of `insertOrderedListPrefix` for `n` selected
      lines ending at `end`: three characters per line, one more per line
      once there are ten or more. */
  function OrderedListEstimate(end: nat, n: nat): nat {
    end + n * 3 + (if n > 9 then n else 0)
  }

  /** `insertOrderedListPrefix(placeholder)`: the lines of a selection
      spanning lines are numbered from 1; otherwise `insertAtLineStart` is
      used with the prefix "1. ". */
  function InsertOrderedList(st: EditorState, placeholder: string): (r: EditorState)
    requires Valid(st)
    ensures Valid(r) && LineStart(Before(st)) <= |r.text|
    ensures r.text[..LineStart(Before(st))] == st.text[..LineStart(Before(st))]
    ensures Selected(st) != [] ==> EndsWith(r.text, After(st))
    ensures '\n' in Selected(st) ==>
      r.text == ReplaceLines(st, Join(NumberEach(Split(Selected(st), '\n'), 1), '\n'))
      && r.selEnd == Min(OrderedListEstimate(st.selEnd, |Split(Selected(st), '\n')|), |r.text|)
      && r.selStart == Min(LineStart(Before(st)) + |"1. "|, r.selEnd)
    ensures Selected(st) == [] ==>
      r.text[LineStart(Before(st))..] == "1. " + placeholder + st.text[LineStart(Before(st))..]
      && r.selStart == LineStart(Before(st)) + |"1. "|
      && Selected(r) == placeholder
  {
    var sel := Selected(st);
    if sel != [] && '\n' in sel then NumberLines(st)
    else InsertAtLineStart(st, "1. ", if sel != [] then sel else placeholder)
  }

  /** A selection spanning lines: line i (from 0) gets the prefix "i+1. ",
      and the selection ends at the estimate. */
  function NumberLines(st: EditorState): (r: EditorState)
    requires Valid(st)
    ensures Valid(r)
    ensures r.text == ReplaceLines(st, Join(NumberEach(Split(Selected(st), '\n'), 1), '\n'))
    ensures r.selEnd == Min(OrderedListEstimate(st.selEnd, |Split(Selected(st), '\n')|), |r.text|)
    ensures r.selStart == Min(LineStart(Before(st)) + |"1. "|, r.selEnd)
  {
    var lines := Split(Selected(st), '\n');
    Select(ReplaceLines(st, Join(NumberEach(lines, 1), '\n')), LineStart(Before(st)) + |"1. "|,
           OrderedListEstimate(st.selEnd, |lines|))
  }

  const CodePlaceholder := "Your code here"

  /** The opening fence of `codeBlock`: on a fresh line unless the text
      before is empty or already ends a line. */
  function OpeningFence(before: string, lang: string): (r: string)
    ensures EndsWith(r, "```" + lang + "\n")
    ensures |before| == 0 || EndsWith(before, "\n") <==> r == "```" + lang + "\n"
    ensures !(|before| == 0 || EndsWith(before, "\n")) <==> r == "\n```" + lang + "\n"
  {
    if |before| == 0 || EndsWith(before, "\n\n") || EndsWith(before, "\n") then "```" + lang + "\n"
    else "\n```" + lang + "\n"
  }

  /** The closing fence: always followed by a line break, its own unless
      the text after starts with one. */
  function ClosingFence(after: string): (r: string)
    ensures StartsWith(r, "\n```")
    ensures StartsWith(after, "\n") <==> r == "\n```"
    ensures !StartsWith(after, "\n") <==> r == "\n```\n"
  {
    "\n```" + (if StartsWith(after, "\n") then "" else "\n")
  }

  /** The 'code-block' case: the language prompt's answer, trimmed, follows
      the opening fence; a selection is fenced and the cursor put after the
      block, otherwise the placeholder is fenced and selected. */
  function CodeBlock(st: EditorState, language: Option<string>): (r: EditorState)
    requires Valid(st)
    ensures Valid(r)
    ensures StartsWith(r.text, Before(st)) && EndsWith(r.text, After(st))
    ensures Selected(st) == [] ==> Selected(r) == CodePlaceholder
    ensures Selected(st) != [] ==> r.selStart == r.selEnd == |r.text| - |After(st)|
  {
    var lang := if language.Some? then Trim(language.value) else "";
    FenceSelection(st, lang);
    Fence(st, lang)
  }

  /** The fenced block of language `lang` around the selection or the
      placeholder. */
  function Fence(st: EditorState, lang: string): (r: EditorState)
    requires Valid(st)
    ensures Valid(r)
    ensures r.text == Before(st) + OpeningFence(Before(st), lang)
      + (if Selected(st) != [] then Selected(st) else CodePlaceholder) + ClosingFence(After(st)) + After(st)
  {
    var before := Before(st);
    var after := After(st);
    var sel := Selected(st);
    var open := OpeningFence(before, lang);
    var close := ClosingFence(after);
    var body := if sel != [] then sel else CodePlaceholder;
    var text := before + open + body + close + after;
    if sel != [] then
      var cursor := st.selStart + |open| + |sel| + |close|;
      Select(text, cursor, cursor)
    else
      var cursor := st.selStart + |open|;
      Select(text, cursor, cursor + |CodePlaceholder|)
  }

  /** The fenced block keeps the text before and after the selection; the
      placeholder ends up selected, or the cursor right after the block. */
  lemma {:induction false} FenceSelection(st: EditorState, lang: string)
    requires Valid(st)
    ensures var r := Fence(st, lang);
      StartsWith(r.text, Before(st)) && EndsWith(r.text, After(st))
      && (Selected(st) == [] ==> Selected(r) == CodePlaceholder)
      && (Selected(st) != [] ==> r.selStart == r.selEnd == |r.text| - |After(st)|)
  {
    var before := Before(st);
    var after := After(st);
    var body := if Selected(st) != [] then Selected(st) else CodePlaceholder;
    Parts5(before, OpeningFence(before, lang), body, ClosingFence(after), after);
  }

  /** The line break `insertImage` puts before the image: none at the start
      of the text or right after a line break. */
  function BreakBefore(before: string): (r: string)
    ensures r == "" <==> |before| == 0 || EndsWith(before, "\n")
    ensures r == "" || r == "\n"
  {
    if |before| > 0 && !EndsWith(before, "\n") then "\n" else ""
  }

  /** The line break `insertImage` puts after the image: none at the end of
      the text or right before a line break. */
  function BreakAfter(after: string): (r: string)
    ensures r == "" <==> |after| == 0 || StartsWith(after, "\n")
    ensures r == "" || r == "\n"
  {
    if |after| > 0 && !StartsWith(after, "\n") then "\n" else ""
  }

  /** The 'image' case: a cancelled alt-text prompt, or a cancelled or blank
      URL, changes nothing; otherwise the image markup replaces the
      selection, on a line of its own, with the cursor after it (see
      `ImageInserted` and `ImagePlaced`). */
  function Image(st: EditorState, altText: Option<string>, imageUrl: Option<string>): (r: EditorState)
    requires Valid(st)
    ensures Valid(r)
    ensures altText.None? || imageUrl.None? || Trim(imageUrl.value) == [] ==> r == st
  {
    if altText.None? || imageUrl.None? || Trim(imageUrl.value) == [] then st
    else
      var before := Before(st);
      var after := After(st);
      var prefix := BreakBefore(before);
      var suffix := BreakAfter(after);
      var markup := "![" + altText.value + "](" + imageUrl.value + ")";
      var text := before + prefix + markup + suffix + after;
      var cursor := st.selStart + |prefix| + |markup|;
      Select(text, cursor, cursor)
  }

  /** The state `Image` leaves when both prompts are answered and the URL
      is not blank: the markup, on a line of its own, replaces the selection
      and the cursor is put right after it. */
  lemma {:induction false} ImageInserted(st: EditorState, altText: string, imageUrl: string)
    requires Valid(st) && Trim(imageUrl) != []
    ensures var before := Before(st);
      var after := After(st);
      var prefix := BreakBefore(before);
      var suffix := BreakAfter(after);
      var markup := "![" + altText + "](" + imageUrl + ")";
      var cursor := st.selStart + |prefix| + |markup|;
      Image(st, Some(altText), Some(imageUrl)) == Select(before + prefix + markup + suffix + after, cursor, cursor)
      && Image(st, Some(altText), Some(imageUrl)) == EditorState(before + prefix + markup + suffix + after, cursor, cursor)
  {
  }

  /** With both prompts answered and a URL that is not blank, the text before
      and after the selection are kept, the cursor follows the markup, and
      the text grows by the markup and the line breaks added around it. */
  lemma {:induction false} ImagePlaced(st: EditorState, altText: string, imageUrl: string)
    requires Valid(st) && Trim(imageUrl) != []
    ensures var r := Image(st, Some(altText), Some(imageUrl));
      var markup := "![" + altText + "](" + imageUrl + ")";
      r.selStart == r.selEnd
      && StartsWith(r.text, Before(st)) && EndsWith(r.text, After(st))
      && EndsWith(r.text[..r.selStart], markup)
      && |r.text| == |Before(st)| + |markup| + |After(st)|
           + (if |Before(st)| > 0 && !EndsWith(Before(st), "\n") then 1 else 0)
           + (if |After(st)| > 0 && !StartsWith(After(st), "\n") then 1 else 0)
  {
    var before := Before(st);
    var after := After(st);
    var prefix := BreakBefore(before);
    var suffix := BreakAfter(after);
    var markup := "![" + altText + "](" + imageUrl + ")";
    var r := Image(st, Some(altText), Some(imageUrl));
    ImageInserted(st, altText, imageUrl);
    assert r.text == before + prefix + markup + suffix + after;
    assert r.selStart == r.selEnd == |before| + |prefix| + |markup|;
    assert |prefix| == (if |before| > 0 && !EndsWith(before, "\n") then 1 else 0);
    assert |suffix| == (if |after| > 0 && !StartsWith(after, "\n") then 1 else 0);
    InsertedParts(before, prefix, markup, suffix, after);
  }

  /** A text put together as `before + prefix + markup + suffix + after`
      starts with `before`, ends with `after`, and its part up to the end of
      `markup` ends with `markup`. */
  lemma {:induction false} InsertedParts(before: string, prefix: string, markup: string, suffix: string, after: string)
    ensures var text := before + prefix + markup + suffix + after;
      var cursor := |before| + |prefix| + |markup|;
      cursor <= |text| && StartsWith(text, before) && EndsWith(text, after) && EndsWith(text[..cursor], markup)
  {
    var text := before + prefix + markup + suffix + after;
    var m := |before| + |prefix|;
    Parts5(before, prefix, markup, suffix, after);
    assert text[..m + |markup|][m..] == text[m..m + |markup|];
  }

  /** The line break(s) put in front of a horizontal rule. */
  function RulePrefix(before: string): (r: string)
    ensures |before| == 0 <==> r == ""
    ensures |before| > 0 && EndsWith(before, "\n") ==> r == "\n"
    ensures |before| > 0 && !EndsWith(before, "\n") ==> r == "\n\n"
  {
    if |before| > 0 && !EndsWith(before, "\n\n") then (if EndsWith(before, "\n") then "\n" else "\n\n")
    else if |before| == 0 then ""
    else "\n"
  }

  /** The 'hr' case: `---` and a line break replace the selection, with the
      cursor after them. */
  function Hr(st: EditorState): (r: EditorState)
    requires Valid(st)
    ensures Valid(r) && r.selStart == r.selEnd
    ensures StartsWith(r.text, Before(st)) && EndsWith(r.text, After(st))
    ensures EndsWith(r.text[..r.selStart], "---\n")
    ensures |r.text| == |Before(st)| + |RulePrefix(Before(st))| + 4 + |After(st)|
  {
    var before := Before(st);
    var prefix := RulePrefix(before);
    var text := before + prefix + "---\n" + After(st);
    var cursor := st.selStart + |prefix| + 4;
    assert text[..cursor] == before + prefix + "---\n";
    assert text[..|before|] == before;
    assert text[|text| - |After(st)|..] == After(st);
    Select(text, cursor, cursor)
  }

  /** The answers the `prompt` dialogs of one toolbar action would give. */
  datatype Prompts = Prompts(
    linkUrl: Option<string>,
    codeLanguage: Option<string>,
    altText: Option<string>,
    imageUrl: Option<string>)

  /** The 'link' case: a cancelled or blank URL changes nothing; otherwise
      the selection, or "link text", becomes the link's text. */
  function Link(st: EditorState, url: Option<string>): (r: EditorState)
    requires Valid(st)
    ensures Valid(r)
    ensures url.None? || Trim(url.value) == [] ==> r == st
    ensures url.Some? && Trim(url.value) != [] && Selected(st) == [] ==>
      Selected(r) == "link text" && EndsWith(Before(r), "[") && StartsWith(After(r), "](" + url.value + ")")
  {
    if url.Some? && Trim(url.value) != [] then
      Wrap(st, "[", "](" + url.value + ")", if Selected(st) != [] then Selected(st) else "link text")
    else st
  }

  /** `applyMarkdownSyntax(syntaxType)`: the toolbar action named by
      `syntaxType`; an unknown name changes nothing. */
  function Apply(st: EditorState, syntaxType: string, answers: Prompts): (r: EditorState)
    requires Valid(st)
    ensures Valid(r)
  {
    match syntaxType
    case "bold" => Wrap(st, "**", "**", "bold text")
    case "italic" => Wrap(st, "*", "*", "italic text")
    case "strikethrough" => Wrap(st, "~~", "~~", "strikethrough")
    case "inline-code" => Wrap(st, "`", "`", "code")
    case "link" => Link(st, answers.linkUrl)
    case "code-block" => CodeBlock(st, answers.codeLanguage)
    case "image" => Image(st, answers.altText, answers.imageUrl)
    case "h1" => InsertAtLineStart(st, "# ", "Heading 1")
    case "h2" => InsertAtLineStart(st, "## ", "Heading 2")
    case "h3" => InsertAtLineStart(st, "### ", "Heading 3")
    case "ul-list" => InsertAtLineStart(st, "- ", "List item")
    case "ol-list" => InsertOrderedList(st, "List item")
    case "blockquote" => InsertAtLineStart(st, "> ", "Blockquote")
    case "hr" => Hr(st)
    case _ => st
  }
}
