/** The Markdown input of script.js as an object: its `value` and its
    selection are updated in place by the toolbar helpers of
    `applyMarkdownSyntax`. Each method is proved to leave the editor in
    the state the matching function of `Toolbar` describes. */
module Editing {
  import opened Wrappers
  import opened Strings
  import opened Toolbar

  class Editor {
    var text: string
    var selStart: nat
    var selEnd: nat

    predicate Valid()
      reads this
    {
      selStart <= selEnd <= |text|
    }

    function State(): (st: EditorState)
      reads this
      ensures Valid() <==> Toolbar.Valid(st)
    {
      EditorState(text, selStart, selEnd)
    }

    constructor (initial: string)
      ensures Valid() && State() == EditorState(initial, |initial|, |initial|)
    {
      text := initial;
      selStart := |initial|;
      selEnd := |initial|;
    }

    /** Assigning `value`: the cursor goes to the end of the new text. */
    method SetValue(newText: string)
      modifies this
      ensures Valid() && State() == EditorState(newText, |newText|, |newText|)
    {
      text := newText;
      selStart := |newText|;
      selEnd := |newText|;
    }

    /** `setSelectionRange(start, end)` */
    method SetSelectionRange(start: nat, end: nat)
      modifies this
      ensures Valid() && State() == Select(old(text), start, end)
    {
      var e := if end <= |text| then end else |text|;
      var s := if start <= |text| then start else |text|;
      if s > e {
        s := e;
      }
      selStart := s;
      selEnd := e;
    }

    /** `wrapSelection(beforeSyntax, afterSyntax, placeholder)` */
    method WrapSelection(beforeSyntax: string, afterSyntax: string, placeholder: string)
      requires Valid()
      modifies this
      ensures Valid() && State() == Wrap(old(State()), beforeSyntax, afterSyntax, placeholder)
    {
      var start := selStart;
      var end := selEnd;
      var selectedText := text[start..end];
      var textBefore := text[..start];
      var textAfter := text[end..];
      if selectedText != [] {
        var newText := textBefore + beforeSyntax + selectedText + afterSyntax + textAfter;
        var cursorPos := start + |beforeSyntax| + |selectedText| + |afterSyntax|;
        SetValue(newText);
        SetSelectionRange(cursorPos, cursorPos);
      } else {
        var newText := textBefore + beforeSyntax + placeholder + afterSyntax + textAfter;
        var cursorPos := start + |beforeSyntax|;
        SetValue(newText);
        SetSelectionRange(cursorPos, cursorPos + |placeholder|);
      }
    }

    /** `insertAtLineStart(prefix, placeholder)` */
    method InsertAtLineStart(prefix: string, placeholder: string)
      requires Valid()
      modifies this
      ensures Valid() && State() == Toolbar.InsertAtLineStart(old(State()), prefix, placeholder)
    {
      var selectedText := text[selStart..selEnd];
      if selectedText != [] && '\n' in selectedText {
        PrefixSelectedLines(prefix);
      } else if selectedText != [] {
        PrefixSelection(prefix);
      } else {
        PrefixCursorLine(prefix, placeholder);
      }
    }

    /** The multi-line branch of `insertAtLineStart`. */
    method PrefixSelectedLines(prefix: string)
      requires Valid() && '\n' in text[selStart..selEnd]
      modifies this
      ensures Valid() && State() == PrefixLines(old(State()), prefix)
    {
      ghost var st := State();
      var end := selEnd;
      var selectedText := text[selStart..end];
      var textAfter := text[end..];
      var firstSelectedLineStart := LineStart(text[..selStart]);
      var lines := Split(selectedText, '\n');
      var prefixedLines := Join(PrefixEach(lines, prefix), '\n');
      var newText := text[..firstSelectedLineStart] + prefixedLines + textAfter;
      var cursorPos := end + |lines| * |prefix|;
      assert selectedText == Selected(st) && text[..selStart] == Before(st);
      assert newText == ReplaceLines(st, prefixedLines);
      assert PrefixLines(st, prefix) == Select(newText, firstSelectedLineStart + |prefix|, cursorPos);
      SetValue(newText);
      SetSelectionRange(firstSelectedLineStart + |prefix|, cursorPos);
    }

    /** The one-line selection branch of `insertAtLineStart`. */
    method PrefixSelection(prefix: string)
      requires Valid()
      modifies this
      ensures Valid() && State() == Toolbar.PrefixSelection(old(State()), prefix)
    {
      ghost var st := State();
      var start := selStart;
      var end := selEnd;
      var selectedText := text[start..end];
      var textBeforeLine := text[..LineStart(text[..start])];
      var newText := textBeforeLine + prefix + selectedText + text[end..];
      assert newText == ReplaceLines(st, prefix + selectedText);
      SetValue(newText);
      SetSelectionRange(start + |prefix|, end + |prefix|);
    }

    /** The no-selection branch of `insertAtLineStart`. */
    method PrefixCursorLine(prefix: string, placeholder: string)
      requires Valid()
      modifies this
      ensures Valid() && State() == Toolbar.PrefixCursorLine(old(State()), prefix, placeholder)
    {
      var currentLineStart := LineStart(text[..selStart]);
      var newText := text[..currentLineStart] + prefix + placeholder + text[currentLineStart..];
      var cursorPos := currentLineStart + |prefix|;
      SetValue(newText);
      SetSelectionRange(cursorPos, cursorPos + |placeholder|);
    }

    /** `insertOrderedListPrefix(placeholder)` */
    method InsertOrderedListPrefix(placeholder: string)
      requires Valid()
      modifies this
      ensures Valid() && State() == InsertOrderedList(old(State()), placeholder)
    {
      var selectedText := text[selStart..selEnd];
      if selectedText != [] && '\n' in selectedText {
        NumberSelectedLines();
      } else {
        InsertAtLineStart("1. ", if selectedText != [] then selectedText else placeholder);
      }
    }

    /** The multi-line branch of `insertOrderedListPrefix`. */
    method NumberSelectedLines()
      requires Valid() && '\n' in text[selStart..selEnd]
      modifies this
      ensures Valid() && State() == NumberLines(old(State()))
    {
      ghost var st := State();
      var end := selEnd;
      var selectedText := text[selStart..end];
      var textAfter := text[end..];
      var firstSelectedLineStart := LineStart(text[..selStart]);
      var lines := Split(selectedText, '\n');
      var prefixedLines := Join(NumberEach(lines, 1), '\n');
      var newText := text[..firstSelectedLineStart] + prefixedLines + textAfter;
      var cursorPos := OrderedListEstimate(end, |lines|);
      assert newText == ReplaceLines(st, prefixedLines);
      SetValue(newText);
      SetSelectionRange(firstSelectedLineStart + |"1. "|, cursorPos);
    }

    /** The 'code-block' case, given the answer to the language prompt. */
    method InsertCodeBlock(language: Option<string>)
      requires Valid()
      modifies this
      ensures Valid() && State() == CodeBlock(old(State()), language)
    {
      var start := selStart;
      var end := selEnd;
      var selectedText := text[start..end];
      var textBefore := text[..start];
      var textAfter := text[end..];
      var langStr := if language.Some? then Trim(language.value) else "";
      var beforeBlock := OpeningFence(textBefore, langStr);
      var afterBlock := ClosingFence(textAfter);
      if selectedText != [] {
        var newText := textBefore + beforeBlock + selectedText + afterBlock + textAfter;
        var cursorPos := start + |beforeBlock| + |selectedText| + |afterBlock|;
        SetValue(newText);
        SetSelectionRange(cursorPos, cursorPos);
      } else {
        var newText := textBefore + beforeBlock + CodePlaceholder + afterBlock + textAfter;
        var cursorPos := start + |beforeBlock|;
        SetValue(newText);
        SetSelectionRange(cursorPos, cursorPos + |CodePlaceholder|);
      }
    }

    /** The 'image' case, given the answers to the alt-text and URL prompts. */
    method InsertImage(altText: Option<string>, imgUrl: Option<string>)
      requires Valid()
      modifies this
      ensures Valid() && State() == Image(old(State()), altText, imgUrl)
    {
      if altText.None? {
        return;
      }
      if imgUrl.None? || Trim(imgUrl.value) == "" {
        return;
      }
      ghost var st := State();
      var start := selStart;
      var textBefore := text[..start];
      var textAfter := text[selEnd..];
      var prefix := BreakBefore(textBefore);
      var suffix := BreakAfter(textAfter);
      var imageMarkdown := "![" + altText.value + "](" + imgUrl.value + ")";
      var newText := textBefore + prefix + imageMarkdown + suffix + textAfter;
      var cursorPos := start + |prefix| + |imageMarkdown|;
      assert textBefore == Before(st) && textAfter == After(st);
      ImageInserted(st, altText.value, imgUrl.value);
      assert Image(st, altText, imgUrl) == Select(newText, cursorPos, cursorPos);
      SetValue(newText);
      SetSelectionRange(cursorPos, cursorPos);
    }

    /** The 'hr' case. */
    method InsertRule()
      requires Valid()
      modifies this
      ensures Valid() && State() == Hr(old(State()))
    {
      var start := selStart;
      var textBefore := text[..start];
      var textAfter := text[selEnd..];
      var hrPrefix := "\n";
      if |textBefore| > 0 && !EndsWith(textBefore, "\n\n") {
        hrPrefix := if EndsWith(textBefore, "\n") then "\n" else "\n\n";
      } else if |textBefore| == 0 {
        hrPrefix := "";
      }
      var newText := textBefore + hrPrefix + "---\n" + textAfter;
      var cursorPos := start + |hrPrefix| + 4;
      SetValue(newText);
      SetSelectionRange(cursorPos, cursorPos);
    }

    /** `applyMarkdownSyntax(syntaxType)`, with the answers its prompts
        would get. */
    method ApplyMarkdownSyntax(syntaxType: string, answers: Prompts)
      requires Valid()
      modifies this
      ensures Valid() && State() == Apply(old(State()), syntaxType, answers)
    {
      match syntaxType
      case "bold" => WrapSelection("**", "**", "bold text");
      case "italic" => WrapSelection("*", "*", "italic text");
      case "strikethrough" => WrapSelection("~~", "~~", "strikethrough");
      case "inline-code" => WrapSelection("`", "`", "code");
      case "link" =>
        var url := answers.linkUrl;
        if url.Some? && Trim(url.value) != "" {
          var selectedText := text[selStart..selEnd];
          WrapSelection("[", "](" + url.value + ")", if selectedText != [] then selectedText else "link text");
        }
      case "code-block" => InsertCodeBlock(answers.codeLanguage);
      case "image" => InsertImage(answers.altText, answers.imageUrl);
      case "h1" => InsertAtLineStart("# ", "Heading 1");
      case "h2" => InsertAtLineStart("## ", "Heading 2");
      case "h3" => InsertAtLineStart("### ", "Heading 3");
      case "ul-list" => InsertAtLineStart("- ", "List item");
      case "ol-list" => InsertOrderedListPrefix("List item");
      case "blockquote" => InsertAtLineStart("> ", "Blockquote");
      case "hr" => InsertRule();
      case _ =>
    }
  }
}
