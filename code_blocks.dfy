/** The language label of `enhanceCodeBlocks` in script.js: which language
    a rendered code block is labelled with, and which classes its `code`
    element carries afterwards. The highlighter's `getLanguage` is the
    parameter `isLanguage`. */
module CodeBlocks {
  import opened Wrappers
  import opened Strings

  const LanguagePrefix := "language-"

  datatype CodeLabel = CodeLabel(language: string, classes: seq<string>)

  /** `classList.add(name)`: appended unless already present. */
  function AddClass(classes: seq<string>, name: string): (r: seq<string>)
    ensures name in r && classes <= r
    ensures name in classes ==> r == classes
    ensures name !in classes ==> r == classes + [name]
  {
    if name in classes then classes else classes + [name]
  }

  /** Index of the first class starting with `language-`. */
  function FindLanguageClass(classes: seq<string>): (r: Option<nat>)
    ensures r.Some? ==> r.value < |classes| && StartsWith(classes[r.value], LanguagePrefix)
    ensures r.Some? ==> forall k :: 0 <= k < r.value ==> !StartsWith(classes[k], LanguagePrefix)
    ensures r.None? <==> forall k :: 0 <= k < |classes| ==> !StartsWith(classes[k], LanguagePrefix)
  {
    if classes == [] then None
    else if StartsWith(classes[0], LanguagePrefix) then Some(0)
    else
      var r := FindLanguageClass(classes[1..]);
      if r.Some? then Some(r.value + 1) else None
  }

  /** Index of the first class the highlighter knows as a language. */
  function FindKnownClass(classes: seq<string>, isLanguage: string -> bool): (r: Option<nat>)
    ensures r.Some? ==> r.value < |classes| && isLanguage(classes[r.value])
    ensures r.Some? ==> forall k :: 0 <= k < r.value ==> !isLanguage(classes[k])
    ensures r.None? <==> forall k :: 0 <= k < |classes| ==> !isLanguage(classes[k])
  {
    if classes == [] then None
    else if isLanguage(classes[0]) then Some(0)
    else
      var r := FindKnownClass(classes[1..], isLanguage);
      if r.Some? then Some(r.value + 1) else None
  }

  /** The label decision of `enhanceCodeBlocks` and the classes the `code`
      element ends with. The first `language-` class names the language;
      failing one, the first class the highlighter knows does, and gets its
      `language-` class; failing that, the label is `plaintext`, and the
      class `language-plaintext` is added unless the class attribute
      mentions `language-` somewhere. `hljs` is added in every case. */
  function DetectLanguage(classes: seq<string>, isLanguage: string -> bool): (r: CodeLabel)
    ensures "hljs" in r.classes && classes <= r.classes
    ensures FindLanguageClass(classes).Some? ==>
      LanguagePrefix + r.language == classes[FindLanguageClass(classes).value]
      && r.classes == AddClass(classes, "hljs")
    ensures FindLanguageClass(classes).None? && FindKnownClass(classes, isLanguage).Some? ==>
      r.language == classes[FindKnownClass(classes, isLanguage).value]
      && isLanguage(r.language)
      && LanguagePrefix + r.language in r.classes
      && r.classes == AddClass(AddClass(classes, LanguagePrefix + r.language), "hljs")
    ensures FindLanguageClass(classes).None? && FindKnownClass(classes, isLanguage).None? ==>
      r.language == "plaintext"
      && (LanguagePrefix + "plaintext" in r.classes <==> !Includes(Join(classes, ' '), LanguagePrefix))
      && r.classes == (if Includes(Join(classes, ' '), LanguagePrefix) then AddClass(classes, "hljs")
                       else AddClass(AddClass(classes, LanguagePrefix + "plaintext"), "hljs"))
  {
    var lang := FindLanguageClass(classes);
    if lang.Some? then
      var cls := classes[lang.value];
      assert cls == LanguagePrefix + cls[|LanguagePrefix|..];
      CodeLabel(cls[|LanguagePrefix|..], AddClass(classes, "hljs"))
    else
      var known := FindKnownClass(classes, isLanguage);
      if known.Some? then
        var language := classes[known.value];
        CodeLabel(language, AddClass(AddClass(classes, LanguagePrefix + language), "hljs"))
      else if !Includes(Join(classes, ' '), LanguagePrefix) then
        var withPlain := AddClass(classes, LanguagePrefix + "plaintext");
        assert LanguagePrefix + "plaintext" != "hljs";
        CodeLabel("plaintext", AddClass(withPlain, "hljs"))
      else
        assert StartsWith(LanguagePrefix + "plaintext", LanguagePrefix);
        CodeLabel("plaintext", AddClass(classes, "hljs"))
  }

  /** Labelling a block that has already been labelled changes neither its
      label nor its classes, as long as `hljs` is not a language name. */
  lemma {:induction false} DetectLanguageIdempotent(classes: seq<string>, isLanguage: string -> bool)
    requires !isLanguage("hljs")
    ensures var r := DetectLanguage(classes, isLanguage);
      DetectLanguage(r.classes, isLanguage) == r
  {
    var r := DetectLanguage(classes, isLanguage);
    assert !StartsWith("hljs", LanguagePrefix);
    var lang := FindLanguageClass(classes);
    if lang.Some? {
      FirstLanguageClassKept(classes, r.classes, lang.value);
    } else if FindKnownClass(classes, isLanguage).Some? {
      var language := classes[FindKnownClass(classes, isLanguage).value];
      var withLang := AddClass(classes, LanguagePrefix + language);
      assert StartsWith(LanguagePrefix + language, LanguagePrefix);
      assert withLang == classes + [LanguagePrefix + language];
      FirstLanguageClassKept(withLang, r.classes, |classes|);
      assert (LanguagePrefix + language)[|LanguagePrefix|..] == language;
    } else if !Includes(Join(classes, ' '), LanguagePrefix) {
      var withPlain := classes + [LanguagePrefix + "plaintext"];
      assert StartsWith(LanguagePrefix + "plaintext", LanguagePrefix);
      assert AddClass(classes, LanguagePrefix + "plaintext") == withPlain;
      FirstLanguageClassKept(withPlain, r.classes, |classes|);
      assert (LanguagePrefix + "plaintext")[|LanguagePrefix|..] == "plaintext";
    } else {
      NoLanguageClassKept(classes, isLanguage);
    }
  }

  /** Appending classes that follow it keeps the first `language-` class. */
  lemma {:induction false} FirstLanguageClassKept(classes: seq<string>, longer: seq<string>, i: nat)
    requires classes <= longer && i < |classes|
    requires StartsWith(classes[i], LanguagePrefix)
    requires forall k :: 0 <= k < i ==> !StartsWith(classes[k], LanguagePrefix)
    ensures FindLanguageClass(longer) == Some(i)
  {
    var r := FindLanguageClass(longer);
    assert longer[i] == classes[i];
  }

  /** With no `language-` class and no known class, adding `hljs` leaves
      the class attribute mentioning `language-` and no class known. */
  lemma {:induction false} NoLanguageClassKept(classes: seq<string>, isLanguage: string -> bool)
    requires !isLanguage("hljs") && !StartsWith("hljs", LanguagePrefix)
    requires FindLanguageClass(classes).None? && FindKnownClass(classes, isLanguage).None?
    requires Includes(Join(classes, ' '), LanguagePrefix)
    ensures var longer := AddClass(classes, "hljs");
      FindLanguageClass(longer).None? && FindKnownClass(longer, isLanguage).None?
      && Includes(Join(longer, ' '), LanguagePrefix)
  {
    var longer := AddClass(classes, "hljs");
    if "hljs" !in classes {
      JoinIncludes(classes, "hljs", LanguagePrefix);
    }
  }

  /** Joining one more class on. */
  lemma {:induction false} JoinSnoc(classes: seq<string>, name: string, sep: char)
    requires classes != []
    ensures Join(classes + [name], sep) == Join(classes, sep) + [sep] + name
    decreases |classes|
  {
    assert (classes + [name])[0] == classes[0];
    if |classes| > 1 {
      assert (classes + [name])[1..] == classes[1..] + [name];
      JoinSnoc(classes[1..], name, sep);
    }
  }

  /** What a text mentions, any extension of it mentions. */
  lemma {:induction false} IncludesExtended(s: string, t: string, sub: string)
    requires Includes(s, sub)
    ensures Includes(s + t, sub)
    decreases |s|
  {
    if StartsWith(s, sub) {
      assert (s + t)[..|sub|] == s[..|sub|];
    } else {
      assert (s + t)[1..] == s[1..] + t;
      IncludesExtended(s[1..], t, sub);
    }
  }

  /** A text mentioned in the joined classes is still mentioned once one
      more class is joined on. */
  lemma {:induction false} JoinIncludes(classes: seq<string>, name: string, sub: string)
    requires Includes(Join(classes, ' '), sub) && classes != []
    ensures Includes(Join(classes + [name], ' '), sub)
  {
    JoinSnoc(classes, name, ' ');
    IncludesExtended(Join(classes, ' '), [' '] + name, sub);
    assert Join(classes, ' ') + [' '] + name == Join(classes, ' ') + ([' '] + name);
  }
}
