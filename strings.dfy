/** String helpers shared by the renderer and the editor: the JavaScript
    operations (`String(n)`, `trim`, `split`, `join`, `startsWith`,
    `endsWith`, `includes`) that the modelled code relies on. */
module Strings {

  /** The white-space class of JavaScript (`trim` and the regular-expression
      class `\s`): WhiteSpace and LineTerminator of ECMAScript, with the
      Unicode space separators written out. */
  predicate IsWhitespace(c: char) {
    ('\t' <= c <= '\r') || c == ' ' || c == '\U{A0}' || c == '\U{1680}' ||
    ('\U{2000}' <= c <= '\U{200A}') || c == '\U{2028}' || c == '\U{2029}' ||
    c == '\U{202F}' || c == '\U{205F}' || c == '\U{3000}' || c == '\U{FEFF}'
  }

  predicate StartsWith(s: string, prefix: string) {
    |prefix| <= |s| && s[..|prefix|] == prefix
  }

  predicate EndsWith(s: string, suffix: string) {
    |suffix| <= |s| && s[|s| - |suffix|..] == suffix
  }

  /** Each of the five parts a text is put together from can be read back
      off it. */
  lemma {:induction false} Parts5<T>(a: seq<T>, b: seq<T>, c: seq<T>, d: seq<T>, e: seq<T>)
    ensures var t := a + b + c + d + e;
      var i := |a|; var j := i + |b|; var k := j + |c|; var l := k + |d|;
      |t| == l + |e| && t[..i] == a && t[i..j] == b && t[j..k] == c && t[k..l] == d && t[l..] == e
      && t[..j] == a + b && t[..k] == a + b + c && t[..l] == a + b + c + d
      && t[i..] == b + c + d + e && t[j..] == c + d + e && t[k..] == d + e
  {
  }

  /** `s.includes(sub)` */
  predicate Includes(s: string, sub: string) {
    StartsWith(s, sub) || (s != [] && Includes(s[1..], sub))
  }

  function DigitChar(d: nat): (c: char)
    requires d < 10
    ensures '0' <= c <= '9'
  {
    "0123456789"[d]
  }

  /** The number a string of decimal digits denotes, most significant
      digit first. */
  function DigitsValue(t: string): nat
    requires forall k :: 0 <= k < |t| ==> '0' <= t[k] <= '9'
  {
    if t == [] then 0 else 10 * DigitsValue(t[..|t| - 1]) + (t[|t| - 1] as int - '0' as int)
  }

  /** The decimal form of a natural number, as JavaScript's template
      literals print it. */
  function Decimal(n: nat): (r: string)
    ensures 1 <= |r|
    decreases n
  {
    if n < 10 then [DigitChar(n)] else Decimal(n / 10) + [DigitChar(n % 10)]
  }

  /** The decimal form is all digits. */
  lemma {:induction false} DecimalDigits(n: nat)
    ensures forall k :: 0 <= k < |Decimal(n)| ==> '0' <= Decimal(n)[k] <= '9'
    decreases n
  {
    if n >= 10 {
      DecimalDigits(n / 10);
    }
  }

  /** The decimal form denotes the number, and has no leading zero. */
  lemma {:induction false} DecimalValue(n: nat)
    ensures forall k :: 0 <= k < |Decimal(n)| ==> '0' <= Decimal(n)[k] <= '9'
    ensures DigitsValue(Decimal(n)) == n
    ensures |Decimal(n)| > 1 ==> Decimal(n)[0] != '0'
    decreases n
  {
    DecimalDigits(n);
    if n >= 10 {
      DecimalValue(n / 10);
      var t := Decimal(n);
      assert t[..|t| - 1] == Decimal(n / 10);
      assert t[|t| - 1] == DigitChar(n % 10);
      assert t[0] == Decimal(n / 10)[0];
    }
  }

  /** One digit below ten, two digits below a hundred. */
  lemma {:induction false} DecimalWidth(n: nat)
    ensures n < 10 ==> |Decimal(n)| == 1
    ensures 10 <= n < 100 ==> |Decimal(n)| == 2
  {
    if 10 <= n < 100 {
      assert |Decimal(n / 10)| == 1;
    }
  }

  /** Number of white-space characters at the start of `s`. */
  function LeadingWhitespace(s: string): (n: nat)
    ensures n <= |s|
    ensures forall k :: 0 <= k < n ==> IsWhitespace(s[k])
    ensures n < |s| ==> !IsWhitespace(s[n])
  {
    if s == [] || !IsWhitespace(s[0]) then 0 else 1 + LeadingWhitespace(s[1..])
  }

  /** Number of white-space characters at the end of `s`. */
  function TrailingWhitespace(s: string): (n: nat)
    ensures n <= |s|
    ensures forall k :: |s| - n <= k < |s| ==> IsWhitespace(s[k])
    ensures n < |s| ==> !IsWhitespace(s[|s| - n - 1])
  {
    if s == [] || !IsWhitespace(s[|s| - 1]) then 0
    else 1 + TrailingWhitespace(s[..|s| - 1])
  }

  /** `s.trim()`: the slice of `s` between its leading and trailing white space. */
  function Trim(s: string): (r: string)
    ensures r == [] <==> forall k :: 0 <= k < |s| ==> IsWhitespace(s[k])
    ensures r != [] ==> !IsWhitespace(r[0]) && !IsWhitespace(r[|r| - 1])
    ensures LeadingWhitespace(s) + |r| <= |s|
    ensures r == s[LeadingWhitespace(s)..LeadingWhitespace(s) + |r|]
    ensures forall k :: LeadingWhitespace(s) + |r| <= k < |s| ==> IsWhitespace(s[k])
  {
    var a := LeadingWhitespace(s);
    var t := s[a..];
    var b := TrailingWhitespace(t);
    assert a < |s| ==> t[0] == s[a];
    assert t[..|t| - b] == s[a..a + (|t| - b)];
    t[..|t| - b]
  }

  /** `s.split(sep)` for a one-character separator: the pieces between the
      occurrences of `sep`, always at least one. */
  function Split(s: string, sep: char): (r: seq<string>)
    ensures 1 <= |r|
    ensures forall k :: 0 <= k < |r| ==> sep !in r[k]
  {
    if sep !in s then [s]
    else
      var k := IndexOf(s, sep);
      [s[..k]] + Split(s[k + 1..], sep)
  }

  /** Index of the first occurrence of `c`, which must occur. */
  function IndexOf(s: string, c: char): (k: nat)
    requires c in s
    ensures k < |s| && s[k] == c && c !in s[..k]
  {
    if s[0] == c then 0
    else
      assert c in s[1..] by { var j :| 0 <= j < |s| && s[j] == c; assert s[1..][j - 1] == c; }
      var k := 1 + IndexOf(s[1..], c);
      assert s[..k] == [s[0]] + s[1..][..k - 1];
      k
  }

  /** `parts.join(sep)` */
  function Join(parts: seq<string>, sep: char): (r: string)
    ensures parts != [] ==> |r| == Width(parts) + |parts| - 1
  {
    if parts == [] then []
    else if |parts| == 1 then parts[0]
    else parts[0] + [sep] + Join(parts[1..], sep)
  }

  /** Total length of the parts. */
  function Width(parts: seq<string>): nat {
    if parts == [] then 0 else |parts[0]| + Width(parts[1..])
  }

  /** Splitting and joining again gives back the text. */
  lemma {:induction false} JoinSplit(s: string, sep: char)
    ensures Join(Split(s, sep), sep) == s
    decreases |s|
  {
    if sep in s {
      var k := IndexOf(s, sep);
      var rest := Split(s[k + 1..], sep);
      JoinSplit(s[k + 1..], sep);
      JoinCons(s[..k], rest, sep);
      assert s == s[..k] + [sep] + s[k + 1..];
    }
  }

  /** Joining one more part on in front. */
  lemma {:induction false} JoinCons(first: string, rest: seq<string>, sep: char)
    requires rest != []
    ensures Join([first] + rest, sep) == first + [sep] + Join(rest, sep)
  {
    assert ([first] + rest)[0] == first;
    assert ([first] + rest)[1..] == rest;
  }

  /** There is one piece more than there are separators. */
  lemma {:induction false} SplitCount(s: string, sep: char)
    ensures |Split(s, sep)| == 1 + multiset(s)[sep]
    decreases |s|
  {
    if sep in s {
      var k := IndexOf(s, sep);
      SplitCount(s[k + 1..], sep);
      assert s == s[..k] + [sep] + s[k + 1..];
      assert multiset(s) == multiset(s[..k]) + multiset{sep} + multiset(s[k + 1..]);
    } else {
      assert multiset(s)[sep] == 0;
    }
  }

  /** Joining pieces that hold no separator and splitting again gives back
      the pieces. */
  lemma {:induction false} SplitJoin(parts: seq<string>, sep: char)
    requires parts != []
    requires forall k :: 0 <= k < |parts| ==> sep !in parts[k]
    ensures Split(Join(parts, sep), sep) == parts
    decreases |parts|
  {
    if |parts| > 1 {
      var rest := Join(parts[1..], sep);
      var s := parts[0] + [sep] + rest;
      assert s[|parts[0]|] == sep;
      var k := IndexOf(s, sep);
      assert s[..k] == parts[0];
      assert s[k + 1..] == rest;
      SplitJoin(parts[1..], sep);
      assert parts == [parts[0]] + parts[1..];
    }
  }
}
