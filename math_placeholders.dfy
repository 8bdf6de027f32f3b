/** The math text surgery of `render` in markdown-renderer.js: display spans
    `$$…$$` and then inline spans `$…$` are swapped for placeholder elements
    before Markdown parsing, and swapped back afterwards.

    Between the passes the text is a sequence of pieces: a character, or a
    placeholder standing for the markup
    `<span class="math-placeholder" data-id="k"></span>`. That markup holds
    no `$` and no line break, so a scan over pieces that reads a placeholder
    as one such character matches exactly what the regular expressions match
    on the markup text. */
module MathPlaceholders {
  import opened Wrappers
  import opened Strings

  datatype Piece = Ch(c: char) | Ph(id: nat)

  /** The text handed to the parser, and the list `mathBlocks`. */
  datatype Extraction = Extraction(pieces: seq<Piece>, blocks: seq<string>)

  /** A node of the parsed document, abstracted: text, or a
      `span.math-placeholder` element with its parsed `data-id`. */
  datatype Node = Text(text: string) | Placeholder(id: int)

  datatype RenderResult = Document(nodes: seq<Node>) | ParseFailed(html: string)

  const ParseErrorHtml: string := "<div class=\"alert alert-danger\">Error parsing Markdown.</div>"

  const PlaceholderOpen: string := "<span class=\"math-placeholder\" data-id=\""
  const PlaceholderClose: string := "\"></span>"

  function PlaceholderMarkup(id: nat): string {
    PlaceholderOpen + Decimal(id) + PlaceholderClose
  }

  /** `textWithPlaceholders` as a string. */
  function Flatten(ps: seq<Piece>): string {
    if ps == [] then [] else PieceMarkup(ps[0]) + Flatten(ps[1..])
  }

  /** The text a piece stands for in `textWithPlaceholders`. */
  function PieceMarkup(p: Piece): string {
    match p
    case Ch(c) => [c]
    case Ph(id) => PlaceholderMarkup(id)
  }

  /** The text of the pieces from `m` up to `e`: a matched span as the
      inline regular expression reads it. */
  function SpanText(ps: seq<Piece>, m: nat, e: nat): string
    requires m <= e <= |ps|
    decreases e - m
  {
    if m == e then [] else PieceMarkup(ps[m]) + SpanText(ps, m + 1, e)
  }

  predicate IsChars(ps: seq<Piece>) {
    forall k :: 0 <= k < |ps| ==> ps[k].Ch?
  }

  // ---------------------------------------------------------------------
  // Display pass: /\$\$([\s\S]*?)\$\$/g

  /** Does `$$` start at `m`? */
  predicate PairAt(s: string, m: nat) {
    m + 1 < |s| && s[m] == '$' && s[m + 1] == '$'
  }

  /** First index `k >= from` where `$$` starts, or |s| when there is none. */
  function FindDollarPair(s: string, from: nat): (k: nat)
    requires from <= |s|
    ensures from <= k <= |s|
    ensures k < |s| ==> PairAt(s, k)
    decreases |s| - from
  {
    if from + 1 >= |s| then |s|
    else if PairAt(s, from) then from
    else FindDollarPair(s, from + 1)
  }

  /** No `$$` starts between `from` and the one found, nor after `from` when
      none is found. */
  lemma {:induction false} FindDollarPairFirst(s: string, from: nat)
    requires from <= |s|
    ensures forall m :: from <= m < FindDollarPair(s, from) ==> !PairAt(s, m)
    ensures FindDollarPair(s, from) == |s| ==> forall m :: from <= m ==> !PairAt(s, m)
    decreases |s| - from
  {
    if from + 1 < |s| && !PairAt(s, from) {
      FindDollarPairFirst(s, from + 1);
    }
  }

  /** Does a display span start at `i`? */
  predicate DisplayMatchAt(s: string, i: nat)
    requires i < |s|
  {
    PairAt(s, i) && FindDollarPair(s, i + 2) < |s|
  }

  /** The display pass over `s[i..]`, the first placeholder getting id `next`:
      the leftmost `$$` that has a later `$$` is replaced together with the
      shortest content up to it; otherwise one character is kept. */
  function DisplayFrom(s: string, i: nat, next: nat): (r: Extraction)
    requires i <= |s|
    decreases |s| - i
  {
    if i == |s| then Extraction([], [])
    else if DisplayMatchAt(s, i) then
      var j := FindDollarPair(s, i + 2);
      var rest := DisplayFrom(s, j + 2, next + 1);
      Extraction([Ph(next)] + rest.pieces, [s[i..j + 2]] + rest.blocks)
    else
      var rest := DisplayFrom(s, i + 1, next);
      Extraction([Ch(s[i])] + rest.pieces, rest.blocks)
  }

  // ---------------------------------------------------------------------
  // Inline pass: /\$([^$\n]+?)\$/g

  /** May `p` sit inside an inline span? Never `$` or a line break. With
      `crossPlaceholders` (the code as written) a placeholder may, since its
      markup is neither; otherwise a placeholder ends the span. */
  predicate InlineContent(p: Piece, crossPlaceholders: bool) {
    match p
    case Ch(c) => c != '$' && c != '\n'
    case Ph(_) => crossPlaceholders
  }

  /** First index `k >= from` whose piece cannot be inline content, or |ps|. */
  function InlineStop(ps: seq<Piece>, from: nat, crossPlaceholders: bool): (k: nat)
    requires from <= |ps|
    ensures from <= k <= |ps|
    ensures k < |ps| ==> !InlineContent(ps[k], crossPlaceholders)
    decreases |ps| - from
  {
    if from == |ps| || !InlineContent(ps[from], crossPlaceholders) then from
    else InlineStop(ps, from + 1, crossPlaceholders)
  }

  /** Every piece the scan passes over may sit inside an inline span. */
  lemma {:induction false} InlineStopContent(ps: seq<Piece>, from: nat, crossPlaceholders: bool)
    requires from <= |ps|
    ensures forall m :: from <= m < InlineStop(ps, from, crossPlaceholders) ==> InlineContent(ps[m], crossPlaceholders)
    decreases |ps| - from
  {
    if from < |ps| && InlineContent(ps[from], crossPlaceholders) {
      InlineStopContent(ps, from + 1, crossPlaceholders);
    }
  }

  /** Does an inline span start at `i`? */
  predicate InlineMatchAt(ps: seq<Piece>, i: nat, crossPlaceholders: bool)
    requires i < |ps|
  {
    var k := InlineStop(ps, i + 1, crossPlaceholders);
    ps[i] == Ch('$') && i + 1 < k < |ps| && ps[k] == Ch('$')
  }

  /** The inline pass over `ps[i..]`: a `$`, one or more content pieces and a
      closing `$` are replaced; otherwise one piece is kept. The recorded span
      is the matched text, placeholder markup included. */
  function InlineFrom(ps: seq<Piece>, i: nat, next: nat, crossPlaceholders: bool): (r: Extraction)
    requires i <= |ps|
    decreases |ps| - i
  {
    if i == |ps| then Extraction([], [])
    else
      var k := InlineStop(ps, i + 1, crossPlaceholders);
      if InlineMatchAt(ps, i, crossPlaceholders) then
        var rest := InlineFrom(ps, k + 1, next + 1, crossPlaceholders);
        Extraction([Ph(next)] + rest.pieces, [SpanText(ps, i, k + 1)] + rest.blocks)
      else
        var rest := InlineFrom(ps, i + 1, next, crossPlaceholders);
        Extraction([ps[i]] + rest.pieces, rest.blocks)
  }

  /** Both passes: display spans first, inline spans on what is left, the ids
      continuing after the display ids. */
  function Extract(s: string, crossPlaceholders: bool): Extraction {
    var d := DisplayFrom(s, 0, 0);
    var n := InlineFrom(d.pieces, 0, |d.blocks|, crossPlaceholders);
    Extraction(n.pieces, d.blocks + n.blocks)
  }

  // ---------------------------------------------------------------------
  // Restoration and the whole render

  /** One step of the restoration loop: a placeholder whose id indexes
      `mathBlocks` becomes a text node holding that span. */
  function RestoreNode(n: Node, mathBlocks: seq<string>): Node {
    match n
    case Placeholder(id) => if 0 <= id < |mathBlocks| then Text(mathBlocks[id]) else n
    case Text(_) => n
  }

  function Restore(doc: seq<Node>, mathBlocks: seq<string>): (r: seq<Node>)
    ensures |r| == |doc|
    ensures forall k :: 0 <= k < |doc| ==> r[k] == RestoreNode(doc[k], mathBlocks)
  {
    seq(|doc|, k requires 0 <= k < |doc| => RestoreNode(doc[k], mathBlocks))
  }

  /** What `render` returns, with the parser as a parameter (None when it
      throws); `crossPlaceholders` is true for the code as written. */
  function RenderOutcome(markdownText: string, parse: string -> Option<seq<Node>>, crossPlaceholders: bool): RenderResult {
    var x := Extract(markdownText, crossPlaceholders);
    match parse(Flatten(x.pieces))
    case None => ParseFailed(ParseErrorHtml)
    case Some(doc) => Document(Restore(doc, x.blocks))
  }

  /** The parser as the identity: every piece becomes its own node. */
  function ToNodes(ps: seq<Piece>): (r: seq<Node>)
    ensures |r| == |ps|
  {
    seq(|ps|, k requires 0 <= k < |ps| => match ps[k] case Ch(c) => Text([c]) case Ph(id) => Placeholder(id))
  }

  /** The text content of a document (an empty placeholder span has none). */
  function TextContent(doc: seq<Node>): string {
    if doc == [] then [] else (match doc[0] case Text(t) => t case Placeholder(_) => []) + TextContent(doc[1..])
  }
}
