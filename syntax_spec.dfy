/** What `SyntaxHighlighter` (src/prettipy/syntax.py) computes, as functions:
    the colour lookup over token categories, the HTML payload of a token,
    the per-line highlighting and the routing of a token stream onto the
    lines of the code. Pygments' lexer is a tokenizer function, which is an
    input here, applied to the text after Pygments' own preprocessing,
    which is modelled. */
module SyntaxSpec {
  import opened Wrappers
  import opened PyStr

  /** A Pygments token type, as its path from the root: `Token.Name.Builtin`
      is `["Name", "Builtin"]`, and `Token` itself is `[]`. */
  type Category = seq<string>

  datatype Token = Token(category: Category, text: string)

  /** A Pygments lexer: `tokenize` splits the prepared text into tokens,
      and `stripNewlines` is its `stripnl` option (true for `PythonLexer()`). */
  datatype Lexer = Lexer(tokenize: string -> seq<Token>, stripNewlines: bool)

  /** The text less one leading byte-order mark. */
  function DropBom(s: string): string {
    if s != [] && s[0] == '\U{FEFF}' then s[1..] else s
  }

  /** `s.replace('\r\n', '\n').replace('\r', '\n')`. */
  function NormalizeNewlines(s: string): string {
    if s == [] then []
    else if s[0] == '\r' && |s| >= 2 && s[1] == '\n' then "\n" + NormalizeNewlines(s[2..])
    else (if s[0] == '\r' then "\n" else [s[0]]) + NormalizeNewlines(s[1..])
  }

  /** `s.strip('\n')`. */
  function StripNewlines(s: string): string {
    if s != [] && s[0] == '\n' then StripNewlines(s[1..])
    else if s != [] && s[|s| - 1] == '\n' then StripNewlines(s[..|s| - 1])
    else s
  }

  /** The text a Pygments lexer tokenizes for `text`: no byte-order mark,
      newlines normalised, with `stripnl` the newlines at both ends dropped,
      and one final newline ensured. */
  function Prepared(text: string, stripNewlines: bool): string {
    var t := NormalizeNewlines(DropBom(text));
    var u := if stripNewlines then StripNewlines(t) else t;
    if u != [] && u[|u| - 1] == '\n' then u else u + "\n"
  }

  /** `lex(text, lexer)`. */
  function Lex(lexer: Lexer, text: string): seq<Token> {
    lexer.tokenize(Prepared(text, lexer.stripNewlines))
  }

  /** A colour scheme, in the order of its entries: a category and the
      colour its tokens get. */
  type Scheme = seq<(Category, string)>

  /** `token_type in ttype`: `ttype` is `token_type` or one of its
      ancestors, that is a prefix of its path. */
  predicate IsAncestor(ttype: Category, tokenType: Category) {
    |ttype| <= |tokenType| && tokenType[..|ttype|] == ttype
  }

  /** `DEFAULT_COLORS`, in the order of the dictionary. `Token.String` and
      `Token.Number` are Pygments' aliases of `Token.Literal.String` and
      `Token.Literal.Number`. */
  const DefaultColors: Scheme := [
    (["Keyword"], "#007020"),
    (["Name", "Builtin"], "#007020"),
    (["Name", "Function"], "#06287e"),
    (["Name", "Class"], "#0e7c7b"),
    (["Name", "Decorator"], "#aa22ff"),
    (["Literal", "String"], "#4070a0"),
    (["Literal", "Number"], "#40a070"),
    (["Comment"], "#60a0b0"),
    (["Comment", "Single"], "#60a0b0"),
    (["Comment", "Multiline"], "#60a0b0"),
    (["Operator"], "#666666")
  ]

  /** `color_scheme or DEFAULT_COLORS`: no scheme, or an empty one, means the
      default. */
  function ChosenScheme(colorScheme: Option<Scheme>): (r: Scheme)
    ensures r != []
    ensures colorScheme.Some? && colorScheme.value != [] ==> r == colorScheme.value
    ensures colorScheme.None? || colorScheme.value == [] ==> r == DefaultColors
  {
    match colorScheme
    case Some(s) => if s != [] then s else DefaultColors
    case None => DefaultColors
  }

  /** The result of `_get_token_color`: the colour of the first entry whose
      category is the token's category or an ancestor of it. */
  function ColorOf(scheme: Scheme, tokenType: Category): Option<string> {
    if scheme == [] then None
    else if IsAncestor(scheme[0].0, tokenType) then Some(scheme[0].1)
    else ColorOf(scheme[1..], tokenType)
  }

  /** `html.escape(c)` for one character (with `quote=True`). */
  function EscapeChar(c: char): string {
    if c == '&' then "&amp;"
    else if c == '<' then "&lt;"
    else if c == '>' then "&gt;"
    else if c == '"' then "&quot;"
    else if c == '\'' then "&#x27;"
    else [c]
  }

  /** `html.escape(s)`: each character escaped on its own. */
  function HtmlEscape(s: string): string {
    if s == [] then [] else EscapeChar(s[0]) + HtmlEscape(s[1..])
  }

  /** `s.replace(target, repl)` for a one-character `target`. */
  function ReplaceChar(s: string, target: char, repl: string): string {
    if s == [] then []
    else (if s[0] == target then repl else [s[0]]) + ReplaceChar(s[1..], target, repl)
  }

  const Nbsp: string := "&nbsp;"

  /** The text `_colorize_token` puts in the HTML: escaped, then every space
      made `&nbsp;` and every tab four of them. */
  function Payload(text: string): string {
    ReplaceChar(ReplaceChar(HtmlEscape(text), ' ', Nbsp), '\t', Nbsp + Nbsp + Nbsp + Nbsp)
  }

  /** The result of `_colorize_token`: the payload, inside a `<font>` tag
      when the scheme has a non-empty colour for the token and the token is
      not all whitespace. */
  function Colorize(scheme: Scheme, tokenType: Category, text: string): string {
    var escaped := Payload(text);
    match ColorOf(scheme, tokenType)
    case Some(color) =>
      if color != [] && !IsBlank(text) then "<font color=\"" + color + "\">" + escaped + "</font>"
      else escaped
    case None => escaped
  }

  /** The text of the tokens, one after the other. */
  function TextOf(tokens: seq<Token>): string {
    if tokens == [] then [] else tokens[0].text + TextOf(tokens[1..])
  }

  /** The colourized tokens, one after the other. */
  function RenderTokens(scheme: Scheme, tokens: seq<Token>): string {
    if tokens == [] then []
    else Colorize(scheme, tokens[0].category, tokens[0].text) + RenderTokens(scheme, tokens[1..])
  }

  /** The result of `highlight_line(line)`. */
  function HighlightedLine(scheme: Scheme, lexer: Lexer, line: string): string {
    if IsBlank(line) then "<br/>" else RenderTokens(scheme, Lex(lexer, line))
  }

  function HighlightedLines(scheme: Scheme, lexer: Lexer, lines: seq<string>): (r: seq<string>)
    ensures |r| == |lines|
  {
    if lines == [] then []
    else [HighlightedLine(scheme, lexer, lines[0])] + HighlightedLines(scheme, lexer, lines[1..])
  }

  /** The result of `highlight_code(code, lines)`. */
  function HighlightCodeSpec(scheme: Scheme, lexer: Lexer, code: string,
                             lines: Option<seq<string>>): string {
    var ls := match lines case Some(l) => l case None => Split(code, '\n');
    Join("<br/>", HighlightedLines(scheme, lexer, ls))
  }

  // ---------------------------------------------------------------------
  // Routing tokens onto lines (`highlight_code_multiline_aware`)

  /** The inner loop of `highlight_code_multiline_aware` from part `i` of a
      token on: `pieces[j]` holds the token parts given to line `j` so far,
      and `cursor` is `current_line`. Every part after the first moves the
      cursor one line down; a cursor past the last line ends the token. */
  function PlaceParts(pieces: seq<seq<Token>>, cursor: nat, category: Category,
                      parts: seq<string>, i: nat): (r: (seq<seq<Token>>, nat))
    requires i <= |parts|
    ensures |r.0| == |pieces|
    decreases |parts| - i
  {
    if i == |parts| then (pieces, cursor)
    else
      var c := if i > 0 then cursor + 1 else cursor;
      if c >= |pieces| then (pieces, c)
      else
        var next := if parts[i] != [] then pieces[c := pieces[c] + [Token(category, parts[i])]] else pieces;
        PlaceParts(next, c, category, parts, i + 1)
  }

  /** The outer loop, from token `t` on. */
  function PlaceTokens(pieces: seq<seq<Token>>, cursor: nat, tokens: seq<Token>, t: nat): (r: (seq<seq<Token>>, nat))
    requires t <= |tokens|
    ensures |r.0| == |pieces|
    decreases |tokens| - t
  {
    if t == |tokens| then (pieces, cursor)
    else
      var placed := PlaceParts(pieces, cursor, tokens[t].category, Split(tokens[t].text, '\n'), 0);
      PlaceTokens(placed.0, placed.1, tokens, t + 1)
  }

  function NoPieces(n: nat): (r: seq<seq<Token>>)
    ensures |r| == n && forall j :: 0 <= j < n ==> r[j] == []
  {
    seq(n, _ => [])
  }

  /** The token parts each of `n` lines receives. */
  function Route(tokens: seq<Token>, n: nat): (r: seq<seq<Token>>)
    ensures |r| == n
  {
    PlaceTokens(NoPieces(n), 0, tokens, 0).0
  }

  /** The result of `highlight_code_multiline_aware(code)` when the lexer
      returns `tokens`: one entry per line of `code`, `<br/>` for a line that
      received no HTML. */
  function MultilineHighlight(scheme: Scheme, code: string, tokens: seq<Token>): (r: seq<string>)
  {
    if code == [] then []
    else
      var n := |Split(code, '\n')|;
      var routed := Route(tokens, n);
      seq(n, j requires 0 <= j < n =>
        var h := RenderTokens(scheme, routed[j]);
        if h != [] then h else "<br/>")
  }
}
