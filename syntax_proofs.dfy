/** Properties of the highlighter's functions: the colour lookup takes the
    first matching entry, the payload of a token is a per-character
    translation with no raw space, tab or markup character in it, and the
    text shown by the HTML (tags dropped, entities decoded) is the token
    text with tabs expanded. */
module SyntaxProofs {
  import opened Wrappers
  import opened PyStr
  import opened SyntaxSpec

  // ---------------------------------------------------------------------
  // Colour lookup

  /** The first entry that is an ancestor of the category gives its colour. */
  lemma {:induction false} ColorOfFirst(scheme: Scheme, tokenType: Category, i: nat)
    requires i < |scheme| && IsAncestor(scheme[i].0, tokenType)
    requires forall j :: 0 <= j < i ==> !IsAncestor(scheme[j].0, tokenType)
    ensures ColorOf(scheme, tokenType) == Some(scheme[i].1)
  {
    if i > 0 {
      assert !IsAncestor(scheme[0].0, tokenType);
      ColorOfFirst(scheme[1..], tokenType, i - 1);
    }
  }

  /** There is no colour exactly when no entry is an ancestor of the
      category. */
  lemma {:induction false} ColorOfNone(scheme: Scheme, tokenType: Category)
    ensures ColorOf(scheme, tokenType) == None
            <==> forall i :: 0 <= i < |scheme| ==> !IsAncestor(scheme[i].0, tokenType)
  {
    if scheme != [] {
      ColorOfNone(scheme[1..], tokenType);
      assert forall i :: 0 <= i < |scheme| - 1 ==> scheme[1..][i] == scheme[i + 1];
    }
  }

  /** A colour that is found is the colour of some entry. */
  lemma {:induction false} ColorOfEntry(scheme: Scheme, tokenType: Category)
    requires ColorOf(scheme, tokenType).Some?
    ensures exists i :: 0 <= i < |scheme| && IsAncestor(scheme[i].0, tokenType)
                        && scheme[i].1 == ColorOf(scheme, tokenType).value
  {
    if !IsAncestor(scheme[0].0, tokenType) {
      ColorOfEntry(scheme[1..], tokenType);
      var i :| 0 <= i < |scheme[1..]| && IsAncestor(scheme[1..][i].0, tokenType)
               && scheme[1..][i].1 == ColorOf(scheme, tokenType).value;
      assert scheme[i + 1] == scheme[1..][i];
    }
  }

  /** Order decides, not specificity: `Token.Comment` listed before
      `Token.Comment.Single` colours single-line comments. */
  lemma FirstEntryWins()
    ensures ColorOf([(["Comment"], "#111111"), (["Comment", "Single"], "#222222")], ["Comment", "Single"])
            == Some("#111111")
  {
    var cat: Category := ["Comment", "Single"];
    assert cat[..1] == ["Comment"];
  }

  /** In the default scheme a sub-category takes the colour of its
      ancestor: `Token.Name.Builtin.Pseudo` that of `Token.Name.Builtin`. */
  lemma DefaultInherits()
    ensures ColorOf(DefaultColors, ["Name", "Builtin", "Pseudo"]) == Some("#007020")
  {
    var pseudo: Category := ["Name", "Builtin", "Pseudo"];
    assert pseudo[..2] == ["Name", "Builtin"];
    assert pseudo[..1][0] == "Name" && "Name"[0] != "Keyword"[0];
    ColorOfFirst(DefaultColors, pseudo, 1);
  }

  // ---------------------------------------------------------------------
  // The payload as one translation per character

  const Tab4: string := Nbsp + Nbsp + Nbsp + Nbsp

  /** What one character of a token becomes in the HTML. */
  function PayloadChar(c: char): string {
    if c == ' ' then Nbsp
    else if c == '\t' then Tab4
    else EscapeChar(c)
  }

  function Translate(s: string): string {
    if s == [] then [] else PayloadChar(s[0]) + Translate(s[1..])
  }

  lemma {:induction false} ReplaceAppend(a: string, b: string, target: char, repl: string)
    ensures ReplaceChar(a + b, target, repl) == ReplaceChar(a, target, repl) + ReplaceChar(b, target, repl)
  {
    if a == [] {
      assert a + b == b;
    } else {
      assert (a + b)[1..] == a[1..] + b;
      ReplaceAppend(a[1..], b, target, repl);
    }
  }

  /** A string without `target` is left alone by `replace`. */
  lemma {:induction false} ReplaceAbsent(s: string, target: char, repl: string)
    requires target !in s
    ensures ReplaceChar(s, target, repl) == s
  {
    if s != [] {
      ReplaceAbsent(s[1..], target, repl);
    }
  }

  lemma ReplaceOne(c: char, target: char, repl: string)
    ensures ReplaceChar([c], target, repl) == if c == target then repl else [c]
  {
    assert [c][1..] == [];
  }

  lemma PayloadOfChar(c: char)
    ensures ReplaceChar(ReplaceChar(EscapeChar(c), ' ', Nbsp), '\t', Tab4) == PayloadChar(c)
  {
    var e := EscapeChar(c);
    if c == ' ' || c == '\t' {
      assert e == [c];
      ReplaceOne(c, ' ', Nbsp);
      if c == ' ' {
        ReplaceAbsent(Nbsp, '\t', Tab4);
      } else {
        ReplaceOne(c, '\t', Tab4);
      }
    } else {
      assert ' ' !in e && '\t' !in e;
      ReplaceAbsent(e, ' ', Nbsp);
      ReplaceAbsent(e, '\t', Tab4);
    }
  }

  /** The two `replace` calls after `html.escape` act character by
      character: the payload is the translation of each character in turn. */
  lemma {:induction false} PayloadTranslates(s: string)
    ensures Payload(s) == Translate(s)
  {
    if s != [] {
      PayloadTranslates(s[1..]);
      var e, rest := EscapeChar(s[0]), HtmlEscape(s[1..]);
      ReplaceAppend(e, rest, ' ', Nbsp);
      ReplaceAppend(ReplaceChar(e, ' ', Nbsp), ReplaceChar(rest, ' ', Nbsp), '\t', Tab4);
      PayloadOfChar(s[0]);
    }
  }

  /** Whether a character would be read as whitespace or markup if it
      appeared raw in the HTML. */
  predicate Raw(c: char) {
    c == ' ' || c == '\t' || c == '<' || c == '>' || c == '"' || c == '\''
  }

  /** The payload holds no raw space, tab, angle bracket or quote: spacing
      survives HTML rendering and no token can open a tag. */
  lemma {:induction false} PayloadHasNoRaw(s: string)
    ensures forall k :: 0 <= k < |Payload(s)| ==> !Raw(Payload(s)[k])
  {
    PayloadTranslates(s);
    TranslateHasNoRaw(s);
  }

  lemma {:induction false} TranslateHasNoRaw(s: string)
    ensures forall k :: 0 <= k < |Translate(s)| ==> !Raw(Translate(s)[k])
  {
    if s != [] {
      TranslateHasNoRaw(s[1..]);
      PayloadCharHasNoRaw(s[0]);
      NoRawAppend(PayloadChar(s[0]), Translate(s[1..]));
    }
  }

  lemma PayloadCharHasNoRaw(c: char)
    ensures forall k :: 0 <= k < |PayloadChar(c)| ==> !Raw(PayloadChar(c)[k])
  {
    if c == '\t' {
      NbspHasNoRaw();
      NoRawAppend(Nbsp, Nbsp);
      NoRawAppend(Nbsp + Nbsp, Nbsp);
      NoRawAppend(Nbsp + Nbsp + Nbsp, Nbsp);
    } else if c == ' ' {
      NbspHasNoRaw();
    }
  }

  lemma NbspHasNoRaw()
    ensures forall k :: 0 <= k < |Nbsp| ==> !Raw(Nbsp[k])
  {
  }

  lemma NoRawAppend(a: string, b: string)
    requires forall k :: 0 <= k < |a| ==> !Raw(a[k])
    requires forall k :: 0 <= k < |b| ==> !Raw(b[k])
    ensures forall k :: 0 <= k < |a + b| ==> !Raw((a + b)[k])
  {
    forall k | 0 <= k < |a + b|
      ensures !Raw((a + b)[k])
    {
      if k >= |a| {
        assert (a + b)[k] == b[k - |a|];
      }
    }
  }

  // ---------------------------------------------------------------------
  // The text an HTML fragment shows

  /** `s` with each tab shown as four spaces, as the `&nbsp;` runs render. */
  function ExpandTabs(s: string): string {
    if s == [] then [] else (if s[0] == '\t' then "    " else [s[0]]) + ExpandTabs(s[1..])
  }

  predicate StartsWith(h: string, p: string) {
    |p| <= |h| && h[..|p|] == p
  }

  /** The entity whose second character is `k`, and the character it
      stands for. */
  function EntityFor(k: char): (r: (char, string))
    ensures |r.1| >= 1
  {
    if k == 'a' then ('&', "&amp;")
    else if k == 'l' then ('<', "&lt;")
    else if k == 'g' then ('>', "&gt;")
    else if k == 'q' then ('"', "&quot;")
    else if k == '#' then ('\'', "&#x27;")
    else if k == 'n' then (' ', Nbsp)
    else ('&', "&")
  }

  /** The character an entity at the start of `h` stands for, and its
      length; a `&` that starts no known entity stands for itself. */
  function Entity(h: string): (r: (char, nat))
    requires h != []
    ensures 1 <= r.1 <= |h|
  {
    if |h| >= 2 && StartsWith(h, EntityFor(h[1]).1) then (EntityFor(h[1]).0, |EntityFor(h[1]).1|)
    else (h[0], 1)
  }

  /** What follows the first `>` of `h` (nothing if there is none). */
  function SkipTag(h: string): (r: string)
    ensures |r| <= |h| && r == h[|h| - |r|..]
  {
    if h == [] then [] else if h[0] == '>' then h[1..] else SkipTag(h[1..])
  }

  /** The text the front of `h` shows and the number of characters it
      takes: a tag shows nothing, an entity its character, any other
      character itself. */
  function Step(h: string): (r: (string, nat))
    requires h != []
    ensures 1 <= r.1 <= |h|
  {
    if h[0] == '<' then ([], |h| - |SkipTag(h[1..])|)
    else if h[0] == '&' then ([Entity(h).0], Entity(h).1)
    else ([h[0]], 1)
  }

  /** The text an HTML fragment shows: tags dropped, entities decoded. */
  function Text(h: string): string
    decreases |h|
  {
    if h == [] then [] else Step(h).0 + Text(h[Step(h).1..])
  }

  lemma TextStep(h: string, shown: string, n: nat)
    requires h != [] && Step(h) == (shown, n)
    ensures Text(h) == shown + Text(h[n..])
  {
  }

  lemma {:induction false} ExpandTabsAppend(a: string, b: string)
    ensures ExpandTabs(a + b) == ExpandTabs(a) + ExpandTabs(b)
  {
    if a == [] {
      assert a + b == b;
    } else {
      assert (a + b)[1..] == a[1..] + b;
      ExpandTabsAppend(a[1..], b);
    }
  }

  /** Characters before the first `>` are skipped with the tag. */
  lemma {:induction false} SkipTagOver(a: string, rest: string)
    requires '>' !in a
    ensures SkipTag(a + rest) == SkipTag(rest)
  {
    if a == [] {
      assert a + rest == rest;
    } else {
      assert (a + rest)[1..] == a[1..] + rest;
      SkipTagOver(a[1..], rest);
    }
  }

  lemma SkipTagEnd(rest: string)
    ensures SkipTag(">" + rest) == rest
  {
    assert (">" + rest)[1..] == rest;
  }

  /** A tag shows nothing. */
  lemma TextTag(h: string, after: string)
    requires h != [] && h[0] == '<' && SkipTag(h[1..]) == after
    ensures Text(h) == Text(after)
  {
    assert after == h[|h| - |after|..];
    TextStep(h, [], |h| - |after|);
  }

  lemma TextOpenTag(color: string, after: string)
    requires '>' !in color
    ensures Text("<font color=\"" + (color + ("\">" + after))) == Text(after)
  {
    var h := "<font color=\"" + (color + ("\">" + after));
    OpenTagShape(color, after);
    SkipTagOver("font color=\"", color + ("\">" + after));
    SkipTagOver(color, "\">" + after);
    QuoteEnd(after);
    SkipTagOver("\"", ">" + after);
    SkipTagEnd(after);
    TextTag(h, after);
  }

  lemma OpenTagShape(color: string, after: string)
    ensures var h := "<font color=\"" + (color + ("\">" + after));
            h != [] && h[0] == '<' && h[1..] == "font color=\"" + (color + ("\">" + after))
  {
  }

  lemma QuoteEnd(after: string)
    ensures "\">" + after == "\"" + (">" + after)
  {
  }

  lemma TextCloseTag(after: string)
    ensures Text("</font>" + after) == Text(after)
  {
    var h := "</font>" + after;
    CloseTagShape(after);
    SkipTagOver("/font", ">" + after);
    SkipTagEnd(after);
    TextTag(h, after);
  }

  lemma CloseTagShape(after: string)
    ensures var h := "</font>" + after;
            h != [] && h[0] == '<' && h[1..] == "/font" + (">" + after)
  {
  }

  lemma TextBreak(after: string)
    ensures Text("<br/>" + after) == Text(after)
  {
    var h := "<br/>" + after;
    BreakShape(after);
    SkipTagOver("br/", ">" + after);
    SkipTagEnd(after);
    TextTag(h, after);
  }

  lemma BreakShape(after: string)
    ensures var h := "<br/>" + after;
            h != [] && h[0] == '<' && h[1..] == "br/" + (">" + after)
  {
  }

  lemma Regroup6(a: string, b: string, c: string, d: string, e: string, f: string)
    ensures a + b + c + d + e + f == a + (b + (c + (d + (e + f))))
  {
  }

  lemma Regroup3(a: string, b: string, c: string)
    ensures a + (b + c) == a + b + c
  {
  }

  lemma Regroup5(a: string, b: string, c: string, d: string, e: string)
    ensures a + b + c + d + e == a + (b + (c + (d + e)))
  {
  }

  /** An entity shows the character it stands for. */
  lemma TextEntity(e: string, c: char, rest: string)
    requires |e| >= 2 && e[0] == '&' && EntityFor(e[1]) == (c, e)
    ensures Text(e + rest) == [c] + Text(rest)
  {
    var h := e + rest;
    assert h[1] == e[1] && h[..|e|] == e;
    assert h[|e|..] == rest;
    TextStep(h, [c], |e|);
  }

  lemma TextOfPayloadChar(c: char, rest: string)
    ensures Text(PayloadChar(c) + rest) == ExpandTabs([c]) + Text(rest)
  {
    assert [c][1..] == [];
    if c == '\t' {
      assert ExpandTabs([c]) == "    ";
      TextOfTab(rest);
    } else {
      assert ExpandTabs([c]) == [c];
      if c == ' ' {
        TextNbsp(rest);
      } else if c == '&' {
        TextEntity("&amp;", '&', rest);
      } else if c == '<' {
        TextEntity("&lt;", '<', rest);
      } else if c == '>' {
        TextEntity("&gt;", '>', rest);
      } else if c == '"' {
        TextEntity("&quot;", '"', rest);
      } else if c == '\'' {
        TextEntity("&#x27;", '\'', rest);
      } else {
        TextPlainChar(c, rest);
      }
    }
  }

  lemma TextPlainChar(c: char, rest: string)
    requires c != '<' && c != '&'
    ensures Text([c] + rest) == [c] + Text(rest)
  {
    assert ([c] + rest)[1..] == rest;
    TextStep([c] + rest, [c], 1);
  }

  lemma TextOfTab(rest: string)
    ensures Text(Tab4 + rest) == "    " + Text(rest)
  {
    TabRegroup(rest);
    TextFourNbsp(rest);
    FourSpaces(Text(rest));
  }

  lemma TabRegroup(rest: string)
    ensures Tab4 + rest == Nbsp + (Nbsp + (Nbsp + (Nbsp + rest)))
  {
    Regroup5(Nbsp, Nbsp, Nbsp, Nbsp, rest);
  }

  lemma FourSpaces(t: string)
    ensures " " + (" " + (" " + (" " + t))) == "    " + t
  {
  }

  lemma TextFourNbsp(rest: string)
    ensures Text(Nbsp + (Nbsp + (Nbsp + (Nbsp + rest)))) == " " + (" " + (" " + (" " + Text(rest))))
  {
    var r3 := Nbsp + rest;
    var r2 := Nbsp + r3;
    var r1 := Nbsp + r2;
    TextNbsp(r1);
    TextNbsp(r2);
    TextNbsp(r3);
    TextNbsp(rest);
  }

  lemma TextNbsp(rest: string)
    ensures Text(Nbsp + rest) == " " + Text(rest)
  {
    TextEntity(Nbsp, ' ', rest);
  }

  /** The payload of a token shows the token's text, tabs expanded. */
  lemma {:induction false} TextOfTranslate(s: string, rest: string)
    ensures Text(Translate(s) + rest) == ExpandTabs(s) + Text(rest)
  {
    if s == [] {
      assert Translate(s) + rest == rest;
    } else {
      var p, t := PayloadChar(s[0]), Translate(s[1..]);
      Regroup3(p, t, rest);
      TextOfPayloadChar(s[0], t + rest);
      TextOfTranslate(s[1..], rest);
      Regroup3(ExpandTabs([s[0]]), ExpandTabs(s[1..]), Text(rest));
      ExpandTabsCons(s);
    }
  }

  lemma ExpandTabsCons(s: string)
    requires s != []
    ensures ExpandTabs(s) == ExpandTabs([s[0]]) + ExpandTabs(s[1..])
  {
    assert [s[0]][1..] == [];
  }

  /** A scheme whose colours hold no `>`, so a `<font>` tag ends where it
      should. */
  predicate TagSafe(scheme: Scheme) {
    forall i :: 0 <= i < |scheme| ==> '>' !in scheme[i].1
  }

  lemma DefaultColorsTagSafe()
    ensures TagSafe(DefaultColors)
  {
  }

  lemma ColorTagSafe(scheme: Scheme, tokenType: Category)
    requires TagSafe(scheme) && ColorOf(scheme, tokenType).Some?
    ensures '>' !in ColorOf(scheme, tokenType).value
  {
    ColorOfEntry(scheme, tokenType);
  }

  /** A colourized token shows the token's text, tabs expanded: the
      `<font>` tag adds no text. */
  lemma TextOfColorize(scheme: Scheme, tokenType: Category, text: string, rest: string)
    requires TagSafe(scheme)
    ensures Text(Colorize(scheme, tokenType, text) + rest) == ExpandTabs(text) + Text(rest)
  {
    PayloadTranslates(text);
    var p := Payload(text);
    match ColorOf(scheme, tokenType)
    case Some(color) =>
      if color != [] && !IsBlank(text) {
        ColorTagSafe(scheme, tokenType);
        TextOfFont(color, text, rest);
      } else {
        TextOfTranslate(text, rest);
      }
    case None =>
      TextOfTranslate(text, rest);
  }

  lemma TextOfFont(color: string, text: string, rest: string)
    requires '>' !in color
    ensures Text("<font color=\"" + color + "\">" + Payload(text) + "</font>" + rest)
            == ExpandTabs(text) + Text(rest)
  {
    var p := Payload(text);
    Regroup6("<font color=\"", color, "\">", p, "</font>", rest);
    TextOpenTag(color, p + ("</font>" + rest));
    PayloadTranslates(text);
    TextOfTranslate(text, "</font>" + rest);
    TextCloseTag(rest);
  }

  /** The colourized tokens show the tokens' text. */
  lemma {:induction false} TextOfRender(scheme: Scheme, tokens: seq<Token>, rest: string)
    requires TagSafe(scheme)
    ensures Text(RenderTokens(scheme, tokens) + rest) == ExpandTabs(TextOf(tokens)) + Text(rest)
  {
    if tokens == [] {
      assert RenderTokens(scheme, tokens) + rest == rest;
    } else {
      var c := Colorize(scheme, tokens[0].category, tokens[0].text);
      var r := RenderTokens(scheme, tokens[1..]);
      Regroup3(c, r, rest);
      TextOfColorize(scheme, tokens[0].category, tokens[0].text, r + rest);
      TextOfRender(scheme, tokens[1..], rest);
      ExpandTabsAppend(tokens[0].text, TextOf(tokens[1..]));
      Regroup3(ExpandTabs(tokens[0].text), ExpandTabs(TextOf(tokens[1..])), Text(rest));
    }
  }

  /** What `highlight_line` shows for a line: nothing for a blank line (it
      becomes a line break), otherwise the text of the lexer's tokens. */
  function Shown(lexer: Lexer, line: string): string {
    if IsBlank(line) then [] else ExpandTabs(TextOf(Lex(lexer, line)))
  }

  lemma TextOfHighlightedLine(scheme: Scheme, lexer: Lexer, line: string, rest: string)
    requires TagSafe(scheme)
    ensures Text(HighlightedLine(scheme, lexer, line) + rest) == Shown(lexer, line) + Text(rest)
  {
    if IsBlank(line) {
      TextBreak(rest);
    } else {
      TextOfRender(scheme, Lex(lexer, line), rest);
    }
  }

  function ShownLines(lexer: Lexer, lines: seq<string>): string {
    if lines == [] then [] else Shown(lexer, lines[0]) + ShownLines(lexer, lines[1..])
  }

  lemma {:induction false} TextOfJoin(scheme: Scheme, lexer: Lexer, lines: seq<string>)
    requires TagSafe(scheme)
    ensures Text(Join("<br/>", HighlightedLines(scheme, lexer, lines))) == ShownLines(lexer, lines)
  {
    var hs := HighlightedLines(scheme, lexer, lines);
    if |lines| == 1 {
      assert hs[0] + [] == hs[0];
      TextOfHighlightedLine(scheme, lexer, lines[0], []);
      assert lines[1..] == [];
    } else if |lines| > 1 {
      var j := Join("<br/>", hs[1..]);
      assert hs[1..] == HighlightedLines(scheme, lexer, lines[1..]);
      assert hs[0] + "<br/>" + j == hs[0] + ("<br/>" + j);
      TextOfHighlightedLine(scheme, lexer, lines[0], "<br/>" + j);
      TextBreak(j);
      TextOfJoin(scheme, lexer, lines[1..]);
    }
  }

  /** `highlight_code` shows the text of every line that is not blank, in
      order; the `<br/>` between lines and in place of blank lines shows
      nothing. */
  lemma TextOfHighlightCode(scheme: Scheme, lexer: Lexer, code: string, lines: Option<seq<string>>)
    requires TagSafe(scheme)
    ensures Text(HighlightCodeSpec(scheme, lexer, code, lines))
            == ShownLines(lexer, match lines case Some(l) => l case None => Split(code, '\n'))
  {
    var ls := match lines case Some(l) => l case None => Split(code, '\n');
    TextOfJoin(scheme, lexer, ls);
  }

  // ---------------------------------------------------------------------
  // Pygments' preprocessing

  /** The contract of a Pygments lexer on the text it was given: the
      token values, in order, are that text. */
  predicate Spells(lexer: Lexer, s: string) {
    TextOf(lexer.tokenize(s)) == s
  }

  lemma {:induction false} NormalizeNoReturn(s: string)
    requires '\r' !in s
    ensures NormalizeNewlines(s) == s
  {
    if s != [] {
      NormalizeNoReturn(s[1..]);
      assert [s[0]] + s[1..] == s;
    }
  }

  /** Code that does not start with a newline, a carriage return or a
      byte-order mark, and holds no carriage return, is tokenized as it is,
      one final newline added if it has none; without `stripnl` a leading
      newline is kept too. */
  lemma PreparedPlain(text: string, stripNewlines: bool)
    requires '\r' !in text && (text != [] ==> text[0] != '\U{FEFF}')
    requires !stripNewlines || '\n' !in text
    ensures Prepared(text, stripNewlines) == if text != [] && text[|text| - 1] == '\n' then text else text + "\n"
  {
    NormalizeNoReturn(text);
  }

  /** What `highlight_line` shows for a line from `code.split('\n')` when
      the lexer spells out what it is given: nothing for a blank line, else
      the line, tabs expanded, and the newline Pygments adds at its end. */
  lemma ShownLine(lexer: Lexer, line: string)
    requires '\n' !in line && '\r' !in line && (line != [] ==> line[0] != '\U{FEFF}')
    requires Spells(lexer, line + "\n")
    ensures Shown(lexer, line) == if IsBlank(line) then [] else ExpandTabs(line) + "\n"
  {
    PreparedPlain(line, lexer.stripNewlines);
    if line != [] {
      assert line[|line| - 1] in line;
    }
    ExpandTabsAppend(line, "\n");
    assert "\n"[1..] == [];
  }
}
