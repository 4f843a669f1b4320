/** `SyntaxHighlighter` (src/prettipy/syntax.py), with the loops of the
    source. Each method is proved to compute the function of `SyntaxSpec`
    that describes it, and carries the properties proved in `SyntaxProofs`
    and `RoutingProofs`. */
module Syntax {
  import opened Wrappers
  import opened PyStr
  import opened SyntaxSpec
  import opened SyntaxProofs
  import opened RoutingProofs

  class SyntaxHighlighter {
    /** The lexer: a tokenizer and the `stripnl` option it is built with. */
    const lexer: Lexer
    /** The colour scheme, in the order of its entries. */
    const colorScheme: Scheme

    /** `PythonLexer()` has `stripnl` on; `stripNewlines` says which lexer
        is built, the source's one by default. */
    constructor(tokenize: string -> seq<Token>, colorScheme: Option<Scheme> := None, stripNewlines: bool := true)
      ensures lexer.tokenize == tokenize && lexer.stripNewlines == stripNewlines
      ensures this.colorScheme == ChosenScheme(colorScheme)
    {
      lexer := Lexer(tokenize, stripNewlines);
      this.colorScheme := ChosenScheme(colorScheme);
    }

    /** `_get_token_color`: the colour of the first entry whose category is
        the token's category or an ancestor of it, or none when no entry
        is. */
    method GetTokenColor(tokenType: Category) returns (color: Option<string>)
      ensures color == ColorOf(colorScheme, tokenType)
      ensures color.None? <==> forall i :: 0 <= i < |colorScheme| ==> !IsAncestor(colorScheme[i].0, tokenType)
      ensures color.Some? ==>
                exists i :: 0 <= i < |colorScheme| && IsAncestor(colorScheme[i].0, tokenType)
                            && colorScheme[i].1 == color.value
                            && forall k :: 0 <= k < i ==> !IsAncestor(colorScheme[k].0, tokenType)
    {
      var i := 0;
      while i < |colorScheme|
        invariant 0 <= i <= |colorScheme|
        invariant forall k :: 0 <= k < i ==> !IsAncestor(colorScheme[k].0, tokenType)
      {
        if IsAncestor(colorScheme[i].0, tokenType) {
          ColorOfFirst(colorScheme, tokenType, i);
          return Some(colorScheme[i].1);
        }
        i := i + 1;
      }
      ColorOfNone(colorScheme, tokenType);
      return None;
    }

    /** `_colorize_token`: the token's text made safe for HTML, inside a
        `<font>` tag when it has a colour and is not all whitespace. The
        HTML shows the text with tabs expanded, and a whitespace token comes
        out with no raw space, tab or markup character. */
    method ColorizeToken(tokenType: Category, tokenValue: string) returns (html: string)
      ensures html == Colorize(colorScheme, tokenType, tokenValue)
      ensures TagSafe(colorScheme) ==> Text(html) == ExpandTabs(tokenValue)
      ensures IsBlank(tokenValue) ==> forall k :: 0 <= k < |html| ==> !Raw(html[k])
    {
      var escaped := HtmlEscape(tokenValue);
      escaped := ReplaceChar(escaped, ' ', Nbsp);
      escaped := ReplaceChar(escaped, '\t', Nbsp + Nbsp + Nbsp + Nbsp);
      var color := GetTokenColor(tokenType);
      if color.Some? && color.value != [] && !IsBlank(tokenValue) {
        html := "<font color=\"" + color.value + "\">" + escaped + "</font>";
      } else {
        html := escaped;
        PayloadHasNoRaw(tokenValue);
      }
      if TagSafe(colorScheme) {
        TextOfColorize(colorScheme, tokenType, tokenValue, []);
        assert html + [] == html;
      }
    }

    /** `highlight_line`: `<br/>` for a blank line, otherwise the lexer's
        tokens colourized one after the other. For a line of code (no
        newline, no carriage return, no byte-order mark) the HTML shows the
        line, tabs expanded, and the newline the lexer adds. */
    method HighlightLine(line: string) returns (html: string)
      ensures html == HighlightedLine(colorScheme, lexer, line)
      ensures IsBlank(line) ==> html == "<br/>"
      ensures TagSafe(colorScheme) && '\n' !in line && '\r' !in line && (line != [] ==> line[0] != '\U{FEFF}')
              && Spells(lexer, line + "\n")
              ==> Text(html) == if IsBlank(line) then [] else ExpandTabs(line) + "\n"
    {
      if IsBlank(line) {
        html := "<br/>";
      } else {
        var tokens := Lex(lexer, line);
        var coloredParts: seq<string> := [];
        var i := 0;
        while i < |tokens|
          invariant 0 <= i <= |tokens|
          invariant Concat(coloredParts) == RenderTokens(colorScheme, tokens[..i])
        {
          var part := ColorizeToken(tokens[i].category, tokens[i].text);
          RenderPrefix(colorScheme, tokens, i);
          ConcatSnoc(coloredParts, part);
          coloredParts := coloredParts + [part];
          i := i + 1;
        }
        RenderAll(colorScheme, tokens);
        html := Concat(coloredParts);
      }
      if TagSafe(colorScheme) && '\n' !in line && '\r' !in line && (line != [] ==> line[0] != '\U{FEFF}')
         && Spells(lexer, line + "\n") {
        TextOfHighlightedLine(colorScheme, lexer, line, []);
        assert html + [] == html;
        ShownLine(lexer, line);
      }
    }

    /** `highlight_code`: the highlighted lines (those given, or the lines
        of the code) joined by `<br/>`. The HTML shows what each line
        shows, in order. */
    method HighlightCode(code: string, lines: Option<seq<string>> := None) returns (html: string)
      ensures html == HighlightCodeSpec(colorScheme, lexer, code, lines)
      ensures TagSafe(colorScheme) ==>
                Text(html) == ShownLines(lexer, match lines case Some(l) => l case None => Split(code, '\n'))
    {
      var ls := match lines case Some(l) => l case None => Split(code, '\n');
      var highlightedLines: seq<string> := [];
      var i := 0;
      while i < |ls|
        invariant 0 <= i <= |ls|
        invariant highlightedLines == HighlightedLines(colorScheme, lexer, ls[..i])
      {
        var h := HighlightLine(ls[i]);
        HighlightedPrefix(colorScheme, lexer, ls, i);
        highlightedLines := highlightedLines + [h];
        i := i + 1;
      }
      HighlightedAll(colorScheme, lexer, ls);
      html := Join("<br/>", highlightedLines);
      if TagSafe(colorScheme) {
        TextOfHighlightCode(colorScheme, lexer, code, lines);
      }
    }

    /** `highlight_code_multiline_aware`: the whole code is tokenized once
        and every token part is appended, colourized, to the entry of the
        line the cursor is on; a line that receives nothing becomes
        `<br/>`. There is one non-empty entry per line of the code, and
        entry `j` shows line `j` of the text the lexer tokenized, tabs
        expanded; with `stripnl` off, that is line `j` of the code. */
    method HighlightCodeMultilineAware(code: string) returns (result: seq<string>)
      ensures result == MultilineHighlight(colorScheme, code, Lex(lexer, code))
      ensures code == [] ==> result == []
      ensures code != [] ==> |result| == Count(code, '\n') + 1
      ensures forall j :: 0 <= j < |result| ==> result[j] != []
      ensures TagSafe(colorScheme) ==>
                forall j :: 0 <= j < |result| ==>
                  Text(result[j]) == ExpandTabs(LineOf(Split(TextOf(Lex(lexer, code)), '\n'), j))
      ensures TagSafe(colorScheme) && !lexer.stripNewlines && '\r' !in code && (code != [] ==> code[0] != '\U{FEFF}')
              && Spells(lexer, Prepared(code, false))
              ==> forall j :: 0 <= j < |result| ==> Text(result[j]) == ExpandTabs(Split(code, '\n')[j])
    {
      if code == [] {
        return [];
      }
      var tokens := Lex(lexer, code);
      var lines := Split(code, '\n');
      var highlightedLines := ColorizeLines(tokens, |lines|);
      result := seq(|lines|, j requires 0 <= j < |lines| =>
                               if highlightedLines[j] != [] then highlightedLines[j] else "<br/>");
      if TagSafe(colorScheme) {
        MultilineShowsTokens(colorScheme, code, tokens);
        if !lexer.stripNewlines && '\r' !in code && code[0] != '\U{FEFF}' && Spells(lexer, Prepared(code, false)) {
          MultilineShowsLines(colorScheme, lexer, code);
        }
      }
    }

    /** The loops of `highlight_code_multiline_aware` over the tokens, for
        `n` lines: entry `j` gets the colourized token parts routed to line
        `j`, one after the other. */
    method ColorizeLines(tokens: seq<Token>, n: nat) returns (highlightedLines: seq<string>)
      ensures |highlightedLines| == n
      ensures forall j :: 0 <= j < n ==> highlightedLines[j] == RenderTokens(colorScheme, Route(tokens, n)[j])
    {
      var lines := new string[n](_ => []);
      ghost var pieces := NoPieces(n);
      var currentLine: nat := 0;
      var t := 0;
      while t < |tokens|
        invariant 0 <= t <= |tokens| && |pieces| == n
        invariant forall j :: 0 <= j < n ==> lines[j] == RenderTokens(colorScheme, pieces[j])
        invariant PlaceTokens(pieces, currentLine, tokens, t) == PlaceTokens(NoPieces(n), 0, tokens, 0)
      {
        currentLine, pieces := PlaceToken(lines, pieces, currentLine, tokens[t]);
        t := t + 1;
      }
      highlightedLines := lines[..];
    }

    /** One round of the outer loop of `highlight_code_multiline_aware`: the
        parts of `token` between its newlines go, colourized, to the entry
        of the line the cursor is on, the cursor moving one line down at
        every newline and the token abandoned once it passes the last line.
        `pieces` holds the token parts each entry has received. */
    method PlaceToken(highlightedLines: array<string>, ghost pieces: seq<seq<Token>>, currentLine: nat, token: Token)
      returns (cursor: nat, ghost placed: seq<seq<Token>>)
      requires highlightedLines.Length == |pieces|
      requires forall j :: 0 <= j < |pieces| ==> highlightedLines[j] == RenderTokens(colorScheme, pieces[j])
      modifies highlightedLines
      ensures (placed, cursor) == PlaceParts(pieces, currentLine, token.category, Split(token.text, '\n'), 0)
      ensures forall j :: 0 <= j < |placed| ==> highlightedLines[j] == RenderTokens(colorScheme, placed[j])
    {
      var n := highlightedLines.Length;
      var category := token.category;
      var tokenLines := Split(token.text, '\n');
      cursor, placed := currentLine, pieces;
      var i := 0;
      while i < |tokenLines|
        invariant 0 <= i <= |tokenLines| && |placed| == n
        invariant i > 0 ==> cursor < n
        invariant forall j :: 0 <= j < n ==> highlightedLines[j] == RenderTokens(colorScheme, placed[j])
        invariant PlaceParts(placed, cursor, category, tokenLines, i) == PlaceParts(pieces, currentLine, category, tokenLines, 0)
      {
        PlacePartsStep(placed, cursor, category, tokenLines, i);
        if i > 0 {
          cursor := cursor + 1;
        }
        if cursor >= n {
          break;
        }
        if tokenLines[i] != [] {
          var part := ColorizeToken(category, tokenLines[i]);
          RenderSnoc(colorScheme, placed[cursor], Token(category, tokenLines[i]));
          highlightedLines[cursor] := highlightedLines[cursor] + part;
          placed := placed[cursor := placed[cursor] + [Token(category, tokenLines[i])]];
        }
        i := i + 1;
      }
    }
  }

  /** One round of the inner loop of `highlight_code_multiline_aware`. */
  lemma PlacePartsStep(pieces: seq<seq<Token>>, cursor: nat, category: Category, parts: seq<string>, i: nat)
    requires i < |parts|
    ensures var c := if i > 0 then cursor + 1 else cursor;
            && (c >= |pieces| ==> PlaceParts(pieces, cursor, category, parts, i) == (pieces, c))
            && (c < |pieces| && parts[i] != [] ==>
                  PlaceParts(pieces, cursor, category, parts, i)
                  == PlaceParts(pieces[c := pieces[c] + [Token(category, parts[i])]], c, category, parts, i + 1))
            && (c < |pieces| && parts[i] == [] ==>
                  PlaceParts(pieces, cursor, category, parts, i) == PlaceParts(pieces, c, category, parts, i + 1))
  {
  }

  lemma RenderPrefix(scheme: Scheme, tokens: seq<Token>, i: nat)
    requires i < |tokens|
    ensures RenderTokens(scheme, tokens[..i + 1])
            == RenderTokens(scheme, tokens[..i]) + Colorize(scheme, tokens[i].category, tokens[i].text)
  {
    assert tokens[..i + 1] == tokens[..i] + [tokens[i]];
    RenderSnoc(scheme, tokens[..i], tokens[i]);
  }

  lemma RenderAll(scheme: Scheme, tokens: seq<Token>)
    ensures RenderTokens(scheme, tokens[..|tokens|]) == RenderTokens(scheme, tokens)
  {
    assert tokens[..|tokens|] == tokens;
  }

  lemma ConcatSnoc(parts: seq<string>, part: string)
    ensures Concat(parts + [part]) == Concat(parts) + part
  {
    ConcatAppend(parts, [part]);
    assert Concat([part]) == part + Concat([]);
  }

  lemma {:induction false} RenderSnoc(scheme: Scheme, tokens: seq<Token>, t: Token)
    ensures RenderTokens(scheme, tokens + [t]) == RenderTokens(scheme, tokens) + Colorize(scheme, t.category, t.text)
  {
    if tokens == [] {
      assert tokens + [t] == [t];
    } else {
      assert (tokens + [t])[1..] == tokens[1..] + [t];
      RenderSnoc(scheme, tokens[1..], t);
    }
  }

  lemma HighlightedPrefix(scheme: Scheme, lexer: Lexer, lines: seq<string>, i: nat)
    requires i < |lines|
    ensures HighlightedLines(scheme, lexer, lines[..i + 1])
            == HighlightedLines(scheme, lexer, lines[..i]) + [HighlightedLine(scheme, lexer, lines[i])]
  {
    assert lines[..i + 1] == lines[..i] + [lines[i]];
    HighlightedLinesSnoc(scheme, lexer, lines[..i], lines[i]);
  }

  lemma HighlightedAll(scheme: Scheme, lexer: Lexer, lines: seq<string>)
    ensures HighlightedLines(scheme, lexer, lines[..|lines|]) == HighlightedLines(scheme, lexer, lines)
  {
    assert lines[..|lines|] == lines;
  }

  lemma {:induction false} HighlightedLinesSnoc(scheme: Scheme, lexer: Lexer, lines: seq<string>, line: string)
    ensures HighlightedLines(scheme, lexer, lines + [line])
            == HighlightedLines(scheme, lexer, lines) + [HighlightedLine(scheme, lexer, line)]
  {
    if lines == [] {
      assert lines + [line] == [line];
    } else {
      assert (lines + [line])[1..] == lines[1..] + [line];
      HighlightedLinesSnoc(scheme, lexer, lines[1..], line);
    }
  }
}
