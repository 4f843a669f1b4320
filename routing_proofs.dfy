/** Properties of the routing in `highlight_code_multiline_aware`: the
    cursor only moves forward and counts the newlines it passes, lines
    behind the cursor are never written again, and when the lexer's tokens
    spell out the code, each line receives exactly its own text. */
module RoutingProofs {
  import opened Wrappers
  import opened PyStr
  import opened SyntaxSpec
  import opened SyntaxProofs

  function Min(a: int, b: int): int {
    if a <= b then a else b
  }

  // ---------------------------------------------------------------------
  // The cursor

  lemma {:induction false} PlacePartsCursorFrom(pieces: seq<seq<Token>>, cursor: nat, category: Category,
                                                parts: seq<string>, i: nat)
    requires 1 <= i <= |parts| && cursor < |pieces|
    ensures PlaceParts(pieces, cursor, category, parts, i).1 == Min(cursor + |parts| - i, |pieces|)
    decreases |parts| - i
  {
    if i < |parts| && cursor + 1 < |pieces| {
      var next := if parts[i] != [] then pieces[cursor + 1 := pieces[cursor + 1] + [Token(category, parts[i])]] else pieces;
      PlacePartsCursorFrom(next, cursor + 1, category, parts, i + 1);
    }
  }

  /** A token whose text holds `k` newlines moves the cursor `k` lines
      down, and stops it at the line count; a cursor already past the last
      line stays where it is. */
  lemma PlacePartsCursor(pieces: seq<seq<Token>>, cursor: nat, category: Category, text: string)
    ensures PlaceParts(pieces, cursor, category, Split(text, '\n'), 0).1
            == if cursor >= |pieces| then cursor else Min(cursor + Count(text, '\n'), |pieces|)
  {
    var parts := Split(text, '\n');
    if cursor < |pieces| {
      var next := if parts[0] != [] then pieces[cursor := pieces[cursor] + [Token(category, parts[0])]] else pieces;
      PlacePartsCursorFrom(next, cursor, category, parts, 1);
    }
  }

  /** Whether `after` extends every accumulator of `before` and leaves
      those above line `cursor` as they were. */
  predicate Forward(before: seq<seq<Token>>, after: seq<seq<Token>>, cursor: nat) {
    |after| == |before|
    && (forall j :: 0 <= j < |before| ==> before[j] <= after[j])
    && (forall j :: 0 <= j < |before| && j < cursor ==> after[j] == before[j])
  }

  lemma {:induction false} PlacePartsForward(pieces: seq<seq<Token>>, cursor: nat, category: Category,
                                             parts: seq<string>, i: nat)
    requires i <= |parts| && (i > 0 ==> cursor < |pieces|)
    ensures var r := PlaceParts(pieces, cursor, category, parts, i);
            Forward(pieces, r.0, cursor) && cursor <= r.1
            && (cursor <= |pieces| ==> r.1 <= |pieces|)
    decreases |parts| - i
  {
    if i < |parts| {
      var c := if i > 0 then cursor + 1 else cursor;
      if c < |pieces| {
        var next := if parts[i] != [] then pieces[c := pieces[c] + [Token(category, parts[i])]] else pieces;
        PlacePartsForward(next, c, category, parts, i + 1);
      }
    }
  }

  /** The routing only moves forward: the cursor never goes back and never
      passes the line count, every accumulator only grows, and the lines
      above the starting cursor are not touched. */
  lemma {:induction false} PlaceTokensForward(pieces: seq<seq<Token>>, cursor: nat, tokens: seq<Token>, t: nat)
    requires t <= |tokens|
    ensures var r := PlaceTokens(pieces, cursor, tokens, t);
            Forward(pieces, r.0, cursor) && cursor <= r.1
            && (cursor <= |pieces| ==> r.1 <= |pieces|)
    decreases |tokens| - t
  {
    if t < |tokens| {
      var placed := PlaceParts(pieces, cursor, tokens[t].category, Split(tokens[t].text, '\n'), 0);
      PlacePartsForward(pieces, cursor, tokens[t].category, Split(tokens[t].text, '\n'), 0);
      PlaceTokensForward(placed.0, placed.1, tokens, t + 1);
    }
  }

  // ---------------------------------------------------------------------
  // Each line receives its own text

  function LineOf(v: seq<string>, j: nat): string {
    if j < |v| then v[j] else []
  }

  /** The accumulators hold the lines `v` seen so far (the rest are empty)
      and the cursor is on the last of them, or at the line count once the
      text has run past it. */
  predicate Matches(pieces: seq<seq<Token>>, cursor: nat, v: seq<string>) {
    |v| >= 1 && cursor == Min(|v| - 1, |pieces|)
    && forall j :: 0 <= j < |pieces| ==> TextOf(pieces[j]) == LineOf(v, j)
  }

  lemma {:induction false} TextOfSnoc(ps: seq<Token>, t: Token)
    ensures TextOf(ps + [t]) == TextOf(ps) + t.text
  {
    if ps == [] {
      assert ps + [t] == [t];
    } else {
      assert (ps + [t])[1..] == ps[1..] + [t];
      TextOfSnoc(ps[1..], t);
    }
  }

  /** A part after a newline starts the next, still empty, line. */
  lemma NextLineMatches(pieces: seq<seq<Token>>, cursor: nat, v: seq<string>, category: Category, part: string)
    requires Matches(pieces, cursor, v) && cursor == |v| - 1 && cursor + 1 < |pieces|
    ensures var c := cursor + 1;
            Matches(if part != [] then pieces[c := pieces[c] + [Token(category, part)]] else pieces, c, v + [part])
  {
    var c := cursor + 1;
    var next := if part != [] then pieces[c := pieces[c] + [Token(category, part)]] else pieces;
    forall j | 0 <= j < |next|
      ensures TextOf(next[j]) == LineOf(v + [part], j)
    {
      NextLineAt(pieces, cursor, v, category, part, j);
    }
  }

  lemma NextLineAt(pieces: seq<seq<Token>>, cursor: nat, v: seq<string>, category: Category, part: string, j: nat)
    requires Matches(pieces, cursor, v) && cursor == |v| - 1 && cursor + 1 < |pieces| && j < |pieces|
    ensures var c := cursor + 1;
            var next := if part != [] then pieces[c := pieces[c] + [Token(category, part)]] else pieces;
            TextOf(next[j]) == LineOf(v + [part], j)
  {
    var c := cursor + 1;
    assert TextOf(pieces[j]) == LineOf(v, j);
    if j == c {
      if part != [] {
        TextOfSnoc(pieces[c], Token(category, part));
      }
    }
  }

  /** The first part of a token continues the line the cursor is on. */
  lemma SameLineMatches(pieces: seq<seq<Token>>, cursor: nat, v: seq<string>, category: Category, part: string)
    requires Matches(pieces, cursor, v) && cursor == |v| - 1 && cursor < |pieces|
    ensures Matches(if part != [] then pieces[cursor := pieces[cursor] + [Token(category, part)]] else pieces,
                    cursor, v[..cursor] + [v[cursor] + part])
  {
    var v' := v[..cursor] + [v[cursor] + part];
    var next := if part != [] then pieces[cursor := pieces[cursor] + [Token(category, part)]] else pieces;
    if part != [] {
      TextOfSnoc(pieces[cursor], Token(category, part));
    } else {
      assert v[cursor] + part == v[cursor];
    }
    forall j | 0 <= j < |next|
      ensures TextOf(next[j]) == LineOf(v', j)
    {
      if j != cursor {
        assert next[j] == pieces[j];
      }
    }
  }

  /** Once the text has run past the last line, more text changes nothing
      the accumulators are said to hold. */
  lemma PastEndMatches(pieces: seq<seq<Token>>, v: seq<string>, w: seq<string>)
    requires |v| >= |pieces| && |v| + |w| - 1 >= |pieces| && |v| >= 1
    requires forall j :: 0 <= j < |pieces| ==> TextOf(pieces[j]) == LineOf(v, j)
    ensures Matches(pieces, |pieces|, v + w)
  {
    forall j | 0 <= j < |pieces|
      ensures LineOf(v + w, j) == LineOf(v, j)
    {
    }
  }

  /** Gluing onto lines that already run past the end changes nothing. */
  lemma GluePastEnd(pieces: seq<seq<Token>>, cursor: nat, v: seq<string>, parts: seq<string>)
    requires |parts| >= 1 && Matches(pieces, cursor, v) && cursor >= |pieces|
    ensures Matches(pieces, cursor, Glue(v, parts))
  {
    var g := Glue(v, parts);
    assert |v| - 1 >= |pieces|;
    forall j | 0 <= j < |pieces|
      ensures LineOf(g, j) == LineOf(v, j)
    {
      assert g[j] == v[..|v| - 1][j];
    }
  }

  lemma {:induction false} PlacePartsMatches(pieces: seq<seq<Token>>, cursor: nat, category: Category,
                                             parts: seq<string>, i: nat, v: seq<string>)
    requires 1 <= i <= |parts|
    requires Matches(pieces, cursor, v) && cursor < |pieces|
    ensures var r := PlaceParts(pieces, cursor, category, parts, i);
            Matches(r.0, r.1, v + parts[i..])
    decreases |parts| - i, 1
  {
    if i == |parts| {
      assert v + parts[i..] == v;
    } else if cursor + 1 >= |pieces| {
      assert PlaceParts(pieces, cursor, category, parts, i) == (pieces, |pieces|);
      PastEndMatches(pieces, v, parts[i..]);
    } else {
      PartsOnNextLine(pieces, cursor, category, parts, i, v);
    }
  }

  lemma PartsOnNextLine(pieces: seq<seq<Token>>, cursor: nat, category: Category,
                        parts: seq<string>, i: nat, v: seq<string>)
    requires 1 <= i < |parts|
    requires Matches(pieces, cursor, v) && cursor + 1 < |pieces|
    ensures var r := PlaceParts(pieces, cursor, category, parts, i);
            Matches(r.0, r.1, v + parts[i..])
    decreases |parts| - i, 0
  {
    var c := cursor + 1;
    var next := if parts[i] != [] then pieces[c := pieces[c] + [Token(category, parts[i])]] else pieces;
    PlacePartsUnfold(pieces, cursor, category, parts, i);
    NextLineMatches(pieces, cursor, v, category, parts[i]);
    PlacePartsMatches(next, c, category, parts, i + 1, v + [parts[i]]);
    SliceCons(v, parts, i);
  }

  lemma PlacePartsUnfold(pieces: seq<seq<Token>>, cursor: nat, category: Category, parts: seq<string>, i: nat)
    requires 1 <= i < |parts| && cursor + 1 < |pieces|
    ensures var c := cursor + 1;
            var next := if parts[i] != [] then pieces[c := pieces[c] + [Token(category, parts[i])]] else pieces;
            PlaceParts(pieces, cursor, category, parts, i) == PlaceParts(next, c, category, parts, i + 1)
  {
  }

  lemma SliceCons<T>(v: seq<T>, parts: seq<T>, i: nat)
    requires i < |parts|
    ensures v + [parts[i]] + parts[i + 1..] == v + parts[i..]
  {
    assert [parts[i]] + parts[i + 1..] == parts[i..];
  }

  /** One token: the lines seen so far are glued to the lines of its text. */
  lemma PlaceTokenMatches(pieces: seq<seq<Token>>, cursor: nat, category: Category, parts: seq<string>, v: seq<string>)
    requires |parts| >= 1 && Matches(pieces, cursor, v)
    ensures var r := PlaceParts(pieces, cursor, category, parts, 0);
            Matches(r.0, r.1, Glue(v, parts))
  {
    if cursor >= |pieces| {
      assert PlaceParts(pieces, cursor, category, parts, 0) == (pieces, cursor);
      GluePastEnd(pieces, cursor, v, parts);
    } else {
      OnLineMatches(pieces, cursor, category, parts, v);
    }
  }

  lemma OnLineMatches(pieces: seq<seq<Token>>, cursor: nat, category: Category, parts: seq<string>, v: seq<string>)
    requires |parts| >= 1 && Matches(pieces, cursor, v) && cursor < |pieces|
    ensures var r := PlaceParts(pieces, cursor, category, parts, 0);
            Matches(r.0, r.1, Glue(v, parts))
  {
    assert cursor == |v| - 1;
    var v' := v[..cursor] + [v[cursor] + parts[0]];
    var next := if parts[0] != [] then pieces[cursor := pieces[cursor] + [Token(category, parts[0])]] else pieces;
    assert PlaceParts(pieces, cursor, category, parts, 0) == PlaceParts(next, cursor, category, parts, 1);
    SameLineMatches(pieces, cursor, v, category, parts[0]);
    PlacePartsMatches(next, cursor, category, parts, 1, v');
    assert Glue(v, parts) == v' + parts[1..];
  }

  lemma {:induction false} PlaceTokensMatches(pieces: seq<seq<Token>>, cursor: nat, tokens: seq<Token>, t: nat, p: string)
    requires t <= |tokens| && Matches(pieces, cursor, Split(p, '\n'))
    ensures var r := PlaceTokens(pieces, cursor, tokens, t);
            Matches(r.0, r.1, Split(p + TextOf(tokens[t..]), '\n'))
    decreases |tokens| - t
  {
    if t == |tokens| {
      assert p + TextOf(tokens[t..]) == p;
    } else {
      var text := tokens[t].text;
      var placed := PlaceParts(pieces, cursor, tokens[t].category, Split(text, '\n'), 0);
      PlaceTokenMatches(pieces, cursor, tokens[t].category, Split(text, '\n'), Split(p, '\n'));
      SplitAppend(p, text, '\n');
      PlaceTokensMatches(placed.0, placed.1, tokens, t + 1, p + text);
      TextOfFrom(tokens, t);
      Regroup3(p, text, TextOf(tokens[t + 1..]));
    }
  }

  lemma TextOfFrom(tokens: seq<Token>, t: nat)
    requires t < |tokens|
    ensures TextOf(tokens[t..]) == tokens[t].text + TextOf(tokens[t + 1..])
  {
    assert tokens[t..][1..] == tokens[t + 1..];
  }

  /** Line `j` of `n` receives exactly the text of line `j` of what the
      tokens spell out: nothing is lost, moved to another line or repeated,
      and the lines past the tokens' text receive nothing. */
  lemma RouteShowsTokens(tokens: seq<Token>, n: nat)
    requires n >= 1
    ensures var routed := Route(tokens, n);
            forall j :: 0 <= j < n ==> TextOf(routed[j]) == LineOf(Split(TextOf(tokens), '\n'), j)
  {
    assert Split([], '\n') == [[]];
    PlaceTokensMatches(NoPieces(n), 0, tokens, 0, []);
    assert [] + TextOf(tokens[0..]) == TextOf(tokens);
  }

  /** When the tokens spell out the code, a final newline allowed, line `j`
      of the code receives exactly line `j`. */
  lemma RouteText(tokens: seq<Token>, code: string)
    requires TextOf(tokens) == code || TextOf(tokens) == code + "\n"
    ensures var lines := Split(code, '\n');
            var routed := Route(tokens, |lines|);
            forall j :: 0 <= j < |lines| ==> TextOf(routed[j]) == lines[j]
  {
    var lines := Split(code, '\n');
    RouteShowsTokens(tokens, |lines|);
    if TextOf(tokens) != code {
      FinalNewline(code);
    }
  }

  /** A final newline adds one empty line and leaves the others as they are. */
  lemma FinalNewline(code: string)
    ensures var lines := Split(code, '\n');
            forall j :: 0 <= j < |lines| ==> LineOf(Split(code + "\n", '\n'), j) == lines[j]
  {
    var lines := Split(code, '\n');
    var n := |lines|;
    SplitAppend(code, "\n", '\n');
    assert "\n"[1..] == [];
    assert Split("\n", '\n') == [[], []];
    var g := Glue(lines, [[], []]);
    forall j | 0 <= j < n
      ensures LineOf(g, j) == lines[j]
    {
      if j == n - 1 {
        assert lines[n - 1] + [] == lines[n - 1];
      }
    }
  }

  /** Entry `j` of `highlight_code_multiline_aware` shows line `j` of the
      text the lexer's tokens spell out, tabs expanded. */
  lemma MultilineShowsTokens(scheme: Scheme, code: string, tokens: seq<Token>)
    requires TagSafe(scheme)
    ensures var r := MultilineHighlight(scheme, code, tokens);
            forall j :: 0 <= j < |r| ==> Text(r[j]) == ExpandTabs(LineOf(Split(TextOf(tokens), '\n'), j))
  {
    if code != [] {
      var n := |Split(code, '\n')|;
      RouteShowsTokens(tokens, n);
      forall j | 0 <= j < n
        ensures Text(MultilineHighlight(scheme, code, tokens)[j]) == ExpandTabs(LineOf(Split(TextOf(tokens), '\n'), j))
      {
        MultilineEntry(scheme, code, tokens, j, LineOf(Split(TextOf(tokens), '\n'), j));
      }
    }
  }

  /** With a lexer that keeps the newlines at the ends of the code
      (`stripnl` off), every entry shows its own line of the code, tabs
      expanded, provided the code holds no carriage return or byte-order
      mark. */
  lemma MultilineShowsLines(scheme: Scheme, lexer: Lexer, code: string)
    requires TagSafe(scheme) && !lexer.stripNewlines
    requires '\r' !in code && (code != [] ==> code[0] != '\U{FEFF}')
    requires Spells(lexer, Prepared(code, false))
    ensures var r := MultilineHighlight(scheme, code, Lex(lexer, code));
            forall j :: 0 <= j < |r| ==> Text(r[j]) == ExpandTabs(Split(code, '\n')[j])
  {
    PreparedPlain(code, false);
    var tokens := Lex(lexer, code);
    if code != [] {
      RouteText(tokens, code);
      forall j | 0 <= j < |Split(code, '\n')|
        ensures Text(MultilineHighlight(scheme, code, tokens)[j]) == ExpandTabs(Split(code, '\n')[j])
      {
        MultilineEntry(scheme, code, tokens, j, Split(code, '\n')[j]);
      }
    }
  }

  lemma MultilineEntry(scheme: Scheme, code: string, tokens: seq<Token>, j: nat, line: string)
    requires TagSafe(scheme) && code != [] && j < |Split(code, '\n')|
    requires TextOf(Route(tokens, |Split(code, '\n')|)[j]) == line
    ensures j < |MultilineHighlight(scheme, code, tokens)|
    ensures Text(MultilineHighlight(scheme, code, tokens)[j]) == ExpandTabs(line)
  {
    var routed := Route(tokens, |Split(code, '\n')|);
    var h := RenderTokens(scheme, routed[j]);
    assert MultilineHighlight(scheme, code, tokens)[j] == if h != [] then h else "<br/>";
    EntryShowsLine(scheme, routed[j], line);
  }

  lemma EntryShowsLine(scheme: Scheme, pieces: seq<Token>, line: string)
    requires TagSafe(scheme) && TextOf(pieces) == line
    ensures var h := RenderTokens(scheme, pieces);
            Text(if h != [] then h else "<br/>") == ExpandTabs(line)
  {
    var h := RenderTokens(scheme, pieces);
    TextOfRender(scheme, pieces, []);
    assert h + [] == h;
    if h == [] {
      TextBreak([]);
      assert "<br/>" + [] == "<br/>";
    }
  }

  lemma {:induction false} SplitWithoutSep(s: string, sep: char)
    requires sep !in s
    ensures Split(s, sep) == [s]
  {
    if s != [] {
      SplitWithoutSep(s[1..], sep);
      assert [s[0]] + s[1..] == s;
    }
  }

  /** With `stripnl` on, as `PythonLexer()` has it, the lexer drops the
      newline that starts `"\npass"` and tokenizes `"pass\n"`: the entry for
      line 0, which is blank in the code, shows `pass`, and the entry for
      line 1, which holds `pass`, shows nothing. */
  lemma LeadingNewlineShifts(scheme: Scheme, lexer: Lexer)
    requires TagSafe(scheme) && lexer.stripNewlines && Spells(lexer, "pass\n")
    ensures var code := "\npass";
            var r := MultilineHighlight(scheme, code, Lex(lexer, code));
            Split(code, '\n') == [[], "pass"] && |r| == 2 && Text(r[0]) == "pass" && Text(r[1]) == []
  {
    var code := "\npass";
    assert code[1..] == "pass";
    SplitWithoutSep("pass", '\n');
    assert Split(code, '\n') == [[], "pass"];
    StripPass();
    var tokens := Lex(lexer, code);
    assert TextOf(tokens) == "pass\n";
    PassLines();
    MultilineShowsTokens(scheme, code, tokens);
    assert ExpandTabs("pass") == "pass";
  }

  /** The text Pygments tokenizes for `"\npass"` with `stripnl`. */
  lemma StripPass()
    ensures Prepared("\npass", true) == "pass\n"
  {
    var code := "\npass";
    assert DropBom(code) == code;
    NormalizeNoReturn(code);
    assert code[1..] == "pass";
    assert StripNewlines(code) == StripNewlines("pass") == "pass";
  }

  lemma PassLines()
    ensures LineOf(Split("pass\n", '\n'), 0) == "pass"
    ensures LineOf(Split("pass\n", '\n'), 1) == []
  {
    SplitAppend("pass", "\n", '\n');
    SplitWithoutSep("pass", '\n');
    assert "\n"[1..] == [];
    assert Split("\n", '\n') == [[], []];
  }
}
