/** The properties the line wrapper promises, proved about the functions of
    `FormatterSpec`: every emitted line fits the width, continuation lines
    carry the continuation indent (and the `"# "` prefix on the comment path),
    and no visible text is lost. */
module FormatterProofs {
  import opened Wrappers
  import opened PyStr
  import opened FormatterSpec

  // ---------------------------------------------------------------------
  // Proof plumbing: small facts about strings and sequences, stated once
  // so that the proofs below can call them instead of repeating the step

  /** `rstrip` keeps every character up to the last visible one. */
  lemma RStripKeeps(s: string, q: nat)
    requires q < |s| && !IsSpace(s[q])
    ensures |RStrip(s)| > q
  {
    var r := RStrip(s);
    RStripDropsBlank(s);
    forall j | |r| <= j < |s|
      ensures IsSpace(s[j])
    {
      assert s[|r|..][j - |r|] == s[j];
    }
  }

  /** The first `n` characters of a string that starts with `n` spaces. */
  lemma SpacesPrefix(s: string, n: nat)
    requires n <= |s| && s[..n] == Spaces(n)
    ensures forall j :: 0 <= j < n ==> s[j] == ' '
  {
    forall j | 0 <= j < n
      ensures s[j] == ' '
    {
      assert s[..n][j] == s[j];
    }
  }

  lemma AppendOne<T>(a: seq<T>, x: T, b: seq<T>)
    ensures (a + [x]) + b == a + ([x] + b)
  {
  }

  lemma ConcatSingle(x: string)
    ensures Concat([x]) == x
  {
    assert [x][1..] == [];
  }

  lemma ConcatCons(x: string, tail: seq<string>)
    ensures Concat([x] + tail) == x + Concat(tail)
  {
    assert ([x] + tail)[1..] == tail;
  }

  lemma DropInside(p: string, s: string, n: int)
    requires 0 <= n <= |p|
    ensures Drop(p + s, n) == p[n..] + s
  {
    assert (p + s)[n..] == p[n..] + s;
  }

  lemma LStripSpace(s: string)
    requires s != [] && !IsSpace(s[0])
    ensures LStrip(" " + s) == s
  {
    assert (" " + s)[1..] == s;
  }

  lemma Regroup(a: string, b: string, c: string, x: string, y: string)
    requires x == a + b && b + c == y
    ensures x + c == a + y
  {
  }

  // ---------------------------------------------------------------------
  // Shapes of loop states and emitted lines

  /** A string that starts with exactly `n` spaces followed by a visible
      character: the shape of every continuation line of the plain path. */
  predicate ContinuationIndented(l: string, n: nat) {
    n < |l| && l[..n] == Spaces(n) && !IsSpace(l[n])
  }

  /** A loop state of the plain path after its first round: `n` spaces, then
      visible text or nothing. */
  predicate Reindented(s: string, n: nat) {
    n <= |s| && s[..n] == Spaces(n) && (n == |s| || !IsSpace(s[n]))
  }

  predicate LStripped(s: string) {
    s == [] || !IsSpace(s[0])
  }

  lemma RestReindented(current: string, b: nat, indent: nat)
    requires b <= |current|
    ensures Reindented(PlainRest(current, b, indent), indent + 4)
  {
    var t := PlainRest(current, b, indent);
    assert t[..indent + 4] == Spaces(indent + 4);
  }

  // ---------------------------------------------------------------------
  // What `Visible` keeps

  lemma {:induction false} RemoveHashAppend(a: string, b: string)
    ensures RemoveHash(a + b) == RemoveHash(a) + RemoveHash(b)
  {
    if a == [] {
      assert a + b == b;
    } else {
      assert (a + b)[1..] == a[1..] + b;
      RemoveHashAppend(a[1..], b);
    }
  }

  lemma VisibleAppend(a: string, b: string)
    ensures Visible(a + b) == Visible(a) + Visible(b)
  {
    NonSpaceAppend(a, b);
    RemoveHashAppend(NonSpace(a), NonSpace(b));
  }

  lemma VisibleOfNonSpace(s: string, t: string)
    requires NonSpace(s) == NonSpace(t)
    ensures Visible(s) == Visible(t)
  {
  }

  lemma VisibleBlank(s: string)
    requires IsBlank(s)
    ensures Visible(s) == []
  {
    NonSpaceBlank(s);
  }

  /** Re-inserting or dropping a `#` and whitespace leaves `Visible` alone. */
  lemma VisibleDropHash(s: string)
    ensures Visible(DropHash(LStrip(s))) == Visible(s)
  {
    var t := LStrip(s);
    NonSpaceLStrip(s);
    VisibleOfNonSpace(t, s);
    if |t| > 0 && t[0] == '#' {
      VisibleAfterHash(t);
    }
  }

  lemma VisibleAfterHash(t: string)
    requires t != [] && t[0] == '#'
    ensures Visible(LStrip(t[1..])) == Visible(t)
  {
    assert t == "#" + t[1..];
    VisibleAppend("#", t[1..]);
    NonSpaceLStrip(t[1..]);
    VisibleOfNonSpace(LStrip(t[1..]), t[1..]);
  }

  lemma DropHashStripped(s: string)
    ensures LStripped(DropHash(LStrip(s)))
  {
  }

  // ---------------------------------------------------------------------
  // The plain path

  /** One round of `PlainLines` on a state that does not fit: the cut lies
      after the indentation and within the width, and the next state again
      meets the requirement of `PlainLines`. */
  lemma PlainLinesUnfold(current: string, indent: nat, w: int, breaks: seq<string>)
    requires ValidBreaks(breaks) && RoundProgresses(current, indent, w, breaks)
    requires Indent(current) <= indent + 4 && |current| > w
    ensures var b := PlainCut(current, indent, w, breaks);
            indent < b <= w
            && var next := PlainRest(current, b, indent);
               (|next| <= w || (RoundProgresses(next, indent, w, breaks) && Indent(next) <= indent + 4))
               && |NonSpace(next)| < |NonSpace(current)|
               && PlainLines(current, indent, w, breaks)
                  == [RStrip(current[..b])] + PlainLines(next, indent, w, breaks)
  {
    PlainCutProgress(current, indent, w, breaks);
  }

  /** Every line of the plain path fits the width. */
  lemma {:induction false} PlainLinesWidth(current: string, indent: nat, w: int, breaks: seq<string>)
    requires ValidBreaks(breaks)
    requires |current| <= w || (RoundProgresses(current, indent, w, breaks) && Indent(current) <= indent + 4)
    ensures forall l :: l in PlainLines(current, indent, w, breaks) ==> |l| <= w
    decreases |NonSpace(current)|
  {
    if |current| > w {
      PlainLinesUnfold(current, indent, w, breaks);
      var b := PlainCut(current, indent, w, breaks);
      var next := PlainRest(current, b, indent);
      var rest := PlainLines(next, indent, w, breaks);
      PlainLinesWidth(next, indent, w, breaks);
      var head := RStrip(current[..b]);
      forall l | l in [head] + rest
        ensures |l| <= w
      {
        if l != head {
          assert l in rest;
        }
      }
    }
  }

  /** From the second round on, every line of the plain path starts with
      exactly the continuation indent. */
  lemma {:induction false} PlainLinesIndented(current: string, indent: nat, w: int, breaks: seq<string>)
    requires ValidBreaks(breaks)
    requires |current| <= w || (RoundProgresses(current, indent, w, breaks) && Indent(current) <= indent + 4)
    requires Reindented(current, indent + 4)
    ensures forall l :: l in PlainLines(current, indent, w, breaks) ==> ContinuationIndented(l, indent + 4)
    decreases |NonSpace(current)|
  {
    var ci := indent + 4;
    if |current| <= w {
      if !IsBlank(current) {
        assert current != current[..ci];
      }
    } else {
      PlainLinesUnfold(current, indent, w, breaks);
      var b := PlainCut(current, indent, w, breaks);
      var next := PlainRest(current, b, indent);
      var head := RStrip(current[..b]);
      var rest := PlainLines(next, indent, w, breaks);
      CutHeadIndented(current, indent, w, breaks);
      RestReindented(current, b, indent);
      PlainLinesIndented(next, indent, w, breaks);
      forall l | l in [head] + rest
        ensures ContinuationIndented(l, ci)
      {
        if l != head {
          assert l in rest;
        }
      }
    }
  }

  /** A line the plain loop emits from a re-indented state keeps the
      indentation and starts its text right after it. */
  lemma CutHeadIndented(current: string, indent: nat, w: int, breaks: seq<string>)
    requires ValidBreaks(breaks) && RoundProgresses(current, indent, w, breaks)
    requires Indent(current) <= indent + 4 && |current| > w
    requires Reindented(current, indent + 4)
    ensures ContinuationIndented(RStrip(current[..PlainCut(current, indent, w, breaks)]), indent + 4)
  {
    var b := PlainCut(current, indent, w, breaks);
    var q := VisibleBeforeCut(current, indent, w, breaks);
    SpacesPrefix(current, indent + 4);
    HeadIndented(current[..b], indent + 4, q);
  }

  /** A prefix of a state that starts with `n` spaces and a visible
      character keeps that shape through `rstrip`. */
  lemma HeadIndented(s: string, n: nat, q: nat)
    requires n <= q < |s| && !IsSpace(s[q])
    requires s[..n] == Spaces(n) && !IsSpace(s[n])
    ensures ContinuationIndented(RStrip(s), n)
  {
    var l := RStrip(s);
    StripKeepsPrefix(s, n, q);
    assert l[..n] == l[..n + 1][..n];
    assert l[n] == l[..n + 1][n];
  }

  /** `rstrip` keeps the first `n + 1` characters when a visible one lies at
      or after position `n`. */
  lemma StripKeepsPrefix(s: string, n: nat, q: nat)
    requires n <= q < |s| && !IsSpace(s[q])
    ensures |RStrip(s)| > n && RStrip(s)[..n + 1] == s[..n + 1]
  {
    RStripKeeps(s, q);
  }

  /** The continuation state after a cut holds the visible characters after
      the cut. */
  lemma RestLossless(post: string, indent: nat)
    ensures NonSpace(Spaces(indent + 4) + LStrip(post)) == NonSpace(post)
  {
    NonSpaceAppend(Spaces(indent + 4), LStrip(post));
    NonSpaceSpaces(indent + 4);
    NonSpaceLStrip(post);
  }

  lemma NonSpaceCut(s: string, b: nat)
    requires b <= |s|
    ensures NonSpace(s) == NonSpace(s[..b]) + NonSpace(s[b..])
  {
    assert s == s[..b] + s[b..];
    NonSpaceAppend(s[..b], s[b..]);
  }

  /** One round of the plain loop: the emitted line and the next state hold
      the visible characters of the state, in order. */
  lemma CutLossless(current: string, b: nat, indent: nat)
    requires b <= |current|
    ensures NonSpace(RStrip(current[..b])) + NonSpace(PlainRest(current, b, indent)) == NonSpace(current)
  {
    NonSpaceCut(current, b);
    NonSpaceRStrip(current[..b]);
    RestLossless(current[b..], indent);
  }

  /** The plain path loses no visible character and adds none. */
  lemma {:induction false} PlainLinesLossless(current: string, indent: nat, w: int, breaks: seq<string>)
    requires ValidBreaks(breaks)
    requires |current| <= w || (RoundProgresses(current, indent, w, breaks) && Indent(current) <= indent + 4)
    ensures NonSpace(Concat(PlainLines(current, indent, w, breaks))) == NonSpace(current)
    decreases |NonSpace(current)|
  {
    if |current| <= w {
      if IsBlank(current) {
        NonSpaceBlank(current);
      } else {
        ConcatSingle(current);
      }
    } else {
      var b := PlainCut(current, indent, w, breaks);
      PlainCutProgress(current, indent, w, breaks);
      var rest := PlainRest(current, b, indent);
      var head := RStrip(current[..b]);
      var tail := PlainLines(rest, indent, w, breaks);
      PlainLinesLossless(rest, indent, w, breaks);
      assert PlainLines(current, indent, w, breaks) == [head] + tail;
      ConcatCons(head, tail);
      NonSpaceAppend(head, Concat(tail));
      CutLossless(current, b, indent);
    }
  }

  /** `_wrap_plain_line`: at least one line, every line within the width,
      every line after the first starting with exactly `indent + 4` spaces,
      and the visible characters unchanged and in order. */
  lemma WrapPlainCorrect(line: string, w: int, breaks: seq<string>)
    requires ValidBreaks(breaks) && PlainTerminates(line, w, breaks)
    ensures |WrapPlain(line, w, breaks)| >= 1
    ensures forall i :: 0 <= i < |WrapPlain(line, w, breaks)| ==> |WrapPlain(line, w, breaks)[i]| <= w
    ensures forall i :: 1 <= i < |WrapPlain(line, w, breaks)| ==>
              ContinuationIndented(WrapPlain(line, w, breaks)[i], Indent(line) + 4)
    ensures NonSpace(Concat(WrapPlain(line, w, breaks))) == NonSpace(line)
  {
    var indent := Indent(line);
    var lines := PlainLines(line, indent, w, breaks);
    var r := WrapPlain(line, w, breaks);
    PlainLinesWidth(line, indent, w, breaks);
    PlainLinesLossless(line, indent, w, breaks);
    if lines == [] {
      ConcatSingle(line);
    }
    if |line| > w {
      var b := PlainCut(line, indent, w, breaks);
      PlainCutProgress(line, indent, w, breaks);
      var rest := PlainRest(line, b, indent);
      RestReindented(line, b, indent);
      PlainLinesIndented(rest, indent, w, breaks);
      assert r == [RStrip(line[..b])] + PlainLines(rest, indent, w, breaks);
      forall i | 1 <= i < |r|
        ensures ContinuationIndented(r[i], indent + 4)
      {
        assert r[i] in PlainLines(rest, indent, w, breaks);
      }
    } else {
      assert |r| == 1;
    }
    forall i | 0 <= i < |r|
      ensures |r[i]| <= w
    {
      if lines != [] {
        assert r[i] in lines;
      }
    }
  }

  /** Where `_wrap_plain_line` cuts a line that does not fit: after its
      indentation and within the width, and exactly at the width when no
      break string qualifies. */
  lemma WrapPlainFirstCut(line: string, w: int, breaks: seq<string>)
    requires ValidBreaks(breaks) && PlainTerminates(line, w, breaks) && |line| > w
    ensures var b := PlainCut(line, Indent(line), w, breaks);
            && Indent(line) < b <= w
            && WrapPlain(line, w, breaks)[0] == RStrip(line[..b])
            && (BreakPoint(line, Indent(line), w, breaks) == -1 ==> b == w)
  {
    PlainCutProgress(line, Indent(line), w, breaks);
  }

  /** `PlainTerminates` is exact: on a line outside it with a width of at
      least 0, the first round leaves a state that does not fit and that
      every later round gives back unchanged, so `_wrap_plain_line` runs
      forever. (A negative width never ends the loop either, since no state
      is shorter than it.) */
  lemma PlainDiverges(line: string, w: int, breaks: seq<string>)
    requires ValidBreaks(breaks) && 0 <= w < |line| && !PlainTerminates(line, w, breaks)
    ensures var indent := Indent(line);
            var b := PlainCut(line, indent, w, breaks);
            0 <= b <= |line|
            && var next := PlainRest(line, b, indent);
               |next| > w
               && PlainCut(next, indent, w, breaks) == w
               && PlainRest(next, w, indent) == next
  {
    var indent := Indent(line);
    var b := PlainCut(line, indent, w, breaks);
    var next := PlainRest(line, b, indent);
    RestReindented(line, b, indent);
    PlainLoopRepeats(next, indent, w, breaks);
  }

  /** A line the loop ends on although the width leaves no room after the
      continuation indent: the hard cut at 4 leaves only spaces, the next
      state is the bare indent, which fits and is blank. */
  lemma BlankTailTerminates()
    ensures ValidBreaks(BreakChars)
    ensures PlainTerminates("abcd" + Spaces(5), 4, BreakChars)
    ensures WrapPlain("abcd" + Spaces(5), 4, BreakChars) == ["abcd"]
  {
    BlankTailRound();
    var line := "abcd" + Spaces(5);
    var next := Spaces(4);
    assert IsBlank(next);
    assert PlainLines(next, 0, 4, BreakChars) == [];
    assert RStrip(line[..4]) == "abcd" by {
      assert line[..4] == "abcd";
      RStripVisibleEnd("abcd");
    }
    assert PlainLines(line, 0, 4, BreakChars) == ["abcd"] + PlainLines(next, 0, 4, BreakChars);
  }

  /** The one round of `BlankTailTerminates`: the line is not indented, the
      cut falls at 4 and leaves only spaces, and the next state is the bare
      continuation indent. */
  lemma BlankTailRound()
    ensures ValidBreaks(BreakChars)
    ensures var line := "abcd" + Spaces(5);
            && Indent(line) == 0
            && PlainCut(line, 0, 4, BreakChars) == 4
            && LeavesBlank(line, 0, 4, BreakChars)
            && PlainRest(line, 4, 0) == Spaces(4)
  {
    BlankTailCut();
    var line := "abcd" + Spaces(5);
    assert LStrip(line[4..]) == [] by {
      assert line[4..] == Spaces(5) + [];
      LStripAfterSpaces(5, []);
    }
    assert LeavesBlank(line, 0, 4, BreakChars);
    assert PlainRest(line, 4, 0) == Spaces(4) by {
      assert Spaces(4) + [] == Spaces(4);
    }
  }

  lemma BlankTailCut()
    ensures ValidBreaks(BreakChars)
    ensures var line := "abcd" + Spaces(5);
            && Indent(line) == 0
            && PlainCut(line, 0, 4, BreakChars) == 4
  {
    BreakCharsValid();
    var line := "abcd" + Spaces(5);
    assert line[0] == 'a';
    assert forall j :: 0 <= j < 4 ==> line[j] != ' ';
    NoSpaceNoBreak(line, 0, 4);
  }

  /** No break string of `CodeFormatter` lies inside a window without a
      space, since each of them holds one. */
  lemma NoSpaceNoBreak(line: string, minPos: int, w: int)
    requires 0 <= w <= |line| && forall j :: 0 <= j < w ==> line[j] != ' '
    ensures BreakPoint(line, minPos, w, BreakChars) == -1
  {
    forall i | 0 <= i < |BreakChars|
      ensures !Qualifies(line, minPos, w, BreakChars[i])
    {
      var c := BreakChars[i];
      var pos := RFind(line, c, w);
      var j := if i == 0 then 1 else 0;
      assert c[j] == ' ';
      if pos >= 0 && pos + |c| <= w {
        assert false;
      }
    }
    BreakPointAfterMeaning(line, minPos, w, BreakChars, |BreakChars|);
  }

  /** Why `_wrap_plain_line` needs room after the continuation indent: once
      the state is the continuation indent followed by text and the indent
      alone reaches the width, no break string fits in the blank window, the
      hard break at `w` takes only spaces, and the next state is the same
      string again. */
  lemma PlainLoopRepeats(current: string, indent: nat, w: int, breaks: seq<string>)
    requires ValidBreaks(breaks) && 0 <= w <= indent + 4
    requires Reindented(current, indent + 4) && |current| > w
    ensures PlainCut(current, indent, w, breaks) == w
    ensures PlainRest(current, w, indent) == current
  {
    NoBreakInIndent(current, indent, w, breaks);
    RestRepeats(current, indent, w);
  }

  /** Within the indentation no break string qualifies. */
  lemma NoBreakInIndent(current: string, indent: nat, w: int, breaks: seq<string>)
    requires ValidBreaks(breaks) && 0 <= w <= indent + 4
    requires Reindented(current, indent + 4) && |current| > w
    ensures BreakPoint(current, indent, w, breaks) == -1
  {
    SpacesPrefix(current, indent + 4);
    forall i | 0 <= i < |breaks|
      ensures !Qualifies(current, indent, w, breaks[i])
    {
      var c := breaks[i];
      var pos := RFind(current, c, w);
      if pos >= 0 && pos > indent && pos + |c| <= w {
        var q := VisibleInOccurrence(current, c, pos);
      }
    }
    BreakPointAfterMeaning(current, indent, w, breaks, |breaks|);
  }

  /** Cutting a re-indented state inside its indentation gives it back. */
  lemma RestRepeats(current: string, indent: nat, w: int)
    requires 0 <= w <= indent + 4
    requires Reindented(current, indent + 4) && |current| > w
    ensures PlainRest(current, w, indent) == current
  {
    var ci := indent + 4;
    var y := current[ci..];
    assert current == Spaces(ci) + y;
    assert current[w..] == Spaces(ci - w) + y;
    LStripAfterSpaces(ci - w, y);
  }

  lemma LStripAfterSpaces(n: nat, y: string)
    requires LStripped(y)
    ensures LStrip(Spaces(n) + y) == y
  {
    SpacesThenStripped(n, y);
    var t := Spaces(n) + y;
    assert t[|t| - |LStrip(t)|..] == t[n..];
  }

  /** A string holding a character that `s` lacks does not occur in `s`. */
  lemma AbsentChar(s: string, sub: string, j: nat, e: int)
    requires j < |sub| && sub[j] !in s
    ensures RFind(s, sub, e) == -1
  {
    forall p | 0 <= p && p + |sub| <= |s|
      ensures !OccursAt(s, sub, p)
    {
      assert s[p..p + |sub|][j] == s[p + j];
    }
  }

  /** `_find_break_point` does not return the rightmost qualifying end: on
      `"x and (y)"` with width 8, `" and "` ends at 6, and `" ("` (which
      ends at 7) is then skipped because its START, 5, is compared with that
      end. */
  lemma BreakPointNotRightmost()
    ensures BreakPoint("x and (y)", 0, 8, BreakChars) == 6
    ensures Qualifies("x and (y)", 0, 8, " (") && RFind("x and (y)", " (", 8) + |" ("| == 7
  {
    var line := "x and (y)";
    SampleSearches();
    assert BreakPointAfter(line, 0, 8, BreakChars, 1) == -1;
    assert BreakPointAfter(line, 0, 8, BreakChars, 2) == -1;
    assert BreakPointAfter(line, 0, 8, BreakChars, 3) == -1;
    assert BreakPointAfter(line, 0, 8, BreakChars, 4) == -1;
    assert BreakPointAfter(line, 0, 8, BreakChars, 5) == -1;
    assert BreakPointAfter(line, 0, 8, BreakChars, 6) == -1;
    assert BreakPointAfter(line, 0, 8, BreakChars, 7) == 6;
    assert BreakPointAfter(line, 0, 8, BreakChars, 8) == 6;
    assert BreakPointAfter(line, 0, 8, BreakChars, 9) == 6;
    assert BreakPointAfter(line, 0, 8, BreakChars, 10) == 6;
    assert BreakPointAfter(line, 0, 8, BreakChars, 11) == 6;
  }

  /** Where each break string occurs in `line[0:8]` of `"x and (y)"`. */
  lemma SampleSearches()
    ensures forall i :: 0 <= i < 6 ==> RFind("x and (y)", BreakChars[i], 8) == -1
    ensures forall i :: 7 <= i < 10 ==> RFind("x and (y)", BreakChars[i], 8) == -1
    ensures RFind("x and (y)", BreakChars[11], 8) == -1
    ensures BreakChars[6] == " and " && RFind("x and (y)", " and ", 8) == 1
    ensures BreakChars[10] == " (" && RFind("x and (y)", " (", 8) == 5
  {
    SampleAbsentOperators();
    SampleAbsentMoreOperators();
    SampleAbsentWords();
    RFindAnd();
    RFindParen();
  }

  lemma SampleAbsentOperators()
    ensures forall i :: 0 <= i < 3 ==> RFind("x and (y)", BreakChars[i], 8) == -1
  {
    var line := "x and (y)";
    assert BreakChars[0] == ", ";
    AbsentChar(line, BreakChars[0], 0, 8);
    assert BreakChars[1] == " + ";
    AbsentChar(line, BreakChars[1], 1, 8);
    assert BreakChars[2] == " - ";
    AbsentChar(line, BreakChars[2], 1, 8);
  }

  lemma SampleAbsentMoreOperators()
    ensures forall i :: 3 <= i < 6 ==> RFind("x and (y)", BreakChars[i], 8) == -1
  {
    var line := "x and (y)";
    assert BreakChars[3] == " * ";
    AbsentChar(line, BreakChars[3], 1, 8);
    assert BreakChars[4] == " / ";
    AbsentChar(line, BreakChars[4], 1, 8);
    assert BreakChars[5] == " = ";
    AbsentChar(line, BreakChars[5], 1, 8);
  }

  lemma SampleAbsentWords()
    ensures forall i :: 7 <= i < 10 ==> RFind("x and (y)", BreakChars[i], 8) == -1
    ensures RFind("x and (y)", BreakChars[11], 8) == -1
  {
    var line := "x and (y)";
    assert BreakChars[7] == " or ";
    AbsentChar(line, BreakChars[7], 1, 8);
    assert BreakChars[8] == " if ";
    AbsentChar(line, BreakChars[8], 1, 8);
    assert BreakChars[9] == " else ";
    AbsentChar(line, BreakChars[9], 1, 8);
    assert BreakChars[11] == " [";
    AbsentChar(line, BreakChars[11], 1, 8);
  }

  lemma RFindAnd()
    ensures RFind("x and (y)", " and ", 8) == 1
  {
    var line := "x and (y)";
    assert line[3..8][0] != " and "[0];
    assert line[2..7][0] != " and "[0];
    assert line[1..6] == " and ";
  }

  lemma RFindParen()
    ensures RFind("x and (y)", " (", 8) == 5
  {
    var line := "x and (y)";
    assert line[6..8][0] != " ("[0];
    assert line[5..7] == " (";
  }

  // ---------------------------------------------------------------------
  // The comment path

  /** A line that starts with the continuation indent and `"# "`. */
  predicate CommentContinuation(l: string, ci: nat) {
    ci + 2 <= |l| && l[..ci + 2] == Spaces(ci) + "# "
  }

  lemma VisibleSpacesThen(n: nat, s: string)
    ensures Visible(Spaces(n) + s) == Visible(s)
  {
    VisibleAppend(Spaces(n), s);
    VisibleBlank(Spaces(n));
  }

  lemma VisibleHashSpace(s: string)
    ensures Visible("# " + s) == Visible(s)
  {
    VisibleAppend("# ", s);
    assert NonSpace("# ") == "#" by {
      assert "# "[1..] == " ";
      assert " "[1..] == [];
    }
    assert RemoveHash("#") == [] by {
      assert "#"[1..] == [];
    }
  }

  lemma VisibleRStrip(s: string)
    ensures Visible(RStrip(s)) == Visible(s)
  {
    NonSpaceRStrip(s);
  }

  lemma VisibleCut(s: string, p: nat)
    requires p <= |s|
    ensures Visible(s) == Visible(s[..p]) + Visible(s[p..])
  {
    assert s == s[..p] + s[p..];
    VisibleAppend(s[..p], s[p..]);
  }

  /** Cutting `t` at `p`, trimming both sides and dropping a `#` after the
      cut keeps the visible text. */
  lemma SplitVisible(t: string, p: nat)
    requires p <= |t|
    ensures Visible(RStrip(t[..p])) + Visible(DropHash(LStrip(t[p..]))) == Visible(t)
  {
    VisibleRStrip(t[..p]);
    VisibleDropHash(t[p..]);
    VisibleCut(t, p);
  }

  /** The text before the `#` and the comment together hold the visible text
      of the line. */
  lemma VisibleParts(line: string, k: nat)
    requires k <= |line|
    ensures Visible(CodePart(line, k)) + Visible(CommentPart(line, k)) == Visible(line)
  {
    assert line == line[..k] + line[k..];
    VisibleAppend(line[..k], line[k..]);
    NonSpaceRStrip(line[..k]);
  }

  /** A comment that fits on one continuation line. */
  lemma ContinuationLast(remaining: string, ci: nat)
    ensures CommentContinuation(Spaces(ci) + "# " + remaining, ci)
    ensures Visible(Spaces(ci) + "# " + remaining) == Visible(remaining)
  {
    var l := Spaces(ci) + "# " + remaining;
    assert l[..ci + 2] == Spaces(ci) + "# ";
    assert l == Spaces(ci) + ("# " + remaining);
    VisibleSpacesThen(ci, "# " + remaining);
    VisibleHashSpace(remaining);
  }

  /** One round of the continuation loop: the emitted line fits, starts with
      the indent and `"# "`, and together with the next `remaining` keeps the
      visible text. */
  lemma StepCorrect(remaining: string, ci: nat, w: int)
    requires w - ci >= 3 && |"# " + remaining| > w - ci && LStripped(remaining)
    ensures var step := ContinuationStep(remaining, ci, w);
            && |step.0| <= w
            && CommentContinuation(step.0, ci)
            && LStripped(step.1)
            && Visible(step.0) + Visible(step.1) == Visible(remaining)
  {
    var text := "# " + remaining;
    var cut := StepCut(remaining, ci, w);
    CutPieceShape(text, cut, ci);
    CutPieceVisible(text, cut, ci);
    DropHashStripped(text[cut..]);
    VisibleHashSpace(remaining);
  }

  /** Where a round of the continuation loop cuts `"# " + remaining`. */
  lemma StepCut(remaining: string, ci: nat, w: int) returns (cut: nat)
    requires w - ci >= 3 && |"# " + remaining| > w - ci
    ensures 3 <= cut <= w - ci < |"# " + remaining|
    ensures var text := "# " + remaining;
            ContinuationStep(remaining, ci, w) == (Spaces(ci) + RStrip(text[..cut]), DropHash(LStrip(text[cut..])))
  {
    var text := "# " + remaining;
    var bp := CommentBreak(text, w - ci);
    cut := if bp > 2 then bp else w - ci;
    assert Take(text, cut) == text[..cut];
    assert Drop(text, cut) == text[cut..];
  }

  /** The emitted line of a round: within `ci + cut` columns and starting
      with the indent and `"# "`. */
  lemma CutPieceShape(text: string, cut: nat, ci: nat)
    requires 3 <= cut <= |text| && text[..2] == "# " && !IsSpace(text[2])
    ensures var l := Spaces(ci) + RStrip(text[..cut]);
            |l| <= ci + cut && CommentContinuation(l, ci)
  {
    var piece := RStrip(text[..cut]);
    StripKeepsPrefix(text[..cut], 2, 2);
    assert piece[..2] == "# ";
    var l := Spaces(ci) + piece;
    assert l[..ci + 2] == Spaces(ci) + piece[..2];
  }

  lemma CutPieceVisible(text: string, cut: nat, ci: nat)
    requires cut <= |text|
    ensures Visible(Spaces(ci) + RStrip(text[..cut])) + Visible(DropHash(LStrip(text[cut..]))) == Visible(text)
  {
    VisibleSpacesThen(ci, RStrip(text[..cut]));
    SplitVisible(text, cut);
  }

  /** The continuation loop: every line fits, starts with the continuation
      indent and `"# "`, and the comment text survives in order. */
  lemma ContinuationLinesCorrect(remaining: string, ci: nat, w: int)
    requires (remaining == [] || w - ci >= 3) && LStripped(remaining)
    ensures var ls := ContinuationLines(remaining, ci, w);
            && (forall i :: 0 <= i < |ls| ==> |ls[i]| <= w && CommentContinuation(ls[i], ci))
            && Visible(Concat(ls)) == Visible(remaining)
  {
    ContinuationLinesShape(remaining, ci, w);
    ContinuationLinesVisible(remaining, ci, w);
  }

  lemma {:induction false} ContinuationLinesShape(remaining: string, ci: nat, w: int)
    requires (remaining == [] || w - ci >= 3) && LStripped(remaining)
    ensures forall l :: l in ContinuationLines(remaining, ci, w) ==> |l| <= w && CommentContinuation(l, ci)
    decreases |remaining|
  {
    if remaining == [] {
    } else if |"# " + remaining| <= w - ci {
      ContinuationLast(remaining, ci);
      LastContinuation(remaining, ci, w);
    } else {
      var step := ContinuationStep(remaining, ci, w);
      StepShortens(remaining, ci, w);
      StepCorrect(remaining, ci, w);
      ContinuationLinesShape(step.1, ci, w);
      assert ContinuationLines(remaining, ci, w) == [step.0] + ContinuationLines(step.1, ci, w);
    }
  }

  lemma {:induction false} ContinuationLinesVisible(remaining: string, ci: nat, w: int)
    requires (remaining == [] || w - ci >= 3) && LStripped(remaining)
    ensures Visible(Concat(ContinuationLines(remaining, ci, w))) == Visible(remaining)
    decreases |remaining|
  {
    if remaining == [] {
    } else if |"# " + remaining| <= w - ci {
      ContinuationLast(remaining, ci);
      ConcatSingle(Spaces(ci) + "# " + remaining);
    } else {
      var step := ContinuationStep(remaining, ci, w);
      StepShortens(remaining, ci, w);
      StepCorrect(remaining, ci, w);
      ContinuationLinesVisible(step.1, ci, w);
      var tail := ContinuationLines(step.1, ci, w);
      assert ContinuationLines(remaining, ci, w) == [step.0] + tail;
      ConcatCons(step.0, tail);
      VisibleAppend(step.0, Concat(tail));
    }
  }

  /** The last round of the continuation loop. */
  lemma LastContinuation(remaining: string, ci: nat, w: int)
    requires w - ci >= 3 && remaining != [] && |"# " + remaining| <= w - ci
    ensures ContinuationLines(remaining, ci, w) == [Spaces(ci) + ("# " + remaining)]
  {
    assert Spaces(ci) + "# " + remaining == Spaces(ci) + ("# " + remaining);
  }

  /** A round of the continuation loop, for the cut the loop chooses: the
      word boundary after the `"# "` when there is one, else the width. */
  lemma StepAt(remaining: string, ci: nat, w: int, bp: int, cut: int)
    requires bp == CommentBreak("# " + remaining, w - ci)
    requires cut == if bp > 2 then bp else w - ci
    ensures ContinuationStep(remaining, ci, w)
            == (Spaces(ci) + RStrip(Take("# " + remaining, cut)), DropHash(LStrip(Drop("# " + remaining, cut))))
  {
  }

  /** The four ways `_wrap_line_with_comment` starts a comment that must be
      wrapped, one lemma per branch. */
  lemma HeadCodeAndComment(line: string, k: nat, w: int)
    requires k <= |line| && CodePart(line, k) != []
    requires var bp := CommentBreak(CommentPart(line, k), w - |CodePart(line, k)| - 1);
             w - |CodePart(line, k)| - 1 > 10 && bp > 0
    ensures var code, comment := CodePart(line, k), CommentPart(line, k);
            var bp := CommentBreak(comment, w - |code| - 1);
            CommentHead(line, k, w) == (code + " " + RStrip(comment[..bp]), DropHash(LStrip(comment[bp..])))
  {
  }

  lemma HeadCodeOnly(line: string, k: nat, w: int)
    requires k <= |line| && CodePart(line, k) != []
    requires var bp := CommentBreak(CommentPart(line, k), w - |CodePart(line, k)| - 1);
             !(w - |CodePart(line, k)| - 1 > 10 && bp > 0)
    ensures CommentHead(line, k, w) == (CodePart(line, k), CommentPart(line, k))
  {
  }

  lemma HeadCommentAtBreak(line: string, k: nat, w: int)
    requires k <= |line| && CodePart(line, k) == []
    requires CommentBreak(CommentPart(line, k), w - Indent(line)) > 0
    ensures var comment := CommentPart(line, k);
            var bp := CommentBreak(comment, w - Indent(line));
            CommentHead(line, k, w) == (Spaces(Indent(line)) + RStrip(comment[..bp]), DropHash(LStrip(comment[bp..])))
  {
  }

  lemma HeadCommentAtWidth(line: string, k: nat, w: int)
    requires k <= |line| && CodePart(line, k) == []
    requires CommentBreak(CommentPart(line, k), w - Indent(line)) <= 0
    ensures var comment, available := CommentPart(line, k), w - Indent(line);
            CommentHead(line, k, w)
              == (Spaces(Indent(line)) + RStrip(Take(comment, available)), DropHash(LStrip(Drop(comment, available))))
  {
  }

  /** Why the comment path needs three columns after the continuation
      indent: with one or two, a `remaining` that does not fit and does not
      start with `#` comes back unchanged. */
  lemma ContinuationRepeats(remaining: string, ci: nat, w: int)
    requires 1 <= w - ci <= 2 && |"# " + remaining| > w - ci
    requires remaining != [] && !IsSpace(remaining[0]) && remaining[0] != '#'
    ensures ContinuationStep(remaining, ci, w).1 == remaining
  {
    StepAtWidth(remaining, ci, w);
    NarrowCut(remaining, w - ci);
    var rest := LStrip(Drop("# " + remaining, w - ci));
    assert rest == remaining;
    DropHashKeeps(rest);
  }

  lemma DropHashKeeps(s: string)
    requires s == [] || s[0] != '#'
    ensures DropHash(s) == s
  {
  }

  /** With one or two columns there is no word break after the `"# "`, so
      the round cuts at the width. */
  lemma StepAtWidth(remaining: string, ci: nat, w: int)
    requires 1 <= w - ci <= 2 && |"# " + remaining| > w - ci
    ensures ContinuationStep(remaining, ci, w).1 == DropHash(LStrip(Drop("# " + remaining, w - ci)))
  {
    assert CommentBreak("# " + remaining, w - ci) <= 2;
  }

  /** Cutting `"# " + remaining` after one or two columns gives `remaining`
      back once stripped, when it starts with a visible character. */
  lemma NarrowCut(remaining: string, avail: int)
    requires 1 <= avail <= 2 && remaining != [] && !IsSpace(remaining[0])
    ensures LStrip(Drop("# " + remaining, avail)) == remaining
  {
    DropInside("# ", remaining, avail);
    if avail == 2 {
      assert "# "[2..] == [];
      assert [] + remaining == remaining;
      assert LStrip(remaining) == remaining;
    } else {
      assert "# "[1..] == " ";
      LStripSpace(remaining);
    }
  }

  /** When there is no text before a `#`, the indentation is exactly the
      position of the `#`. */
  lemma IndentAtHash(line: string, k: nat)
    requires k < |line| && line[k] == '#' && CodePart(line, k) == []
    ensures Indent(line) == k
  {
    var n := Indent(line);
    RStripDropsBlank(line[..k]);
    IndentBlank(line);
    assert line[..k][0..] == line[..k];
    forall j | 0 <= j < k
      ensures IsSpace(line[j])
    {
      assert line[..k][j] == line[j];
    }
    forall j | 0 <= j < n
      ensures IsSpace(line[j])
    {
      assert line[..n][j] == line[j];
    }
  }

  /** The pieces of the head after a word break at `p`, with `code` and a
      space in front. */
  lemma HeadPieceVisible(code: string, comment: string, p: nat)
    requires p <= |comment|
    ensures Visible(code + " " + RStrip(comment[..p])) + Visible(DropHash(LStrip(comment[p..])))
            == Visible(code) + Visible(comment)
  {
    var piece, rest := RStrip(comment[..p]), DropHash(LStrip(comment[p..]));
    VisibleCodeSpace(code, piece);
    SplitVisible(comment, p);
    Regroup(Visible(code), Visible(piece), Visible(rest), Visible(code + " " + piece), Visible(comment));
  }

  lemma VisibleCodeSpace(code: string, piece: string)
    ensures Visible(code + " " + piece) == Visible(code) + Visible(piece)
  {
    assert code + " " + piece == code + (Spaces(1) + piece);
    VisibleAppend(code, Spaces(1) + piece);
    VisibleSpacesThen(1, piece);
  }

  /** The pieces of the head after a break at `p`, re-indented by `n`. */
  lemma IndentedPieceVisible(n: nat, comment: string, p: nat)
    requires p <= |comment|
    ensures Visible(Spaces(n) + RStrip(comment[..p])) + Visible(DropHash(LStrip(comment[p..])))
            == Visible(comment)
  {
    VisibleSpacesThen(n, RStrip(comment[..p]));
    SplitVisible(comment, p);
  }

  /** The head when there is code before the `#`. */
  lemma HeadWithCode(line: string, k: nat, w: int)
    requires k < |line| && line[k] == '#' && CodePart(line, k) != []
    requires |CodePart(line, k)| <= w && !CommentFits(line, k, w)
    ensures var head := CommentHead(line, k, w);
            && |head.0| <= w
            && LStripped(head.1)
            && Visible(head.0) + Visible(head.1) == Visible(line)
  {
    var code := CodePart(line, k);
    var bp := CommentBreak(CommentPart(line, k), w - |code| - 1);
    if w - |code| - 1 > 10 && bp > 0 {
      HeadCodeAndComment(line, k, w);
      HeadSplitsComment(line, k, bp);
    } else {
      HeadCodeOnly(line, k, w);
      HeadKeepsComment(line, k);
    }
  }

  /** The head that takes the comment up to the word break at `bp`. */
  lemma HeadSplitsComment(line: string, k: nat, bp: nat)
    requires k <= |line| && bp <= |CommentPart(line, k)|
    ensures var code, comment := CodePart(line, k), CommentPart(line, k);
            var rest := DropHash(LStrip(comment[bp..]));
            LStripped(rest)
            && Visible(code + " " + RStrip(comment[..bp])) + Visible(rest) == Visible(line)
  {
    var code, comment := CodePart(line, k), CommentPart(line, k);
    VisibleParts(line, k);
    HeadPieceVisible(code, comment, bp);
    DropHashStripped(comment[bp..]);
  }

  /** The head that is the code alone, leaving the whole comment. */
  lemma HeadKeepsComment(line: string, k: nat)
    requires k < |line| && line[k] == '#'
    ensures LStripped(CommentPart(line, k))
    ensures Visible(CodePart(line, k)) + Visible(CommentPart(line, k)) == Visible(line)
  {
    VisibleParts(line, k);
    assert CommentPart(line, k)[0] == '#';
  }

  /** The head when the `#` starts the line's text. */
  lemma HeadAlone(line: string, k: nat, w: int)
    requires k < |line| && line[k] == '#' && CodePart(line, k) == []
    requires w - Indent(line) > 0
    ensures var head := CommentHead(line, k, w);
            && |head.0| <= w
            && LStripped(head.1)
            && Visible(head.0) + Visible(head.1) == Visible(line)
  {
    var comment := CommentPart(line, k);
    IndentAtHash(line, k);
    var cut := HeadAloneCut(line, k, w);
    VisibleParts(line, k);
    IndentedPieceVisible(k, comment, cut);
    DropHashStripped(comment[cut..]);
  }

  /** Where the first line of a comment with no code before it is cut. */
  lemma HeadAloneCut(line: string, k: nat, w: int) returns (cut: nat)
    requires k < |line| && CodePart(line, k) == [] && w - Indent(line) > 0
    ensures cut <= |CommentPart(line, k)| && cut <= w - Indent(line)
    ensures CommentHead(line, k, w) == (Spaces(Indent(line)) + RStrip(CommentPart(line, k)[..cut]),
                                        DropHash(LStrip(CommentPart(line, k)[cut..])))
  {
    var comment := CommentPart(line, k);
    var bp := CommentBreak(comment, w - Indent(line));
    if bp > 0 {
      cut := bp;
    } else {
      cut := SliceIndex(|comment|, w - Indent(line));
      assert Take(comment, w - Indent(line)) == comment[..cut];
      assert Drop(comment, w - Indent(line)) == comment[cut..];
    }
  }

  /** `_wrap_line_with_comment`: every line fits the width; when the code
      fits and the comment is wrapped, every line after the first carries the
      continuation indent and `"# "`; and the visible text (whitespace and
      `#` aside) comes out unchanged and in order. */
  lemma WrapCommentCorrect(line: string, k: nat, w: int, breaks: seq<string>)
    requires ValidBreaks(breaks) && k < |line| && line[k] == '#'
    requires CommentTerminates(line, k, w, breaks)
    ensures var r := WrapComment(line, k, w, breaks);
            && (forall i :: 0 <= i < |r| ==> |r[i]| <= w)
            && (|CodePart(line, k)| <= w && !CommentFits(line, k, w) ==>
                  forall i :: 1 <= i < |r| ==> CommentContinuation(r[i], Indent(line) + 4))
            && Visible(Concat(r)) == Visible(line)
  {
    var code := CodePart(line, k);
    if |code| <= w {
      if CommentFits(line, k, w) {
        FittingCommentCorrect(line, k);
      } else {
        WrappedCommentCorrect(line, k, w);
      }
    } else {
      WrapPlainCorrect(line, w, breaks);
    }
  }

  /** The code and the comment on one line, when they fit. */
  lemma FittingCommentCorrect(line: string, k: nat)
    requires k < |line| && line[k] == '#'
    ensures var code, comment := CodePart(line, k), CommentPart(line, k);
            var l := if code != [] then code + " " + comment else comment;
            Visible(Concat([l])) == Visible(line)
  {
    var code := CodePart(line, k);
    var comment := CommentPart(line, k);
    var l := if code != [] then code + " " + comment else comment;
    ConcatSingle(l);
    VisibleParts(line, k);
    if code != [] {
      assert l == code + (" " + comment);
      VisibleAppend(code, " " + comment);
      VisibleSpacesThen(1, comment);
      assert Spaces(1) == " ";
    }
  }

  /** A comment that must be wrapped: the head, then the continuation lines. */
  lemma WrappedCommentCorrect(line: string, k: nat, w: int)
    requires k < |line| && line[k] == '#'
    requires |CodePart(line, k)| <= w && !CommentFits(line, k, w)
    requires w - (Indent(line) + 4) >= 3
             || (CommentHead(line, k, w).1 == [] && (CodePart(line, k) != [] || w > Indent(line)))
    ensures var head := CommentHead(line, k, w);
            var r := [head.0] + ContinuationLines(head.1, Indent(line) + 4, w);
            && (forall i :: 0 <= i < |r| ==> |r[i]| <= w)
            && (forall i :: 1 <= i < |r| ==> CommentContinuation(r[i], Indent(line) + 4))
            && Visible(Concat(r)) == Visible(line)
  {
    var head := CommentHead(line, k, w);
    var ci := Indent(line) + 4;
    if CodePart(line, k) != [] {
      HeadWithCode(line, k, w);
    } else {
      HeadAlone(line, k, w);
    }
    ContinuationLinesCorrect(head.1, ci, w);
    var tail := ContinuationLines(head.1, ci, w);
    var r := [head.0] + tail;
    ConcatCons(head.0, tail);
    VisibleAppend(head.0, Concat(tail));
    forall i | 0 <= i < |r|
      ensures |r[i]| <= w
      ensures i >= 1 ==> CommentContinuation(r[i], ci)
    {
      if i > 0 {
        assert r[i] == tail[i - 1];
      }
    }
  }

  /** A comment line the source ends on although no column is left after
      the continuation indent: on `"  # abc      "` at width 8 the first line
      takes the comment up to its last word and leaves only spaces, so the
      loop does not run. */
  lemma CommentWithoutRest()
    ensures ValidBreaks(BreakChars)
    ensures var line := Spaces(2) + ("# abc" + Spaces(6));
            && FirstHash(line) == Some(2)
            && CommentTerminates(line, 2, 8, BreakChars)
            && WrapComment(line, 2, 8, BreakChars) == [Spaces(2) + "# abc"]
  {
    BreakCharsValid();
    var line := Spaces(2) + ("# abc" + Spaces(6));
    SampleCommentParts();
    SampleCommentHead();
    assert !CommentFits(line, 2, 8);
    assert ContinuationLines([], 6, 8) == [];
  }

  lemma SampleCommentParts()
    ensures var line := Spaces(2) + ("# abc" + Spaces(6));
            && FirstHash(line) == Some(2)
            && CodePart(line, 2) == []
            && CommentPart(line, 2) == "# abc" + Spaces(6)
            && Indent(line) == 2
  {
    var word := "# abc";
    var line := Spaces(2) + (word + Spaces(6));
    assert FirstHash(line) == Some(2) by {
      assert line[..2] == Spaces(2);
      FirstHashAt(line, 2);
    }
    assert CodePart(line, 2) == [] by {
      assert line[..2] == Spaces(2);
      RStripBlank(Spaces(2));
    }
    assert Indent(line) == 2 by {
      SpacesThenStripped(2, word + Spaces(6));
    }
    assert line[2..] == word + Spaces(6);
  }

  lemma SampleCommentHead()
    ensures CommentHead(Spaces(2) + ("# abc" + Spaces(6)), 2, 8) == (Spaces(2) + "# abc", [])
  {
    SampleCommentParts();
    var word := "# abc";
    var comment := word + Spaces(6);
    var piece := word + " ";
    assert CommentBreak(comment, 6) == 6 by {
      assert comment[5] == ' ';
      assert LastSpaceEnd(comment, 6) == 6;
    }
    assert RStrip(comment[..6]) == word by {
      assert comment[..6] == piece;
      RStripVisibleEnd(word);
      assert piece[..|piece| - 1] == word;
    }
    assert LStrip(comment[6..]) == [] by {
      assert comment[6..] == Spaces(5) + [];
      LStripAfterSpaces(5, []);
    }
  }

  /** The first `#` of a string is where `FirstHash` finds it. */
  lemma FirstHashAt(s: string, k: nat)
    requires k < |s| && s[k] == '#' && '#' !in s[..k]
    ensures FirstHash(s) == Some(k)
  {
    var r := FirstHash(s).value;
    assert forall j :: 0 <= j < k ==> s[..k][j] == s[j];
    assert forall j :: 0 <= j < r ==> s[..r][j] == s[j];
  }

  /** `rstrip` of whitespace leaves nothing. */
  lemma RStripBlank(s: string)
    requires IsBlank(s)
    ensures RStrip(s) == []
  {
    var r := RStrip(s);
  }

  lemma RStripVisibleEnd(s: string)
    requires s != [] && !IsSpace(s[|s| - 1])
    ensures RStrip(s) == s
  {
  }

  /** A comment line outside `CommentTerminates` on which the source ends,
      but with a line wider than the width: on `"x # abc "` at width 3 the
      code goes alone, and the continuation round has -1 columns, so
      Python's negative slice emits all but the last character of
      `"# # abc "`, which leaves nothing. */
  lemma NegativeRoomOverflows()
    ensures var line := "x " + ("# abc" + " ");
            && FirstHash(line) == Some(2)
            && !CommentTerminates(line, 2, 3, BreakChars)
            && CommentHead(line, 2, 3) == ("x", "# abc" + " ")
            && ContinuationStep("# abc" + " ", Indent(line) + 4, 3) == (Spaces(4) + "# # abc", [])
  {
    var line := "x " + ("# abc" + " ");
    NegativeRoomParts();
    NegativeRoomHead();
    NegativeRoomStep();
    assert Indent(line) + 4 == 4;
  }

  lemma NegativeRoomHead()
    ensures var line := "x " + ("# abc" + " ");
            && CommentHead(line, 2, 3) == ("x", "# abc" + " ")
            && !CommentTerminates(line, 2, 3, BreakChars)
  {
    var comment := "# abc" + " ";
    var line := "x " + comment;
    NegativeRoomParts();
    assert CommentHead(line, 2, 3) == ("x", comment);
    assert !CommentFits(line, 2, 3);
  }

  lemma NegativeRoomParts()
    ensures var line := "x " + ("# abc" + " ");
            && FirstHash(line) == Some(2)
            && CodePart(line, 2) == "x"
            && CommentPart(line, 2) == "# abc" + " "
            && Indent(line) == 0
  {
    var comment := "# abc" + " ";
    var line := "x " + comment;
    assert line[..2] == "x " && line[2..] == comment;
    FirstHashAt(line, 2);
    assert RStrip("x ") == "x" by {
      RStripVisibleEnd("x");
    }
  }

  lemma NegativeRoomStep()
    ensures ContinuationStep("# abc" + " ", 4, 3) == (Spaces(4) + "# # abc", [])
  {
    var text := "# " + ("# abc" + " ");
    assert CommentBreak(text, -1) == -1;
    assert Take(text, -1) == "# # abc";
    RStripVisibleEnd("# # abc");
    assert Drop(text, -1) == Spaces(1) + [];
    LStripAfterSpaces(1, []);
  }

  /** A comment that starts with `#` starts its first continuation line
      with `"# #"`. */
  lemma FirstContinuationDoubleHash(comment: string, ci: nat, w: int)
    requires w - ci >= 3 && comment != [] && comment[0] == '#'
    ensures var ls := ContinuationLines(comment, ci, w);
            |ls| >= 1 && ci + 3 <= |ls[0]| && ls[0][..ci + 3] == Spaces(ci) + "# #"
  {
    var text := "# " + comment;
    if |text| <= w - ci {
      assert ContinuationLines(comment, ci, w)[0] == Spaces(ci) + text;
    } else {
      StepDoubleHash(comment, ci, w);
    }
  }

  lemma StepDoubleHash(comment: string, ci: nat, w: int)
    requires w - ci >= 3 && |"# " + comment| > w - ci && comment[0] == '#'
    ensures var l := ContinuationStep(comment, ci, w).0;
            ci + 3 <= |l| && l[..ci + 3] == Spaces(ci) + "# #"
  {
    var text := "# " + comment;
    var bp := CommentBreak(text, w - ci);
    var cut := if bp > 2 then bp else w - ci;
    assert Take(text, cut) == text[..cut];
    StripKeepsPrefix(text[..cut], 2, 2);
    var piece := RStrip(text[..cut]);
    assert piece[..3] == "# #";
    var l := Spaces(ci) + piece;
    assert l[..ci + 3] == Spaces(ci) + piece[..3];
  }

  /** In the branches that put the code alone on the first line, the comment
      keeps its own `#`, so the first continuation reads `"# #..."`. */
  lemma CodeAloneDoubleHash(line: string, k: nat, w: int, breaks: seq<string>)
    requires ValidBreaks(breaks) && k < |line| && line[k] == '#'
    requires CodePart(line, k) != [] && |CodePart(line, k)| <= w && !CommentFits(line, k, w)
    requires w - (Indent(line) + 4) >= 3
    requires var available := w - |CodePart(line, k)| - 1;
             available <= 10 || CommentBreak(CommentPart(line, k), available) <= 0
    ensures var r := WrapComment(line, k, w, breaks);
            var ci := Indent(line) + 4;
            |r| >= 2 && r[0] == CodePart(line, k) && ci + 3 <= |r[1]| && r[1][..ci + 3] == Spaces(ci) + "# #"
  {
    var code := CodePart(line, k);
    var comment := CommentPart(line, k);
    var ci := Indent(line) + 4;
    assert CommentHead(line, k, w) == (code, comment);
    assert comment[0] == line[k];
    FirstContinuationDoubleHash(comment, ci, w);
    assert WrapComment(line, k, w, breaks) == [code] + ContinuationLines(comment, ci, w);
  }

  // ---------------------------------------------------------------------
  // The dispatcher

  /** `wrap_line`: a line that fits comes back unchanged; otherwise at least
      one line comes out, each within the width, with the visible text
      (whitespace and `#` aside) unchanged and in order; a line without `#`
      keeps its visible characters exactly. */
  lemma WrapLineCorrect(line: string, w: int, breaks: seq<string>)
    requires ValidBreaks(breaks) && WrapTerminates(line, w, breaks)
    ensures var r := WrapLineSpec(line, w, breaks);
            && (|line| <= w ==> r == [line])
            && |r| >= 1
            && (forall i :: 0 <= i < |r| ==> |r[i]| <= w)
            && Visible(Concat(r)) == Visible(line)
            && ('#' !in line ==> NonSpace(Concat(r)) == NonSpace(line))
  {
    var r := WrapLineSpec(line, w, breaks);
    if |line| <= w {
      ConcatSingle(line);
    } else {
      match FirstHash(line)
      case Some(k) =>
        WrapCommentCorrect(line, k, w, breaks);
      case None =>
        WrapPlainCorrect(line, w, breaks);
    }
  }
}
