/** What the line wrapper of `CodeFormatter` (src/prettipy/formatter.py)
    computes, stated as functions: each loop of the source becomes a recursive
    function over its loop state. Module `Formatter` holds the loops
    themselves, each proved to compute its function here, and module
    `FormatterProofs` the properties the wrapper promises. */
module FormatterSpec {
  import opened Wrappers
  import opened PyStr

  /** The break strings `CodeFormatter.__init__` installs, in its order. */
  const BreakChars: seq<string> :=
    [", ", " + ", " - ", " * ", " / ", " = ", " and ", " or ", " if ", " else ", " (", " ["]

  /** Every break string holds a character that is not whitespace, so a break
      always moves some visible text to the emitted line. */
  predicate ValidBreaks(breaks: seq<string>) {
    forall i :: 0 <= i < |breaks| ==> !IsBlank(breaks[i])
  }

  lemma BreakCharsValid()
    ensures ValidBreaks(BreakChars)
  {
    forall i | 0 <= i < |BreakChars|
      ensures !IsBlank(BreakChars[i])
    {
      var c := BreakChars[i];
      if i == 0 {
        assert !IsSpace(c[0]);
      } else {
        assert !IsSpace(c[1]);
      }
    }
  }

  // ---------------------------------------------------------------------
  // Searching

  /** Index of the first `#` in the line: where `re.search(r"#.*", line)`
      matches, since a line holds no newline. */
  function FirstHash(s: string): (r: Option<nat>)
    ensures r.None? <==> '#' !in s
    ensures r.Some? ==> r.value < |s| && s[r.value] == '#' && '#' !in s[..r.value]
  {
    if s == [] then None
    else if s[0] == '#' then Some(0)
    else
      match FirstHash(s[1..])
      case None => None
      case Some(k) =>
        assert s[..k + 1] == [s[0]] + s[1..][..k];
        Some(k + 1)
  }

  predicate OccursAt(s: string, sub: string, p: int) {
    0 <= p && p + |sub| <= |s| && s[p..p + |sub|] == sub
  }

  /** The largest position `<= p` where `sub` occurs, or -1. */
  function RFindFrom(s: string, sub: string, p: int): (r: int)
    ensures r == -1 || (0 <= r <= p && OccursAt(s, sub, r))
    ensures forall q :: r < q <= p ==> !OccursAt(s, sub, q)
    decreases p + 1
  {
    if p < 0 then -1
    else if OccursAt(s, sub, p) then p
    else RFindFrom(s, sub, p - 1)
  }

  /** `s.rfind(sub, 0, end)`: the last occurrence of `sub` lying wholly
      inside `s[0:end]`, or -1. */
  function RFind(s: string, sub: string, end: int): (r: int)
    ensures r == -1 || (OccursAt(s, sub, r) && r + |sub| <= SliceIndex(|s|, end))
    ensures forall q :: r < q && q + |sub| <= SliceIndex(|s|, end) ==> !OccursAt(s, sub, q)
  {
    RFindFrom(s, sub, SliceIndex(|s|, end) - |sub|)
  }

  /** Break string `c` is one that `_find_break_point` may take: it occurs in
      `line[0:w]`, its last occurrence there starts after `minPos`, and it
      ends within `w`. */
  predicate Qualifies(line: string, minPos: int, w: int, c: string) {
    var pos := RFind(line, c, w);
    pos >= 0 && pos > minPos && pos + |c| <= w
  }

  /** One round of the loop in `_find_break_point`. The new position is
      compared with the previous best END, as the source does. */
  function BreakStep(line: string, minPos: int, w: int, c: string, best: int): int {
    var pos := RFind(line, c, w);
    if pos > best && pos > minPos && pos + |c| <= w then pos + |c| else best
  }

  /** `best_break` after the loop of `_find_break_point` has seen the first
      `n` break strings. */
  function BreakPointAfter(line: string, minPos: int, w: int, breaks: seq<string>, n: nat): (best: int)
    requires n <= |breaks|
    ensures best == -1 || minPos < best <= w
  {
    if n == 0 then -1
    else BreakStep(line, minPos, w, breaks[n - 1], BreakPointAfter(line, minPos, w, breaks, n - 1))
  }

  /** The loop of `_find_break_point` finds nothing exactly when no break
      string qualifies, and otherwise returns the end of the last occurrence
      of one that does. */
  lemma {:induction false} BreakPointAfterMeaning(line: string, minPos: int, w: int, breaks: seq<string>, n: nat)
    requires n <= |breaks|
    ensures var best := BreakPointAfter(line, minPos, w, breaks, n);
            && (best == -1 <==> forall i :: 0 <= i < n ==> !Qualifies(line, minPos, w, breaks[i]))
            && (best != -1 ==>
                  exists i :: 0 <= i < n && Qualifies(line, minPos, w, breaks[i])
                              && best == RFind(line, breaks[i], w) + |breaks[i]|)
  {
    if n > 0 {
      BreakPointAfterMeaning(line, minPos, w, breaks, n - 1);
      var prev := BreakPointAfter(line, minPos, w, breaks, n - 1);
      var best := BreakPointAfter(line, minPos, w, breaks, n);
      assert best != prev ==> Qualifies(line, minPos, w, breaks[n - 1]);
      if best != -1 && best == prev {
        var i :| 0 <= i < n - 1 && Qualifies(line, minPos, w, breaks[i])
                 && best == RFind(line, breaks[i], w) + |breaks[i]|;
        assert 0 <= i < n;
      }
    }
  }

  /** The result of `_find_break_point(line, minPos)`. */
  function BreakPoint(line: string, minPos: int, w: int, breaks: seq<string>): int {
    BreakPointAfter(line, minPos, w, breaks, |breaks|)
  }

  /** The largest `i` in `1..n` with `text[i-1] == ' '`, or -1. */
  function LastSpaceEnd(text: string, n: int): (r: int)
    requires n <= |text|
    ensures r == -1 || (1 <= r <= n && text[r - 1] == ' ')
    decreases n
  {
    if n <= 0 then -1
    else if text[n - 1] == ' ' then n
    else LastSpaceEnd(text, n - 1)
  }

  /** No space lies after the one `LastSpaceEnd` finds. */
  lemma {:induction false} LastSpaceEndIsLast(text: string, n: int)
    requires n <= |text|
    ensures forall j :: LastSpaceEnd(text, n) <= j < n && 0 <= j ==> text[j] != ' '
    decreases n
  {
    if n > 0 && text[n - 1] != ' ' {
      LastSpaceEndIsLast(text, n - 1);
    }
  }

  /** The result of `_find_comment_break(text, maxLen)`. */
  function CommentBreak(text: string, maxLen: int): (r: int)
    ensures r == -1 || 1 <= r <= |text|
    ensures text == [] || maxLen <= 0 ==> r == -1
    ensures text != [] && 0 < maxLen && |text| <= maxLen ==> r == |text|
    ensures 0 < maxLen < |text| ==> r == -1 || (r <= maxLen && text[r - 1] == ' ')
  {
    if text == [] || maxLen <= 0 then -1
    else if |text| <= maxLen then |text|
    else LastSpaceEnd(text, maxLen)
  }

  /** When the text does not fit, no space lies between the break and `maxLen`. */
  lemma CommentBreakIsLast(text: string, maxLen: int)
    requires 0 < maxLen < |text|
    ensures forall j :: CommentBreak(text, maxLen) <= j < maxLen && 0 <= j ==> text[j] != ' '
  {
    LastSpaceEndIsLast(text, maxLen);
  }

  // ---------------------------------------------------------------------
  // Plain wrapping (`_wrap_plain_line`)

  /** The inputs on which the loop of `_wrap_plain_line` stops: the line
      fits, or one round from `line` makes progress (see `RoundProgresses`).
      On every other line the loop runs forever (see `PlainDiverges`). */
  predicate PlainTerminates(line: string, w: int, breaks: seq<string>) {
    |line| <= w || RoundProgresses(line, Indent(line), w, breaks)
  }

  /** A round of the plain loop on `current` makes progress: there is room
      after the continuation indent, or the continuation indent fills the
      width exactly and the cut leaves only whitespace, so that the next
      state is the bare indent, which fits. */
  predicate RoundProgresses(current: string, indent: nat, w: int, breaks: seq<string>) {
    w > indent + 4 || (w == indent + 4 && LeavesBlank(current, indent, w, breaks))
  }

  /** The cut of this round leaves only whitespace after it. */
  predicate LeavesBlank(current: string, indent: nat, w: int, breaks: seq<string>) {
    var b := PlainCut(current, indent, w, breaks);
    0 <= b <= |current| && LStrip(current[b..]) == []
  }

  /** Where one round of the loop cuts `current`: the break point, or exactly
      `w` when there is none after the indentation. */
  function PlainCut(current: string, indent: nat, w: int, breaks: seq<string>): int {
    var bp := BreakPoint(current, indent, w, breaks);
    if bp == -1 || bp <= indent then w else bp
  }

  /** What the loop continues with after cutting at `b`. */
  function PlainRest(current: string, b: nat, indent: nat): string
    requires b <= |current|
  {
    Spaces(indent + 4) + LStrip(current[b..])
  }

  /** One round of the plain loop cuts after the indentation and within `w`,
      leaves fewer visible characters to do, and keeps the indentation; when
      the width leaves no room after the continuation indent the next state
      is that indent alone. */
  lemma {:induction false} PlainCutProgress(current: string, indent: nat, w: int, breaks: seq<string>)
    requires ValidBreaks(breaks) && RoundProgresses(current, indent, w, breaks)
    requires Indent(current) <= indent + 4 && |current| > w
    ensures var b := PlainCut(current, indent, w, breaks);
            indent < b <= w
            && |NonSpace(PlainRest(current, b, indent))| < |NonSpace(current)|
            && Indent(PlainRest(current, b, indent)) <= indent + 4
            && (w <= indent + 4 ==> PlainRest(current, b, indent) == Spaces(indent + 4))
  {
    var b := PlainCut(current, indent, w, breaks);
    var q := VisibleBeforeCut(current, indent, w, breaks);
    CutDropsVisible(current, b, q, indent);
  }

  /** Some visible character lies before the cut: the hard break at `w` lies
      past the indentation, and a break string holds a visible character;
      when the cut leaves only whitespace, every visible character lies
      before it. */
  lemma VisibleBeforeCut(current: string, indent: nat, w: int, breaks: seq<string>) returns (q: nat)
    requires ValidBreaks(breaks) && RoundProgresses(current, indent, w, breaks)
    requires Indent(current) <= indent + 4 && |current| > w
    ensures var b := PlainCut(current, indent, w, breaks);
            indent < b <= w && q < b && !IsSpace(current[q])
  {
    var b := PlainCut(current, indent, w, breaks);
    var bp := BreakPoint(current, indent, w, breaks);
    if w <= indent + 4 {
      q := Indent(current);
      if b <= q {
        BlankAfterCut(current, b, q);
      }
    } else if bp == -1 {
      q := Indent(current);
    } else {
      BreakPointAfterMeaning(current, indent, w, breaks, |breaks|);
      var i :| 0 <= i < |breaks| && Qualifies(current, indent, w, breaks[i])
                && bp == RFind(current, breaks[i], w) + |breaks[i]|;
      q := VisibleInOccurrence(current, breaks[i], RFind(current, breaks[i], w));
    }
  }

  /** What follows a cut that leaves only whitespace is whitespace. */
  lemma BlankAfterCut(s: string, b: nat, q: nat)
    requires b <= q < |s| && LStrip(s[b..]) == []
    ensures IsSpace(s[q])
  {
    var t := s[b..];
    LStripEmpty(t);
    assert t[q - b] == s[q];
  }

  lemma LStripEmpty(t: string)
    requires LStrip(t) == []
    ensures IsBlank(t)
  {
    LStripDropsBlank(t);
    assert t[..|t|] == t;
  }

  /** An occurrence of a string that is not blank holds a visible character. */
  lemma VisibleInOccurrence(s: string, c: string, pos: int) returns (q: nat)
    requires OccursAt(s, c, pos) && !IsBlank(c)
    ensures pos <= q < pos + |c| && !IsSpace(s[q])
  {
    var m :| 0 <= m < |c| && !IsSpace(c[m]);
    var window := s[pos..pos + |c|];
    assert window[m] == s[pos + m];
    q := pos + m;
  }

  lemma CutDropsVisible(current: string, b: nat, q: nat, indent: nat)
    requires q < b <= |current| && !IsSpace(current[q])
    ensures |NonSpace(PlainRest(current, b, indent))| < |NonSpace(current)|
    ensures Indent(PlainRest(current, b, indent)) == indent + 4
  {
    var pre, post := current[..b], current[b..];
    assert current == pre + post;
    NonSpaceAppend(pre, post);
    NonSpaceHas(pre, q);
    NonSpaceAppend(Spaces(indent + 4), LStrip(post));
    NonSpaceBlank(Spaces(indent + 4));
    NonSpaceLStrip(post);
    SpacesThenStripped(indent + 4, LStrip(post));
  }

  /** `Spaces(n) + s`, where `s` starts with no whitespace, is indented by
      exactly `n`. */
  lemma SpacesThenStripped(n: nat, s: string)
    requires s == [] || !IsSpace(s[0])
    ensures Indent(Spaces(n) + s) == n
  {
    var t := Spaces(n) + s;
    LStripDropsBlank(t);
    assert t[..n] == Spaces(n);
    assert n < |t| ==> t[n] == s[0];
  }

  /** The lines `_wrap_plain_line` appends from the loop state `current` on:
      one line per round, then the rest when it is not blank. */
  function PlainLines(current: string, indent: nat, w: int, breaks: seq<string>): seq<string>
    requires ValidBreaks(breaks)
    requires |current| <= w || (RoundProgresses(current, indent, w, breaks) && Indent(current) <= indent + 4)
    decreases |NonSpace(current)|
  {
    if |current| <= w then (if IsBlank(current) then [] else [current])
    else
      var b := PlainCut(current, indent, w, breaks);
      PlainCutProgress(current, indent, w, breaks);
      [RStrip(current[..b])] + PlainLines(PlainRest(current, b, indent), indent, w, breaks)
  }

  /** The result of `_wrap_plain_line(line)`. */
  function WrapPlain(line: string, w: int, breaks: seq<string>): (r: seq<string>)
    requires ValidBreaks(breaks) && PlainTerminates(line, w, breaks)
    ensures |r| >= 1
  {
    var lines := PlainLines(line, Indent(line), w, breaks);
    if lines == [] then [line] else lines
  }

  // ---------------------------------------------------------------------
  // Comment-aware wrapping (`_wrap_line_with_comment`)

  /** The text of `s` with whitespace and `#` characters dropped: what the
      comment path must not lose, since it re-indents and re-inserts `"# "`.
      It also drops one `#` of the comment's own text at a break (the
      `DropHash` of each round), where the inserted prefix takes its place:
      `"x = 1  # see #1234567 for details"` at width 18 becomes `"x = 1 # see"`,
      `"    # 1234567 for"`, `"    # details"`. This measure cannot tell that
      `#` from the prefix, and is meant not to. */
  function Visible(s: string): string {
    RemoveHash(NonSpace(s))
  }

  function RemoveHash(s: string): string {
    if s == [] then [] else (if s[0] == '#' then [] else [s[0]]) + RemoveHash(s[1..])
  }

  /** `code_part`: the text before the `#` at `k`, right-trimmed. */
  function CodePart(line: string, k: nat): string
    requires k <= |line|
  {
    RStrip(line[..k])
  }

  /** `comment_part`: the text from the `#` at `k` on. */
  function CommentPart(line: string, k: nat): string
    requires k <= |line|
  {
    line[k..]
  }

  /** Whether `code_part + " " + comment_part` fits in `w`. */
  predicate CommentFits(line: string, k: nat, w: int)
    requires k <= |line|
  {
    |CodePart(line, k)| + 1 + |CommentPart(line, k)| <= w
  }

  /** The inputs on which `_wrap_line_with_comment` is known to stop with
      every line within the width: the comment fits beside the code; or
      the continuation loop has at least three columns after the
      continuation indent (with one or two the same `remaining` can come
      back, see `ContinuationRepeats`); or the first line leaves no comment
      text, so that the loop does not run, and that first line is cut within
      a positive width. When the code does not fit, the plain fallback
      decides. */
  predicate CommentTerminates(line: string, k: nat, w: int, breaks: seq<string>)
    requires k <= |line|
  {
    if |CodePart(line, k)| <= w then
      CommentFits(line, k, w) || w - (Indent(line) + 4) >= 3
      || (CommentHead(line, k, w).1 == [] && (CodePart(line, k) != [] || w > Indent(line)))
    else PlainTerminates(line, w, breaks)
  }

  /** A leading `#` is removed, with the whitespace after it, because every
      continuation line puts `"# "` back. */
  function DropHash(s: string): (r: string)
    ensures |r| <= |s|
  {
    if |s| > 0 && s[0] == '#' then LStrip(s[1..]) else s
  }

  /** One round of the loop of `_wrap_line_with_comment` on a `remaining`
      that does not fit: the emitted line and the next `remaining`. The cut is
      the word boundary when one lies after the `"# "`, else exactly the
      available width (a Python slice bound, so it may be negative). */
  function ContinuationStep(remaining: string, ci: nat, w: int): (string, string) {
    var text := "# " + remaining;
    var avail := w - ci;
    var bp := CommentBreak(text, avail);
    var cut := if bp > 2 then bp else avail;
    (Spaces(ci) + RStrip(Take(text, cut)), DropHash(LStrip(Drop(text, cut))))
  }

  /** The lines the loop of `_wrap_line_with_comment` emits for the comment
      text `remaining`, at continuation indent `ci`. */
  function ContinuationLines(remaining: string, ci: nat, w: int): seq<string>
    requires remaining == [] || w - ci >= 3
    decreases |remaining|
  {
    if remaining == [] then []
    else if |"# " + remaining| <= w - ci then [Spaces(ci) + "# " + remaining]
    else
      var step := ContinuationStep(remaining, ci, w);
      StepShortens(remaining, ci, w);
      [step.0] + ContinuationLines(step.1, ci, w)
  }

  /** With at least three columns, a round leaves less comment text. */
  lemma StepShortens(remaining: string, ci: nat, w: int)
    requires w - ci >= 3 && |"# " + remaining| > w - ci
    ensures |ContinuationStep(remaining, ci, w).1| < |remaining|
  {
    var text := "# " + remaining;
    var bp := CommentBreak(text, w - ci);
    var cut := if bp > 2 then bp else w - ci;
    assert 3 <= cut <= |text|;
    assert |Drop(text, cut)| == |text| - cut;
  }

  /** The first output line of `_wrap_line_with_comment` when the comment
      must be wrapped, with the comment text the loop continues with. */
  function CommentHead(line: string, k: nat, w: int): (string, string)
    requires k <= |line|
  {
    var code := CodePart(line, k);
    var comment := CommentPart(line, k);
    if code != [] then
      var available := w - |code| - 1;
      if available > 10 then
        var bp := CommentBreak(comment, available);
        if bp > 0 then (code + " " + RStrip(comment[..bp]), DropHash(LStrip(comment[bp..])))
        else (code, comment)
      else (code, comment)
    else
      var indent := Indent(line);
      var available := w - indent;
      var bp := CommentBreak(comment, available);
      if bp > 0 then (Spaces(indent) + RStrip(comment[..bp]), DropHash(LStrip(comment[bp..])))
      else (Spaces(indent) + RStrip(Take(comment, available)), DropHash(LStrip(Drop(comment, available))))
  }

  /** The result of `_wrap_line_with_comment(line, m)` where `m` matched at `k`. */
  function WrapComment(line: string, k: nat, w: int, breaks: seq<string>): (r: seq<string>)
    requires ValidBreaks(breaks) && k <= |line| && CommentTerminates(line, k, w, breaks)
    ensures |r| >= 1
  {
    var code := CodePart(line, k);
    var comment := CommentPart(line, k);
    if |code| <= w then
      if CommentFits(line, k, w) then [if code != [] then code + " " + comment else comment]
      else
        var head := CommentHead(line, k, w);
        [head.0] + ContinuationLines(head.1, Indent(line) + 4, w)
    else WrapPlain(line, w, breaks)
  }

  // ---------------------------------------------------------------------
  // The dispatcher (`wrap_line`)

  /** The inputs on which `wrap_line` is known to stop within the width. */
  predicate WrapTerminates(line: string, w: int, breaks: seq<string>) {
    |line| <= w ||
    match FirstHash(line)
    case Some(k) => CommentTerminates(line, k, w, breaks)
    case None => PlainTerminates(line, w, breaks)
  }

  /** The result of `wrap_line(line)`. */
  function WrapLineSpec(line: string, w: int, breaks: seq<string>): (r: seq<string>)
    requires ValidBreaks(breaks) && WrapTerminates(line, w, breaks)
    ensures |r| >= 1
  {
    if |line| <= w then [line]
    else
      match FirstHash(line)
      case Some(k) => WrapComment(line, k, w, breaks)
      case None => WrapPlain(line, w, breaks)
  }
}
