/** `CodeFormatter` (src/prettipy/formatter.py): the line wrapper, with the
    loops of the source. Each method is proved to compute the function of
    `FormatterSpec` that describes it, and carries the properties proved in
    `FormatterProofs`. */
module Formatter {
  import opened Wrappers
  import opened PyStr
  import opened FormatterSpec
  import opened FormatterProofs

  class CodeFormatter {
    /** The width no output line may exceed. */
    const maxWidth: int
    /** The strings after which a long line may be broken, in the order they
        are tried. */
    const breakChars: seq<string>

    /** The break strings installed by the constructor each hold a visible
        character, which is what makes every round of the plain loop move
        text to the output. */
    ghost predicate Valid() {
      ValidBreaks(breakChars)
    }

    constructor(maxWidth: int := 90)
      ensures this.maxWidth == maxWidth && breakChars == BreakChars
      ensures Valid()
    {
      this.maxWidth := maxWidth;
      breakChars := BreakChars;
      BreakCharsValid();
    }

    /** `wrap_line`: a line that fits comes back alone; a line with a `#`
        goes to the comment path, any other to the plain path. */
    method WrapLine(line: string) returns (lines: seq<string>)
      requires Valid() && WrapTerminates(line, maxWidth, breakChars)
      ensures lines == WrapLineSpec(line, maxWidth, breakChars)
      ensures |line| <= maxWidth ==> lines == [line]
      ensures |lines| >= 1 && forall i :: 0 <= i < |lines| ==> |lines[i]| <= maxWidth
      ensures Visible(Concat(lines)) == Visible(line)
      ensures '#' !in line ==> NonSpace(Concat(lines)) == NonSpace(line)
    {
      WrapLineCorrect(line, maxWidth, breakChars);
      if |line| <= maxWidth {
        return [line];
      }
      match FirstHash(line)
      case Some(k) =>
        lines := WrapLineWithComment(line, k);
      case None =>
        lines := WrapPlainLine(line);
    }

    /** `_wrap_line_with_comment`, for the `#` found at `k`. */
    method WrapLineWithComment(line: string, k: nat) returns (lines: seq<string>)
      requires Valid() && k < |line| && line[k] == '#'
      requires CommentTerminates(line, k, maxWidth, breakChars)
      ensures lines == WrapComment(line, k, maxWidth, breakChars)
      ensures forall i :: 0 <= i < |lines| ==> |lines[i]| <= maxWidth
      ensures Visible(Concat(lines)) == Visible(line)
    {
      var w := maxWidth;
      WrapCommentCorrect(line, k, w, breakChars);
      var codePart := RStrip(line[..k]);
      var commentPart := line[k..];
      if |codePart| <= w {
        if |codePart + " " + commentPart| <= w {
          return [if codePart != [] then codePart + " " + commentPart else commentPart];
        }
        var indent := Indent(line);
        var head, remaining := CommentFirstLine(line, k, codePart, commentPart, indent);
        lines := ContinueComment([head], remaining, indent + 4);
        return;
      }
      lines := WrapPlainLine(line);
    }

    /** The part of `_wrap_line_with_comment` that emits the first line of a
        comment that must be wrapped, and the comment text left for the
        continuation loop. */
    method CommentFirstLine(line: string, k: nat, codePart: string, commentPart: string, indent: nat)
      returns (head: string, remaining: string)
      requires k <= |line| && codePart == CodePart(line, k) && commentPart == CommentPart(line, k)
      requires indent == Indent(line)
      ensures (head, remaining) == CommentHead(line, k, maxWidth)
    {
      var w := maxWidth;
      var baseIndent := Spaces(indent);
      remaining := commentPart;
      if codePart != [] {
        var available := w - |codePart| - 1;
        if available > 10 {
          var breakPos := FindCommentBreak(remaining, available);
          if breakPos > 0 {
            HeadCodeAndComment(line, k, w);
            head := codePart + " " + RStrip(remaining[..breakPos]);
            ghost var after := remaining[breakPos..];
            remaining := LStrip(remaining[breakPos..]);
            if |remaining| > 0 && remaining[0] == '#' {
              remaining := LStrip(remaining[1..]);
            }
            assert remaining == DropHash(LStrip(after));
          } else {
            HeadCodeOnly(line, k, w);
            head := codePart;
          }
        } else {
          HeadCodeOnly(line, k, w);
          head := codePart;
        }
      } else {
        var available := w - indent;
        var breakPos := FindCommentBreak(remaining, available);
        if breakPos > 0 {
          HeadCommentAtBreak(line, k, w);
          head := baseIndent + RStrip(remaining[..breakPos]);
          ghost var after := remaining[breakPos..];
          remaining := LStrip(remaining[breakPos..]);
          if |remaining| > 0 && remaining[0] == '#' {
            remaining := LStrip(remaining[1..]);
          }
          assert remaining == DropHash(LStrip(after));
        } else {
          HeadCommentAtWidth(line, k, w);
          head := baseIndent + RStrip(Take(remaining, available));
          ghost var after := Drop(remaining, available);
          remaining := LStrip(Drop(remaining, available));
          if |remaining| > 0 && remaining[0] == '#' {
            remaining := LStrip(remaining[1..]);
          }
          assert remaining == DropHash(LStrip(after));
        }
      }
    }

    /** The loop of `_wrap_line_with_comment` that emits the continuation
        lines of the comment text `remaining0` after `lines0`. */
    method ContinueComment(lines0: seq<string>, remaining0: string, continuationIndent: nat)
      returns (lines: seq<string>)
      requires remaining0 == [] || maxWidth - continuationIndent >= 3
      ensures lines == lines0 + ContinuationLines(remaining0, continuationIndent, maxWidth)
    {
      var w := maxWidth;
      lines := lines0;
      var remaining := remaining0;
      while remaining != []
        invariant lines + ContinuationLines(remaining, continuationIndent, w)
                  == lines0 + ContinuationLines(remaining0, continuationIndent, w)
        decreases |remaining|
      {
        var lineText := "# " + remaining;
        var available := w - continuationIndent;
        if |lineText| <= available {
          LastContinuation(remaining, continuationIndent, w);
          lines := lines + [Spaces(continuationIndent) + lineText];
          break;
        }
        StepShortens(remaining, continuationIndent, w);
        ghost var rest := ContinuationLines(ContinuationStep(remaining, continuationIndent, w).1, continuationIndent, w);
        var line, next := ContinuationRound(remaining, continuationIndent);
        AppendOne(lines, line, rest);
        lines := lines + [line];
        remaining := next;
      }
    }

    /** One round of the loop of `_wrap_line_with_comment`: the line it
        appends and the comment text it continues with. */
    method ContinuationRound(remaining: string, continuationIndent: nat) returns (line: string, next: string)
      ensures (line, next) == ContinuationStep(remaining, continuationIndent, maxWidth)
    {
      var lineText := "# " + remaining;
      var available := maxWidth - continuationIndent;
      var breakPos := FindCommentBreak(lineText, available);
      var cut := available;
      if breakPos > 2 {
        cut := breakPos;
      }
      StepAt(remaining, continuationIndent, maxWidth, breakPos, cut);
      line := Spaces(continuationIndent) + RStrip(Take(lineText, cut));
      next := LStrip(Drop(lineText, cut));
      if |next| > 0 && next[0] == '#' {
        next := LStrip(next[1..]);
      }
    }

    /** `_find_comment_break`: scans down from `maxLen` for a space. */
    method FindCommentBreak(text: string, maxLen: int) returns (r: int)
      ensures r == CommentBreak(text, maxLen)
    {
      if text == [] || maxLen <= 0 {
        return -1;
      }
      if |text| <= maxLen {
        return |text|;
      }
      var i := maxLen;
      while i > 0
        invariant 0 <= i <= maxLen
        invariant LastSpaceEnd(text, i) == LastSpaceEnd(text, maxLen)
      {
        if text[i - 1] == ' ' {
          return i;
        }
        i := i - 1;
      }
      return -1;
    }

    /** `_wrap_plain_line`: cuts at the best break point, or at the width,
        until the rest fits. */
    method WrapPlainLine(line: string) returns (lines: seq<string>)
      requires Valid() && PlainTerminates(line, maxWidth, breakChars)
      ensures lines == WrapPlain(line, maxWidth, breakChars)
      ensures |lines| >= 1 && forall i :: 0 <= i < |lines| ==> |lines[i]| <= maxWidth
      ensures forall i :: 1 <= i < |lines| ==> ContinuationIndented(lines[i], Indent(line) + 4)
      ensures NonSpace(Concat(lines)) == NonSpace(line)
    {
      var w, breaks := maxWidth, breakChars;
      WrapPlainCorrect(line, w, breaks);
      lines := [];
      var current := line;
      var indent := Indent(line);
      var continuationIndent := indent + 4;
      while |current| > w
        invariant |current| <= w || (RoundProgresses(current, indent, w, breaks) && Indent(current) <= indent + 4)
        invariant lines + PlainLines(current, indent, w, breaks) == PlainLines(line, indent, w, breaks)
        decreases |NonSpace(current)|
      {
        var bestBreak := FindBreakPoint(current, indent);
        if bestBreak == -1 || bestBreak <= indent {
          bestBreak := w;
        }
        PlainCutProgress(current, indent, w, breaks);
        ghost var rest := PlainLines(PlainRest(current, bestBreak, indent), indent, w, breaks);
        assert PlainLines(current, indent, w, breaks) == [RStrip(current[..bestBreak])] + rest;
        AppendOne(lines, RStrip(current[..bestBreak]), rest);
        lines := lines + [RStrip(current[..bestBreak])];
        current := Spaces(continuationIndent) + LStrip(current[bestBreak..]);
      }
      if !IsBlank(current) {
        lines := lines + [current];
      }
      if lines == [] {
        lines := [line];
      }
    }

    /** `_find_break_point`: tries every break string in order. */
    method FindBreakPoint(line: string, minPos: int) returns (best: int)
      ensures best == BreakPoint(line, minPos, maxWidth, breakChars)
      ensures best == -1 || minPos < best <= maxWidth
    {
      var w, breaks := maxWidth, breakChars;
      best := -1;
      for i := 0 to |breaks|
        invariant best == BreakPointAfter(line, minPos, w, breaks, i)
      {
        ghost var previous := best;
        var c := breaks[i];
        var pos := RFind(line, c, w);
        if pos > best && pos > minPos {
          var potentialBreak := pos + |c|;
          if potentialBreak <= w {
            best := potentialBreak;
          }
        }
        assert best == BreakStep(line, minPos, w, c, previous);
      }
    }
  }
}
