/** The Python `str` operations that the formatter and the highlighter rely on,
    written out over `seq<char>`: whitespace, stripping, slicing with Python's
    clamped bounds, `split` on one character and `join`. */
module PyStr {

  /** `c.isspace()`: the characters that `strip`, `lstrip` and `rstrip`
      remove when called without arguments. */
  predicate IsSpace(c: char) {
    ('\t' <= c <= '\r') || ('\U{1C}' <= c <= ' ')
    || (c >= '\U{85}' && OneOf(c, "\U{85}\U{A0}\U{1680}\U{2000}\U{2001}\U{2002}\U{2003}\U{2004}\U{2005}\U{2006}\U{2007}\U{2008}\U{2009}\U{200A}\U{2028}\U{2029}\U{202F}\U{205F}\U{3000}"))
  }

  /** Whether `c` is one of the characters of `s`. */
  predicate OneOf(c: char, s: string) {
    s != [] && (s[0] == c || OneOf(c, s[1..]))
  }

  /** `not s.strip()`: the string is empty or all whitespace. */
  predicate IsBlank(s: string) {
    forall i :: 0 <= i < |s| ==> IsSpace(s[i])
  }

  /** `s.lstrip()`: a suffix of `s` that starts with no whitespace (what it
      drops is whitespace, see `LStripDropsBlank`). */
  function LStrip(s: string): (r: string)
    ensures |r| <= |s| && r == s[|s| - |r|..]
    ensures r == [] || !IsSpace(r[0])
  {
    if s == [] || !IsSpace(s[0]) then s else LStrip(s[1..])
  }

  /** `s.rstrip()`: a prefix of `s` that ends with no whitespace (what it
      drops is whitespace, see `RStripDropsBlank`). */
  function RStrip(s: string): (r: string)
    ensures |r| <= |s| && r == s[..|r|]
    ensures r == [] || !IsSpace(r[|r| - 1])
  {
    if s == [] || !IsSpace(s[|s| - 1]) then s else RStrip(s[..|s| - 1])
  }

  /** `lstrip` removes only whitespace. */
  lemma {:induction false} LStripDropsBlank(s: string)
    ensures IsBlank(s[..|s| - |LStrip(s)|])
  {
    if s != [] && IsSpace(s[0]) {
      var r := LStrip(s[1..]);
      LStripDropsBlank(s[1..]);
      assert s[..|s| - |r|] == [s[0]] + s[1..][..|s| - 1 - |r|];
    }
  }

  /** `rstrip` removes only whitespace. */
  lemma {:induction false} RStripDropsBlank(s: string)
    ensures IsBlank(s[|RStrip(s)|..])
  {
    if s != [] && IsSpace(s[|s| - 1]) {
      var r := RStrip(s[..|s| - 1]);
      RStripDropsBlank(s[..|s| - 1]);
      assert s[|r|..] == s[..|s| - 1][|r|..] + [s[|s| - 1]];
    }
  }

  /** `len(s) - len(s.lstrip())`: the number of leading whitespace characters. */
  function Indent(s: string): (n: nat)
    ensures n <= |s|
    ensures n == |s| || !IsSpace(s[n])
  {
    |s| - |LStrip(s)|
  }

  /** The indentation is whitespace. */
  lemma IndentBlank(s: string)
    ensures IsBlank(s[..Indent(s)])
  {
    LStripDropsBlank(s);
  }

  /** `" " * n` */
  function Spaces(n: nat): (r: string)
    ensures |r| == n && forall i :: 0 <= i < n ==> r[i] == ' '
  {
    seq(n, _ => ' ')
  }

  /** The position that Python's slice bound `i` denotes in a string of
      length `n`: negative bounds count from the end, and both ends clamp. */
  function SliceIndex(n: nat, i: int): (r: nat)
    ensures r <= n
    ensures 0 <= i <= n ==> r == i
  {
    if i < 0 then (if n + i < 0 then 0 else n + i)
    else if i > n then n
    else i
  }

  /** `s[:i]` */
  function Take(s: string, i: int): string {
    s[..SliceIndex(|s|, i)]
  }

  /** `s[i:]` */
  function Drop(s: string, i: int): string {
    s[SliceIndex(|s|, i)..]
  }

  /** The number of occurrences of `c` in `s`. */
  function Count(s: string, c: char): nat {
    if s == [] then 0 else (if s[0] == c then 1 else 0) + Count(s[1..], c)
  }

  /** `s.split(sep)` for a one-character separator. */
  function Split(s: string, sep: char): (r: seq<string>)
    ensures |r| == Count(s, sep) + 1
    ensures forall i :: 0 <= i < |r| ==> sep !in r[i]
  {
    if s == [] then [[]]
    else
      var rest := Split(s[1..], sep);
      if s[0] == sep then [[]] + rest else [[s[0]] + rest[0]] + rest[1..]
  }

  /** `sep.join(parts)` */
  function Join(sep: string, parts: seq<string>): string {
    if parts == [] then []
    else if |parts| == 1 then parts[0]
    else parts[0] + sep + Join(sep, parts[1..])
  }

  /** `"".join(parts)` */
  function Concat(parts: seq<string>): string {
    if parts == [] then [] else parts[0] + Concat(parts[1..])
  }

  /** The characters of `s` that are not whitespace, in order. */
  function NonSpace(s: string): string {
    if s == [] then []
    else (if IsSpace(s[0]) then [] else [s[0]]) + NonSpace(s[1..])
  }

  /** Joining the parts of a split with the separator gives the string back. */
  lemma {:induction false} JoinSplit(s: string, sep: char)
    ensures Join([sep], Split(s, sep)) == s
  {
    if s != [] {
      var rest := Split(s[1..], sep);
      JoinSplit(s[1..], sep);
      if s[0] == sep {
        assert Split(s, sep) == [[]] + rest;
      } else {
        var r := Split(s, sep);
        assert r == [[s[0]] + rest[0]] + rest[1..];
        if |rest| > 1 {
          assert r[1..] == rest[1..];
          assert Join([sep], rest) == rest[0] + [sep] + Join([sep], rest[1..]);
        }
      }
    }
  }

  /** Splitting a concatenation: the last piece of `a` is glued to the first
      piece of `b`. */
  lemma {:induction false} SplitAppend(a: string, b: string, sep: char)
    ensures Split(a + b, sep) == Glue(Split(a, sep), Split(b, sep))
  {
    var sb := Split(b, sep);
    if a == [] {
      assert a + b == b;
      assert [] + sb[0] == sb[0];
      assert sb == [sb[0]] + sb[1..];
    } else {
      assert (a + b)[1..] == a[1..] + b;
      SplitAppend(a[1..], b, sep);
      if a[0] == sep {
        GlueCons([], Split(a[1..], sep), sb);
      } else {
        GlueExtend(a[0], Split(a[1..], sep), sb);
      }
    }
  }

  /** The pieces of `a + b` from the pieces `pa` of `a` and `pb` of `b`. */
  function Glue(pa: seq<string>, pb: seq<string>): seq<string>
    requires |pa| > 0 && |pb| > 0
  {
    pa[..|pa| - 1] + [pa[|pa| - 1] + pb[0]] + pb[1..]
  }

  lemma GlueCons(x: string, pa: seq<string>, pb: seq<string>)
    requires |pa| > 0 && |pb| > 0
    ensures [x] + Glue(pa, pb) == Glue([x] + pa, pb)
  {
    assert ([x] + pa)[..|pa|] == [x] + pa[..|pa| - 1];
  }

  lemma GlueExtend(c: char, pa: seq<string>, pb: seq<string>)
    requires |pa| > 0 && |pb| > 0
    ensures var g := Glue(pa, pb);
            [[c] + g[0]] + g[1..] == Glue([[c] + pa[0]] + pa[1..], pb)
  {
    var g := Glue(pa, pb);
    var pa' := [[c] + pa[0]] + pa[1..];
    if |pa| == 1 {
      assert [c] + (pa[0] + pb[0]) == ([c] + pa[0]) + pb[0];
    } else {
      assert pa'[..|pa'| - 1] == [[c] + pa[0]] + pa[1..|pa| - 1];
    }
  }

  lemma {:induction false} ConcatAppend(a: seq<string>, b: seq<string>)
    ensures Concat(a + b) == Concat(a) + Concat(b)
  {
    if a != [] {
      assert (a + b)[1..] == a[1..] + b;
      ConcatAppend(a[1..], b);
    } else {
      assert a + b == b;
    }
  }

  lemma {:induction false} NonSpaceAppend(a: string, b: string)
    ensures NonSpace(a + b) == NonSpace(a) + NonSpace(b)
  {
    if a != [] {
      assert (a + b)[1..] == a[1..] + b;
      NonSpaceAppend(a[1..], b);
    } else {
      assert a + b == b;
    }
  }

  lemma {:induction false} NonSpaceBlank(s: string)
    requires IsBlank(s)
    ensures NonSpace(s) == []
  {
    if s != [] {
      NonSpaceBlank(s[1..]);
    }
  }

  /** Indentation carries no visible character. */
  lemma NonSpaceSpaces(n: nat)
    ensures NonSpace(Spaces(n)) == []
  {
    assert IsBlank(Spaces(n));
    NonSpaceBlank(Spaces(n));
  }

  /** A character that is not whitespace survives in `NonSpace`. */
  lemma {:induction false} NonSpaceHas(s: string, q: nat)
    requires q < |s| && !IsSpace(s[q])
    ensures |NonSpace(s)| > 0
  {
    if q > 0 {
      NonSpaceHas(s[1..], q - 1);
    }
  }

  lemma {:induction false} NonSpaceLStrip(s: string)
    ensures NonSpace(LStrip(s)) == NonSpace(s)
  {
    var r := LStrip(s);
    var pre := s[..|s| - |r|];
    LStripDropsBlank(s);
    assert s == pre + r;
    NonSpaceAppend(pre, r);
    NonSpaceBlank(pre);
    calc {
      NonSpace(s);
      NonSpace(pre + r);
      NonSpace(pre) + NonSpace(r);
    }
  }

  lemma {:induction false} NonSpaceRStrip(s: string)
    ensures NonSpace(RStrip(s)) == NonSpace(s)
  {
    var r := RStrip(s);
    var post := s[|r|..];
    RStripDropsBlank(s);
    assert s == r + post;
    NonSpaceAppend(r, post);
    NonSpaceBlank(post);
    calc {
      NonSpace(s);
      NonSpace(r + post);
      NonSpace(r) + NonSpace(post);
    }
  }
}
