// The Python string builtins `md_to_post` relies on: `str.splitlines()`,
// `str.strip()` and `str.startswith()`, over the character classes Python 3
// uses for them.

module PyText {
  import opened Sequences

  /** Characters `str.splitlines()` treats as line boundaries. */
  predicate IsLineBreak(c: char) {
    c == '\n' || c == '\r' || c == '\U{0B}' || c == '\U{0C}'
    || c == '\U{1C}' || c == '\U{1D}' || c == '\U{1E}'
    || c == '\U{85}' || c == '\U{2028}' || c == '\U{2029}'
  }

  /** Characters `str.isspace()` accepts, which `str.strip()` removes. */
  predicate IsSpace(c: char) {
    ('\t' <= c <= '\r') || ('\U{1C}' <= c <= ' ') || c == '\U{85}' || c == '\U{A0}'
    || c == '\U{1680}' || ('\U{2000}' <= c <= '\U{200A}')
    || c == '\U{2028}' || c == '\U{2029}' || c == '\U{202F}' || c == '\U{205F}'
    || c == '\U{3000}'
  }

  /** Index of the first line boundary in `s`, or `|s|` when there is none. */
  function LineEnd(s: string): (k: nat)
    ensures k <= |s|
    ensures forall i :: 0 <= i < k ==> !IsLineBreak(s[i])
    ensures k < |s| ==> IsLineBreak(s[k])
  {
    if s == [] || IsLineBreak(s[0]) then 0 else 1 + LineEnd(s[1..])
  }

  /** `s.splitlines()`: the lines of `s` without their boundaries; `"\r\n"`
      is one boundary, and a boundary at the very end opens no new line. */
  function SplitLines(s: string): (lines: seq<string>)
    ensures forall i, k :: 0 <= i < |lines| && 0 <= k < |lines[i]| ==> !IsLineBreak(lines[i][k])
    ensures s == [] <==> lines == []
    decreases |s|
  {
    if s == [] then []
    else
      var k := LineEnd(s);
      if k == |s| then [s]
      else
        var next := if s[k] == '\r' && k + 1 < |s| && s[k + 1] == '\n' then k + 2 else k + 1;
        [s[..k]] + SplitLines(s[next..])
  }

  /** `s` without its line-boundary characters. */
  function Unbroken(s: string): string
  {
    if s == [] then [] else (if IsLineBreak(s[0]) then [] else [s[0]]) + Unbroken(s[1..])
  }

  /** The number of line boundaries in `s`, `"\r\n"` counting as one. */
  function Boundaries(s: string): nat
    decreases |s|
  {
    if s == [] then 0
    else if s[0] == '\r' && |s| > 1 && s[1] == '\n' then 1 + Boundaries(s[2..])
    else if IsLineBreak(s[0]) then 1 + Boundaries(s[1..])
    else Boundaries(s[1..])
  }

  /** A prefix free of boundaries is kept whole and counts no boundary. */
  lemma {:induction false} SkipLine(s: string, k: nat)
    requires k <= |s|
    requires forall i :: 0 <= i < k ==> !IsLineBreak(s[i])
    ensures Unbroken(s) == s[..k] + Unbroken(s[k..])
    ensures Boundaries(s) == Boundaries(s[k..])
    decreases k
  {
    if k > 0 {
      SkipLine(s[1..], k - 1);
      assert s[1..][k - 1..] == s[k..];
      assert s[..k] == [s[0]] + s[1..][..k - 1];
    }
  }

  /** One boundary at the start of `t`, one or two characters long, counts
      once and is dropped. */
  lemma BoundaryStep(t: string, width: nat)
    requires t != [] && IsLineBreak(t[0])
    requires width == if t[0] == '\r' && |t| > 1 && t[1] == '\n' then 2 else 1
    ensures width <= |t|
    ensures Unbroken(t) == Unbroken(t[width..])
    ensures Boundaries(t) == 1 + Boundaries(t[width..])
    ensures t[width..] == [] ==> IsLineBreak(t[|t| - 1])
  {
    if width == 2 {
      assert t[1..][0] == '\n' && t[1..][1..] == t[2..];
    }
  }

  /** `splitlines` drops exactly the boundaries: the lines, laid end to end,
      are `s` without its boundary characters, and there is one line per
      boundary plus one for any text after the last boundary. */
  lemma {:induction false} SplitLinesSpec(s: string)
    ensures Concat(SplitLines(s)) == Unbroken(s)
    ensures |SplitLines(s)| == Boundaries(s) + (if s != [] && !IsLineBreak(s[|s| - 1]) then 1 else 0)
    decreases |s|
  {
    if s != [] {
      var k := LineEnd(s);
      var lines := SplitLines(s);
      SkipLine(s, k);
      assert Concat(lines) == lines[0] + Concat(lines[1..]);
      if k == |s| {
        assert lines == [s] && lines[1..] == [];
        assert s[..k] == s && s[k..] == [];
      } else {
        var t := s[k..];
        var width := if t[0] == '\r' && |t| > 1 && t[1] == '\n' then 2 else 1;
        BoundaryStep(t, width);
        var r := t[width..];
        assert r == s[k + width..];
        assert lines == [s[..k]] + SplitLines(r);
        SplitLinesSpec(r);
        assert lines[1..] == SplitLines(r);
        if r != [] {
          assert r[|r| - 1] == s[|s| - 1];
        } else {
          assert t[|t| - 1] == s[|s| - 1];
        }
      }
    }
  }

  /** Number of whitespace characters at the start of `s`. */
  function LeadingSpaces(s: string): (n: nat)
    ensures n <= |s|
    ensures forall i :: 0 <= i < n ==> IsSpace(s[i])
    ensures n < |s| ==> !IsSpace(s[n])
  {
    if s == [] || !IsSpace(s[0]) then 0 else 1 + LeadingSpaces(s[1..])
  }

  /** Number of whitespace characters at the end of `s`. */
  function TrailingSpaces(s: string): (n: nat)
    ensures n <= |s|
    ensures forall i :: |s| - n <= i < |s| ==> IsSpace(s[i])
    ensures n < |s| ==> !IsSpace(s[|s| - n - 1])
  {
    if s == [] || !IsSpace(s[|s| - 1]) then 0 else 1 + TrailingSpaces(s[..|s| - 1])
  }

  /** `s.strip()`: `s` without its leading and trailing whitespace. It is a
      contiguous piece of `s` cut only at whitespace, starts and ends with
      non-whitespace, and is empty exactly when `s` is all whitespace. */
  function Strip(s: string): (r: string)
    ensures exists i, j :: (0 <= i <= j <= |s| && r == s[i..j]
      && (forall k :: 0 <= k < i ==> IsSpace(s[k]))
      && (forall k :: j <= k < |s| ==> IsSpace(s[k])))
    ensures r != [] ==> !IsSpace(r[0]) && !IsSpace(r[|r| - 1])
    ensures r == [] <==> forall k :: 0 <= k < |s| ==> IsSpace(s[k])
  {
    var i := LeadingSpaces(s);
    var t := s[i..];
    var n := TrailingSpaces(t);
    Trim(s, i, n);
    t[..|t| - n]
  }

  /** Cutting `i` whitespace characters off the front of `s`, then `n` off the
      back of what is left, leaves the slice `s[i..|s| - n]`, followed only by
      whitespace. It starts and ends with non-whitespace when the cuts
      stopped at non-whitespace, and it is empty exactly when `s` is all
      whitespace. */
  lemma Trim(s: string, i: nat, n: nat)
    requires i <= |s| && n <= |s| - i
    requires forall k :: 0 <= k < i ==> IsSpace(s[k])
    requires i < |s| ==> !IsSpace(s[i])
    requires forall k :: |s| - i - n <= k < |s| - i ==> IsSpace(s[i..][k])
    requires n < |s| - i ==> !IsSpace(s[i..][|s| - i - n - 1])
    ensures s[i..][..|s| - i - n] == s[i..|s| - n]
    ensures forall k :: |s| - n <= k < |s| ==> IsSpace(s[k])
    ensures i < |s| - n ==> !IsSpace(s[i]) && !IsSpace(s[|s| - n - 1])
    ensures i == |s| - n <==> forall k :: 0 <= k < |s| ==> IsSpace(s[k])
  {
    var t := s[i..];
    forall k | |s| - n <= k < |s| ensures IsSpace(s[k]) {
      assert s[k] == t[k - i];
    }
    if i < |s| - n {
      assert s[|s| - n - 1] == t[|t| - n - 1];
    }
  }

  predicate StartsWith(s: string, prefix: string) {
    |prefix| <= |s| && s[..|prefix|] == prefix
  }
}
