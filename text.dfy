/** Python string helpers used by the core: `str.strip()`, `"\n".join(...)`
    and `str.split("\n")`, over strings as sequences of Unicode characters. */
module Text {

  /** Python's `str.isspace()` for one character: the characters `str.strip()`
      removes when called without arguments. */
  predicate IsSpace(c: char) {
    ('\t' <= c <= '\r') || ('\U{1C}' <= c <= ' ') || c == '\U{85}' || c == '\U{A0}'
    || c == '\U{1680}' || ('\U{2000}' <= c <= '\U{200A}') || c == '\U{2028}' || c == '\U{2029}'
    || c == '\U{202F}' || c == '\U{205F}' || c == '\U{3000}'
  }

  predicate AllSpace(s: string) {
    forall k :: 0 <= k < |s| ==> IsSpace(s[k])
  }

  /** Where `s.lstrip()` starts looking from `i`: the first index at or after
      `i` that does not hold whitespace, or the end. */
  function LeadEnd(s: string, i: nat): (n: nat)
    requires i <= |s|
    ensures i <= n <= |s|
    ensures forall k :: i <= k < n ==> IsSpace(s[k])
    ensures n < |s| ==> !IsSpace(s[n])
    decreases |s| - i
  {
    if i < |s| && IsSpace(s[i]) then LeadEnd(s, i + 1) else i
  }

  /** Where `s.rstrip()` cuts, looking back from `j` no further than `lo`:
      the index after the last character before `j` that is not whitespace,
      or `lo`. */
  function TrailStart(s: string, lo: nat, j: nat): (n: nat)
    requires lo <= j <= |s|
    ensures lo <= n <= j
    ensures forall k :: n <= k < j ==> IsSpace(s[k])
    ensures lo < n ==> !IsSpace(s[n - 1])
  {
    if lo < j && IsSpace(s[j - 1]) then TrailStart(s, lo, j - 1) else j
  }

  /** `t` occurs in `s` starting at index `i`. */
  predicate OccursAt(s: string, i: int, t: string) {
    0 <= i && i + |t| <= |s| && s[i..i + |t|] == t
  }

  /** An occurrence in a slice is an occurrence in the whole. */
  lemma OccursInSlice(s: string, lo: nat, hi: nat, j: int, t: string)
    requires lo <= hi <= |s| && OccursAt(s[lo..hi], j, t)
    ensures OccursAt(s, lo + j, t)
  {
    forall k | 0 <= k < |t| ensures s[lo + j + k] == t[k] {
      assert t[k] == s[lo..hi][j..j + |t|][k] == s[lo..hi][j + k];
    }
    assert s[lo + j..lo + j + |t|] == t;
  }

  /** `s.strip()`: the contiguous part of `s` between its leading and trailing
      whitespace. It is empty exactly when `s` is all whitespace. */
  function Strip(s: string): (r: string)
    ensures exists i :: OccursAt(s, i, r) && AllSpace(s[..i]) && AllSpace(s[i + |r|..])
    ensures r != [] ==> !IsSpace(r[0]) && !IsSpace(r[|r| - 1])
    ensures r == [] <==> AllSpace(s)
  {
    var lo := LeadEnd(s, 0);
    var hi := TrailStart(s, lo, |s|);
    StripSlice(s, lo, hi);
    s[lo..hi]
  }

  /** The part of `s` between a run of leading and a run of trailing
      whitespace, both as long as they can be, is what `Strip` promises. */
  lemma StripSlice(s: string, lo: nat, hi: nat)
    requires lo <= hi <= |s|
    requires forall k :: 0 <= k < lo ==> IsSpace(s[k])
    requires forall k :: hi <= k < |s| ==> IsSpace(s[k])
    requires lo < |s| ==> !IsSpace(s[lo])
    requires lo < hi ==> !IsSpace(s[hi - 1])
    ensures var r := s[lo..hi];
      && OccursAt(s, lo, r) && AllSpace(s[..lo]) && AllSpace(s[lo + |r|..])
      && (r != [] ==> !IsSpace(r[0]) && !IsSpace(r[|r| - 1]))
      && (r == [] <==> AllSpace(s))
  {
    var r := s[lo..hi];
    assert AllSpace(s[..lo]) by {
      forall k | 0 <= k < lo ensures IsSpace(s[..lo][k]) {
        assert s[..lo][k] == s[k];
      }
    }
    assert AllSpace(s[hi..]) by {
      forall k | 0 <= k < |s| - hi ensures IsSpace(s[hi..][k]) {
        assert s[hi..][k] == s[hi + k];
      }
    }
    if r != [] {
      assert r[0] == s[lo] && r[|r| - 1] == s[hi - 1];
    }
  }

  /** `"\n".join(lines)`. */
  function JoinLines(lines: seq<string>): string {
    if |lines| == 0 then ""
    else if |lines| == 1 then lines[0]
    else lines[0] + "\n" + JoinLines(lines[1..])
  }

  /** `s.split("\n")`: never empty; `"".split("\n") == [""]`. */
  function SplitLines(s: string): (r: seq<string>)
    ensures |r| >= 1
  {
    if s == [] then [""]
    else if s[0] == '\n' then [""] + SplitLines(s[1..])
    else var rest := SplitLines(s[1..]); [[s[0]] + rest[0]] + rest[1..]
  }

  predicate NoNewline(s: string) {
    forall k :: 0 <= k < |s| ==> s[k] != '\n'
  }

  lemma {:induction false} SplitNoNewline(a: string, b: string)
    requires NoNewline(a)
    ensures SplitLines(a) == [a]
    ensures SplitLines(a + "\n" + b) == [a] + SplitLines(b)
  {
    if a != [] {
      assert (a + "\n" + b)[1..] == a[1..] + "\n" + b;
      SplitNoNewline(a[1..], b);
      assert [a[0]] + a[1..] == a;
    } else {
      assert a + "\n" + b == "\n" + b;
      assert ("\n" + b)[1..] == b;
    }
  }

  /** Splitting a `"\n"`-join of lines that hold no newline gives the lines back. */
  lemma {:induction false} SplitJoin(lines: seq<string>)
    requires |lines| > 0
    requires forall k :: 0 <= k < |lines| ==> NoNewline(lines[k])
    ensures SplitLines(JoinLines(lines)) == lines
  {
    if |lines| == 1 {
      SplitNoNewline(lines[0], "");
    } else {
      SplitJoin(lines[1..]);
      SplitNoNewline(lines[0], JoinLines(lines[1..]));
    }
  }
}
