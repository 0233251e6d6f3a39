/**
 * The few Go standard-library string operations the executor relies on:
 * strings.TrimSpace, strings.ReplaceAll, strings.Join, strings.SplitN(s, "=", 2)
 * and the decimal rendering of `%d`. Each is given as a function together with
 * an independent characterisation or an inverse.
 */
module GoStrings {

  import opened Wrappers

  // ---------------------------------------------------------------- TrimSpace

  /** unicode.IsSpace: the ASCII blanks, NEL, NBSP and the Unicode White_Space characters. */
  predicate IsSpace(c: char) {
    || c == '\t' || c == '\n' || c == '\U{000B}' || c == '\U{000C}' || c == '\r' || c == ' '
    || c == '\U{0085}' || c == '\U{00A0}' || c == '\U{1680}'
    || ('\U{2000}' <= c <= '\U{200A}')
    || c == '\U{2028}' || c == '\U{2029}' || c == '\U{202F}' || c == '\U{205F}' || c == '\U{3000}'
  }

  predicate AllSpace(s: string) {
    forall i :: 0 <= i < |s| ==> IsSpace(s[i])
  }

  /** No white space at either end. */
  predicate Trimmed(s: string) {
    s == [] || (!IsSpace(s[0]) && !IsSpace(s[|s| - 1]))
  }

  /** The first position at or after `i` that does not hold white space (|s| if none). */
  function SkipSpace(s: string, i: nat): (j: nat)
    requires i <= |s|
    ensures i <= j <= |s|
    ensures forall k :: i <= k < j ==> IsSpace(s[k])
    ensures j < |s| ==> !IsSpace(s[j])
    decreases |s| - i
  {
    if i < |s| && IsSpace(s[i]) then SkipSpace(s, i + 1) else i
  }

  /** The end of `s[lo..hi]` once its trailing white space is cut. */
  function SkipSpaceBack(s: string, lo: nat, hi: nat): (j: nat)
    requires lo <= hi <= |s|
    ensures lo <= j <= hi
    ensures forall k :: j <= k < hi ==> IsSpace(s[k])
    ensures j > lo ==> !IsSpace(s[j - 1])
    decreases hi
  {
    if hi > lo && IsSpace(s[hi - 1]) then SkipSpaceBack(s, lo, hi - 1) else hi
  }

  /** strings.TrimSpace: scan past the leading white space, then back over the
      trailing white space, and keep what lies between. */
  function TrimSpace(s: string): (r: string)
    ensures exists i :: 0 <= i <= |s| - |r| && r == s[i..i + |r|] && AllSpace(s[..i]) && AllSpace(s[i + |r|..])
    ensures Trimmed(r)
  {
    var i := SkipSpace(s, 0);
    var j := SkipSpaceBack(s, i, |s|);
    TrimBounds(s, i, j);
    s[i..j]
  }

  /** Cutting `s` at `i` and `j`, with white space only before `i` and from `j` on and
      none at either end of the middle, leaves the pieces TrimSpace promises. */
  lemma TrimBounds(s: string, i: nat, j: nat)
    requires i <= j <= |s|
    requires forall k :: 0 <= k < i ==> IsSpace(s[k])
    requires forall k :: j <= k < |s| ==> IsSpace(s[k])
    requires i < j ==> !IsSpace(s[i]) && !IsSpace(s[j - 1])
    ensures s[i..j] == s[i..i + |s[i..j]|]
    ensures AllSpace(s[..i]) && AllSpace(s[j..]) && Trimmed(s[i..j])
  {
    assert forall k :: 0 <= k < i ==> s[..i][k] == s[k];
    assert forall k :: 0 <= k < |s| - j ==> s[j..][k] == s[j + k];
  }

  /** A forward scan that starts inside a white-space run stops where the run ends. */
  lemma {:induction false} SkipSpaceStops(s: string, i: nat, t: nat)
    requires i <= t <= |s|
    requires forall k :: i <= k < t ==> IsSpace(s[k])
    requires t < |s| ==> !IsSpace(s[t])
    ensures SkipSpace(s, i) == t
    decreases t - i
  {
    if i < t {
      SkipSpaceStops(s, i + 1, t);
    }
  }

  /** A backward scan over a white-space run stops where the run begins. */
  lemma {:induction false} SkipSpaceBackStops(s: string, lo: nat, hi: nat, t: nat)
    requires lo <= t <= hi <= |s|
    requires forall k :: t <= k < hi ==> IsSpace(s[k])
    requires t > lo ==> !IsSpace(s[t - 1])
    ensures SkipSpaceBack(s, lo, hi) == t
    decreases hi
  {
    if t < hi {
      SkipSpaceBackStops(s, lo, hi - 1, t);
    }
  }

  /** TrimSpace is determined by its characterisation: any split of `s` into
      white space, a trimmed middle and white space yields that middle. */
  lemma TrimSpaceUnique(p: string, m: string, q: string)
    requires AllSpace(p) && AllSpace(q) && Trimmed(m)
    ensures TrimSpace(p + m + q) == m
  {
    var s := p + m + q;
    var i, j := |p|, |p| + |m|;
    assert forall k :: 0 <= k < i ==> s[k] == p[k];
    assert forall k :: i <= k < j ==> s[k] == m[k - i];
    assert forall k :: j <= k < |s| ==> s[k] == q[k - j];
    if m == [] {
      SkipSpaceStops(s, 0, |s|);
      SkipSpaceBackStops(s, |s|, |s|, |s|);
      assert s[|s|..|s|] == m;
    } else {
      SkipSpaceStops(s, 0, i);
      SkipSpaceBackStops(s, i, |s|, j);
      assert s[i..j] == m;
    }
  }

  /** Trimming only removes characters, so a character absent from `s` is absent
      from `TrimSpace(s)`. */
  lemma TrimSpaceKeepsOut(s: string, c: char)
    requires c !in s
    ensures c !in TrimSpace(s)
  {
    var r := TrimSpace(s);
    var i :| 0 <= i <= |s| - |r| && r == s[i..i + |r|] && AllSpace(s[..i]) && AllSpace(s[i + |r|..]);
    forall k | 0 <= k < |r| ensures r[k] != c {
      assert r[k] == s[i + k];
    }
  }

  /** Trimming twice is trimming once. */
  lemma TrimSpaceIdempotent(s: string)
    ensures TrimSpace(TrimSpace(s)) == TrimSpace(s)
  {
    var r := TrimSpace(s);
    assert r == [] + r + [];
    TrimSpaceUnique([], r, []);
  }

  // --------------------------------------------------------------- ReplaceAll

  predicate OccursAt(s: string, pat: string, i: int) {
    0 <= i && i + |pat| <= |s| && s[i..i + |pat|] == pat
  }

  /** strings.Contains */
  predicate Contains(s: string, pat: string) {
    exists i :: 0 <= i <= |s| - |pat| && OccursAt(s, pat, i)
  }

  /** strings.ReplaceAll for a non-empty pattern: scan left to right, replacing
      each non-overlapping occurrence; the replacement text is not rescanned. */
  function ReplaceAll(s: string, pat: string, rep: string): string
    requires pat != []
    decreases |s|
  {
    if |s| < |pat| then s
    else if s[..|pat|] == pat then rep + ReplaceAll(s[|pat|..], pat, rep)
    else [s[0]] + ReplaceAll(s[1..], pat, rep)
  }

  /** A string that does not contain the pattern comes back unchanged. */
  lemma {:induction false} ReplaceAllAbsent(s: string, pat: string, rep: string)
    requires pat != []
    requires !Contains(s, pat)
    ensures ReplaceAll(s, pat, rep) == s
    decreases |s|
  {
    if |s| >= |pat| {
      assert !OccursAt(s, pat, 0);
      assert s[..|pat|] != pat;
      if Contains(s[1..], pat) {
        var i :| 0 <= i <= |s| - 1 - |pat| && OccursAt(s[1..], pat, i);
        assert s[1..][i..i + |pat|] == s[i + 1..i + 1 + |pat|];
        assert OccursAt(s, pat, i + 1);
        assert false;
      }
      ReplaceAllAbsent(s[1..], pat, rep);
      assert [s[0]] + s[1..] == s;
    }
  }

  /** A string that is exactly the pattern becomes the replacement. */
  lemma ReplaceAllWhole(pat: string, rep: string)
    requires pat != []
    ensures ReplaceAll(pat, pat, rep) == rep
  {
    assert pat[..|pat|] == pat;
    assert pat[|pat|..] == [];
    assert rep + [] == rep;
  }

  /** Where the pattern does not start, the first character is copied and the scan moves on. */
  lemma ReplaceAllStep(s: string, pat: string, rep: string)
    requires pat != [] && s != []
    requires !OccursAt(s, pat, 0)
    ensures ReplaceAll(s, pat, rep) == [s[0]] + ReplaceAll(s[1..], pat, rep)
  {
    if |s| < |pat| {
      assert [s[0]] + s[1..] == s;
    }
  }

  /** A leading occurrence of the pattern becomes the replacement. */
  lemma ReplaceAllLead(pat: string, t: string, rep: string)
    requires pat != []
    ensures ReplaceAll(pat + t, pat, rep) == rep + ReplaceAll(t, pat, rep)
  {
    assert (pat + t)[..|pat|] == pat;
    assert (pat + t)[|pat|..] == t;
  }

  /** A prefix without the pattern's first character is copied unchanged; no occurrence
      can start inside it. */
  lemma {:induction false} ReplaceAllPrefix(u: string, t: string, pat: string, rep: string)
    requires pat != [] && pat[0] !in u
    ensures ReplaceAll(u + t, pat, rep) == u + ReplaceAll(t, pat, rep)
    decreases |u|
  {
    if u != [] {
      var s := u + t;
      assert s[0] == u[0];
      ReplaceAllStep(s, pat, rep);
      assert s[1..] == u[1..] + t;
      ReplaceAllPrefix(u[1..], t, pat, rep);
      assert [u[0]] + (u[1..] + ReplaceAll(t, pat, rep)) == u + ReplaceAll(t, pat, rep);
    } else {
      assert u + t == t;
    }
  }

  /** Every occurrence is replaced: text that is pieces without the pattern's first
      character joined by the pattern becomes those pieces joined by the replacement. */
  lemma {:induction false} ReplaceAllJoin(parts: seq<string>, pat: string, rep: string)
    requires pat != []
    requires forall i :: 0 <= i < |parts| ==> pat[0] !in parts[i]
    ensures ReplaceAll(Join(parts, pat), pat, rep) == Join(parts, rep)
    decreases |parts|
  {
    if |parts| == 1 {
      ReplaceAllPrefix(parts[0], [], pat, rep);
      assert parts[0] + [] == parts[0];
    } else if |parts| > 1 {
      var rest := Join(parts[1..], pat);
      ReplaceAllPrefix(parts[0], pat + rest, pat, rep);
      assert Join(parts, pat) == parts[0] + (pat + rest);
      ReplaceAllLead(pat, rest, rep);
      ReplaceAllJoin(parts[1..], pat, rep);
      assert Join(parts, rep) == parts[0] + (rep + Join(parts[1..], rep));
    }
  }

  // --------------------------------------------------------------------- Join

  /** strings.Join */
  function Join(elems: seq<string>, sep: string): string
  {
    if |elems| == 0 then ""
    else if |elems| == 1 then elems[0]
    else elems[0] + sep + Join(elems[1..], sep)
  }

  /** Two elements are joined by one separator. */
  lemma JoinPair(a: string, b: string, sep: string)
    ensures Join([a, b], sep) == a + sep + b
  {
    assert [a, b][1..] == [b];
  }

  /** A character in no element and not in the separator is not in the joined string. */
  lemma {:induction false} JoinKeepsOut(elems: seq<string>, sep: string, c: char)
    requires c !in sep
    requires forall i :: 0 <= i < |elems| ==> c !in elems[i]
    ensures c !in Join(elems, sep)
    decreases |elems|
  {
    if |elems| > 1 {
      JoinKeepsOut(elems[1..], sep, c);
    }
  }

  /** The position of the first `c` in `s`. */
  function IndexOf(s: string, c: char): (i: nat)
    requires c in s
    ensures i < |s| && s[i] == c && c !in s[..i]
  {
    if s[0] == c then 0 else 1 + IndexOf(s[1..], c)
  }

  /** strings.Split on a one-character separator. */
  function Split(s: string, c: char): (r: seq<string>)
    ensures |r| >= 1
    decreases |s|
  {
    if c !in s then [s]
    else
      var i := IndexOf(s, c);
      [s[..i]] + Split(s[i + 1..], c)
  }

  /** The first `c` is the one at `j` when `s[j]` is `c` and none comes before. */
  lemma {:induction false} IndexOfUnique(s: string, c: char, j: nat)
    requires j < |s| && s[j] == c && c !in s[..j]
    ensures c in s && IndexOf(s, c) == j
  {
    assert s[j] in s;
    if j > 0 {
      assert s[0] == s[..j][0];
      assert s[1..][..j - 1] == s[1..j];
      assert forall x :: x in s[1..j] ==> x in s[..j];
      IndexOfUnique(s[1..], c, j - 1);
    }
  }

  lemma IndexOfAfter(p: string, c: char, rest: string)
    requires c !in p
    ensures c in p + [c] + rest && IndexOf(p + [c] + rest, c) == |p|
  {
    var s := p + [c] + rest;
    assert s[..|p|] == p;
    IndexOfUnique(s, c, |p|);
  }

  /** Join and Split are inverse when no element holds the separator. */
  lemma {:induction false} SplitJoin(elems: seq<string>, c: char)
    requires |elems| >= 1
    requires forall k :: 0 <= k < |elems| ==> c !in elems[k]
    ensures Split(Join(elems, [c]), c) == elems
    decreases |elems|
  {
    if |elems| == 1 {
      assert Join(elems, [c]) == elems[0];
    } else {
      var head, tail := elems[0], elems[1..];
      var rest := Join(tail, [c]);
      var s := head + [c] + rest;
      assert Join(elems, [c]) == s;
      IndexOfAfter(head, c, rest);
      assert s[..|head|] == head;
      assert s[|head| + 1..] == rest;
      assert Split(s, c) == [head] + Split(rest, c);
      assert forall k :: 0 <= k < |tail| ==> tail[k] == elems[k + 1];
      SplitJoin(tail, c);
      assert [head] + tail == elems;
    }
  }

  // ---------------------------------------------------------------- SplitN(2)

  /** strings.SplitN(s, [c], 2) read as a pair: the text before the first `c`
      and the text after it, or None when `c` does not occur. */
  function Cut(s: string, c: char): (r: Option<(string, string)>)
    ensures r.None? <==> c !in s
  {
    if c !in s then None
    else
      var i := IndexOf(s, c);
      Some((s[..i], s[i + 1..]))
  }

  /** When `c` occurs, the two parts with `c` between them make up `s`, and the first
      part holds no `c`. */
  lemma CutSplits(s: string, c: char)
    requires c in s
    ensures Cut(s, c).Some?
    ensures s == Cut(s, c).value.0 + [c] + Cut(s, c).value.1 && c !in Cut(s, c).value.0
  {
    var i := IndexOf(s, c);
    assert s == s[..i] + [c] + s[i + 1..];
  }

  /** Cutting `k c v` at its first `c` gives back `k` and `v` when `k` holds no `c`. */
  lemma CutJoined(k: string, c: char, v: string)
    requires c !in k
    ensures Cut(k + [c] + v, c) == Some((k, v))
  {
    IndexOfAfter(k, c, v);
    var s := k + [c] + v;
    assert s[..|k|] == k;
    assert s[|k| + 1..] == v;
  }

  // ------------------------------------------------------------------ decimal

  predicate IsDigit(c: char) {
    '0' <= c <= '9'
  }

  /** The decimal rendering of `%d` for a natural number. */
  function DecimalString(n: nat): (r: string)
    ensures |r| >= 1
    ensures forall i :: 0 <= i < |r| ==> IsDigit(r[i])
    ensures |r| > 1 ==> r[0] != '0'
  {
    if n < 10 then [('0' as int + n) as char]
    else DecimalString(n / 10) + [('0' as int + n % 10) as char]
  }

  /** The number a string of decimal digits denotes. */
  function DecimalValue(s: string): nat
    requires forall i :: 0 <= i < |s| ==> IsDigit(s[i])
  {
    if s == [] then 0
    else
      assert IsDigit(s[|s| - 1]);
      DecimalValue(s[..|s| - 1]) * 10 + (s[|s| - 1] as int - '0' as int)
  }

  /** Reading back a rendered number gives the number. */
  lemma {:induction false} DecimalRoundTrip(n: nat)
    ensures DecimalValue(DecimalString(n)) == n
  {
    var r := DecimalString(n);
    if n >= 10 {
      DecimalRoundTrip(n / 10);
      assert r[..|r| - 1] == DecimalString(n / 10);
    }
  }
}
