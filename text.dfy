/**
 * Character classes and trimming shared by the declaration matcher and the driver.
 *
 * The `regex` crate's `\s` and Rust's `str::trim` both use the Unicode `White_Space`
 * property; `IsWs` lists that property's code points, so one predicate serves both.
 */
module Text {

  /** Unicode `White_Space`: U+0009..U+000D, U+0020, U+0085, U+00A0, U+1680,
      U+2000..U+200A, U+2028, U+2029, U+202F, U+205F, U+3000. */
  predicate IsWs(c: char) {
    var n := c as int;
    (0x09 <= n <= 0x0D) || n == 0x20 || n == 0x85 || n == 0xA0 || n == 0x1680
    || (0x2000 <= n <= 0x200A) || n == 0x2028 || n == 0x2029 || n == 0x202F
    || n == 0x205F || n == 0x3000
  }

  /** `s[i..j]` is whitespace. */
  predicate WsIn(s: string, i: nat, j: nat)
    requires j <= |s|
  {
    forall t :: i <= t < j ==> IsWs(s[t])
  }

  /** The index just past the longest run of whitespace that starts at `i`: where a greedy `\s*` stops. */
  function SkipWs(s: string, i: nat): (j: nat)
    requires i <= |s|
    ensures i <= j <= |s|
    ensures j == |s| || !IsWs(s[j])
    decreases |s| - i
  {
    if i == |s| || !IsWs(s[i]) then i else SkipWs(s, i + 1)
  }

  /** What `SkipWs` skips is whitespace. */
  lemma {:induction false} SkipWsSpan(s: string, i: nat)
    requires i <= |s|
    ensures WsIn(s, i, SkipWs(s, i))
    decreases |s| - i
  {
    if i < |s| && IsWs(s[i]) {
      SkipWsSpan(s, i + 1);
    }
  }

  /** A whitespace run cannot extend over a character that is not whitespace. */
  lemma {:induction false} SkipWsStopsAt(s: string, i: nat, k: nat)
    requires i <= k < |s| && !IsWs(s[k])
    ensures SkipWs(s, i) <= k
    decreases k - i
  {
    if i < k && IsWs(s[i]) {
      SkipWsStopsAt(s, i + 1, k);
    }
  }

  /** The whitespace run starting at `i` ends at `j` exactly when `s[i..j]` is whitespace and `s[j]` is not. */
  lemma {:induction false} SkipWsExact(s: string, i: nat, j: nat)
    requires i <= j <= |s|
    requires WsIn(s, i, j)
    requires j == |s| || !IsWs(s[j])
    ensures SkipWs(s, i) == j
    decreases j - i
  {
    if i < j {
      SkipWsExact(s, i + 1, j);
    }
  }

  /** The index just before the trailing whitespace of `s[lo..hi]`. */
  function TrailStart(s: string, lo: nat, hi: nat): (k: nat)
    requires lo <= hi <= |s|
    ensures lo <= k <= hi
    ensures k == lo || !IsWs(s[k - 1])
    decreases hi
  {
    if hi == lo || !IsWs(s[hi - 1]) then hi else TrailStart(s, lo, hi - 1)
  }

  /** What `TrailStart` leaves behind is whitespace. */
  lemma {:induction false} TrailStartSpan(s: string, lo: nat, hi: nat)
    requires lo <= hi <= |s|
    ensures WsIn(s, TrailStart(s, lo, hi), hi)
    decreases hi
  {
    if hi > lo && IsWs(s[hi - 1]) {
      TrailStartSpan(s, lo, hi - 1);
    }
  }

  lemma {:induction false} TrailStartExact(s: string, lo: nat, k: nat, hi: nat)
    requires lo <= k <= hi <= |s|
    requires WsIn(s, k, hi)
    requires k == lo || !IsWs(s[k - 1])
    ensures TrailStart(s, lo, hi) == k
    decreases hi - k
  {
    if k < hi {
      TrailStartExact(s, lo, k, hi - 1);
    }
  }

  /** `str::trim`: `s` without its leading and trailing whitespace. */
  function Trim(s: string): (r: string)
    ensures |r| <= |s|
    ensures r == [] || (!IsWs(r[0]) && !IsWs(r[|r| - 1]))
  {
    var a := SkipWs(s, 0);
    var b := TrailStart(s, a, |s|);
    s[a..b]
  }

  /** `s` is whitespace, then `r` from index `k` on, then whitespace, and `r` neither starts nor
      ends with whitespace. */
  predicate TrimmedAt(s: string, k: nat, r: string) {
    k + |r| <= |s| && WsIn(s, 0, k) && s[k..k + |r|] == r && WsIn(s, k + |r|, |s|) &&
    (r == [] || (!IsWs(r[0]) && !IsWs(r[|r| - 1])))
  }

  lemma {:induction false} TrimWitness(s: string, a: nat, b: nat)
    requires a == SkipWs(s, 0) && b == TrailStart(s, a, |s|)
    ensures Trim(s) == s[a..b] && TrimmedAt(s, a, s[a..b])
  {
    SkipWsSpan(s, 0);
    TrailStartSpan(s, a, |s|);
  }

  /** `Trim(s)` is what lies between a whitespace prefix and a whitespace suffix of `s`. */
  lemma {:induction false} TrimShape(s: string)
    ensures exists k :: TrimmedAt(s, k, Trim(s))
  {
    var a := SkipWs(s, 0);
    TrimWitness(s, a, TrailStart(s, a, |s|));
  }

  /** The properties `Trim` promises determine its result: peeling whitespace off both ends of `s`
      and keeping a core that neither starts nor ends with whitespace can only give `Trim(s)`. */
  lemma {:induction false} TrimUnique(s: string, k: nat, r: string)
    requires TrimmedAt(s, k, r)
    ensures Trim(s) == r
  {
    if r == [] {
      SkipWsExact(s, 0, |s|);
    } else {
      assert s[k] == r[0];
      SkipWsExact(s, 0, k);
      assert s[k + |r| - 1] == r[|r| - 1];
      TrailStartExact(s, k, k + |r|, |s|);
    }
  }

  /** Leading whitespace in front of a text does not change its trimmed form. */
  lemma {:induction false} TrimSkipsLeading(s: string, i: nat)
    requires i <= |s| && WsIn(s, 0, i)
    ensures Trim(s[i..]) == Trim(s)
  {
    var t := s[i..];
    var a := SkipWs(t, 0);
    var b := TrailStart(t, a, |t|);
    TrimWitness(t, a, b);
    var r := t[a..b];
    forall x | i <= x < i + a
      ensures IsWs(s[x])
    {
      assert s[x] == t[x - i];
    }
    forall x | i + b <= x < |s|
      ensures IsWs(s[x])
    {
      assert s[x] == t[x - i];
    }
    assert s[i + a..i + a + |r|] == r;
    TrimUnique(s, i + a, r);
  }

  /** `Trim` only removes characters: a character `s` lacks, its trimmed form lacks too. */
  lemma {:induction false} TrimKeepsOut(s: string, c: char)
    requires forall y :: 0 <= y < |s| ==> s[y] != c
    ensures forall x :: 0 <= x < |Trim(s)| ==> Trim(s)[x] != c
  {
    var a := SkipWs(s, 0);
    var b := TrailStart(s, a, |s|);
    assert Trim(s) == s[a..b];
    forall x | 0 <= x < |Trim(s)|
      ensures Trim(s)[x] != c
    {
      assert Trim(s)[x] == s[a + x];
    }
  }
}
