/** The string operations the pipeline relies on: Python's `str.lower`,
    `str.strip`, substring containment (`in`) and the ordering `<` on
    strings, restricted to what the survey data needs. */
module Strings {

  /** Python's `str.isspace` on ASCII: space, \t \n \v \f \r and the
      separators \x1c-\x1f. */
  predicate IsSpace(c: char) {
    c == ' ' || ('\U{9}' <= c <= '\U{D}') || ('\U{1C}' <= c <= '\U{1F}')
  }

  predicate AllSpace(s: string) {
    forall i | 0 <= i < |s| :: IsSpace(s[i])
  }

  /** A string with no whitespace at either end, as `strip` leaves it. */
  predicate Stripped(s: string) {
    s == [] || (!IsSpace(s[0]) && !IsSpace(s[|s| - 1]))
  }

  /** `str.lower` on one ASCII character. */
  function LowerChar(c: char): char {
    if 'A' <= c <= 'Z' then (c as int + 32) as char else c
  }

  /** `str.lower`: same length, no upper-case ASCII letter left. */
  function Lower(s: string): (r: string)
    ensures |r| == |s|
    ensures forall i | 0 <= i < |r| :: !('A' <= r[i] <= 'Z')
  {
    seq(|s|, i requires 0 <= i < |s| => LowerChar(s[i]))
  }

  /** `str.lstrip()`: drops the longest all-whitespace prefix. */
  function TrimStart(s: string): (r: string)
    ensures |r| <= |s| && r == s[|s| - |r|..]
    ensures forall i | 0 <= i < |s| - |r| :: IsSpace(s[i])
    ensures r != [] ==> !IsSpace(r[0])
  {
    if |s| > 0 && IsSpace(s[0]) then TrimStart(s[1..]) else s
  }

  /** `str.rstrip()`: drops the longest all-whitespace suffix. */
  function TrimEnd(s: string): (r: string)
    ensures |r| <= |s| && r == s[..|r|]
    ensures forall i | |r| <= i < |s| :: IsSpace(s[i])
    ensures r != [] ==> !IsSpace(r[|r| - 1])
  {
    if |s| > 0 && IsSpace(s[|s| - 1]) then TrimEnd(s[..|s| - 1]) else s
  }

  /** `str.strip()`. */
  function Strip(s: string): (r: string)
    ensures Stripped(r)
  {
    TrimEnd(TrimStart(s))
  }

  /** `n` occurs in `h` starting at index `i`. */
  predicate OccursAt(h: string, n: string, i: int) {
    0 <= i && i + |n| <= |h| && h[i..i + |n|] == n
  }

  /** Python's `n in h` for strings. */
  function Contains(h: string, n: string): (r: bool)
    ensures r ==> |n| <= |h|
    decreases |h|
  {
    (|n| <= |h| && h[..|n|] == n) || (|h| > 0 && Contains(h[1..], n))
  }

  /** Python's `a < b` on strings: lexicographic by code point, a proper
      prefix first. */
  predicate StrLess(a: string, b: string)
    decreases |a|
  {
    if a == [] then b != []
    else if b == [] then false
    else if a[0] != b[0] then a[0] < b[0]
    else StrLess(a[1..], b[1..])
  }

  // ---------------------------------------------------------------------
  // Containment

  /** `Contains` is substring containment at some position. */
  lemma {:induction false} ContainsIff(h: string, n: string)
    ensures Contains(h, n) <==> exists i :: OccursAt(h, n, i)
    decreases |h|
  {
    if |n| <= |h| && h[..|n|] == n {
      assert OccursAt(h, n, 0);
    } else if |h| > 0 {
      ContainsIff(h[1..], n);
      if Contains(h[1..], n) {
        var i :| OccursAt(h[1..], n, i);
        ShiftOccurrence(h, n, i + 1);
      }
      if i :| OccursAt(h, n, i) {
        assert i != 0;
        ShiftOccurrence(h, n, i);
      }
    }
  }

  /** An occurrence at `i >= 1` is one at `i - 1` past the first character. */
  lemma ShiftOccurrence(h: string, n: string, i: int)
    requires |h| > 0 && i >= 1
    ensures OccursAt(h, n, i) <==> OccursAt(h[1..], n, i - 1)
  {
    if i + |n| <= |h| {
      assert h[1..][i - 1..i - 1 + |n|] == h[i..i + |n|];
    }
  }

  /** Stripping both ends never removes an occurrence of a word that starts
      and ends with a non-space character. */
  lemma StripKeepsOccurrence(s: string, n: string, i: int)
    requires OccursAt(s, n, i) && n != [] && Stripped(n)
    ensures Contains(Strip(s), n)
  {
    var j := TrimStartKeepsOccurrence(s, n, i);
    var k := TrimEndKeepsOccurrence(TrimStart(s), n, j);
    ContainsIff(Strip(s), n);
  }

  lemma TrimStartKeepsOccurrence(s: string, n: string, i: int) returns (j: int)
    requires OccursAt(s, n, i) && n != [] && !IsSpace(n[0])
    ensures OccursAt(TrimStart(s), n, j)
  {
    var u := TrimStart(s);
    var d := |s| - |u|;
    assert s[i] == n[0];
    assert d <= i;
    j := i - d;
    assert u[j..j + |n|] == s[i..i + |n|];
  }

  lemma TrimEndKeepsOccurrence(s: string, n: string, i: int) returns (j: int)
    requires OccursAt(s, n, i) && n != [] && !IsSpace(n[|n| - 1])
    ensures OccursAt(TrimEnd(s), n, j)
  {
    var r := TrimEnd(s);
    assert s[i + |n| - 1] == n[|n| - 1];
    assert i + |n| <= |r|;
    j := i;
    assert r[i..i + |n|] == s[i..i + |n|];
  }

  /** Where `strip` starts cutting its slice. */
  function StripStart(s: string): nat {
    |s| - |TrimStart(s)|
  }

  /** The whitespace `strip` drops at the front. */
  lemma LeadingSpaceDropped(s: string)
    ensures AllSpace(s[..StripStart(s)])
  {
    var d := StripStart(s);
    forall i | 0 <= i < d ensures IsSpace(s[..d][i]) {
      assert s[..d][i] == s[i];
    }
  }

  /** The whitespace `strip` drops at the back. */
  lemma TrailingSpaceDropped(s: string)
    ensures StripStart(s) + |Strip(s)| <= |s|
    ensures AllSpace(s[StripStart(s) + |Strip(s)|..])
  {
    var u := TrimStart(s);
    var r := TrimEnd(u);
    var e := StripStart(s) + |r|;
    forall i | 0 <= i < |s| - e ensures IsSpace(s[e..][i]) {
      assert s[e..][i] == u[|r| + i];
    }
  }

  /** What `strip` keeps is the slice between the two cuts. */
  lemma StripIsSlice(s: string)
    ensures StripStart(s) + |Strip(s)| <= |s|
    ensures Strip(s) == s[StripStart(s)..StripStart(s) + |Strip(s)|]
  {
    var u := TrimStart(s);
    var r := TrimEnd(u);
    var d := StripStart(s);
    assert u == s[d..] && r == u[..|r|];
  }

  /** Every text is its stripped core with whitespace on either side. */
  lemma StripSplits(s: string)
    ensures StripStart(s) + |Strip(s)| <= |s|
    ensures AllSpace(s[..StripStart(s)]) && AllSpace(s[StripStart(s) + |Strip(s)|..])
    ensures s == s[..StripStart(s)] + Strip(s) + s[StripStart(s) + |Strip(s)|..]
  {
    LeadingSpaceDropped(s);
    TrailingSpaceDropped(s);
    StripIsSlice(s);
    var d := StripStart(s);
    var e := d + |Strip(s)|;
    assert s == s[..d] + s[d..e] + s[e..];
  }

  /** An occurrence inside `strip(s)` is an occurrence inside `s`. */
  lemma OccursInStripped(s: string, n: string, j: int)
    requires OccursAt(Strip(s), n, j)
    ensures OccursAt(s, n, StripStart(s) + j)
  {
    OccursInPrefix(TrimStart(s), |Strip(s)|, n, j);
    OccursInSuffix(s, StripStart(s), n, j);
  }

  lemma OccursInPrefix(u: string, m: nat, n: string, j: int)
    requires m <= |u| && OccursAt(u[..m], n, j)
    ensures OccursAt(u, n, j)
  {
    assert u[..m][j..j + |n|] == u[j..j + |n|];
  }

  lemma OccursInSuffix(s: string, d: nat, n: string, j: int)
    requires d <= |s| && OccursAt(s[d..], n, j)
    ensures OccursAt(s, n, d + j)
  {
    assert s[d..][j..j + |n|] == s[d + j..d + j + |n|];
  }

  /** A word that starts and ends with a non-space character and occurs in
      a whitespace-padded string occurs inside the padding. */
  lemma PaddedOccurrence(p: string, s: string, q: string, n: string, i: int)
    requires AllSpace(p) && AllSpace(q) && n != [] && Stripped(n)
    requires OccursAt(p + s + q, n, i)
    ensures OccursAt(s, n, i - |p|)
  {
    var t := p + s + q;
    assert t[i] == n[0];
    assert t[i + |n| - 1] == n[|n| - 1];
    assert |p| <= i && i + |n| <= |p| + |s|;
    assert s[i - |p|..i - |p| + |n|] == t[i..i + |n|];
  }

  /** An occurrence survives padding. */
  lemma OccurrenceInPadded(p: string, s: string, q: string, n: string, i: int)
    requires OccursAt(s, n, i)
    ensures OccursAt(p + s + q, n, |p| + i)
  {
    assert (p + s + q)[|p| + i..|p| + i + |n|] == s[i..i + |n|];
  }

  // ---------------------------------------------------------------------
  // Strip and Lower

  lemma LowerConcat(a: string, b: string)
    ensures Lower(a + b) == Lower(a) + Lower(b)
  {
  }

  lemma LowerAllSpace(p: string)
    requires AllSpace(p)
    ensures AllSpace(Lower(p))
  {
    forall i | 0 <= i < |p| ensures IsSpace(Lower(p)[i]) {
      LowerCharKeepsSpace(p[i]);
    }
  }

  lemma LowerCharKeepsSpace(c: char)
    ensures IsSpace(LowerChar(c)) <==> IsSpace(c)
  {
  }

  /** Lower-casing a stripped string leaves it stripped. */
  lemma LowerKeepsStripped(s: string)
    requires Stripped(s)
    ensures Stripped(Lower(s))
  {
    if s != [] {
      LowerCharKeepsSpace(s[0]);
      LowerCharKeepsSpace(s[|s| - 1]);
    }
  }

  /** Lower-casing is idempotent. */
  lemma LowerIdempotent(s: string)
    ensures Lower(Lower(s)) == Lower(s)
  {
  }

  /** A string that is already stripped is its own strip. */
  lemma StripOfStripped(s: string)
    requires Stripped(s)
    ensures Strip(s) == s
  {
    assert TrimStart(s) == s;
  }

  lemma {:induction false} TrimStartPadded(p: string, s: string)
    requires AllSpace(p) && (s == [] || !IsSpace(s[0]))
    ensures TrimStart(p + s) == s
    decreases |p|
  {
    if p != [] {
      assert (p + s)[1..] == p[1..] + s;
      TrimStartPadded(p[1..], s);
    } else {
      assert p + s == s;
    }
  }

  lemma {:induction false} TrimEndPadded(s: string, q: string)
    requires AllSpace(q) && (s == [] || !IsSpace(s[|s| - 1]))
    ensures TrimEnd(s + q) == s
    decreases |q|
  {
    if q != [] {
      assert (s + q)[..|s + q| - 1] == s + q[..|q| - 1];
      TrimEndPadded(s, q[..|q| - 1]);
    } else {
      assert s + q == s;
    }
  }

  /** Whitespace padded around a stripped string is exactly what `strip`
      removes. */
  lemma StripPadded(p: string, s: string, q: string)
    requires AllSpace(p) && AllSpace(q) && Stripped(s)
    ensures Strip(p + s + q) == s
  {
    if s == [] {
      assert p + s + q == p + q;
      TrimStartPadded(p + q, []);
      assert p + q + [] == p + q;
    } else {
      assert p + s + q == p + (s + q);
      TrimStartPadded(p, s + q);
      TrimEndPadded(s, q);
    }
  }

  // ---------------------------------------------------------------------
  // Ordering of strings

  lemma {:induction false} StrLessIrreflexive(a: string)
    ensures !StrLess(a, a)
    decreases |a|
  {
    if a != [] {
      StrLessIrreflexive(a[1..]);
    }
  }

  lemma {:induction false} StrLessTransitive(a: string, b: string, c: string)
    requires StrLess(a, b) && StrLess(b, c)
    ensures StrLess(a, c)
    decreases |a|
  {
    if a != [] && b != [] && c != [] && a[0] == b[0] && b[0] == c[0] {
      StrLessTransitive(a[1..], b[1..], c[1..]);
    }
  }

  /** Two different strings are ordered one way or the other. */
  lemma {:induction false} StrLessTotal(a: string, b: string)
    requires a != b
    ensures StrLess(a, b) || StrLess(b, a)
    decreases |a|
  {
    if a != [] && b != [] && a[0] == b[0] {
      assert a == [a[0]] + a[1..] && b == [b[0]] + b[1..];
      StrLessTotal(a[1..], b[1..]);
    }
  }

  lemma {:induction false} StrLessAsymmetric(a: string, b: string)
    requires StrLess(a, b)
    ensures !StrLess(b, a)
    decreases |a|
  {
    if a != [] && b != [] && a[0] == b[0] {
      StrLessAsymmetric(a[1..], b[1..]);
    }
  }
}
