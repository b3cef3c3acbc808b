/** The inline substring searches of zend_operators.h against the naive ones. */
module Searches {
  import opened Text

  /** memchr: the first c among the n characters from from, or -1 for NULL. */
  function MemChr(s: string, c: char, from: nat, n: nat): (r: int)
    requires from + n <= |s|
    ensures r == -1 || (from <= r < from + n && s[r] == c)
    ensures forall i :: from <= i < from + n && s[i] == c ==> 0 <= r <= i
    decreases n
  {
    if n == 0 then -1
    else if s[from] == c then from
    else MemChr(s, c, from + 1, n - 1)
  }

  /** The last occurrence of p that starts at most at upto, or -1. */
  function FindLast(s: string, p: string, upto: int): (r: int)
    ensures r == -1 || (0 <= r <= upto && OccursAt(s, p, r))
    ensures forall i :: 0 <= i <= upto && OccursAt(s, p, i) ==> i <= r
  {
    if upto < 0 then -1
    else if OccursAt(s, p, upto) then upto
    else FindLast(s, p, upto - 1)
  }

  /** First character, last character and the middle decide an occurrence. */
  lemma OccursByEnds(s: string, p: string, i: nat)
    requires |p| >= 2 && i + |p| <= |s|
    ensures OccursAt(s, p, i) <==>
            s[i] == p[0] && s[i + |p| - 1] == p[|p| - 1] && s[i + 1..i + |p| - 1] == p[1..|p| - 1]
  {
    var w := s[i..i + |p|];
    assert w == [s[i]] + s[i + 1..i + |p| - 1] + [s[i + |p| - 1]];
    assert p == [p[0]] + p[1..|p| - 1] + [p[|p| - 1]];
    assert w == p ==> w[0] == p[0] && w[|p| - 1] == p[|p| - 1] && w[1..|p| - 1] == p[1..|p| - 1];
    assert w[1..|p| - 1] == s[i + 1..i + |p| - 1];
  }

  lemma OccursChar(s: string, c: char, i: int)
    ensures OccursAt(s, [c], i) <==> 0 <= i < |s| && s[i] == c
  {
    if 0 <= i < |s| { assert s[i..i + 1] == [s[i]]; }
  }

  /** zend_memnstr, on the inputs that do not go to zend_memnstr_ex; pointers are positions, NULL is -1. */
  method MemNStr(haystack: string, needle: string) returns (r: int)
    requires |needle| >= 1
    requires |needle| > 1 && |needle| <= |haystack| ==> |haystack| < 1024 || |needle| < 9
    ensures r == Find(haystack, needle, 0)
  {
    hide Find, OccursAt, MemChr;
    var n := |needle|;
    var ne := needle[n - 1];
    if n == 1 {
      r := MemChr(haystack, needle[0], 0, |haystack|);
      assert needle == [needle[0]];
      forall i ensures OccursAt(haystack, needle, i) <==> 0 <= i < |haystack| && haystack[i] == needle[0] {
        OccursChar(haystack, needle[0], i);
      }
      return;
    }
    if n > |haystack| { return -1; }
    var end := |haystack| - n;
    var p := 0;
    while p <= end
      invariant 0 <= p <= end + 1
      invariant forall i :: 0 <= i < p ==> !OccursAt(haystack, needle, i)
    {
      var q := MemChr(haystack, needle[0], p, end - p + 1);
      NoneSkipped(haystack, needle, p, if q < 0 then end + 1 else q);
      if q >= 0 { OccursByEnds(haystack, needle, q); }
      if q >= 0 && ne == haystack[q + n - 1] {
        if needle[1..n - 1] == haystack[q + 1..q + n - 1] { return q; }
      }
      if q < 0 { return -1; }
      p := q + 1;
    }
    return -1;
  }

  /** Where the first character is missing nothing occurs. */
  lemma NoneSkipped(s: string, p: string, lo: nat, hi: nat)
    requires |p| >= 2 && hi + |p| <= |s| + 1 && forall i :: lo <= i < hi ==> s[i] != p[0]
    ensures forall i :: lo <= i < hi ==> !OccursAt(s, p, i)
  {
    forall i | lo <= i < hi ensures !OccursAt(s, p, i) { Mismatch(s, p, i, 0); }
  }

  /** zend_memrchr. */
  method MemRChr(s: string, c: char, n: nat) returns (r: int)
    requires n <= |s|
    ensures r == -1 || (0 <= r < n && s[r] == c)
    ensures forall i :: 0 <= i < n && s[i] == c ==> i <= r
  {
    if n == 0 { return -1; }
    var e: int := n - 1;
    while e >= 0
      invariant -1 <= e < n
      invariant forall i :: e < i < n ==> s[i] != c
    {
      if s[e] == c { return e; }
      e := e - 1;
    }
    return -1;
  }

  /** zend_memnrstr, on the inputs that do not go to zend_memnrstr_ex. */
  method MemNRStr(haystack: string, needle: string) returns (r: int)
    requires |needle| >= 1
    requires |needle| > 1 && |needle| <= |haystack| ==> |haystack| < 1024 || |needle| < 3
    ensures r == FindLast(haystack, needle, |haystack|)
  {
    hide FindLast, OccursAt;
    var n := |needle|;
    var ne := needle[n - 1];
    if n == 1 {
      r := MemRChr(haystack, needle[0], |haystack|);
      assert needle == [needle[0]];
      forall i ensures OccursAt(haystack, needle, i) <==> 0 <= i < |haystack| && haystack[i] == needle[0] {
        OccursChar(haystack, needle[0], i);
      }
      return;
    }
    TooFarRight(haystack, needle);
    if n > |haystack| { return -1; }
    var p: int := |haystack| - n;
    var more := true;
    while more
      invariant -1 <= p <= |haystack| - n && more
      invariant forall i :: p < i <= |haystack| ==> !OccursAt(haystack, needle, i)
      decreases p + 1
    {
      var q := MemRChr(haystack, needle[0], p + 1);
      NoneSkipped(haystack, needle, q + 1, p + 1);
      if q < 0 { return -1; }
      OccursByEnds(haystack, needle, q);
      if ne == haystack[q + n - 1] && needle[1..n - 1] == haystack[q + 1..q + n - 1] { return q; }
      more := q >= 0;
      p := q - 1;
    }
    return -1;
  }

  lemma TooFarRight(s: string, p: string)
    ensures forall i :: i + |p| > |s| ==> !OccursAt(s, p, i)
  {
  }

  function Reverse(s: string): (r: string)
    ensures |r| == |s|
  {
    if s == "" then "" else Reverse(s[1..]) + [s[0]]
  }

  lemma {:induction false} ReverseAt(s: string, k: nat)
    requires k < |s|
    ensures Reverse(s)[k] == s[|s| - 1 - k]
  {
    if k < |s| - 1 { ReverseAt(s[1..], k); }
  }

  lemma ReverseTwice(s: string)
    ensures Reverse(Reverse(s)) == s
  {
    hide Reverse;
    var r := Reverse(s);
    forall k | 0 <= k < |s| ensures Reverse(r)[k] == s[k] {
      ReverseAt(r, k);
      ReverseAt(s, |s| - 1 - k);
    }
  }

  lemma CharOf(s: string, p: string, i: int, k: nat)
    requires OccursAt(s, p, i) && k < |p|
    ensures 0 <= i && i + |p| <= |s| && s[i + k] == p[k]
  {
    assert s[i..i + |p|][k] == s[i + k];
  }

  lemma OccursByChars(s: string, p: string, i: nat)
    requires i + |p| <= |s| && forall k :: 0 <= k < |p| ==> s[i + k] == p[k]
    ensures OccursAt(s, p, i)
  {
    assert s[i..i + |p|] == p;
  }

  lemma ReversedChar(s: string, p: string, i: nat, k: nat)
    requires OccursAt(s, p, i) && k < |p| && i + |p| <= |s|
    ensures Reverse(s)[|s| - |p| - i + k] == Reverse(p)[k]
  {
    hide Reverse, OccursAt;
    ReverseAt(s, |s| - |p| - i + k);
    ReverseAt(p, k);
    CharOf(s, p, i, |p| - 1 - k);
  }

  lemma ReversedOccurs(s: string, p: string, i: nat)
    requires OccursAt(s, p, i) && i + |p| <= |s|
    ensures OccursAt(Reverse(s), Reverse(p), |s| - |p| - i)
  {
    hide Reverse, OccursAt;
    var j: nat := |s| - |p| - i;
    forall k | 0 <= k < |Reverse(p)| ensures Reverse(s)[j + k] == Reverse(p)[k] { ReversedChar(s, p, i, k); }
    OccursByChars(Reverse(s), Reverse(p), j);
  }

  lemma InBounds(s: string, p: string, i: int)
    requires OccursAt(s, p, i)
    ensures 0 <= i && i + |p| <= |s|
  {
  }

  lemma OccursReversed(s: string, p: string, i: int)
    ensures OccursAt(s, p, i) <==> OccursAt(Reverse(s), Reverse(p), |s| - |p| - i)
  {
    hide Reverse, OccursAt;
    ReverseTwice(s);
    ReverseTwice(p);
    if OccursAt(s, p, i) {
      InBounds(s, p, i);
      ReversedOccurs(s, p, i);
    }
    if OccursAt(Reverse(s), Reverse(p), |s| - |p| - i) {
      InBounds(Reverse(s), Reverse(p), |s| - |p| - i);
      ReversedOccurs(Reverse(s), Reverse(p), |s| - |p| - i);
    }
  }

  /** The last occurrence is the first one read backwards. */
  lemma LastIsFirstReversed(s: string, p: string)
    ensures var f := Find(Reverse(s), Reverse(p), 0);
            FindLast(s, p, |s|) == if f < 0 then -1 else |s| - |p| - f
  {
    hide Find, FindLast, Reverse, OccursAt;
    TooFarRight(s, p);
    forall i ensures OccursAt(s, p, i) <==> OccursAt(Reverse(s), Reverse(p), |s| - |p| - i) { OccursReversed(s, p, i); }
    var f, l := Find(Reverse(s), Reverse(p), 0), FindLast(s, p, |s|);
    if f >= 0 { assert OccursAt(s, p, |s| - |p| - f); }
    if l >= 0 { assert OccursAt(Reverse(s), Reverse(p), |s| - |p| - l); }
  }
}
