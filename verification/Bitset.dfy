/** The word-array bitset of zend_bitset.h as a set of numbers. */
module Bitsets {
  type Word = bv64

  // ---- bits of one word ----

  predicate Odd(w: Word) { w & 1 == 1 }

  function Half(w: Word): Word { w >> 1 }

  function Double(w: Word): Word { w << 1 }

  /** Bit i of a word; shifts by a variable amount are that many shifts by one. */
  predicate Bit(w: Word, i: nat) {
    if i == 0 then Odd(w) else Bit(Half(w), i - 1)
  }

  function Shr(w: Word, k: nat): Word {
    if k == 0 then w else Shr(Half(w), k - 1)
  }

  function Shl(w: Word, k: nat): Word {
    if k == 0 then w else Double(Shl(w, k - 1))
  }

  datatype SetOp = Union | Intersection | Difference

  function Combine(op: SetOp, a: Word, b: Word): Word {
    match op
    case Union => a | b
    case Intersection => a & b
    case Difference => a & !b
  }

  predicate CombineBit(op: SetOp, a: bool, b: bool) {
    match op
    case Union => a || b
    case Intersection => a && b
    case Difference => a && !b
  }

  lemma {:induction false} BitOfShr(w: Word, k: nat, i: nat)
    ensures Bit(Shr(w, k), i) == Bit(w, k + i)
    decreases k
  {
    hide Half, Odd;
    if k > 0 { BitOfShr(Half(w), k - 1, i); }
  }

  lemma {:induction false} ShrShr(w: Word, a: nat, b: nat)
    ensures Shr(Shr(w, a), b) == Shr(w, a + b)
    decreases a
  {
    hide Half;
    if a > 0 { ShrShr(Half(w), a - 1, b); }
  }

  // Shifting in two stages; kept apart from everything that counts the stages.

  lemma Stage2(w: Word)
    ensures (w >> 1) >> 1 == w >> 2
  {
  }

  lemma Stage4(w: Word)
    ensures (w >> 2) >> 2 == w >> 4
  {
  }

  lemma Stage8(w: Word)
    ensures (w >> 4) >> 4 == w >> 8
  {
  }

  lemma Stage16(w: Word)
    ensures (w >> 8) >> 8 == w >> 16
  {
  }

  lemma Stage32(w: Word)
    ensures (w >> 16) >> 16 == w >> 32
  {
  }

  lemma Stage48(w: Word)
    ensures (w >> 32) >> 16 == w >> 48
  {
  }

  lemma Stage56(w: Word)
    ensures (w >> 48) >> 8 == w >> 56
  {
  }

  lemma Stage60(w: Word)
    ensures (w >> 56) >> 4 == w >> 60
  {
  }

  lemma Stage62(w: Word)
    ensures (w >> 60) >> 2 == w >> 62
  {
  }

  lemma Stage63(w: Word)
    ensures (w >> 62) >> 1 == w >> 63
  {
  }

  lemma Shr1(w: Word)
    ensures Shr(w, 1) == w >> 1
  {
    assert Shr(Half(w), 0) == Half(w);
  }

  lemma Shr2(w: Word)
    ensures Shr(w, 2) == w >> 2
  {
    hide Shr;
    Shr1(w);
    Shr1(w >> 1);
    ShrShr(w, 1, 1);
    Stage2(w);
  }

  lemma Shr4(w: Word)
    ensures Shr(w, 4) == w >> 4
  {
    hide Shr;
    Shr2(w);
    Shr2(w >> 2);
    ShrShr(w, 2, 2);
    Stage4(w);
  }

  lemma Shr8(w: Word)
    ensures Shr(w, 8) == w >> 8
  {
    hide Shr;
    Shr4(w);
    Shr4(w >> 4);
    ShrShr(w, 4, 4);
    Stage8(w);
  }

  lemma Shr16(w: Word)
    ensures Shr(w, 16) == w >> 16
  {
    hide Shr;
    Shr8(w);
    Shr8(w >> 8);
    ShrShr(w, 8, 8);
    Stage16(w);
  }

  lemma Shr32(w: Word)
    ensures Shr(w, 32) == w >> 32
  {
    hide Shr;
    Shr16(w);
    Shr16(w >> 16);
    ShrShr(w, 16, 16);
    Stage32(w);
  }

  lemma Shr48(w: Word)
    ensures Shr(w, 48) == w >> 48
  {
    hide Shr;
    Shr32(w);
    Shr16(w >> 32);
    ShrShr(w, 32, 16);
    Stage48(w);
  }

  lemma Shr56(w: Word)
    ensures Shr(w, 56) == w >> 56
  {
    hide Shr;
    Shr48(w);
    Shr8(w >> 48);
    ShrShr(w, 48, 8);
    Stage56(w);
  }

  lemma Shr60(w: Word)
    ensures Shr(w, 60) == w >> 60
  {
    hide Shr;
    Shr56(w);
    Shr4(w >> 56);
    ShrShr(w, 56, 4);
    Stage60(w);
  }

  lemma Shr62(w: Word)
    ensures Shr(w, 62) == w >> 62
  {
    hide Shr;
    Shr60(w);
    Shr2(w >> 60);
    ShrShr(w, 60, 2);
    Stage62(w);
  }

  lemma Shr63(w: Word)
    ensures Shr(w, 63) == w >> 63
  {
    hide Shr;
    Shr62(w);
    Shr1(w >> 62);
    ShrShr(w, 62, 1);
    Stage63(w);
  }

  /** Nothing is left after 64 shifts, and only the top bit after 63. */
  lemma ShrAll(w: Word)
    ensures Shr(w, 63) == w >> 63 && Shr(w, 64) == 0
  {
    hide Shr;
    Shr63(w);
    Shr1(w >> 63);
    ShrShr(w, 63, 1);
    NothingLeft(w);
  }

  lemma NothingLeft(w: Word)
    ensures (w >> 63) >> 1 == 0
  {
  }

  lemma {:induction false} NoBitsInZero(i: nat)
    ensures !Bit(0, i)
  {
    if i > 0 {
      assert Half(0) == 0;
      NoBitsInZero(i - 1);
    }
  }

  lemma OrHalf(a: Word, b: Word)
    ensures (a | b) >> 1 == (a >> 1) | (b >> 1)
  {
  }

  lemma OrOdd(a: Word, b: Word)
    ensures Odd(a | b) <==> Odd(a) || Odd(b)
  {
  }

  lemma AndHalf(a: Word, b: Word)
    ensures (a & b) >> 1 == (a >> 1) & (b >> 1)
  {
  }

  lemma AndOdd(a: Word, b: Word)
    ensures Odd(a & b) <==> Odd(a) && Odd(b)
  {
  }

  lemma AndNotHalf(a: Word, b: Word)
    ensures (a & !b) >> 1 == (a >> 1) & !(b >> 1)
  {
  }

  lemma AndNotOdd(a: Word, b: Word)
    ensures Odd(a & !b) <==> Odd(a) && !Odd(b)
  {
  }

  lemma UnionStep(a: Word, b: Word)
    ensures Half(Combine(Union, a, b)) == Combine(Union, Half(a), Half(b))
    ensures Odd(Combine(Union, a, b)) <==> CombineBit(Union, Odd(a), Odd(b))
  {
    hide Odd;
    OrHalf(a, b);
    OrOdd(a, b);
  }

  lemma IntersectionStep(a: Word, b: Word)
    ensures Half(Combine(Intersection, a, b)) == Combine(Intersection, Half(a), Half(b))
    ensures Odd(Combine(Intersection, a, b)) <==> CombineBit(Intersection, Odd(a), Odd(b))
  {
    hide Odd;
    AndHalf(a, b);
    AndOdd(a, b);
  }

  lemma DifferenceStep(a: Word, b: Word)
    ensures Half(Combine(Difference, a, b)) == Combine(Difference, Half(a), Half(b))
    ensures Odd(Combine(Difference, a, b)) <==> CombineBit(Difference, Odd(a), Odd(b))
  {
    hide Odd;
    AndNotHalf(a, b);
    AndNotOdd(a, b);
  }

  /** One step of a word operation: the lowest bit, and the rest. */
  lemma CombineStep(op: SetOp, a: Word, b: Word)
    ensures Half(Combine(op, a, b)) == Combine(op, Half(a), Half(b))
    ensures Odd(Combine(op, a, b)) <==> CombineBit(op, Odd(a), Odd(b))
  {
    hide Half, Odd, Combine, CombineBit;
    match op
    case Union => UnionStep(a, b);
    case Intersection => IntersectionStep(a, b);
    case Difference => DifferenceStep(a, b);
  }

  /** The word operations work bit by bit. */
  lemma {:induction false} BitsOfCombine(op: SetOp, a: Word, b: Word, i: nat)
    ensures Bit(Combine(op, a, b), i) <==> CombineBit(op, Bit(a, i), Bit(b, i))
    decreases i
  {
    hide Half, Odd, Combine;
    CombineStep(op, a, b);
    if i > 0 { BitsOfCombine(op, Half(a), Half(b), i - 1); }
  }

  lemma {:induction false} ShrZero(k: nat)
    ensures Shr(0, k) == 0
  {
    if k > 0 {
      assert Half(0) == 0;
      ShrZero(k - 1);
    }
  }

  /** One shifted by k is the word whose only bit is bit k. */
  lemma {:induction false} BitsOfOne(k: nat, i: nat)
    requires k < 64
    ensures Shr(Shl(1, k), k + 1) == 0
    ensures Bit(Shl(1, k), i) <==> i == k
    decreases k
  {
    hide Half, Odd, Double;
    if k == 0 {
      HalfOfOne();
      if i > 0 { NoBitsInZero(i - 1); }
    } else {
      var w := Shl(1, k - 1);
      BitsOfOne(k - 1, if i > 0 then i - 1 else 0);
      NoTopBit(w, k);
      NoOverflow(w);
    }
  }

  lemma HalfOfOne()
    ensures Half(1) == 0 && Odd(1) && Shr(0, 0) == 0
  {
  }

  lemma NoTopBit(w: Word, k: nat)
    requires k <= 63 && Shr(w, k) == 0
    ensures w >> 63 == 0
  {
    hide Shr;
    ShrShr(w, k, 63 - k);
    ShrZero(63 - k);
    ShrAll(w);
  }

  lemma NoOverflow(w: Word)
    requires w >> 63 == 0
    ensures Half(Double(w)) == w && !Odd(Double(w))
  {
  }

  // ---- trailing zeros ----

  ghost predicate LowZero(w: Word, n: nat) {
    forall i :: 0 <= i < n ==> !Bit(w, i)
  }

  lemma LowZeroAdd(w: Word, a: nat, b: nat)
    requires LowZero(w, a) && LowZero(Shr(w, a), b)
    ensures LowZero(w, a + b)
  {
    forall i | a <= i < a + b ensures !Bit(w, i) { BitOfShr(w, a, i - a); }
  }

  lemma Low2(w: Word)
    requires w & 0x3 == 0
    ensures LowZero(w, 2)
  {
    assert w & 1 == 0 && (w >> 1) & 1 == 0;
    assert Bit(w, 1) == Bit(Half(w), 0);
  }

  lemma Low4(w: Word)
    requires w & 0xf == 0
    ensures LowZero(w, 4)
  {
    assert w & 0x3 == 0 && (w >> 2) & 0x3 == 0;
    Low2(w);
    Low2(w >> 2);
    Shr2(w);
    LowZeroAdd(w, 2, 2);
  }

  lemma Low8(w: Word)
    requires w & 0xff == 0
    ensures LowZero(w, 8)
  {
    assert w & 0xf == 0 && (w >> 4) & 0xf == 0;
    Low4(w);
    Low4(w >> 4);
    Shr4(w);
    LowZeroAdd(w, 4, 4);
  }

  lemma Low16(w: Word)
    requires w & 0xffff == 0
    ensures LowZero(w, 16)
  {
    assert w & 0xff == 0 && (w >> 8) & 0xff == 0;
    Low8(w);
    Low8(w >> 8);
    Shr8(w);
    LowZeroAdd(w, 8, 8);
  }

  lemma Low32(w: Word)
    requires w & 0xffff_ffff == 0
    ensures LowZero(w, 32)
  {
    assert w & 0xffff == 0 && (w >> 16) & 0xffff == 0;
    Low16(w);
    Low16(w >> 16);
    Shr16(w);
    LowZeroAdd(w, 16, 16);
  }

  // Some bit is left in the part that is looked at next.

  lemma Narrow32(w: Word)
    requires w != 0 && w & 0xffff_ffff == 0
    ensures (w >> 32) & 0xffff_ffff != 0
  {
  }

  lemma Narrow16(w: Word)
    requires w & 0xffff_ffff != 0 && w & 0xffff == 0
    ensures (w >> 16) & 0xffff != 0 && w >> 16 != 0
  {
  }

  lemma Narrow8(w: Word)
    requires w & 0xffff != 0 && w & 0xff == 0
    ensures (w >> 8) & 0xff != 0 && w >> 8 != 0
  {
  }

  lemma Narrow4(w: Word)
    requires w & 0xff != 0 && w & 0xf == 0
    ensures (w >> 4) & 0xf != 0 && w >> 4 != 0
  {
  }

  lemma Narrow2(w: Word)
    requires w & 0xf != 0 && w & 0x3 == 0
    ensures (w >> 2) & 0x3 != 0 && w >> 2 != 0
  {
  }

  lemma LastTwo(w: Word)
    requires w & 0x3 != 0
    ensures Odd(w) || Odd(Half(w))
  {
  }

  /** The last step: one of the two lowest bits that are left. */
  lemma LowestOfTwo(word: Word, n: nat, num: Word)
    requires num == Shr(word, n) && LowZero(word, n) && num & 0x3 != 0
    ensures if Odd(num) then Bit(word, n) else Bit(word, n + 1) && LowZero(word, n + 1)
  {
    hide LowZero, Shr, Odd, Half;
    LastTwo(num);
    BitOfShr(word, n, 0);
    BitOfShr(word, n, 1);
    assert Bit(num, 1) == Bit(Half(num), 0);
    if !Odd(num) { LowZeroOne(word, n); }
  }

  /** zend_ulong_ntz, the portable variant: the lowest bit, or 64 for zero. */
  method Ntz(word: Word) returns (r: nat)
    ensures word == 0 ==> r == 64
    ensures word != 0 ==> r < 64 && Bit(word, r) && LowZero(word, r)
  {
    hide LowZero, Shr, Bit;
    if word == 0 { return 64; }
    NoLowZeroYet(word);
    NotShifted(word);
    var n, num := 0, word;
    if num & 0xffff_ffff == 0 {
      Low32(num);
      Shr32(num);
      Narrow32(num);
      num := num >> 32;
      n := n + 32;
    }
    if num & 0xffff == 0 { n, num := DropLow(word, n, num, 16); }
    if num & 0xff == 0 { n, num := DropLow(word, n, num, 8); }
    if num & 0xf == 0 { n, num := DropLow(word, n, num, 4); }
    if num & 0x3 == 0 { n, num := DropLow(word, n, num, 2); }
    r := n + 1 - (if Odd(num) then 1 else 0);
    LowestOfTwo(word, n, num);
  }

  lemma NoLowZeroYet(w: Word)
    ensures LowZero(w, 0)
  {
  }

  lemma LowZeroOne(w: Word, n: nat)
    requires LowZero(w, n) && !Bit(w, n)
    ensures LowZero(w, n + 1)
  {
  }

  /** One halving step: the low k bits are zero and are shifted out. */
  method DropLow(word: Word, n: nat, num: Word, k: nat) returns (n1: nat, num1: Word)
    requires k == 16 || k == 8 || k == 4 || k == 2
    requires num == Shr(word, n) && LowZero(word, n)
    requires k == 16 ==> num & 0xffff_ffff != 0 && num & 0xffff == 0
    requires k == 8 ==> num & 0xffff != 0 && num & 0xff == 0
    requires k == 4 ==> num & 0xff != 0 && num & 0xf == 0
    requires k == 2 ==> num & 0xf != 0 && num & 0x3 == 0
    ensures n1 == n + k && num1 == Shr(word, n1) && LowZero(word, n1)
    ensures k == 16 ==> num1 & 0xffff != 0
    ensures k == 8 ==> num1 & 0xff != 0
    ensures k == 4 ==> num1 & 0xf != 0
    ensures k == 2 ==> num1 & 0x3 != 0
  {
    hide LowZero, Shr;
    n1 := n + k;
    if k == 16 {
      Low16(num);
      Shr16(num);
      Narrow16(num);
      num1 := num >> 16;
    } else if k == 8 {
      Low8(num);
      Shr8(num);
      Narrow8(num);
      num1 := num >> 8;
    } else if k == 4 {
      Low4(num);
      Shr4(num);
      Narrow4(num);
      num1 := num >> 4;
    } else {
      Low2(num);
      Shr2(num);
      Narrow2(num);
      num1 := num >> 2;
    }
    LowZeroAdd(word, n, k);
    ShrShr(word, n, k);
  }

  lemma ZeroStep(w: Word)
    ensures w == 0 <==> !Odd(w) && Half(w) == 0
  {
  }

  /** A word without a bit among its lowest n, and nothing above, is zero. */
  lemma {:induction false} SomeBit(w: Word, n: nat)
    requires w != 0 && Shr(w, n) == 0
    ensures exists i :: 0 <= i < n && Bit(w, i)
    decreases n
  {
    hide Half, Odd;
    ZeroStep(w);
    if Odd(w) {
      assert Bit(w, 0);
    } else {
      SomeBit(Half(w), n - 1);
      var i :| 0 <= i < n - 1 && Bit(Half(w), i);
      assert Bit(w, i + 1);
    }
  }

  lemma ZeroWord(w: Word)
    ensures w == 0 <==> forall i :: 0 <= i < 64 ==> !Bit(w, i)
  {
    if w == 0 {
      forall i: nat ensures !Bit(0, i) { NoBitsInZero(i); }
    } else {
      ShrAll(w);
      SomeBit(w, 64);
    }
  }

  // ---- sets ----

  /** The numbers in the set that an array of words stands for. */
  function Members(ws: seq<Word>): set<nat> {
    set n: nat | n < 64 * |ws| && Bit(ws[n / 64], n % 64)
  }

  lemma MembersByWord(ws: seq<Word>, k: nat, i: nat)
    requires k < |ws| && i < 64
    ensures 64 * k + i in Members(ws) <==> Bit(ws[k], i)
  {
    assert (64 * k + i) / 64 == k && (64 * k + i) % 64 == i;
  }

  /** Two arrays that differ in one word, by one bit. */
  lemma ChangeOne(ws: seq<Word>, n: nat, w: Word, present: bool)
    requires n < 64 * |ws|
    requires forall i :: 0 <= i < 64 ==> (Bit(w, i) <==> if i == n % 64 then present else Bit(ws[n / 64], i))
    ensures Members(ws[n / 64 := w]) == if present then Members(ws) + {n} else Members(ws) - {n}
  {
    var after := ws[n / 64 := w];
    forall m: nat | m < 64 * |ws|
      ensures m in Members(after) <==> if m == n then present else m in Members(ws)
    {
      assert m == 64 * (m / 64) + m % 64;
    }
  }

  method Contains(a: array<Word>, n: nat) returns (found: bool)
    requires n < 64 * a.Length
    ensures found <==> n in Members(a[..])
  {
    hide Half, Odd, Shr;
    found := Odd(Shr(a[n / 64], n % 64));
    BitOfShr(a[n / 64], n % 64, 0);
  }

  method Incl(a: array<Word>, n: nat)
    requires n < 64 * a.Length
    modifies a
    ensures Members(a[..]) == old(Members(a[..])) + {n}
  {
    hide Combine, Half, Odd, Bit, Shr, Shl;
    ghost var before := a[..];
    var w := Combine(Union, a[n / 64], Shl(1, n % 64));
    forall i | 0 <= i < 64 ensures Bit(w, i) <==> if i == n % 64 then true else Bit(a[n / 64], i) {
      BitsOfCombine(Union, a[n / 64], Shl(1, n % 64), i);
      BitsOfOne(n % 64, i);
    }
    ChangeOne(before, n, w, true);
    a[n / 64] := w;
    assert a[..] == before[n / 64 := w];
  }

  method Excl(a: array<Word>, n: nat)
    requires n < 64 * a.Length
    modifies a
    ensures Members(a[..]) == old(Members(a[..])) - {n}
  {
    hide Combine, Half, Odd, Bit, Shr, Shl;
    ghost var before := a[..];
    var w := Combine(Difference, a[n / 64], Shl(1, n % 64));
    forall i | 0 <= i < 64 ensures Bit(w, i) <==> if i == n % 64 then false else Bit(a[n / 64], i) {
      BitsOfCombine(Difference, a[n / 64], Shl(1, n % 64), i);
      BitsOfOne(n % 64, i);
    }
    ChangeOne(before, n, w, false);
    a[n / 64] := w;
    assert a[..] == before[n / 64 := w];
  }

  function CombineSets(op: SetOp, a: set<nat>, b: set<nat>): set<nat> {
    match op
    case Union => a + b
    case Intersection => a * b
    case Difference => a - b
  }

  lemma CombineMembers(op: SetOp, a: seq<Word>, b: seq<Word>, c: seq<Word>)
    requires |a| == |b| == |c| && forall k :: 0 <= k < |a| ==> c[k] == Combine(op, a[k], b[k])
    ensures Members(c) == CombineSets(op, Members(a), Members(b))
  {
    hide Bit, Combine;
    forall n: nat | n < 64 * |a| ensures n in Members(c) <==> n in CombineSets(op, Members(a), Members(b)) {
      BitsOfCombine(op, a[n / 64], b[n / 64], n % 64);
    }
  }

  /** zend_bitset_union, zend_bitset_intersection and zend_bitset_difference; b may be a itself. */
  method CombineInto(op: SetOp, a: array<Word>, b: array<Word>)
    requires a.Length == b.Length
    modifies a
    ensures Members(a[..]) == CombineSets(op, old(Members(a[..])), old(Members(b[..])))
  {
    ghost var x, y := a[..], b[..];
    var i := 0;
    while i < a.Length
      invariant 0 <= i <= a.Length
      invariant forall k :: 0 <= k < i ==> a[k] == Combine(op, x[k], y[k])
      invariant forall k :: i <= k < a.Length ==> a[k] == x[k]
      invariant forall k :: i <= k < a.Length ==> b[k] == y[k]
    {
      a[i] := Combine(op, a[i], b[i]);
      i := i + 1;
    }
    CombineMembers(op, x, y, a[..]);
  }

  method Subset(a: array<Word>, b: array<Word>) returns (r: bool)
    requires a.Length == b.Length
    ensures r <==> Members(a[..]) <= Members(b[..])
  {
    hide Combine, Half, Odd, Bit, Shr, Shl;
    var i := 0;
    while i < a.Length
      invariant 0 <= i <= a.Length
      invariant forall k :: 0 <= k < i ==> Combine(Difference, a[k], b[k]) == 0
    {
      if Combine(Difference, a[i], b[i]) != 0 {
        MissingMember(a[..], b[..], i);
        return false;
      }
      i := i + 1;
    }
    NoneMissing(a[..], b[..]);
    r := true;
  }

  lemma MissingMember(a: seq<Word>, b: seq<Word>, k: nat)
    requires |a| == |b| && k < |a| && Combine(Difference, a[k], b[k]) != 0
    ensures !(Members(a) <= Members(b))
  {
    hide Combine, Half, Odd, Bit, Shr, Shl;
    ZeroWord(Combine(Difference, a[k], b[k]));
    var i :| 0 <= i < 64 && Bit(Combine(Difference, a[k], b[k]), i);
    BitsOfCombine(Difference, a[k], b[k], i);
    MembersByWord(a, k, i);
    MembersByWord(b, k, i);
  }

  lemma NoneMissing(a: seq<Word>, b: seq<Word>)
    requires |a| == |b| && forall k :: 0 <= k < |a| ==> Combine(Difference, a[k], b[k]) == 0
    ensures Members(a) <= Members(b)
  {
    hide Combine, Half, Odd, Bit, Shr, Shl;
    forall n: nat | n in Members(a) ensures n in Members(b) {
      ZeroWord(Combine(Difference, a[n / 64], b[n / 64]));
      BitsOfCombine(Difference, a[n / 64], b[n / 64], n % 64);
    }
  }

  // ---- least and greatest ----

  ghost predicate IsFirst(r: int, s: set<nat>) {
    if r < 0 then r == -1 && s == {} else r in s && forall m :: m in s ==> r <= m
  }

  ghost predicate IsLast(r: int, s: set<nat>) {
    if r < 0 then r == -1 && s == {} else r in s && forall m :: m in s ==> m <= r
  }

  /** Words without bits contribute nothing. */
  lemma NothingIn(ws: seq<Word>, lo: nat, hi: nat, m: nat)
    requires lo <= hi <= |ws| && forall k :: lo <= k < hi ==> ws[k] == 0
    requires m in Members(ws)
    ensures m < 64 * lo || m >= 64 * hi
  {
    if lo <= m / 64 < hi { NoBitsInZero(m % 64); }
  }

  method First(a: array<Word>) returns (r: int)
    ensures IsFirst(r, Members(a[..]))
  {
    var i := 0;
    while i < a.Length
      invariant 0 <= i <= a.Length
      invariant forall k :: 0 <= k < i ==> a[k] == 0
    {
      if a[i] != 0 {
        var z := Ntz(a[i]);
        r := 64 * i + z;
        LowestIs(a[..], i, z);
        return;
      }
      i := i + 1;
    }
    forall m | m in Members(a[..]) ensures false { NothingIn(a[..], 0, a.Length, m); }
    r := -1;
  }

  lemma LowestIs(ws: seq<Word>, k: nat, z: nat)
    requires k < |ws| && z < 64 && Bit(ws[k], z) && LowZero(ws[k], z)
    requires forall j :: 0 <= j < k ==> ws[j] == 0
    ensures IsFirst(64 * k + z, Members(ws))
  {
    MembersByWord(ws, k, z);
    forall m | m in Members(ws) ensures 64 * k + z <= m {
      NothingIn(ws, 0, k, m);
    }
  }

  method Last(a: array<Word>) returns (r: int)
    ensures IsLast(r, Members(a[..]))
  {
    var i := a.Length;
    while i > 0
      invariant 0 <= i <= a.Length
      invariant forall k :: i <= k < a.Length ==> a[k] == 0
    {
      i := i - 1;
      if a[i] != 0 {
        var c := BitLength(a[i]);
        HighestIs(a[..], i, c - 1);
        return 64 * i - 1 + c;
      }
    }
    forall m | m in Members(a[..]) ensures false { NothingIn(a[..], 0, a.Length, m); }
    r := -1;
  }

  /** The inner loop of zend_bitset_last: how many shifts empty the word. */
  method BitLength(w: Word) returns (c: nat)
    requires w != 0
    ensures 0 < c <= 64 && Bit(w, c - 1) && Shr(w, c) == 0
  {
    var x := w;
    c := 0;
    ShrAll(w);
    while x != 0
      invariant c <= 64 && x == Shr(w, c)
      invariant c > 0 && x == 0 ==> Bit(w, c - 1)
      decreases 64 - c
    {
      BitOfShr(w, c, 0);
      ShrShr(w, c, 1);
      ZeroStep(x);
      x := Half(x);
      c := c + 1;
    }
  }

  lemma HighestIs(ws: seq<Word>, k: nat, z: nat)
    requires k < |ws| && z < 64 && Bit(ws[k], z) && Shr(ws[k], z + 1) == 0
    requires forall j :: k < j < |ws| ==> ws[j] == 0
    ensures IsLast(64 * k + z, Members(ws))
  {
    MembersByWord(ws, k, z);
    forall m | m in Members(ws) ensures m <= 64 * k + z {
      NothingIn(ws, k + 1, |ws|, m);
      if m / 64 == k && m % 64 > z {
        BitOfShr(ws[k], z + 1, m % 64 - z - 1);
        NoBitsInZero(m % 64 - z - 1);
      }
    }
  }

  method PopFirst(a: array<Word>) returns (r: int)
    modifies a
    ensures IsFirst(r, old(Members(a[..])))
    ensures Members(a[..]) == old(Members(a[..])) - {r}
  {
    r := First(a);
    if r >= 0 { Excl(a, r); }
  }

  // ---- enumeration ----

  ghost predicate Increasing(s: seq<int>) {
    forall i, j :: 0 <= i < j < |s| ==> s[i] < s[j]
  }

  /** The members, each once, in increasing order. */
  ghost predicate Enumerates(out: seq<int>, s: set<nat>) {
    Increasing(out) && (forall m :: m in out ==> m >= 0 && m in s) && (forall m: nat :: m in s ==> m in out)
  }

  lemma IncreasingSnoc(s: seq<int>, r: int)
    requires Increasing(s) && forall m :: m in s ==> m < r
    ensures Increasing(s + [r])
  {
    forall i, j | 0 <= i < j < |s + [r]| ensures (s + [r])[i] < (s + [r])[j] {
      assert s[i] in s;
    }
  }

  /** out lists all but the members in rest, which are still to come. */
  ghost predicate Popped(out: seq<int>, rest: set<nat>, all: set<nat>) {
    && rest <= all
    && Increasing(out)
    && (forall m :: m in out ==> m >= 0 && m in all)
    && (forall m: nat :: m in all ==> m in out || m in rest)
    && (forall m, k :: m in out && k in rest ==> m < k)
  }

  lemma PopStep(out: seq<int>, rest: set<nat>, all: set<nat>, r: nat)
    requires Popped(out, rest, all) && r in rest && forall m :: m in rest ==> r <= m
    ensures Popped(out + [r], rest - {r}, all)
  {
    IncreasingSnoc(out, r);
  }

  /** pop_first until it answers -1. */
  method PopAll(a: array<Word>) returns (out: seq<int>)
    modifies a
    ensures Enumerates(out, old(Members(a[..])))
    ensures Members(a[..]) == {}
  {
    hide Members, Popped;
    out := [];
    ghost var all := Members(a[..]);
    ghost var rest := all;
    NothingPopped(all);
    var r := PopFirst(a);
    while r >= 0
      invariant Popped(out, rest, all) && IsFirst(r, rest) && Members(a[..]) == rest - {r}
      decreases |rest|
    {
      PopStep(out, rest, all, r);
      out := out + [r];
      rest := rest - {r};
      r := PopFirst(a);
    }
    AllPopped(out, all);
  }

  lemma NothingPopped(all: set<nat>)
    ensures Popped([], all, all)
  {
  }

  lemma AllPopped(out: seq<int>, all: set<nat>)
    requires Popped(out, {}, all)
    ensures Enumerates(out, all)
  {
  }

  /** ZEND_BITSET_FOREACH: word by word, bit by bit. */
  method ForEach(a: array<Word>) returns (out: seq<int>)
    ensures Enumerates(out, Members(a[..]))
  {
    out := [];
    var i := 0;
    while i < a.Length
      invariant 0 <= i <= a.Length
      invariant Increasing(out) && forall m :: m in out ==> 0 <= m < 64 * i && m in Members(a[..])
      invariant forall m :: m in Members(a[..]) && m < 64 * i ==> m in out
    {
      if a[i] != 0 { out := ForEachBit(a[..], i, out); } else { SkipZero(a[..], i); }
      i := i + 1;
    }
  }

  lemma SkipZero(ws: seq<Word>, k: nat)
    requires k < |ws| && ws[k] == 0
    ensures forall m :: m in Members(ws) ==> m < 64 * k || m >= 64 * (k + 1)
  {
    forall m | m in Members(ws) ensures m < 64 * k || m >= 64 * (k + 1) { NothingIn(ws, k, k + 1, m); }
  }

  /** The inner loop: shift the word down until it is empty. */
  method ForEachBit(ws: seq<Word>, k: nat, before: seq<int>) returns (out: seq<int>)
    requires k < |ws| && Increasing(before) && forall m :: m in before ==> 0 <= m < 64 * k && m in Members(ws)
    requires forall m :: m in Members(ws) && m < 64 * k ==> m in before
    ensures Increasing(out) && forall m :: m in out ==> 0 <= m < 64 * (k + 1) && m in Members(ws)
    ensures forall m :: m in Members(ws) && m < 64 * (k + 1) ==> m in out
  {
    hide Members, Increasing, Odd, Half, Shr;
    out := before;
    var x, bit := ws[k], 64 * k;
    NotShifted(ws[k]);
    ShrAll(ws[k]);
    while x != 0
      invariant 64 * k <= bit <= 64 * (k + 1) && x == Shr(ws[k], bit - 64 * k)
      invariant Increasing(out) && forall m :: m in out ==> 0 <= m < bit && m in Members(ws)
      invariant forall m :: m in Members(ws) && m < bit ==> m in out
      decreases 64 * (k + 1) - bit
    {
      if bit == 64 * (k + 1) { assert false; }
      BitHere(ws, k, bit);
      if Odd(x) {
        IncreasingSnoc(out, bit);
        out := out + [bit];
      }
      x := Half(x);
      bit := bit + 1;
    }
    forall m | m in Members(ws) ensures m < bit || m >= 64 * (k + 1) {
      if bit <= m < 64 * (k + 1) { NoneAbove(ws, k, bit, m); }
    }
  }

  lemma NotShifted(w: Word)
    ensures Shr(w, 0) == w
  {
  }

  /** One pass of the inner loop: the lowest bit that is left, and the word without it. */
  lemma BitHere(ws: seq<Word>, k: nat, bit: nat)
    requires k < |ws| && 64 * k <= bit < 64 * (k + 1)
    ensures bit in Members(ws) <==> Odd(Shr(ws[k], bit - 64 * k))
    ensures Half(Shr(ws[k], bit - 64 * k)) == Shr(ws[k], bit + 1 - 64 * k)
  {
    hide Members, Odd, Half;
    var c := bit - 64 * k;
    BitOfShr(ws[k], c, 0);
    ShrShr(ws[k], c, 1);
    NotShifted(Half(Shr(ws[k], c)));
    MembersByWord(ws, k, c);
  }

  lemma NoneAbove(ws: seq<Word>, k: nat, bit: nat, m: nat)
    requires k < |ws| && 64 * k <= bit <= m < 64 * (k + 1) && Shr(ws[k], bit - 64 * k) == 0
    ensures m !in Members(ws)
  {
    hide Members;
    MembersByWord(ws, k, m - 64 * k);
    NoBitsInZero(m - bit);
    BitOfShr(ws[k], bit - 64 * k, m - bit);
  }

  /** There is one enumeration: pop_first and FOREACH yield the same sequence. */
  lemma {:induction false} EnumerationUnique(a: seq<int>, b: seq<int>, s: set<nat>)
    requires Enumerates(a, s) && Enumerates(b, s)
    ensures a == b
    decreases |a|
  {
    if a == [] {
      FirstListed(b, s);
    } else {
      assert a[0] in a && a[0] in b;
      var j :| 0 <= j < |b| && b[j] == a[0];
      assert b[0] in b && b[0] in a;
      var i :| 0 <= i < |a| && a[i] == b[0];
      assert a[0] == b[0];
      var t := s - {a[0]};
      RestEnumerates(a, s);
      RestEnumerates(b, s);
      EnumerationUnique(a[1..], b[1..], t);
    }
  }

  lemma FirstListed(b: seq<int>, s: set<nat>)
    requires Enumerates(b, s)
    ensures b == [] || (b[0] >= 0 && b[0] in s)
  {
    if b != [] { assert b[0] in b; }
  }

  lemma RestEnumerates(a: seq<int>, s: set<nat>)
    requires Enumerates(a, s) && a != []
    ensures Enumerates(a[1..], s - {a[0]})
  {
    forall m: nat | m in s - {a[0]} ensures m in a[1..] {
      var i :| 0 <= i < |a| && a[i] == m;
      assert a[1..][i - 1] == m;
    }
    forall m | m in a[1..] ensures m in a && m != a[0] {
      var i :| 0 <= i < |a[1..]| && a[1..][i] == m;
      assert a[i + 1] == m && a[0] < a[i + 1];
    }
  }
}
