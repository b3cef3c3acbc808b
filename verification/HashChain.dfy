/**
 * The collision chains of zend_hash.h: appending a bucket, and deleting from the end with
 * ZEND_HASH_REVERSE_FOREACH ... ZEND_HASH_FOREACH_END_DEL.
 */
module HashChains {
  import opened Text

  /** HT_INVALID_IDX, the end of a chain. */
  const INVALID_IDX: nat := 0xFFFF_FFFF
  /** HT_MAX_SIZE on 64-bit platforms. */
  const MAX_SIZE: nat := 0x8000_0000

  /** val is None for a bucket of type IS_UNDEF. */
  datatype Bucket<+V> = Bucket(h: nat, next: nat, val: Option<V>)

  /** The slot of a hash; or-ing with nTableMask keeps the low bits of h. */
  function Slot(h: nat, slots: nat): (s: nat)
    requires slots > 0
    ensures s < slots
  {
    h % slots
  }

  /** (uint32_t)h | nTableMask, with nTableMask == -m for a power of two m, is slot h & (m - 1) counted from -m. */
  lemma MaskSelectsSlot(h: bv32, m: bv32)
    requires m != 0 && m & (m - 1) == 0
    ensures h | (0 - m) == (0 - m) + (h & (m - 1))
    ensures h & (m - 1) < m
  {
    var low := m - 1;
    assert 0 - m == !low;
    OrNot(h, low);
  }

  lemma OrNot(h: bv32, low: bv32)
    ensures h | !low == !low + (h & low)
  {
    assert h | !low == !low | (h & low);
    assert !low & (h & low) == 0;
    DisjointOr(!low, h & low);
  }

  lemma DisjointOr(a: bv32, b: bv32)
    requires a & b == 0
    ensures a | b == a + b
  {
  }

  // ---- chains ----

  function At(c: seq<nat>, k: nat): nat {
    if k < |c| then c[k] else INVALID_IDX
  }

  /** Following the links from head visits c and then stops. */
  predicate Linked<V>(bs: seq<Bucket<V>>, head: nat, c: seq<nat>) {
    head == At(c, 0) && forall k :: 0 <= k < |c| ==> c[k] < |bs| && bs[c[k]].next == At(c, k + 1)
  }

  predicate NoDuplicates(c: seq<nat>) {
    forall i, j :: 0 <= i < j < |c| ==> c[i] != c[j]
  }

  predicate NewestFirst(c: seq<nat>) {
    forall i, j :: 0 <= i < j < |c| ==> c[i] > c[j]
  }

  predicate LiveIn<V>(bs: seq<Bucket<V>>, slots: nat, used: nat, s: nat, i: nat)
    requires slots > 0
  {
    i < used && i < |bs| && bs[i].val.Some? && Slot(bs[i].h, slots) == s
  }

  /** c lists exactly the live buckets of slot s. */
  ghost predicate Lists<V>(bs: seq<Bucket<V>>, slots: nat, used: nat, s: nat, c: seq<nat>)
    requires slots > 0
  {
    forall i :: i in c <==> LiveIn(bs, slots, used, s, i)
  }

  /** The hash and value of every live bucket, oldest first. */
  function Entries<V>(bs: seq<Bucket<V>>): seq<(nat, V)> {
    if bs == [] then [] else
      var b := bs[|bs| - 1];
      Entries(bs[..|bs| - 1]) + if b.val.Some? then [(b.h, b.val.value)] else []
  }

  /** The links from head visit the live buckets of slot s, once each. */
  ghost predicate GoodSlot<V>(bs: seq<Bucket<V>>, slots: nat, used: nat, s: nat, head: nat, c: seq<nat>)
    requires slots > 0
  {
    Linked(bs, head, c) && NoDuplicates(c) && Lists(bs, slots, used, s, c)
  }

  ghost predicate Inv<V>(heads: seq<nat>, bs: seq<Bucket<V>>, used: nat, count: nat, chains: seq<seq<nat>>) {
    && 0 < |heads| == |chains| && used <= |bs| <= MAX_SIZE
    && (forall s :: 0 <= s < |heads| ==> GoodSlot(bs, |heads|, used, s, heads[s], chains[s]))
    && count == |Entries(bs[..used])|
  }

  ghost predicate Ordered(chains: seq<seq<nat>>) {
    forall s :: 0 <= s < |chains| ==> NewestFirst(chains[s])
  }

  /** What the links visit is determined by where they start. */
  lemma {:induction false} ChainUnique<V>(bs: seq<Bucket<V>>, head: nat, c: seq<nat>, d: seq<nat>)
    requires |bs| <= MAX_SIZE && Linked(bs, head, c) && Linked(bs, head, d)
    ensures c == d
    decreases |c|
  {
    if c != [] && d != [] {
      RestLinked(bs, head, c);
      RestLinked(bs, head, d);
      ChainUnique(bs, bs[head].next, c[1..], d[1..]);
      assert c == [head] + c[1..] && d == [head] + d[1..];
    }
  }

  lemma RestLinked<V>(bs: seq<Bucket<V>>, head: nat, c: seq<nat>)
    requires c != [] && Linked(bs, head, c)
    ensures c[0] == head < |bs| && Linked(bs, bs[head].next, c[1..])
  {
    forall k | 0 <= k < |c[1..]| ensures c[1..][k] < |bs| && bs[c[1..][k]].next == At(c[1..], k + 1) {
      assert c[1..][k] == c[k + 1];
    }
  }

  // ---- what a link or a chain change leaves alone ----

  lemma {:induction false} SameEntries<V>(a: seq<Bucket<V>>, b: seq<Bucket<V>>)
    requires |a| == |b| && forall i :: 0 <= i < |a| ==> a[i].h == b[i].h && a[i].val == b[i].val
    ensures Entries(a) == Entries(b)
    decreases |a|
  {
    if a != [] { SameEntries(a[..|a| - 1], b[..|a| - 1]); }
  }

  lemma EntriesSnoc<V>(bs: seq<Bucket<V>>, used: nat)
    requires used < |bs|
    ensures Entries(bs[..used + 1]) ==
            Entries(bs[..used]) + if bs[used].val.Some? then [(bs[used].h, bs[used].val.value)] else []
  {
    assert bs[..used + 1][..used] == bs[..used];
  }

  /** A slot keeps its chain when no bucket on it, and no live bucket of it, changes. */
  lemma SlotUntouched<V>(bs: seq<Bucket<V>>, bs': seq<Bucket<V>>, slots: nat, used: nat, used': nat, s: nat, head: nat, c: seq<nat>)
    requires slots > 0 && |bs'| == |bs| && GoodSlot(bs, slots, used, s, head, c)
    requires forall i :: i in c ==> i < |bs| && bs'[i] == bs[i]
    requires forall i :: LiveIn(bs', slots, used', s, i) <==> LiveIn(bs, slots, used, s, i)
    ensures GoodSlot(bs', slots, used', s, head, c)
  {
    hide Slot, LiveIn;
    forall k | 0 <= k < |c| ensures c[k] < |bs'| && bs'[c[k]].next == At(c, k + 1) {
      assert c[k] in c;
    }
  }

  // ---- append ----

  lemma AppendSlot<V>(bs: seq<Bucket<V>>, slots: nat, used: nat, s: nat, head: nat, c: seq<nat>, b: Bucket<V>)
    requires slots > 0 && used < |bs| <= MAX_SIZE && GoodSlot(bs, slots, used, s, head, c)
    requires b.val.Some? && Slot(b.h, slots) == s && b.next == head
    ensures GoodSlot(bs[used := b], slots, used + 1, s, used, [used] + c)
  {
    hide Slot;
    var bs', c' := bs[used := b], [used] + c;
    assert !LiveIn(bs, slots, used, s, used);
    assert used !in c;
    forall k | 0 <= k < |c'| ensures c'[k] < |bs'| && bs'[c'[k]].next == At(c', k + 1) {
      if k > 0 { assert c'[k] == c[k - 1] && c[k - 1] in c; }
    }
    forall i, j | 0 <= i < j < |c'| ensures c'[i] != c'[j] {
      assert c'[j] == c[j - 1] && c[j - 1] in c;
    }
    forall i: nat ensures i in c' <==> LiveIn(bs', slots, used + 1, s, i) {
      assert i in c <==> LiveIn(bs, slots, used, s, i);
    }
  }

  /** A bucket written past the used ones and put in front of its chain. */
  lemma AppendKeepsInv<V>(heads: seq<nat>, bs: seq<Bucket<V>>, used: nat, count: nat, chains: seq<seq<nat>>, s: nat, b: Bucket<V>)
    requires Inv(heads, bs, used, count, chains) && used < |bs| && s < |heads|
    requires b.val.Some? && s == Slot(b.h, |heads|) && b.next == heads[s]
    ensures Inv(heads[s := used], bs[used := b], used + 1, count + 1, chains[s := [used] + chains[s]])
    ensures Ordered(chains) ==> Ordered(chains[s := [used] + chains[s]])
    ensures Entries(bs[used := b][..used + 1]) == Entries(bs[..used]) + [(b.h, b.val.value)]
  {
    hide Slot, Entries, GoodSlot, LiveIn;
    var bs' := bs[used := b];
    AppendSlot(bs, |heads|, used, s, heads[s], chains[s], b);
    forall z | 0 <= z < |heads| && z != s ensures GoodSlot(bs', |heads|, used + 1, z, heads[z], chains[z]) {
      AppendOther(bs, |heads|, used, z, heads[z], chains[z], b);
    }
    EntriesSnoc(bs', used);
    assert bs'[..used] == bs[..used];
    forall i | i in chains[s] ensures i < used { ChainBelow(bs, |heads|, used, s, heads[s], chains[s], i); }
    if Ordered(chains) { NewestInFront(chains[s], used); }
  }

  lemma AppendOther<V>(bs: seq<Bucket<V>>, slots: nat, used: nat, s: nat, head: nat, c: seq<nat>, b: Bucket<V>)
    requires slots > 0 && used < |bs| && GoodSlot(bs, slots, used, s, head, c)
    requires Slot(b.h, slots) != s
    ensures GoodSlot(bs[used := b], slots, used + 1, s, head, c)
  {
    hide Slot;
    assert forall i :: i in c ==> LiveIn(bs, slots, used, s, i);
    SlotUntouched(bs, bs[used := b], slots, used, used + 1, s, head, c);
  }

  lemma ChainBelow<V>(bs: seq<Bucket<V>>, slots: nat, used: nat, s: nat, head: nat, c: seq<nat>, i: nat)
    requires slots > 0 && GoodSlot(bs, slots, used, s, head, c) && i in c
    ensures i < used
  {
    assert LiveIn(bs, slots, used, s, i);
  }

  lemma NewestInFront(c: seq<nat>, i: nat)
    requires NewestFirst(c) && forall j :: j in c ==> j < i
    ensures NewestFirst([i] + c)
  {
    var d := [i] + c;
    forall a, b | 0 <= a < b < |d| ensures d[a] > d[b] {
      assert d[b] == c[b - 1] && c[b - 1] in c;
    }
  }

  // ---- delete ----

  function Without(c: seq<nat>, t: nat): seq<nat>
    requires t < |c|
  {
    c[..t] + c[t + 1..]
  }

  lemma WithoutElements(c: seq<nat>, t: nat, i: nat)
    requires t < |c| && NoDuplicates(c)
    ensures i in Without(c, t) <==> i in c && i != c[t]
  {
    var d := Without(c, t);
    if i in c && i != c[t] {
      var k :| 0 <= k < |c| && c[k] == i;
      assert d[if k < t then k else k - 1] == i;
    }
    if i in d {
      var k :| 0 <= k < |d| && d[k] == i;
      assert i == c[if k < t then k else k + 1];
    }
  }

  lemma WithoutOrder(c: seq<nat>, t: nat)
    requires t < |c|
    ensures NoDuplicates(c) ==> NoDuplicates(Without(c, t))
    ensures NewestFirst(c) ==> NewestFirst(Without(c, t))
  {
    var d := Without(c, t);
    assert forall k :: 0 <= k < |d| ==> d[k] == c[if k < t then k else k + 1];
  }

  lemma HeadAt<V>(bs: seq<Bucket<V>>, head: nat, c: seq<nat>)
    requires Linked(bs, head, c) && c != []
    ensures head == c[0]
  {
  }

  /** One link of the walk towards position t of the chain. */
  lemma NextOnChain<V>(bs: seq<Bucket<V>>, head: nat, c: seq<nat>, t: nat, k: nat)
    requires Linked(bs, head, c) && k < t < |c|
    ensures c[k] < |bs| && bs[c[k]].next == c[k + 1]
  {
    hide Linked;
    LinkAt(bs, head, c, k);
  }

  /** The links after bucket c[t] has been taken out: its predecessor, or the head, points past it. */
  function HeadWithout<V>(bs: seq<Bucket<V>>, head: nat, c: seq<nat>, t: nat): nat
    requires t < |c| && c[t] < |bs|
  {
    if t == 0 then bs[c[t]].next else head
  }

  function BucketsWithout<V>(bs: seq<Bucket<V>>, c: seq<nat>, t: nat): (r: seq<Bucket<V>>)
    requires t < |c| && c[t] < |bs| && (t > 0 ==> c[t - 1] < |bs|)
    ensures |r| == |bs| && forall i :: 0 <= i < |bs| ==> r[i].h == bs[i].h && r[i].val == bs[i].val
    ensures forall i :: 0 <= i < |bs| && (t == 0 || i != c[t - 1]) ==> r[i] == bs[i]
    ensures t > 0 ==> r[c[t - 1]].next == bs[c[t]].next
  {
    if t == 0 then bs else bs[c[t - 1] := bs[c[t - 1]].(next := bs[c[t]].next)]
  }

  lemma LinkAt<V>(bs: seq<Bucket<V>>, head: nat, c: seq<nat>, k: nat)
    requires Linked(bs, head, c) && k < |c|
    ensures c[k] < |bs| && bs[c[k]].next == At(c, k + 1)
  {
    hide At;
  }

  lemma WithoutAt(c: seq<nat>, t: nat, k: nat)
    requires t < |c|
    ensures At(Without(c, t), k) == At(c, if k < t then k else k + 1)
  {
  }

  /** The link after the k-th bucket of the shortened chain. */
  lemma UnlinkStep<V>(bs: seq<Bucket<V>>, head: nat, c: seq<nat>, t: nat, k: nat)
    requires Linked(bs, head, c) && NoDuplicates(c) && t < |c| && k < |c| - 1
    ensures t == 0 || c[t - 1] < |bs|
    ensures var m := if k < t then k else k + 1;
            c[m] < |bs| && BucketsWithout(bs, c, t)[c[m]].next == At(c, if k + 1 < t then k + 1 else k + 2)
  {
    hide BucketsWithout, Linked, At, NoDuplicates;
    var m := if k < t then k else k + 1;
    LinkAt(bs, head, c, m);
    LinkAt(bs, head, c, t);
    if t > 0 {
      LinkAt(bs, head, c, t - 1);
      if m != t - 1 { Distinct(c, m, t - 1); }
    }
  }

  lemma Distinct(c: seq<nat>, i: nat, j: nat)
    requires NoDuplicates(c) && i < |c| && j < |c| && i != j
    ensures c[i] != c[j]
  {
    if i < j { assert c[i] != c[j]; } else { assert c[j] != c[i]; }
  }

  lemma UnlinkLinks<V>(bs: seq<Bucket<V>>, head: nat, c: seq<nat>, t: nat)
    requires Linked(bs, head, c) && NoDuplicates(c) && t < |c|
    ensures t == 0 || c[t - 1] < |bs|
    ensures Linked(BucketsWithout(bs, c, t), HeadWithout(bs, head, c, t), Without(c, t))
  {
    hide BucketsWithout, NoDuplicates, At;
    LinkAt(bs, head, c, t);
    if t > 0 { LinkAt(bs, head, c, t - 1); }
    var bs', d := BucketsWithout(bs, c, t), Without(c, t);
    WithoutAt(c, t, 0);
    assert head == At(c, 0);
    forall k | 0 <= k < |d| ensures d[k] < |bs'| && bs'[d[k]].next == At(d, k + 1) {
      UnlinkStep(bs, head, c, t, k);
      assert d[k] == c[if k < t then k else k + 1];
      WithoutAt(c, t, k + 1);
    }
  }

  lemma UnlinkSlot<V>(bs: seq<Bucket<V>>, slots: nat, idx: nat, s: nat, head: nat, c: seq<nat>, t: nat)
    requires slots > 0 && GoodSlot(bs, slots, idx, s, head, c) && t < |c| && c[t] == idx - 1
    ensures c[t] < |bs| && (t == 0 || c[t - 1] < |bs|)
    ensures GoodSlot(BucketsWithout(bs, c, t), slots, idx - 1, s, HeadWithout(bs, head, c, t), Without(c, t))
  {
    hide Slot, BucketsWithout, HeadWithout, Without;
    UnlinkLinks(bs, head, c, t);
    WithoutOrder(c, t);
    forall i: nat ensures i in Without(c, t) <==> LiveIn(BucketsWithout(bs, c, t), slots, idx - 1, s, i) {
      WithoutElements(c, t, i);
      assert i in c <==> LiveIn(bs, slots, idx, s, i);
    }
  }

  lemma UnlinkOther<V>(bs: seq<Bucket<V>>, slots: nat, idx: nat, s: nat, head: nat, c: seq<nat>,
                       z: nat, zhead: nat, d: seq<nat>, t: nat)
    requires slots > 0 && GoodSlot(bs, slots, idx, s, head, c) && t < |c| && c[t] == idx - 1
    requires z != s && GoodSlot(bs, slots, idx, z, zhead, d)
    ensures t == 0 || c[t - 1] < |bs|
    ensures GoodSlot(BucketsWithout(bs, c, t), slots, idx - 1, z, zhead, d)
  {
    hide Slot, BucketsWithout, Linked, NoDuplicates;
    OnChain(bs, slots, idx, s, head, c, t);
    if t > 0 { OnChain(bs, slots, idx, s, head, c, t - 1); }
    var bs' := BucketsWithout(bs, c, t);
    forall i | i in d ensures i < |bs| && bs'[i] == bs[i] {
      assert LiveIn(bs, slots, idx, z, i);
    }
    SlotUntouched(bs, bs', slots, idx, idx - 1, z, zhead, d);
  }

  lemma OnChain<V>(bs: seq<Bucket<V>>, slots: nat, used: nat, s: nat, head: nat, c: seq<nat>, t: nat)
    requires slots > 0 && GoodSlot(bs, slots, used, s, head, c) && t < |c|
    ensures LiveIn(bs, slots, used, s, c[t])
  {
    assert c[t] in c;
  }

  /** The last used bucket taken out of its chain, wherever it stands there. */
  lemma UnlinkKeepsInv<V>(heads: seq<nat>, bs: seq<Bucket<V>>, idx: nat, count: nat, chains: seq<seq<nat>>, s: nat, t: nat)
    requires Inv(heads, bs, idx, count, chains) && idx > 0 && bs[idx - 1].val.Some?
    requires s < |heads| && t < |chains[s]| && chains[s][t] == idx - 1
    ensures t > 0 ==> chains[s][t - 1] < |bs|
    ensures count > 0
    ensures Inv(heads[s := HeadWithout(bs, heads[s], chains[s], t)], BucketsWithout(bs, chains[s], t), idx - 1, count - 1,
                chains[s := Without(chains[s], t)])
    ensures Ordered(chains) ==> Ordered(chains[s := Without(chains[s], t)])
    ensures forall k :: 0 <= k < idx ==> Entries(BucketsWithout(bs, chains[s], t)[..k]) == Entries(bs[..k])
  {
    hide Slot, LiveIn, Entries, BucketsWithout, HeadWithout, Without, GoodSlot, NewestFirst, NoDuplicates;
    var c := chains[s];
    assert GoodSlot(bs, |heads|, idx, s, heads[s], c);
    UnlinkSlot(bs, |heads|, idx, s, heads[s], c, t);
    var bs' := BucketsWithout(bs, c, t);
    forall z | 0 <= z < |heads| && z != s ensures GoodSlot(bs', |heads|, idx - 1, z, heads[z], chains[z]) {
      UnlinkOther(bs, |heads|, idx, s, heads[s], c, z, heads[z], chains[z], t);
    }
    forall k | 0 <= k < idx ensures Entries(bs'[..k]) == Entries(bs[..k]) { SameEntries(bs'[..k], bs[..k]); }
    EntriesSnoc(bs, idx - 1);
    WithoutOrder(c, t);
  }

  /** Nothing to unlink for a bucket of type IS_UNDEF. */
  lemma SkipKeepsInv<V>(heads: seq<nat>, bs: seq<Bucket<V>>, idx: nat, count: nat, chains: seq<seq<nat>>)
    requires Inv(heads, bs, idx, count, chains) && idx > 0 && bs[idx - 1].val.None?
    ensures Inv(heads, bs, idx - 1, count, chains) && Entries(bs[..idx]) == Entries(bs[..idx - 1])
  {
    hide Slot, Entries, GoodSlot;
    EntriesSnoc(bs, idx - 1);
    forall s | 0 <= s < |heads| ensures GoodSlot(bs, |heads|, idx - 1, s, heads[s], chains[s]) {
      SkipSlot(bs, |heads|, idx, s, heads[s], chains[s]);
    }
  }

  lemma SkipSlot<V>(bs: seq<Bucket<V>>, slots: nat, idx: nat, s: nat, head: nat, c: seq<nat>)
    requires slots > 0 && 0 < idx <= |bs| && bs[idx - 1].val.None? && GoodSlot(bs, slots, idx, s, head, c)
    ensures GoodSlot(bs, slots, idx - 1, s, head, c)
  {
    hide Slot, Linked, NoDuplicates;
    assert forall i :: i in c ==> LiveIn(bs, slots, idx, s, i);
    SlotUntouched(bs, bs, slots, idx, idx - 1, s, head, c);
  }

  /** Where the last used bucket stands on its chain; in front, when chains are newest first. */
  lemma OnItsChain<V>(heads: seq<nat>, bs: seq<Bucket<V>>, idx: nat, count: nat, chains: seq<seq<nat>>) returns (s: nat, t: nat)
    requires Inv(heads, bs, idx, count, chains) && idx > 0 && bs[idx - 1].val.Some?
    ensures s == Slot(bs[idx - 1].h, |heads|) && t < |chains[s]| && chains[s][t] == idx - 1
    ensures Ordered(chains) ==> t == 0 && heads[s] == idx - 1
  {
    hide Slot, Entries;
    s := Slot(bs[idx - 1].h, |heads|);
    assert GoodSlot(bs, |heads|, idx, s, heads[s], chains[s]);
    assert LiveIn(bs, |heads|, idx, s, idx - 1);
    assert idx - 1 in chains[s];
    var c := chains[s];
    t :| 0 <= t < |c| && c[t] == idx - 1;
    assert c[0] in c && LiveIn(bs, |heads|, idx, s, c[0]);
    if Ordered(chains) { assert NewestFirst(c); }
  }

  // ---- the table ----

  class HashTable<V> {
    const arData: array<Bucket<V>>
    const arHash: array<nat>
    var nNumUsed: nat
    var nNumOfElements: nat
    /** The chain of every slot. */
    ghost var chains: seq<seq<nat>>

    ghost predicate Valid()
      reads this, arData, arHash
    {
      Inv(arHash[..], arData[..], nNumUsed, nNumOfElements, chains)
    }

    function Contents(): seq<(nat, V)>
      reads this, arData
      requires nNumUsed <= arData.Length
    {
      Entries(arData[..nNumUsed])
    }

    constructor (tableSize: nat)
      requires 0 < tableSize <= MAX_SIZE
      ensures Valid() && fresh(arData) && fresh(arHash) && Ordered(chains)
      ensures arData.Length == tableSize && arHash.Length == 2 * tableSize
      ensures nNumUsed == 0 && Contents() == []
    {
      arData := new Bucket<V>[tableSize](_ => Bucket(0, INVALID_IDX, None));
      arHash := new nat[2 * tableSize](_ => INVALID_IDX);
      nNumUsed, nNumOfElements := 0, 0;
      chains := seq(2 * tableSize, _ => []);
    }

    /** _zend_hash_append_ex. */
    method Append(h: nat, v: V)
      requires Valid() && nNumUsed < arData.Length
      modifies this, arData, arHash
      ensures Valid() && nNumUsed == old(nNumUsed) + 1
      ensures Contents() == old(Contents()) + [(h, v)]
      ensures old(Ordered(chains)) ==> Ordered(chains)
    {
      hide Slot, Entries, GoodSlot;
      ghost var bs, heads := arData[..], arHash[..];
      var idx := nNumUsed;
      nNumUsed := nNumUsed + 1;
      var nIndex := Slot(h, arHash.Length);
      var b := Bucket(h, arHash[nIndex], Some(v));
      AppendKeepsInv(heads, bs, idx, nNumOfElements, chains, nIndex, b);
      arData[idx] := b;
      arHash[nIndex] := idx;
      nNumOfElements := nNumOfElements + 1;
      chains := chains[nIndex := [idx] + chains[nIndex]];
      assert arData[..] == bs[idx := b] && arHash[..] == heads[nIndex := idx];
      assert arData[..nNumUsed] == arData[..][..nNumUsed] && bs[..idx] == old(arData[..nNumUsed]);
    }

    /**
     * One pass of ZEND_HASH_FOREACH_END_DEL for the live bucket idx - 1: walk to its predecessor
     * and link around it.  The walk is entered only where chains are not newest first.
     */
    method Unlink(idx: nat) returns (walked: bool)
      requires 0 < idx <= arData.Length && arData[idx - 1].val.Some?
      requires Inv(arHash[..], arData[..], idx, nNumOfElements, chains)
      modifies arData, arHash, `nNumOfElements, `chains
      ensures Inv(arHash[..], arData[..], idx - 1, nNumOfElements, chains)
      ensures forall k :: 0 <= k < idx ==> Entries(arData[..][..k]) == old(Entries(arData[..][..k]))
      ensures forall k :: 0 <= k < arData.Length ==> arData[k].h == old(arData[k].h) && arData[k].val == old(arData[k].val)
      ensures old(Ordered(chains)) ==> Ordered(chains) && !walked
    {
      hide Slot, Entries, LiveIn, Without, Linked, At, NoDuplicates, NewestFirst;
      ghost var bs, heads := arData[..], arHash[..];
      ghost var s, t := OnItsChain(heads, bs, idx, nNumOfElements, chains);
      ghost var c := chains[s];
      UnlinkKeepsInv(heads, bs, idx, nNumOfElements, chains, s, t);
      assert GoodSlot(bs, |heads|, idx, s, heads[s], c);
      nNumOfElements := nNumOfElements - 1;
      var j := idx - 1;
      var nIndex := Slot(arData[j].h, arHash.Length);
      var i := arHash[nIndex];
      HeadAt(bs, heads[s], c);
      walked := j != i;
      if walked {
        var prev := i;
        ghost var k := 0;
        NextOnChain(bs, heads[s], c, t, 0);
        while arData[prev].next != j
          invariant 0 <= k < t && prev == i == c[k] < arData.Length
          invariant bs[c[k]].next == c[k + 1]
          modifies {}
          decreases t - k
        {
          i := arData[prev].next;
          prev := i;
          k := k + 1;
          NextOnChain(bs, heads[s], c, t, k);
        }
        if k + 1 != t { Distinct(c, k + 1, t); }
        arData[prev] := arData[prev].(next := arData[j].next);
      } else {
        if t != 0 { Distinct(c, 0, t); }
        arHash[nIndex] := arData[j].next;
      }
      chains := chains[s := Without(c, t)];
      assert arData[..] == BucketsWithout(bs, c, t);
      assert arHash[..] == heads[s := HeadWithout(bs, heads[s], c, t)];
    }

    /**
     * The reverse loop, whose body breaks at the first live bucket below limit: what is left is
     * the part of the table below limit, or all of it when the break comes at once.
     */
    method DeleteFromEnd(limit: nat)
      requires Valid()
      modifies this, arData, arHash
      ensures Valid()
      ensures nNumUsed <= old(nNumUsed) && (nNumUsed > 0 ==> nNumUsed <= limit && arData[nNumUsed - 1].val.Some?)
      ensures Contents() == old(Entries(arData[..][..if limit < nNumUsed then limit else nNumUsed]))
      ensures old(Ordered(chains)) ==> Ordered(chains)
    {
      hide Inv, Entries;
      UsedFits();
      ghost var m := if limit < nNumUsed then limit else nNumUsed;
      ghost var kept := Entries(arData[..][..m]);
      var idx: nat := nNumUsed;
      while idx > 0
        invariant idx <= old(nNumUsed) <= arData.Length
        invariant Inv(arHash[..], arData[..], idx, nNumOfElements, chains)
        invariant Entries(arData[..][..if idx < m then idx else m]) == kept
        invariant old(Ordered(chains)) ==> Ordered(chains)
      {
        if arData[idx - 1].val.Some? {
          if idx - 1 < limit { break; }
          var walked := Unlink(idx);
        } else {
          SkipKeepsInv(arHash[..], arData[..], idx, nNumOfElements, chains);
        }
        idx := idx - 1;
      }
      nNumUsed := idx;
      assert arData[..nNumUsed] == arData[..][..nNumUsed];
    }

    lemma UsedFits()
      requires Valid()
      ensures nNumUsed <= arData.Length <= MAX_SIZE
    {
    }
  }

  // ---- whole runs ----

  datatype Op<+V> = Add(h: nat, v: V) | Cut(limit: nat)

  /** Over a run the table is a stack: append pushes, deleting from the end cuts. */
  function Run<V>(ops: seq<Op<V>>): seq<(nat, V)> {
    if ops == [] then [] else
      var l := Run(ops[..|ops| - 1]);
      match ops[|ops| - 1]
      case Add(h, v) => l + [(h, v)]
      case Cut(limit) => if limit < |l| then l[..limit] else l
  }

  lemma {:induction false} FullPrefix<V>(bs: seq<Bucket<V>>, k: nat)
    requires k <= |bs|
    ensures |Entries(bs)| <= |bs|
    ensures |Entries(bs)| == |bs| ==> |Entries(bs[..k])| == k && Entries(bs[..k]) == Entries(bs)[..k]
    decreases |bs|
  {
    if k < |bs| {
      var front := bs[..|bs| - 1];
      FullPrefix(front, k);
      assert front[..k] == bs[..k];
    } else {
      assert bs[..k] == bs;
      if bs != [] { FullPrefix(bs[..|bs| - 1], 0); }
    }
  }

  /** Any run of appends and deletions, the appends staying within the table's capacity. */
  method RunAll<V>(tableSize: nat, ops: seq<Op<V>>) returns (t: HashTable<V>)
    requires 0 < tableSize <= MAX_SIZE
    requires forall k :: 0 <= k < |ops| && ops[k].Add? ==> |Run(ops[..k])| < tableSize
    ensures t.Valid() && Ordered(t.chains) && t.arData.Length == tableSize
    ensures t.nNumUsed <= tableSize && t.Contents() == Run(ops) && t.nNumUsed == |Run(ops)|
  {
    hide Inv, Entries, Ordered;
    t := new HashTable(tableSize);
    var i := 0;
    while i < |ops|
      invariant 0 <= i <= |ops| && fresh(t) && fresh(t.arData) && fresh(t.arHash) && t.arData.Length == tableSize
      invariant t.Valid() && Ordered(t.chains)
      invariant t.nNumUsed <= tableSize && t.Contents() == Run(ops[..i]) && t.nNumUsed == |Run(ops[..i])|
    {
      assert ops[..i + 1][..i] == ops[..i];
      match ops[i] {
        case Add(h, v) =>
          t.Append(h, v);
          t.UsedFits();
        case Cut(limit) =>
          ghost var bs := t.arData[..t.nNumUsed];
          ghost var m := if limit < t.nNumUsed then limit else t.nNumUsed;
          FullPrefix(bs, m);
          assert t.arData[..][..m] == bs[..m];
          t.DeleteFromEnd(limit);
          FullPrefix(t.arData[..t.nNumUsed], 0);
      }
      i := i + 1;
    }
    assert ops[..i] == ops;
  }
}
