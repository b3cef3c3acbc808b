/** The chunked bump allocator of zend_arena.h (the variant that does not track allocations). */
module Arenas {
  const ALIGNMENT: nat := 8
  /** ZEND_MM_ALIGNED_SIZE(sizeof(zend_arena)): three pointers at the start of every chunk. */
  const HEADER: nat := 24

  /** A chunk at address base: allocations fill it from base + HEADER up to ptr; end is one past it. */
  datatype Chunk = Chunk(base: nat, ptr: nat, end: nat)

  /** An allocation: the chunk it lies in (0 is the oldest), its address, its rounded size. */
  datatype Region = Region(chunk: nat, at: nat, size: nat)

  /** A checkpoint: the address that was handed out, and what was live when it was taken. */
  datatype Mark = Mark(address: nat, chunk: nat, count: nat)

  /** The chunks, oldest first, the live allocations, oldest first, and the open checkpoints. */
  datatype State = State(chunks: seq<Chunk>, live: seq<Region>, marks: seq<Mark>)

  function Aligned(size: nat): (n: nat)
    ensures n % ALIGNMENT == 0 && size <= n < size + ALIGNMENT
  {
    (size + ALIGNMENT - 1) / ALIGNMENT * ALIGNMENT
  }

  // ---- invariants ----

  predicate GoodChunk(c: Chunk) {
    c.base > 0 && c.base % ALIGNMENT == 0 && c.ptr % ALIGNMENT == 0 && c.base + HEADER <= c.ptr <= c.end
  }

  predicate Apart(a: Chunk, b: Chunk) {
    a.end <= b.base || b.end <= a.base
  }

  ghost predicate GoodChunks(cs: seq<Chunk>) {
    && cs != []
    && (forall i :: 0 <= i < |cs| ==> GoodChunk(cs[i]))
    && (forall i, j :: 0 <= i < j < |cs| ==> Apart(cs[i], cs[j]))
  }

  /** Aligned and inside the used part of its chunk. */
  predicate Inside(r: Region, cs: seq<Chunk>) {
    && r.chunk < |cs| && r.at % ALIGNMENT == 0
    && cs[r.chunk].base + HEADER <= r.at && r.at + r.size <= cs[r.chunk].ptr
  }

  predicate DisjointRegions(a: Region, b: Region) {
    a.at + a.size <= b.at || b.at + b.size <= a.at
  }

  ghost predicate GoodLive(s: State) {
    && (forall i :: 0 <= i < |s.live| ==> Inside(s.live[i], s.chunks))
    && (forall i, j :: 0 <= i < j < |s.live| ==> DisjointRegions(s.live[i], s.live[j]))
  }

  /** Older allocations lie below the mark, newer ones above it or in newer chunks. */
  ghost predicate GoodMark(m: Mark, s: State) {
    && m.chunk < |s.chunks| && m.count <= |s.live| && m.address % ALIGNMENT == 0
    && s.chunks[m.chunk].base + HEADER <= m.address <= s.chunks[m.chunk].ptr
    && (forall i :: 0 <= i < m.count ==> Before(s.live[i], m))
    && (forall i :: m.count <= i < |s.live| ==> After(s.live[i], m))
  }

  predicate Before(r: Region, m: Mark) {
    r.chunk < m.chunk || (r.chunk == m.chunk && r.at + r.size <= m.address)
  }

  predicate After(r: Region, m: Mark) {
    r.chunk > m.chunk || (r.chunk == m.chunk && r.at >= m.address)
  }

  predicate Nested(a: Mark, b: Mark) {
    a.count <= b.count && (a.chunk < b.chunk || (a.chunk == b.chunk && a.address <= b.address))
  }

  ghost predicate Inv(s: State) {
    && GoodChunks(s.chunks) && GoodLive(s)
    && (forall i :: 0 <= i < |s.marks| ==> GoodMark(s.marks[i], s))
    && (forall i, j :: 0 <= i < j < |s.marks| ==> Nested(s.marks[i], s.marks[j]))
  }

  // ---- operations ----

  /** zend_arena_create */
  function Create(size: nat, base: nat): (s: State)
    requires size >= HEADER && base > 0 && base % ALIGNMENT == 0
    ensures Inv(s)
  {
    State([Chunk(base, base + HEADER, base + size)], [], [])
  }

  /** The size of the chunk zend_arena_alloc asks for when the last one has no room. */
  function NewChunkSize(last: Chunk, size: nat): nat {
    if size + HEADER > last.end - last.base then size + HEADER else last.end - last.base
  }

  predicate HasRoom(s: State, size: nat)
    requires s.chunks != []
  {
    Aligned(size) <= s.chunks[|s.chunks| - 1].end - s.chunks[|s.chunks| - 1].ptr
  }

  /** emalloc: aligned, not null, apart from every chunk in use; freed ranges may come again. */
  predicate FreshBlock(s: State, size: nat, base: nat)
    requires s.chunks != []
  {
    var end := base + NewChunkSize(s.chunks[|s.chunks| - 1], Aligned(size));
    base > 0 && base % ALIGNMENT == 0
    && forall i :: 0 <= i < |s.chunks| ==> Apart(s.chunks[i], Chunk(base, base, end))
  }

  /** zend_arena_alloc; base is where emalloc puts a new chunk, if one is needed. */
  function AllocIn(s: State, size: nat, base: nat): State
    requires s.chunks != []
  {
    var n, top, last := Aligned(size), |s.chunks| - 1, s.chunks[|s.chunks| - 1];
    if HasRoom(s, size) then
      s.(chunks := s.chunks[top := last.(ptr := last.ptr + n)], live := s.live + [Region(top, last.ptr, n)])
    else
      s.(chunks := s.chunks + [Chunk(base, base + HEADER + n, base + NewChunkSize(last, n))],
         live := s.live + [Region(|s.chunks|, base + HEADER, n)])
  }

  /** zend_arena_checkpoint */
  function Save(s: State): State
    requires s.chunks != []
  {
    s.(marks := s.marks + [Mark(s.chunks[|s.chunks| - 1].ptr, |s.chunks| - 1, |s.live|)])
  }

  /** The loop of zend_arena_release: drop chunks from the newest on until the address fits. */
  function PopTo(cs: seq<Chunk>, address: nat): (r: seq<Chunk>)
    ensures |r| <= |cs| && r == cs[..|r|]
  {
    if cs == [] then []
    else
      var last := cs[|cs| - 1];
      if address > last.end || address <= last.base then PopTo(cs[..|cs| - 1], address) else cs
  }

  function Oldest(live: seq<Region>, n: nat): seq<Region> {
    if n <= |live| then live[..n] else live
  }

  /** zend_arena_release to the mark at index i; later marks are gone with it. */
  function ReleaseTo(s: State, i: nat): State
    requires i < |s.marks|
  {
    var m := s.marks[i];
    var cs := PopTo(s.chunks, m.address);
    State(if cs == [] then [] else cs[|cs| - 1 := cs[|cs| - 1].(ptr := m.address)], Oldest(s.live, m.count), s.marks[..i + 1])
  }

  /** zend_arena_contains */
  function Contains(cs: seq<Chunk>, address: nat): bool {
    if cs == [] then false
    else
      var last := cs[|cs| - 1];
      (address > last.base && address <= last.ptr) || Contains(cs[..|cs| - 1], address)
  }

  /** contains: behind the start of some chunk, and not behind the end of what is in use there. */
  lemma {:induction false} ContainsExactly(cs: seq<Chunk>, address: nat)
    ensures Contains(cs, address) <==> exists i :: 0 <= i < |cs| && cs[i].base < address <= cs[i].ptr
  {
    if cs != [] {
      var front := cs[..|cs| - 1];
      ContainsExactly(front, address);
      assert forall i :: 0 <= i < |front| ==> front[i] == cs[i];
    }
  }

  // ---- what the operations keep ----

  /** A new chunk is a good chunk, with the allocation inside, also when it is sized for it. */
  lemma NewChunkGood(s: State, size: nat, base: nat)
    requires GoodChunks(s.chunks) && FreshBlock(s, size, base)
    ensures var n := Aligned(size);
            GoodChunk(Chunk(base, base + HEADER + n, base + NewChunkSize(s.chunks[|s.chunks| - 1], n)))
  {
  }

  lemma AllocKeepsChunks(s: State, size: nat, base: nat)
    requires GoodChunks(s.chunks) && (!HasRoom(s, size) ==> FreshBlock(s, size, base))
    ensures GoodChunks(AllocIn(s, size, base).chunks)
  {
    hide Aligned, NewChunkSize, GoodChunk, GoodChunks;
    LastIsGood(s.chunks);
    var n, last := Aligned(size), s.chunks[|s.chunks| - 1];
    if HasRoom(s, size) {
      RaisedTop(s.chunks, last.ptr + n);
    } else {
      NewChunkGood(s, size, base);
      OneMoreChunk(s.chunks, Chunk(base, base + HEADER + n, base + NewChunkSize(last, n)));
    }
  }

  lemma LastIsGood(cs: seq<Chunk>)
    requires GoodChunks(cs)
    ensures cs != [] && GoodChunk(cs[|cs| - 1])
  {
  }

  lemma RaisedTop(cs: seq<Chunk>, ptr: nat)
    requires GoodChunks(cs) && cs[|cs| - 1].ptr <= ptr <= cs[|cs| - 1].end && ptr % ALIGNMENT == 0
    ensures GoodChunks(cs[|cs| - 1 := cs[|cs| - 1].(ptr := ptr)])
  {
  }

  lemma OneMoreChunk(cs: seq<Chunk>, c: Chunk)
    requires GoodChunks(cs) && GoodChunk(c) && forall i :: 0 <= i < |cs| ==> Apart(cs[i], c)
    ensures GoodChunks(cs + [c])
  {
  }

  /** The new allocation is inside its chunk and apart from every live one. */
  lemma AllocKeepsLive(s: State, size: nat, base: nat)
    requires GoodChunks(s.chunks) && GoodLive(s) && (!HasRoom(s, size) ==> FreshBlock(s, size, base))
    ensures GoodLive(AllocIn(s, size, base))
  {
    hide Aligned, NewChunkSize, FreshBlock;
    AllocKeepsChunks(s, size, base);
    var t := AllocIn(s, size, base);
    var r := t.live[|s.live|];
    forall i | 0 <= i < |s.live| ensures Inside(t.live[i], t.chunks) && DisjointRegions(t.live[i], r) {
      assert Inside(s.live[i], s.chunks);
      if s.live[i].chunk != r.chunk { assert Apart(t.chunks[s.live[i].chunk], t.chunks[r.chunk]); }
    }
  }

  lemma AllocKeepsMarks(s: State, size: nat, base: nat, m: Mark)
    requires GoodChunks(s.chunks) && GoodMark(m, s)
    ensures GoodMark(m, AllocIn(s, size, base))
  {
    hide Aligned;
  }

  lemma AllocKeepsInv(s: State, size: nat, base: nat)
    requires Inv(s) && (!HasRoom(s, size) ==> FreshBlock(s, size, base))
    ensures Inv(AllocIn(s, size, base))
    ensures AllocIn(s, size, base).live[..|s.live|] == s.live
  {
    hide Aligned, HasRoom, FreshBlock, GoodLive, GoodMark;
    AllocKeepsChunks(s, size, base);
    AllocKeepsLive(s, size, base);
    forall i | 0 <= i < |s.marks| ensures GoodMark(s.marks[i], AllocIn(s, size, base)) {
      AllocKeepsMarks(s, size, base, s.marks[i]);
    }
  }

  /**
   * What a caller gets: at least the bytes asked for, rounded up to eight, from where the newest
   * chunk was filled to, when they fit there; else from the start of a new chunk, which is as
   * large as the newest one or just large enough.  Nothing else changes.
   */
  lemma AllocGives(s: State, size: nat, base: nat)
    requires s.chunks != []
    ensures var t, last := AllocIn(s, size, base), s.chunks[|s.chunks| - 1];
            var r := t.live[|s.live|];
            && |t.live| == |s.live| + 1 && t.marks == s.marks
            && size <= r.size < size + 8 && r.size % 8 == 0
            && (if last.ptr + r.size <= last.end then
                  && t.chunks == s.chunks[|s.chunks| - 1 := Chunk(last.base, r.at + r.size, last.end)]
                  && r.chunk == |s.chunks| - 1 && r.at == last.ptr
                else
                  && |t.chunks| == |s.chunks| + 1 && t.chunks[..|s.chunks|] == s.chunks
                  && r.chunk == |s.chunks| && r.at == base + 24
                  && var added := t.chunks[|s.chunks|];
                     && added.base == base && added.ptr == r.at + r.size
                     && added.end - base == if r.size + 24 > last.end - last.base then r.size + 24 else last.end - last.base)
  {
    hide Aligned;
  }

  lemma SaveKeepsInv(s: State)
    requires Inv(s)
    ensures Inv(Save(s))
  {
    var m := Save(s).marks[|s.marks|];
    forall i | 0 <= i < |s.live| ensures Before(s.live[i], m) { assert Inside(s.live[i], s.chunks); }
    forall i | 0 <= i < |s.marks| ensures GoodMark(s.marks[i], Save(s)) && Nested(s.marks[i], m) {
      assert GoodMark(s.marks[i], s);
    }
  }

  /**
   * release stops at the chunk of the checkpoint, even when the checkpoint is that chunk's end
   * and another chunk starts at the same address: address - 1 is in one chunk only.
   */
  lemma {:induction false} PopToMark(cs: seq<Chunk>, k: nat, address: nat)
    requires k < |cs| && forall i :: 0 <= i < |cs| ==> GoodChunk(cs[i])
    requires forall i, j :: 0 <= i < j < |cs| ==> Apart(cs[i], cs[j])
    requires cs[k].base < address <= cs[k].end
    ensures PopTo(cs, address) == cs[..k + 1]
    decreases |cs|
  {
    if k == |cs| - 1 {
      assert cs[..k + 1] == cs;
    } else {
      assert Apart(cs[k], cs[|cs| - 1]);
      PopToMark(cs[..|cs| - 1], k, address);
      assert cs[..|cs| - 1][..k + 1] == cs[..k + 1];
    }
  }

  /** release frees exactly the chunks newer than the checkpoint's, and keeps the older ones as they were. */
  lemma ReleaseEffect(s: State, i: nat)
    requires Inv(s) && i < |s.marks|
    ensures var m, t := s.marks[i], ReleaseTo(s, i);
            && t.live == s.live[..m.count] && t.marks == s.marks[..i + 1]
            && t.chunks == s.chunks[..m.chunk + 1][m.chunk := s.chunks[m.chunk].(ptr := m.address)]
  {
    assert GoodMark(s.marks[i], s) && GoodChunk(s.chunks[s.marks[i].chunk]);
    PopToMark(s.chunks, s.marks[i].chunk, s.marks[i].address);
  }

  lemma ReleaseKeepsMark(s: State, i: nat, j: nat)
    requires Inv(s) && j <= i < |s.marks|
    ensures GoodMark(s.marks[j], ReleaseTo(s, i))
  {
    ReleaseEffect(s, i);
    assert GoodMark(s.marks[i], s) && GoodMark(s.marks[j], s);
    assert j < i ==> Nested(s.marks[j], s.marks[i]);
  }

  lemma ReleaseKeepsInv(s: State, i: nat)
    requires Inv(s) && i < |s.marks|
    ensures Inv(ReleaseTo(s, i))
  {
    ReleaseEffect(s, i);
    var m, t := s.marks[i], ReleaseTo(s, i);
    assert GoodMark(m, s) && GoodChunk(s.chunks[m.chunk]);
    forall j | 0 <= j < |t.live| ensures Inside(t.live[j], t.chunks) {
      assert Inside(s.live[j], s.chunks) && Before(s.live[j], m);
    }
    forall j | 0 <= j < |t.marks| ensures GoodMark(t.marks[j], t) { ReleaseKeepsMark(s, i, j); }
    assert GoodChunks(t.chunks);
  }

  // ---- runs ----

  datatype Op = DoAlloc(size: nat, base: nat) | DoSave | DoRelease(mark: nat)

  /** What the caller owes: memory from emalloc, and a checkpoint that is still open. */
  predicate Enabled(s: State, op: Op) {
    s.chunks != [] &&
    match op
    case DoAlloc(size, base) => !HasRoom(s, size) ==> FreshBlock(s, size, base)
    case DoSave => true
    case DoRelease(i) => i < |s.marks|
  }

  function Step(s: State, op: Op): State
    requires Enabled(s, op)
  {
    match op
    case DoAlloc(size, base) => AllocIn(s, size, base)
    case DoSave => Save(s)
    case DoRelease(i) => ReleaseTo(s, i)
  }

  /** States that a sequence of operations leads through. */
  ghost predicate IsRun(states: seq<State>, ops: seq<Op>) {
    && |states| == |ops| + 1
    && forall i :: 0 <= i < |ops| ==> Enabled(states[i], ops[i]) && states[i + 1] == Step(states[i], ops[i])
  }

  /**
   * In every state of every run: live allocations are aligned, inside their chunks and
   * pairwise disjoint, every open checkpoint is good, and contains answers yes for each of
   * the live allocations.
   */
  lemma {:induction false} EveryRunIsSafe(states: seq<State>, ops: seq<Op>, n: nat)
    requires IsRun(states, ops) && Inv(states[0]) && n < |states|
    ensures Inv(states[n])
    ensures forall i :: 0 <= i < |states[n].live| ==> Contains(states[n].chunks, states[n].live[i].at)
  {
    hide Inv, Enabled, Step;
    if n > 0 {
      EveryRunIsSafe(states, ops, n - 1);
      StepKeepsInv(states[n - 1], ops[n - 1]);
    }
    forall i | 0 <= i < |states[n].live| ensures Contains(states[n].chunks, states[n].live[i].at) {
      LiveContained(states[n], i);
    }
  }

  lemma StepKeepsInv(s: State, op: Op)
    requires Inv(s) && Enabled(s, op)
    ensures Inv(Step(s, op))
  {
    hide Inv;
    match op {
      case DoAlloc(size, base) => AllocKeepsInv(s, size, base);
      case DoSave => SaveKeepsInv(s);
      case DoRelease(i) => ReleaseKeepsInv(s, i);
    }
  }

  lemma LiveContained(s: State, i: nat)
    requires Inv(s) && i < |s.live|
    ensures Contains(s.chunks, s.live[i].at)
  {
    assert Inside(s.live[i], s.chunks);
    ContainedIn(s.chunks, s.live[i].chunk, s.live[i].at);
  }

  lemma {:induction false} ContainedIn(cs: seq<Chunk>, k: nat, address: nat)
    requires k < |cs| && cs[k].base < address <= cs[k].ptr
    ensures Contains(cs, address)
  {
    if k < |cs| - 1 { ContainedIn(cs[..|cs| - 1], k, address); }
  }

  // ---- the linked chunks ----

  /** struct _zend_arena, at address base. */
  class ArenaChunk {
    const base: nat
    const end: nat
    const prev: ArenaChunk?
    var ptr: nat
    /** The older chunks, oldest first. */
    ghost const older: seq<ArenaChunk>

    constructor (base: nat, ptr: nat, end: nat, prev: ArenaChunk?)
      ensures this.base == base && this.ptr == ptr && this.end == end && this.prev == prev
      ensures older == if prev == null then [] else prev.older + [prev]
    {
      this.base, this.ptr, this.end, this.prev := base, ptr, end, prev;
      older := if prev == null then [] else prev.older + [prev];
    }
  }

  /** Every chunk knows the chunks below it. */
  ghost predicate Linked(nodes: seq<ArenaChunk>) {
    nodes != [] && forall i :: 0 <= i < |nodes| ==>
      nodes[i].older == nodes[..i] && (i == 0 ==> nodes[i].prev == null) && (i > 0 ==> nodes[i].prev == nodes[i - 1])
  }

  lemma LinkedPrefix(nodes: seq<ArenaChunk>, n: nat)
    requires Linked(nodes) && 0 < n <= |nodes|
    ensures Linked(nodes[..n]) && nodes[n - 1].older + [nodes[n - 1]] == nodes[..n]
    ensures (n == 1 ==> nodes[n - 1].prev == null) && (n > 1 ==> nodes[n - 1].prev == nodes[n - 2])
    ensures forall i :: 0 <= i < n - 1 ==> nodes[i] != nodes[n - 1]
  {
    forall i | 0 <= i < n ensures nodes[..n][i].older == nodes[..n][..i] {
      assert nodes[..n][..i] == nodes[..i];
    }
    forall i | 0 <= i < n - 1 ensures nodes[i] != nodes[n - 1] {
      assert |nodes[i].older| == i && |nodes[n - 1].older| == n - 1;
    }
  }

  lemma LinkedSnoc(nodes: seq<ArenaChunk>, node: ArenaChunk)
    requires Linked(nodes) && node.older == nodes && node.prev == nodes[|nodes| - 1]
    ensures Linked(nodes + [node])
  {
    var all := nodes + [node];
    forall i | 0 <= i < |all| ensures all[i].older == all[..i] {
      assert all[..i] == nodes[..i];
    }
  }

  ghost function ChunkOf(node: ArenaChunk): Chunk
    reads node
  {
    Chunk(node.base, node.ptr, node.end)
  }

  ghost function ChunksOf(nodes: seq<ArenaChunk>): (cs: seq<Chunk>)
    reads nodes
    ensures |cs| == |nodes| && forall i :: 0 <= i < |nodes| ==> cs[i] == ChunkOf(nodes[i])
  {
    if nodes == [] then [] else ChunksOf(nodes[..|nodes| - 1]) + [ChunkOf(nodes[|nodes| - 1])]
  }

  lemma OneNode(node: ArenaChunk, size: nat, base: nat)
    requires node.prev == null && node.older == []
    requires size >= HEADER && base > 0 && base % ALIGNMENT == 0
    requires node.base == base && node.ptr == base + HEADER && node.end == base + size
    ensures Linked([node]) && State(ChunksOf([node]), [], []) == Create(size, base)
  {
    hide Inv;
    assert [node][..0] == [];
    assert ChunksOf([node]) == ChunksOf([node][..0]) + [ChunkOf(node)];
  }

  /** What a zend_arena pointer leads to. */
  class Arena {
    var arena: ArenaChunk
    ghost var live: seq<Region>
    ghost var marks: seq<Mark>

    ghost function Nodes(): seq<ArenaChunk>
      reads this
    {
      arena.older + [arena]
    }

    ghost function View(): State
      reads this, Nodes()
    {
      State(ChunksOf(Nodes()), live, marks)
    }

    ghost predicate Valid()
      reads this, Nodes()
    {
      Linked(Nodes()) && Inv(View())
    }

    constructor (size: nat, base: nat)
      requires size >= HEADER && base > 0 && base % ALIGNMENT == 0
      ensures Valid() && View() == Create(size, base) && fresh(arena)
    {
      hide Inv, Linked, ChunksOf, Create, ChunkOf;
      var first := new ArenaChunk(base, base + HEADER, base + size, null);
      OneNode(first, size, base);
      arena, live, marks := first, [], [];
      new;
      assert Nodes() == [first];
    }

    /** block is where emalloc puts a new chunk, if one is needed. */
    method Alloc(size: nat, block: nat) returns (address: nat)
      requires Valid() && (!HasRoom(View(), size) ==> FreshBlock(View(), size, block))
      modifies this, arena
      ensures Valid() && View() == AllocIn(old(View()), size, block)
      ensures address == live[|live| - 1].at
    {
      hide Aligned, GoodChunk, GoodLive, GoodMark, FreshBlock, NewChunkSize, Linked, ChunksOf, GoodChunks, Inv;
      AllocKeepsInv(View(), size, block);
      ghost var before, top := View(), |Nodes()| - 1;
      assert before.chunks[top] == ChunkOf(arena);
      var n := Aligned(size);
      address := arena.ptr;
      if n <= arena.end - arena.ptr {
        SetTop(address + n);
        live := live + [Region(top, address, n)];
      } else {
        LastFits(before);
        AddChunk(n, block);
        address := block + HEADER;
        live := live + [Region(top + 1, address, n)];
      }
    }

    method SetTop(address: nat)
      requires Linked(Nodes())
      modifies arena
      ensures ChunksOf(Nodes()) == old(ChunksOf(Nodes()))[|Nodes()| - 1 := old(ChunkOf(arena)).(ptr := address)]
    {
      hide ChunksOf, Linked;
      ghost var nodes := Nodes();
      ghost var before, top := ChunksOf(nodes), ChunkOf(arena);
      LinkedPrefix(nodes, |nodes|);
      arena.ptr := address;
      assert Nodes() == nodes;
      assert ChunksOf(nodes) == before[|nodes| - 1 := top.(ptr := address)];
    }

    /** The branch of alloc that needs another chunk. */
    method AddChunk(n: nat, block: nat)
      requires Linked(Nodes()) && arena.base <= arena.end
      modifies this`arena
      ensures Nodes() == old(Nodes()) + [arena] && Linked(Nodes()) && fresh(arena)
      ensures ChunksOf(Nodes()) == old(ChunksOf(Nodes()))
              + [Chunk(block, block + HEADER + n, block + NewChunkSize(old(ChunkOf(arena)), n))]
    {
      hide ChunksOf, Linked;
      ghost var nodes, before := Nodes(), ChunksOf(Nodes());
      var arenaSize := if n + HEADER > arena.end - arena.base then n + HEADER else arena.end - arena.base;
      var newArena := new ArenaChunk(block, block + HEADER + n, block + arenaSize, arena);
      arena := newArena;
      LinkedPrefix(nodes, |nodes|);
      LinkedSnoc(nodes, newArena);
      assert ChunksOf(Nodes())[..|nodes|] == before;
    }

    method Checkpoint() returns (address: nat)
      requires Valid()
      modifies `marks
      ensures Valid() && View() == Save(old(View())) && address == marks[|marks| - 1].address
    {
      hide Inv;
      SaveKeepsInv(View());
      ghost var before, nodes := View(), Nodes();
      assert before.chunks[|nodes| - 1] == ChunkOf(arena);
      address := arena.ptr;
      marks := marks + [Mark(address, |nodes| - 1, |live|)];
      assert Nodes() == nodes;
    }

    /** release to an open checkpoint. */
    method Release(address: nat, ghost i: nat)
      requires Valid() && i < |marks| && marks[i].address == address
      modifies this, Nodes()
      ensures Valid() && View() == ReleaseTo(old(View()), i)
    {
      hide Inv, GoodMark, ReleaseTo, PopTo, Linked, ChunksOf;
      ReleaseKeepsInv(View(), i);
      ReleaseEffect(View(), i);
      MarkAddress(View(), i);
      ghost var before, nodes, k := View(), Nodes(), marks[i].chunk;
      PopChunks(address, k);
      live, marks := live[..marks[i].count], marks[..i + 1];
      assert ChunksOf(Nodes()) == before.chunks[..k + 1];
      assert ChunkOf(arena) == before.chunks[k] && |Nodes()| == k + 1;
      SetTop(address);
    }

    /** The loop of release: it ends at the chunk that holds the address. */
    method PopChunks(address: nat, ghost k: nat)
      requires Linked(Nodes()) && k < |Nodes()| && GoodChunks(ChunksOf(Nodes()))
      requires ChunksOf(Nodes())[k].base < address <= ChunksOf(Nodes())[k].end
      modifies this`arena
      ensures Nodes() == old(Nodes())[..k + 1] && Linked(Nodes())
    {
      hide GoodChunks, Linked, ChunksOf;
      ghost var nodes, n := Nodes(), |Nodes()|;
      while address > arena.end || address <= arena.base
        invariant k < n <= |nodes| && arena == nodes[n - 1]
        decreases n
      {
        LinkedPrefix(nodes, n);
        assert n - 1 != k;
        assert arena.prev == nodes[n - 2];
        arena, n := arena.prev, n - 1;
      }
      OneChunkHolds(ChunksOf(nodes), k, n - 1, address);
      LinkedPrefix(nodes, n);
    }

    /** zend_arena_contains */
    method ContainsAddress(address: nat) returns (found: bool)
      requires Valid()
      ensures found == Contains(ChunksOf(Nodes()), address)
    {
      hide Inv, Linked, Contains, ChunksOf;
      var a: ArenaChunk? := arena;
      ghost var nodes, n := Nodes(), |Nodes()|;
      assert nodes[..n] == nodes;
      while a != null
        invariant 0 <= n <= |nodes| && (if n == 0 then a == null else a == nodes[n - 1])
        invariant Contains(ChunksOf(nodes[..n]), address) == Contains(ChunksOf(nodes), address)
        decreases n
      {
        LinkedPrefix(nodes, n);
        ContainsStep(nodes, n, address);
        if address > a.base && address <= a.ptr { return true; }
        a, n := a.prev, n - 1;
      }
      found := false;
      ContainsNothing(nodes, address);
    }
  }

  lemma ContainsStep(nodes: seq<ArenaChunk>, n: nat, address: nat)
    requires 0 < n <= |nodes|
    ensures Contains(ChunksOf(nodes[..n]), address)
            <==> (nodes[n - 1].base < address <= nodes[n - 1].ptr) || Contains(ChunksOf(nodes[..n - 1]), address)
  {
    assert nodes[..n][..n - 1] == nodes[..n - 1];
    assert ChunksOf(nodes[..n])[..n - 1] == ChunksOf(nodes[..n - 1]);
  }

  lemma ContainsNothing(nodes: seq<ArenaChunk>, address: nat)
    ensures !Contains(ChunksOf(nodes[..0]), address)
  {
  }

  lemma LastFits(s: State)
    requires Inv(s)
    ensures s.chunks[|s.chunks| - 1].base <= s.chunks[|s.chunks| - 1].end
  {
    LastIsGood(s.chunks);
  }

  lemma MarkAddress(s: State, i: nat)
    requires Inv(s) && i < |s.marks|
    ensures GoodChunks(s.chunks) && s.marks[i].chunk < |s.chunks| && s.marks[i].count <= |s.live|
    ensures s.chunks[s.marks[i].chunk].base < s.marks[i].address <= s.chunks[s.marks[i].chunk].end
  {
    assert GoodMark(s.marks[i], s) && GoodChunk(s.chunks[s.marks[i].chunk]);
  }

  lemma OneChunkHolds(cs: seq<Chunk>, k: nat, j: nat, address: nat)
    requires GoodChunks(cs) && k < |cs| && j < |cs|
    requires cs[k].base < address <= cs[k].end && cs[j].base < address <= cs[j].end
    ensures k == j
  {
  }
}
