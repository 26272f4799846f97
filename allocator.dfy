/**
 * The chunk allocator of chuck_allocator/allocator.cpp.
 *
 * `MemManager` owns a list of arenas, newest first. Every arena carries an
 * address-ordered list of chunk headers. The model keeps both lists as
 * sequences of records: an arena is known by the identity of the memory
 * block it was carved from, and a chunk by the offset of its user bytes
 * from the start of its arena's data area. A pointer handed to the user is
 * such a pair (arena identity, offset).
 *
 * Chunk offsets are explicit, never derived from the sizes of earlier
 * chunks: the source shrinks a chunk's recorded size without moving its
 * neighbours, so the recorded sizes may leave unrecorded slack.
 */
module ChunkAllocator {

  /** `sizeof(ChunkNode)`: two pointers, a `size_t` and a `bool`, padded. */
  const H: nat := 32

  /** `std::numeric_limits<size_t>::max()` on a 64-bit target. */
  const SIZE_MAX: nat := 0xFFFF_FFFF_FFFF_FFFF

  type Positive = n: nat | n > 0 witness 1

  /** A chunk header: where its user bytes start, how many it records, whether it is free. */
  datatype Chunk = Chunk(offset: nat, size: nat, free: bool)

  /** An arena (`MemNode`): the block it lives in, its usable size, its chunks in address order. */
  datatype Arena = Arena(id: nat, size: nat, chunks: seq<Chunk>)

  /** A user pointer: the arena block and the offset into its data area. */
  datatype Ptr = Ptr(arena: nat, offset: nat)

  /** A chunk position: arena index (from `root`) and chunk index within it. */
  datatype Pos = Pos(arena: nat, chunk: nat)

  datatype Option<T> = None | Some(value: T)

  /** What an allocation leaves behind: the new arena list and the pointer returned. */
  datatype Outcome = Outcome(arenas: seq<Arena>, ptr: Ptr)

  // ---------------------------------------------------------------------
  // Sums over the lists (the accumulations of get_allocated and free_node)

  function SumOf<X>(s: seq<X>, f: X -> nat): nat
  {
    if s == [] then 0 else SumOf(s[..|s| - 1], f) + f(s[|s| - 1])
  }

  lemma {:induction false} SumOfConcat<X>(a: seq<X>, b: seq<X>, f: X -> nat)
    ensures SumOf(a + b, f) == SumOf(a, f) + SumOf(b, f)
    decreases |b|
  {
    if b == [] {
      assert a + b == a;
    } else {
      assert (a + b)[..|a + b| - 1] == a + b[..|b| - 1];
      SumOfConcat(a, b[..|b| - 1], f);
    }
  }

  lemma SumOfPrefix<X>(s: seq<X>, i: nat, f: X -> nat)
    requires i < |s|
    ensures SumOf(s[..i + 1], f) == SumOf(s[..i], f) + f(s[i])
  {
    assert s[..i + 1][..i] == s[..i];
  }

  lemma SumOfSingle<X>(x: X, f: X -> nat)
    ensures SumOf([x], f) == f(x)
  {
    assert [x][..0] == [];
  }

  /** Splicing `t` in place of element i changes the sum by the difference. */
  lemma SumOfSplice<X>(s: seq<X>, i: nat, t: seq<X>, f: X -> nat)
    requires i < |s|
    ensures SumOf(s[..i] + t + s[i + 1..], f) + f(s[i]) == SumOf(s, f) + SumOf(t, f)
  {
    assert s == s[..i] + [s[i]] + s[i + 1..];
    SumOfConcat(s[..i] + [s[i]], s[i + 1..], f);
    SumOfConcat(s[..i], [s[i]], f);
    SumOfConcat(s[..i] + t, s[i + 1..], f);
    SumOfConcat(s[..i], t, f);
    SumOfSingle(s[i], f);
  }

  /** Replacing one element changes the sum by the difference of the two terms. */
  lemma SumOfUpdate<X>(s: seq<X>, i: nat, x: X, f: X -> nat)
    requires i < |s|
    ensures SumOf(s[i := x], f) + f(s[i]) == SumOf(s, f) + f(x)
  {
    assert s[i := x] == s[..i] + [x] + s[i + 1..];
    SumOfSplice(s, i, [x], f);
    SumOfSingle(x, f);
  }

  /** Removing one element subtracts its term. */
  lemma SumOfRemove<X>(s: seq<X>, i: nat, f: X -> nat)
    requires i < |s|
    ensures SumOf(s[..i] + s[i + 1..], f) + f(s[i]) == SumOf(s, f)
  {
    assert s[..i] + s[i + 1..] == s[..i] + [] + s[i + 1..];
    SumOfSplice(s, i, [], f);
  }

  /** Replacing two neighbours by one element changes the sum by the difference. */
  lemma SumOfPair<X>(s: seq<X>, i: nat, x: X, f: X -> nat)
    requires i + 1 < |s|
    ensures SumOf(s[..i] + [x] + s[i + 2..], f) + f(s[i]) + f(s[i + 1]) == SumOf(s, f) + f(x)
  {
    var t := s[..i + 1] + s[i + 2..];
    SumOfRemove(s, i + 1, f);
    PairSlices(s, i, x);
    SumOfUpdate(t, i, x, f);
  }

  lemma PairSlices<X>(s: seq<X>, i: nat, x: X)
    requires i + 1 < |s|
    ensures (s[..i + 1] + s[i + 2..])[i] == s[i]
    ensures (s[..i + 1] + s[i + 2..])[i := x] == s[..i] + [x] + s[i + 2..]
  {
  }

  lemma SumOfAtLeast<X>(s: seq<X>, k: nat, f: X -> nat)
    requires k < |s|
    ensures f(s[k]) <= SumOf(s, f)
  {
    SumOfRemove(s, k, f);
  }

  function ArenaSize(a: Arena): nat { a.size }

  /** Bytes a chunk holds for its user: its size when used, else nothing. */
  function UsedBytes(c: Chunk): nat { if c.free then 0 else c.size }

  /** What a free chunk contributes to `v` in free_node: its size plus its header. */
  function FreeFootprint(c: Chunk): nat { if c.free then c.size + H else 0 }

  /** What an allocated chunk occupies: its size plus its header. */
  function UsedFootprint(c: Chunk): nat { if c.free then 0 else c.size + H }

  function Footprint(c: Chunk): nat { c.size + H }

  function ArenaUsed(a: Arena): nat { SumOf(a.chunks, UsedBytes) }

  /** `capacity` of get_allocated: the sum of the arena sizes. */
  function Capacity(ars: seq<Arena>): nat { SumOf(ars, ArenaSize) }

  /** `allocated` of get_allocated: the sum of the sizes of the non-free chunks. */
  function Allocated(ars: seq<Arena>): nat { SumOf(ars, ArenaUsed) }

  /** `v` of free_node: free chunk sizes plus one header each. */
  function FreeSpace(cs: seq<Chunk>): nat { SumOf(cs, FreeFootprint) }

  lemma {:induction false} FootprintSplits(cs: seq<Chunk>)
    ensures SumOf(cs, Footprint) == SumOf(cs, FreeFootprint) + SumOf(cs, UsedFootprint)
    decreases |cs|
  {
    if cs != [] {
      FootprintSplits(cs[..|cs| - 1]);
    }
  }

  lemma {:induction false} UsedBelowFootprint(cs: seq<Chunk>)
    ensures SumOf(cs, UsedBytes) <= SumOf(cs, UsedFootprint)
    ensures SumOf(cs, UsedBytes) > 0 ==> SumOf(cs, UsedBytes) + H <= SumOf(cs, UsedFootprint)
    decreases |cs|
  {
    if cs != [] {
      UsedBelowFootprint(cs[..|cs| - 1]);
    }
  }

  // ---------------------------------------------------------------------
  // Layout of the chunks inside one arena

  /**
   * The chunks sit in address order inside the arena: the first at the
   * start of the data area, each one's bytes and the next one's header
   * before the next one's bytes, the last one's bytes inside the arena.
   */
  ghost predicate Layout(cs: seq<Chunk>, size: nat)
  {
    |cs| >= 1 && cs[0].offset == 0 &&
    (forall k :: 0 <= k < |cs| - 1 ==> Gapped(cs, k)) &&
    cs[|cs| - 1].offset + cs[|cs| - 1].size <= size
  }

  /** Chunk k's bytes and chunk k + 1's header fit before chunk k + 1's bytes. */
  ghost predicate Gapped(cs: seq<Chunk>, k: nat)
    requires k + 1 < |cs|
  {
    cs[k].offset + cs[k].size + H <= cs[k + 1].offset
  }

  /** Every chunk of a laid-out arena lies inside it, and offsets grow by at least a header. */
  lemma {:induction false} LayoutOrdered(cs: seq<Chunk>, size: nat)
    requires Layout(cs, size)
    ensures forall i, j :: 0 <= i < j < |cs| ==> cs[i].offset + cs[i].size + H <= cs[j].offset
    ensures forall i :: 0 <= i < |cs| ==> cs[i].offset + cs[i].size <= size
  {
    forall i, j | 0 <= i < j < |cs| ensures cs[i].offset + cs[i].size + H <= cs[j].offset {
      assert Gapped(cs, i);
      var k := i + 1;
      while k < j
        invariant i + 1 <= k <= j
        invariant cs[i].offset + cs[i].size + H <= cs[k].offset
      {
        assert Gapped(cs, k);
        k := k + 1;
      }
    }
    forall i | 0 <= i < |cs| ensures cs[i].offset + cs[i].size <= size {
      if i < |cs| - 1 {
        assert cs[i].offset + cs[i].size + H <= cs[|cs| - 1].offset;
      }
    }
  }

  lemma {:induction false} FootprintPrefix(cs: seq<Chunk>, n: nat)
    requires 1 <= n <= |cs|
    requires cs[0].offset == 0
    requires forall k :: 0 <= k < |cs| - 1 ==> Gapped(cs, k)
    ensures SumOf(cs[..n], Footprint) <= cs[n - 1].offset + cs[n - 1].size + H
  {
    if n == 1 {
      assert cs[..1][..0] == [];
    } else {
      assert Gapped(cs, n - 2);
      FootprintPrefix(cs, n - 1);
      SumOfPrefix(cs, n - 1, Footprint);
    }
  }

  /** The headers and recorded sizes of an arena's chunks never exceed the block: Σ(size + H) ≤ size + H. */
  lemma LayoutFootprint(cs: seq<Chunk>, size: nat)
    requires Layout(cs, size)
    ensures SumOf(cs, Footprint) <= size + H
  {
    FootprintPrefix(cs, |cs|);
    assert cs[..|cs|] == cs;
  }

  /**
   * Reclamation never discards a live byte: when free_node's sum reaches
   * the arena size, no allocated chunk of the arena has a positive size.
   */
  lemma ReclaimOnlyEmpty(cs: seq<Chunk>, size: nat)
    requires Layout(cs, size) && FreeSpace(cs) >= size
    ensures SumOf(cs, UsedBytes) == 0
  {
    LayoutFootprint(cs, size);
    FootprintSplits(cs);
    UsedBelowFootprint(cs);
  }

  // ---------------------------------------------------------------------
  // The arena list

  ghost predicate ValidArenas(ars: seq<Arena>, nextId: nat)
  {
    (forall i :: 0 <= i < |ars| ==> ars[i].id < nextId && Layout(ars[i].chunks, ars[i].size)) &&
    (forall i, j :: 0 <= i < j < |ars| ==> ars[i].id != ars[j].id)
  }

  lemma ValidReplaceChunks(ars: seq<Arena>, nextId: nat, i: nat, cs: seq<Chunk>)
    requires ValidArenas(ars, nextId) && i < |ars| && Layout(cs, ars[i].size)
    ensures ValidArenas(ars[i := ars[i].(chunks := cs)], nextId)
  {
  }

  lemma ValidRemove(ars: seq<Arena>, nextId: nat, i: nat)
    requires ValidArenas(ars, nextId) && i < |ars|
    ensures ValidArenas(ars[..i] + ars[i + 1..], nextId)
  {
    var r := ars[..i] + ars[i + 1..];
    forall x, y | 0 <= x < y < |r| ensures r[x].id != r[y].id {
      var x' := if x < i then x else x + 1;
      var y' := if y < i then y else y + 1;
      assert r[x] == ars[x'] && r[y] == ars[y'];
    }
  }

  /** A new arena (`create_node`): `bytes` long, one allocated chunk covering it. */
  function NewArena(id: nat, bytes: nat): (r: Arena)
    ensures r.id == id && r.size == bytes && Layout(r.chunks, r.size)
    ensures bytes > 0 ==> Owns([r], Ptr(id, 0), 0, 0)
  {
    Arena(id, bytes, [Chunk(0, bytes, false)])
  }

  // ---------------------------------------------------------------------
  // The two searches: first fit (find_allocate) and owner (find_deallocate)

  /** The chunk at (i, j) exists and both filters accept it. */
  ghost predicate Hit(ars: seq<Arena>, arenaOk: Arena -> bool, chunkOk: Chunk -> bool, i: nat, j: nat)
  {
    i < |ars| && j < |ars[i].chunks| && arenaOk(ars[i]) && chunkOk(ars[i].chunks[j])
  }

  /**
   * The nested scan both searches perform: arenas from `i` on, skipping the
   * ones `arenaOk` refuses; within an arena, chunks in address order.
   */
  function Scan(ars: seq<Arena>, arenaOk: Arena -> bool, chunkOk: Chunk -> bool, i: nat, j: nat): (r: Option<Pos>)
    requires i <= |ars| && (i < |ars| ==> j <= |ars[i].chunks|)
    ensures r.Some? ==> Hit(ars, arenaOk, chunkOk, r.value.arena, r.value.chunk)
    ensures r.Some? ==> r.value.arena > i || (r.value.arena == i && r.value.chunk >= j)
    decreases |ars| - i, if i < |ars| then |ars[i].chunks| - j else 0
  {
    if i == |ars| then None
    else if arenaOk(ars[i]) && j < |ars[i].chunks| then
      if chunkOk(ars[i].chunks[j]) then Some(Pos(i, j))
      else Scan(ars, arenaOk, chunkOk, i, j + 1)
    else Scan(ars, arenaOk, chunkOk, i + 1, 0)
  }

  /** The scan returns the first hit at or after (i, j), and None only when there is none. */
  lemma {:induction false} ScanFirst(ars: seq<Arena>, arenaOk: Arena -> bool, chunkOk: Chunk -> bool, i: nat, j: nat)
    requires i <= |ars| && (i < |ars| ==> j <= |ars[i].chunks|)
    ensures match Scan(ars, arenaOk, chunkOk, i, j)
      case Some(pos) =>
        forall x: nat, y: nat :: (x > i || (x == i && y >= j)) && (x < pos.arena || (x == pos.arena && y < pos.chunk)) ==>
          !Hit(ars, arenaOk, chunkOk, x, y)
      case None =>
        forall x: nat, y: nat :: (x > i || (x == i && y >= j)) ==> !Hit(ars, arenaOk, chunkOk, x, y)
    decreases |ars| - i, if i < |ars| then |ars[i].chunks| - j else 0
  {
    if i == |ars| {
    } else if arenaOk(ars[i]) && j < |ars[i].chunks| {
      if !chunkOk(ars[i].chunks[j]) {
        ScanFirst(ars, arenaOk, chunkOk, i, j + 1);
      }
    } else {
      ScanFirst(ars, arenaOk, chunkOk, i + 1, 0);
    }
  }

  /** A hit with no hit before it is what the scan from the start returns. */
  lemma ScanFindsFirstHit(ars: seq<Arena>, arenaOk: Arena -> bool, chunkOk: Chunk -> bool, i: nat, j: nat)
    requires Hit(ars, arenaOk, chunkOk, i, j)
    requires forall x: nat, y: nat :: (x < i || (x == i && y < j)) ==> !Hit(ars, arenaOk, chunkOk, x, y)
    ensures Scan(ars, arenaOk, chunkOk, 0, 0) == Some(Pos(i, j))
  {
    ScanFirst(ars, arenaOk, chunkOk, 0, 0);
  }

  function FitArena(bytes: nat): Arena -> bool { (a: Arena) => a.size >= bytes }
  function FitChunk(bytes: nat): Chunk -> bool { (c: Chunk) => c.free && c.size >= bytes }

  /** The chunk find_allocate takes: the first free one of at least `bytes`, in an arena of at least `bytes`. */
  function FirstFit(ars: seq<Arena>, bytes: nat): (r: Option<Pos>)
    ensures r.Some? ==> Fits(ars, bytes, r.value.arena, r.value.chunk)
  {
    Scan(ars, FitArena(bytes), FitChunk(bytes), 0, 0)
  }

  ghost predicate Fits(ars: seq<Arena>, bytes: nat, x: nat, y: nat)
  {
    x < |ars| && y < |ars[x].chunks| &&
    ars[x].size >= bytes && ars[x].chunks[y].free && ars[x].chunks[y].size >= bytes
  }

  /** First fit: the chosen chunk fits and nothing scanned before it does; None means nothing fits. */
  lemma FirstFitIsFirst(ars: seq<Arena>, bytes: nat)
    ensures match FirstFit(ars, bytes)
      case Some(pos) =>
        Fits(ars, bytes, pos.arena, pos.chunk) &&
        forall x: nat, y: nat :: (x < pos.arena || (x == pos.arena && y < pos.chunk)) ==> !Fits(ars, bytes, x, y)
      case None =>
        forall x: nat, y: nat :: !Fits(ars, bytes, x, y)
  {
    ScanFirst(ars, FitArena(bytes), FitChunk(bytes), 0, 0);
    forall x: nat, y: nat ensures Fits(ars, bytes, x, y) <==> Hit(ars, FitArena(bytes), FitChunk(bytes), x, y) {
    }
  }

  function OwnerArena(p: Ptr): Arena -> bool { (a: Arena) => a.id == p.arena && p.offset < a.size }
  function OwnerChunk(p: Ptr): Chunk -> bool { (c: Chunk) => !c.free && c.offset == p.offset }

  /** The chunk find_deallocate acts on: an allocated chunk starting at `p`, in the arena whose range holds `p`. */
  function Owner(ars: seq<Arena>, p: Ptr): (r: Option<Pos>)
    ensures r.Some? ==> Owns(ars, p, r.value.arena, r.value.chunk)
  {
    Scan(ars, OwnerArena(p), OwnerChunk(p), 0, 0)
  }

  /** Chunk y of arena x is allocated, starts at `p`, and the arena is the one `p` names, with `p` inside its range. */
  ghost predicate Owns(ars: seq<Arena>, p: Ptr, x: nat, y: nat)
  {
    x < |ars| && y < |ars[x].chunks| &&
    ars[x].id == p.arena && p.offset < ars[x].size &&
    !ars[x].chunks[y].free && ars[x].chunks[y].offset == p.offset
  }

  // ---------------------------------------------------------------------
  // Chunk-level steps

  /**
   * get_chunk: when the chunk exceeds `bytes` by more than a header, a free
   * chunk for the rest is linked right after it; in every case the chunk
   * becomes allocated and records exactly `bytes`.
   */
  function SplitChunk(cs: seq<Chunk>, j: nat, bytes: nat): (r: seq<Chunk>)
    requires j < |cs|
    ensures j < |r| && r[..j] == cs[..j] && r[j] == Chunk(cs[j].offset, bytes, false)
    ensures |r| == |cs| + (if cs[j].size > bytes + H then 1 else 0)
  {
    if cs[j].size > bytes + H then Cut(cs, j, bytes) else cs[j := Taken(cs[j], bytes)]
  }

  /** Chunk j split into its allocated head and a free remainder. */
  function Cut(cs: seq<Chunk>, j: nat, bytes: nat): seq<Chunk>
    requires j < |cs| && cs[j].size > bytes + H
  {
    cs[..j] + [Taken(cs[j], bytes), Remainder(cs[j], bytes)] + cs[j + 1..]
  }

  /** The chunk, allocated, recording `bytes`. */
  function Taken(c: Chunk, bytes: nat): Chunk
  {
    Chunk(c.offset, bytes, false)
  }

  /** The free chunk for what lies past `bytes` and a new header. */
  function Remainder(c: Chunk, bytes: nat): Chunk
    requires c.size > bytes + H
  {
    Chunk(c.offset + bytes + H, c.size - bytes - H, true)
  }

  /** Splitting: the remainder chunk is exactly `size − bytes − H` and free; no remainder when it cannot hold a header. */
  lemma SplitExact(cs: seq<Chunk>, j: nat, bytes: nat)
    requires j < |cs| && bytes <= cs[j].size
    ensures var r := SplitChunk(cs, j, bytes);
      r[..j] == cs[..j] &&
      r[j] == Chunk(cs[j].offset, bytes, false) &&
      (cs[j].size > bytes + H ==>
        |r| == |cs| + 1 && r[j + 1] == Chunk(cs[j].offset + bytes + H, cs[j].size - bytes - H, true) &&
        r[j + 2..] == cs[j + 1..]) &&
      (cs[j].size <= bytes + H ==> |r| == |cs| && r[j + 1..] == cs[j + 1..])
  {
  }

  /** Splitting keeps the chunks laid out inside the arena. */
  lemma SplitKeepsLayout(cs: seq<Chunk>, size: nat, j: nat, bytes: nat)
    requires Layout(cs, size) && j < |cs| && bytes <= cs[j].size
    ensures Layout(SplitChunk(cs, j, bytes), size)
  {
    var c := cs[j];
    var r := SplitChunk(cs, j, bytes);
    if c.size > bytes + H {
      forall k | 0 <= k < |r| - 1 ensures Gapped(r, k) {
        if k < j - 1 {
          assert r[k] == cs[k] && r[k + 1] == cs[k + 1] && Gapped(cs, k);
        } else if k == j - 1 {
          assert r[k] == cs[k] && Gapped(cs, k);
        } else if k == j {
        } else if k == j + 1 {
          assert r[k + 1] == cs[j + 1] && Gapped(cs, j);
        } else {
          assert r[k] == cs[k - 1] && r[k + 1] == cs[k] && Gapped(cs, k - 1);
        }
      }
      if j < |cs| - 1 {
        assert r[|r| - 1] == cs[|cs| - 1];
      }
    } else {
      forall k | 0 <= k < |r| - 1 ensures Gapped(r, k) {
        assert Gapped(cs, k);
        assert k != j ==> r[k] == cs[k];
        assert k + 1 != j ==> r[k + 1] == cs[k + 1];
      }
    }
  }

  /** Splitting changes the allocated byte count by `bytes` minus what the chunk held before. */
  lemma SplitUsed(cs: seq<Chunk>, j: nat, bytes: nat)
    requires j < |cs|
    ensures SumOf(SplitChunk(cs, j, bytes), UsedBytes) + UsedBytes(cs[j]) == SumOf(cs, UsedBytes) + bytes
  {
    if cs[j].size > bytes + H {
      SplitUsedCut(cs, j, bytes);
    } else {
      SumOfUpdate(cs, j, Chunk(cs[j].offset, bytes, false), UsedBytes);
    }
  }

  lemma SplitUsedCut(cs: seq<Chunk>, j: nat, bytes: nat)
    requires j < |cs| && cs[j].size > bytes + H
    ensures SumOf(SplitChunk(cs, j, bytes), UsedBytes) + UsedBytes(cs[j]) == SumOf(cs, UsedBytes) + bytes
  {
    SumOfSplicePair(cs, j, Taken(cs[j], bytes), Remainder(cs[j], bytes), UsedBytes);
  }

  /** Splicing two elements in place of element i changes the sum by the difference. */
  lemma SumOfSplicePair<X>(s: seq<X>, i: nat, x: X, y: X, f: X -> nat)
    requires i < |s|
    ensures SumOf(s[..i] + [x, y] + s[i + 1..], f) + f(s[i]) == SumOf(s, f) + f(x) + f(y)
  {
    SumOfSplice(s, i, [x, y], f);
    assert [x, y][..1] == [x];
    SumOfSingle(x, f);
  }

  /**
   * The full-free steps of find_deallocate: mark the chunk free; when its
   * predecessor is free, the predecessor absorbs its size plus a header
   * and the chunk is unlinked. The successor is never looked at.
   */
  function FreeChunk(cs: seq<Chunk>, j: nat): (r: seq<Chunk>)
    requires j < |cs|
    ensures j > 0 && cs[j - 1].free ==>
      |r| + 1 == |cs| && r[j - 1] == Chunk(cs[j - 1].offset, cs[j - 1].size + cs[j].size + H, true)
    ensures !(j > 0 && cs[j - 1].free) ==> |r| == |cs| && r[j] == cs[j].(free := true)
  {
    var marked := cs[j := cs[j].(free := true)];
    if j > 0 && marked[j - 1].free then Absorb(marked, j - 1) else marked
  }

  /** Chunk `i` absorbs chunk `i + 1` and its header; chunk `i + 1` is unlinked. */
  function Absorb(cs: seq<Chunk>, i: nat): seq<Chunk>
    requires i + 1 < |cs|
  {
    cs[..i] + [Grown(cs, i)] + cs[i + 2..]
  }

  /** Chunk `i` grown by the size and header of chunk `i + 1`. */
  function Grown(cs: seq<Chunk>, i: nat): Chunk
    requires i + 1 < |cs|
  {
    cs[i].(size := cs[i].size + cs[i + 1].size + H)
  }

  /** Absorbing changes a sum by the absorbed pair against the grown chunk. */
  lemma AbsorbSum(cs: seq<Chunk>, i: nat, f: Chunk -> nat)
    requires i + 1 < |cs|
    ensures SumOf(Absorb(cs, i), f) + f(cs[i]) + f(cs[i + 1]) == SumOf(cs, f) + f(Grown(cs, i))
  {
    SumOfPair(cs, i, Grown(cs, i), f);
  }

  /** Coalescing: a free predecessor grows to `pred.size + size + H`, later chunks are untouched. */
  lemma FreeCoalesces(cs: seq<Chunk>, j: nat)
    requires j < |cs|
    ensures var r := FreeChunk(cs, j);
      if j > 0 && cs[j - 1].free then
        |r| == |cs| - 1 && r[..j - 1] == cs[..j - 1] &&
        r[j - 1] == Chunk(cs[j - 1].offset, cs[j - 1].size + cs[j].size + H, true) &&
        r[j..] == cs[j + 1..]
      else
        |r| == |cs| && r[j] == cs[j].(free := true) && r[..j] == cs[..j] && r[j + 1..] == cs[j + 1..]
  {
    var r := FreeChunk(cs, j);
    if j > 0 && cs[j - 1].free {
      assert r[j..] == cs[j + 1..];
    }
  }

  /** Freeing keeps the chunks laid out inside the arena. */
  lemma FreeKeepsLayout(cs: seq<Chunk>, size: nat, j: nat)
    requires Layout(cs, size) && j < |cs|
    ensures Layout(FreeChunk(cs, j), size)
  {
    var r := FreeChunk(cs, j);
    if j > 0 && cs[j - 1].free {
      LayoutOrdered(cs, size);
      forall k | 0 <= k < |r| - 1 ensures Gapped(r, k) {
        if k < j - 1 {
          assert r[k] == cs[k] && Gapped(cs, k);
          if k + 1 < j - 1 { assert r[k + 1] == cs[k + 1]; } else { assert r[k + 1].offset == cs[k + 1].offset; }
        } else if k == j - 1 {
          assert r[k + 1] == cs[j + 1];
        } else {
          assert r[k] == cs[k + 1] && r[k + 1] == cs[k + 2] && Gapped(cs, k + 1);
        }
      }
      if j == |cs| - 1 {
        assert r[|r| - 1] == r[j - 1];
      } else {
        assert r[|r| - 1] == cs[|cs| - 1];
      }
    } else {
      forall k | 0 <= k < |r| - 1 ensures Gapped(r, k) {
        assert Gapped(cs, k);
        assert r[k].offset == cs[k].offset && r[k].size == cs[k].size;
        assert r[k + 1].offset == cs[k + 1].offset;
      }
    }
  }

  /** A full free takes the chunk's bytes out of the allocated count. */
  lemma FreeUsed(cs: seq<Chunk>, j: nat)
    requires j < |cs| && !cs[j].free
    ensures SumOf(FreeChunk(cs, j), UsedBytes) + cs[j].size == SumOf(cs, UsedBytes)
  {
    var marked := cs[j := cs[j].(free := true)];
    SumOfUpdate(cs, j, cs[j].(free := true), UsedBytes);
    if j > 0 && marked[j - 1].free {
      AbsorbSum(marked, j - 1, UsedBytes);
    }
  }

  /** Coalescing conserves bytes: a full free adds exactly the chunk's size plus a header to the free space. */
  lemma FreeSpaceGrows(cs: seq<Chunk>, j: nat)
    requires j < |cs| && !cs[j].free
    ensures FreeSpace(FreeChunk(cs, j)) == FreeSpace(cs) + cs[j].size + H
  {
    var marked := cs[j := cs[j].(free := true)];
    SumOfUpdate(cs, j, cs[j].(free := true), FreeFootprint);
    if j > 0 && marked[j - 1].free {
      AbsorbSum(marked, j - 1, FreeFootprint);
    }
  }

  // ---------------------------------------------------------------------
  // Whole operations on the arena list

  /** free_node: unlink the arena when its free chunks with their headers cover its size. */
  function Reclaim(ars: seq<Arena>, i: nat): (r: seq<Arena>)
    requires i < |ars|
    ensures |r| < |ars| <==> FreeSpace(ars[i].chunks) >= ars[i].size
    ensures |r| < |ars| ==> |r| + 1 == |ars| && r[..i] == ars[..i] && r[i..] == ars[i + 1..]
  {
    if FreeSpace(ars[i].chunks) >= ars[i].size then ars[..i] + ars[i + 1..] else ars
  }

  /** find_allocate: reuse the first fit (splitting it), or prepend a new arena. */
  function Alloc(ars: seq<Arena>, newId: nat, bytes: nat): (r: Outcome)
    ensures |r.arenas| == |ars| + (if FirstFit(ars, bytes).None? then 1 else 0)
    ensures FirstFit(ars, bytes).None? ==> r.arenas[1..] == ars && r.ptr == Ptr(newId, 0)
  {
    match FirstFit(ars, bytes)
    case Some(pos) =>
      var a := ars[pos.arena];
      Outcome(ars[pos.arena := a.(chunks := SplitChunk(a.chunks, pos.chunk, bytes))],
              Ptr(a.id, a.chunks[pos.chunk].offset))
    case None =>
      Outcome([NewArena(newId, bytes)] + ars, Ptr(newId, 0))
  }

  /**
   * find_deallocate: a full free marks, coalesces and may reclaim the arena;
   * a smaller count shrinks the chunk in place; anything else changes nothing.
   */
  function Dealloc(ars: seq<Arena>, p: Ptr, bytes: nat): (r: seq<Arena>)
    ensures |r| <= |ars|
    ensures !Releases(ars, p, bytes) ==> r == ars
  {
    match Owner(ars, p)
    case None => ars
    case Some(pos) => DeallocChunk(ars, pos.arena, pos.chunk, bytes)
  }

  /** What find_deallocate does to the allocated chunk j of arena i once it has found it. */
  function DeallocChunk(ars: seq<Arena>, i: nat, j: nat, bytes: nat): (r: seq<Arena>)
    requires i < |ars| && j < |ars[i].chunks|
    ensures |r| <= |ars|
    ensures ars[i].chunks[j].size < bytes ==> r == ars
    ensures ars[i].chunks[j].size > bytes ==> |r| == |ars| && r[i].id == ars[i].id
  {
    var c := ars[i].chunks[j];
    if c.size == bytes then
      Reclaim(ars[i := ars[i].(chunks := FreeChunk(ars[i].chunks, j))], i)
    else if c.size >= bytes then
      Shrunk(ars, i, j, bytes)
    else
      ars
  }

  /**
   * Allocation keeps the arena list well formed; it adds exactly `bytes` to
   * the allocated count, and adds `bytes` to the capacity only when it had
   * to create an arena.
   */
  lemma AllocAccounting(ars: seq<Arena>, newId: nat, bytes: nat)
    requires ValidArenas(ars, newId)
    ensures var out := Alloc(ars, newId, bytes);
      var created := FirstFit(ars, bytes).None?;
      ValidArenas(out.arenas, if created then newId + 1 else newId) &&
      Allocated(out.arenas) == Allocated(ars) + bytes &&
      Capacity(out.arenas) == Capacity(ars) + (if created then bytes else 0)
  {
    match FirstFit(ars, bytes)
    case Some(pos) =>
      ReuseChunk(ars, newId, pos.arena, pos.chunk, bytes);
    case None =>
      PrependArena(ars, newId, bytes);
  }

  /** Reusing free chunk j of arena i for `bytes` keeps the list well formed and adds `bytes` to the count. */
  lemma ReuseChunk(ars: seq<Arena>, newId: nat, i: nat, j: nat, bytes: nat)
    requires ValidArenas(ars, newId) && i < |ars| && j < |ars[i].chunks|
    requires ars[i].chunks[j].free && bytes <= ars[i].chunks[j].size
    ensures var r := ars[i := ars[i].(chunks := SplitChunk(ars[i].chunks, j, bytes))];
      ValidArenas(r, newId) && Allocated(r) == Allocated(ars) + bytes && Capacity(r) == Capacity(ars)
  {
    var a := ars[i];
    var cs := SplitChunk(a.chunks, j, bytes);
    SplitKeepsLayout(a.chunks, a.size, j, bytes);
    ValidReplaceChunks(ars, newId, i, cs);
    SplitUsed(a.chunks, j, bytes);
    ReplaceChunksAccounting(ars, i, cs);
  }

  /** create_node: a new arena in front, under a fresh id, adds `bytes` to both totals. */
  lemma PrependArena(ars: seq<Arena>, newId: nat, bytes: nat)
    requires ValidArenas(ars, newId)
    ensures var r := [NewArena(newId, bytes)] + ars;
      ValidArenas(r, newId + 1) &&
      Allocated(r) == Allocated(ars) + bytes && Capacity(r) == Capacity(ars) + bytes
  {
    var n := NewArena(newId, bytes);
    SumOfConcat([n], ars, ArenaUsed);
    SumOfConcat([n], ars, ArenaSize);
    SumOfSingle(n, ArenaUsed);
    SumOfSingle(n, ArenaSize);
    SumOfSingle(n.chunks[0], UsedBytes);
    var r := [n] + ars;
    forall x, y | 0 <= x < y < |r| ensures r[x].id != r[y].id {
      if x > 0 { assert r[x] == ars[x - 1]; }
      assert r[y] == ars[y - 1];
    }
  }

  /** Swapping one arena's chunk list leaves the capacity and moves the count by the difference. */
  lemma ReplaceChunksAccounting(ars: seq<Arena>, i: nat, cs: seq<Chunk>)
    requires i < |ars|
    ensures var r := ars[i := ars[i].(chunks := cs)];
      Allocated(r) + ArenaUsed(ars[i]) == Allocated(ars) + SumOf(cs, UsedBytes) &&
      Capacity(r) == Capacity(ars)
  {
    SumOfUpdate(ars, i, ars[i].(chunks := cs), ArenaUsed);
    SumOfUpdate(ars, i, ars[i].(chunks := cs), ArenaSize);
  }

  /** A full free, with the reclamation that follows it, takes exactly the chunk's size out of the count. */
  lemma FullFreeAccounting(ars: seq<Arena>, newId: nat, i: nat, j: nat)
    requires ValidArenas(ars, newId) && i < |ars| && j < |ars[i].chunks| && !ars[i].chunks[j].free
    ensures var r := Reclaim(ars[i := ars[i].(chunks := FreeChunk(ars[i].chunks, j))], i);
      ValidArenas(r, newId) &&
      Allocated(r) + ars[i].chunks[j].size == Allocated(ars) &&
      Capacity(r) <= Capacity(ars)
  {
    var a := ars[i];
    var cs := FreeChunk(a.chunks, j);
    var ars' := ars[i := a.(chunks := cs)];
    FreeKeepsLayout(a.chunks, a.size, j);
    ValidReplaceChunks(ars, newId, i, cs);
    FreeUsed(a.chunks, j);
    ReplaceChunksAccounting(ars, i, cs);
    if FreeSpace(cs) >= a.size {
      ReclaimOnlyEmpty(cs, a.size);
      ValidRemove(ars', newId, i);
      SumOfRemove(ars', i, ArenaUsed);
      SumOfRemove(ars', i, ArenaSize);
    }
  }

  /** The arena list after chunk j of arena i gives back its last `bytes` (get_chunk with `size − bytes`). */
  function Shrunk(ars: seq<Arena>, i: nat, j: nat, bytes: nat): (r: seq<Arena>)
    requires i < |ars| && j < |ars[i].chunks| && bytes <= ars[i].chunks[j].size
    ensures |r| == |ars| && forall k :: 0 <= k < |ars| && k != i ==> r[k] == ars[k]
    ensures r[i].id == ars[i].id && r[i].size == ars[i].size
    ensures j < |r[i].chunks| && r[i].chunks[j] == Chunk(ars[i].chunks[j].offset, ars[i].chunks[j].size - bytes, false)
  {
    var a := ars[i];
    ars[i := a.(chunks := SplitChunk(a.chunks, j, a.chunks[j].size - bytes))]
  }

  /** Shrinking an allocated chunk keeps the arena list well formed. */
  lemma ShrinkKeepsValid(ars: seq<Arena>, newId: nat, i: nat, j: nat, bytes: nat)
    requires ValidArenas(ars, newId) && i < |ars| && j < |ars[i].chunks| && bytes <= ars[i].chunks[j].size
    ensures ValidArenas(Shrunk(ars, i, j, bytes), newId)
  {
    var a := ars[i];
    SplitKeepsLayout(a.chunks, a.size, j, a.chunks[j].size - bytes);
    ValidReplaceChunks(ars, newId, i, SplitChunk(a.chunks, j, a.chunks[j].size - bytes));
  }

  /** Shrinking an allocated chunk by `bytes` takes exactly `bytes` out of the count. */
  lemma ShrinkAccounting(ars: seq<Arena>, i: nat, j: nat, bytes: nat)
    requires i < |ars| && j < |ars[i].chunks|
    requires !ars[i].chunks[j].free && bytes <= ars[i].chunks[j].size
    ensures Allocated(Shrunk(ars, i, j, bytes)) + bytes == Allocated(ars)
    ensures Capacity(Shrunk(ars, i, j, bytes)) == Capacity(ars)
  {
    var a := ars[i];
    var keep := a.chunks[j].size - bytes;
    var cs := SplitChunk(a.chunks, j, keep);
    SplitUsed(a.chunks, j, keep);
    assert SumOf(cs, UsedBytes) + bytes == ArenaUsed(a);
    ReplaceChunksAccounting(ars, i, cs);
  }

  /**
   * Deallocation keeps the arena list well formed; it takes exactly `bytes`
   * out of the allocated count when it finds an allocated chunk of at least
   * `bytes` starting at `p`, and nothing otherwise; capacity never grows.
   */
  lemma DeallocAccounting(ars: seq<Arena>, newId: nat, p: Ptr, bytes: nat)
    requires ValidArenas(ars, newId)
    ensures var r := Dealloc(ars, p, bytes);
      ValidArenas(r, newId) &&
      Allocated(r) + (if Releases(ars, p, bytes) then bytes else 0) == Allocated(ars) &&
      Capacity(r) <= Capacity(ars)
  {
    match Owner(ars, p)
    case None =>
    case Some(pos) =>
      var c := ars[pos.arena].chunks[pos.chunk];
      if c.size == bytes {
        FullFreeAccounting(ars, newId, pos.arena, pos.chunk);
      } else if c.size >= bytes {
        ShrinkKeepsValid(ars, newId, pos.arena, pos.chunk, bytes);
        ShrinkAccounting(ars, pos.arena, pos.chunk, bytes);
      }
  }

  /** `p` starts an allocated chunk holding at least `bytes`: the case in which a deallocation has an effect. */
  predicate Releases(ars: seq<Arena>, p: Ptr, bytes: nat)
  {
    match Owner(ars, p)
    case None => false
    case Some(pos) => ars[pos.arena].chunks[pos.chunk].size >= bytes
  }

  /** The pointer an allocation returns names the chunk it used, and nothing earlier. */
  lemma AllocatedChunkIsOwner(ars: seq<Arena>, newId: nat, bytes: nat)
    requires ValidArenas(ars, newId) && bytes > 0
    ensures var out := Alloc(ars, newId, bytes);
      match FirstFit(ars, bytes)
      case Some(pos) => Owner(out.arenas, out.ptr) == Some(pos)
      case None => Owner(out.arenas, out.ptr) == Some(Pos(0, 0))
  {
    var out := Alloc(ars, newId, bytes);
    var OA, OC := OwnerArena(out.ptr), OwnerChunk(out.ptr);
    match FirstFit(ars, bytes)
    case Some(pos) =>
      var a := ars[pos.arena];
      var c := a.chunks[pos.chunk];
      var cs := SplitChunk(a.chunks, pos.chunk, bytes);
      SplitExact(a.chunks, pos.chunk, bytes);
      LayoutOrdered(a.chunks, a.size);
      assert out.arenas[pos.arena].chunks == cs;
      assert cs[pos.chunk] == Chunk(c.offset, bytes, false);
      assert Hit(out.arenas, OA, OC, pos.arena, pos.chunk);
      forall x: nat, y: nat | x < pos.arena || (x == pos.arena && y < pos.chunk)
        ensures !Hit(out.arenas, OA, OC, x, y)
      {
        if x < pos.arena {
          assert out.arenas[x] == ars[x];
        } else if y < |cs| {
          assert cs[y] == a.chunks[y];
        }
      }
      ScanFindsFirstHit(out.arenas, OA, OC, pos.arena, pos.chunk);
    case None =>
      assert Hit(out.arenas, OA, OC, 0, 0);
      ScanFindsFirstHit(out.arenas, OA, OC, 0, 0);
  }

  /**
   * Round trip: freeing what was just allocated, with the same count,
   * restores the allocated byte count; when the allocation had to create
   * an arena, that arena is reclaimed and the arena list is as before.
   */
  lemma AllocDeallocRoundTrip(ars: seq<Arena>, newId: nat, bytes: nat)
    requires ValidArenas(ars, newId) && bytes > 0
    ensures var out := Alloc(ars, newId, bytes);
      var back := Dealloc(out.arenas, out.ptr, bytes);
      Allocated(back) == Allocated(ars) &&
      (FirstFit(ars, bytes).None? ==> back == ars)
  {
    var out := Alloc(ars, newId, bytes);
    AllocAccounting(ars, newId, bytes);
    AllocatedChunkIsOwner(ars, newId, bytes);
    var newId' := if FirstFit(ars, bytes).None? then newId + 1 else newId;
    DeallocAccounting(out.arenas, newId', out.ptr, bytes);
    match FirstFit(ars, bytes)
    case Some(pos) =>
      SplitExact(ars[pos.arena].chunks, pos.chunk, bytes);
    case None =>
      NewArenaReclaimed(ars, newId, bytes);
  }

  /** The arena created for an allocation is reclaimed whole when that allocation is freed. */
  lemma NewArenaReclaimed(ars: seq<Arena>, newId: nat, bytes: nat)
    requires ValidArenas(ars, newId) && bytes > 0 && FirstFit(ars, bytes).None?
    ensures Dealloc([NewArena(newId, bytes)] + ars, Ptr(newId, 0), bytes) == ars
  {
    var n := NewArena(newId, bytes);
    AllocatedChunkIsOwner(ars, newId, bytes);
    assert Owner([n] + ars, Ptr(newId, 0)) == Some(Pos(0, 0));
    var marked := ([n] + ars)[0 := n.(chunks := FreeChunk(n.chunks, 0))];
    assert FreeChunk(n.chunks, 0) == [Chunk(0, bytes, true)];
    SumOfSingle(Chunk(0, bytes, true), FreeFootprint);
    assert marked[1..] == ars;
  }

  /**
   * Zero bytes: the arena allocate(0) creates has an empty range, so the
   * owner search never finds its chunk; freeing changes nothing, and the
   * next allocate(0) creates another arena.
   */
  lemma ZeroByteArenaStays()
    ensures var out := Alloc([], 0, 0);
      out == Outcome([Arena(0, 0, [Chunk(0, 0, false)])], Ptr(0, 0)) &&
      Owner(out.arenas, out.ptr).None? &&
      Dealloc(out.arenas, out.ptr, 0) == out.arenas &&
      |Alloc(out.arenas, 1, 0).arenas| == 2
  {
    var out := Alloc([], 0, 0);
    assert FirstFit([], 0).None?;
    assert !Hit(out.arenas, FitArena(0), FitChunk(0), 0, 0);
    ScanFirst(out.arenas, FitArena(0), FitChunk(0), 0, 0);
    ScanFirst(out.arenas, OwnerArena(out.ptr), OwnerChunk(out.ptr), 0, 0);
  }

  // ---------------------------------------------------------------------
  // The manager object

  /** `sizeof(T) * cnt` as a `size_t`: the product wraps modulo 2^64. */
  function RequestBytes(elemSize: nat, cnt: nat): (r: nat)
    ensures r <= SIZE_MAX
    ensures elemSize * cnt <= SIZE_MAX ==> r == elemSize * cnt
  {
    (elemSize * cnt) % (SIZE_MAX + 1)
  }

  /** `MemManager<T>`: the arena list from `root`, and the count of handles sharing it. */
  class MemManager {
    /** `sizeof(T)`. */
    const elemSize: Positive
    /** The arena list, `root` first. */
    var arenas: seq<Arena>
    var count: int
    /** Identity of the next block the system allocator hands out. */
    var nextId: nat

    ghost predicate Valid()
      reads this
    {
      ValidArenas(arenas, nextId)
    }

    /** A new manager: no arena, count 1. */
    constructor (elemSize: Positive)
      ensures Valid() && this.elemSize == elemSize
      ensures arenas == [] && count == 1 && nextId == 0
    {
      this.elemSize := elemSize;
      arenas := [];
      count := 1;
      nextId := 0;
    }

    /** create_node: prepend an arena of exactly `bytes` holding one allocated chunk. */
    method CreateNode(bytes: nat) returns (p: Ptr)
      requires Valid()
      modifies this
      ensures Valid()
      ensures arenas == [NewArena(old(nextId), bytes)] + old(arenas) && p == Ptr(old(nextId), 0)
      ensures nextId == old(nextId) + 1 && count == old(count)
    {
      var node := NewArena(nextId, bytes);
      arenas := [node] + arenas;
      p := Ptr(nextId, 0);
      nextId := nextId + 1;
      assert forall i :: 0 < i < |arenas| ==> arenas[i] == old(arenas)[i - 1];
    }

    /** get_chunk on chunk j of arena i. */
    method GetChunk(i: nat, j: nat, bytes: nat) returns (p: Ptr)
      requires Valid() && i < |arenas| && j < |arenas[i].chunks| && bytes <= arenas[i].chunks[j].size
      modifies this
      ensures Valid()
      ensures arenas == old(arenas)[i := old(arenas)[i].(chunks := SplitChunk(old(arenas)[i].chunks, j, bytes))]
      ensures p == Ptr(old(arenas)[i].id, old(arenas)[i].chunks[j].offset)
      ensures nextId == old(nextId) && count == old(count)
    {
      var a := arenas[i];
      var c := a.chunks[j];
      var cs := a.chunks;
      if c.size > bytes + H {
        var rest := Chunk(c.offset + bytes + H, c.size - bytes - H, true);
        cs := cs[..j + 1] + [rest] + cs[j + 1..];
        cs := cs[j := Chunk(c.offset, bytes, false)];
        assert cs == a.chunks[..j] + [Chunk(c.offset, bytes, false), rest] + a.chunks[j + 1..];
      } else {
        cs := cs[j := Chunk(c.offset, bytes, false)];
      }
      SplitKeepsLayout(a.chunks, a.size, j, bytes);
      ValidReplaceChunks(arenas, nextId, i, cs);
      arenas := arenas[i := a.(chunks := cs)];
      p := Ptr(a.id, c.offset);
    }

    /** find_allocate: the nested first-fit scan, then get_chunk or create_node. */
    method FindAllocate(bytes: nat) returns (p: Ptr)
      requires Valid()
      modifies this
      ensures Valid()
      ensures var out := Alloc(old(arenas), old(nextId), bytes); arenas == out.arenas && p == out.ptr
      ensures nextId == (if FirstFit(old(arenas), bytes).None? then old(nextId) + 1 else old(nextId))
      ensures count == old(count)
    {
      var i := 0;
      while i < |arenas|
        invariant 0 <= i <= |arenas|
        invariant arenas == old(arenas) && nextId == old(nextId) && count == old(count)
        invariant Scan(arenas, FitArena(bytes), FitChunk(bytes), i, 0) == FirstFit(arenas, bytes)
      {
        if arenas[i].size >= bytes {
          var j := 0;
          while j < |arenas[i].chunks|
            invariant 0 <= j <= |arenas[i].chunks|
            invariant arenas == old(arenas) && nextId == old(nextId) && count == old(count)
            invariant Scan(arenas, FitArena(bytes), FitChunk(bytes), i, j) == FirstFit(arenas, bytes)
          {
            var c := arenas[i].chunks[j];
            if c.free && c.size >= bytes {
              p := GetChunk(i, j, bytes);
              return;
            }
            j := j + 1;
          }
        }
        i := i + 1;
      }
      p := CreateNode(bytes);
    }

    /** free_node: sum the free chunks with their headers; unlink the arena when they cover it. */
    method FreeNode(i: nat)
      requires Valid() && i < |arenas|
      modifies this
      ensures Valid()
      ensures arenas == Reclaim(old(arenas), i)
      ensures nextId == old(nextId) && count == old(count)
    {
      var cs := arenas[i].chunks;
      var v := 0;
      var k := 0;
      while k < |cs|
        invariant 0 <= k <= |cs|
        invariant arenas == old(arenas) && nextId == old(nextId) && count == old(count)
        invariant v == SumOf(cs[..k], FreeFootprint)
      {
        SumOfPrefix(cs, k, FreeFootprint);
        if cs[k].free {
          v := v + cs[k].size + H;
        }
        k := k + 1;
      }
      assert cs[..k] == cs;
      if v >= arenas[i].size {
        ValidRemove(arenas, nextId, i);
        arenas := arenas[..i] + arenas[i + 1..];
      }
    }

    /** The full-free steps of find_deallocate on chunk j of arena i: mark it free, let a free predecessor absorb it. */
    method ReleaseChunk(i: nat, j: nat)
      requires Valid() && i < |arenas| && j < |arenas[i].chunks|
      modifies this
      ensures Valid()
      ensures arenas == old(arenas)[i := old(arenas)[i].(chunks := FreeChunk(old(arenas)[i].chunks, j))]
      ensures nextId == old(nextId) && count == old(count)
    {
      var a := arenas[i];
      var c := a.chunks[j];
      var cs := a.chunks[j := c.(free := true)];
      if j > 0 && cs[j - 1].free {
        cs := cs[j - 1 := cs[j - 1].(size := cs[j - 1].size + c.size + H)];
        cs := cs[..j] + cs[j + 1..];
      }
      assert cs == FreeChunk(a.chunks, j);
      FreeKeepsLayout(a.chunks, a.size, j);
      ValidReplaceChunks(arenas, nextId, i, cs);
      arenas := arenas[i := a.(chunks := cs)];
    }

    /** The branch of find_deallocate that acts on the allocated chunk j of arena i once found. */
    method DeallocateChunk(i: nat, j: nat, bytes: nat)
      requires Valid() && i < |arenas| && j < |arenas[i].chunks| && !arenas[i].chunks[j].free
      modifies this
      ensures Valid()
      ensures arenas == DeallocChunk(old(arenas), i, j, bytes)
      ensures nextId == old(nextId) && count == old(count)
    {
      var c := arenas[i].chunks[j];
      if c.size == bytes {
        ReleaseChunk(i, j);
        FreeNode(i);
      } else if c.size >= bytes {
        var _ := GetChunk(i, j, c.size - bytes);
      }
    }

    /** find_deallocate: locate the arena and the allocated chunk starting at `p`, then free or shrink it. */
    method FindDeallocate(p: Ptr, bytes: nat)
      requires Valid()
      modifies this
      ensures Valid()
      ensures arenas == Dealloc(old(arenas), p, bytes)
      ensures nextId == old(nextId) && count == old(count)
    {
      var i := 0;
      while i < |arenas|
        invariant 0 <= i <= |arenas|
        invariant arenas == old(arenas) && nextId == old(nextId) && count == old(count)
        invariant Scan(arenas, OwnerArena(p), OwnerChunk(p), i, 0) == Owner(arenas, p)
      {
        if p.arena == arenas[i].id && p.offset < arenas[i].size {
          var j := 0;
          while j < |arenas[i].chunks|
            invariant 0 <= j <= |arenas[i].chunks|
            invariant arenas == old(arenas) && nextId == old(nextId) && count == old(count)
            invariant Scan(arenas, OwnerArena(p), OwnerChunk(p), i, j) == Owner(arenas, p)
          {
            var c := arenas[i].chunks[j];
            if !c.free && c.offset == p.offset {
              assert Owner(arenas, p) == Some(Pos(i, j));
              DeallocateChunk(i, j, bytes);
              return;
            }
            j := j + 1;
          }
        }
        i := i + 1;
      }
      assert Owner(arenas, p) == None;
    }

    /** allocate: `sizeof(T) * cnt` bytes by first fit. */
    method Allocate(cnt: nat) returns (p: Ptr)
      requires Valid()
      modifies this
      ensures Valid() && count == old(count)
      ensures var out := Alloc(old(arenas), old(nextId), RequestBytes(elemSize, cnt));
        arenas == out.arenas && p == out.ptr
      ensures Allocated(arenas) == old(Allocated(arenas)) + RequestBytes(elemSize, cnt)
    {
      AllocAccounting(arenas, nextId, RequestBytes(elemSize, cnt));
      p := FindAllocate(RequestBytes(elemSize, cnt));
    }

    /** deallocate: return `sizeof(T) * cnt` bytes starting at `p`. */
    method Deallocate(p: Ptr, cnt: nat)
      requires Valid()
      modifies this
      ensures Valid() && count == old(count) && nextId == old(nextId)
      ensures arenas == Dealloc(old(arenas), p, RequestBytes(elemSize, cnt))
    {
      FindDeallocate(p, RequestBytes(elemSize, cnt));
    }

    method CountIncrement()
      modifies this
      ensures count == old(count) + 1
      ensures arenas == old(arenas) && nextId == old(nextId)
    {
      count := count + 1;
    }

    /** count_decrement: never goes below zero. */
    method CountDecrement()
      modifies this
      ensures count == if old(count) > 0 then old(count) - 1 else old(count)
      ensures arenas == old(arenas) && nextId == old(nextId)
    {
      if count > 0 {
        count := count - 1;
      }
    }

    /** get_allocated: one pass over every arena and chunk. */
    method GetAllocated() returns (capacity: nat, used: nat)
      ensures capacity == Capacity(arenas) && used == Allocated(arenas)
    {
      capacity, used := 0, 0;
      var i := 0;
      while i < |arenas|
        invariant 0 <= i <= |arenas|
        invariant capacity == SumOf(arenas[..i], ArenaSize)
        invariant used == SumOf(arenas[..i], ArenaUsed)
      {
        SumOfPrefix(arenas, i, ArenaSize);
        SumOfPrefix(arenas, i, ArenaUsed);
        capacity := capacity + arenas[i].size;
        var cs := arenas[i].chunks;
        var j := 0;
        while j < |cs|
          invariant 0 <= j <= |cs|
          invariant used == SumOf(arenas[..i], ArenaUsed) + SumOf(cs[..j], UsedBytes)
        {
          SumOfPrefix(cs, j, UsedBytes);
          if !cs[j].free {
            used := used + cs[j].size;
          }
          j := j + 1;
        }
        assert cs[..j] == cs;
        i := i + 1;
      }
      assert arenas[..i] == arenas;
    }

    /** ~MemManager: with no handle left, release every arena; otherwise count one handle less. */
    method Dispose()
      modifies this
      ensures old(count) == 0 ==> arenas == [] && count == 0
      ensures old(count) != 0 ==> arenas == old(arenas) && count == old(count) - 1
      ensures nextId == old(nextId)
    {
      if count == 0 {
        while arenas != []
          invariant nextId == old(nextId) && count == 0
          decreases |arenas|
        {
          arenas := arenas[1..];
        }
      } else {
        count := count - 1;
      }
    }
  }

  // ---------------------------------------------------------------------
  // The allocator handle

  /** `StdAllocator<T>`: a handle on a manager shared by reference counting. */
  class StdAllocator {
    /** `sizeof(T)`. */
    const elemSize: Positive
    var manager: MemManager?

    ghost predicate Valid()
      reads this, manager
    {
      manager != null ==> manager.Valid() && manager.elemSize == elemSize
    }

    /** The default constructor: no manager until the first allocation. */
    constructor (elemSize: Positive)
      ensures Valid() && this.elemSize == elemSize && manager == null
    {
      this.elemSize := elemSize;
      manager := null;
    }

    /** The copy constructor: share the other handle's manager and count one more handle on it. */
    constructor Copy(other: StdAllocator)
      requires other.Valid()
      modifies other.manager
      ensures Valid() && elemSize == other.elemSize && manager == other.manager
      ensures manager != null ==>
        manager.count == old(other.manager.count) + 1 &&
        manager.arenas == old(other.manager.arenas) && manager.nextId == old(other.manager.nextId)
    {
      elemSize := other.elemSize;
      manager := null;
      new;
      if other.manager != null {
        manager := other.manager;
        manager.CountIncrement();
      }
    }

    /**
     * ~StdAllocator: count one handle less; when the count is then zero,
     * delete the manager, which releases every arena.
     */
    method Destroy() returns (released: bool)
      requires Valid()
      modifies manager
      ensures released <==> old(manager) != null && 0 <= old(manager.count) <= 1
      ensures released ==> manager.arenas == [] && manager.count == 0
      ensures manager != null && !released ==>
        manager.count == (if old(manager.count) > 0 then old(manager.count) - 1 else old(manager.count)) &&
        manager.arenas == old(manager.arenas)
    {
      released := false;
      if manager != null {
        manager.CountDecrement();
        if manager.count == 0 {
          manager.Dispose();
          released := true;
        }
      }
    }

    /** allocate: create the manager on first use, then allocate `cnt` elements from it. */
    method Allocate(cnt: nat) returns (p: Ptr)
      requires Valid()
      modifies this, manager
      ensures Valid() && manager != null
      ensures old(manager) == null ==> fresh(manager) && manager.count == 1
      ensures old(manager) != null ==> manager == old(manager) && manager.count == old(manager.count)
      ensures var before := if old(manager) == null then [] else old(manager.arenas);
        var id := if old(manager) == null then 0 else old(manager.nextId);
        var out := Alloc(before, id, RequestBytes(elemSize, cnt));
        manager.arenas == out.arenas && p == out.ptr
    {
      if manager == null {
        manager := new MemManager(elemSize);
      }
      p := manager.Allocate(cnt);
    }

    /** deallocate: the source dereferences the manager unconditionally. */
    method Deallocate(p: Ptr, cnt: nat)
      requires Valid() && manager != null
      modifies manager
      ensures Valid()
      ensures manager.arenas == Dealloc(old(manager.arenas), p, RequestBytes(elemSize, cnt))
      ensures manager.count == old(manager.count) && manager.nextId == old(manager.nextId)
    {
      manager.Deallocate(p, cnt);
    }

    /** get_allocated: (0, 0) without a manager, else the manager's totals. */
    method GetAllocated() returns (capacity: nat, used: nat)
      ensures manager == null ==> capacity == 0 && used == 0
      ensures manager != null ==> capacity == Capacity(manager.arenas) && used == Allocated(manager.arenas)
    {
      if manager == null {
        return 0, 0;
      }
      capacity, used := manager.GetAllocated();
    }

    /** max_size: the largest element count whose byte size fits in a `size_t`. */
    function MaxSize(): (r: nat)
      ensures r * elemSize <= SIZE_MAX < (r + 1) * elemSize
    {
      SIZE_MAX / elemSize
    }

    /**
     * operator=: when the managers differ, release this handle's claim on its
     * manager (deleting it when its count is already zero), then share the
     * other's. Both managers are dereferenced unconditionally.
     */
    method Assign(other: StdAllocator)
      requires Valid() && other.Valid() && other.elemSize == elemSize
      requires manager != other.manager ==> manager != null && other.manager != null
      modifies this, manager, other.manager
      ensures Valid() && manager == other.manager
      ensures old(manager) == old(other.manager) && old(manager) != null ==>
        old(manager).count == old(manager.count) && old(manager).arenas == old(manager.arenas)
      ensures old(manager) != old(other.manager) ==>
        manager.count == old(other.manager.count) + 1 &&
        manager.arenas == old(other.manager.arenas) &&
        (old(manager.count) != 0 ==>
          old(manager).count == (if old(manager.count) > 0 then old(manager.count) - 1 else old(manager.count)) &&
          old(manager).arenas == old(manager.arenas)) &&
        (old(manager.count) == 0 ==> old(manager).arenas == [])
    {
      if manager != other.manager {
        if manager.count != 0 {
          manager.CountDecrement();
        } else {
          manager.Dispose();
        }
        manager := other.manager;
        manager.CountIncrement();
      }
    }

    /** operator== as written: true when the two handles use different managers. */
    predicate EqualAsWritten(other: StdAllocator)
      reads this, other
      ensures EqualAsWritten(other) ==> this != other
    {
      manager != other.manager
    }

    /** The intended operator==: the two handles share one manager. */
    predicate Equal(other: StdAllocator)
      reads this, other
    {
      manager == other.manager
    }
  }

  /** As written, no handle compares equal to itself. */
  lemma EqualAsWrittenNotReflexive(h: StdAllocator)
    ensures !h.EqualAsWritten(h)
    ensures h.Equal(h)
  {
  }

  /** The intended comparison is an equivalence, and it is exactly the negation of the one written. */
  lemma EqualIsEquivalence(a: StdAllocator, b: StdAllocator, c: StdAllocator)
    ensures a.Equal(a)
    ensures a.Equal(b) ==> b.Equal(a)
    ensures a.Equal(b) && b.Equal(c) ==> a.Equal(c)
    ensures a.Equal(b) <==> !a.EqualAsWritten(b)
  {
  }

  /** The arena states the driver's opening steps pass through. */
  lemma DriverStates()
    ensures Alloc([], 0, 512) == Outcome([Arena(0, 512, [Chunk(0, 512, false)])], Ptr(0, 0))
    ensures Dealloc([Arena(0, 512, [Chunk(0, 512, false)])], Ptr(0, 0), 256) ==
            [Arena(0, 512, [Chunk(0, 256, false), Chunk(288, 224, true)])]
    ensures Dealloc([Arena(0, 512, [Chunk(0, 256, false), Chunk(288, 224, true)])], Ptr(0, 0), 128) ==
            [Arena(0, 512, [Chunk(0, 128, false), Chunk(160, 96, true), Chunk(288, 224, true)])]
  {
    assert FirstFit([], 512) == None;
    var p := Ptr(0, 0);
    var c1 := [Chunk(0, 512, false)];
    var s1 := [Arena(0, 512, c1)];
    assert Hit(s1, OwnerArena(p), OwnerChunk(p), 0, 0);
    ScanFindsFirstHit(s1, OwnerArena(p), OwnerChunk(p), 0, 0);
    assert SplitChunk(c1, 0, 256) == [Chunk(0, 256, false), Chunk(288, 224, true)];
    assert Dealloc(s1, p, 256) == Shrunk(s1, 0, 0, 256);
    var c2 := [Chunk(0, 256, false), Chunk(288, 224, true)];
    var s2 := [Arena(0, 512, c2)];
    assert Hit(s2, OwnerArena(p), OwnerChunk(p), 0, 0);
    ScanFindsFirstHit(s2, OwnerArena(p), OwnerChunk(p), 0, 0);
    assert SplitChunk(c2, 0, 128) == [Chunk(0, 128, false), Chunk(160, 96, true), Chunk(288, 224, true)];
    assert Dealloc(s2, p, 128) == Shrunk(s2, 0, 0, 128);
  }

  lemma SumOfThree<X>(x: X, y: X, z: X, f: X -> nat)
    ensures SumOf([x, y], f) == f(x) + f(y)
    ensures SumOf([x, y, z], f) == f(x) + f(y) + f(z)
  {
    assert [x, y][..1] == [x];
    assert [x, y, z][..2] == [x, y];
    SumOfSingle(x, f);
  }

  /** The (capacity, allocated) pairs get_allocated reports for those states. */
  lemma DriverTotals()
    ensures Capacity([Arena(0, 512, [Chunk(0, 512, false)])]) == 512
    ensures Allocated([Arena(0, 512, [Chunk(0, 512, false)])]) == 512
    ensures Capacity([Arena(0, 512, [Chunk(0, 256, false), Chunk(288, 224, true)])]) == 512
    ensures Allocated([Arena(0, 512, [Chunk(0, 256, false), Chunk(288, 224, true)])]) == 256
    ensures Capacity([Arena(0, 512, [Chunk(0, 128, false), Chunk(160, 96, true), Chunk(288, 224, true)])]) == 512
    ensures Allocated([Arena(0, 512, [Chunk(0, 128, false), Chunk(160, 96, true), Chunk(288, 224, true)])]) == 128
  {
    var a1 := Arena(0, 512, [Chunk(0, 512, false)]);
    var a2 := Arena(0, 512, [Chunk(0, 256, false), Chunk(288, 224, true)]);
    var a3 := Arena(0, 512, [Chunk(0, 128, false), Chunk(160, 96, true), Chunk(288, 224, true)]);
    SumOfSingle(a1, ArenaSize);
    SumOfSingle(a1, ArenaUsed);
    SumOfSingle(Chunk(0, 512, false), UsedBytes);
    SumOfSingle(a2, ArenaSize);
    SumOfSingle(a2, ArenaUsed);
    SumOfThree(Chunk(0, 256, false), Chunk(288, 224, true), Chunk(0, 0, true), UsedBytes);
    SumOfSingle(a3, ArenaSize);
    SumOfSingle(a3, ArenaUsed);
    SumOfThree(Chunk(0, 128, false), Chunk(160, 96, true), Chunk(288, 224, true), UsedBytes);
  }

  /**
   * The opening of the allocator's driver: an `int` handle allocates 128
   * elements, gives back 64 of them, is copied, and the copy gives back 32
   * more. Returns the (capacity, allocated) pair reported after each step.
   */
  method DriverOpening() returns (stats: seq<(nat, nat)>)
    ensures stats == [(0, 0), (512, 512), (512, 256), (512, 256), (512, 128)]
  {
    var alloc1, a;
    alloc1, a, stats := DriverFirstHandle();
    DriverStates();
    DriverTotals();
    assert RequestBytes(4, 32) == 128;
    var alloc2 := new StdAllocator.Copy(alloc1);
    var cap, used := alloc2.GetAllocated();
    stats := stats + [(cap, used)];
    alloc2.Deallocate(a, 32);
    assert alloc1.manager.arenas ==
      [Arena(0, 512, [Chunk(0, 128, false), Chunk(160, 96, true), Chunk(288, 224, true)])];
    cap, used := alloc1.GetAllocated();
    stats := stats + [(cap, used)];
  }

  /** The driver's first handle: allocate 128 `int`s, then give back 64 of them. */
  method DriverFirstHandle() returns (h: StdAllocator, a: Ptr, stats: seq<(nat, nat)>)
    ensures fresh(h) && fresh(h.manager) && h.Valid() && h.elemSize == 4 && h.manager != null
    ensures h.manager.arenas == [Arena(0, 512, [Chunk(0, 256, false), Chunk(288, 224, true)])] && a == Ptr(0, 0)
    ensures stats == [(0, 0), (512, 512), (512, 256)]
  {
    DriverStates();
    DriverTotals();
    assert RequestBytes(4, 128) == 512 && RequestBytes(4, 64) == 256;
    h := new StdAllocator(4);
    var cap, used := h.GetAllocated();
    stats := [(cap, used)];
    a := h.Allocate(128);
    assert h.manager.arenas == [Arena(0, 512, [Chunk(0, 512, false)])] && a == Ptr(0, 0);
    cap, used := h.GetAllocated();
    stats := stats + [(cap, used)];
    h.Deallocate(a, 64);
    cap, used := h.GetAllocated();
    stats := stats + [(cap, used)];
  }
}
