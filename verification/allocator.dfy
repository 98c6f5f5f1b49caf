/** The block allocator of projeto2.c: the `blocosLivres` free/occupied map
    and the `espacosLivres` free counter. */
module Allocator {

  /** Number of blocks on the simulated disk (the size of `blocosLivres`). */
  const BlockCount: nat := 256
  /** Blocks 0..9 are the boot area and are never handed out. */
  const Reserved: nat := 10
  /** Bytes per block, used for the block count of a file and for free bytes. */
  const BlockSize: nat := 512
  /** Blocks the allocator can hand out: 246. */
  const Usable: nat := BlockCount - Reserved

  /** A number `liberar_bloco` accepts as a block. */
  predicate IsBlock(b: int) {
    0 <= b < BlockCount
  }

  /** The `blocosLivres` array: `free[i]` is `blocosLivres[i] != 0`. */
  type BlockMap = s: seq<bool> | |s| == BlockCount witness seq(BlockCount, i => false)

  /** The allocator state; `count` is `espacosLivres`. */
  datatype Disk = Disk(free: BlockMap, count: int)

  /** Result of one `alocar_bloco` call: the new map and the block number,
      -1 when no block was free. */
  datatype Allocation = Allocation(disk: Disk, block: int)

  /** Result of allocating several blocks one after the other. */
  datatype Chain = Chain(disk: Disk, blocks: seq<int>)

  /** The free block numbers from `lo` upwards, in ascending order. */
  function FreeFrom(free: seq<bool>, lo: nat): (r: seq<int>)
    ensures forall k :: 0 <= k < |r| ==> lo <= r[k] < |free| && free[r[k]]
    decreases |free| - lo
  {
    if lo >= |free| then []
    else (if free[lo] then [lo] else []) + FreeFrom(free, lo + 1)
  }

  /** The occupied block numbers from `lo` upwards, each once. */
  function UsedFrom(free: seq<bool>, lo: nat): multiset<int>
    decreases |free| - lo
  {
    if lo >= |free| then multiset{}
    else (if free[lo] then multiset{} else multiset{lo}) + UsedFrom(free, lo + 1)
  }

  /** How many times block `b` is in use outside the boot area: 1 when it
      is occupied, 0 otherwise. */
  function InUse(d: Disk, b: int): nat
  {
    if Reserved <= b < BlockCount && !d.free[b] then 1 else 0
  }

  /** The state `inicializar_blocos` establishes and every operation keeps:
      a 256-slot map whose boot blocks are occupied, and a counter equal to
      the number of free blocks. */
  predicate Valid(d: Disk) {
    && (forall i :: 0 <= i < Reserved ==> !d.free[i])
    && d.count == |FreeFrom(d.free, Reserved)|
  }

  /** `inicializar_blocos`. */
  function Init(): (d: Disk)
    ensures Valid(d)
    ensures d.count == Usable
    ensures forall i :: 0 <= i < BlockCount ==> (d.free[i] <==> i >= Reserved)
  {
    var free := seq(BlockCount, i => i >= Reserved);
    AllFreeFrom(free, Reserved);
    Disk(free, Usable)
  }

  lemma {:induction false} AllFreeFrom(free: seq<bool>, lo: nat)
    requires lo <= |free|
    requires forall i :: lo <= i < |free| ==> free[i]
    ensures |FreeFrom(free, lo)| == |free| - lo
    decreases |free| - lo
  {
    if lo < |free| {
      AllFreeFrom(free, lo + 1);
    }
  }

  /** The scan of `alocar_bloco`: the lowest free index at or above `lo`, or
      -1 when there is none. */
  function FirstFree(free: seq<bool>, lo: nat): (i: int)
    ensures i == -1 || (lo <= i < |free| && free[i])
    ensures i != -1 ==> forall j :: lo <= j < i ==> !free[j]
    ensures i == -1 <==> forall j :: lo <= j < |free| ==> !free[j]
    decreases |free| - lo
  {
    if lo >= |free| then -1
    else if free[lo] then lo
    else FirstFree(free, lo + 1)
  }

  /** `alocar_bloco`: takes the lowest free block at or above the boot area,
      marks it occupied and decrements the counter; returns -1 and changes
      nothing when the disk is full. */
  function Alloc(d: Disk): (a: Allocation)
    ensures a.block == -1 <==> forall j :: Reserved <= j < BlockCount ==> !d.free[j]
    ensures a.block == -1 ==> a.disk == d
    ensures a.block != -1 ==>
      && Reserved <= a.block < BlockCount
      && d.free[a.block]
      && (forall j :: Reserved <= j < a.block ==> !d.free[j])
      && a.disk.free == d.free[a.block := false]
      && a.disk.count == d.count - 1
  {
    var i := FirstFree(d.free, Reserved);
    if i == -1 then Allocation(d, -1)
    else Allocation(Disk(d.free[i := false], d.count - 1), i)
  }

  /** `liberar_bloco`: frees an in-range occupied block and increments the
      counter; anything else is ignored. Like the source, it does not refuse
      the boot blocks. */
  function Release(d: Disk, i: int): (d': Disk)
    ensures 0 <= i < BlockCount ==> d'.free[i]
    ensures forall j :: 0 <= j < BlockCount && j != i ==> d'.free[j] == d.free[j]
    ensures d'.count == d.count + (if 0 <= i < BlockCount && !d.free[i] then 1 else 0)
  {
    if 0 <= i < BlockCount && !d.free[i] then Disk(d.free[i := true], d.count + 1)
    else d
  }

  /** `n` calls of `alocar_bloco` in a row, collecting the numbers in call
      order (the chain loop of `criaa`). */
  function AllocMany(d: Disk, n: int): (c: Chain)
    ensures |c.blocks| == (if n < 0 then 0 else n)
    decreases n
  {
    if n <= 0 then Chain(d, [])
    else
      var a := Alloc(d);
      var rest := AllocMany(a.disk, n - 1);
      Chain(rest.disk, [a.block] + rest.blocks)
  }

  /** The in-range numbers of a chain: the blocks `liberar_bloco` would
      actually give back. */
  function InDisk(chain: seq<int>): (r: multiset<int>)
    ensures forall b :: b in r ==> 0 <= b < BlockCount
    ensures |r| <= |chain|
  {
    if |chain| == 0 then multiset{}
    else (if 0 <= chain[0] < BlockCount then multiset{chain[0]} else multiset{}) + InDisk(chain[1..])
  }

  /** `liberar_bloco` applied to every number of a chain, in order (the
      release loop of `removea`). */
  function ReleaseMany(d: Disk, chain: seq<int>): (d': Disk)
    ensures forall b :: 0 <= b < BlockCount ==> (d'.free[b] <==> d.free[b] || b in chain)
    decreases |chain|
  {
    if |chain| == 0 then d
    else ReleaseMany(Release(d, chain[0]), chain[1..])
  }

  // ---------------------------------------------------------------------
  // Facts about the free list and the occupied set

  lemma {:induction false} FreeFromMember(free: seq<bool>, lo: nat, b: int)
    ensures b in FreeFrom(free, lo) <==> lo <= b < |free| && free[b]
    decreases |free| - lo
  {
    if lo < |free| {
      FreeFromMember(free, lo + 1, b);
    }
  }

  /** The free list is strictly ascending. */
  lemma {:induction false} FreeFromAscending(free: seq<bool>, lo: nat)
    ensures forall k, m :: 0 <= k < m < |FreeFrom(free, lo)| ==> FreeFrom(free, lo)[k] < FreeFrom(free, lo)[m]
    decreases |free| - lo
  {
    if lo < |free| {
      FreeFromAscending(free, lo + 1);
    }
  }

  /** The scan of `alocar_bloco` picks the head of the free list. */
  lemma {:induction false} FirstFreeIsHead(free: seq<bool>, lo: nat)
    ensures FirstFree(free, lo) == (if |FreeFrom(free, lo)| == 0 then -1 else FreeFrom(free, lo)[0])
    decreases |free| - lo
  {
    if lo < |free| && !free[lo] {
      FirstFreeIsHead(free, lo + 1);
    }
  }

  /** The occupied set holds each occupied block from `lo` on exactly once. */
  lemma {:induction false} UsedFromCount(free: seq<bool>, lo: nat, b: int)
    ensures UsedFrom(free, lo)[b] == (if lo <= b < |free| && !free[b] then 1 else 0)
    decreases |free| - lo
  {
    if lo < |free| {
      UsedFromCount(free, lo + 1, b);
    }
  }

  /** Every block from `lo` on is either free or occupied. */
  lemma {:induction false} Partition(free: seq<bool>, lo: nat)
    requires lo <= |free|
    ensures |UsedFrom(free, lo)| + |FreeFrom(free, lo)| == |free| - lo
    decreases |free| - lo
  {
    if lo < |free| {
      Partition(free, lo + 1);
    }
  }

  /** Occupying a free block shortens the free list by one; blocks below
      `lo` are not seen at all. */
  lemma {:induction false} Occupy(free: seq<bool>, lo: nat, b: int)
    requires 0 <= b < |free| && free[b]
    ensures |FreeFrom(free[b := false], lo)| == |FreeFrom(free, lo)| - (if lo <= b then 1 else 0)
    decreases |free| - lo
  {
    if lo < |free| {
      var f := free[b := false];
      Occupy(free, lo + 1, b);
      assert FreeFrom(f, lo) == (if f[lo] then [lo] else []) + FreeFrom(f, lo + 1);
      if lo != b {
        assert f[lo] == free[lo];
      }
    }
  }

  /** Occupying the head of the free list leaves its tail. */
  lemma {:induction false} OccupyHead(free: seq<bool>, lo: nat)
    requires FreeFrom(free, lo) != []
    ensures FreeFrom(free[FreeFrom(free, lo)[0] := false], lo) == FreeFrom(free, lo)[1..]
    decreases |free| - lo
  {
    var b := FreeFrom(free, lo)[0];
    var f := free[b := false];
    assert lo < |free|;
    if free[lo] {
      assert b == lo;
      FreeFromSame(free, f, lo + 1, b);
    } else {
      OccupyHead(free, lo + 1);
    }
  }

  /** The free list from `lo` on does not look at blocks below `lo`. */
  lemma {:induction false} FreeFromSame(free: seq<bool>, f: seq<bool>, lo: nat, b: int)
    requires |f| == |free|
    requires b < lo
    requires forall j :: 0 <= j < |free| && j != b ==> f[j] == free[j]
    ensures FreeFrom(f, lo) == FreeFrom(free, lo)
    decreases |free| - lo
  {
    if lo < |free| {
      FreeFromSame(free, f, lo + 1, b);
    }
  }

  /** Freeing an occupied block lengthens the free list by one. */
  lemma {:induction false} Vacate(free: seq<bool>, lo: nat, b: int)
    requires 0 <= b < |free| && !free[b]
    ensures |FreeFrom(free[b := true], lo)| == |FreeFrom(free, lo)| + (if lo <= b then 1 else 0)
  {
    var f := free[b := true];
    assert f[b := false] == free;
    Occupy(f, lo, b);
  }

  // ---------------------------------------------------------------------
  // Allocator properties

  /** On a valid map, the counter plus the blocks in use outside the boot
      area is always 246. */
  lemma Conservation(d: Disk)
    requires Valid(d)
    ensures d.count + |UsedFrom(d.free, Reserved)| == Usable
  {
    Partition(d.free, Reserved);
  }

  /** On a valid map `alocar_bloco` fails exactly when the counter is 0,
      and otherwise hands out the head of the free list and keeps the map
      valid. */
  lemma {:induction false} AllocSpec(d: Disk)
    requires Valid(d)
    ensures Alloc(d).block == -1 <==> d.count == 0
    ensures Valid(Alloc(d).disk)
    ensures Alloc(d).block != -1 ==>
      && Alloc(d).block == FreeFrom(d.free, Reserved)[0]
      && FreeFrom(Alloc(d).disk.free, Reserved) == FreeFrom(d.free, Reserved)[1..]
  {
    FirstFreeIsHead(d.free, Reserved);
    var a := Alloc(d);
    if a.block != -1 {
      Occupy(d.free, Reserved, a.block);
      OccupyHead(d.free, Reserved);
    }
  }

  /** Releasing the block just allocated restores the disk exactly. */
  lemma AllocThenRelease(d: Disk)
    requires Valid(d)
    requires Alloc(d).block != -1
    ensures Release(Alloc(d).disk, Alloc(d).block) == d
  {
    var a := Alloc(d);
    assert a.disk.free[a.block := true] == d.free;
  }

  /** Releasing twice is the same as releasing once. */
  lemma ReleaseIdempotent(d: Disk, i: int)
    ensures Release(Release(d, i), i) == Release(d, i)
  {
  }

  /** Releasing any block outside the boot area keeps the map valid. */
  lemma {:induction false} ReleaseSpec(d: Disk, i: int)
    requires Valid(d)
    requires !(0 <= i < Reserved)
    ensures Valid(Release(d, i))
  {
    if 0 <= i < BlockCount && !d.free[i] {
      Vacate(d.free, Reserved, i);
    }
  }

  /** `n` allocations in a row, when at least `n` blocks are free, leave a
      valid map with `n` fewer free blocks: exactly the first `n` of the
      free list have become occupied. */
  lemma {:induction false} AllocManyDisk(d: Disk, n: int)
    requires Valid(d)
    requires 0 <= n <= d.count
    ensures Valid(AllocMany(d, n).disk)
    ensures AllocMany(d, n).disk.count == d.count - n
    ensures FreeFrom(AllocMany(d, n).disk.free, Reserved) == FreeFrom(d.free, Reserved)[n..]
    decreases n
  {
    if n > 0 {
      AllocSpec(d);
      var a := Alloc(d);
      AllocManyDisk(a.disk, n - 1);
      var rest := AllocMany(a.disk, n - 1);
      assert AllocMany(d, n).disk == rest.disk;
      var fl := FreeFrom(d.free, Reserved);
      assert fl[1..][n - 1..] == fl[n..];
    }
  }

  /** The map after `n` allocations differs from the one before exactly in
      the blocks handed out, which are now occupied. */
  lemma {:induction false} AllocManyMap(d: Disk, n: int)
    ensures forall b :: 0 <= b < BlockCount ==>
      (AllocMany(d, n).disk.free[b] <==> d.free[b] && b !in AllocMany(d, n).blocks)
    decreases n
  {
    if n > 0 {
      var a := Alloc(d);
      AllocManyMap(a.disk, n - 1);
    }
  }

  /** The blocks handed out by `n` allocations in a row are the `n` lowest
      free blocks, in ascending order. */
  lemma {:induction false} AllocManyBlocks(d: Disk, n: int)
    requires Valid(d)
    requires 0 <= n <= d.count
    ensures AllocMany(d, n).blocks == FreeFrom(d.free, Reserved)[..n]
    decreases n
  {
    if n > 0 {
      var a := Alloc(d);
      var fl := FreeFrom(d.free, Reserved);
      assert a.block == fl[0] && FreeFrom(a.disk.free, Reserved) == fl[1..]
        && Valid(a.disk) && a.disk.count == d.count - 1 by {
        AllocSpec(d);
      }
      AllocManyBlocks(a.disk, n - 1);
      calc {
        AllocMany(d, n).blocks;
        [a.block] + AllocMany(a.disk, n - 1).blocks;
        [fl[0]] + fl[1..][..n - 1];
        { assert fl[..n] == [fl[0]] + fl[1..][..n - 1]; }
        fl[..n];
      }
    }
  }

  /** Releasing a chain whose in-range entries are distinct blocks in use
      gives every one of them back: the counter rises by their number. */
  lemma {:induction false} ReleaseManySpec(d: Disk, chain: seq<int>)
    requires Valid(d)
    requires forall b :: InDisk(chain)[b] <= InUse(d, b)
    ensures Valid(ReleaseMany(d, chain))
    ensures ReleaseMany(d, chain).count == d.count + |InDisk(chain)|
    decreases |chain|
  {
    if |chain| > 0 {
      var c := chain[0];
      var d1 := Release(d, c);
      var here := if 0 <= c < BlockCount then multiset{c} else multiset{};
      assert InDisk(chain) == here + InDisk(chain[1..]);
      if 0 <= c < BlockCount {
        assert InDisk(chain)[c] >= 1;
      }
      ReleaseSpec(d, c);
      forall b | true
        ensures InDisk(chain[1..])[b] <= InUse(d1, b)
      {
        assert InDisk(chain)[b] <= InUse(d, b);
      }
      ReleaseManySpec(d1, chain[1..]);
      assert ReleaseMany(d, chain) == ReleaseMany(d1, chain[1..]);
    }
  }

  /** An in-range number is released exactly when it is in the chain. */
  lemma {:induction false} InDiskMember(chain: seq<int>, b: int)
    requires IsBlock(b)
    ensures b in InDisk(chain) <==> b in chain
  {
    if |chain| > 0 {
      InDiskMember(chain[1..], b);
      assert chain == [chain[0]] + chain[1..];
    }
  }

  /** A chain of real block numbers gives back every entry. */
  lemma {:induction false} InDiskAll(chain: seq<int>)
    requires forall k :: 0 <= k < |chain| ==> IsBlock(chain[k])
    ensures InDisk(chain) == multiset(chain)
  {
    if |chain| > 0 {
      InDiskAll(chain[1..]);
      assert chain == [chain[0]] + chain[1..];
    }
  }

  /** In a strictly ascending list every number occurs at most once. */
  lemma {:induction false} AscendingOnce(xs: seq<int>, b: int)
    requires forall k, m :: 0 <= k < m < |xs| ==> xs[k] < xs[m]
    ensures multiset(xs)[b] == (if b in xs then 1 else 0)
  {
    if |xs| > 0 {
      AscendingOnce(xs[1..], b);
      assert xs == [xs[0]] + xs[1..];
      if b == xs[0] {
        assert b !in xs[1..];
      }
    }
  }

  // ---------------------------------------------------------------------
  // A chain allocated and released again

  /** The blocks of `n` allocations are real, distinct block numbers, in
      ascending order. */
  lemma AllocManyAscending(d: Disk, n: int)
    requires Valid(d)
    requires 0 <= n <= d.count
    ensures forall k :: 0 <= k < |AllocMany(d, n).blocks| ==>
      Reserved <= AllocMany(d, n).blocks[k] < BlockCount && d.free[AllocMany(d, n).blocks[k]]
    ensures forall k, m :: 0 <= k < m < |AllocMany(d, n).blocks| ==>
      AllocMany(d, n).blocks[k] < AllocMany(d, n).blocks[m]
  {
    AllocManyBlocks(d, n);
    FreeFromAscending(d.free, Reserved);
  }

  /** Block by block, the chain of `n` allocations holds exactly what the
      map has newly marked occupied. */
  lemma AllocManyHeld(d: Disk, n: int, b: int)
    requires Valid(d)
    requires 0 <= n <= d.count
    ensures InDisk(AllocMany(d, n).blocks)[b] + InUse(d, b) == InUse(AllocMany(d, n).disk, b)
  {
    var c := AllocMany(d, n);
    assert InDisk(c.blocks)[b] == (if b in c.blocks then 1 else 0) by {
      AllocManyAscending(d, n);
      InDiskAll(c.blocks);
      AscendingOnce(c.blocks, b);
    }
    if b in c.blocks {
      assert Reserved <= b < BlockCount && d.free[b] by {
        AllocManyAscending(d, n);
        var k :| 0 <= k < |c.blocks| && c.blocks[k] == b;
      }
    }
    if IsBlock(b) {
      assert c.disk.free[b] <==> d.free[b] && b !in c.blocks by {
        AllocManyMap(d, n);
      }
    }
  }

  /** Releasing the chain of `n` allocations gives back the disk exactly as
      it was before them. */
  lemma AllocManyThenRelease(d: Disk, n: int)
    requires Valid(d)
    requires 0 <= n <= d.count
    ensures ReleaseMany(AllocMany(d, n).disk, AllocMany(d, n).blocks) == d
  {
    var c := AllocMany(d, n);
    var r := ReleaseMany(c.disk, c.blocks);
    assert r.count == d.count by {
      AllocManyDisk(d, n);
      forall b | true
        ensures InDisk(c.blocks)[b] <= InUse(c.disk, b)
      {
        AllocManyHeld(d, n, b);
      }
      ReleaseManySpec(c.disk, c.blocks);
      AllocManyAscending(d, n);
      InDiskAll(c.blocks);
    }
    assert r.free == d.free by {
      AllocManyMap(d, n);
      AllocManyAscending(d, n);
      forall b | 0 <= b < BlockCount
        ensures r.free[b] == d.free[b]
      {
        if b in c.blocks {
          var k :| 0 <= k < |c.blocks| && c.blocks[k] == b;
        }
      }
    }
  }
}
