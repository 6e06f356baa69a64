/**
  * The allocation tracker (lib/memtrack/src/memtrack.c). Every tracked allocation
  * carries a header that links it into a list of live blocks, most recent first; the
  * tracker counts calls and bytes. Addresses are natural numbers, 0 is NULL, and what
  * `malloc` returns is a parameter: an address not in use, or None when it fails.
  * A freed block's header stays stamped as freed; `freed` is the set of such addresses.
  */
module MemTrack {
  import opened Wrappers
  import opened Bytes

  /** One tracked allocation: its user address, sequence number, size and contents. */
  datatype Block = Block(addr: nat, index: int, size: nat, data: seq<byte>)

  /**
    * The tracker's globals: the block list (head first), freed addresses,
    * `total_memory_used`, `total_memory`, `malloc_calls`, `free_calls`, `block_index`.
    */
  datatype Tracker = Tracker(live: seq<Block>, freed: set<nat>, totalUsed: nat, total: int,
                             mallocCalls: nat, freeCalls: nat, blockIndex: int)

  const START: Tracker := Tracker([], {}, 0, 0, 0, 0, 0)

  /** The user addresses of the live blocks, in list order. */
  function Addrs(live: seq<Block>): (as_: seq<nat>)
    ensures |as_| == |live| && forall i :: 0 <= i < |live| ==> as_[i] == live[i].addr
  {
    seq(|live|, i requires 0 <= i < |live| => live[i].addr)
  }

  /** Sum of the sizes of the live blocks. */
  function SumSizes(live: seq<Block>): nat
  {
    if live == [] then 0 else live[0].size + SumSizes(live[1..])
  }

  /**
    * The tracker invariant: live addresses are distinct, non-NULL and not stamped as
    * freed, each block holds `size` bytes, and `total_memory` is the sum of live sizes.
    */
  predicate Valid(t: Tracker)
  {
    (forall i, j :: 0 <= i < j < |t.live| ==> t.live[i].addr != t.live[j].addr) &&
    (forall i :: 0 <= i < |t.live| ==> t.live[i].addr != 0 && t.live[i].addr !in t.freed) &&
    (forall i :: 0 <= i < |t.live| ==> |t.live[i].data| == t.live[i].size) &&
    t.total == SumSizes(t.live)
  }

  /** The position of the live block at `addr`. */
  function Find(live: seq<Block>, addr: nat): (r: Option<nat>)
    ensures r.None? <==> addr !in Addrs(live)
    ensures r.Some? ==> r.value < |live| && live[r.value].addr == addr
    ensures r.Some? ==> forall k :: 0 <= k < r.value ==> live[k].addr != addr
  {
    if live == [] then None
    else if live[0].addr == addr then Some(0)
    else match Find(live[1..], addr)
      case None => None
      case Some(k) => Some(k + 1)
  }

  /** Unlinks the block at `addr` (its neighbours are joined); the others keep their order. */
  function Unlink(live: seq<Block>, addr: nat): (r: seq<Block>)
    ensures Find(live, addr).None? ==> r == live
    ensures Find(live, addr).Some? ==>
      |r| == |live| - 1 && forall i :: 0 <= i < |r| ==> r[i] == live[if i < Find(live, addr).value then i else i + 1]
  {
    match Find(live, addr)
    case None => live
    case Some(k) => live[..k] + live[k + 1..]
  }

  /** Removing block k leaves the sum of sizes less its size. */
  lemma {:induction false} SumWithout(live: seq<Block>, k: nat)
    requires k < |live|
    ensures SumSizes(live[..k] + live[k + 1..]) + live[k].size == SumSizes(live)
  {
    if k == 0 {
      assert live[..0] + live[1..] == live[1..];
    } else {
      var rest := live[1..];
      SumWithout(rest, k - 1);
      assert live[..k] + live[k + 1..] == [live[0]] + (rest[..k - 1] + rest[k..]);
    }
  }

  /** Unlinking block k removes exactly one copy of it. */
  lemma UnlinkRemovesOne(live: seq<Block>, k: nat)
    requires k < |live|
    ensures multiset(live[..k] + live[k + 1..]) + multiset{live[k]} == multiset(live)
  {
    assert live == live[..k] + [live[k]] + live[k + 1..];
  }

  /** Unlinking from a list with distinct addresses leaves distinct addresses. */
  lemma UnlinkDistinct(live: seq<Block>, addr: nat, k: nat)
    requires Find(live, addr) == Some(k)
    requires forall i, j :: 0 <= i < j < |live| ==> live[i].addr != live[j].addr
    ensures forall i, j :: 0 <= i < j < |Unlink(live, addr)| ==> Unlink(live, addr)[i].addr != Unlink(live, addr)[j].addr
  {
    var u := Unlink(live, addr);
    forall i, j | 0 <= i < j < |u| ensures u[i].addr != u[j].addr {
      var i', j' := if i < k then i else i + 1, if j < k then j else j + 1;
      assert u[i] == live[i'] && u[j] == live[j'] && i' < j';
    }
  }

  /**
    * `trackmalloc`: when `malloc` returns a new block, it becomes the list head with
    * the next index, both byte totals grow by `size` and `malloc_calls` by one; the
    * user memory starts as `garbage`. When `malloc` fails nothing changes and NULL returns.
    */
  function Malloc(t: Tracker, size: nat, obtained: Option<nat>, garbage: seq<byte>): (r: (Tracker, Option<nat>))
    requires Valid(t) && |garbage| == size
    requires obtained.Some? ==> obtained.value != 0 && obtained.value !in Addrs(t.live)
    ensures Valid(r.0)
    ensures obtained.None? ==> r == (t, None)
    ensures obtained.Some? ==>
      r.1 == obtained && r.0.live == [Block(obtained.value, t.blockIndex, size, garbage)] + t.live &&
      r.0.totalUsed == t.totalUsed + size && r.0.total == t.total + size &&
      r.0.mallocCalls == t.mallocCalls + 1 && r.0.freeCalls == t.freeCalls &&
      r.0.blockIndex == t.blockIndex + 1 && obtained.value !in r.0.freed
  {
    match obtained
    case None => (t, None)
    case Some(a) =>
      var b := Block(a, t.blockIndex, size, garbage);
      var t' := t.(live := [b] + t.live, freed := t.freed - {a}, totalUsed := t.totalUsed + size,
                   total := t.total + size, mallocCalls := t.mallocCalls + 1, blockIndex := t.blockIndex + 1);
      assert t'.live[1..] == t.live;
      (t', Some(a))
  }

  /** What `trackfree` reports. */
  datatype FreeOutcome = Ignored | DoubleFree | InvalidFree | Released

  /**
    * `trackfree`: NULL is ignored; a block stamped as freed, or an address that is not a
    * tracked block, is only reported. A live block is stamped as freed and unlinked,
    * `free_calls` grows by one and `total_memory` drops by its size; `total_memory_used`
    * never decreases.
    */
  function Free(t: Tracker, ptr: Option<nat>): (r: (Tracker, FreeOutcome))
    requires Valid(t)
    ensures Valid(r.0)
    ensures ptr.None? ==> r == (t, Ignored)
    ensures ptr.Some? && ptr.value !in Addrs(t.live) ==>
      r.0 == t && (r.1 == DoubleFree <==> ptr.value in t.freed) && (r.1 == InvalidFree <==> ptr.value !in t.freed)
    ensures ptr.Some? && ptr.value in Addrs(t.live) ==>
      var b := t.live[Find(t.live, ptr.value).value];
      r.1 == Released && ptr.value in r.0.freed && ptr.value !in Addrs(r.0.live) &&
      multiset(r.0.live) + multiset{b} == multiset(t.live) &&
      r.0.freeCalls == t.freeCalls + 1 && r.0.total == t.total - b.size &&
      r.0.totalUsed == t.totalUsed && r.0.mallocCalls == t.mallocCalls && r.0.blockIndex == t.blockIndex
  {
    match ptr
    case None => (t, Ignored)
    case Some(p) =>
      match Find(t.live, p)
      case None => (t, if p in t.freed then DoubleFree else InvalidFree)
      case Some(k) => (Release(t, p, k), Released)
  }

  /** The live block k at `p` stamped as freed and unlinked, with the counters updated. */
  function Release(t: Tracker, p: nat, k: nat): (r: Tracker)
    requires Valid(t) && Find(t.live, p) == Some(k)
    ensures Valid(r)
    ensures r.live == Unlink(t.live, p) && p in r.freed && p !in Addrs(r.live)
    ensures multiset(r.live) + multiset{t.live[k]} == multiset(t.live)
    ensures r.freeCalls == t.freeCalls + 1 && r.total == t.total - t.live[k].size
    ensures r.totalUsed == t.totalUsed && r.mallocCalls == t.mallocCalls && r.blockIndex == t.blockIndex
  {
    ReleaseValid(t, p, k);
    UnlinkRemovesOne(t.live, k);
    FreedNotLive(t, p, k);
    t.(live := Unlink(t.live, p), freed := t.freed + {p}, freeCalls := t.freeCalls + 1, total := t.total - t.live[k].size)
  }

  lemma ReleaseValid(t: Tracker, p: nat, k: nat)
    requires Valid(t) && Find(t.live, p) == Some(k)
    ensures Valid(t.(live := Unlink(t.live, p), freed := t.freed + {p}, freeCalls := t.freeCalls + 1,
                     total := t.total - t.live[k].size))
  {
    SumWithout(t.live, k);
    UnlinkDistinct(t.live, p, k);
    FreedNotLive(t, p, k);
    var u := Unlink(t.live, p);
    forall i | 0 <= i < |u| ensures |u[i].data| == u[i].size && u[i].addr != 0 {
      assert u[i] == t.live[if i < k then i else i + 1];
    }
  }

  lemma FreedNotLive(t: Tracker, p: nat, k: nat)
    requires Valid(t) && Find(t.live, p) == Some(k)
    ensures p !in Addrs(Unlink(t.live, p))
    ensures forall i :: 0 <= i < |Unlink(t.live, p)| ==> Unlink(t.live, p)[i].addr !in t.freed + {p}
  {
    var u := Unlink(t.live, p);
    forall i | 0 <= i < |u| ensures u[i].addr !in t.freed + {p} {
      var j := if i < k then i else i + 1;
      assert u[i] == t.live[j] && j != k;
    }
  }

  /** Freeing the block just allocated restores the live list and `total_memory`; both call counters moved. */
  lemma FreeUndoesMalloc(t: Tracker, size: nat, a: nat, garbage: seq<byte>)
    requires Valid(t) && |garbage| == size && a != 0 && a !in Addrs(t.live)
    ensures var m := Malloc(t, size, Some(a), garbage);
      var f := Free(m.0, m.1);
      f.1 == Released && f.0.live == t.live && f.0.total == t.total &&
      f.0.totalUsed == t.totalUsed + size && f.0.mallocCalls == t.mallocCalls + 1 && f.0.freeCalls == t.freeCalls + 1
  {
    var m := Malloc(t, size, Some(a), garbage);
    assert m.0.live[0].addr == a;
    assert Find(m.0.live, a) == Some(0);
  }

  /** Freeing the same block twice reports the second free and changes nothing. */
  lemma SecondFreeReported(t: Tracker, p: nat)
    requires Valid(t) && p in Addrs(t.live)
    ensures var once := Free(t, Some(p)).0;
      Free(once, Some(p)) == (once, DoubleFree)
  {
  }

  /** `trackstrdup`: a copy of `s` with its terminator, in a block of strlen + 1 bytes. */
  function Strdup(t: Tracker, s: seq<byte>, obtained: Option<nat>, garbage: seq<byte>): (r: (Tracker, Option<nat>))
    requires Valid(t) && 0 !in s && |garbage| == |s| + 1
    requires obtained.Some? ==> obtained.value != 0 && obtained.value !in Addrs(t.live)
    ensures Valid(r.0)
    ensures obtained.None? ==> r == (t, None)
    ensures obtained.Some? ==>
      r.1 == obtained && r.0.live == [Block(obtained.value, t.blockIndex, |s| + 1, s + [0])] + t.live &&
      r.0.total == t.total + |s| + 1 && r.0.totalUsed == t.totalUsed + |s| + 1 && r.0.mallocCalls == t.mallocCalls + 1
  {
    var m := Malloc(t, |s| + 1, obtained, garbage);
    match m.1
    case None => m
    case Some(a) =>
      assert m.0.live[1..] == t.live;
      assert s + [0] + m.0.live[0].data[|s| + 1..] == s + [0];
      (Overwrite(m.0, s + [0]), m.1)
  }

  /** `memcpy` into the head block: its first bytes become `bytes`. */
  function Overwrite(t: Tracker, bytes: seq<byte>): (r: Tracker)
    requires Valid(t) && |t.live| > 0 && |bytes| <= t.live[0].size
    ensures Valid(r)
    ensures r.live == [t.live[0].(data := bytes + t.live[0].data[|bytes|..])] + t.live[1..]
    ensures r == t.(live := r.live)
  {
    var head := t.live[0];
    var r := t.(live := [head.(data := bytes + head.data[|bytes|..])] + t.live[1..]);
    assert r.live[1..] == t.live[1..];
    SumHead(t.live, r.live);
    r
  }

  lemma SumHead(a: seq<Block>, b: seq<Block>)
    requires |a| > 0 && |b| == |a| && a[0].size == b[0].size && a[1..] == b[1..]
    ensures SumSizes(a) == SumSizes(b)
  {
  }

  /** Why a reallocation goes wrong. */
  datatype ReallocError = CopyToNull | HeapOverflow

  /**
    * The body of a reallocation that succeeds: a new head block at `a` whose first bytes
    * are `copied`, and the block at `p` freed.
    */
  function Move(t: Tracker, p: nat, size: nat, a: nat, garbage: seq<byte>, copied: seq<byte>): (r: Tracker)
    requires Valid(t) && |garbage| == size && |copied| <= size
    requires p in Addrs(t.live) && a != 0 && a !in Addrs(t.live)
    ensures Valid(r) && |r.live| == |t.live| && |r.live| > 0
    ensures r.live[0] == Block(a, t.blockIndex, size, copied + garbage[|copied|..])
    ensures r.live[1..] == Unlink(t.live, p)
    ensures r.total == t.total + size - t.live[Find(t.live, p).value].size
    ensures p in r.freed && p !in Addrs(r.live) && r.freed == t.freed - {a} + {p}
    ensures r.totalUsed == t.totalUsed + size && r.mallocCalls == t.mallocCalls + 1 &&
            r.freeCalls == t.freeCalls + 1 && r.blockIndex == t.blockIndex + 1
  {
    var k := Find(t.live, p).value;
    var m := Malloc(t, size, Some(a), garbage).0;
    assert m.live[1..] == t.live;
    var w := Overwrite(m, copied);
    assert w.live[1..] == t.live;
    assert Find(w.live, p) == Some(k + 1);
    UnlinkBehindHead(w.live, p, k);
    Release(w, p, k + 1)
  }

  /** Unlinking a block behind the head keeps the head and unlinks it from the rest. */
  lemma UnlinkBehindHead(live: seq<Block>, p: nat, k: nat)
    requires |live| > 0 && Find(live, p) == Some(k + 1)
    ensures Unlink(live, p) == [live[0]] + Unlink(live[1..], p)
  {
    var rest := live[1..];
    assert Find(rest, p) == Some(k);
    assert live[..k + 1] + live[k + 2..] == [live[0]] + (rest[..k] + rest[k + 1..]);
  }

  /**
    * `trackrealloc` as written: with a non-NULL pointer it allocates `size` bytes, copies
    * the old block's size into them and frees the old block. When the old block is larger
    * the copy runs past the new block; when the allocation fails it copies into NULL.
    */
  function ReallocAsWritten(t: Tracker, ptr: Option<nat>, size: nat, obtained: Option<nat>, garbage: seq<byte>)
    : (r: Result<(Tracker, Option<nat>), ReallocError>)
    requires Valid(t) && |garbage| == size
    requires ptr.Some? ==> ptr.value in Addrs(t.live)
    requires obtained.Some? ==> obtained.value != 0 && obtained.value !in Addrs(t.live)
    ensures ptr.None? ==> r == Ok(Malloc(t, size, obtained, garbage))
    ensures ptr.Some? ==>
      (r == Err(CopyToNull) <==> obtained.None?) &&
      (r == Err(HeapOverflow) <==> obtained.Some? && t.live[Find(t.live, ptr.value).value].size > size)
  {
    match ptr
    case None => Ok(Malloc(t, size, obtained, garbage))
    case Some(p) =>
      var prev := t.live[Find(t.live, p).value];
      match obtained
      case None => Err(CopyToNull)
      case Some(a) =>
        if prev.size > size then Err(HeapOverflow)
        else Ok((Move(t, p, size, a, garbage, prev.data), obtained))
  }

  /**
    * `trackrealloc` copying only what fits: min(old size, size) bytes of the old block
    * start the new one, the old block is freed, and the totals move by the difference.
    */
  function Realloc(t: Tracker, ptr: Option<nat>, size: nat, obtained: Option<nat>, garbage: seq<byte>)
    : (r: Result<(Tracker, Option<nat>), ReallocError>)
    requires Valid(t) && |garbage| == size
    requires ptr.Some? ==> ptr.value in Addrs(t.live)
    requires obtained.Some? ==> obtained.value != 0 && obtained.value !in Addrs(t.live)
    ensures ptr.None? ==> r == Ok(Malloc(t, size, obtained, garbage))
    ensures ptr.Some? ==> (r == Err(CopyToNull) <==> obtained.None?)
    ensures ptr.Some? && obtained.Some? ==>
      var prev := t.live[Find(t.live, ptr.value).value];
      var keep := if prev.size < size then prev.size else size;
      r.Ok? && Valid(r.value.0) && r.value.1 == obtained && |r.value.0.live| == |t.live| && |r.value.0.live| > 0 &&
      r.value.0.live[0] == Block(obtained.value, t.blockIndex, size, prev.data[..keep] + garbage[keep..]) &&
      r.value.0.live[1..] == Unlink(t.live, ptr.value) &&
      r.value.0.total == t.total + size - prev.size &&
      ptr.value in r.value.0.freed && ptr.value !in Addrs(r.value.0.live) &&
      r.value.0.freed == t.freed - {obtained.value} + {ptr.value} &&
      r.value.0.totalUsed == t.totalUsed + size && r.value.0.mallocCalls == t.mallocCalls + 1 &&
      r.value.0.freeCalls == t.freeCalls + 1 && r.value.0.blockIndex == t.blockIndex + 1
  {
    match ptr
    case None => Ok(Malloc(t, size, obtained, garbage))
    case Some(p) =>
      var prev := t.live[Find(t.live, p).value];
      var keep := if prev.size < size then prev.size else size;
      match obtained
      case None => Err(CopyToNull)
      case Some(a) => Ok((Move(t, p, size, a, garbage, prev.data[..keep]), obtained))
  }

  /** Growing or keeping the size, the two versions agree. */
  lemma ReallocAgreesWhenGrowing(t: Tracker, p: nat, size: nat, a: nat, garbage: seq<byte>)
    requires Valid(t) && |garbage| == size && p in Addrs(t.live) && a != 0 && a !in Addrs(t.live)
    requires t.live[Find(t.live, p).value].size <= size
    ensures ReallocAsWritten(t, Some(p), size, Some(a), garbage) == Realloc(t, Some(p), size, Some(a), garbage)
  {
    var prev := t.live[Find(t.live, p).value];
    assert prev.data[..prev.size] == prev.data;
    GrowingMoves(t, p, size, a, garbage);
    assert Move(t, p, size, a, garbage, prev.data[..prev.size]) == Move(t, p, size, a, garbage, prev.data);
  }

  lemma GrowingMoves(t: Tracker, p: nat, size: nat, a: nat, garbage: seq<byte>)
    requires Valid(t) && |garbage| == size && p in Addrs(t.live) && a != 0 && a !in Addrs(t.live)
    requires t.live[Find(t.live, p).value].size <= size
    ensures var prev := t.live[Find(t.live, p).value];
      Realloc(t, Some(p), size, Some(a), garbage) == Ok((Move(t, p, size, a, garbage, prev.data[..prev.size]), Some(a))) &&
      ReallocAsWritten(t, Some(p), size, Some(a), garbage) == Ok((Move(t, p, size, a, garbage, prev.data), Some(a)))
  {
    var prev := t.live[Find(t.live, p).value];
    var keep := if prev.size < size then prev.size else size;
    assert keep == prev.size;
  }

  /** Shrinking an 8-byte block to 4 bytes: the written version copies 8 bytes into 4. */
  lemma ShrinkOverflows()
    ensures var block := Block(1, 0, 8, [1, 2, 3, 4, 5, 6, 7, 8]);
      var t := Tracker([block], {}, 8, 8, 1, 0, 1);
      Valid(t) && 1 in Addrs(t.live) &&
      ReallocAsWritten(t, Some(1), 4, Some(2), [0, 0, 0, 0]) == Err(HeapOverflow) &&
      Realloc(t, Some(1), 4, Some(2), [0, 0, 0, 0]).Ok? &&
      Realloc(t, Some(1), 4, Some(2), [0, 0, 0, 0]).value.0.live == [Block(2, 1, 4, [1, 2, 3, 4])]
  {
    var block := Block(1, 0, 8, [1, 2, 3, 4, 5, 6, 7, 8]);
    var t := Tracker([block], {}, 8, 8, 1, 0, 1);
    assert Addrs(t.live) == [1];
    assert Find(t.live, 1) == Some(0);
    assert Unlink(t.live, 1) == [];
    var r := Realloc(t, Some(1), 4, Some(2), [0, 0, 0, 0]).value.0;
    assert r.live[0] == Block(2, 1, 4, [1, 2, 3, 4]);
    assert r.live == [r.live[0]] + r.live[1..];
  }
}
