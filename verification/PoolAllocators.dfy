/**
  The pool allocator: a list of chunks of which the head serves requests by moving a mark, growth in place for the
  last block, and handles that share one pool by a reference count. Addresses are numbers; `size_t` does not wrap.
 */
module PoolAllocators {
  import opened Bytes

  const HEADER: nat := 24
  const SHARED: nat := 32

  function Align(n: nat): (r: nat)
    ensures n <= r < n + 8 && r % 8 == 0
  {
    (n + 7) / 8 * 8
  }

  /** Both in whole units of eight: three words of a chunk header; three words and a flag of the shared data. */
  lemma HeaderSizes()
    ensures HEADER == Align(8 + 8 + 8) && SHARED == Align(8 + 8 + 8 + 1)
  {
  }

  /** [p, p + m) and [q, q + n) have no address in common. */
  predicate Apart(p: nat, m: nat, q: nat, n: nat) {
    p + m <= q || q + n <= p
  }

  class ChunkHeader {
    const at: nat
    const capacity: nat
    const next: ChunkHeader?
    var size: nat

    constructor (at: nat, capacity: nat, next: ChunkHeader?)
      ensures this.at == at && this.capacity == capacity && this.next == next && size == 0
    {
      this.at, this.capacity, this.next := at, capacity, next;
      size := 0;
    }

    /** `GetChunkBuffer`: where the blocks of this chunk start. */
    function Buffer(): nat {
      at + HEADER
    }

    function End(): nat {
      at + HEADER + capacity
    }

    /** Where the next block would start. */
    function Mark(): nat
      reads this
    {
      Buffer() + size
    }
  }

  // ---------------------------------------------------------------- chunks and blocks

  function Link(cs: seq<ChunkHeader>, k: nat): ChunkHeader? {
    if k < |cs| then cs[k] else null
  }

  /** The list from the head on. */
  predicate Chained(cs: seq<ChunkHeader>) {
    forall k | 0 <= k < |cs| :: cs[k].next == Link(cs, k + 1)
  }

  /** Headers and buffers of different chunks do not meet. */
  predicate AllApart(cs: seq<ChunkHeader>) {
    forall i, j | 0 <= i < j < |cs| ::
      cs[i] != cs[j] && Apart(cs[i].at, HEADER + cs[i].capacity, cs[j].at, HEADER + cs[j].capacity)
  }

  predicate Sized(cs: seq<ChunkHeader>)
    reads cs
  {
    forall k | 0 <= k < |cs| :: cs[k].at % 8 == 0 && cs[k].size % 8 == 0 && cs[k].size <= cs[k].capacity
  }

  /** A block lies below the mark of this chunk. */
  predicate Holds(c: ChunkHeader, p: nat, len: nat)
    reads c
  {
    c.Buffer() <= p && p + len <= c.Mark()
  }

  /** Some chunk holds the block. */
  predicate Housed(cs: seq<ChunkHeader>, p: nat, len: nat)
    reads cs
  {
    exists k | 0 <= k < |cs| :: Holds(cs[k], p, len)
  }

  predicate AllHoused(cs: seq<ChunkHeader>, blocks: map<nat, nat>)
    reads cs
  {
    forall p | p in blocks :: Housed(cs, p, blocks[p])
  }

  /** Live blocks are aligned and pairwise disjoint. */
  predicate Tidy(blocks: map<nat, nat>) {
    && (forall p | p in blocks :: p % 8 == 0 && blocks[p] > 0 && blocks[p] % 8 == 0)
    && (forall p, q | p in blocks && q in blocks && p < q :: p + blocks[p] <= q)
  }

  lemma ChunkAdded(c: ChunkHeader, cs: seq<ChunkHeader>)
    requires Chained(cs) && AllApart(cs) && c.next == Link(cs, 0) && c !in cs
    requires forall k | 0 <= k < |cs| :: Apart(c.at, HEADER + c.capacity, cs[k].at, HEADER + cs[k].capacity)
    ensures Chained([c] + cs) && AllApart([c] + cs)
  {
    hide Chained, AllApart;
    ChainedBehind(c, cs);
    ApartFrom(c, cs);
  }

  lemma ChainedBehind(c: ChunkHeader, cs: seq<ChunkHeader>)
    requires Chained(cs) && c.next == Link(cs, 0)
    ensures Chained([c] + cs)
  {
    var ds := [c] + cs;
    forall k | 0 <= k < |ds| ensures ds[k].next == Link(ds, k + 1) {
      if k > 0 {
        assert ds[k] == cs[k - 1];
      }
    }
  }

  lemma ApartFrom(c: ChunkHeader, cs: seq<ChunkHeader>)
    requires AllApart(cs) && c !in cs
    requires forall k | 0 <= k < |cs| :: Apart(c.at, HEADER + c.capacity, cs[k].at, HEADER + cs[k].capacity)
    ensures AllApart([c] + cs)
  {
    hide Apart;
    var ds := [c] + cs;
    forall i, j | 0 <= i < j < |ds|
      ensures ds[i] != ds[j] && Apart(ds[i].at, HEADER + ds[i].capacity, ds[j].at, HEADER + ds[j].capacity)
    {
      assert ds[j] == cs[j - 1];
      if i > 0 {
        assert ds[i] == cs[i - 1];
      }
    }
  }

  lemma OneChunk(c: ChunkHeader)
    requires c.next == null
    ensures Chained([c]) && AllApart([c])
  {
  }

  lemma ChunkDropped(cs: seq<ChunkHeader>)
    requires Chained(cs) && AllApart(cs) && Sized(cs) && cs != []
    ensures Chained(cs[1..]) && AllApart(cs[1..]) && Sized(cs[1..]) && cs[0].next == Link(cs[1..], 0)
  {
    var ds := cs[1..];
    forall k | 0 <= k < |ds| ensures ds[k].next == Link(ds, k + 1) {
      assert ds[k] == cs[k + 1];
    }
  }

  lemma HousedLater(c: ChunkHeader, cs: seq<ChunkHeader>, blocks: map<nat, nat>)
    requires AllHoused(cs, blocks)
    ensures AllHoused([c] + cs, blocks)
  {
    forall p | p in blocks ensures Housed([c] + cs, p, blocks[p]) {
      var k :| 0 <= k < |cs| && Holds(cs[k], p, blocks[p]);
      assert Holds(([c] + cs)[k + 1], p, blocks[p]);
    }
  }

  lemma HoldsMore(c: ChunkHeader, size: nat, p: nat, len: nat)
    requires c.Buffer() <= p && p + len <= c.Buffer() + size && size <= c.size
    ensures Holds(c, p, len)
  {
  }

  /** Where a housed block lies with respect to the head. */
  lemma InHeadOrApart(cs: seq<ChunkHeader>, p: nat, len: nat)
    requires cs != [] && AllApart(cs) && Sized(cs) && Housed(cs, p, len)
    ensures Holds(cs[0], p, len) || (p + len <= cs[0].at || cs[0].End() + HEADER <= p)
  {
    var k :| 0 <= k < |cs| && Holds(cs[k], p, len);
    assert k > 0 ==> Apart(cs[0].at, HEADER + cs[0].capacity, cs[k].at, HEADER + cs[k].capacity);
  }

  lemma NothingHoused(cs: seq<ChunkHeader>)
    ensures AllHoused(cs, map[]) && Tidy(map[])
  {
  }

  lemma SizedAt(cs: seq<ChunkHeader>)
    requires Sized(cs)
    ensures forall k | 0 <= k < |cs| :: cs[k].at % 8 == 0
  {
  }

  lemma SizedOne(cs: seq<ChunkHeader>)
    requires |cs| == 1 && cs[0].at % 8 == 0 && cs[0].size == 0
    ensures Sized(cs)
  {
  }

  /** The addresses of the chunks. */
  function AddressesOf(cs: seq<ChunkHeader>): (addresses: seq<nat>)
    ensures |addresses| == |cs| && forall k | 0 <= k < |cs| :: addresses[k] == cs[k].at
  {
    if cs == [] then [] else AddressesOf(cs[..|cs| - 1]) + [cs[|cs| - 1].at]
  }

  // ---------------------------------------------------------------- the pool

  class SharedData {
    const at: nat
    const ownBuffer: bool
    const chunkCapacity: nat
    var chunkHead: ChunkHeader
    var refcount: nat
    /** The bytes of all memory. */
    var memory: nat -> byte
    /** The chunks from the head on; the last one is the first that was made. */
    ghost var chunks: seq<ChunkHeader>
    /** The live blocks, with their aligned lengths. */
    ghost var blocks: map<nat, nat>
    /** What was given back to the base allocator. */
    ghost var freed: seq<nat>
    /** The handles on this pool, and whether the last of them is gone. */
    ghost var owners: set<MemoryPoolAllocator>
    ghost var released: bool

    /** The reference count is the number of handles that point here. */
    ghost predicate Counted()
      reads this, owners
    {
      !released && refcount == |owners| && forall h | h in owners :: h.shared == this
    }

    /** The same while x is about to point here. */
    ghost predicate CountedFor(x: MemoryPoolAllocator)
      reads this, owners
    {
      !released && refcount == |owners| && x in owners && forall h | h in owners && h != x :: h.shared == this
    }

    ghost predicate Listed()
      reads this
    {
      chunks != [] && chunkHead == chunks[0] && Chained(chunks) && AllApart(chunks)
    }

    ghost predicate Valid()
      reads this, chunks
    {
      Listed() && Sized(chunks) && Tidy(blocks) && AllHoused(chunks, blocks)
    }

    /** What is assumed of the base allocator: an aligned region that meets no chunk of the pool. */
    ghost predicate Fresh(p: nat, size: nat)
      reads this
    {
      p % 8 == 0 && forall k | 0 <= k < |chunks| :: Apart(p, size, chunks[k].at, HEADER + chunks[k].capacity)
    }

    /** A pool whose first chunk lies behind the shared data at `at`. */
    constructor (at: nat, capacity: nat, chunkCapacity: nat, ownBuffer: bool)
      requires at % 8 == 0
      ensures Valid() && blocks == map[] && refcount == 1 && |chunks| == 1 && freed == [] && fresh(chunks[0])
      ensures owners == {} && !released
      ensures this.at == at && this.ownBuffer == ownBuffer && this.chunkCapacity == chunkCapacity
      ensures chunkHead.capacity == capacity && chunkHead.at == at + SHARED && chunkHead.size == 0
    {
      this.at, this.ownBuffer, this.chunkCapacity := at, ownBuffer, chunkCapacity;
      hide Chained, AllApart;
      var first := new ChunkHeader(at + SHARED, capacity, null);
      OneChunk(first);
      chunkHead, refcount, memory := first, 1, _ => 0;
      chunks, blocks, freed, owners, released := [first], map[], [], {}, false;
    }

    /** The capacity asked of the base allocator for a block of this aligned size. */
    function NewCapacity(size: nat): nat {
      if chunkCapacity > size then chunkCapacity else size
    }

    predicate HasRoom(size: nat)
      reads this, chunkHead
    {
      chunkHead.size + size <= chunkHead.capacity
    }

    /** `offer` is the base allocator's answer to the request for a new chunk. */
    method AddChunk(capacity: nat, offer: Option<nat>) returns (ok: bool)
      requires Valid() && (offer.Some? ==> Fresh(offer.value, HEADER + capacity))
      modifies this`chunkHead, this`chunks
      ensures Valid() && ok == offer.Some?
      ensures ok ==> |chunks| == |old(chunks)| + 1 && chunks[1..] == old(chunks) && fresh(chunks[0])
      ensures ok ==> chunkHead.at == offer.value && chunkHead.capacity == capacity && chunkHead.size == 0
      ensures !ok ==> chunks == old(chunks) && chunkHead == old(chunkHead)
    {
      hide Chained, AllApart, AllHoused, Tidy;
      ok := offer.Some?;
      if ok {
        var chunk := new ChunkHeader(offer.value, capacity, chunkHead);
        ChunkAdded(chunk, chunks);
        HousedLater(chunk, chunks, blocks);
        ghost var before := chunks;
        chunkHead := chunk;
        chunks := [chunk] + chunks;
        assert chunks[1..] == before;
        assert forall k | 1 <= k < |chunks| :: chunks[k] == before[k - 1];
      }
    }

    /** Move the mark of the head up; every block stays housed. */
    method Grow(n: nat)
      requires Listed() && Sized(chunks) && AllHoused(chunks, blocks) && HasRoom(n) && n % 8 == 0
      modifies chunkHead`size
      ensures Listed() && Sized(chunks) && AllHoused(chunks, blocks) && chunkHead.size == old(chunkHead.size) + n
    {
      hide Chained, AllApart;
      ghost var sizes := seq(|chunks|, k requires 0 <= k < |chunks| reads this, chunks => chunks[k].size);
      chunkHead.size := chunkHead.size + n;
      forall p | p in blocks ensures Housed(chunks, p, blocks[p]) {
        assert old(Housed(chunks, p, blocks[p]));
        ghost var k :| 0 <= k < |chunks| && old(Holds(chunks[k], p, blocks[p]));
        HoldsMore(chunks[k], sizes[k], p, blocks[p]);
      }
    }

    /** A block above the mark of the head keeps the blocks disjoint. */
    lemma TidyAbove(n: nat)
      requires Valid() && HasRoom(n) && n > 0 && n % 8 == 0
      ensures chunkHead.Mark() !in blocks && Tidy(blocks[chunkHead.Mark() := n])
    {
      hide Chained, AllApart;
      var p := chunkHead.Mark();
      forall q | q in blocks ensures q != p && Apart(q, blocks[q], p, n) {
        InHeadOrApart(chunks, q, blocks[q]);
      }
    }

    /** The list of chunks and all marks are as they were. */
    twostate predicate Untouched()
      reads this, chunks
    {
      chunkHead == old(chunkHead) && chunks == old(chunks) && forall c | c in chunks :: c.size == old(c.size)
    }

    /**
      The block at p was taken from the mark of the head, if there was room, and else from the start of a new chunk where
      the base allocator offered it, of the capacity asked for. No other mark has moved.
     */
    twostate predicate ServedFrom(new p: nat, n: nat, offer: Option<nat>)
      reads this, chunks, chunkHead
    {
      && (if old(HasRoom(n)) then
            && chunkHead == old(chunkHead) && chunks == old(chunks)
            && p == old(chunkHead.Mark()) && chunkHead.size == old(chunkHead.size) + n
          else
            && chunks == [chunkHead] + old(chunks)
            && offer == Some(chunkHead.at) && chunkHead.capacity == NewCapacity(n)
            && p == chunkHead.Buffer() && chunkHead.size == n)
      && forall c | c in chunks && c in old(chunks) && c != chunkHead :: c.size == old(c.size)
    }

    /** Only the mark of the head has moved, by n. */
    twostate predicate HeadGrew(n: nat)
      reads this, chunks, chunkHead
    {
      && chunkHead == old(chunkHead) && chunks == old(chunks) && chunkHead.size == old(chunkHead.size) + n
      && forall c | c in chunks && c != chunkHead :: c.size == old(c.size)
    }

    method Malloc(size: nat, offer: Option<nat>) returns (p: Option<nat>)
      requires Valid() && refcount > 0
      requires offer.Some? ==> Fresh(offer.value, HEADER + NewCapacity(Align(size)))
      modifies this`chunkHead, this`chunks, this`blocks, chunks
      ensures Valid() && (forall k | 0 <= k < |chunks| :: chunks[k] in old(chunks) || fresh(chunks[k]))
      ensures p.None? <==> size == 0 || (offer.None? && !old(HasRoom(Align(size))))
      ensures p.None? ==> blocks == old(blocks)
      ensures p.Some? ==> p.value !in old(blocks) && blocks == old(blocks)[p.value := Align(size)]
      ensures p.None? ==> Untouched()
      ensures p.Some? ==> ServedFrom(p.value, Align(size), offer)
    {
      hide Chained, AllApart, Tidy, AllHoused, Sized;
      if size == 0 { return None; }
      var n := Align(size);
      if !HasRoom(n) {
        var ok := AddChunk(NewCapacity(n), offer);
        if !ok { return None; }
        assert forall k | 1 <= k < |chunks| :: chunks[k] == chunks[1..][k - 1];
      }
      p := Take(n);
    }

    /** The next block of the head. */
    method Take(n: nat) returns (p: Option<nat>)
      requires Valid() && HasRoom(n) && n > 0 && n % 8 == 0
      modifies this`blocks, chunkHead`size
      ensures Valid() && p.Some? && p.value !in old(blocks) && blocks == old(blocks)[p.value := n]
      ensures p.value == old(chunkHead.Mark()) && chunkHead.size == old(chunkHead.size) + n
    {
      hide Chained, AllApart, Tidy;
      p := Some(chunkHead.Mark());
      TidyAbove(n);
      Grow(n);
      blocks := blocks[p.value := n];
      assert Holds(chunks[0], p.value, n);
    }

    // -------------------------------------------------------------- growth

    /** The pointer test for growth in place. */
    predicate IsLast(ptr: nat, originalSize: nat)
      reads this, chunkHead
    {
      ptr == chunkHead.Mark() - originalSize
    }

    /** The request is met without moving the block: it fits already, or the last block of the head can grow. */
    predicate InPlace(ptr: nat, originalSize: nat, newSize: nat)
      reads this, chunkHead
    {
      var o, n := Align(originalSize), Align(newSize);
      o >= n || (IsLast(ptr, o) && HasRoom(n - o))
    }

    /** The test never matches a block of an older chunk: a header lies between any other chunk and the mark. */
    lemma LastIsInHead(ptr: nat, originalSize: nat)
      requires Valid() && ptr in blocks && originalSize <= blocks[ptr]
      ensures IsLast(ptr, originalSize) ==> Holds(chunkHead, ptr, blocks[ptr]) && originalSize == blocks[ptr]
    {
      InHeadOrApart(chunks, ptr, blocks[ptr]);
    }

    /** A new chunk is as large as usual, or as the block needs; there is room for a block that ends inside the head. */
    lemma RoomIff(size: nat)
      ensures NewCapacity(size) >= size && NewCapacity(size) >= chunkCapacity && NewCapacity(size) in {size, chunkCapacity}
      ensures HasRoom(size) <==> chunkHead.Mark() + size <= chunkHead.End()
    {
    }

    /** A request is met in place exactly when the block is long enough, or ends at the mark and fits with the new length. */
    lemma InPlaceIff(ptr: nat, originalSize: nat, newSize: nat)
      requires Valid() && ptr in blocks && Align(originalSize) <= blocks[ptr]
      ensures InPlace(ptr, originalSize, newSize) <==>
                || Align(newSize) <= Align(originalSize)
                || (&& Holds(chunkHead, ptr, blocks[ptr]) && ptr + Align(originalSize) == chunkHead.Mark()
                    && ptr + Align(newSize) <= chunkHead.End())
    {
      hide Chained, AllApart, Sized, AllHoused, Tidy;
      LastIsInHead(ptr, Align(originalSize));
      if Align(newSize) > Align(originalSize) {
        RoomIff(Align(newSize) - Align(originalSize));
      }
    }

    /** The last block of the head may grow up to the end of the chunk. */
    lemma TidyGrown(ptr: nat, n: nat)
      requires Valid() && ptr in blocks && ptr + blocks[ptr] == chunkHead.Mark() && Holds(chunkHead, ptr, blocks[ptr])
      requires blocks[ptr] < n && n % 8 == 0 && ptr + n <= chunkHead.End()
      ensures Tidy(blocks[ptr := n])
    {
      forall q | q in blocks && q > ptr ensures ptr + n <= q {
        InHeadOrApart(chunks, q, blocks[q]);
      }
    }

    /** The block at p is new, as `ServedFrom` says; or there is none, because the base allocator had nothing to offer. */
    twostate predicate Placed(new p: Option<nat>, n: nat, offer: Option<nat>)
      reads this, chunks, chunkHead
    {
      if p.None? then offer.None? && !old(HasRoom(n)) && Untouched()
      else p.value !in old(blocks) && ServedFrom(p.value, n, offer)
    }

    /**
      The live block at ptr was resized. In place, nothing moved but perhaps the mark of the head. Else it is gone if and
      only if there is a new block, and that begins with the bytes it had. No other live block has changed.
     */
    twostate predicate Resized(ptr: nat, originalSize: nat, newSize: nat, offer: Option<nat>, new p: Option<nat>)
      reads this, chunks, chunkHead
    {
      var o, n := Align(originalSize), Align(newSize);
      && (old(InPlace(ptr, originalSize, newSize)) ==>
            && p == Some(ptr) && memory == old(memory)
            && if n <= o then blocks == old(blocks) && Untouched() else blocks == old(blocks)[ptr := n] && HeadGrew(n - o))
      && (!old(InPlace(ptr, originalSize, newSize)) ==>
            && o < n && Placed(p, n, offer)
            && (p.None? ==> blocks == old(blocks) && memory == old(memory))
            && (p.Some? ==>
                  && blocks == old(blocks)[p.value := n] - {ptr}
                  && forall a | p.value <= a < p.value + o :: memory(a) == old(memory)(ptr + (a - p.value))))
      && forall q, a | q in blocks && (p.Some? ==> q != p.value) && q <= a < q + blocks[q] :: memory(a) == old(memory)(a)
    }

    /** Resize a live block; its owner may name any size up to the one it has. Without a block it is `Malloc`. */
    method Realloc(ptr: Option<nat>, originalSize: nat, newSize: nat, offer: Option<nat>) returns (p: Option<nat>)
      requires Valid() && refcount > 0
      requires ptr.Some? ==> ptr.value in blocks && Align(originalSize) <= blocks[ptr.value]
      requires offer.Some? ==> Fresh(offer.value, HEADER + NewCapacity(Align(newSize)))
      modifies this`chunkHead, this`chunks, this`blocks, this`memory, chunks
      ensures Valid() && (forall k | 0 <= k < |chunks| :: chunks[k] in old(chunks) || fresh(chunks[k]))
      ensures newSize == 0 ==> p.None? && blocks == old(blocks) && memory == old(memory) && Untouched()
      ensures newSize > 0 && ptr.None? ==>
                && Placed(p, Align(newSize), offer) && memory == old(memory)
                && blocks == if p.Some? then old(blocks)[p.value := Align(newSize)] else old(blocks)
      ensures newSize > 0 && ptr.Some? ==> Resized(ptr.value, originalSize, newSize, offer, p)
    {
      hide Chained, AllApart, AllHoused, Tidy, Sized, Resized;
      if ptr.None? {
        p := Malloc(newSize, offer);
      } else if newSize == 0 {
        p := None;
      } else {
        p := Resize(ptr.value, originalSize, newSize, offer);
      }
    }

    /** Resize a block to a length that is not zero. */
    method Resize(ptr: nat, originalSize: nat, newSize: nat, offer: Option<nat>) returns (p: Option<nat>)
      requires Valid() && refcount > 0 && newSize > 0 && ptr in blocks && Align(originalSize) <= blocks[ptr]
      requires offer.Some? ==> Fresh(offer.value, HEADER + NewCapacity(Align(newSize)))
      modifies this`chunkHead, this`chunks, this`blocks, this`memory, chunks
      ensures Valid() && (forall k | 0 <= k < |chunks| :: chunks[k] in old(chunks) || fresh(chunks[k]))
      ensures Resized(ptr, originalSize, newSize, offer, p)
    {
      hide Chained, AllApart, AllHoused, Tidy, Sized;
      var o, n := Align(originalSize), Align(newSize);
      if o >= n { return Some(ptr); }
      if IsLast(ptr, o) {
        var increment := n - o;
        if HasRoom(increment) {
          GrowLast(ptr, o, n);
          return Some(ptr);
        }
      }
      p := Relocate(ptr, o, newSize, offer);
    }

    /** A new block, and the bytes of the old one in it. */
    method Relocate(ptr: nat, o: nat, newSize: nat, offer: Option<nat>) returns (p: Option<nat>)
      requires Valid() && refcount > 0 && ptr in blocks && o <= blocks[ptr] && o < Align(newSize)
      requires offer.Some? ==> Fresh(offer.value, HEADER + NewCapacity(Align(newSize)))
      modifies this`chunkHead, this`chunks, this`blocks, this`memory, chunks
      ensures Valid() && (forall k | 0 <= k < |chunks| :: chunks[k] in old(chunks) || fresh(chunks[k]))
      ensures p.None? <==> offer.None? && !old(HasRoom(Align(newSize)))
      ensures p.None? ==> blocks == old(blocks) && memory == old(memory) && Untouched()
      ensures p.Some? ==> ServedFrom(p.value, Align(newSize), offer)
      ensures p.Some? ==> p.value !in old(blocks) && blocks == old(blocks)[p.value := Align(newSize)] - {ptr}
      ensures p.Some? ==> forall a | p.value <= a < p.value + o :: memory(a) == old(memory)(ptr + (a - p.value))
      ensures forall q, a | q in blocks && (p.Some? ==> q != p.value) && q <= a < q + blocks[q] ::
                memory(a) == old(memory)(a)
    {
      hide Chained, AllApart, AllHoused, Tidy, Sized;
      p := Malloc(newSize, offer);
      if p.Some? {
        MoveBlock(ptr, p.value, o);
      }
    }

    /** `memcpy` of bytes that do not overlap. */
    method CopyBytes(from: nat, to: nat, size: nat)
      modifies this`memory
      ensures forall a | to <= a < to + size :: memory(a) == old(memory)(from + (a - to))
      ensures forall a: nat | a < to || to + size <= a :: memory(a) == old(memory)(a)
    {
      var bytes := memory;
      memory := (a: nat) => if to <= a < to + size then bytes(from + (a - to)) else bytes(a);
    }

    /** Copy a block to its new place; its owner has moved, so the old block is no longer live. */
    method MoveBlock(from: nat, to: nat, size: nat)
      requires Valid() && from in blocks && to in blocks && from != to && size <= blocks[to]
      modifies this`memory, this`blocks
      ensures Valid() && blocks == old(blocks) - {from}
      ensures forall a | to <= a < to + size :: memory(a) == old(memory)(from + (a - to))
      ensures forall q, a | q in blocks && q != to && q <= a < q + blocks[q] :: memory(a) == old(memory)(a)
    {
      hide Chained, AllApart, AllHoused, Sized;
      CopyBytes(from, to, size);
      Forget(from);
      forall q, a | q in blocks && q != to && q <= a < q + blocks[q] ensures memory(a) == old(memory)(a) {
        assert Apart(q, blocks[q], to, blocks[to]);
      }
    }

    method GrowLast(ptr: nat, o: nat, n: nat)
      requires Valid() && ptr in blocks && o <= blocks[ptr] && IsLast(ptr, o)
      requires o < n && n % 8 == 0 && o % 8 == 0 && HasRoom(n - o)
      modifies this`blocks, chunkHead`size
      ensures Valid() && blocks == old(blocks)[ptr := n] && HeadGrew(n - o)
    {
      hide Chained, AllApart, Tidy;
      LastIsInHead(ptr, o);
      TidyGrown(ptr, n);
      Grow(n - o);
      blocks := blocks[ptr := n];
      assert Holds(chunks[0], ptr, n);
    }

    /** A block its owner has moved out of is no longer live. */
    ghost method Forget(p: nat)
      requires Valid()
      modifies this`blocks
      ensures Valid() && blocks == old(blocks) - {p}
    {
      blocks := blocks - {p};
    }

    // -------------------------------------------------------------- release

    /** Give all chunks but the first back, each once, and empty the first. */
    method Clear()
      requires Valid() && refcount > 0
      modifies this`chunkHead, this`chunks, this`blocks, this`freed, chunks
      ensures Valid() && blocks == map[] && |chunks| == 1 && chunks[0] == old(chunks)[|old(chunks)| - 1]
      ensures freed == old(freed) + old(AddressesOf(chunks[..|chunks| - 1])) && chunkHead.size == 0
    {
      hide Chained, AllApart, Sized, AllHoused;
      ghost var cs, freed0 := chunks, freed;
      NothingHoused(cs);
      ghost var i := 0;
      blocks := map[];
      while true
        invariant Listed() && Sized(chunks) && blocks == map[]
        invariant 0 <= i < |cs| && chunks == cs[i..] && freed == freed0 + AddressesOf(cs[..i])
        decreases |cs| - i
      {
        ChunkDropped(chunks);
        var c := chunkHead;
        if c.next == null { break; }
        assert cs[..i + 1][..i] == cs[..i];
        chunkHead := c.next;
        chunks := chunks[1..];
        freed := freed + [c.at];
        i := i + 1;
      }
      assert cs[..i] == cs[..|cs| - 1];
      SizedAt(chunks);
      chunkHead.size := 0;
      SizedOne(chunks);
      NothingHoused(chunks);
    }
  }

  // ---------------------------------------------------------------- handles

  /** A handle on a pool; without one after a move. */
  class MemoryPoolAllocator {
    var shared: SharedData?

    /** A pool of its own, on a block of the base allocator. */
    constructor (at: nat, chunkCapacity: nat)
      requires at % 8 == 0
      ensures shared != null && fresh(shared) && shared.Valid() && shared.Counted() && shared.owners == {this}
      ensures shared.ownBuffer && shared.chunkHead.capacity == 0 && shared.chunkCapacity == chunkCapacity
    {
      shared := new SharedData(at, 0, chunkCapacity, true);
      new;
      shared.owners := {this};
    }

    /** The user's buffer, aligned, becomes the first chunk behind the shared data. */
    constructor OnBuffer(buffer: nat, size: nat, chunkCapacity: nat)
      requires size >= Align(buffer) - buffer + SHARED + HEADER
      ensures shared != null && fresh(shared) && shared.Valid() && shared.Counted() && shared.owners == {this}
      ensures !shared.ownBuffer && shared.chunkCapacity == chunkCapacity
      ensures buffer <= shared.at < buffer + 8 && shared.at % 8 == 0
      ensures shared.chunkHead.at == shared.at + SHARED && shared.chunkHead.End() == buffer + size
    {
      var skipped := Align(buffer) - buffer;
      shared := new SharedData(Align(buffer), size - skipped - SHARED - HEADER, chunkCapacity, false);
      new;
      shared.owners := {this};
    }

    constructor Copy(rhs: MemoryPoolAllocator)
      requires rhs.shared != null && rhs.shared.Counted()
      modifies rhs.shared`refcount, rhs.shared`owners
      ensures shared == rhs.shared && shared.Counted() && shared.owners == old(rhs.shared.owners) + {this}
    {
      shared := rhs.shared;
      new;
      shared.refcount := shared.refcount + 1;
      shared.owners := shared.owners + {this};
    }

    constructor Move(rhs: MemoryPoolAllocator)
      requires rhs.shared != null && rhs.shared.Counted() && rhs in rhs.shared.owners
      modifies rhs, rhs.shared`owners
      ensures shared == old(rhs.shared) && rhs.shared == null && shared.Counted()
      ensures shared.owners == old(rhs.shared.owners) - {rhs} + {this}
    {
      shared := rhs.shared;
      new;
      rhs.shared := null;
      shared.owners := shared.owners - {rhs} + {this};
    }

    /** The body of the destructor: the last handle gives every chunk back, and the shared data if the pool owns it. */
    method Release()
      requires shared != null && shared.Valid() && shared.refcount > 0
      modifies shared, shared.chunks
      ensures shared.Valid() && shared.owners == old(shared.owners)
      ensures old(shared.refcount) > 1 ==>
                && shared.refcount == old(shared.refcount) - 1 && shared.released == old(shared.released)
                && shared.blocks == old(shared.blocks) && shared.freed == old(shared.freed)
                && shared.chunks == old(shared.chunks)
      ensures old(shared.refcount) == 1 ==>
                && shared.released && shared.blocks == map[]
                && shared.freed == old(shared.freed) + old(AddressesOf(shared.chunks[..|shared.chunks| - 1]))
                                   + if shared.ownBuffer then [shared.at] else []
    {
      hide Chained, AllApart, Sized, AllHoused, Tidy, AddressesOf;
      if shared.refcount > 1 {
        shared.refcount := shared.refcount - 1;
        return;
      }
      shared.Clear();
      if shared.ownBuffer {
        shared.freed := shared.freed + [shared.at];
      }
      shared.released := true;
    }

    /** Give up the pool without forgetting it. */
    method Leave()
      requires shared != null && shared.Valid() && shared.Counted() && this in shared.owners
      modifies shared, shared.chunks
      ensures shared.owners == old(shared.owners) - {this} && (shared.owners == {} <==> shared.released)
      ensures !shared.released ==>
                && shared.Valid() && shared.blocks == old(shared.blocks) && shared.freed == old(shared.freed)
                && shared.refcount == |shared.owners| && forall h | h in shared.owners :: h.shared == shared && h != this
      ensures shared.released ==>
                shared.freed == old(shared.freed) + old(AddressesOf(shared.chunks[..|shared.chunks| - 1]))
                                + if shared.ownBuffer then [shared.at] else []
    {
      hide Chained, AllApart, Sized, AllHoused, Tidy, AddressesOf;
      ghost var left := shared.owners - {this};
      assert shared.owners == left + {this};
      Release();
      shared.owners := left;
    }

    /** Destroy this handle. The pool is released by the last handle, and by no other. */
    method Destroy()
      requires shared != null ==> shared.Valid() && shared.Counted() && this in shared.owners
      modifies this, shared, if shared != null then shared.chunks else []
      ensures shared == null
      ensures var pool := old(shared);
              pool != null ==>
                && pool.owners == old(pool.owners) - {this}
                && (pool.owners == {} <==> pool.released) && (!pool.released ==> pool.Valid() && pool.Counted())
                && (!pool.released ==> pool.blocks == old(pool.blocks) && pool.freed == old(pool.freed))
                && (pool.released ==> pool.freed == old(pool.freed) + old(AddressesOf(pool.chunks[..|pool.chunks| - 1]))
                                                    + if pool.ownBuffer then [pool.at] else [])
    {
      hide Chained, AllApart, Sized, AllHoused, Tidy, AddressesOf;
      if shared == null { return; }
      Leave();
      shared := null;
    }

    /** Copy assignment, also from itself, from another handle on the same pool, and to a handle that was moved from. */
    method Assign(rhs: MemoryPoolAllocator)
      requires rhs.shared != null && rhs.shared.Valid() && rhs.shared.Counted() && rhs in rhs.shared.owners
      requires shared != null ==> shared.Valid() && shared.Counted() && this in shared.owners
      requires shared != null && shared != rhs.shared ==> forall c | c in shared.chunks :: c !in rhs.shared.chunks
      modifies this, shared, if shared != null then shared.chunks else []
      modifies rhs.shared`refcount, rhs.shared`owners
      ensures shared == old(rhs.shared) && rhs.shared == shared && shared.Valid() && shared.Counted()
      ensures shared.owners == old(rhs.shared.owners) + {this} && shared.blocks == old(rhs.shared.blocks)
      ensures old(shared) != null && old(shared) != shared ==>
                && old(shared).owners == old(shared.owners) - {this}
                && (old(shared).owners == {} <==> old(shared).released)
    {
      hide Chained, AllApart, Sized, AllHoused, Tidy, AddressesOf;
      var pool := rhs.shared;
      if shared == pool {
        pool.refcount := pool.refcount + 1;
        Release();
        shared := rhs.shared;
        assert pool.owners == old(rhs.shared.owners) + {this};
      } else if shared == null {
        AssignEmpty(pool);
      } else {
        AssignOther(pool);
      }
    }

    method AssignEmpty(pool: SharedData)
      requires shared == null && pool.Valid() && pool.Counted()
      modifies this, pool`refcount, pool`owners
      ensures shared == pool && pool.Valid() && pool.Counted()
      ensures pool.owners == old(pool.owners) + {this} && pool.blocks == old(pool.blocks)
    {
      assert this !in pool.owners;
      pool.refcount := pool.refcount + 1;
      pool.owners := pool.owners + {this};
      shared := pool;
    }

    method AssignOther(pool: SharedData)
      requires shared != null && shared != pool && shared.Valid() && shared.Counted() && this in shared.owners
      requires pool.Valid() && pool.Counted() && forall c | c in shared.chunks :: c !in pool.chunks
      modifies this, shared, shared.chunks, pool`refcount, pool`owners
      ensures shared == pool && pool.Valid() && pool.Counted()
      ensures pool.owners == old(pool.owners) + {this} && pool.blocks == old(pool.blocks)
      ensures old(shared).owners == old(shared.owners) - {this} && (old(shared).owners == {} <==> old(shared).released)
    {
      hide Chained, AllApart, Tidy, AddressesOf, AllHoused, Sized;
      assert this !in pool.owners;
      pool.refcount := pool.refcount + 1;
      pool.owners := pool.owners + {this};
      assert pool.CountedFor(this);
      LeaveFor(pool);
      shared := pool;
    }

    /** Leaving one pool leaves the other alone. */
    method LeaveFor(pool: SharedData)
      requires shared != null && shared != pool && shared.Valid() && shared.Counted() && this in shared.owners
      requires pool.Valid() && pool.CountedFor(this) && forall c | c in shared.chunks :: c !in pool.chunks
      modifies shared, shared.chunks
      ensures pool.Valid() && pool.CountedFor(this)
      ensures shared.owners == old(shared.owners) - {this} && (shared.owners == {} <==> shared.released)
    {
      hide Chained, AllApart, Tidy, AddressesOf;
      ghost var cs := pool.chunks;
      Leave();
      forall k | 0 <= k < |cs| ensures cs[k].size == old(cs[k].size) {
        assert cs[k] in cs && cs[k] !in old(shared.chunks);
      }
      assert Sized(cs) && AllHoused(cs, pool.blocks);
    }
  }
}
