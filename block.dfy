/**
 * The segment state table and the small arithmetic of the block segment
 * manager (src/crimson/os/seastore/segment_manager/block.h): a byte per
 * segment kept in a page-aligned buffer, the device offset of a segment
 * address, and the I/O statistics counters.
 */
module Block {
  import opened Wire

  const TWO64: int := 0x1_0000_0000_0000_0000

  /** The byte `segment_state_t::EMPTY` is stored as. */
  const EMPTY: u8 := 0

  predicate IsPow2(n: nat)
    decreases n
  {
    n == 1 || (n > 1 && n % 2 == 0 && IsPow2(n / 2))
  }

  /**
   * get_raw_size, i.e. `p2roundup(segments, block_size)`: `segments`
   * rounded up to the next multiple of the power-of-two block size.
   */
  function RawSize(segments: nat, blockSize: nat): (r: nat)
    requires IsPow2(blockSize)
    ensures r % blockSize == 0
    ensures segments <= r < segments + blockSize
  {
    Pow2Positive(blockSize);
    var k := (segments + blockSize - 1) / blockSize;
    DivBounds(segments + blockSize - 1, blockSize);
    MulMod(k, blockSize);
    k * blockSize
  }

  lemma Pow2Positive(n: nat)
    requires IsPow2(n)
    ensures n >= 1
  {
  }

  lemma DivBounds(x: nat, d: nat)
    requires d > 0
    ensures x - d < (x / d) * d <= x
  {
  }

  lemma MulMod(k: nat, d: nat)
    requires d > 0
    ensures (k * d) % d == 0
  {
    var x := k * d;
    var q, r := x / d, x % d;
    assert x == q * d + r;
    if q < k {
      MulLe(q + 1, k, d);
    } else if q > k {
      MulLe(k + 1, q, d);
    }
  }

  lemma MulLe(a: nat, b: nat, c: nat)
    requires a <= b
    ensures a * c <= b * c
  {
  }

  /** No smaller multiple of the block size holds `segments` bytes. */
  lemma RawSizeSmallest(segments: nat, blockSize: nat, k: nat)
    requires IsPow2(blockSize)
    requires k * blockSize >= segments
    ensures k * blockSize >= RawSize(segments, blockSize)
  {
    var r := RawSize(segments, blockSize);
    Pow2Positive(blockSize);
    var j := DivExact(r, blockSize);
    QuotLe(k, j, blockSize);
    MulLe(j, k, blockSize);
  }

  /** Multiples of `d` less than `d` apart have quotients in the same order. */
  lemma QuotLe(k: nat, j: nat, d: nat)
    requires d > 0 && j * d < k * d + d
    ensures j <= k
  {
    if j > k {
      MulLe(k + 1, j, d);
    }
  }

  /** A multiple of `d` is its quotient times `d`. */
  lemma DivExact(r: nat, d: nat) returns (j: nat)
    requires d > 0 && r % d == 0
    ensures j == r / d && r == j * d
  {
    j := r / d;
  }

  /** Rounding an already rounded size changes nothing. */
  lemma RawSizeIdempotent(segments: nat, blockSize: nat)
    requires IsPow2(blockSize)
    ensures RawSize(RawSize(segments, blockSize), blockSize) == RawSize(segments, blockSize)
  {
    var r := RawSize(segments, blockSize);
    Pow2Positive(blockSize);
    var j := DivExact(r, blockSize);
    RawSizeSmallest(r, blockSize, j);
  }

  /** SegmentStateTracker: one state byte per segment, updated in place. */
  class SegmentStateTracker {
    var bptr: array<u8>

    ghost function Contents(): seq<u8>
      reads this, bptr
    {
      bptr[..]
    }

    /** The buffer is the raw size, and every byte starts out EMPTY. */
    constructor (segments: nat, blockSize: nat)
      requires IsPow2(blockSize)
      ensures fresh(bptr)
      ensures GetSize() == GetCapacity() == RawSize(segments, blockSize)
      ensures forall i :: 0 <= i < |Contents()| ==> Contents()[i] == EMPTY
    {
      var n := RawSize(segments, blockSize);
      var buf := new u8[n];
      for i := 0 to n
        invariant forall j :: 0 <= j < i ==> buf[j] == EMPTY
      {
        buf[i] := EMPTY;
      }
      bptr := buf;
    }

    function GetSize(): (r: nat)
      reads this
      ensures r == |Contents()|
    {
      bptr.Length
    }

    function GetCapacity(): (r: nat)
      reads this
      ensures r == |Contents()|
    {
      bptr.Length
    }

    /** The state byte of segment `offset`. */
    method Get(offset: nat) returns (state: u8)
      requires offset < GetCapacity()
      ensures state == Contents()[offset]
    {
      state := bptr[offset];
    }

    /** Records `state` for segment `offset`; every other segment keeps its byte. */
    method Set(offset: nat, state: u8)
      requires offset < GetCapacity()
      modifies bptr
      ensures Contents() == old(Contents())[offset := state]
      ensures Contents()[offset] == state
      ensures forall i :: 0 <= i < |Contents()| && i != offset ==> Contents()[i] == old(Contents())[i]
    {
      bptr[offset] := state;
    }
  }

  /** Setting a segment and reading it back gives the state set. */
  method SetThenGet(t: SegmentStateTracker, offset: nat, state: u8, other: nat)
      returns (got: u8, kept: u8)
    requires offset < t.GetCapacity() && other < t.GetCapacity() && other != offset
    modifies t.bptr
    ensures got == state
    ensures kept == old(t.Contents())[other]
  {
    t.Set(offset, state);
    got := t.Get(offset);
    kept := t.Get(other);
  }

  /** paddr_t: a segment of the device and an offset inside it. */
  datatype Paddr = Paddr(deviceSegmentId: nat, offset: nat)

  /** The part of the on-disk superblock get_offset reads. */
  datatype Superblock = Superblock(firstSegmentOffset: nat, segmentSize: nat)

  /**
   * get_offset: the byte offset on the device of a segment address, in
   * 64-bit unsigned arithmetic.
   */
  function GetOffset(sb: Superblock, addr: Paddr): (r: nat)
    ensures r < TWO64
    ensures sb.firstSegmentOffset + addr.deviceSegmentId * sb.segmentSize + addr.offset < TWO64 ==>
      r == sb.firstSegmentOffset + addr.deviceSegmentId * sb.segmentSize + addr.offset
  {
    (sb.firstSegmentOffset + addr.deviceSegmentId * sb.segmentSize + addr.offset) % TWO64
  }

  /**
   * When the address lies inside its segment and the sum fits in 64 bits,
   * the device offset determines the segment and the offset inside it.
   */
  lemma GetOffsetInverse(sb: Superblock, addr: Paddr)
    requires sb.segmentSize > 0 && addr.offset < sb.segmentSize
    requires sb.firstSegmentOffset + addr.deviceSegmentId * sb.segmentSize + addr.offset < TWO64
    ensures GetOffset(sb, addr) >= sb.firstSegmentOffset
    ensures (GetOffset(sb, addr) - sb.firstSegmentOffset) / sb.segmentSize == addr.deviceSegmentId
    ensures (GetOffset(sb, addr) - sb.firstSegmentOffset) % sb.segmentSize == addr.offset
  {
    var x := addr.deviceSegmentId * sb.segmentSize + addr.offset;
    var q := x / sb.segmentSize;
    assert x == q * sb.segmentSize + x % sb.segmentSize;
    if q < addr.deviceSegmentId {
      MulLe(q + 1, addr.deviceSegmentId, sb.segmentSize);
    } else if q > addr.deviceSegmentId {
      MulLe(addr.deviceSegmentId + 1, q, sb.segmentSize);
    }
  }

  /** effort_t: how many operations and how many bytes. */
  class Effort {
    var num: u64
    var bytes: u64

    constructor ()
      ensures num == 0 && bytes == 0
    {
      num, bytes := 0, 0;
    }

    /** One more operation of `readBytes` bytes; both counters wrap at 2^64. */
    method Increment(readBytes: u64)
      modifies this
      ensures num == (old(num) + 1) % TWO64
      ensures bytes == (old(bytes) + readBytes) % TWO64
    {
      num := (num + 1) % TWO64;
      bytes := (bytes + readBytes) % TWO64;
    }

    /** Assigning `{}`: both counters back to zero. */
    method Clear()
      modifies this
      ensures num == 0 && bytes == 0
    {
      num, bytes := 0, 0;
    }
  }

  /** Below 2^64 operations, an increment adds exactly one and `n` bytes. */
  method IncrementExact(e: Effort, n: u64)
    requires e.num + 1 < TWO64 && e.bytes + n < TWO64
    modifies e
    ensures e.num == old(e.num) + 1 && e.bytes == old(e.bytes) + n
  {
    e.Increment(n);
  }

  /** The manager's statistics: three efforts and four segment counters. */
  class Stats {
    const dataRead: Effort
    const dataWrite: Effort
    const metadataWrite: Effort
    var openedSegments: u64
    var closedSegments: u64
    var closedSegmentsUnusedBytes: u64
    var releasedSegments: u64

    /** The three efforts are separate records. */
    ghost predicate Valid()
      reads this
    {
      dataRead != dataWrite && dataRead != metadataWrite && dataWrite != metadataWrite
    }

    ghost predicate IsZero()
      reads this, dataRead, dataWrite, metadataWrite
    {
      && dataRead.num == 0 && dataRead.bytes == 0
      && dataWrite.num == 0 && dataWrite.bytes == 0
      && metadataWrite.num == 0 && metadataWrite.bytes == 0
      && openedSegments == 0 && closedSegments == 0
      && closedSegmentsUnusedBytes == 0 && releasedSegments == 0
    }

    /**
     * The efforts start at zero (their members have initialisers); the four
     * counters have none, so they start at whatever values are given.
     */
    constructor (opens: u64, closes: u64, unusedBytes: u64, releases: u64)
      ensures Valid()
      ensures fresh(dataRead) && fresh(dataWrite) && fresh(metadataWrite)
      ensures dataRead.num == dataRead.bytes == dataWrite.num == dataWrite.bytes == 0
      ensures metadataWrite.num == metadataWrite.bytes == 0
      ensures openedSegments == opens && closedSegments == closes
      ensures closedSegmentsUnusedBytes == unusedBytes && releasedSegments == releases
    {
      dataRead := new Effort();
      dataWrite := new Effort();
      metadataWrite := new Effort();
      openedSegments, closedSegments := opens, closes;
      closedSegmentsUnusedBytes, releasedSegments := unusedBytes, releases;
    }

    /** reset: every effort and every counter back to zero. */
    method Reset()
      requires Valid()
      modifies this, dataRead, dataWrite, metadataWrite
      ensures Valid() && IsZero()
    {
      dataRead.Clear();
      dataWrite.Clear();
      metadataWrite.Clear();
      openedSegments, closedSegments := 0, 0;
      closedSegmentsUnusedBytes, releasedSegments := 0, 0;
    }
  }
}
