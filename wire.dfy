/**
 * Fixed-width integers, the little-endian reads the decoders make over an
 * immutable byte buffer, and the matching encoders.
 *
 * A buffer is a `seq<u8>`; a cursor is a plain `nat` index into it.  A
 * cursor may stand past the end of the buffer (the source sometimes steps
 * over a byte without checking); every checked read tests `p + n <= |b|`
 * first, exactly like the "need n bytes" guards of the source.
 */
module Wire {

  type u8 = x: int | 0 <= x < 0x100
  type u16 = x: int | 0 <= x < 0x1_0000
  type u32 = x: int | 0 <= x < 0x1_0000_0000
  type u64 = x: int | 0 <= x < 0x1_0000_0000_0000_0000
  type s32 = x: int | -0x8000_0000 <= x < 0x8000_0000

  const TWO32: int := 0x1_0000_0000

  /** The error codes the decoders return: -EINVAL, -ENOMEM, and a BUG_ON that fired. */
  datatype Error = Inval | NoMem | Bug

  datatype Result<T> = Ok(value: T) | Err(error: Error) {
    predicate IsFailure() { Err? }
    function PropagateFailure<U>(): Result<U> requires Err? { Err(error) }
    function Extract(): T requires Ok? { value }
  }

  datatype Option<T> = None | Some(value: T)

  // ---------------------------------------------------------------- reads

  function Le16(b: seq<u8>, p: nat): u16
    requires p + 2 <= |b|
  {
    (b[p] as int) + 0x100 * (b[p + 1] as int)
  }

  function Le32(b: seq<u8>, p: nat): u32
    requires p + 4 <= |b|
  {
    (Le16(b, p) as int) + 0x1_0000 * (Le16(b, p + 2) as int)
  }

  function Le64(b: seq<u8>, p: nat): u64
    requires p + 8 <= |b|
  {
    (Le32(b, p) as int) + TWO32 * (Le32(b, p + 4) as int)
  }

  /** Reinterprets a 32-bit pattern as two's-complement signed. */
  function ToS32(x: u32): s32
  {
    if x < 0x8000_0000 then x else x - TWO32
  }

  /** The 32-bit pattern of a signed value; inverse of ToS32. */
  function FromS32(x: s32): (r: u32)
    ensures ToS32(r) == x
  {
    if x >= 0 then x else x + TWO32
  }

  /** `n` consecutive 32-bit words starting at `p`. */
  function Words(b: seq<u8>, p: nat, n: nat): (r: seq<u32>)
    requires p + 4 * n <= |b|
    ensures |r| == n
    ensures forall j :: 0 <= j < n ==> r[j] == Le32(b, p + 4 * j)
  {
    seq(n, j requires 0 <= j < n => Le32(b, p + 4 * j))
  }

  /** `n` pairs of 32-bit words starting at `p`: the first word of each pair (stride 8). */
  function Firsts(b: seq<u8>, p: nat, n: nat): (r: seq<u32>)
    requires p + 8 * n <= |b|
    ensures |r| == n
    ensures forall j :: 0 <= j < n ==> r[j] == Le32(b, p + 8 * j)
  {
    seq(n, j requires 0 <= j < n => Le32(b, p + 8 * j))
  }

  /** The second word of each of `n` pairs starting at `p`. */
  function Seconds(b: seq<u8>, p: nat, n: nat): (r: seq<u32>)
    requires p + 8 * n <= |b|
    ensures |r| == n
    ensures forall j :: 0 <= j < n ==> r[j] == Le32(b, p + 8 * j + 4)
  {
    seq(n, j requires 0 <= j < n => Le32(b, p + 8 * j + 4))
  }

  // ------------------------------------------------------------ encoders

  function Enc16(x: u16): (e: seq<u8>)
    ensures |e| == 2
  {
    [x % 0x100, x / 0x100]
  }

  function Enc32(x: u32): (e: seq<u8>)
    ensures |e| == 4
  {
    Enc16(x % 0x1_0000) + Enc16(x / 0x1_0000)
  }

  function Enc64(x: u64): (e: seq<u8>)
    ensures |e| == 8
  {
    Enc32(x % TWO32) + Enc32(x / TWO32)
  }

  lemma Enc16Read(x: u16)
    ensures Le16(Enc16(x), 0) == x
  {
  }

  lemma Enc32Read(x: u32)
    ensures Le32(Enc32(x), 0) == x
  {
    var lo, hi := Enc16(x % 0x1_0000), Enc16(x / 0x1_0000);
    Enc16Read(x % 0x1_0000);
    Enc16Read(x / 0x1_0000);
    assert Le16(lo + hi, 0) == Le16(lo, 0);
    assert Le16(lo + hi, 2) == Le16(hi, 0);
  }

  lemma Enc64Read(x: u64)
    ensures Le64(Enc64(x), 0) == x
  {
    var lo, hi := Enc32(x % TWO32), Enc32(x / TWO32);
    Enc32Read(x % TWO32);
    Enc32Read(x / TWO32);
    assert Le32(lo + hi, 0) == Le32(lo, 0) by {
      assert (lo + hi)[..4] == lo;
    }
    assert Le32(lo + hi, 4) == Le32(hi, 0) by {
      assert (lo + hi)[4..] == hi;
    }
  }

  function EncWords(s: seq<u32>): (e: seq<u8>)
    ensures |e| == 4 * |s|
  {
    if s == [] then [] else Enc32(s[0]) + EncWords(s[1..])
  }

  /** Interleaves two equally long word sequences as (a[0], c[0], a[1], c[1], ...). */
  function EncPairs(a: seq<u32>, c: seq<u32>): (e: seq<u8>)
    requires |a| == |c|
    ensures |e| == 8 * |a|
  {
    if a == [] then [] else Enc32(a[0]) + Enc32(c[0]) + EncPairs(a[1..], c[1..])
  }

  // ------------------------------------------------- windows into a buffer

  /**
   * The bytes `e` lie in `b` starting at `p`.  Stated byte by byte through
   * `AtFrom`, so that the verifier looks at one byte at a time.
   */
  predicate At(b: seq<u8>, p: nat, e: seq<u8>) {
    AtFrom(b, p, e, 0)
  }

  /** Bytes `e[i..]` lie in `b` at `p + i`, and the whole of `e` fits. */
  predicate AtFrom(b: seq<u8>, p: nat, e: seq<u8>, i: nat)
    requires i <= |e|
    decreases |e| - i
  {
    if i == |e| then p + |e| <= |b| else p + i < |b| && b[p + i] == e[i] && AtFrom(b, p, e, i + 1)
  }

  lemma {:induction false} AtFromBound(b: seq<u8>, p: nat, e: seq<u8>, i: nat)
    requires i <= |e| && AtFrom(b, p, e, i)
    ensures p + |e| <= |b|
    decreases |e| - i
  {
    if i < |e| {
      AtFromBound(b, p, e, i + 1);
    }
  }

  lemma {:induction false} AtFromByte(b: seq<u8>, p: nat, e: seq<u8>, i: nat, j: nat)
    requires i <= j < |e| && AtFrom(b, p, e, i)
    ensures p + j < |b| && b[p + j] == e[j]
    decreases j - i
  {
    if i < j {
      AtFromByte(b, p, e, i + 1, j);
    }
  }

  lemma {:induction false} AtFromBytes(b: seq<u8>, p: nat, e: seq<u8>, i: nat)
    requires i <= |e| && p + |e| <= |b|
    requires forall j :: i <= j < |e| ==> b[p + j] == e[j]
    ensures AtFrom(b, p, e, i)
    decreases |e| - i
  {
    if i < |e| {
      AtFromBytes(b, p, e, i + 1);
    }
  }

  lemma AtBound(b: seq<u8>, p: nat, e: seq<u8>)
    requires At(b, p, e)
    ensures p + |e| <= |b|
  {
    AtFromBound(b, p, e, 0);
  }

  lemma AtByte(b: seq<u8>, p: nat, e: seq<u8>, i: nat)
    requires At(b, p, e) && i < |e|
    ensures p + i < |b| && b[p + i] == e[i]
  {
    AtFromByte(b, p, e, 0, i);
  }

  /** `At` from the bytes one by one. */
  lemma AtBytes(b: seq<u8>, p: nat, e: seq<u8>)
    requires p + |e| <= |b|
    requires forall j :: 0 <= j < |e| ==> b[p + j] == e[j]
    ensures At(b, p, e)
  {
    AtFromBytes(b, p, e, 0);
  }

  /** The window form of `At`: the slice of `b` at `p` is `e`. */
  lemma AtSlice(b: seq<u8>, p: nat, e: seq<u8>)
    requires p + |e| <= |b| && b[p..p + |e|] == e
    ensures At(b, p, e)
  {
    forall j | 0 <= j < |e| ensures b[p + j] == e[j] {
      assert b[p..p + |e|][j] == b[p + j];
    }
    AtBytes(b, p, e);
  }

  /** The slice form back from `At`. */
  lemma AtWindow(b: seq<u8>, p: nat, e: seq<u8>)
    requires At(b, p, e)
    ensures p + |e| <= |b| && b[p..p + |e|] == e
  {
    AtBound(b, p, e);
    forall i | 0 <= i < |e| ensures b[p..p + |e|][i] == e[i] {
      AtByte(b, p, e, i);
    }
  }

  lemma AtSplit(b: seq<u8>, p: nat, x: seq<u8>, y: seq<u8>)
    requires At(b, p, x + y)
    ensures At(b, p, x) && At(b, p + |x|, y)
  {
    AtBound(b, p, x + y);
    forall j | 0 <= j < |x| ensures b[p + j] == x[j] {
      AtByte(b, p, x + y, j);
    }
    forall j | 0 <= j < |y| ensures b[p + |x| + j] == y[j] {
      AtByte(b, p, x + y, |x| + j);
    }
    AtBytes(b, p, x);
    AtBytes(b, p + |x|, y);
  }

  lemma AtSplit3(b: seq<u8>, p: nat, x: seq<u8>, y: seq<u8>, z: seq<u8>)
    requires At(b, p, x + y + z)
    ensures At(b, p, x) && At(b, p + |x|, y) && At(b, p + |x| + |y|, z)
  {
    AtSplit(b, p, x + y, z);
    AtSplit(b, p, x, y);
  }

  lemma AtLe16(b: seq<u8>, p: nat, x: u16)
    requires At(b, p, Enc16(x))
    ensures p + 2 <= |b| && Le16(b, p) == x
  {
    var e := Enc16(x);
    Enc16Read(x);
    AtBound(b, p, e);
    AtByte(b, p, e, 0);
    AtByte(b, p, e, 1);
    assert Le16(b, p) == Le16(e, 0);
  }

  lemma AtLe32(b: seq<u8>, p: nat, x: u32)
    requires At(b, p, Enc32(x))
    ensures p + 4 <= |b| && Le32(b, p) == x
  {
    var e := Enc32(x);
    Enc32Read(x);
    AtBound(b, p, e);
    AtByte(b, p, e, 0);
    AtByte(b, p, e, 1);
    AtByte(b, p, e, 2);
    AtByte(b, p, e, 3);
    assert Le32(b, p) == Le32(e, 0);
  }

  lemma AtLe64(b: seq<u8>, p: nat, x: u64)
    requires At(b, p, Enc64(x))
    ensures p + 8 <= |b| && Le64(b, p) == x
  {
    var e := Enc64(x);
    Enc64Read(x);
    AtBound(b, p, e);
    forall i | 0 <= i < 8 ensures p + i < |b| && b[p + i] == e[i] {
      AtByte(b, p, e, i);
    }
    assert Le64(b, p) == Le64(e, 0);
  }

  /** Words reads back what EncWords wrote, wherever the encoding lies in the buffer. */
  lemma {:induction false} AtWords(b: seq<u8>, p: nat, s: seq<u32>)
    requires At(b, p, EncWords(s))
    ensures p + 4 * |s| <= |b| && Words(b, p, |s|) == s
    decreases |s|
  {
    if s != [] {
      AtSplit(b, p, Enc32(s[0]), EncWords(s[1..]));
      AtLe32(b, p, s[0]);
      AtWords(b, p + 4, s[1..]);
      assert Words(b, p, |s|) == [s[0]] + Words(b, p + 4, |s| - 1);
    }
  }

  /** Firsts and Seconds read back the two halves EncPairs interleaved. */
  lemma {:induction false} AtPairs(b: seq<u8>, p: nat, a: seq<u32>, c: seq<u32>)
    requires |a| == |c| && At(b, p, EncPairs(a, c))
    ensures p + 8 * |a| <= |b|
    ensures Firsts(b, p, |a|) == a && Seconds(b, p, |a|) == c
    decreases |a|
  {
    if a != [] {
      AtSplit3(b, p, Enc32(a[0]), Enc32(c[0]), EncPairs(a[1..], c[1..]));
      AtLe32(b, p, a[0]);
      AtLe32(b, p + 4, c[0]);
      AtPairs(b, p + 8, a[1..], c[1..]);
    }
  }

  /** Reading inside a prefix of the buffer is the same as reading the whole buffer. */
  lemma Le32Prefix(b: seq<u8>, n: nat, p: nat)
    requires p + 4 <= n <= |b|
    ensures Le32(b[..n], p) == Le32(b, p)
  {
  }
}
