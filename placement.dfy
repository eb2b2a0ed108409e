/**
 * Placement arithmetic of the kernel client (src/kernel/osdmap.c:569-641):
 * which object, and which extent of it, holds a byte range of a file, and
 * which placement group that object belongs to.  Both routines compute
 * values from their inputs and are modelled as functions.
 */
module Placement {
  import opened Wire
  import OsdMapSpec

  /** The page size the stripe unit must be a multiple of. */
  const PAGE_SIZE: nat := 4096

  /** struct ceph_file_layout, with the little-endian fields already read. */
  datatype FileLayout = FileLayout(
    objectSize: u32,
    stripeUnit: u32,
    stripeCount: u32,
    objectStripeUnit: u32,
    pgPreferred: u32,
    pgType: u8,
    pgSize: u8,
    pgPool: u32)

  /**
   * What `calc_file_object_mapping` reports: the object number, the extent
   * inside it, and the new value of the caller's length.
   */
  datatype Extent = Extent(bno: u32, oxoff: nat, oxlen: nat, plen: nat)

  /**
   * The divisions the routine performs are defined, and the stripe unit
   * is page aligned (the BUG_ON at line 587).
   */
  predicate ValidLayout(l: FileLayout) {
    && l.stripeUnit > 0
    && l.stripeUnit % PAGE_SIZE == 0
    && l.stripeCount > 0
    && l.objectSize >= l.stripeUnit
  }

  /** Stripe units that fit in one object (`su_per_object`). */
  function SuPerObject(l: FileLayout): (r: nat)
    requires ValidLayout(l)
    ensures r >= 1 && r * l.stripeUnit <= l.objectSize
  {
    l.objectSize / l.stripeUnit
  }

  /**
   * calc_file_object_mapping as written: the block number is truncated to
   * 32 bits, the object number is computed in 32-bit arithmetic, and the
   * object offset is the offset inside the stripe unit.
   */
  function MapAsWritten(l: FileLayout, off: u64, plen: u64): (r: Extent)
    requires ValidLayout(l)
    ensures r.oxoff < l.stripeUnit
    ensures r.oxoff + r.oxlen <= l.stripeUnit
    ensures r.plen == r.oxlen <= plen
    ensures plen > 0 ==> r.oxlen > 0
  {
    var su, sc := l.stripeUnit, l.stripeCount;
    var bl := (off / su) % TWO32;
    var stripeno, stripepos := bl / sc, bl % sc;
    var objsetno := stripeno / SuPerObject(l);
    var oxoff := off % su;
    var oxlen := if plen < su - oxoff then plen else su - oxoff;
    Extent((objsetno * sc + stripepos) % TWO32, oxoff, oxlen, oxlen)
  }

  /**
   * The mapping with the object offset the layout calls for: the stripe
   * row inside the object set, times the stripe unit, plus the offset
   * inside the stripe unit.  The object number and the length are those
   * of the routine as written.
   */
  function FileObjectMapping(l: FileLayout, off: u64, plen: u64): (r: Extent)
    requires ValidLayout(l)
    ensures r.bno == MapAsWritten(l, off, plen).bno
    ensures r.oxlen == r.plen == MapAsWritten(l, off, plen).oxlen
    ensures r.oxoff % l.stripeUnit == off % l.stripeUnit
    ensures r.oxoff + r.oxlen <= l.objectSize
  {
    var su, sc, spo := l.stripeUnit, l.stripeCount, SuPerObject(l);
    var bl := (off / su) % TWO32;
    var stripeno := bl / sc;
    var row := stripeno % spo;
    var w := MapAsWritten(l, off, plen);
    RowOffset(row, spo, su, off % su, w.oxlen);
    DivMod(row, off % su, su);
    Extent(w.bno, row * su + off % su, w.oxlen, w.oxlen)
  }

  /** The file offset an (object number, object offset) pair stands for. */
  function FileOffset(l: FileLayout, bno: nat, oxoff: nat): int
    requires ValidLayout(l)
  {
    var su, sc, spo := l.stripeUnit, l.stripeCount, SuPerObject(l);
    var stripeno := (bno / sc) * spo + oxoff / su;
    (stripeno * sc + bno % sc) * su + oxoff % su
  }

  // ------------------------------------------------------------ lemmas

  lemma RowOffset(row: nat, spo: nat, su: nat, rem: nat, len: nat)
    requires row < spo && rem < su && rem + len <= su
    ensures row * su + rem % su == row * su + rem
    ensures row * su + rem + len <= spo * su
  {
    assert (row + 1) * su <= spo * su by {
      MulLe(row + 1, spo, su);
    }
  }

  lemma MulLe(a: nat, b: nat, c: nat)
    requires a <= b
    ensures a * c <= b * c
  {
  }

  /** Division by `d` of `q * d + r`, for `0 <= r < d`, gives back `q` and `r`. */
  lemma DivMod(q: nat, r: nat, d: nat)
    requires 0 <= r < d
    ensures (q * d + r) / d == q && (q * d + r) % d == r
  {
    var x := q * d + r;
    var q' := x / d;
    assert x == q' * d + x % d;
    if q' < q {
      MulLe(q' + 1, q, d);
    } else if q' > q {
      MulLe(q + 1, q', d);
    }
  }

  /**
   * Every file offset whose block number fits in 32 bits is recovered
   * from the object number and object offset: no two such offsets share
   * an object byte.
   */
  lemma MappingRoundTrip(l: FileLayout, off: u64, plen: u64)
    requires ValidLayout(l)
    requires off / l.stripeUnit < TWO32
    ensures var r := FileObjectMapping(l, off, plen);
      FileOffset(l, r.bno, r.oxoff) == off
  {
    var su, sc, spo := l.stripeUnit, l.stripeCount, SuPerObject(l);
    var bl := off / su;
    var stripeno := bl / sc;
    var objset, pos, row, rem := stripeno / spo, bl % sc, stripeno % spo, off % su;
    Parts(off, su);
    Parts(bl, sc);
    Parts(stripeno, spo);
    DivMod(0, bl, TWO32);
    var bno := Recover(off, su, sc, spo, bl, stripeno, pos, objset, row, rem);
    DivMod(0, bno, TWO32);
  }

  /**
   * The arithmetic core of the round trip: the quotients and remainders
   * of the mapping put back together give the offset.
   */
  lemma Recover(off: nat, su: nat, sc: nat, spo: nat, bl: nat, stripeno: nat, pos: nat, objset: nat, row: nat, rem: nat)
      returns (bno: nat)
    requires su > 0 && sc > 0 && spo > 0
    requires off == bl * su + rem && rem < su
    requires bl == stripeno * sc + pos && pos < sc
    requires stripeno == objset * spo + row && row < spo
    ensures bno == objset * sc + pos && bno <= bl
    ensures (((bno / sc) * spo + (row * su + rem) / su) * sc + bno % sc) * su + (row * su + rem) % su == off
  {
    bno := objset * sc + pos;
    MulLe(objset, stripeno, sc);
    DivMod(objset, pos, sc);
    DivMod(row, rem, su);
  }

  /** Quotient and remainder of a division by a positive divisor. */
  lemma Parts(x: nat, d: nat)
    requires d > 0
    ensures x == (x / d) * d + x % d && 0 <= x % d < d && 0 <= x / d <= x
  {
    if x / d > x {
      MulLe(1, d, x / d);
    }
  }

  /** Distinct offsets map to distinct object bytes. */
  lemma MappingInjective(l: FileLayout, off1: u64, off2: u64, plen: u64)
    requires ValidLayout(l)
    requires off1 / l.stripeUnit < TWO32 && off2 / l.stripeUnit < TWO32
    requires off1 != off2
    ensures FileObjectMapping(l, off1, plen).bno != FileObjectMapping(l, off2, plen).bno
         || FileObjectMapping(l, off1, plen).oxoff != FileObjectMapping(l, off2, plen).oxoff
  {
    MappingRoundTrip(l, off1, plen);
    MappingRoundTrip(l, off2, plen);
  }

  /** A layout with two stripe units per object and one stripe. */
  function TwoUnitLayout(): (l: FileLayout)
    ensures ValidLayout(l)
  {
    FileLayout(8192, 4096, 1, 4096, 0xFFFF_FFFF, 0, 0, 0)
  }

  /**
   * As written, the first and the second stripe unit of an object both
   * land at object offset 0 of object 0; the corrected mapping puts the
   * second one at offset 4096.
   */
  lemma StripeUnitsCollide()
    ensures MapAsWritten(TwoUnitLayout(), 0, 4096) == MapAsWritten(TwoUnitLayout(), 4096, 4096)
    ensures FileObjectMapping(TwoUnitLayout(), 4096, 4096) == Extent(0, 4096, 4096, 4096)
  {
    var l := TwoUnitLayout();
    assert SuPerObject(l) == 2;
    assert MapAsWritten(l, 0, 4096) == Extent(0, 0, 4096, 4096);
    assert MapAsWritten(l, 4096, 4096) == Extent(0, 0, 4096, 4096);
  }

  /** An extent starting at file offset 0 is the first stripe unit of object 0. */
  lemma MapAtZero(l: FileLayout, plen: u64)
    requires ValidLayout(l) && plen >= l.stripeUnit
    ensures MapAsWritten(l, 0, plen) == Extent(0, 0, l.stripeUnit, l.stripeUnit)
    ensures FileObjectMapping(l, 0, plen) == Extent(0, 0, l.stripeUnit, l.stripeUnit)
  {
    assert 0 / l.stripeUnit == 0 && 0 % l.stripeUnit == 0;
    assert 0 / l.stripeCount == 0 && 0 % l.stripeCount == 0;
    assert 0 / SuPerObject(l) == 0 && 0 % SuPerObject(l) == 0;
  }

  // --------------------------------------------------- calc_object_layout

  /** struct ceph_object: the inode number and the block (object) number. */
  datatype ObjectId = ObjectId(ino: u64, bno: u32)

  /** union ceph_pg as a record; its bit packing is not part of the model. */
  datatype Pgid = Pgid(ps: u32, preferred: s32, pgType: u8, size: u8, pool: u32)

  /** struct ceph_object_layout. */
  datatype ObjectLayout = ObjectLayout(pgid: Pgid, stripeUnit: u32)

  /** The pg count and mask `calc_object_layout` picks (lines 624-630). */
  function ChosenCount(fl: FileLayout, m: OsdMapSpec.MapValue): (r: (u32, nat))
    ensures ToS32(fl.pgPreferred) >= 0 ==> r == (m.lpgNum, m.lpgNumMask)
    ensures ToS32(fl.pgPreferred) < 0 ==> r == (m.pgNum, m.pgNumMask)
  {
    if ToS32(fl.pgPreferred) >= 0 then (m.lpgNum, m.lpgNumMask) else (m.pgNum, m.pgNumMask)
  }

  /**
   * calc_object_layout: the placement seed is the block number plus the
   * hash of the two halves of the inode number, in 32-bit arithmetic; the
   * rest is copied from the file layout.  `hash` stands for crush_hash32_2.
   */
  function CalcObjectLayout(oid: ObjectId, fl: FileLayout, m: OsdMapSpec.MapValue, hash: (u32, u32) -> u32): (r: ObjectLayout)
    ensures r.pgid.preferred == ToS32(fl.pgPreferred)
    ensures r.pgid.pgType == fl.pgType && r.pgid.size == fl.pgSize && r.pgid.pool == fl.pgPool
    ensures r.stripeUnit == fl.objectStripeUnit
    ensures (r.pgid.ps - oid.bno) % TWO32 == hash(oid.ino % TWO32, oid.ino / TWO32)
  {
    var _ := ChosenCount(fl, m);
    var ps := (oid.bno + hash(oid.ino % TWO32, oid.ino / TWO32)) % TWO32;
    ObjectLayout(Pgid(ps, ToS32(fl.pgPreferred), fl.pgType, fl.pgSize, fl.pgPool), fl.objectStripeUnit)
  }

  /** The layout does not depend on the map: the chosen count and mask are never used. */
  lemma LayoutIgnoresMap(oid: ObjectId, fl: FileLayout, m1: OsdMapSpec.MapValue, m2: OsdMapSpec.MapValue, hash: (u32, u32) -> u32)
    ensures CalcObjectLayout(oid, fl, m1, hash) == CalcObjectLayout(oid, fl, m2, hash)
  {
  }

  /** Consecutive objects of one file get consecutive placement seeds. */
  lemma {:induction false} ConsecutiveSeeds(ino: u64, bno: u32, k: nat, fl: FileLayout, m: OsdMapSpec.MapValue, hash: (u32, u32) -> u32)
    requires bno + k < TWO32
    ensures CalcObjectLayout(ObjectId(ino, bno + k), fl, m, hash).pgid.ps
         == (CalcObjectLayout(ObjectId(ino, bno), fl, m, hash).pgid.ps + k) % TWO32
  {
    var h := hash(ino % TWO32, ino / TWO32);
    ModAdd(bno + h, k);
  }

  lemma ModAdd(x: nat, k: nat)
    ensures (x + k) % TWO32 == (x % TWO32 + k) % TWO32
  {
    DivMod(x / TWO32, x % TWO32, TWO32);
    var q := x / TWO32;
    assert x + k == q * TWO32 + (x % TWO32 + k);
    var y := x % TWO32 + k;
    DivMod(y / TWO32, y % TWO32, TWO32);
    DivMod(q + y / TWO32, y % TWO32, TWO32);
    assert x + k == (q + y / TWO32) * TWO32 + y % TWO32;
  }
}
