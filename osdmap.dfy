/**
 * `struct ceph_osdmap` as the kernel client keeps it: an object whose
 * per-OSD arrays are reallocated by `osdmap_set_max_osd` and updated in
 * place by `apply_incremental` (src/kernel/osdmap.c:17-36, 304-556).  Every
 * method is proved to leave the map in the state the functions of
 * `OsdMapSpec` and `IncrementalSpec` describe.
 */
module OsdMaps {
  import opened Wire
  import opened Crush
  import opened Masks
  import opened OsdMapSpec
  import opened IncrementalSpec
  import CrushDecoder

  /** The mask for `num`: `(1 << calc_bits_of(num - 1)) - 1`, all in 32-bit arithmetic. */
  method PgMaskOf(num: u32) returns (mask: nat)
    ensures mask == PgMask(num)
    ensures Pred32(num) <= mask < TWO32
  {
    var bits := CalcBitsOf(if num == 0 then TWO32 - 1 else num - 1);
    mask := Pow2(bits) - 1;
    PgMaskSmallest(num, 0);
  }

  /** The `i`-th of `max` addresses ends inside the address array. */
  lemma AddrInArray(max: nat, i: nat)
    requires i < max
    ensures (i + 1) * ADDR_LEN <= max * ADDR_LEN
  {
  }

  /**
   * One array of `osdmap_set_max_osd`: a zeroed allocation of `max`
   * entries with the surviving entries of `a` copied in.
   */
  method Reallocated<T>(a: array<T>, max: nat, zero: T) returns (r: array<T>)
    ensures fresh(r) && r[..] == Resized(a[..], max, zero)
  {
    r := new T[max](_ => zero);
    forall i | 0 <= i < Min(a.Length, max) {
      r[i] := a[i];
    }
  }

  /** Lines 396-406: the CRUSH section of a full map. */
  method DecodeCrushSection(b: seq<u8>, c: nat) returns (r: Result<CrushMap>)
    ensures r == ParseCrushSection(b, c)
  {
    if c + 4 > |b| {
      return Err(Inval);
    }
    var len := Le32(b, c);
    if c + 4 + len > |b| {
      return Err(Inval);
    }
    r := CrushDecoder.DecodeCrush(b, c + 4);
  }

  class OsdMap {
    var fsid: Fsid
    var epoch: u32
    var ctime: Time
    var mtime: Time
    var pgNum: u32
    var pgpNum: u32
    var lpgNum: u32
    var lpgpNum: u32
    var pgNumMask: nat
    var pgpNumMask: nat
    var lpgNumMask: nat
    var lpgpNumMask: nat
    var lastPgChange: u32
    var flags: u32
    var maxOsd: nat
    var osdState: array<u8>
    var osdWeight: array<u32>
    var osdAddr: array<Addr>
    var crush: Option<CrushMap>

    /** The three arrays hold `max_osd` entries each. */
    ghost predicate Valid()
      reads this
    {
      osdState.Length == maxOsd && osdWeight.Length == maxOsd && osdAddr.Length == maxOsd
    }

    /** The map as a value. */
    ghost function Value(): (m: MapValue)
      reads this, osdState, osdWeight, osdAddr
      ensures Valid() ==> Shaped(m) && |m.state| == maxOsd
    {
      MapValue(fsid, epoch, ctime, mtime, pgNum, pgpNum, lpgNum, lpgpNum,
               pgNumMask, pgpNumMask, lpgNumMask, lpgpNumMask, lastPgChange, flags,
               osdState[..], osdWeight[..], osdAddr[..], crush)
    }

    /**
     * A zeroed map (`kzalloc`, line 350) holding the scalar fields of `h`:
     * no OSDs yet.
     */
    constructor (h: MapValue)
      ensures Valid() && Value() == h.(state := [], weight := [], addr := [])
      ensures fresh(osdState) && fresh(osdWeight) && fresh(osdAddr)
    {
      fsid, epoch, ctime, mtime := h.fsid, h.epoch, h.ctime, h.mtime;
      pgNum, pgpNum, lpgNum, lpgpNum := h.pgNum, h.pgpNum, h.lpgNum, h.lpgpNum;
      pgNumMask, pgpNumMask, lpgNumMask, lpgpNumMask := h.pgNumMask, h.pgpNumMask, h.lpgNumMask, h.lpgpNumMask;
      lastPgChange, flags, maxOsd := h.lastPgChange, h.flags, 0;
      osdState := new u8[0];
      osdWeight := new u32[0];
      osdAddr := new Addr[0];
      crush := h.crush;
    }

    /** calc_pg_masks (lines 27-36). */
    method CalcPgMasks()
      requires Valid()
      modifies this`pgNumMask, this`pgpNumMask, this`lpgNumMask, this`lpgpNumMask
      ensures Valid() && Value() == WithMasks(old(Value()))
    {
      var a := PgMaskOf(pgNum);
      var c := PgMaskOf(pgpNum);
      var d := PgMaskOf(lpgNum);
      var e := PgMaskOf(lpgpNum);
      ghost var m := Value();
      pgNumMask, pgpNumMask, lpgNumMask, lpgpNumMask := a, c, d, e;
      assert Value() == m.(pgNumMask := a, pgpNumMask := c, lpgNumMask := d, lpgpNumMask := e);
    }

    /**
     * osdmap_set_max_osd (lines 304-335): three zeroed arrays of `max`
     * entries, the surviving entries copied in, or -ENOMEM with the map as
     * it was.
     */
    method SetMaxOsd(max: u32, allocOk: bool) returns (r: Result<()>)
      requires Valid()
      modifies this
      ensures Valid()
      ensures r.Ok? <==> Resize(old(Value()), max, allocOk).Ok?
      ensures r.Ok? ==> Value() == Resize(old(Value()), max, allocOk).value
      ensures r.Ok? ==> fresh(osdState) && fresh(osdWeight) && fresh(osdAddr)
      ensures r.Err? ==> r.error == NoMem && unchanged(this) && Value() == old(Value())
    {
      if AllocFails(max, allocOk) {
        return Err(NoMem);
      }
      ghost var m := Value();
      var state := Reallocated(osdState, max, 0);
      var weight := Reallocated(osdWeight, max, 0);
      var addr := Reallocated(osdAddr, max, ZeroAddr());
      osdState, osdWeight, osdAddr, maxOsd := state, weight, addr, max;
      assert Value() == m.(state := state[..], weight := weight[..], addr := addr[..]);
      return Ok(());
    }

    /** Lines 386-387: the state bytes of the `max_osd` OSDs. */
    method DecodeStates(b: seq<u8>, q: nat)
      requires Valid() && q + maxOsd <= |b|
      modifies osdState
      ensures Valid() && Value() == old(Value()).(state := b[q..q + maxOsd])
    {
      for i := 0 to maxOsd
        invariant forall k :: 0 <= k < i ==> osdState[k] == b[q + k]
      {
        osdState[i] := b[q + i];
      }
      assert osdState[..] == b[q..q + maxOsd];
    }

    /** Lines 389-390: the weights of the `max_osd` OSDs. */
    method DecodeWeights(b: seq<u8>, q: nat)
      requires Valid() && q + 4 * maxOsd <= |b|
      modifies osdWeight
      ensures Valid() && Value() == old(Value()).(weight := Words(b, q, maxOsd))
    {
      for i := 0 to maxOsd
        invariant forall k :: 0 <= k < i ==> osdWeight[k] == Le32(b, q + 4 * k)
      {
        osdWeight[i] := Le32(b, q + 4 * i);
      }
      assert osdWeight[..] == Words(b, q, maxOsd);
    }

    /** Lines 393-394: the addresses of the `max_osd` OSDs. */
    method DecodeAddrs(b: seq<u8>, q: nat)
      requires Valid() && q + maxOsd * ADDR_LEN <= |b|
      modifies osdAddr
      ensures Valid() && Value() == old(Value()).(addr := Addrs(b, q, maxOsd))
    {
      for i := 0 to maxOsd
        invariant forall k :: 0 <= k < i ==> osdAddr[k] == b[q + k * ADDR_LEN..q + (k + 1) * ADDR_LEN]
      {
        AddrInArray(maxOsd, i);
        osdAddr[i] := b[q + i * ADDR_LEN..q + (i + 1) * ADDR_LEN];
      }
      assert osdAddr[..] == Addrs(b, q, maxOsd);
    }

    /**
     * Lines 348-378: a zeroed map holding the header and its masks, resized
     * to the `max` that follows.
     */
    static method NewMap(b: seq<u8>, p: nat, allocOk: bool) returns (r: Result<OsdMap>)
      requires p + 60 <= |b|
      ensures r.Ok? <==> Resize(ParseHeader(b, p), MaxField(b, p), allocOk).Ok?
      ensures r.Err? ==> r.error == NoMem
      ensures r.Ok? ==> fresh(r.value) && fresh(r.value.osdState) && fresh(r.value.osdWeight) && fresh(r.value.osdAddr)
      ensures r.Ok? ==> r.value.Valid() && r.value.Value() == Resize(ParseHeader(b, p), MaxField(b, p), allocOk).value
    {
      var om := new OsdMap(HeaderFields(b, p));
      om.CalcPgMasks();
      var e := om.SetMaxOsd(MaxField(b, p), allocOk);
      if e.Err? {
        return Err(e.error);
      }
      return Ok(om);
    }

    /** Lines 383-394: the per-OSD section at `q`, with its three skipped length words. */
    method DecodeArrays(b: seq<u8>, q: nat)
      requires Valid() && q + OsdBytes(maxOsd) <= |b|
      modifies osdState, osdWeight, osdAddr
      ensures Valid() && Value() == FillArrays(old(Value()), b, q)
    {
      var max := maxOsd;
      assert OsdBytes(max) == 12 + 5 * max + max * ADDR_LEN;
      DecodeStates(b, q + 4);
      DecodeWeights(b, q + 8 + max);
      DecodeAddrs(b, q + 12 + 5 * max);
    }

    /** osdmap_decode up to the CRUSH section (lines 348-394). */
    static method DecodeOsdSection(b: seq<u8>, p: nat, allocOk: bool) returns (r: Result<OsdMap>)
      ensures r.Ok? <==> ParseOsds(b, p, allocOk).Ok?
      ensures r.Err? ==> r.error == ParseOsds(b, p, allocOk).error
      ensures r.Ok? ==> fresh(r.value) && r.value.Valid() && r.value.Value() == ParseOsds(b, p, allocOk).value
    {
      if p + 60 > |b| {
        return Err(Inval);
      }
      r := NewMap(b, p, allocOk);
      if r.Err? {
        return r;
      }
      var om := r.value;
      if p + 64 + OsdBytes(om.maxOsd) > |b| {
        return Err(Inval);
      }
      om.DecodeArrays(b, p + 64);
    }

    /**
     * osdmap_decode (lines 340-419): a new map from the buffer `b`, or the
     * error; no partial map is ever returned.
     */
    static method Decode(b: seq<u8>, p: nat, allocOk: bool) returns (r: Result<OsdMap>)
      ensures r.Ok? <==> ParseOsdMap(b, p, allocOk).Ok?
      ensures r.Err? ==> r.error == ParseOsdMap(b, p, allocOk).error
      ensures r.Ok? ==> fresh(r.value) && r.value.Valid() && r.value.Value() == ParseOsdMap(b, p, allocOk).value
    {
      var osds := DecodeOsdSection(b, p, allocOk);
      if osds.Err? {
        return Err(osds.error);
      }
      var om := osds.value;
      var cm := DecodeCrushSection(b, p + 64 + OsdBytes(om.maxOsd));
      if cm.Err? {
        return Err(cm.error);
      }
      om.SetCrush(cm.value);
      return Ok(om);
    }

    /** Line 401: the decoded CRUSH map is installed. */
    method SetCrush(cm: CrushMap)
      requires Valid()
      modifies this`crush
      ensures Valid() && Value() == old(Value()).(crush := Some(cm))
    {
      crush := Some(cm);
    }

    /** The new_up loop (lines 506-517). */
    method MarkUp(b: seq<u8>, pos: nat, n: u32) returns (status: Result<nat>)
      requires Valid()
      modifies osdState, osdAddr
      ensures Valid()
      ensures var s := Ups(b, pos, n, old(Value())); status == s.status && Value() == s.after
    {
      ghost var m0 := Value();
      var cur: nat, left: nat := pos, n;
      while left > 0
        invariant Valid() && Ups(b, cur, left, Value()) == Ups(b, pos, n, m0)
        decreases left
      {
        if cur + 4 > |b| || cur + 4 + ADDR_LEN > |b| {
          return Err(Inval);
        }
        var osd := Le32(b, cur);
        if osd >= maxOsd {
          return Err(Bug);
        }
        osdState[osd] := SetUp(osdState[osd]);
        osdAddr[osd] := b[cur + 4..cur + 4 + ADDR_LEN];
        cur, left := cur + 4 + ADDR_LEN, left - 1;
      }
      return Ok(cur);
    }

    /** The new_down loop (lines 520-530), returning the addresses marked down in order. */
    method MarkDown(b: seq<u8>, pos: nat, n: u32) returns (status: Result<nat>, downs: seq<Addr>)
      requires Valid()
      modifies osdState
      ensures Valid()
      ensures var s := Downs(b, pos, n, old(Value()), []);
        status == s.status && Value() == s.after && downs == s.downs
    {
      ghost var m0 := Value();
      var cur: nat, left: nat := pos, n;
      downs := [];
      while left > 0
        invariant Valid() && Downs(b, cur, left, Value(), downs) == Downs(b, pos, n, m0, [])
        decreases left
      {
        if cur + 4 > |b| {
          return Err(Inval), downs;
        }
        var osd := Le32(b, cur);
        if osd < maxOsd {
          osdState[osd] := ClearUp(osdState[osd]);
          downs := downs + [osdAddr[osd]];
        }
        cur, left := cur + 5, left - 1;
      }
      return Ok(cur), downs;
    }

    /** The new_weight loop (lines 533-544). */
    method SetWeights(b: seq<u8>, pos: nat, n: u32) returns (status: Result<nat>)
      requires Valid()
      modifies osdWeight
      ensures Valid()
      ensures var s := Weights(b, pos, n, old(Value())); status == s.status && Value() == s.after
    {
      ghost var m0 := Value();
      var cur: nat, left: nat := pos, n;
      while left > 0
        invariant Valid() && Weights(b, cur, left, Value()) == Weights(b, pos, n, m0)
        decreases left
      {
        if cur + 8 > |b| {
          return Err(Inval);
        }
        var osd := Le32(b, cur);
        if osd < maxOsd {
          osdWeight[osd] := Le32(b, cur + 4);
        }
        cur, left := cur + 8, left - 1;
      }
      return Ok(cur);
    }

    /** The three change lists (lines 505-544). */
    method ApplyChangeLists(b: seq<u8>, t: nat) returns (status: Result<Outcome>, downs: seq<Addr>)
      requires Valid()
      modifies osdState, osdWeight, osdAddr
      ensures Valid()
      ensures var s := ApplyLists(b, t, old(Value()));
        status == s.result && Value() == s.after && downs == s.downs
    {
      if t + 4 > |b| {
        return Err(Inval), [];
      }
      var u := MarkUp(b, t + 4, Le32(b, t));
      if u.Err? {
        return Err(u.error), [];
      }
      var d0 := u.value;
      if d0 + 4 > |b| {
        return Err(Inval), [];
      }
      var d;
      d, downs := MarkDown(b, d0 + 4, Le32(b, d0));
      if d.Err? {
        return Err(d.error), downs;
      }
      var w0 := d.value;
      if w0 + 4 > |b| {
        return Err(Inval), downs;
      }
      var w := SetWeights(b, w0 + 4, Le32(b, w0));
      status := if w.Err? then Err(w.error) else Ok(InPlace);
    }

    /** Lines 483-494: each count given as nonzero replaces the current one. */
    method SetCounts(n: u32, np: u32, ln: u32, lnp: u32)
      requires Valid()
      modifies this`pgNum, this`pgpNum, this`lpgNum, this`lpgpNum
      ensures Valid()
      ensures Value() == old(Value()).(pgNum := Override(n, old(pgNum)), pgpNum := Override(np, old(pgpNum)),
                                       lpgNum := Override(ln, old(lpgNum)), lpgpNum := Override(lnp, old(lpgpNum)))
    {
      pgNum, pgpNum, lpgNum, lpgpNum := Override(n, pgNum), Override(np, pgpNum), Override(ln, lpgNum), Override(lnp, lpgpNum);
    }

    /** Lines 496-503: the next epoch, and the new CRUSH map when there is one. */
    method NextEpoch(newCrush: Option<CrushMap>)
      requires Valid()
      modifies this`epoch, this`crush
      ensures Valid()
      ensures Value() == old(Value()).(epoch := (old(epoch) + 1) % TWO32,
                                       crush := if newCrush.Some? then newCrush else old(crush))
    {
      epoch := (epoch + 1) % TWO32;
      crush := if newCrush.Some? then newCrush else crush;
    }

    /** Lines 483-503: the counts, the epoch and the CRUSH map. */
    method UpdateCounts(b: seq<u8>, t: nat, newCrush: Option<CrushMap>)
      requires Valid() && t + 20 <= |b|
      modifies this`pgNum, this`pgpNum, this`lpgNum, this`lpgpNum, this`epoch, this`crush
      ensures Valid() && Value() == BlockUpdate(b, t, newCrush, old(Value()))
    {
      SetCounts(Le32(b, t + 4), Le32(b, t + 8), Le32(b, t + 12), Le32(b, t + 16));
      NextEpoch(newCrush);
    }

    /** Lines 476-544 once the new CRUSH map, if any, is decoded. */
    method ApplyDiffBlock(b: seq<u8>, t: nat, newFlags: s32, newCrush: Option<CrushMap>, allocOk: bool)
      returns (status: Result<Outcome>, downs: seq<Addr>)
      requires Valid()
      modifies this, osdState, osdWeight, osdAddr
      ensures Valid()
      ensures var s := ApplyBlock(b, t, newFlags, newCrush, old(Value()), allocOk);
        status == s.result && Value() == s.after && downs == s.downs
    {
      if newFlags >= 0 {
        flags := newFlags;
      }
      if t + 20 > |b| {
        return Err(Inval), [];
      }
      var max := ToS32(Le32(b, t));
      if max >= 0 {
        var e := SetMaxOsd(max, allocOk);
        if e.Err? {
          return Err(NoMem), [];
        }
      }
      UpdateCounts(b, t, newCrush);
      status, downs := ApplyChangeLists(b, t + 20);
    }

    /** Lines 460-544 given what the CRUSH section decodes to. */
    method ApplyDiffWith(b: seq<u8>, q: nat, newFlags: s32, blob: Result<CrushMap>, allocOk: bool)
      returns (status: Result<Outcome>, downs: seq<Addr>)
      requires Valid() && q + 4 <= |b|
      modifies this, osdState, osdWeight, osdAddr
      ensures Valid()
      ensures var s := ApplyDiff(b, q, newFlags, blob, old(Value()), allocOk, true);
        status == s.result && Value() == s.after && downs == s.downs
    {
      ghost var m := Value();
      var len := Le32(b, q);
      if len > 0 && blob.Err? {
        return Err(blob.error), [];
      }
      var newCrush := if len > 0 then Some(blob.value) else None;
      assert ApplyDiff(b, q, newFlags, blob, m, allocOk, true) == ApplyBlock(b, q + 4 + len, newFlags, newCrush, m, allocOk);
      status, downs := ApplyDiffBlock(b, q + 4 + len, newFlags, newCrush, allocOk);
    }

    /** Lines 460-544: an incremental that carries no full map. */
    method ApplyDiffInPlace(b: seq<u8>, q: nat, newFlags: s32, allocOk: bool)
      returns (status: Result<Outcome>, downs: seq<Addr>)
      requires Valid()
      modifies this, osdState, osdWeight, osdAddr
      ensures Valid()
      ensures var s := ApplyDiff(b, q, newFlags, DiffBlob(b, q), old(Value()), allocOk, true);
        status == s.result && Value() == s.after && downs == s.downs
    {
      if q + 4 > |b| {
        return Err(Inval), [];
      }
      var len := Le32(b, q);
      var blob: Result<CrushMap> := Err(Inval);
      if len > 0 {
        blob := CrushDecoder.DecodeCrush(b[..Min(q + 4 + len, |b|)], q + 4);
      }
      assert blob == DiffBlob(b, q);
      status, downs := ApplyDiffWith(b, q, newFlags, blob, allocOk);
    }

    /** Lines 452-457: the incremental carries a whole new map. */
    static method DecodeFullMap(b: seq<u8>, p: nat, allocOk: bool) returns (r: Result<OsdMap>)
      requires p + 36 <= |b|
      ensures r.Ok? <==> FullMap(b, p, allocOk).Ok?
      ensures r.Err? ==> r.error == FullMap(b, p, allocOk).error
      ensures r.Ok? ==> fresh(r.value) && r.value.Valid() && r.value.Value() == FullMap(b, p, allocOk).value
    {
      var bb := b[..Min(p + 36 + Le32(b, p + 32), |b|)];
      assert FullMap(b, p, allocOk) == ParseOsdMap(bb, p + 36, allocOk);
      r := Decode(bb, p + 36, allocOk);
    }

    /** Lines 451-553: the full map, or the diff applied to this map. */
    method ApplyPayloadInPlace(b: seq<u8>, p: nat, allocOk: bool) returns (r: Result<OsdMap>, downs: seq<Addr>)
      requires Valid() && p + 36 <= |b|
      modifies this, osdState, osdWeight, osdAddr
      ensures Valid()
      ensures var s := ApplyPayload(b, p, old(Value()), allocOk);
        && Value() == s.after && downs == s.downs
        && (r.Ok? <==> s.result.Ok?)
        && (r.Err? ==> r.error == s.result.error)
        && (s.result == Ok(InPlace) ==> r == Ok(this))
        && (s.result.Ok? && s.result.value.Replaced? ==>
              r.Ok? && fresh(r.value) && r.value.Valid() && r.value.Value() == s.result.value.newMap)
    {
      ghost var m := Value();
      var len := Le32(b, p + 32);
      if len > 0 {
        r := DecodeFullMap(b, p, allocOk);
        return r, [];
      }
      var newFlags := ToS32(Le32(b, p + 28));
      assert ApplyPayload(b, p, m, allocOk) == ApplyDiff(b, p + 36, newFlags, DiffBlob(b, p + 36), m, allocOk, true);
      var status;
      status, downs := ApplyDiffInPlace(b, p + 36, newFlags, allocOk);
      r := if status.Ok? then Ok(this) else Err(status.error);
    }

    /**
     * apply_incremental (lines 424-556): this map updated in place, a newly
     * decoded full map, or the error; `downs` are the addresses handed to
     * the messenger to mark down.
     */
    method ApplyIncremental(b: seq<u8>, p: nat, allocOk: bool) returns (r: Result<OsdMap>, downs: seq<Addr>)
      requires Valid()
      modifies this, osdState, osdWeight, osdAddr
      ensures Valid()
      ensures var s := ApplySpec(b, p, old(Value()), allocOk);
        && Value() == s.after && downs == s.downs
        && (r.Ok? <==> s.result.Ok?)
        && (r.Err? ==> r.error == s.result.error)
        && (s.result == Ok(InPlace) ==> r == Ok(this))
        && (s.result.Ok? && s.result.value.Replaced? ==>
              r.Ok? && fresh(r.value) && r.value.Valid() && r.value.Value() == s.result.value.newMap)
    {
      ghost var m := Value();
      if p + 32 > |b| {
        assert ApplySpec(b, p, m, allocOk) == Applied(Err(Inval), m, []);
        return Err(Inval), [];
      }
      if Le32(b, p + 16) != (epoch + 1) % TWO32 {
        assert ApplySpec(b, p, m, allocOk) == Applied(Err(Bug), m, []);
        return Err(Bug), [];
      }
      if p + 36 > |b| {
        assert ApplySpec(b, p, m, allocOk) == Applied(Err(Inval), m, []);
        return Err(Inval), [];
      }
      assert ApplySpec(b, p, m, allocOk) == ApplyPayload(b, p, m, allocOk);
      r, downs := ApplyPayloadInPlace(b, p, allocOk);
    }
  }
}
