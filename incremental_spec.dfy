/**
 * The function that specifies `apply_incremental`
 * (src/kernel/osdmap.c:424-556): the header, a full map or a diff, and the
 * three change lists.  The caller's map is changed in place as the diff is
 * read, so the specification returns the map as it stands when the call
 * returns, whether it succeeded or not.
 */
module IncrementalSpec {
  import opened Wire
  import opened Crush
  import opened OsdMapSpec

  /** The map the call hands back: the caller's own, updated, or a freshly decoded one. */
  datatype Outcome = InPlace | Replaced(newMap: MapValue)

  /** The returned value, the caller's map afterwards, and the addresses marked down, in order. */
  datatype Applied = Applied(result: Result<Outcome>, after: MapValue, downs: seq<Addr>)

  /** How far one change-list loop got: the cursor or the error, the map, the events so far. */
  datatype Progress = Progress(status: Result<nat>, after: MapValue, downs: seq<Addr>)

  function Min(a: nat, b: nat): nat {
    if a <= b then a else b
  }

  // --------------------------------------------------------- new_up

  /** The new_up loop (lines 506-517): osd, address; an osd beyond `max_osd` is a BUG. */
  function Ups(b: seq<u8>, pos: nat, n: nat, m: MapValue): (r: Progress)
    requires Shaped(m)
    ensures Shaped(r.after) && |r.after.state| == |m.state|
    decreases n
  {
    if n == 0 then Progress(Ok(pos), m, [])
    else if pos + 4 > |b| || pos + 4 + ADDR_LEN > |b| then Progress(Err(Inval), m, [])
    else
      var osd := Le32(b, pos);
      if osd >= |m.state| then Progress(Err(Bug), m, [])
      else
        Ups(b, pos + 4 + ADDR_LEN, n - 1,
            m.(state := m.state[osd := SetUp(m.state[osd])], addr := m.addr[osd := b[pos + 4..pos + 4 + ADDR_LEN]]))
  }

  /** `i` is named by one of the `n` entries of an up list at `pos`. */
  predicate UpListed(b: seq<u8>, pos: nat, n: nat, i: nat)
    decreases n
  {
    n > 0 && pos + 4 <= |b| && (Le32(b, pos) == i || UpListed(b, pos + 4 + ADDR_LEN, n - 1, i))
  }

  /** The address carried by the last entry of an up list that names `i`. */
  function LastUpAddr(b: seq<u8>, pos: nat, n: nat, i: nat): seq<u8>
    requires UpListed(b, pos, n, i)
    decreases n
  {
    if UpListed(b, pos + 4 + ADDR_LEN, n - 1, i) then LastUpAddr(b, pos + 4 + ADDR_LEN, n - 1, i)
    else b[pos + 4..Min(pos + 4 + ADDR_LEN, |b|)]
  }

  /**
   * A complete up list marks exactly the listed OSDs up, changes neither
   * the other bits of any state byte nor any unlisted OSD, gives each
   * listed OSD the address of its last entry, names only OSDs below
   * `max_osd`, and touches nothing but the state and address arrays.
   */
  lemma {:induction false} UpsEffect(b: seq<u8>, pos: nat, n: nat, m: MapValue)
    requires Shaped(m) && Ups(b, pos, n, m).status.Ok?
    ensures var r := Ups(b, pos, n, m).after;
      && Shaped(r) && |r.state| == |m.state|
      && r.(state := m.state, addr := m.addr) == m
      && (forall i :: 0 <= i < |m.state| ==> (IsUp(r.state[i]) <==> IsUp(m.state[i]) || UpListed(b, pos, n, i)))
      && (forall i :: 0 <= i < |m.state| ==> OtherBits(r.state[i]) == OtherBits(m.state[i]))
      && (forall i :: 0 <= i < |m.state| && !UpListed(b, pos, n, i) ==> r.state[i] == m.state[i] && r.addr[i] == m.addr[i])
      && (forall i :: 0 <= i < |m.state| && UpListed(b, pos, n, i) ==> r.addr[i] == LastUpAddr(b, pos, n, i))
      && (forall i: nat :: UpListed(b, pos, n, i) ==> i < |m.state|)
    ensures Ups(b, pos, n, m).downs == []
    decreases n
  {
    if n > 0 {
      var osd := Le32(b, pos);
      var m1 := m.(state := m.state[osd := SetUp(m.state[osd])], addr := m.addr[osd := b[pos + 4..pos + 4 + ADDR_LEN]]);
      UpBits(m.state[osd]);
      UpsEffect(b, pos + 4 + ADDR_LEN, n - 1, m1);
    }
  }

  /** Any failure of the up loop leaves the map shaped and touches only the state and address arrays. */
  lemma {:induction false} UpsFrame(b: seq<u8>, pos: nat, n: nat, m: MapValue)
    requires Shaped(m)
    ensures var r := Ups(b, pos, n, m).after;
      Shaped(r) && |r.state| == |m.state| && r.(state := m.state, addr := m.addr) == m
    ensures Ups(b, pos, n, m).downs == []
    decreases n
  {
    if n > 0 && pos + 4 + ADDR_LEN <= |b| && Le32(b, pos) < |m.state| {
      var osd := Le32(b, pos);
      UpsFrame(b, pos + 4 + ADDR_LEN, n - 1,
               m.(state := m.state[osd := SetUp(m.state[osd])], addr := m.addr[osd := b[pos + 4..pos + 4 + ADDR_LEN]]));
    }
  }

  // ------------------------------------------------------- new_down

  /**
   * The new_down loop (lines 520-530): osd, then one flag byte skipped
   * without a check.  An osd below `max_osd` loses its UP bit and its
   * address is marked down; any other osd is skipped.  `acc` holds the
   * addresses marked down so far.
   */
  function Downs(b: seq<u8>, pos: nat, n: nat, m: MapValue, acc: seq<Addr>): (r: Progress)
    requires Shaped(m)
    ensures Shaped(r.after) && |r.after.state| == |m.state|
    decreases n
  {
    if n == 0 then Progress(Ok(pos), m, acc)
    else if pos + 4 > |b| then Progress(Err(Inval), m, acc)
    else
      var osd := Le32(b, pos);
      if osd < |m.state| then
        Downs(b, pos + 5, n - 1, m.(state := m.state[osd := ClearUp(m.state[osd])]), acc + [m.addr[osd]])
      else
        Downs(b, pos + 5, n - 1, m, acc)
  }

  predicate DownListed(b: seq<u8>, pos: nat, n: nat, i: nat)
    decreases n
  {
    n > 0 && pos + 4 <= |b| && (Le32(b, pos) == i || DownListed(b, pos + 5, n - 1, i))
  }

  /** The addresses of the listed OSDs below `max_osd`, in list order. */
  function DownEvents(b: seq<u8>, pos: nat, n: nat, addr: seq<Addr>): seq<Addr>
    decreases n
  {
    if n == 0 || pos + 4 > |b| then []
    else (if Le32(b, pos) < |addr| then [addr[Le32(b, pos)]] else []) + DownEvents(b, pos + 5, n - 1, addr)
  }

  /**
   * The down loop clears the UP bit of exactly the listed OSDs below
   * `max_osd` and no other bit, skips the rest, changes nothing but the
   * state array, and marks down their addresses in order -- also when it
   * stops early.
   */
  lemma {:induction false} DownsEffect(b: seq<u8>, pos: nat, n: nat, m: MapValue, acc: seq<Addr>)
    requires Shaped(m)
    ensures var r := Downs(b, pos, n, m, acc);
      && Shaped(r.after) && |r.after.state| == |m.state| && r.after.(state := m.state) == m
      && r.downs == acc + DownEvents(b, pos, n, m.addr)
    ensures var r := Downs(b, pos, n, m, acc).after;
      Downs(b, pos, n, m, acc).status.Ok? ==>
      && (forall i :: 0 <= i < |m.state| ==> (IsUp(r.state[i]) <==> IsUp(m.state[i]) && !DownListed(b, pos, n, i)))
      && (forall i :: 0 <= i < |m.state| ==> OtherBits(r.state[i]) == OtherBits(m.state[i]))
      && (forall i :: 0 <= i < |m.state| && !DownListed(b, pos, n, i) ==> r.state[i] == m.state[i])
    decreases n
  {
    if n > 0 && pos + 4 <= |b| {
      var osd := Le32(b, pos);
      if osd < |m.state| {
        var m1 := m.(state := m.state[osd := ClearUp(m.state[osd])]);
        UpBits(m.state[osd]);
        DownsEffect(b, pos + 5, n - 1, m1, acc + [m.addr[osd]]);
        assert m1.addr == m.addr;
      } else {
        DownsEffect(b, pos + 5, n - 1, m, acc);
      }
    }
  }

  // ----------------------------------------------------- new_weight

  /** The new_weight loop (lines 533-544): osd, weight; out-of-range entries are skipped. */
  function Weights(b: seq<u8>, pos: nat, n: nat, m: MapValue): (r: Progress)
    ensures r.after.(weight := m.weight) == m && |r.after.weight| == |m.weight|
    ensures r.downs == []
    decreases n
  {
    if n == 0 then Progress(Ok(pos), m, [])
    else if pos + 8 > |b| then Progress(Err(Inval), m, [])
    else
      var osd := Le32(b, pos);
      Weights(b, pos + 8, n - 1, if osd < |m.weight| then m.(weight := m.weight[osd := Le32(b, pos + 4)]) else m)
  }

  predicate WeightListed(b: seq<u8>, pos: nat, n: nat, i: nat)
    decreases n
  {
    n > 0 && pos + 8 <= |b| && (Le32(b, pos) == i || WeightListed(b, pos + 8, n - 1, i))
  }

  /** The weight carried by the last entry of a weight list that names `i`. */
  function LastWeight(b: seq<u8>, pos: nat, n: nat, i: nat): u32
    requires WeightListed(b, pos, n, i)
    decreases n
  {
    if WeightListed(b, pos + 8, n - 1, i) then LastWeight(b, pos + 8, n - 1, i) else Le32(b, pos + 4)
  }

  /**
   * The weight loop changes only the weights of listed OSDs, and each
   * listed OSD below `max_osd` gets the weight of its last entry -- also
   * when the loop stops early, since it stops only at an entry cut short.
   */
  lemma {:induction false} WeightsEffect(b: seq<u8>, pos: nat, n: nat, m: MapValue)
    requires Shaped(m)
    ensures var r := Weights(b, pos, n, m).after;
      && Shaped(r) && r.(weight := m.weight) == m
      && (forall i :: 0 <= i < |m.weight| && !WeightListed(b, pos, n, i) ==> r.weight[i] == m.weight[i])
      && (forall i :: 0 <= i < |m.weight| && WeightListed(b, pos, n, i) ==> r.weight[i] == LastWeight(b, pos, n, i))
    decreases n
  {
    if n > 0 && pos + 8 <= |b| {
      var osd := Le32(b, pos);
      var m1 := if osd < |m.weight| then m.(weight := m.weight[osd := Le32(b, pos + 4)]) else m;
      WeightsEffect(b, pos + 8, n - 1, m1);
    }
  }

  // ----------------------------------------------------------- the diff

  /** The three change lists from `t`, each behind its 32-bit count. */
  function ApplyLists(b: seq<u8>, t: nat, m: MapValue): (r: Applied)
    requires Shaped(m)
    ensures r.result.Ok? ==> r.result == Ok(InPlace)
  {
    if t + 4 > |b| then Applied(Err(Inval), m, [])
    else
      var u := Ups(b, t + 4, Le32(b, t), m);
      if u.status.Err? then Applied(Err(u.status.error), u.after, [])
      else
        var d0 := u.status.value;
        if d0 + 4 > |b| then Applied(Err(Inval), u.after, [])
        else
          var d := Downs(b, d0 + 4, Le32(b, d0), u.after, []);
          if d.status.Err? then Applied(Err(d.status.error), d.after, d.downs)
          else
            var w0 := d.status.value;
            if w0 + 4 > |b| then Applied(Err(Inval), d.after, d.downs)
            else
              var w := Weights(b, w0 + 4, Le32(b, w0), d.after);
              Applied(if w.status.Err? then Err(w.status.error) else Ok(InPlace), w.after, d.downs)
  }

  /** The four placement-group counts at `t + 4`, each replacing the map's when nonzero. */
  function Override(x: u32, current: u32): u32 {
    if x != 0 then x else current
  }

  /**
   * Lines 482-503 after the resize: each of the four counts at `t + 4`
   * replaces the map's when nonzero, the epoch goes up by one, and a newly
   * decoded CRUSH map replaces the old one.
   */
  function BlockUpdate(b: seq<u8>, t: nat, newCrush: Option<CrushMap>, m: MapValue): (r: MapValue)
    requires t + 20 <= |b|
    ensures r.(pgNum := m.pgNum, pgpNum := m.pgpNum, lpgNum := m.lpgNum, lpgpNum := m.lpgpNum,
               epoch := m.epoch, crush := m.crush) == m
    ensures r.epoch != m.epoch
    ensures m.pgNum != 0 ==> r.pgNum != 0
    ensures m.crush.Some? || newCrush.Some? ==> r.crush.Some?
  {
    m.(pgNum := Override(Le32(b, t + 4), m.pgNum),
       pgpNum := Override(Le32(b, t + 8), m.pgpNum),
       lpgNum := Override(Le32(b, t + 12), m.lpgNum),
       lpgpNum := Override(Le32(b, t + 16), m.lpgpNum),
       epoch := (m.epoch + 1) % TWO32,
       crush := if newCrush.Some? then newCrush else m.crush)
  }

  /**
   * Lines 460-544 once the new CRUSH blob is decoded: flags, then a need
   * check for the 20-byte block (max and the four counts), the resize, the
   * counts, the epoch, the CRUSH map, and the change lists.  The masks are
   * not recomputed.
   */
  function ApplyBlock(b: seq<u8>, t: nat, newFlags: s32, newCrush: Option<CrushMap>, m: MapValue, allocOk: bool): (r: Applied)
    requires Shaped(m)
    ensures r.result.Ok? ==> r.result == Ok(InPlace)
  {
    var m1 := if newFlags >= 0 then m.(flags := newFlags) else m;
    if t + 20 > |b| then Applied(Err(Inval), m1, [])
    else
      var max := ToS32(Le32(b, t));
      if max >= 0 && Resize(m1, max, allocOk).Err? then Applied(Err(NoMem), m1, [])
      else
        var m2 := if max >= 0 then Resize(m1, max, allocOk).value else m1;
        ApplyLists(b, t + 20, BlockUpdate(b, t, newCrush, m2))
  }

  /**
   * Where the block after the CRUSH section starts.  `c` is the start of
   * the blob and `len` its length.  With `advance` false this is the code
   * as written, which never moves the cursor past the blob.
   */
  function BlockStart(c: nat, len: nat, advance: bool): nat {
    if advance then c + len else c
  }

  /**
   * What `crush_decode` gives for the CRUSH section of a diff at `q`
   * (lines 461-468): the blob decoded from its own bytes, after the length
   * word.  Only consulted when that length is nonzero.
   */
  function DiffBlob(b: seq<u8>, q: nat): (r: Result<CrushMap>)
    ensures r.Err? ==> r.error == Inval
    ensures r.Ok? ==> q + 4 <= |b| && Le32(b, q) > 0 && ValidShape(r.value)
  {
    if q + 4 > |b| || Le32(b, q) == 0 then Err(Inval)
    else ParseCrush(b[..Min(q + 4 + Le32(b, q), |b|)], q + 4)
  }

  /**
   * The diff part of an incremental (lines 461-553), from the CRUSH
   * section's length word at `q`, given what the blob decodes to.  A
   * decode error returns before anything changes.
   */
  function ApplyDiff(b: seq<u8>, q: nat, newFlags: s32, blob: Result<CrushMap>, m: MapValue, allocOk: bool, advance: bool): (r: Applied)
    requires Shaped(m)
    ensures r.result.Ok? ==> r.result == Ok(InPlace)
  {
    if q + 4 > |b| then Applied(Err(Inval), m, [])
    else
      var len := Le32(b, q);
      if len > 0 && blob.Err? then Applied(Err(blob.error), m, [])
      else ApplyBlock(b, BlockStart(q + 4, len, advance), newFlags, if len > 0 then Some(blob.value) else None, m, allocOk)
  }

  /** The full map an incremental carries at `p + 36`, decoded from its own bytes. */
  function FullMap(b: seq<u8>, p: nat, allocOk: bool): (r: Result<MapValue>)
    requires p + 36 <= |b|
    ensures r.Ok? ==> Shaped(r.value) && r.value.crush.Some? && p + 100 <= |b|
    ensures r.Err? ==> r.error == Inval || r.error == NoMem
  {
    ParseOsdMapErrors(b[..Min(p + 36 + Le32(b, p + 32), |b|)], p + 36, allocOk);
    ParseOsdMap(b[..Min(p + 36 + Le32(b, p + 32), |b|)], p + 36, allocOk)
  }

  /**
   * apply_incremental: the 32-byte header, then either a full map, which
   * is decoded from the bytes of its own section and returned in place of
   * the caller's (left untouched), or a diff applied to the caller's map.
   * An epoch other than the map's plus one is a BUG.
   */
  function ApplySpec(b: seq<u8>, p: nat, m: MapValue, allocOk: bool): (r: Applied)
    requires Shaped(m)
    ensures r.result.Ok? ==> p + 36 <= |b| && Le32(b, p + 16) == (m.epoch + 1) % TWO32
    ensures r.result.Ok? && r.result.value.Replaced? ==> r.after == m && r.downs == []
  {
    if p + 32 > |b| then Applied(Err(Inval), m, [])
    else if Le32(b, p + 16) != (m.epoch + 1) % TWO32 then Applied(Err(Bug), m, [])
    else if p + 36 > |b| then Applied(Err(Inval), m, [])
    else ApplyPayload(b, p, m, allocOk)
  }

  /** apply_incremental after its header (lines 451-553): a full map, or a diff. */
  function ApplyPayload(b: seq<u8>, p: nat, m: MapValue, allocOk: bool): (r: Applied)
    requires Shaped(m) && p + 36 <= |b|
    ensures Le32(b, p + 32) > 0 ==> r.after == m && r.downs == []
    ensures r.result.Ok? ==> (r.result.value.Replaced? <==> Le32(b, p + 32) > 0)
  {
    var len := Le32(b, p + 32);
    if len > 0 then
      var full := FullMap(b, p, allocOk);
      Applied(if full.Ok? then Ok(Replaced(full.value)) else Err(full.error), m, [])
    else
      ApplyDiff(b, p + 36, ToS32(Le32(b, p + 28)), DiffBlob(b, p + 36), m, allocOk, true)
  }

  // ------------------------------------------------------------ lemmas

  /** The change lists keep the map shaped and change only the per-OSD arrays. */
  lemma ListsFrame(b: seq<u8>, t: nat, m: MapValue)
    requires Shaped(m)
    ensures var r := ApplyLists(b, t, m);
      Shaped(r.after) && |r.after.state| == |m.state|
      && r.after.(state := m.state, weight := m.weight, addr := m.addr) == m
  {
    if t + 4 <= |b| {
      var u := Ups(b, t + 4, Le32(b, t), m);
      UpsFrame(b, t + 4, Le32(b, t), m);
      if u.status.Ok? && u.status.value + 4 <= |b| {
        var d0 := u.status.value;
        var d := Downs(b, d0 + 4, Le32(b, d0), u.after, []);
        DownsEffect(b, d0 + 4, Le32(b, d0), u.after, []);
        if d.status.Ok? && d.status.value + 4 <= |b| {
          WeightsEffect(b, d.status.value + 4, Le32(b, d.status.value), d.after);
        }
      }
    }
  }

  /**
   * The header rules: a short header is -EINVAL and a wrong epoch a BUG,
   * both with the map untouched.
   */
  lemma ApplyHeader(b: seq<u8>, p: nat, m: MapValue, allocOk: bool)
    requires Shaped(m)
    ensures p + 32 > |b| ==> ApplySpec(b, p, m, allocOk) == Applied(Err(Inval), m, [])
    ensures p + 32 <= |b| && Le32(b, p + 16) != (m.epoch + 1) % TWO32 ==>
      ApplySpec(b, p, m, allocOk) == Applied(Err(Bug), m, [])
  {
  }

  /** A full map is the decode of its own section, and the caller's map stays untouched. */
  lemma ApplyFullMap(b: seq<u8>, p: nat, m: MapValue, allocOk: bool)
    requires Shaped(m)
    ensures p + 36 <= |b| && Le32(b, p + 16) == (m.epoch + 1) % TWO32 && Le32(b, p + 32) > 0 ==>
      var full := FullMap(b, p, allocOk);
      && ApplySpec(b, p, m, allocOk).after == m
      && (full.Ok? <==> ApplySpec(b, p, m, allocOk).result.Ok?)
      && (full.Ok? ==> ApplySpec(b, p, m, allocOk).result == Ok(Replaced(full.value)))
  {
  }

  /**
   * A block that applies: the epoch goes up by exactly one, the flags are
   * replaced only by a non-negative value, `max_osd` only by a
   * non-negative max, each count only by a nonzero one, the CRUSH map only
   * by a newly decoded one; the identity, times and masks stay, and the
   * map stays shaped.
   */
  lemma ApplyBlockFields(b: seq<u8>, t: nat, newFlags: s32, newCrush: Option<CrushMap>, m: MapValue, allocOk: bool)
    requires Shaped(m) && ApplyBlock(b, t, newFlags, newCrush, m, allocOk).result.Ok?
    ensures var r := ApplyBlock(b, t, newFlags, newCrush, m, allocOk);
      && t + 20 <= |b| && r.result == Ok(InPlace) && Shaped(r.after)
      && |r.after.state| == (if ToS32(Le32(b, t)) >= 0 then ToS32(Le32(b, t)) else |m.state|)
      && r.after.epoch == (m.epoch + 1) % TWO32
      && r.after.flags == (if newFlags >= 0 then newFlags else m.flags)
      && r.after.pgNum == Override(Le32(b, t + 4), m.pgNum)
      && r.after.pgpNum == Override(Le32(b, t + 8), m.pgpNum)
      && r.after.lpgNum == Override(Le32(b, t + 12), m.lpgNum)
      && r.after.lpgpNum == Override(Le32(b, t + 16), m.lpgpNum)
      && r.after.crush == (if newCrush.Some? then newCrush else m.crush)
      && r.after.fsid == m.fsid && r.after.ctime == m.ctime && r.after.mtime == m.mtime
      && r.after.lastPgChange == m.lastPgChange
      && r.after.pgNumMask == m.pgNumMask && r.after.pgpNumMask == m.pgpNumMask
      && r.after.lpgNumMask == m.lpgNumMask && r.after.lpgpNumMask == m.lpgpNumMask
  {
    var m1 := if newFlags >= 0 then m.(flags := newFlags) else m;
    var max := ToS32(Le32(b, t));
    var m2 := if max >= 0 then Resize(m1, max, allocOk).value else m1;
    ResizeSpec(m1, if max >= 0 then max else 0, allocOk);
    var m3 := BlockUpdate(b, t, newCrush, m2);
    ListsFrame(b, t + 20, m3);
  }

  /** A diff that applies is a block that applies, read right after the CRUSH section. */
  lemma DiffIsBlock(b: seq<u8>, q: nat, newFlags: s32, blob: Result<CrushMap>, m: MapValue, allocOk: bool)
    requires Shaped(m) && ApplyDiff(b, q, newFlags, blob, m, allocOk, true).result.Ok?
    ensures q + 4 <= |b|
    ensures Le32(b, q) > 0 ==> blob.Ok?
    ensures var len := Le32(b, q);
      ApplyDiff(b, q, newFlags, blob, m, allocOk, true)
        == ApplyBlock(b, q + 4 + len, newFlags, if len > 0 then Some(blob.value) else None, m, allocOk)
  {
  }

  /**
   * Not atomic: a diff whose 20-byte block is cut short fails with
   * -EINVAL, but the new flags are already in the caller's map.
   */
  lemma ApplyNotAtomic(b: seq<u8>, q: nat, newFlags: s32, blob: Result<CrushMap>, m: MapValue, allocOk: bool)
    requires Shaped(m) && q + 8 <= |b| && Le32(b, q) == 0 && q + 24 > |b| && newFlags >= 0
    ensures ApplyDiff(b, q, newFlags, blob, m, allocOk, true) == Applied(Err(Inval), m.(flags := newFlags), [])
  {
  }

  /** A blob that decodes starts with the CRUSH magic, right after the length word. */
  lemma DiffBlobMagic(b: seq<u8>, q: nat)
    requires DiffBlob(b, q).Ok?
    ensures q + 8 <= |b| && Le32(b, q + 4) == CRUSH_MAGIC
  {
    var bb := b[..Min(q + 4 + Le32(b, q), |b|)];
    assert Le32(b, q + 4) == Le32(bb, q + 4);
  }

  /**
   * The code as written reads the 20-byte block from the start of the CRUSH
   * blob instead of after it: whenever a diff that carries a CRUSH map
   * applies, the blob's magic 0x00010000 has become the new `max_osd`.
   */
  lemma CrushCursorNotAdvanced(b: seq<u8>, q: nat, newFlags: s32, m: MapValue, allocOk: bool)
    requires Shaped(m) && q + 4 <= |b| && Le32(b, q) > 0
    requires ApplyDiff(b, q, newFlags, DiffBlob(b, q), m, allocOk, false).result.Ok?
    ensures |ApplyDiff(b, q, newFlags, DiffBlob(b, q), m, allocOk, false).after.state| == CRUSH_MAGIC
  {
    var blob := DiffBlob(b, q);
    DiffBlobMagic(b, q);
    BlockSize(b, q + 4, newFlags, Some(blob.value), m, allocOk);
  }

  /**
   * Advancing past the blob reads `max_osd` from the word that follows
   * it: a non-negative value is the new size, -1 keeps the old one.
   */
  lemma CrushCursorAdvanced(b: seq<u8>, q: nat, newFlags: s32, blob: Result<CrushMap>, m: MapValue, allocOk: bool)
    requires Shaped(m) && q + 4 <= |b| && Le32(b, q) > 0
    requires ApplyDiff(b, q, newFlags, blob, m, allocOk, true).result.Ok?
    ensures var t := q + 4 + Le32(b, q);
      && t + 4 <= |b|
      && |ApplyDiff(b, q, newFlags, blob, m, allocOk, true).after.state|
         == if ToS32(Le32(b, t)) >= 0 then ToS32(Le32(b, t)) else |m.state|
  {
    BlockSize(b, q + 4 + Le32(b, q), newFlags, Some(blob.value), m, allocOk);
  }

  /** The size a block that applies leaves the arrays at: its `max` word when non-negative. */
  lemma BlockSize(b: seq<u8>, t: nat, newFlags: s32, newCrush: Option<CrushMap>, m: MapValue, allocOk: bool)
    requires Shaped(m) && ApplyBlock(b, t, newFlags, newCrush, m, allocOk).result.Ok?
    ensures t + 4 <= |b|
    ensures |ApplyBlock(b, t, newFlags, newCrush, m, allocOk).after.state|
      == if ToS32(Le32(b, t)) >= 0 then ToS32(Le32(b, t)) else |m.state|
  {
    ApplyBlockFields(b, t, newFlags, newCrush, m, allocOk);
  }
}
