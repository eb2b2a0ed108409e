/**
 * The CRUSH topology map as a value, its wire format, and the parser that
 * specifies `crush_decode` (src/kernel/osdmap.c:41-284).
 *
 * `ParseCrush` is the specification; the loop-by-loop decoder in module
 * `CrushDecoder` is proved equal to it.  The encoders give the wire format
 * of one bucket slot and one rule slot, and `AtBucketSlot` / `AtRuleSlot`
 * show that the parser reads back exactly what they wrote.
 */
module Crush {
  import opened Wire

  /** From crush.h (not part of this model): the blob's magic and the four bucket algorithms. */
  const CRUSH_MAGIC: u32 := 0x0001_0000
  const BUCKET_UNIFORM: u32 := 1
  const BUCKET_LIST: u32 := 2
  const BUCKET_TREE: u32 := 3
  const BUCKET_STRAW: u32 := 4

  predicate KnownAlg(tag: int) {
    BUCKET_UNIFORM <= tag <= BUCKET_STRAW
  }

  /**
   * The algorithm-specific part of a bucket, chosen by the 16-bit `alg`
   * field of the bucket header.  `NoPayload` is what a bucket holds when
   * that field names none of the four algorithms: the source reads nothing
   * more for it and reports no error.
   */
  datatype Payload =
    | Uniform(primes: seq<u32>, itemWeight: u32)
    | List(itemWeights: seq<u32>, sumWeights: seq<u32>)
    | Tree(nodeWeights: seq<u32>)
    | Straw(itemWeights: seq<u32>, straws: seq<u32>)
    | NoPayload

  datatype Bucket = Bucket(id: s32, btype: u16, alg: u16, weight: u32, items: seq<s32>, payload: Payload)

  datatype Step = Step(op: u32, arg1: s32, arg2: s32)

  /** `mask` is the four raw bytes (ruleset, type, min size, max size). */
  datatype Rule = Rule(mask: seq<u8>, steps: seq<Step>)

  datatype CrushMap = CrushMap(
    maxBuckets: u32,
    maxRules: u32,
    maxDevices: u32,
    buckets: seq<Option<Bucket>>,
    rules: seq<Option<Rule>>)

  /** Bytes the payload of algorithm `alg` occupies for a bucket of `size` items. */
  function PayloadBytes(alg: int, size: nat): nat {
    if alg == BUCKET_UNIFORM then 4 * (size + 1)
    else if alg == BUCKET_LIST || alg == BUCKET_STRAW then 8 * size
    else if alg == BUCKET_TREE then 4 * size
    else 0
  }

  /** The payload is the variant `alg` selects, with `size` entries per array. */
  predicate PayloadFits(pl: Payload, alg: int, size: nat) {
    if alg == BUCKET_UNIFORM then pl.Uniform? && |pl.primes| == size
    else if alg == BUCKET_LIST then pl.List? && |pl.itemWeights| == size == |pl.sumWeights|
    else if alg == BUCKET_TREE then pl.Tree? && |pl.nodeWeights| == size
    else if alg == BUCKET_STRAW then pl.Straw? && |pl.itemWeights| == size == |pl.straws|
    else pl.NoPayload?
  }

  /** A present bucket carries exactly as many payload entries as items. */
  predicate BucketShaped(bk: Bucket) {
    PayloadFits(bk.payload, bk.alg, |bk.items|)
  }

  function Signed(s: seq<u32>): (r: seq<s32>)
    ensures |r| == |s| && forall i :: 0 <= i < |s| ==> r[i] == ToS32(s[i])
  {
    seq(|s|, i requires 0 <= i < |s| => ToS32(s[i]))
  }

  function Unsigned(s: seq<s32>): (r: seq<u32>)
    ensures |r| == |s| && Signed(r) == s
  {
    seq(|s|, i requires 0 <= i < |s| => FromS32(s[i]))
  }

  // ------------------------------------------------------------- parsing

  /** crush_decode_{uniform,list,tree,straw}_bucket: one need check, then the arrays. */
  function ParsePayload(b: seq<u8>, p: nat, alg: u16, size: u32): (r: Result<(Payload, nat)>)
    requires p <= |b|
    ensures r.Ok? <==> p + PayloadBytes(alg, size) <= |b|
    ensures r.Err? ==> r.error == Inval
    ensures r.Ok? ==> r.value.1 == p + PayloadBytes(alg, size) && PayloadFits(r.value.0, alg, size)
  {
    if alg == BUCKET_UNIFORM then
      if p + 4 * (1 + size) > |b| then Err(Inval)
      else Ok((Uniform(Words(b, p, size), Le32(b, p + 4 * size)), p + 4 * (1 + size)))
    else if alg == BUCKET_LIST then
      if p + 8 * size > |b| then Err(Inval)
      else Ok((List(Firsts(b, p, size), Seconds(b, p, size)), p + 8 * size))
    else if alg == BUCKET_TREE then
      if p + 4 * size > |b| then Err(Inval)
      else Ok((Tree(Words(b, p, size)), p + 4 * size))
    else if alg == BUCKET_STRAW then
      if p + 8 * size > |b| then Err(Inval)
      else Ok((Straw(Firsts(b, p, size), Seconds(b, p, size)), p + 8 * size))
    else
      Ok((NoPayload, p))
  }

  /**
   * One bucket slot (lines 157-235): a 32-bit tag; 0 leaves the slot empty,
   * a tag outside the four algorithms is an error, anything else is followed
   * by a 16-byte header, `size` items and the payload the header's own
   * 16-bit `alg` selects.
   */
  function ParseBucketSlot(b: seq<u8>, p: nat): (r: Result<(Option<Bucket>, nat)>)
    ensures r.Err? ==> r.error == Inval
    ensures r.Ok? ==> p + 4 <= r.value.1 <= |b|
    ensures r.Ok? ==> (r.value.0.None? <==> Le32(b, p) == 0)
    ensures r.Ok? && r.value.0.Some? ==> KnownAlg(Le32(b, p)) && BucketShaped(r.value.0.value)
    ensures r.Ok? && r.value.0.Some? ==>
      p + 20 <= |b| && |r.value.0.value.items| == Le32(b, p + 16) && r.value.0.value.alg == Le16(b, p + 10)
    ensures p + 4 <= |b| && Le32(b, p) != 0 && !KnownAlg(Le32(b, p)) ==> r.Err?
  {
    if p + 4 > |b| then Err(Inval)
    else
      var tag := Le32(b, p);
      if tag == 0 then Ok((None, p + 4))
      else if !KnownAlg(tag) then Err(Inval)
      else if p + 20 > |b| then Err(Inval)
      else
        var size := Le32(b, p + 16);
        if p + 20 + 4 * size > |b| then Err(Inval)
        else
          var alg := Le16(b, p + 10);
          match ParsePayload(b, p + 20 + 4 * size, alg, size)
          case Err(e) => Err(e)
          case Ok((pl, q)) =>
            var bk := Bucket(ToS32(Le32(b, p + 4)), Le16(b, p + 8), alg, Le32(b, p + 12),
                             Signed(Words(b, p + 20, size)), pl);
            Ok((Some(bk), q))
  }

  /** The first `n` bucket slots, in order (the loop at lines 157-235). */
  function ParseBucketSlots(b: seq<u8>, p: nat, n: nat): (r: Result<(seq<Option<Bucket>>, nat)>)
    ensures r.Err? ==> r.error == Inval
    ensures r.Ok? ==> |r.value.0| == n && p <= r.value.1 && (n > 0 ==> r.value.1 <= |b|)
    decreases n
  {
    if n == 0 then Ok(([], p))
    else
      match ParseBucketSlots(b, p, n - 1)
      case Err(e) => Err(e)
      case Ok((slots, q)) =>
        match ParseBucketSlot(b, q)
        case Err(e) => Err(e)
        case Ok((s, q')) => Ok((slots + [s], q'))
  }

  /** `n` rule steps, each an (op, arg1, arg2) triple. */
  function Steps(b: seq<u8>, p: nat, n: nat): (r: seq<Step>)
    requires p + 12 * n <= |b|
    ensures |r| == n
    ensures forall j :: 0 <= j < n ==>
      r[j] == Step(Le32(b, p + 12 * j), ToS32(Le32(b, p + 12 * j + 4)), ToS32(Le32(b, p + 12 * j + 8)))
  {
    seq(n, j requires 0 <= j < n =>
      Step(Le32(b, p + 12 * j), ToS32(Le32(b, p + 12 * j + 4)), ToS32(Le32(b, p + 12 * j + 8))))
  }

  /**
   * One rule slot (lines 239-271): a present flag; 0 leaves the slot empty,
   * otherwise a step count, the 4-byte mask and that many steps.
   */
  function ParseRuleSlot(b: seq<u8>, p: nat): (r: Result<(Option<Rule>, nat)>)
    ensures r.Err? ==> r.error == Inval
    ensures r.Ok? ==> p + 4 <= r.value.1 <= |b|
    ensures r.Ok? ==> (r.value.0.None? <==> Le32(b, p) == 0)
    ensures r.Ok? && r.value.0.Some? ==> p + 12 <= r.value.1
    ensures r.Ok? && r.value.0.Some? ==>
      |r.value.0.value.mask| == 4 && |r.value.0.value.steps| == Le32(b, p + 4)
    ensures r.Ok? && r.value.0.Some? ==> r.value.1 == p + 12 + 12 * |r.value.0.value.steps|
  {
    if p + 4 > |b| then Err(Inval)
    else if Le32(b, p) == 0 then Ok((None, p + 4))
    else if p + 8 > |b| then Err(Inval)
    else
      var len := Le32(b, p + 4);
      if p + 12 > |b| then Err(Inval)
      else if p + 12 + 12 * len > |b| then Err(Inval)
      else Ok((Some(Rule(b[p + 8..p + 12], Steps(b, p + 12, len))), p + 12 + 12 * len))
  }

  /** The first `n` rule slots, in order. */
  function ParseRuleSlots(b: seq<u8>, p: nat, n: nat): (r: Result<(seq<Option<Rule>>, nat)>)
    ensures r.Err? ==> r.error == Inval
    ensures r.Ok? ==> |r.value.0| == n && p <= r.value.1 && (n > 0 ==> r.value.1 <= |b|)
    decreases n
  {
    if n == 0 then Ok(([], p))
    else
      match ParseRuleSlots(b, p, n - 1)
      case Err(e) => Err(e)
      case Ok((slots, q)) =>
        match ParseRuleSlot(b, q)
        case Err(e) => Err(e)
        case Ok((s, q')) => Ok((slots + [s], q'))
  }

  /** The whole blob, with the position just past the last rule (trailing name maps are ignored). */
  function ParseCrushTo(b: seq<u8>, p: nat): (r: Result<(CrushMap, nat)>)
    ensures r.Err? ==> r.error == Inval
  {
    if p + 16 > |b| then Err(Inval)
    else if Le32(b, p) != CRUSH_MAGIC then Err(Inval)
    else
      var maxB, maxR, maxD := Le32(b, p + 4), Le32(b, p + 8), Le32(b, p + 12);
      match ParseBucketSlots(b, p + 16, maxB)
      case Err(e) => Err(e)
      case Ok((buckets, q)) =>
        match ParseRuleSlots(b, q, maxR)
        case Err(e) => Err(e)
        case Ok((rules, q')) => Ok((CrushMap(maxB, maxR, maxD, buckets, rules), q'))
  }

  /** What `crush_decode(b + p, b + |b|)` returns: a map or -EINVAL, never a partial map. */
  function ParseCrush(b: seq<u8>, p: nat): (r: Result<CrushMap>)
    ensures r.Err? ==> r.error == Inval
    ensures p + 16 <= |b| && Le32(b, p) != CRUSH_MAGIC ==> r.Err?
    ensures r.Ok? ==> p + 16 <= |b| && Le32(b, p) == CRUSH_MAGIC
    ensures r.Ok? ==> ValidShape(r.value)
  {
    match ParseCrushTo(b, p)
    case Err(e) => Err(e)
    case Ok((m, _)) => CrushShape(b, p); Ok(m)
  }

  /**
   * What every decoded map satisfies: as many bucket and rule slots as its
   * header announced, every present bucket with one payload entry per item.
   */
  predicate ValidShape(m: CrushMap) {
    && |m.buckets| == m.maxBuckets
    && |m.rules| == m.maxRules
    && (forall i :: 0 <= i < |m.buckets| && m.buckets[i].Some? ==> BucketShaped(m.buckets[i].value))
    && (forall i :: 0 <= i < |m.rules| && m.rules[i].Some? ==> |m.rules[i].value.mask| == 4)
  }

  lemma {:induction false} BucketSlotsShape(b: seq<u8>, p: nat, n: nat)
    requires ParseBucketSlots(b, p, n).Ok?
    ensures var s := ParseBucketSlots(b, p, n).value.0;
      forall i :: 0 <= i < |s| && s[i].Some? ==> BucketShaped(s[i].value)
  {
    if n > 0 {
      BucketSlotsShape(b, p, n - 1);
    }
  }

  lemma {:induction false} RuleSlotsShape(b: seq<u8>, p: nat, n: nat)
    requires ParseRuleSlots(b, p, n).Ok?
    ensures var s := ParseRuleSlots(b, p, n).value.0;
      forall i :: 0 <= i < |s| && s[i].Some? ==> |s[i].value.mask| == 4
  {
    if n > 0 {
      RuleSlotsShape(b, p, n - 1);
    }
  }

  lemma CrushShape(b: seq<u8>, p: nat)
    requires ParseCrushTo(b, p).Ok?
    ensures ValidShape(ParseCrushTo(b, p).value.0)
  {
    var maxB, maxR := Le32(b, p + 4), Le32(b, p + 8);
    BucketSlotsShape(b, p + 16, maxB);
    var q := ParseBucketSlots(b, p + 16, maxB).value.1;
    RuleSlotsShape(b, q, maxR);
  }

  /** A bucket slot that fails stops the loop: no later slot count succeeds. */
  lemma {:induction false} BucketSlotsFailFrom(b: seq<u8>, p: nat, i: nat, n: nat)
    requires i < n && ParseBucketSlots(b, p, i).Ok?
    requires ParseBucketSlot(b, ParseBucketSlots(b, p, i).value.1).Err?
    ensures ParseBucketSlots(b, p, n).Err?
    decreases n
  {
    if n > i + 1 {
      BucketSlotsFailFrom(b, p, i, n - 1);
    }
  }

  /** A rule slot that fails stops the loop: no later slot count succeeds. */
  lemma {:induction false} RuleSlotsFailFrom(b: seq<u8>, p: nat, i: nat, n: nat)
    requires i < n && ParseRuleSlots(b, p, i).Ok?
    requires ParseRuleSlot(b, ParseRuleSlots(b, p, i).value.1).Err?
    ensures ParseRuleSlots(b, p, n).Err?
    decreases n
  {
    if n > i + 1 {
      RuleSlotsFailFrom(b, p, i, n - 1);
    }
  }

  // ---------------------------------------------------------- as written

  /** The slot at `q` got as far as its bucket helper, and the helper failed. */
  predicate PayloadFails(b: seq<u8>, q: nat) {
    && q + 20 <= |b| && KnownAlg(Le32(b, q))
    && q + 20 + 4 * Le32(b, q + 16) <= |b|
    && ParsePayload(b, q + 20 + 4 * Le32(b, q + 16), Le16(b, q + 10), Le32(b, q + 16)).Err?
  }

  /**
   * `crush_decode` keeps one error code, initialised to -EINVAL (line 118)
   * and overwritten only with the result of a bucket helper (lines 211-234),
   * which is 0 when the helper succeeds.  This says whether that code is 0
   * when the bucket loop leaves its first `n` slots, normally or at a
   * failure.
   */
  function ErrCleared(b: seq<u8>, p: nat, n: nat): bool
    decreases n
  {
    if n == 0 then false
    else
      match ParseBucketSlots(b, p, n - 1)
      case Err(_) => ErrCleared(b, p, n - 1)
      case Ok((_, q)) =>
        match ParseBucketSlot(b, q)
        case Ok((Some(bk), _)) => ErrCleared(b, p, n - 1) || KnownAlg(bk.alg)
        case Ok((None, _)) => ErrCleared(b, p, n - 1)
        case Err(_) => ErrCleared(b, p, n - 1) && !PayloadFails(b, q)
  }

  /**
   * `crush_decode` as written: `Ok(Some(m))` on success, `Err(Inval)` on a
   * failure while the error code is still -EINVAL, and `Ok(None)` -- the
   * NULL `ERR_PTR(0)` -- on a failure after the code was cleared.
   * Callers test the result with `IS_ERR`, which is false for null.
   */
  function ParseCrushAsWritten(b: seq<u8>, p: nat): (r: Result<Option<CrushMap>>)
    ensures ParseCrush(b, p).Ok? ==> r == Ok(Some(ParseCrush(b, p).value))
    ensures r.Ok? && r.value.None? ==> ParseCrush(b, p).Err?
    ensures r.Err? ==> r.error == Inval
  {
    match ParseCrush(b, p)
    case Ok(m) => Ok(Some(m))
    case Err(_) =>
      if p + 16 <= |b| && Le32(b, p) == CRUSH_MAGIC && ErrCleared(b, p + 16, Le32(b, p + 4)) then Ok(None)
      else Err(Inval)
  }

  /**
   * A blob announcing one bucket and one rule: an empty tree bucket, then
   * nothing where the rule slot should be.
   */
  function LateErrorBlob(): (b: seq<u8>)
    ensures |b| == 36
  {
    seq(36, i => if i == 2 || i == 4 || i == 8 then 1 else if i == 16 || i == 26 then 3 else 0)
  }

  /**
   * The decode of `LateErrorBlob` fails in the rule table, yet
   * `crush_decode` as written returns null rather than an error.
   */
  lemma CrushNullOnLateError()
    ensures ParseCrush(LateErrorBlob(), 0).Err?
    ensures ParseCrushAsWritten(LateErrorBlob(), 0) == Ok(None)
  {
    var b := LateErrorBlob();
    assert Le32(b, 0) == CRUSH_MAGIC && Le32(b, 4) == 1 && Le32(b, 8) == 1;
    assert Le32(b, 16) == 3 && Le16(b, 26) == BUCKET_TREE && Le32(b, 32) == 0;
    assert ParseBucketSlot(b, 16).Ok? && ParseBucketSlot(b, 16).value.0.Some?;
    assert ParseBucketSlots(b, 16, 1).Ok? && ParseBucketSlots(b, 16, 1).value.1 == 36;
    assert ParseRuleSlot(b, 36).Err?;
    assert ErrCleared(b, 16, 1);
  }

  /**
   * The need check before a rule's steps, as written: `r->len*3*sizeof(u32)`
   * (line 265) multiplies the 32-bit `len` by 3 in 32 bits before widening.
   */
  predicate StepsNeedAsWritten(b: seq<u8>, p: nat): (r: bool)
    requires p + 8 <= |b|
    ensures 3 * Le32(b, p + 4) < TWO32 ==> (r <==> p + 12 + 12 * Le32(b, p + 4) <= |b|)
  {
    p + 12 + 4 * ((3 * Le32(b, p + 4)) % TWO32) <= |b|
  }

  /**
   * A 20-byte rule slot announcing 0x55555556 steps: the check as written
   * passes (3 * len wraps to 2), so the loop would read far past the
   * buffer; the unwrapped check rejects the slot.
   */
  lemma RuleStepsOverrun()
    ensures var b: seq<u8> := [1, 0, 0, 0, 0x56, 0x55, 0x55, 0x55, 0, 0, 0, 0, 0, 0, 0, 0, 0, 0, 0, 0];
      StepsNeedAsWritten(b, 0) && 12 + 12 * Le32(b, 4) > |b| && ParseRuleSlot(b, 0).Err?
  {
  }

  // ------------------------------------------------------------ encoding

  /** A bucket the wire format can carry: known algorithm, payload matching it, 32-bit size. */
  predicate Encodable(bk: Bucket) {
    KnownAlg(bk.alg) && BucketShaped(bk) && |bk.items| < TWO32
  }

  predicate EncodableRule(r: Rule) {
    |r.mask| == 4 && |r.steps| < TWO32
  }

  function EncodePayload(pl: Payload): (e: seq<u8>)
    requires pl.List? ==> |pl.itemWeights| == |pl.sumWeights|
    requires pl.Straw? ==> |pl.itemWeights| == |pl.straws|
  {
    match pl
    case Uniform(primes, w) => EncWords(primes) + Enc32(w)
    case List(ws, sums) => EncPairs(ws, sums)
    case Tree(nodes) => EncWords(nodes)
    case Straw(ws, straws) => EncPairs(ws, straws)
    case NoPayload => []
  }

  function EncodeBucketHeader(bk: Bucket): (e: seq<u8>)
    requires |bk.items| < TWO32
    ensures |e| == 16
  {
    Enc32(FromS32(bk.id)) + Enc16(bk.btype) + Enc16(bk.alg) + Enc32(bk.weight) + Enc32(|bk.items|)
  }

  function EncodeBucketSlot(s: Option<Bucket>): seq<u8>
    requires s.Some? ==> Encodable(s.value)
  {
    match s
    case None => Enc32(0)
    case Some(bk) =>
      Enc32(bk.alg) + EncodeBucketHeader(bk) + EncWords(Unsigned(bk.items)) + EncodePayload(bk.payload)
  }

  function EncodeSteps(s: seq<Step>): (e: seq<u8>)
    ensures |e| == 12 * |s|
  {
    if s == [] then []
    else Enc32(s[0].op) + Enc32(FromS32(s[0].arg1)) + Enc32(FromS32(s[0].arg2)) + EncodeSteps(s[1..])
  }

  function EncodeRuleSlot(s: Option<Rule>): seq<u8>
    requires s.Some? ==> EncodableRule(s.value)
  {
    match s
    case None => Enc32(0)
    case Some(r) => Enc32(1) + Enc32(|r.steps|) + r.mask + EncodeSteps(r.steps)
  }

  // ---------------------------------------------------------- round trips

  lemma AtBucketHeader(b: seq<u8>, p: nat, bk: Bucket)
    requires |bk.items| < TWO32 && At(b, p, EncodeBucketHeader(bk))
    ensures p + 16 <= |b|
    ensures ToS32(Le32(b, p)) == bk.id && Le16(b, p + 4) == bk.btype && Le16(b, p + 6) == bk.alg
    ensures Le32(b, p + 8) == bk.weight && Le32(b, p + 12) == |bk.items|
  {
    var e1, e2, e3, e4, e5 := Enc32(FromS32(bk.id)), Enc16(bk.btype), Enc16(bk.alg), Enc32(bk.weight), Enc32(|bk.items|);
    AtSplit(b, p, e1 + e2 + e3 + e4, e5);
    AtSplit(b, p, e1 + e2 + e3, e4);
    AtSplit3(b, p, e1, e2, e3);
    AtLe32(b, p, FromS32(bk.id));
    AtLe16(b, p + 4, bk.btype);
    AtLe16(b, p + 6, bk.alg);
    AtLe32(b, p + 8, bk.weight);
    AtLe32(b, p + 12, |bk.items|);
  }

  lemma AtPayload(b: seq<u8>, p: nat, pl: Payload, alg: u16, size: u32)
    requires PayloadFits(pl, alg, size) && At(b, p, EncodePayload(pl))
    ensures ParsePayload(b, p, alg, size) == Ok((pl, p + |EncodePayload(pl)|))
  {
    match pl
    case Uniform(primes, w) =>
      AtSplit(b, p, EncWords(primes), Enc32(w));
      AtWords(b, p, primes);
      AtLe32(b, p + 4 * size, w);
    case List(ws, sums) =>
      AtPairs(b, p, ws, sums);
    case Tree(nodes) =>
      AtWords(b, p, nodes);
    case Straw(ws, straws) =>
      AtPairs(b, p, ws, straws);
    case NoPayload =>
  }

  /** ParseBucketSlot's value, from the facts each field's read gives. */
  lemma BucketSlotFromFields(b: seq<u8>, p: nat, bk: Bucket)
    requires p + 20 + 4 * |bk.items| <= |b| && |bk.items| < TWO32 && KnownAlg(bk.alg)
    requires Le32(b, p) == bk.alg && ToS32(Le32(b, p + 4)) == bk.id && Le16(b, p + 8) == bk.btype
    requires Le16(b, p + 10) == bk.alg && Le32(b, p + 12) == bk.weight && Le32(b, p + 16) == |bk.items|
    requires Words(b, p + 20, |bk.items|) == Unsigned(bk.items)
    requires BucketShaped(bk) && At(b, p + 20 + 4 * |bk.items|, EncodePayload(bk.payload))
    ensures ParseBucketSlot(b, p) == Ok((Some(bk), p + 20 + 4 * |bk.items| + |EncodePayload(bk.payload)|))
  {
    AtPayload(b, p + 20 + 4 * |bk.items|, bk.payload, bk.alg, |bk.items|);
  }

  /** Each field of an encoded bucket slot, read back where the decoder reads it. */
  lemma BucketSlotParts(b: seq<u8>, p: nat, bk: Bucket)
    requires Encodable(bk) && At(b, p, EncodeBucketSlot(Some(bk)))
    ensures p + 20 + 4 * |bk.items| <= |b|
    ensures Le32(b, p) == bk.alg && ToS32(Le32(b, p + 4)) == bk.id && Le16(b, p + 8) == bk.btype
    ensures Le16(b, p + 10) == bk.alg && Le32(b, p + 12) == bk.weight && Le32(b, p + 16) == |bk.items|
    ensures Words(b, p + 20, |bk.items|) == Unsigned(bk.items)
    ensures At(b, p + 20 + 4 * |bk.items|, EncodePayload(bk.payload))
  {
    var tag, hdr, items, pl := Enc32(bk.alg), EncodeBucketHeader(bk), EncWords(Unsigned(bk.items)), EncodePayload(bk.payload);
    AtSplit(b, p, tag + hdr + items, pl);
    AtSplit3(b, p, tag, hdr, items);
    AtLe32(b, p, bk.alg);
    AtBucketHeader(b, p + 4, bk);
    AtWords(b, p + 20, Unsigned(bk.items));
  }

  lemma AtBucketSlot(b: seq<u8>, p: nat, s: Option<Bucket>)
    requires s.Some? ==> Encodable(s.value)
    requires At(b, p, EncodeBucketSlot(s))
    ensures ParseBucketSlot(b, p) == Ok((s, p + |EncodeBucketSlot(s)|))
  {
    match s
    case None =>
      AtLe32(b, p, 0);
    case Some(bk) =>
      BucketSlotParts(b, p, bk);
      BucketSlotFromFields(b, p, bk);
  }

  lemma {:induction false} AtSteps(b: seq<u8>, p: nat, s: seq<Step>)
    requires At(b, p, EncodeSteps(s))
    ensures p + 12 * |s| <= |b| && Steps(b, p, |s|) == s
    decreases |s|
  {
    if s != [] {
      var e1, e2, e3 := Enc32(s[0].op), Enc32(FromS32(s[0].arg1)), Enc32(FromS32(s[0].arg2));
      AtSplit(b, p, e1 + e2 + e3, EncodeSteps(s[1..]));
      AtSplit3(b, p, e1, e2, e3);
      AtLe32(b, p, s[0].op);
      AtLe32(b, p + 4, FromS32(s[0].arg1));
      AtLe32(b, p + 8, FromS32(s[0].arg2));
      AtSteps(b, p + 12, s[1..]);
    }
  }

  lemma AtRuleSlot(b: seq<u8>, p: nat, s: Option<Rule>)
    requires s.Some? ==> EncodableRule(s.value)
    requires At(b, p, EncodeRuleSlot(s))
    ensures ParseRuleSlot(b, p) == Ok((s, p + |EncodeRuleSlot(s)|))
  {
    match s
    case None =>
      AtLe32(b, p, 0);
    case Some(r) =>
      var e1, e2 := Enc32(1), Enc32(|r.steps|);
      AtSplit(b, p, e1 + e2 + r.mask, EncodeSteps(r.steps));
      AtSplit3(b, p, e1, e2, r.mask);
      AtLe32(b, p, 1);
      AtLe32(b, p + 4, |r.steps|);
      AtWindow(b, p + 8, r.mask);
      AtSteps(b, p + 12, r.steps);
  }

}
