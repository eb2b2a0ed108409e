/**
 * The CRUSH decoder the way `crush_decode` runs (src/kernel/osdmap.c:41-284):
 * a cursor advancing over the buffer and arrays filled slot by slot in
 * `for` loops.  Each method is proved to compute exactly what the
 * specification in module `Crush` says.
 */
module CrushDecoder {
  import opened Wire
  import opened Crush

  /** crush_decode_uniform_bucket: `size` primes, then the item weight. */
  method DecodeUniform(b: seq<u8>, p: nat, size: u32) returns (r: Result<(Payload, nat)>)
    requires p <= |b|
    ensures r == ParsePayload(b, p, BUCKET_UNIFORM, size)
  {
    if p + 4 * (1 + size) > |b| {
      return Err(Inval);
    }
    var primes := new u32[size];
    for j := 0 to size
      invariant forall k :: 0 <= k < j ==> primes[k] == Le32(b, p + 4 * k)
    {
      primes[j] := Le32(b, p + 4 * j);
    }
    assert primes[..] == Words(b, p, size);
    return Ok((Uniform(primes[..], Le32(b, p + 4 * size)), p + 4 * (1 + size)));
  }

  /** crush_decode_list_bucket: `size` (item weight, sum weight) pairs. */
  method DecodeList(b: seq<u8>, p: nat, size: u32) returns (r: Result<(Payload, nat)>)
    requires p <= |b|
    ensures r == ParsePayload(b, p, BUCKET_LIST, size)
  {
    if p + 8 * size > |b| {
      return Err(Inval);
    }
    var weights := new u32[size];
    var sums := new u32[size];
    for j := 0 to size
      invariant forall k :: 0 <= k < j ==> weights[k] == Le32(b, p + 8 * k)
      invariant forall k :: 0 <= k < j ==> sums[k] == Le32(b, p + 8 * k + 4)
    {
      weights[j] := Le32(b, p + 8 * j);
      sums[j] := Le32(b, p + 8 * j + 4);
    }
    assert weights[..] == Firsts(b, p, size);
    assert sums[..] == Seconds(b, p, size);
    return Ok((List(weights[..], sums[..]), p + 8 * size));
  }

  /** crush_decode_tree_bucket: `size` node weights. */
  method DecodeTree(b: seq<u8>, p: nat, size: u32) returns (r: Result<(Payload, nat)>)
    requires p <= |b|
    ensures r == ParsePayload(b, p, BUCKET_TREE, size)
  {
    if p + 4 * size > |b| {
      return Err(Inval);
    }
    var nodes := new u32[size];
    for j := 0 to size
      invariant forall k :: 0 <= k < j ==> nodes[k] == Le32(b, p + 4 * k)
    {
      nodes[j] := Le32(b, p + 4 * j);
    }
    assert nodes[..] == Words(b, p, size);
    return Ok((Tree(nodes[..]), p + 4 * size));
  }

  /** crush_decode_straw_bucket: `size` (item weight, straw) pairs. */
  method DecodeStraw(b: seq<u8>, p: nat, size: u32) returns (r: Result<(Payload, nat)>)
    requires p <= |b|
    ensures r == ParsePayload(b, p, BUCKET_STRAW, size)
  {
    if p + 8 * size > |b| {
      return Err(Inval);
    }
    var weights := new u32[size];
    var straws := new u32[size];
    for j := 0 to size
      invariant forall k :: 0 <= k < j ==> weights[k] == Le32(b, p + 8 * k)
      invariant forall k :: 0 <= k < j ==> straws[k] == Le32(b, p + 8 * k + 4)
    {
      weights[j] := Le32(b, p + 8 * j);
      straws[j] := Le32(b, p + 8 * j + 4);
    }
    assert weights[..] == Firsts(b, p, size);
    assert straws[..] == Seconds(b, p, size);
    return Ok((Straw(weights[..], straws[..]), p + 8 * size));
  }

  /** One iteration of the bucket loop (lines 158-235). */
  method DecodeBucket(b: seq<u8>, p: nat) returns (r: Result<(Option<Bucket>, nat)>)
    ensures r == ParseBucketSlot(b, p)
  {
    if p + 4 > |b| {
      return Err(Inval);
    }
    var tag := Le32(b, p);
    if tag == 0 {
      return Ok((None, p + 4));
    }
    if !KnownAlg(tag) {
      return Err(Inval);
    }
    if p + 20 > |b| {
      return Err(Inval);
    }
    var size: nat := Le32(b, p + 16);
    if p + 20 + 4 * size > |b| {
      return Err(Inval);
    }
    var items := new s32[size];
    for j := 0 to size
      invariant forall k :: 0 <= k < j ==> items[k] == ToS32(Le32(b, p + 20 + 4 * k))
    {
      items[j] := ToS32(Le32(b, p + 20 + 4 * j));
    }
    assert items[..] == Signed(Words(b, p + 20, size));
    var alg, pos := Le16(b, p + 10), p + 20 + 4 * size;
    var payload: Result<(Payload, nat)>;
    if alg == BUCKET_UNIFORM {
      payload := DecodeUniform(b, pos, size);
    } else if alg == BUCKET_LIST {
      payload := DecodeList(b, pos, size);
    } else if alg == BUCKET_TREE {
      payload := DecodeTree(b, pos, size);
    } else if alg == BUCKET_STRAW {
      payload := DecodeStraw(b, pos, size);
    } else {
      payload := Ok((NoPayload, pos));
    }
    if payload.Err? {
      return Err(payload.error);
    }
    var bk := Bucket(ToS32(Le32(b, p + 4)), Le16(b, p + 8), alg, Le32(b, p + 12), items[..], payload.value.0);
    return Ok((Some(bk), payload.value.1));
  }

  /** One iteration of the rule loop (lines 240-271). */
  method DecodeRule(b: seq<u8>, p: nat) returns (r: Result<(Option<Rule>, nat)>)
    ensures r == ParseRuleSlot(b, p)
  {
    if p + 4 > |b| {
      return Err(Inval);
    }
    if Le32(b, p) == 0 {
      return Ok((None, p + 4));
    }
    if p + 8 > |b| {
      return Err(Inval);
    }
    var len: nat := Le32(b, p + 4);
    if p + 12 > |b| {
      return Err(Inval);
    }
    var mask := b[p + 8..p + 12];
    if p + 12 + 12 * len > |b| {
      return Err(Inval);
    }
    var steps := new Step[len];
    for j := 0 to len
      invariant forall k :: 0 <= k < j ==>
        steps[k] == Step(Le32(b, p + 12 + 12 * k), ToS32(Le32(b, p + 12 + 12 * k + 4)), ToS32(Le32(b, p + 12 + 12 * k + 8)))
    {
      steps[j] := Step(Le32(b, p + 12 + 12 * j), ToS32(Le32(b, p + 12 + 12 * j + 4)), ToS32(Le32(b, p + 12 + 12 * j + 8)));
    }
    assert steps[..] == Steps(b, p + 12, len);
    return Ok((Some(Rule(mask, steps[..])), p + 12 + 12 * len));
  }

  /** The bucket loop (lines 157-235): `n` slots into a fresh table. */
  method DecodeBuckets(b: seq<u8>, p: nat, n: u32) returns (r: Result<(seq<Option<Bucket>>, nat)>)
    ensures r == ParseBucketSlots(b, p, n)
  {
    var buckets := new Option<Bucket>[n];
    var pos: nat := p;
    for i := 0 to n
      invariant ParseBucketSlots(b, p, i) == Ok((buckets[..i], pos))
    {
      var s := DecodeBucket(b, pos);
      if s.Err? {
        BucketSlotsFailFrom(b, p, i, n);
        return Err(Inval);
      }
      buckets[i] := s.value.0;
      pos := s.value.1;
      assert buckets[..i + 1] == buckets[..i] + [s.value.0];
    }
    assert buckets[..] == buckets[..n];
    return Ok((buckets[..], pos));
  }

  /** The rule loop (lines 239-271): `n` slots into a fresh table. */
  method DecodeRules(b: seq<u8>, p: nat, n: u32) returns (r: Result<(seq<Option<Rule>>, nat)>)
    ensures r == ParseRuleSlots(b, p, n)
  {
    var rules := new Option<Rule>[n];
    var pos: nat := p;
    for i := 0 to n
      invariant ParseRuleSlots(b, p, i) == Ok((rules[..i], pos))
    {
      var s := DecodeRule(b, pos);
      if s.Err? {
        RuleSlotsFailFrom(b, p, i, n);
        return Err(Inval);
      }
      rules[i] := s.value.0;
      pos := s.value.1;
      assert rules[..i + 1] == rules[..i] + [s.value.0];
    }
    assert rules[..] == rules[..n];
    return Ok((rules[..], pos));
  }

  /**
   * crush_decode: the header, then `max_buckets` bucket slots and
   * `max_rules` rule slots.  Every failure is reported as -EINVAL and no
   * partial map is returned.
   */
  method DecodeCrush(b: seq<u8>, p: nat) returns (r: Result<CrushMap>)
    ensures r == ParseCrush(b, p)
  {
    if p + 16 > |b| || Le32(b, p) != CRUSH_MAGIC {
      return Err(Inval);
    }
    var maxB, maxR, maxD := Le32(b, p + 4), Le32(b, p + 8), Le32(b, p + 12);
    var buckets := DecodeBuckets(b, p + 16, maxB);
    if buckets.Err? {
      return Err(Inval);
    }
    var rules := DecodeRules(b, buckets.value.1, maxR);
    if rules.Err? {
      return Err(Inval);
    }
    return Ok(CrushMap(maxB, maxR, maxD, buckets.value.0, rules.value.0));
  }
}
