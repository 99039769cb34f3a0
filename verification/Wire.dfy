/** The base layer of the Protocol Buffers encoding: base-128 varints, tags, length-delimited
    records, and the reader that walks a message field by field. */
module Wire {
  import opened Common

  /** A value taken from the front of a byte string, with what is left behind it. */
  datatype Read<+T> = Read(value: T, rest: Bytes)

  // ---------- varints ----------

  function Varint(n: nat): (bs: Bytes)
    ensures bs != []
  {
    if n < 128 then [n] else [128 + n % 128] + Varint(n / 128)
  }

  /** Reads a varint of at most `limit` bytes. The value is not cut to a width here: each
      caller keeps the low 32 or 64 bits, as the library does. */
  function ReadVarint(bs: Bytes, limit: nat): (r: Option<Read<nat>>)
    ensures r.Some? ==> |r.value.rest| < |bs|
  {
    if limit == 0 || bs == [] then None
    else if bs[0] < 128 then Some(Read(bs[0], bs[1..]))
    else
      match ReadVarint(bs[1..], limit - 1)
      case None => None
      case Some(r) => Some(Read(bs[0] - 128 + 128 * r.value, r.rest))
  }

  function Pow128(k: nat): (p: nat)
    ensures p > 0
  {
    if k == 0 then 1 else 128 * Pow128(k - 1)
  }

  lemma {:induction false} VarintLength(n: nat, k: nat)
    requires k > 0 && n < Pow128(k)
    ensures |Varint(n)| <= k
  {
    if n >= 128 {
      VarintLength(n / 128, k - 1);
    }
  }

  lemma Pow128Widths()
    ensures Pow128(5) == 0x8_0000_0000 && Pow128(10) == 0x40_0000_0000_0000_0000
  {
    assert Pow128(1) == 128 && Pow128(2) == 0x4000 && Pow128(3) == 0x20_0000 && Pow128(4) == 0x1000_0000;
    assert Pow128(6) == 128 * Pow128(5) && Pow128(7) == 128 * Pow128(6) && Pow128(8) == 128 * Pow128(7);
  }

  lemma VarintLength32(n: nat)
    requires n < TWO_32
    ensures |Varint(n)| <= 5
  {
    Pow128Widths();
    VarintLength(n, 5);
  }

  lemma VarintLength64(n: nat)
    requires n < TWO_64
    ensures |Varint(n)| <= 10
  {
    Pow128Widths();
    VarintLength(n, 10);
  }

  lemma {:induction false} VarintRoundTrip(n: nat, rest: Bytes, limit: nat)
    requires |Varint(n)| <= limit
    ensures ReadVarint(Varint(n) + rest, limit) == Some(Read(n, rest))
  {
    var bs := Varint(n) + rest;
    if n < 128 {
      assert bs[1..] == rest;
    } else {
      assert bs[1..] == Varint(n / 128) + rest;
      VarintRoundTrip(n / 128, rest, limit - 1);
    }
  }

  /** A varint that is cut short is never taken for a shorter one. */
  lemma {:induction false} VarintPrefixRejected(n: nat, cut: nat, limit: nat)
    requires cut < |Varint(n)|
    ensures ReadVarint(Varint(n)[..cut], limit) == None
  {
    var p := Varint(n)[..cut];
    if cut > 0 && limit > 0 {
      assert n >= 128;
      assert p[1..] == Varint(n / 128)[..cut - 1];
      VarintPrefixRejected(n / 128, cut - 1, limit - 1);
    }
  }

  /** The example of the encoding guide, section "Base 128 Varints". */
  lemma VarintExample()
    ensures Varint(150) == [0x96, 0x01] && Varint(1) == [0x01]
    ensures ReadVarint([0x96, 0x01], 10) == Some(Read(150, []))
    ensures ReadVarint([0x80, 0x00, 0x05], 10) == Some(Read(0, [5]))
  {
  }

  /** A varint that goes on beyond the limit is an error. */
  lemma {:induction false} EndlessVarint(bs: Bytes, limit: nat)
    requires limit <= |bs| && forall i :: 0 <= i < limit ==> bs[i] >= 128
    ensures ReadVarint(bs, limit).None?
  {
    if limit > 0 {
      EndlessVarint(bs[1..], limit - 1);
    }
  }

  // ---------- fields ----------

  /** What a field carries. Fixed-width fields and groups are only ever skipped by the messages
      modelled here, so their content is not kept. */
  datatype Payload = Num(n: uint64) | Blob(b: Bytes) | Skipped

  datatype Field = Field(number: nat, payload: Payload)

  function Tag(number: nat, wireType: nat): Bytes {
    Varint(8 * number + wireType)
  }

  /** A varint field as it is written when present. */
  function NumField(number: nat, n: nat): Bytes {
    Tag(number, 0) + Varint(n)
  }

  /** A length-delimited field as it is written when present. */
  function BlobField(number: nat, b: Bytes): Bytes {
    Tag(number, 2) + Varint(|b|) + b
  }

  /** Reads the payload that follows a tag; `depth` is the nesting still allowed. */
  function ReadPayload(number: nat, wireType: nat, bs: Bytes, depth: nat): (r: Option<Read<Payload>>)
    ensures r.Some? ==> |r.value.rest| <= |bs|
    ensures r.Some? && r.value.value.Blob? ==> |r.value.value.b| < |bs|
    decreases |bs|, 1
  {
    if wireType == 0 then
      match ReadVarint(bs, 10)
      case None => None
      case Some(r) => Some(Read(Num(r.value % TWO_64), r.rest))
    else if wireType == 1 then
      if |bs| < 8 then None else Some(Read(Skipped, bs[8..]))
    else if wireType == 2 then
      match ReadVarint(bs, 5)
      case None => None
      case Some(r) =>
        if r.value >= TWO_31 || |r.rest| < r.value then None
        else Some(Read(Blob(r.rest[..r.value]), r.rest[r.value..]))
    else if wireType == 3 then
      if depth == 0 then None
      else
        match SkipGroup(number, bs, depth - 1)
        case None => None
        case Some(rest) => Some(Read(Skipped, rest))
    else if wireType == 5 then
      if |bs| < 4 then None else Some(Read(Skipped, bs[4..]))
    else None
  }

  /** Skips the fields of an unknown group up to its matching end tag. */
  function SkipGroup(number: nat, bs: Bytes, depth: nat): (r: Option<Bytes>)
    ensures r.Some? ==> |r.value| < |bs|
    decreases |bs|, 0
  {
    match ReadVarint(bs, 5)
    case None => None
    case Some(tag) =>
      var t := tag.value % TWO_32;
      if t / 8 == 0 then None
      else if t % 8 == 4 then (if t / 8 == number then Some(tag.rest) else None)
      else
        match ReadPayload(t / 8, t % 8, tag.rest, depth)
        case None => None
        case Some(p) => SkipGroup(number, p.rest, depth)
  }

  /** Reads one field. Tag 0, field number 0 and a stray end-group tag are errors. */
  function ReadField(bs: Bytes, depth: nat): (r: Option<Read<Field>>)
    ensures r.Some? ==> |r.value.rest| < |bs|
    ensures r.Some? && r.value.value.payload.Blob? ==> |r.value.value.payload.b| < |bs|
  {
    match ReadVarint(bs, 5)
    case None => None
    case Some(tag) =>
      var t := tag.value % TWO_32;
      if t / 8 == 0 || t % 8 == 4 then None
      else
        match ReadPayload(t / 8, t % 8, tag.rest, depth)
        case None => None
        case Some(p) => Some(Read(Field(t / 8, p.value), p.rest))
  }

  lemma ReadTag(number: nat, wireType: nat, rest: Bytes)
    requires 0 < number < 16 && wireType < 8
    ensures ReadVarint(Tag(number, wireType) + rest, 5) == Some(Read(8 * number + wireType, rest))
    ensures |Tag(number, wireType)| == 1
  {
    VarintRoundTrip(8 * number + wireType, rest, 5);
  }

  lemma TagParts(number: nat, wireType: nat)
    requires number < 16 && wireType < 8
    ensures var t := (8 * number + wireType) % TWO_32; t / 8 == number && t % 8 == wireType
  {
  }

  /** What follows a tag decides about the field. */
  lemma FieldAfterTag(number: nat, wireType: nat, bs: Bytes, depth: nat)
    requires 0 < number < 16 && wireType < 8 && wireType != 4
    ensures var p := ReadPayload(number, wireType, bs, depth);
      ReadField(Tag(number, wireType) + bs, depth)
      == if p.None? then None else Some(Read(Field(number, p.value.value), p.value.rest))
  {
    hide ReadVarint, Tag, ReadPayload;
    ReadTag(number, wireType, bs);
    TagParts(number, wireType);
  }

  lemma ReadNumField(number: nat, n: uint64, rest: Bytes, depth: nat)
    requires 0 < number < 16
    ensures ReadField(NumField(number, n) + rest, depth) == Some(Read(Field(number, Num(n)), rest))
  {
    assert NumField(number, n) + rest == Tag(number, 0) + (Varint(n) + rest);
    FieldAfterTag(number, 0, Varint(n) + rest, depth);
    VarintLength64(n);
    VarintRoundTrip(n, rest, 10);
    hide ReadField, Tag, Varint, ReadVarint;
  }

  lemma ReadBlobField(number: nat, b: Bytes, rest: Bytes, depth: nat)
    requires 0 < number < 16 && |b| < TWO_31
    ensures ReadField(BlobField(number, b) + rest, depth) == Some(Read(Field(number, Blob(b)), rest))
  {
    assert BlobField(number, b) + rest == Tag(number, 2) + (Varint(|b|) + (b + rest));
    FieldAfterTag(number, 2, Varint(|b|) + (b + rest), depth);
    VarintLength32(|b|);
    VarintRoundTrip(|b|, b + rest, 5);
    hide ReadField, Tag, Varint, ReadVarint;
    assert (b + rest)[..|b|] == b && (b + rest)[|b|..] == rest;
  }

  /** Fixed-width fields of a message that does not know them are skipped, eight or four bytes. */
  lemma FixedIsSkipped(number: nat, b: Bytes, rest: Bytes, depth: nat)
    requires 0 < number < 16
    ensures |b| == 8 ==> ReadField(Tag(number, 1) + (b + rest), depth) == Some(Read(Field(number, Skipped), rest))
    ensures |b| == 4 ==> ReadField(Tag(number, 5) + (b + rest), depth) == Some(Read(Field(number, Skipped), rest))
    ensures |b + rest| < 8 ==> ReadField(Tag(number, 1) + (b + rest), depth).None?
    ensures |b + rest| < 4 ==> ReadField(Tag(number, 5) + (b + rest), depth).None?
  {
    FieldAfterTag(number, 1, b + rest, depth);
    FieldAfterTag(number, 5, b + rest, depth);
    hide ReadField, Tag;
    assert |b| <= |b + rest| && (b + rest)[|b|..] == rest;
  }

  /** Field number 0, a stray end of a group and the two unused wire types are errors. */
  lemma BadTags(tag: byte, rest: Bytes, depth: nat)
    requires tag < 128 && (tag / 8 == 0 || tag % 8 == 4 || tag % 8 == 6 || tag % 8 == 7)
    ensures ReadField([tag] + rest, depth).None?
  {
    assert ([tag] + rest)[1..] == rest;
  }

  /** `k` groups, one in the other. */
  function Nest(number: nat, k: nat): Bytes {
    if k == 0 then [] else Tag(number, 3) + (Nest(number, k - 1) + Tag(number, 4))
  }

  lemma NestFront(number: nat, k: nat, after: Bytes)
    requires k > 0
    ensures Nest(number, k) + after == Tag(number, 3) + (Nest(number, k - 1) + (Tag(number, 4) + after))
  {
    hide Tag;
    Regroup(Tag(number, 3), Nest(number, k - 1) + Tag(number, 4), after);
    Regroup(Nest(number, k - 1), Tag(number, 4), after);
  }

  lemma GroupEnds(number: nat, rest: Bytes, depth: nat)
    requires 0 < number < 16
    ensures SkipGroup(number, Tag(number, 4) + rest, depth) == Some(rest)
  {
    ReadTag(number, 4, rest);
    hide ReadVarint, Tag;
  }

  lemma GroupPayload(number: nat, bs: Bytes, depth: nat)
    ensures ReadPayload(number, 3, bs, depth) ==
      if depth == 0 || SkipGroup(number, bs, depth - 1).None? then None
      else Some(Read(Skipped, SkipGroup(number, bs, depth - 1).value))
  {
    hide SkipGroup;
  }

  lemma GroupGoesOn(number: nat, inner: Bytes, depth: nat)
    requires 0 < number < 16
    ensures SkipGroup(number, Tag(number, 3) + inner, depth) ==
      if depth == 0 || SkipGroup(number, inner, depth - 1).None? then None
      else SkipGroup(number, SkipGroup(number, inner, depth - 1).value, depth)
  {
    GroupPayload(number, inner, depth);
    GroupAfterTag(number, number, 3, inner, depth);
    hide Tag, SkipGroup, ReadPayload;
  }

  lemma GroupAfterTag(group: nat, number: nat, wireType: nat, bs: Bytes, depth: nat)
    requires 0 < number < 16 && wireType < 8 && wireType != 4
    ensures var p := ReadPayload(number, wireType, bs, depth);
      SkipGroup(group, Tag(number, wireType) + bs, depth)
      == if p.None? then None else SkipGroup(group, p.value.rest, depth)
  {
    hide ReadVarint, Tag, ReadPayload;
    ReadTag(number, wireType, bs);
    TagParts(number, wireType);
  }

  lemma {:induction false} SkipNest(number: nat, k: nat, rest: Bytes, depth: nat)
    requires 0 < number < 16
    ensures SkipGroup(number, Nest(number, k) + (Tag(number, 4) + rest), depth)
         == if k <= depth then Some(rest) else None
    decreases k
  {
    hide SkipGroup, Tag;
    var after := Tag(number, 4) + rest;
    GroupEnds(number, rest, depth);
    if k == 0 {
      assert Nest(number, k) + after == after;
    } else {
      NestFront(number, k, after);
      GroupGoesOn(number, Nest(number, k - 1) + (Tag(number, 4) + after), depth);
      if depth > 0 {
        SkipNest(number, k - 1, after, depth - 1);
      }
    }
  }

  /** An unknown group is skipped with all groups in it, as long as they are not nested deeper than
      allowed. */
  lemma GroupIsSkipped(number: nat, k: nat, rest: Bytes, depth: nat)
    requires 0 < number < 16 && k > 0
    ensures ReadField(Nest(number, k) + rest, depth) ==
      if k <= depth then Some(Read(Field(number, Skipped), rest)) else None
  {
    hide Tag, Nest, SkipGroup, ReadPayload, ReadField;
    var inner := Nest(number, k - 1) + (Tag(number, 4) + rest);
    NestFront(number, k, rest);
    if depth > 0 {
      SkipNest(number, k - 1, rest, depth - 1);
    }
    GroupPayload(number, inner, depth);
    FieldAfterTag(number, 3, inner, depth);
  }

  // ---------- messages ----------

  /** The outcome of parsing a message: `partial` is what had been merged when parsing stopped. */
  datatype Parsed<+A> = Parsed(ok: bool, partial: A)

  /** Merges every field of `bs` into `acc`, until a field cannot be read or `merge` refuses one. */
  function ParseFields<A>(bs: Bytes, acc: A, merge: (A, Field) -> Parsed<A>, depth: nat): Parsed<A>
    decreases |bs|
  {
    if bs == [] then Parsed(true, acc)
    else
      match ReadField(bs, depth)
      case None => Parsed(false, acc)
      case Some(f) =>
        var merged := merge(acc, f.value);
        if merged.ok then ParseFields(f.rest, merged.partial, merge, depth) else merged
  }

  lemma ParseNothing<A>(acc: A, merge: (A, Field) -> Parsed<A>, depth: nat)
    ensures ParseFields([], acc, merge, depth) == Parsed(true, acc)
  {
  }

  lemma ParseNumField<A>(number: nat, n: uint64, rest: Bytes, acc: A, merge: (A, Field) -> Parsed<A>, depth: nat)
    requires 0 < number < 16
    ensures var merged := merge(acc, Field(number, Num(n)));
      ParseFields(NumField(number, n) + rest, acc, merge, depth)
      == if merged.ok then ParseFields(rest, merged.partial, merge, depth) else merged
  {
    ReadNumField(number, n, rest, depth);
    assert NumField(number, n) + rest != [];
  }

  lemma ParseBlobField<A>(number: nat, b: Bytes, rest: Bytes, acc: A, merge: (A, Field) -> Parsed<A>, depth: nat)
    requires 0 < number < 16 && |b| < TWO_31
    ensures var merged := merge(acc, Field(number, Blob(b)));
      ParseFields(BlobField(number, b) + rest, acc, merge, depth)
      == if merged.ok then ParseFields(rest, merged.partial, merge, depth) else merged
  {
    ReadBlobField(number, b, rest, depth);
    assert BlobField(number, b) + rest != [];
  }

  lemma ParseGroup<A>(number: nat, k: nat, rest: Bytes, acc: A, merge: (A, Field) -> Parsed<A>, depth: nat)
    requires 0 < number < 16 && k > 0
    ensures var merged := merge(acc, Field(number, Skipped));
      ParseFields(Nest(number, k) + rest, acc, merge, depth) ==
        if k > depth then Parsed(false, acc)
        else if merged.ok then ParseFields(rest, merged.partial, merge, depth)
        else merged
  {
    GroupIsSkipped(number, k, rest, depth);
    assert Nest(number, k) != [] by { hide Tag; }
    hide ReadField, Nest;
    assert Nest(number, k) + rest != [];
  }
}
