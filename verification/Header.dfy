/** The `RpcHeader` and `RpcError` messages: their values, their serialized form and the parser. */
module Header {
  import opened Common
  import opened Unicode
  import opened Wire

  datatype RpcError = RpcError(code: int32, message: Bytes)

  datatype RpcHeader = RpcHeader(
    serviceName: Bytes, methodName: Bytes, argsSize: uint32, requestId: uint64, status: int32,
    metadata: map<Bytes, Bytes>, compressed: bool, error: Option<RpcError>, cancelled: bool)

  const EMPTY_HEADER := RpcHeader([], [], 0, 0, 0, map[], false, None, false)

  const EMPTY_ERROR := RpcError(0, [])

  /** Nesting the library allows in one parse. */
  const RECURSION_LIMIT: nat := 100

  // ---------- writing ----------

  /** A negative int32 is written as its 64-bit two's complement, ten bytes long. */
  function SignExtend(v: int32): uint64 {
    if v < 0 then v + TWO_64 else v
  }

  function LowInt32(n: uint64): (r: int32)
    ensures (n - r) % TWO_32 == 0
  {
    var low := n % TWO_32;
    if low < TWO_31 then low else low - TWO_32
  }

  function OptNum(number: nat, n: nat): Bytes {
    if n == 0 then [] else NumField(number, n)
  }

  function OptBlob(number: nat, b: Bytes): Bytes {
    if b == [] then [] else BlobField(number, b)
  }

  /** A map entry writes its key and its value even when they are empty. */
  function EntryBytes(key: Bytes, value: Bytes): Bytes {
    BlobField(1, key) + BlobField(2, value)
  }

  /** The entries of `metadata` in the order given. */
  function MetadataBytes(metadata: map<Bytes, Bytes>, order: seq<Bytes>): Bytes {
    if order == [] then []
    else
      (if order[0] in metadata then BlobField(6, EntryBytes(order[0], metadata[order[0]])) else [])
      + MetadataBytes(metadata, order[1..])
  }

  function ErrorBytes(e: RpcError): Bytes {
    OptNum(1, SignExtend(e.code)) + OptBlob(2, e.message)
  }

  /** `order` lists the keys of `metadata` once each. The library iterates a hash table, so every
      such order can occur. */
  ghost predicate IsOrder(order: seq<Bytes>, metadata: map<Bytes, Bytes>) {
    && (forall k :: k in order <==> k in metadata)
    && (forall i, j :: 0 <= i < j < |order| ==> order[i] != order[j])
  }

  function Flag(b: bool): nat {
    if b then 1 else 0
  }

  function ErrorField(h: RpcHeader): Bytes {
    if h.error.Some? then BlobField(8, ErrorBytes(h.error.value)) else []
  }

  function Serialize(h: RpcHeader, order: seq<Bytes>): Bytes {
    OptBlob(1, h.serviceName) + (OptBlob(2, h.methodName) + (OptNum(3, h.argsSize) + (OptNum(4, h.requestId)
    + (OptNum(5, SignExtend(h.status)) + (MetadataBytes(h.metadata, order) + (OptNum(7, Flag(h.compressed))
    + (ErrorField(h) + OptNum(9, Flag(h.cancelled)))))))))
  }

  // ---------- reading ----------

  /** A string field is stored before it is checked, so a bad one stays behind in the message. */
  function MergeError(e: RpcError, f: Field): Parsed<RpcError> {
    match f
    case Field(1, Num(n)) => Parsed(true, e.(code := LowInt32(n)))
    case Field(2, Blob(b)) => Parsed(Utf8(b), e.(message := b))
    case _ => Parsed(true, e)
  }

  function MergeEntry(e: (Bytes, Bytes), f: Field): Parsed<(Bytes, Bytes)> {
    match f
    case Field(1, Blob(b)) => Parsed(Utf8(b), (b, e.1))
    case Field(2, Blob(b)) => Parsed(Utf8(b), (e.0, b))
    case _ => Parsed(true, e)
  }

  /** One field of the header. A later field overwrites an earlier one, except that a repeated
      `error` is merged into the one already there; a known number with the wrong wire type is
      skipped like an unknown field. A bad map entry is not inserted, while a bad `error` is parsed
      in place and keeps what was read of it. */
  function MergeHeader(h: RpcHeader, f: Field): Parsed<RpcHeader> {
    match f
    case Field(1, Blob(b)) => Parsed(Utf8(b), h.(serviceName := b))
    case Field(2, Blob(b)) => Parsed(Utf8(b), h.(methodName := b))
    case Field(3, Num(n)) => Parsed(true, h.(argsSize := n % TWO_32))
    case Field(4, Num(n)) => Parsed(true, h.(requestId := n))
    case Field(5, Num(n)) => Parsed(true, h.(status := LowInt32(n)))
    case Field(6, Blob(b)) =>
      var entry := ParseFields(b, ([], []), MergeEntry, RECURSION_LIMIT - 1);
      Parsed(entry.ok, if entry.ok then h.(metadata := h.metadata[entry.partial.0 := entry.partial.1]) else h)
    case Field(7, Num(n)) => Parsed(true, h.(compressed := n != 0))
    case Field(8, Blob(b)) =>
      var start := if h.error.Some? then h.error.value else EMPTY_ERROR;
      var e := ParseFields(b, start, MergeError, RECURSION_LIMIT - 1);
      Parsed(e.ok, h.(error := Some(e.partial)))
    case Field(9, Num(n)) => Parsed(true, h.(cancelled := n != 0))
    case _ => Parsed(true, h)
  }

  /** `ParseFromString`: the message is cleared, then every field is merged. */
  function ParseHeader(bs: Bytes): Parsed<RpcHeader> {
    ParseFields(bs, EMPTY_HEADER, MergeHeader, RECURSION_LIMIT)
  }

  // ---------- the schema, byte by byte ----------

  /** A string field as it goes over the wire, under its tag byte. */
  function StringBytes(tag: byte, b: Bytes): Bytes {
    if b == [] then [] else [tag] + (Varint(|b|) + b)
  }

  function NumberBytes(tag: byte, n: nat): Bytes {
    if n == 0 then [] else [tag] + Varint(n)
  }

  lemma TagBytes()
    ensures Tag(1, 2) == [0x0A] && Tag(2, 2) == [0x12] && Tag(3, 0) == [0x18] && Tag(4, 0) == [0x20]
    ensures Tag(5, 0) == [0x28] && Tag(6, 2) == [0x32] && Tag(7, 0) == [0x38] && Tag(8, 2) == [0x42]
    ensures Tag(9, 0) == [0x48] && Tag(1, 0) == [0x08]
  {
  }

  lemma FieldBytes(number: nat, b: Bytes, n: nat, tag: byte, other: byte)
    requires Tag(number, 2) == [tag] && Tag(number, 0) == [other]
    ensures OptBlob(number, b) == StringBytes(tag, b) && BlobField(number, b) == [tag] + (Varint(|b|) + b)
    ensures OptNum(number, n) == NumberBytes(other, n)
  {
    hide Varint, Tag;
    Regroup([tag], Varint(|b|), b);
  }

  /** The fields of the schema with their numbers and types. Zero, false and empty fields are left
      out; a map entry has both its parts and a present `error` its length, even when empty. */
  lemma SchemaBytes(h: RpcHeader, order: seq<Bytes>)
    ensures Serialize(h, order) ==
      StringBytes(0x0A, h.serviceName) + (StringBytes(0x12, h.methodName) + (NumberBytes(0x18, h.argsSize)
      + (NumberBytes(0x20, h.requestId) + (NumberBytes(0x28, if h.status < 0 then h.status + TWO_64 else h.status)
      + (MetadataBytes(h.metadata, order) + (NumberBytes(0x38, if h.compressed then 1 else 0)
      + (ErrorField(h) + NumberBytes(0x48, if h.cancelled then 1 else 0))))))))
    ensures h.error.Some? ==>
      var e := ErrorBytes(h.error.value);
      && ErrorField(h) == [0x42] + (Varint(|e|) + e)
      && e == NumberBytes(0x08, SignExtend(h.error.value.code)) + StringBytes(0x12, h.error.value.message)
  {
    hide Varint, MetadataBytes;
    TagBytes();
    hide Tag;
    var status: nat := SignExtend(h.status);
    FieldBytes(1, h.serviceName, 0, 0x0A, 0x08);
    SecondTag();
    FieldBytes(2, h.methodName, 0, 0x12, 0x10);
    OtherTags();
    FieldBytes(3, [], h.argsSize, 0x1A, 0x18);
    FieldBytes(4, [], h.requestId, 0x22, 0x20);
    FieldBytes(5, [], status, 0x2A, 0x28);
    FieldBytes(7, [], Flag(h.compressed), 0x3A, 0x38);
    FieldBytes(9, [], Flag(h.cancelled), 0x4A, 0x48);
    if h.error.Some? {
      FieldBytes(8, ErrorBytes(h.error.value), 0, 0x42, 0x40);
      FieldBytes(1, [], SignExtend(h.error.value.code), 0x0A, 0x08);
      FieldBytes(2, h.error.value.message, 0, 0x12, 0x10);
    }
    hide OptBlob, OptNum, BlobField, NumberBytes, StringBytes;
  }

  lemma SecondTag()
    ensures Tag(2, 0) == [0x10]
  {
  }

  lemma OtherTags()
    ensures Tag(3, 2) == [0x1A] && Tag(4, 2) == [0x22] && Tag(5, 2) == [0x2A] && Tag(7, 2) == [0x3A]
    ensures Tag(8, 0) == [0x40] && Tag(9, 2) == [0x4A]
  {
  }

  lemma EntrySchema(metadata: map<Bytes, Bytes>, key: Bytes, rest: seq<Bytes>)
    requires key in metadata
    ensures var e := [0x0A] + (Varint(|key|) + key) + ([0x12] + (Varint(|metadata[key]|) + metadata[key]));
      MetadataBytes(metadata, [key] + rest) == [0x32] + (Varint(|e|) + e) + MetadataBytes(metadata, rest)
  {
    hide Varint;
    TagBytes();
    hide Tag;
    assert ([key] + rest)[1..] == rest;
    Regroup([0x0A], Varint(|key|), key);
    Regroup([0x12], Varint(|metadata[key]|), metadata[key]);
    var e := EntryBytes(key, metadata[key]);
    Regroup([0x32], Varint(|e|), e);
  }

  /** Only the default header is written as nothing. */
  lemma DefaultIsEmpty(h: RpcHeader, order: seq<Bytes>)
    requires IsOrder(order, h.metadata)
    ensures Serialize(h, order) == [] <==> h == EMPTY_HEADER
  {
    hide Varint, Tag;
    SchemaBytes(h, order);
    NothingWritten(h.metadata, order);
    hide Serialize, MetadataBytes;
  }

  lemma NothingWritten(metadata: map<Bytes, Bytes>, order: seq<Bytes>)
    requires IsOrder(order, metadata)
    ensures MetadataBytes(metadata, order) == [] <==> metadata == map[]
  {
    if order == [] {
      assert metadata == map[];
    } else {
      assert order[0] in metadata;
    }
  }

  /** A known field with the wrong wire type and a field the schema does not have are skipped. */
  lemma UnknownIsSkipped(number: nat, n: uint64, b: Bytes, h: RpcHeader, rest: Bytes)
    requires 0 < number < 16 && |b| < TWO_31
    ensures number in {1, 2, 6, 8} || number > 9 ==>
      ParseFields(NumField(number, n) + rest, h, MergeHeader, RECURSION_LIMIT)
      == ParseFields(rest, h, MergeHeader, RECURSION_LIMIT)
    ensures number in {3, 4, 5, 7, 9} || number > 9 ==>
      ParseFields(BlobField(number, b) + rest, h, MergeHeader, RECURSION_LIMIT)
      == ParseFields(rest, h, MergeHeader, RECURSION_LIMIT)
  {
    hide ParseFields, NumField, BlobField, Utf8;
    ParseNumField(number, n, rest, h, MergeHeader, RECURSION_LIMIT);
    ParseBlobField(number, b, rest, h, MergeHeader, RECURSION_LIMIT);
  }

  /** A header may hold unknown groups nested a hundred deep, and no deeper. */
  lemma NestingLimit(k: nat)
    requires k > 0
    ensures ParseHeader(Nest(15, k)).ok <==> k <= 100
  {
    hide ParseFields, Nest;
    ParseGroup(15, k, [], EMPTY_HEADER, MergeHeader, RECURSION_LIMIT);
    assert Nest(15, k) + [] == Nest(15, k);
    ParseNothing(EMPTY_HEADER, MergeHeader, RECURSION_LIMIT);
  }

  /** Of two fields with one number the later one counts. */
  lemma LaterFieldCounts(h: RpcHeader, a: Bytes, b: Bytes, rest: Bytes)
    requires |a| < TWO_31 && |b| < TWO_31 && Utf8(a) && Utf8(b)
    ensures ParseFields(BlobField(1, a) + (BlobField(1, b) + rest), h, MergeHeader, RECURSION_LIMIT)
         == ParseFields(rest, h.(serviceName := b), MergeHeader, RECURSION_LIMIT)
  {
    hide ParseFields, BlobField, Utf8;
    ParseBlobField(1, a, BlobField(1, b) + rest, h, MergeHeader, RECURSION_LIMIT);
    ParseBlobField(1, b, rest, h.(serviceName := a), MergeHeader, RECURSION_LIMIT);
  }

  /** But a second `error` is merged into the first: what it does not carry stays. */
  lemma ErrorsMerge(h: RpcHeader, e: RpcError, d: RpcError)
    requires |d.message| < TWO_31 && Utf8(d.message)
    ensures MergeHeader(h.(error := Some(e)), Field(8, Blob(ErrorBytes(d))))
         == Parsed(true, h.(error := Some(Over(e, d))))
  {
    hide ParseFields, Utf8, ErrorBytes;
    ErrorOver(e, d);
  }

  function Over(e: RpcError, d: RpcError): RpcError {
    RpcError(if d.code == 0 then e.code else d.code, if d.message == [] then e.message else d.message)
  }

  lemma ErrorOver(e: RpcError, d: RpcError)
    requires |d.message| < TWO_31 && Utf8(d.message)
    ensures ParseFields(ErrorBytes(d), e, MergeError, RECURSION_LIMIT - 1) == Parsed(true, Over(e, d))
  {
    SignExtendRoundTrip(d.code);
    hide Utf8, SignExtend, LowInt32, ParseFields, BlobField, NumField;
    var acc := if d.code == 0 then e else e.(code := d.code);
    var text := OptBlob(2, d.message);
    if d.code != 0 {
      ParseNumField(1, SignExtend(d.code), text, e, MergeError, RECURSION_LIMIT - 1);
    } else {
      assert ErrorBytes(d) == text;
    }
    ParseNothing(acc, MergeError, RECURSION_LIMIT - 1);
    if d.message != [] {
      ParseBlobField(2, d.message, [], acc, MergeError, RECURSION_LIMIT - 1);
      ParseNothing(Over(e, d), MergeError, RECURSION_LIMIT - 1);
      assert text + [] == text;
    }
  }

  // ---------- strings that can be read back ----------

  ghost predicate ReadableEntries(metadata: map<Bytes, Bytes>) {
    forall k <- metadata :: Utf8(k) && Utf8(metadata[k])
  }

  /** Every string of the header is UTF-8. Writing does not ask for it, reading does. */
  ghost predicate Readable(h: RpcHeader) {
    && Utf8(h.serviceName) && Utf8(h.methodName)
    && ReadableEntries(h.metadata)
    && (h.error.Some? ==> Utf8(h.error.value.message))
  }

  lemma {:induction false} ParsedErrorReadable(bs: Bytes, e: RpcError, depth: nat)
    requires Utf8(e.message)
    ensures var r := ParseFields(bs, e, MergeError, depth); r.ok ==> Utf8(r.partial.message)
    decreases |bs|
  {
    hide Utf8;
    if bs != [] && ReadField(bs, depth).Some? {
      var f := ReadField(bs, depth).value;
      if MergeError(e, f.value).ok {
        ParsedErrorReadable(f.rest, MergeError(e, f.value).partial, depth);
      }
    }
  }

  lemma {:induction false} ParsedEntryReadable(bs: Bytes, e: (Bytes, Bytes), depth: nat)
    requires Utf8(e.0) && Utf8(e.1)
    ensures var r := ParseFields(bs, e, MergeEntry, depth); r.ok ==> Utf8(r.partial.0) && Utf8(r.partial.1)
    decreases |bs|
  {
    hide Utf8;
    if bs != [] && ReadField(bs, depth).Some? {
      var f := ReadField(bs, depth).value;
      if MergeEntry(e, f.value).ok {
        ParsedEntryReadable(f.rest, MergeEntry(e, f.value).partial, depth);
      }
    }
  }

  lemma MergedReadable(h: RpcHeader, f: Field)
    requires Readable(h)
    ensures var r := MergeHeader(h, f); ReadableEntries(r.partial.metadata) && (r.ok ==> Readable(r.partial))
  {
    hide ParseFields, ReadableEntries;
    assert Utf8([]);
    hide Utf8;
    match f {
      case Field(6, Blob(b)) =>
        ParsedEntryReadable(b, ([], []), RECURSION_LIMIT - 1);
        var entry := ParseFields(b, ([], []), MergeEntry, RECURSION_LIMIT - 1);
        if entry.ok {
          EntryReadable(h.metadata, entry.partial.0, entry.partial.1);
        }
      case Field(8, Blob(b)) =>
        ParsedErrorReadable(b, if h.error.Some? then h.error.value else EMPTY_ERROR, RECURSION_LIMIT - 1);
      case _ =>
    }
  }

  lemma EntryReadable(metadata: map<Bytes, Bytes>, key: Bytes, value: Bytes)
    requires ReadableEntries(metadata) && Utf8(key) && Utf8(value)
    ensures ReadableEntries(metadata[key := value])
  {
    hide Utf8;
  }

  /** What a parser accepts is readable; of a header it refuses, the map entries at least are. */
  lemma {:induction false} ParsedReadable(bs: Bytes, h: RpcHeader)
    requires Readable(h)
    ensures var r := ParseFields(bs, h, MergeHeader, RECURSION_LIMIT);
      ReadableEntries(r.partial.metadata) && (r.ok ==> Readable(r.partial))
    decreases |bs|
  {
    hide ReadField, MergeHeader;
    if bs != [] && ReadField(bs, RECURSION_LIMIT).Some? {
      var f := ReadField(bs, RECURSION_LIMIT).value;
      MergedReadable(h, f.value);
      if MergeHeader(h, f.value).ok {
        ParsedReadable(f.rest, MergeHeader(h, f.value).partial);
      }
    }
  }

  // ---------- parsing undoes serializing ----------

  lemma LowBits(high: nat, low: uint32)
    ensures (high * TWO_32 + low) % TWO_32 == low
  {
  }

  lemma Pow128Of9()
    ensures Pow128(9) == 0x8000_0000_0000_0000
  {
    assert Pow128(3) == 0x20_0000;
    assert Pow128(6) == 0x20_0000 * 0x20_0000;
  }

  lemma SignExtendRoundTrip(v: int32)
    ensures LowInt32(SignExtend(v)) == v
    ensures SignExtend(v) == 0 <==> v == 0
    ensures v < 0 ==> |Varint(SignExtend(v))| == 10
  {
    if v < 0 {
      var n := SignExtend(v);
      LowBits(0xFFFF_FFFF, v + TWO_32);
      hide Varint, Pow128;
      VarintLength64(n);
      Pow128Of9();
      VarintLengthLow(n, 9);
    }
  }

  lemma {:induction false} VarintLengthLow(n: nat, k: nat)
    requires n >= Pow128(k)
    ensures |Varint(n)| > k
  {
    if k > 0 {
      assert n / 128 >= Pow128(k - 1);
      VarintLengthLow(n / 128, k - 1);
    }
  }

  /** The nested message comes back with both fields; it is refused exactly when its text is not
      UTF-8. */
  lemma ErrorRoundTrip(e: RpcError)
    requires |e.message| < TWO_31
    ensures ParseFields(ErrorBytes(e), EMPTY_ERROR, MergeError, RECURSION_LIMIT - 1) == Parsed(Utf8(e.message), e)
  {
    SignExtendRoundTrip(e.code);
    var acc := EMPTY_ERROR.(code := e.code);
    if e.code != 0 {
      ParseNumField(1, SignExtend(e.code), OptBlob(2, e.message), EMPTY_ERROR, MergeError, RECURSION_LIMIT - 1);
    } else {
      assert ErrorBytes(e) == OptBlob(2, e.message);
    }
    assert Utf8([]);
    hide Utf8;
    if e.message != [] {
      ParseBlobField(2, e.message, [], acc, MergeError, RECURSION_LIMIT - 1);
      assert OptBlob(2, e.message) + [] == OptBlob(2, e.message);
    }
  }

  lemma EntryRoundTrip(key: Bytes, value: Bytes)
    requires |key| < TWO_31 && |value| < TWO_31
    ensures var r := ParseFields(EntryBytes(key, value), ([], []), MergeEntry, RECURSION_LIMIT - 1);
      && (r.ok <==> Utf8(key) && Utf8(value))
      && (r.ok ==> r.partial == (key, value))
  {
    hide Utf8;
    ParseBlobField(1, key, BlobField(2, value), ([], []), MergeEntry, RECURSION_LIMIT - 1);
    ParseBlobField(2, value, [], (key, []), MergeEntry, RECURSION_LIMIT - 1);
    assert BlobField(2, value) + [] == BlobField(2, value);
  }

  /** What merging the listed entries, in order, makes of a map. */
  function Insert(into: map<Bytes, Bytes>, metadata: map<Bytes, Bytes>, order: seq<Bytes>): map<Bytes, Bytes>
    requires forall k <- order :: k in metadata
    decreases |order|
  {
    if order == [] then into
    else Insert(into[order[0] := metadata[order[0]]], metadata, order[1..])
  }

  lemma {:induction false} InsertAll(into: map<Bytes, Bytes>, metadata: map<Bytes, Bytes>, order: seq<Bytes>)
    requires forall k <- order :: k in metadata
    ensures var r := Insert(into, metadata, order);
      && (forall k :: k in r <==> k in into || k in order)
      && (forall k :: k in r ==> r[k] == if k in order then metadata[k] else into[k])
    decreases |order|
  {
    if order != [] {
      InsertAll(into[order[0] := metadata[order[0]]], metadata, order[1..]);
    }
  }

  lemma ParseEntry(h: RpcHeader, key: Bytes, value: Bytes, rest: Bytes)
    requires |EntryBytes(key, value)| < TWO_31
    ensures var r := ParseFields(BlobField(6, EntryBytes(key, value)) + rest, h, MergeHeader, RECURSION_LIMIT);
      if Utf8(key) && Utf8(value) then
        r == ParseFields(rest, h.(metadata := h.metadata[key := value]), MergeHeader, RECURSION_LIMIT)
      else !r.ok
  {
    hide ParseFields, Utf8;
    var entry := EntryBytes(key, value);
    assert |key| < TWO_31 && |value| < TWO_31;
    hide EntryBytes, BlobField;
    EntryRoundTrip(key, value);
    ParseBlobField(6, entry, rest, h, MergeHeader, RECURSION_LIMIT);
  }

  lemma BlobFieldLonger(number: nat, b: Bytes)
    ensures |b| <= |BlobField(number, b)|
  {
    hide Varint;
  }

  lemma {:induction false} ParseMetadata(h: RpcHeader, metadata: map<Bytes, Bytes>, order: seq<Bytes>, rest: Bytes)
    requires forall k <- order :: k in metadata
    requires |MetadataBytes(metadata, order)| < TWO_31
    ensures var r := ParseFields(MetadataBytes(metadata, order) + rest, h, MergeHeader, RECURSION_LIMIT);
      if forall k <- order :: Utf8(k) && Utf8(metadata[k]) then
        r == ParseFields(rest, h.(metadata := Insert(h.metadata, metadata, order)), MergeHeader, RECURSION_LIMIT)
      else !r.ok
    decreases |order|
  {
    hide ParseFields, MergeHeader, Utf8, EntryBytes, BlobField;
    if order == [] {
      assert MetadataBytes(metadata, order) + rest == rest;
    } else {
      var key, value := order[0], metadata[order[0]];
      var tail := MetadataBytes(metadata, order[1..]);
      var entry := BlobField(6, EntryBytes(key, value));
      assert MetadataBytes(metadata, order) == entry + tail;
      hide MetadataBytes, Insert;
      Regroup(entry, tail, rest);
      BlobFieldLonger(6, EntryBytes(key, value));
      ParseEntry(h, key, value, tail + rest);
      ParseMetadata(h.(metadata := h.metadata[key := value]), metadata, order[1..], rest);
      InsertStep(h.metadata, metadata, order);
      assert forall k :: k in order <==> k == key || k in order[1..];
    }
  }

  lemma InsertStep(into: map<Bytes, Bytes>, metadata: map<Bytes, Bytes>, order: seq<Bytes>)
    requires order != [] && forall k <- order :: k in metadata
    ensures Insert(into, metadata, order) == Insert(into[order[0] := metadata[order[0]]], metadata, order[1..])
  {
  }

  lemma ParseOptNum(number: nat, n: uint64, rest: Bytes, h: RpcHeader)
    requires 0 < number < 16
    requires MergeHeader(h, Field(number, Num(n))).ok
    requires n == 0 ==> MergeHeader(h, Field(number, Num(n))).partial == h
    ensures ParseFields(OptNum(number, n) + rest, h, MergeHeader, RECURSION_LIMIT)
         == ParseFields(rest, MergeHeader(h, Field(number, Num(n))).partial, MergeHeader, RECURSION_LIMIT)
  {
    if n == 0 {
      assert OptNum(number, n) + rest == rest;
    } else {
      ParseNumField(number, n, rest, h, MergeHeader, RECURSION_LIMIT);
    }
  }

  lemma ParseOptString(number: nat, b: Bytes, rest: Bytes, h: RpcHeader)
    requires 0 < number < 16 && |b| < TWO_31
    requires MergeHeader(h, Field(number, Blob(b))).ok <==> Utf8(b)
    requires b == [] ==> MergeHeader(h, Field(number, Blob(b))).partial == h
    ensures var r := ParseFields(OptBlob(number, b) + rest, h, MergeHeader, RECURSION_LIMIT);
      if Utf8(b) then
        r == ParseFields(rest, MergeHeader(h, Field(number, Blob(b))).partial, MergeHeader, RECURSION_LIMIT)
      else !r.ok
  {
    assert Utf8([]);
    hide Utf8;
    if b == [] {
      assert OptBlob(number, b) + rest == rest;
    } else {
      ParseBlobField(number, b, rest, h, MergeHeader, RECURSION_LIMIT);
    }
  }

  lemma ParseNameFields(h: RpcHeader, rest: Bytes)
    requires |h.serviceName| < TWO_31 && |h.methodName| < TWO_31
    ensures var r := ParseFields(
                OptBlob(1, h.serviceName) + (OptBlob(2, h.methodName) + (OptNum(3, h.argsSize) + rest)),
                EMPTY_HEADER, MergeHeader, RECURSION_LIMIT);
      if Utf8(h.serviceName) && Utf8(h.methodName) then
        r == ParseFields(rest, Named(h), MergeHeader, RECURSION_LIMIT)
      else !r.ok
  {
    hide ParseFields, Utf8;
    var a1 := EMPTY_HEADER.(serviceName := h.serviceName);
    var a2 := a1.(methodName := h.methodName);
    ParseOptString(1, h.serviceName, OptBlob(2, h.methodName) + (OptNum(3, h.argsSize) + rest), EMPTY_HEADER);
    ParseOptString(2, h.methodName, OptNum(3, h.argsSize) + rest, a1);
    ParseOptNum(3, h.argsSize, rest, a2);
  }

  /** What has been read of a header after its first three fields. */
  function Named(h: RpcHeader): RpcHeader {
    EMPTY_HEADER.(serviceName := h.serviceName, methodName := h.methodName, argsSize := h.argsSize)
  }

  /** What has been read of a header before its last three fields. */
  function Headed(h: RpcHeader): RpcHeader {
    h.(compressed := false, error := None, cancelled := false)
  }

  lemma ParseMiddleFields(h: RpcHeader, order: seq<Bytes>, rest: Bytes)
    requires IsOrder(order, h.metadata) && |MetadataBytes(h.metadata, order)| < TWO_31
    ensures var r := ParseFields(
                OptNum(4, h.requestId) + (OptNum(5, SignExtend(h.status)) + (MetadataBytes(h.metadata, order) + rest)),
                Named(h), MergeHeader, RECURSION_LIMIT);
      if ReadableEntries(h.metadata) then r == ParseFields(rest, Headed(h), MergeHeader, RECURSION_LIMIT) else !r.ok
  {
    hide ParseFields, Utf8, MetadataBytes, Insert, OptNum;
    SignExtendRoundTrip(h.status);
    var r5 := MetadataBytes(h.metadata, order) + rest;
    var r4 := OptNum(5, SignExtend(h.status)) + r5;
    ParseOptNum(4, h.requestId, r4, Named(h));
    var a4 := Named(h).(requestId := h.requestId);
    ParseOptNum(5, SignExtend(h.status), r5, a4);
    var a5 := a4.(status := h.status);
    ParseMetadata(a5, h.metadata, order, rest);
    InsertAll(map[], h.metadata, order);
    assert Insert(map[], h.metadata, order) == h.metadata;
    assert a5.(metadata := h.metadata) == Headed(h);
  }

  lemma ParseTrailingFields(h: RpcHeader)
    requires h.error.Some? ==> |ErrorBytes(h.error.value)| < TWO_31
    ensures var r := ParseFields(
                OptNum(7, Flag(h.compressed)) + (ErrorField(h) + OptNum(9, Flag(h.cancelled))),
                Headed(h), MergeHeader, RECURSION_LIMIT);
      if h.error.Some? ==> Utf8(h.error.value.message) then r == Parsed(true, h) else !r.ok
  {
    hide ParseFields, Utf8;
    var r2 := OptNum(9, Flag(h.cancelled));
    ParseOptNum(7, Flag(h.compressed), ErrorField(h) + r2, Headed(h));
    var a1 := Headed(h).(compressed := h.compressed);
    if h.error.Some? {
      ErrorRoundTrip(h.error.value);
      ParseBlobField(8, ErrorBytes(h.error.value), r2, a1, MergeHeader, RECURSION_LIMIT);
    } else {
      assert ErrorField(h) + r2 == r2;
    }
    var a2 := a1.(error := h.error);
    ParseOptNum(9, Flag(h.cancelled), [], a2);
    ParseNothing(h, MergeHeader, RECURSION_LIMIT);
    assert r2 + [] == r2;
  }

  /** A serialized header is accepted exactly when its strings are UTF-8, and then it is the same
      header: every field, whatever the order the metadata was written in, and an `error` that is
      present stays present even when empty. */
  lemma HeaderRoundTrip(h: RpcHeader, order: seq<Bytes>)
    requires IsOrder(order, h.metadata)
    requires |Serialize(h, order)| < TWO_31
    ensures ParseHeader(Serialize(h, order)).ok <==> Readable(h)
    ensures Readable(h) ==> ParseHeader(Serialize(h, order)) == Parsed(true, h)
  {
    var tail := OptNum(7, Flag(h.compressed)) + (ErrorField(h) + OptNum(9, Flag(h.cancelled)));
    hide ParseFields, MergeHeader, Utf8;
    ParseNameFields(h, OptNum(4, h.requestId)
      + (OptNum(5, SignExtend(h.status)) + (MetadataBytes(h.metadata, order) + tail)));
    ParseMiddleFields(h, order, tail);
    ParseTrailingFields(h);
  }
}
