/** `XrpcServer`: from the bytes of one read to the bytes of one reply. */
module Server {
  import opened Common
  import opened Unicode
  import opened Wire
  import opened Header
  import opened Codec
  import opened Naming

  /** What one run of a service method does: it returns, having possibly called `SetFailed`, or it
      throws, leaving the response as filled so far. */
  datatype Ran<+M> =
    | Returned(response: M, failed: bool, text: Bytes)
    | Threw(response: M, text: Bytes)

  datatype Method<!M> = Method(name: Bytes, request: Schema<M>, response: Schema<M>, call: M -> Ran<M>)

  type Service<!M> = seq<Method<M>>

  type Services<!M> = map<Bytes, Service<M>>

  /** The order in which a map field is written out. */
  type Ordering = map<Bytes, Bytes> -> seq<Bytes>

  ghost predicate ValidOrdering(ord: Ordering) {
    forall m {:trigger ord(m)} :: IsOrder(ord(m), m)
  }

  /** Such an order exists for every map. */
  ghost function Keys(m: map<Bytes, Bytes>): seq<Bytes>
    decreases |m|
  {
    if m == map[] then []
    else
      var k :| k in m;
      SmallerMap(m, k);
      [k] + Keys(m - {k})
  }

  lemma SmallerMap(m: map<Bytes, Bytes>, k: Bytes)
    requires k in m
    ensures |m - {k}| < |m|
  {
    assert m.Keys == (m - {k}).Keys + {k};
  }

  lemma AddKey(m: map<Bytes, Bytes>, k: Bytes, rest: seq<Bytes>)
    requires k in m && IsOrder(rest, m - {k})
    ensures IsOrder([k] + rest, m)
  {
    assert forall x :: x in [k] + rest <==> x == k || x in rest;
    assert forall i :: 0 <= i < |rest| ==> rest[i] in rest;
  }

  lemma {:induction false} KeysInOrder(m: map<Bytes, Bytes>)
    ensures IsOrder(Keys(m), m)
    decreases |m|
  {
    if m != map[] {
      var k := Keys(m)[0];
      SmallerMap(m, k);
      assert Keys(m) == [k] + Keys(m - {k});
      KeysInOrder(m - {k});
      AddKey(m, k, Keys(m - {k}));
    }
  }

  lemma KeysIsOrdering()
    ensures ValidOrdering(Keys)
  {
    forall m ensures IsOrder(Keys(m), m) {
      KeysInOrder(m);
    }
  }

  /** One asynchronous read hands over at most this many bytes. */
  const MAX_READ: nat := 8192

  // ---------- what a request is judged to be ----------

  /** `what()` is a C string: the text up to the first NUL. */
  function CString(text: Bytes): (r: Bytes)
    ensures r <= text && 0 !in r
    ensures 0 !in text ==> r == text
  {
    if text == [] || text[0] == 0 then [] else [text[0]] + CString(text[1..])
  }

  lemma {:induction false} CStringEnds(text: Bytes)
    ensures CString(text) == text || (|CString(text)| < |text| && text[|CString(text)|] == 0)
  {
    if text != [] && text[0] != 0 {
      CStringEnds(text[1..]);
    }
  }

  /** A text that is UTF-8 is so still when `what()` has cut it. */
  lemma CStringKeepsUtf8(text: Bytes)
    requires Utf8(text)
    ensures Utf8(CString(text))
  {
    CStringEnds(text);
    if CString(text) != text {
      CutAtPlain(text, |CString(text)|);
      assert CString(text) == text[..|CString(text)|];
    }
  }

  /** The first method with the name, in declaration order. */
  function FirstNamed<M>(methods: Service<M>, name: Bytes): (r: Option<Method<M>>)
    ensures r.Some? ==> r.value in methods && r.value.name == name
    ensures r.None? ==> forall m <- methods :: m.name != name
  {
    if methods == [] then None
    else if methods[0].name == name then Some(methods[0])
    else FirstNamed(methods[1..], name)
  }

  datatype Verdict<!M> =
    | Reject(header: RpcHeader, code: int32, text: Bytes)
    | Invoke(header: RpcHeader, target: Method<M>, request: M)

  function Judge<M>(z: Zlib, services: Services<M>, data: Bytes): Verdict<M> {
    match DecodeFrame(z, data)
    case Refused(h) => Reject(h, 1, Ascii("Failed to decode request"))
    case Accepted(h, args) =>
      if h.cancelled then Reject(h, 5, Ascii("Request canceled by client"))
      else if h.serviceName !in services then Reject(h, 2, Ascii("Service not found"))
      else
        match FirstNamed(services[h.serviceName], h.methodName)
        case None => Reject(h, 3, Ascii("Method not found"))
        case Some(m) =>
          match m.request.parse(args)
          case None => Reject(h, 4, Ascii("Failed to parse request"))
          case Some(request) => Invoke(h, m, request)
  }

  function Fault(h: RpcHeader, code: int32, text: Bytes): RpcHeader {
    h.(status := 1, error := Some(RpcError(code, text)))
  }

  /** Whether the request was served: it reached a method that neither failed nor threw. */
  predicate Served<M>(v: Verdict<M>) {
    v.Invoke? && var ran := v.target.call(v.request); ran.Returned? && !ran.failed
  }

  /** Header and payload of the reply before they are framed. */
  function ReplyHeader<M>(v: Verdict<M>): RpcHeader {
    match v
    case Reject(h, code, text) => Fault(h, code, text)
    case Invoke(h, m, request) =>
      if Served(v) then h.(status := 0) else Fault(h, 5, CString(m.call(request).text))
  }

  function ReplyPayload<M>(v: Verdict<M>): Bytes {
    if v.Invoke? then v.target.response.ser(v.target.call(v.request).response) else []
  }

  function Reply<M>(z: Zlib, ord: Ordering, services: Services<M>, data: Bytes): (r: Bytes)
    ensures r != []
  {
    var h := ReplyHeader(Judge(z, services, data));
    Frame(z, h, ReplyPayload(Judge(z, services, data)), ord(h.metadata))
  }

  /** What the server side of a connection is made of. */
  datatype World<!M> = World(z: Zlib, ord: Ordering, services: Services<M>) {
    function Answer(data: Bytes): Bytes {
      Reply(z, ord, services, data)
    }
  }

  lemma AnswerNotEmpty<M>(w: World<M>, data: Bytes)
    ensures w.Answer(data) != []
  {
    hide Reply;
  }

  // ---------- replies always fit ----------

  ghost predicate SmallEntries(metadata: map<Bytes, Bytes>, count: nat) {
    |metadata| <= count && forall k <- metadata :: |k| <= MAX_READ && |metadata[k]| <= MAX_READ
  }

  /** Every string in the header is at most `MAX_READ` long and there are at most `count`
      metadata entries. */
  ghost predicate Small(h: RpcHeader, count: nat) {
    && |h.serviceName| <= MAX_READ && |h.methodName| <= MAX_READ
    && SmallEntries(h.metadata, count)
    && (h.error.Some? ==> |h.error.value.message| <= MAX_READ)
  }

  lemma {:induction false} ErrorStaysSmall(bs: Bytes, e: RpcError, depth: nat)
    requires |bs| <= MAX_READ && |e.message| <= MAX_READ
    ensures |ParseFields(bs, e, MergeError, depth).partial.message| <= MAX_READ
    decreases |bs|
  {
    hide Utf8;
    if bs != [] && ReadField(bs, depth).Some? {
      var f := ReadField(bs, depth).value;
      ErrorStaysSmall(f.rest, MergeError(e, f.value).partial, depth);
    }
  }

  lemma {:induction false} EntryStaysSmall(bs: Bytes, e: (Bytes, Bytes), depth: nat)
    requires |bs| <= MAX_READ && |e.0| <= MAX_READ && |e.1| <= MAX_READ
    ensures var r := ParseFields(bs, e, MergeEntry, depth).partial; |r.0| <= MAX_READ && |r.1| <= MAX_READ
    decreases |bs|
  {
    hide Utf8;
    if bs != [] && ReadField(bs, depth).Some? {
      var f := ReadField(bs, depth).value;
      EntryStaysSmall(f.rest, MergeEntry(e, f.value).partial, depth);
    }
  }

  lemma EntryAdded(metadata: map<Bytes, Bytes>, count: nat, key: Bytes, value: Bytes)
    requires SmallEntries(metadata, count) && |key| <= MAX_READ && |value| <= MAX_READ
    ensures SmallEntries(metadata, count + 1) && SmallEntries(metadata[key := value], count + 1)
  {
    assert metadata[key := value].Keys == metadata.Keys + {key};
  }

  lemma MergeStaysSmall(h: RpcHeader, count: nat, f: Field)
    requires Small(h, count)
    requires f.payload.Blob? ==> |f.payload.b| <= MAX_READ
    ensures Small(MergeHeader(h, f).partial, count + 1)
  {
    hide ParseFields, Utf8, SmallEntries;
    EntryAdded(h.metadata, count, [], []);
    match f {
      case Field(6, Blob(b)) =>
        EntryStaysSmall(b, ([], []), RECURSION_LIMIT - 1);
        var k := ParseFields(b, ([], []), MergeEntry, RECURSION_LIMIT - 1).partial;
        EntryAdded(h.metadata, count, k.0, k.1);
      case Field(8, Blob(b)) =>
        ErrorStaysSmall(b, if h.error.Some? then h.error.value else EMPTY_ERROR, RECURSION_LIMIT - 1);
      case _ =>
    }
  }

  lemma {:induction false} ParseStaysSmall(bs: Bytes, h: RpcHeader, count: nat)
    requires |bs| <= MAX_READ && Small(h, count)
    ensures Small(ParseFields(bs, h, MergeHeader, RECURSION_LIMIT).partial, count + |bs|)
    decreases |bs|
  {
    hide ReadField, MergeHeader;
    if bs != [] && ReadField(bs, RECURSION_LIMIT).Some? {
      var f := ReadField(bs, RECURSION_LIMIT).value;
      MergeStaysSmall(h, count, f.value);
      if MergeHeader(h, f.value).ok {
        ParseStaysSmall(f.rest, MergeHeader(h, f.value).partial, count + 1);
      }
    }
  }

  lemma {:induction false} OrderSize(order: seq<Bytes>, m: map<Bytes, Bytes>)
    requires IsOrder(order, m)
    ensures |order| == |m|
    decreases |order|
  {
    if order == [] {
      assert m == map[];
    } else {
      var k := order[0];
      assert m.Keys == (m - {k}).Keys + {k};
      forall x ensures x in order[1..] <==> x in m - {k} {
        assert x in order <==> x == k || x in order[1..];
      }
      OrderSize(order[1..], m - {k});
    }
  }

  lemma BlobSize(number: nat, b: Bytes)
    requires 0 < number < 16 && |b| < TWO_31
    ensures |BlobField(number, b)| <= |b| + 6
  {
    ReadTag(number, 2, []);
    VarintLength32(|b|);
  }

  lemma NumSize(number: nat, n: uint64)
    requires 0 < number < 16
    ensures |OptNum(number, n)| <= 11
  {
    ReadTag(number, 0, []);
    VarintLength64(n);
  }

  lemma {:induction false} MetadataSize(m: map<Bytes, Bytes>, order: seq<Bytes>)
    requires forall k <- order :: k in m && |k| <= MAX_READ && |m[k]| <= MAX_READ
    ensures |MetadataBytes(m, order)| <= 16402 * |order|
    decreases |order|
  {
    if order != [] {
      var k := order[0];
      BlobSize(1, k);
      BlobSize(2, m[k]);
      BlobSize(6, EntryBytes(k, m[k]));
      MetadataSize(m, order[1..]);
    }
  }

  lemma HeaderFits(h: RpcHeader, order: seq<Bytes>)
    requires Small(h.(error := None), MAX_READ) && IsOrder(order, h.metadata)
    requires h.error.Some? ==> |h.error.value.message| < 0x4000_0000
    ensures |Serialize(h, order)| < TWO_31
  {
    hide Varint, MetadataBytes, BlobField, NumField;
    OrderSize(order, h.metadata);
    MetadataSize(h.metadata, order);
    BlobSize(1, h.serviceName);
    BlobSize(2, h.methodName);
    NumSize(3, h.argsSize);
    NumSize(4, h.requestId);
    NumSize(5, SignExtend(h.status));
    NumSize(7, Flag(h.compressed));
    NumSize(9, Flag(h.cancelled));
    ErrorFits(h.error);
  }

  lemma ErrorFits(e: Option<RpcError>)
    requires e.Some? ==> |e.value.message| < 0x4000_0000
    ensures e.Some? ==> |BlobField(8, ErrorBytes(e.value))| < 0x4000_0020
  {
    hide Varint, NumField, BlobField;
    if e.Some? {
      NumSize(1, SignExtend(e.value.code));
      BlobSize(2, e.value.message);
      BlobSize(8, ErrorBytes(e.value));
    }
  }

  // ---------- what replies mean ----------

  /** The only limit put on services: a response below two gigabytes and an error text below one. */
  ghost predicate Bounded<M>(v: Verdict<M>) {
    v.Invoke? ==>
      var ran := v.target.call(v.request);
      |v.target.response.ser(ran.response)| < TWO_31 && |ran.text| < 0x4000_0000
  }

  lemma DecodedHeaderSmall(z: Zlib, data: Bytes)
    requires |data| <= MAX_READ
    ensures Small(DecodeFrame(z, data).header, MAX_READ)
  {
    hide ParseFields;
    var r := ReadVarint(data, 10);
    if r.Some? && r.value.value % TWO_32 <= |r.value.rest| {
      ParseStaysSmall(r.value.rest[..r.value.value % TWO_32], EMPTY_HEADER, 0);
    }
  }

  lemma JudgedHeader<M>(z: Zlib, services: Services<M>, data: Bytes)
    ensures var v := Judge(z, services, data);
      && v.header == DecodeFrame(z, data).header && (v.Invoke? ==> DecodeFrame(z, data).Accepted?)
      && (v.Reject? ==> |v.text| < 100 && Plain(v.text))
  {
    hide DecodeFrame, FirstNamed, Ascii;
  }

  lemma ReplySendable<M>(z: Zlib, ord: Ordering, services: Services<M>, data: Bytes)
    requires ValidOrdering(ord) && |data| <= MAX_READ
    requires Bounded(Judge(z, services, data))
    ensures var v := Judge(z, services, data); var h := ReplyHeader(v);
      Sendable(z, h, ReplyPayload(v), ord(h.metadata))
  {
    hide DecodeFrame, Serialize, CString, Served, IsOrder, Judge, Body, Packs;
    var v := Judge(z, services, data);
    var h := ReplyHeader(v);
    DecodedHeaderSmall(z, data);
    JudgedHeader(z, services, data);
    assert IsOrder(ord(h.metadata), h.metadata);
    StampSmall(z, h, ReplyPayload(v), v.header);
    HeaderFits(Stamp(z, h, ReplyPayload(v)), ord(h.metadata));
  }

  lemma StampSmall(z: Zlib, h: RpcHeader, payload: Bytes, from: RpcHeader)
    requires Small(from, MAX_READ)
    requires h.serviceName == from.serviceName && h.methodName == from.methodName && h.metadata == from.metadata
    ensures Small(Stamp(z, h, payload).(error := None), MAX_READ)
  {
  }

  /** Whether the strings that a reply copies are UTF-8: the two names, and the failure text. */
  predicate Legible<M>(v: Verdict<M>) {
    && Utf8(v.header.serviceName) && Utf8(v.header.methodName)
    && (v.Invoke? && !Served(v) ==> Utf8(CString(v.target.call(v.request).text)))
  }

  /** A decoded request has good names; of a refused one at least the metadata is good. */
  lemma DecodedReadable(z: Zlib, data: Bytes)
    ensures var d := DecodeFrame(z, data);
      ReadableEntries(d.header.metadata) && (d.Accepted? ==> Readable(d.header))
  {
    hide ParseFields, Utf8, ReadVarint;
    EmptyReadable();
    var r := ReadVarint(data, 10);
    if r.Some? && r.value.value % TWO_32 <= |r.value.rest| {
      ParsedReadable(r.value.rest[..r.value.value % TWO_32], EMPTY_HEADER);
    }
  }

  lemma EmptyReadable()
    ensures Readable(EMPTY_HEADER)
  {
  }

  lemma ReplyReadable<M>(z: Zlib, services: Services<M>, data: Bytes)
    ensures var v := Judge(z, services, data);
      && (Readable(ReplyHeader(v)) <==> Legible(v))
      && (DecodeFrame(z, data).Accepted? ==>
            (Legible(v) <==> (v.Invoke? && !Served(v) ==> Utf8(CString(v.target.call(v.request).text)))))
  {
    hide DecodeFrame, Judge, CString, Utf8, ReadableEntries, Served;
    DecodedReadable(z, data);
    JudgedHeader(z, services, data);
    var v := Judge(z, services, data);
    if v.Reject? {
      PlainIsUtf8(v.text);
    }
  }

  /** For every read, `OnMessage` answers one nonempty frame. It decodes to the reply header and
      payload exactly when the strings it copies are UTF-8; no front part of it ever decodes. */
  lemma ReplyMeaning<M>(z: Zlib, ord: Ordering, services: Services<M>, data: Bytes)
    requires Lossless(z) && ValidOrdering(ord) && |data| <= MAX_READ
    requires Bounded(Judge(z, services, data))
    ensures var reply, v := Reply(z, ord, services, data), Judge(z, services, data);
      && reply != [] && IsWritten(z, reply) && (IsFrame(z, reply) <==> Legible(v))
      && (forall trailing {:trigger reply + trailing} ::
            var d := DecodeFrame(z, reply + trailing);
            if Legible(v) then d == Accepted(Stamp(z, ReplyHeader(v), ReplyPayload(v)), ReplyPayload(v))
            else d.Refused?)
      && (forall cut: nat {:trigger reply[..cut]} :: cut < |reply| ==> DecodeFrame(z, reply[..cut]).Refused?)
  {
    hide DecodeFrame, Judge, Readable, Sendable, Legible, Lossless, Bounded;
    var v := Judge(z, services, data);
    var h := ReplyHeader(v);
    ReplySendable(z, ord, services, data);
    ReplyReadable(z, services, data);
    var reply := Reply(z, ord, services, data);
    forall trailing
      ensures var d := DecodeFrame(z, reply + trailing);
        if Legible(v) then d == Accepted(Stamp(z, h, ReplyPayload(v)), ReplyPayload(v)) else d.Refused?
    {
      FrameRoundTrip(z, h, ReplyPayload(v), ord(h.metadata), trailing);
    }
    forall cut: nat | cut < |reply| ensures DecodeFrame(z, reply[..cut]).Refused? {
      PrefixRefused(z, h, ReplyPayload(v), ord(h.metadata), cut);
    }
    assert reply + [] == reply;
    FrameAccepted(z, reply);
  }

  /** What the reply says: status 0 exactly when the request was served, otherwise 1 with an error;
      request id, names and metadata are those of the request. */
  lemma ReplyStatus<M>(z: Zlib, services: Services<M>, data: Bytes)
    ensures var v := Judge(z, services, data); var h := Stamp(z, ReplyHeader(v), ReplyPayload(v));
      && (h.status == 0 <==> Served(v))
      && (!Served(v) ==> h.status == 1 && h.error.Some?)
      && (v.Reject? ==> h.error == Some(RpcError(v.code, v.text)))
      && (v.Invoke? && !Served(v) ==> h.error == Some(RpcError(5, CString(v.target.call(v.request).text))))
      && h.requestId == v.header.requestId && h.metadata == v.header.metadata
      && h.serviceName == v.header.serviceName && h.methodName == v.header.methodName
      && v.header == DecodeFrame(z, data).header
      && h == v.header.(status := h.status, error := if Served(v) then v.header.error else h.error,
                        argsSize := h.argsSize, compressed := h.compressed)
      && ReplyPayload(v) == if v.Reject? then [] else v.target.response.ser(v.target.call(v.request).response)
  {
    hide DecodeFrame, FirstNamed;
  }

  const BAD_NAME: Bytes := [3, 0x0A, 1, 0xFF]

  lemma BadNameRefused(z: Zlib)
    ensures !Utf8([0xFF])
    ensures DecodeFrame(z, BAD_NAME) == Refused(EMPTY_HEADER.(serviceName := [0xFF]))
  {
    assert ReadVarint(BAD_NAME, 10) == Some(Read(3, BAD_NAME[1..]));
    assert BAD_NAME[1..][..3] == [0x0A, 1, 0xFF];
    hide ReadVarint, ParseHeader, Utf8;
    BadNameParsed();
  }

  lemma BadNameParsed()
    ensures !Utf8([0xFF])
    ensures ParseHeader([0x0A, 1, 0xFF]) == Parsed(false, EMPTY_HEADER.(serviceName := [0xFF]))
  {
    assert CharSize([0xFF]) == 0 && !Utf8([0xFF]);
    hide ParseFields, Utf8, BlobField;
    BadNameField();
    ParseBlobField(1, [0xFF], [], EMPTY_HEADER, MergeHeader, RECURSION_LIMIT);
  }

  lemma BadNameField()
    ensures BlobField(1, [0xFF]) + [] == [0x0A, 1, 0xFF]
  {
    assert Varint(1) == [1] && Tag(1, 2) == [0x0A];
  }

  /** A request whose header holds a service name that is not UTF-8 is answered, with the name
      copied into the reply; the caller cannot decode that reply. */
  lemma BadNameIsEchoed<M>(z: Zlib, ord: Ordering, services: Services<M>)
    requires Lossless(z) && ValidOrdering(ord)
    ensures DecodeFrame(z, BAD_NAME).header.serviceName == [0xFF]
    ensures Reply(z, ord, services, BAD_NAME) != []
    ensures DecodeFrame(z, Reply(z, ord, services, BAD_NAME)).Refused?
  {
    BadNameRefused(z);
    assert |BAD_NAME| == 4;
    hide DecodeFrame, Reply, Utf8, BAD_NAME, IsFrame, IsWritten, Lossless, ValidOrdering, Judge;
    JudgedHeader(z, services, BAD_NAME);
    ReplyMeaning(z, ord, services, BAD_NAME);
    var reply := Reply(z, ord, services, BAD_NAME);
    assert reply + [] == reply;
  }

  ghost predicate IsFirst<M>(methods: Service<M>, name: Bytes, i: nat) {
    && i < |methods| && methods[i].name == name
    && forall j :: 0 <= j < i ==> methods[j].name != name
  }

  lemma {:induction false} FirstNamedIndex<M>(methods: Service<M>, name: Bytes)
    ensures FirstNamed(methods, name).Some? <==> exists i: nat :: IsFirst(methods, name, i)
    ensures forall i: nat :: IsFirst(methods, name, i) ==> FirstNamed(methods, name) == Some(methods[i])
  {
    if methods != [] {
      var tail := methods[1..];
      FirstNamedIndex(tail, name);
      if methods[0].name == name {
        assert IsFirst(methods, name, 0);
      } else {
        forall i: nat | IsFirst(methods, name, i) ensures i > 0 && IsFirst(tail, name, i - 1) {
          assert forall j :: 0 <= j < i - 1 ==> tail[j] == methods[j + 1];
        }
        forall i: nat | IsFirst(tail, name, i) ensures IsFirst(methods, name, i + 1) {
          assert forall j :: 0 < j < i + 1 ==> methods[j] == tail[j - 1];
        }
      }
    }
  }

  /** The only way to be served, as conditions on the request; any other request is answered with
      status 1. */
  lemma ServedExactlyWhen<M>(z: Zlib, services: Services<M>, data: Bytes)
    ensures Served(Judge(z, services, data)) <==>
      && DecodeFrame(z, data).Accepted?
      && var h, args := DecodeFrame(z, data).header, DecodeFrame(z, data).body;
      && !h.cancelled
      && h.serviceName in services
      && exists i: nat ::
        && IsFirst(services[h.serviceName], h.methodName, i)
        && var m := services[h.serviceName][i];
        && m.request.parse(args).Some?
        && var ran := m.call(m.request.parse(args).value);
        && ran.Returned? && !ran.failed
  {
    hide DecodeFrame;
    var d := DecodeFrame(z, data);
    if d.Accepted? && d.header.serviceName in services {
      FirstNamedIndex(services[d.header.serviceName], d.header.methodName);
    }
  }

  /** And its own text. */
  lemma RefusalTexts<M>(z: Zlib, services: Services<M>, data: Bytes)
    ensures var v := Judge(z, services, data); v.Reject? ==>
      v.text == Ascii(
        if v.code == 1 then "Failed to decode request"
        else if v.code == 2 then "Service not found"
        else if v.code == 3 then "Method not found"
        else if v.code == 4 then "Failed to parse request"
        else "Request canceled by client")
  {
    hide DecodeFrame, FirstNamed, Ascii;
  }

  /** Each refusal has its own code, and each code its own reason. */
  lemma RefusedExactlyWhen<M>(z: Zlib, services: Services<M>, data: Bytes)
    ensures var v, d := Judge(z, services, data), DecodeFrame(z, data);
      var known := d.Accepted? && !d.header.cancelled && d.header.serviceName in services;
      && (v.Reject? && v.code == 1 <==> d.Refused?)
      && (v.Reject? && v.code == 5 <==> d.Accepted? && d.header.cancelled)
      && (v.Reject? && v.code == 2 <==> d.Accepted? && !d.header.cancelled && d.header.serviceName !in services)
      && (v.Reject? && v.code == 3 <==>
            known && forall m <- services[d.header.serviceName] :: m.name != d.header.methodName)
      && (v.Reject? && v.code == 4 <==> known && exists i: nat ::
            && IsFirst(services[d.header.serviceName], d.header.methodName, i)
            && services[d.header.serviceName][i].request.parse(d.body).None?)
  {
    hide DecodeFrame;
    var d := DecodeFrame(z, data);
    if d.Accepted? && d.header.serviceName in services {
      FirstNamedIndex(services[d.header.serviceName], d.header.methodName);
    }
  }

  // ---------- the server object ----------

  class XrpcServer<!M> {
    const codec: XrpcCodec
    const ord: Ordering
    const serverIp: string
    const serverPort: int32
    var services: Services<M>

    constructor (codec: XrpcCodec, ord: Ordering, serverIp: string, serverPort: int32)
      ensures this.codec == codec && this.ord == ord && this.serverIp == serverIp && this.serverPort == serverPort
      ensures services == map[]
    {
      this.codec, this.ord, this.serverIp, this.serverPort := codec, ord, serverIp, serverPort;
      services := map[];
    }

    /** `RegisterService`: the service can be called from now on, and the path and data that go to
        the registry name it, this server's endpoint and its methods. */
    method RegisterService(name: string, methodNames: seq<string>, service: Service<M>)
      returns (path: string, data: string)
      modifies this
      ensures services == old(services)[Ascii(name) := service]
      ensures path == RegistrationPath(name, serverIp, serverPort)
      ensures data == MethodsData(methodNames)
    {
      services := services[Ascii(name) := service];
      path := "/" + name + "/" + serverIp + ":" + IntText(serverPort);
      data := BuildData(METHODS, methodNames);
    }

    method CallServiceMethod(serviceName: Bytes, target: Method<M>, request: M, cancelled: bool)
      returns (thrown: Option<Bytes>, response: Slot<M>)
      ensures serviceName !in services ==> thrown == Some(Ascii("Service not found")) && response == Untouched
      ensures serviceName in services && cancelled ==>
        thrown == Some(Ascii("Request canceled by client")) && response == Untouched
      ensures serviceName in services && !cancelled ==>
        var ran := target.call(request);
        && response == Holds(ran.response)
        && thrown == if ran.Returned? && !ran.failed then None else Some(CString(ran.text))
    {
      response := Untouched;
      if serviceName !in services {
        return Some(Ascii("Service not found")), response;
      }
      if cancelled {
        return Some(Ascii("Request canceled by client")), response;
      }
      var ran := target.call(request);
      response := Holds(ran.response);
      match ran {
        case Threw(_, text) => thrown := Some(CString(text));
        case Returned(_, failed, text) =>
          if failed {
            thrown := Some(CString(text));
          } else {
            thrown := None;
          }
      }
    }

    method OnMessage(data: Bytes) returns (response: Bytes)
      ensures response == Reply(codec.z, ord, services, data)
    {
      hide DecodeFrame, Frame, FirstNamed, CString;
      var empty := Schema((m: Bytes) => m, (b: Bytes) => Some(b));
      var ok, header, args := codec.Decode(data);
      if !ok {
        var errorHeader := Fault(header, 1, Ascii("Failed to decode request"));
        response := codec.Encode(errorHeader, empty, [], ord(errorHeader.metadata));
        return;
      }
      if header.cancelled {
        var errorHeader := Fault(header, 5, Ascii("Request canceled by client"));
        response := codec.Encode(errorHeader, empty, [], ord(errorHeader.metadata));
        return;
      }
      if header.serviceName !in services {
        var errorHeader := Fault(header, 2, Ascii("Service not found"));
        response := codec.Encode(errorHeader, empty, [], ord(errorHeader.metadata));
        return;
      }
      var methods := services[header.serviceName];
      var target := FindMethod(methods, header.methodName);
      if target.None? {
        var errorHeader := Fault(header, 3, Ascii("Method not found"));
        response := codec.Encode(errorHeader, empty, [], ord(errorHeader.metadata));
        return;
      }
      var request := target.value.request.parse(args);
      if request.None? {
        var errorHeader := Fault(header, 4, Ascii("Failed to parse request"));
        response := codec.Encode(errorHeader, empty, [], ord(errorHeader.metadata));
        return;
      }
      var thrown, filled := CallServiceMethod(header.serviceName, target.value, request.value, header.cancelled);
      var message := filled.message;
      if thrown.None? {
        var responseHeader := header.(status := 0);
        response := codec.Encode(responseHeader, target.value.response, message, ord(responseHeader.metadata));
      } else {
        var errorHeader := Fault(header, 5, thrown.value);
        response := codec.Encode(errorHeader, target.value.response, message, ord(errorHeader.metadata));
      }
    }
  }

  method FindMethod<M>(methods: Service<M>, name: Bytes) returns (target: Option<Method<M>>)
    ensures target == FirstNamed(methods, name)
  {
    target := None;
    for i := 0 to |methods|
      invariant target.None?
      invariant FirstNamed(methods, name) == FirstNamed(methods[i..], name)
    {
      if methods[i].name == name {
        target := Some(methods[i]);
        break;
      }
    }
  }
}
