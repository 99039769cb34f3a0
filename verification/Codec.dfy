/** `XrpcCodec`: frames of a varint header length, a serialized header and a body that may be
    compressed, together with the loops that drive the compressor. */
module Codec {
  import opened Common
  import opened Unicode
  import opened Wire
  import opened Header

  /** zlib as a pair of functions. `unzip` is total: the source never looks at the code for
      corrupt input, it takes whatever `inflate` has put out by then. */
  datatype Zlib = Zlib(zip: Bytes -> Bytes, unzip: Bytes -> Bytes)

  ghost predicate Lossless(z: Zlib) {
    forall x {:trigger z.zip(x)} :: z.unzip(z.zip(x)) == x
  }

  /** A generated message class: `SerializeToString` and `ParseFromString`. */
  datatype Schema<!M> = Schema(ser: M -> Bytes, parse: Bytes -> Option<M>)

  /** What proto3 promises of a message class: a message that can be parsed back comes back
      unchanged, and no bytes at all are the default message. A message with a string that is not
      UTF-8 is written but not parsed. */
  ghost predicate Faithful<M(!new)>(s: Schema<M>) {
    && (forall m {:trigger s.ser(m)} :: s.parse(s.ser(m)).Some? ==> s.parse(s.ser(m)) == Some(m))
    && s.parse([]).Some?
  }

  const MIN_COMPRESSED := 100

  const CHUNK: nat := 8192

  // ---------- the frame as a value ----------

  /** Compression is used exactly when it was asked for, the payload is longer than 100 bytes and
      the compressed form is shorter. */
  predicate Packs(z: Zlib, h: RpcHeader, payload: Bytes) {
    h.compressed && |payload| > MIN_COMPRESSED && |z.zip(payload)| < |payload|
  }

  function Body(z: Zlib, h: RpcHeader, payload: Bytes): Bytes {
    if Packs(z, h, payload) then z.zip(payload) else payload
  }

  /** The header as sent: only `args_size` and `compressed` are rewritten. */
  function Stamp(z: Zlib, h: RpcHeader, payload: Bytes): RpcHeader {
    h.(argsSize := |Body(z, h, payload)| % TWO_32, compressed := Packs(z, h, payload))
  }

  function Frame(z: Zlib, h: RpcHeader, payload: Bytes, order: seq<Bytes>): (r: Bytes)
    ensures r != []
  {
    var header := Serialize(Stamp(z, h, payload), order);
    Varint(|header| % TWO_32) + (header + Body(z, h, payload))
  }

  /** The sizes the library can carry: everything below two gigabytes. */
  ghost predicate Sendable(z: Zlib, h: RpcHeader, payload: Bytes, order: seq<Bytes>) {
    && IsOrder(order, h.metadata)
    && |payload| < TWO_31
    && |Serialize(Stamp(z, h, payload), order)| < TWO_31
  }

  /** A refused frame leaves in `header` whatever had been merged by then. */
  datatype Decoded = Accepted(header: RpcHeader, body: Bytes) | Refused(header: RpcHeader)

  function DecodeFrame(z: Zlib, data: Bytes): Decoded {
    match ReadVarint(data, 10)
    case None => Refused(EMPTY_HEADER)
    case Some(r) =>
      var size := r.value % TWO_32;
      if size >= TWO_31 || |r.rest| < size then Refused(EMPTY_HEADER)
      else
        var parsed := ParseHeader(r.rest[..size]);
        var h, tail := parsed.partial, r.rest[size..];
        if !parsed.ok || h.argsSize >= TWO_31 || |tail| < h.argsSize then Refused(h)
        else Accepted(h, if h.compressed then z.unzip(tail[..h.argsSize]) else tail[..h.argsSize])
  }

  /** Compression starts at 101 bytes, and only if it makes the payload shorter. */
  lemma PacksMeaning(z: Zlib, h: RpcHeader, payload: Bytes)
    ensures Packs(z, h, payload) <==> h.compressed && 101 <= |payload| && |z.zip(payload)| < |payload|
  {
  }

  /** A frame, byte by byte: the length of the header, the header, the body. */
  lemma FrameExample(z: Zlib)
    ensures Frame(z, EMPTY_HEADER.(requestId := 150), [7, 8], []) == [5, 0x18, 2, 0x20, 0x96, 0x01, 7, 8]
  {
    ExampleHeader();
    assert Varint(5) == [5];
    hide Varint, Serialize;
  }

  lemma ExampleHeader()
    ensures Serialize(EMPTY_HEADER.(argsSize := 2, requestId := 150), []) == [0x18, 2, 0x20, 0x96, 0x01]
  {
    var h := EMPTY_HEADER.(argsSize := 2, requestId := 150);
    SchemaBytes(h, []);
    VarintExample();
    assert Varint(2) == [2] && MetadataBytes(h.metadata, []) == [];
    hide Varint, Serialize, MetadataBytes;
    assert NumberBytes(0x18, 2) == [0x18, 2] && NumberBytes(0x20, 150) == [0x20, 0x96, 0x01];
  }

  // ---------- what frames promise ----------

  lemma ReadLength(n: nat, rest: Bytes)
    requires n < TWO_31
    ensures ReadVarint(Varint(n) + rest, 10) == Some(Read(n, rest))
  {
    VarintLength32(n);
    VarintRoundTrip(n, rest, 10);
  }

  /** Decoding a frame, whatever follows it, returns the payload and the stamped header, unless a
      string of the header is not UTF-8: then it is refused. */
  lemma FrameRoundTrip(z: Zlib, h: RpcHeader, payload: Bytes, order: seq<Bytes>, trailing: Bytes)
    requires Lossless(z) && Sendable(z, h, payload, order)
    ensures var d := DecodeFrame(z, Frame(z, h, payload, order) + trailing);
      if Readable(h) then d == Accepted(Stamp(z, h, payload), payload) else d.Refused?
  {
    hide ParseHeader, Serialize, Varint, ReadVarint, Utf8;
    var h' := Stamp(z, h, payload);
    var header := Serialize(h', order);
    var body := Body(z, h, payload);
    var rest := header + (body + trailing);
    assert Frame(z, h, payload, order) + trailing == Varint(|header|) + rest;
    ReadLength(|header|, rest);
    HeaderRoundTrip(h', order);
    assert rest[..|header|] == header && rest[|header|..] == body + trailing;
    assert (body + trailing)[..|body|] == body;
  }

  /** Every strict prefix of a frame is refused; the decoder knows the header if only the body was
      cut, and nothing of it otherwise. */
  lemma PrefixRefused(z: Zlib, h: RpcHeader, payload: Bytes, order: seq<Bytes>, cut: nat)
    requires Sendable(z, h, payload, order)
    requires cut < |Frame(z, h, payload, order)|
    ensures var d := DecodeFrame(z, Frame(z, h, payload, order)[..cut]);
      && d.Refused?
      && (cut < |Frame(z, h, payload, order)| - |Body(z, h, payload)| ==> d.header == EMPTY_HEADER)
      && (cut >= |Frame(z, h, payload, order)| - |Body(z, h, payload)| && Readable(h) ==>
            d.header == Stamp(z, h, payload))
  {
    hide ParseHeader, Serialize, Varint, ReadVarint, Utf8;
    var h' := Stamp(z, h, payload);
    assert Readable(h) <==> Readable(h');
    hide Readable;
    var header := Serialize(h', order);
    var body := Body(z, h, payload);
    var len := Varint(|header|);
    var piece := Frame(z, h, payload, order)[..cut];
    assert |Frame(z, h, payload, order)| == |len| + |header| + |body|;
    if cut < |len| {
      assert piece == len[..cut];
      VarintPrefixRejected(|header|, cut, 10);
    } else {
      var rest := (header + body)[..cut - |len|];
      assert piece == len + rest;
      ReadLength(|header|, rest);
      if |rest| >= |header| {
        assert rest[..|header|] == header;
        HeaderRoundTrip(h', order);
      }
    }
  }

  /** The byte strings that the encoder writes. */
  ghost predicate IsWritten(z: Zlib, f: Bytes) {
    exists h, payload, order :: Sendable(z, h, payload, order) && f == Frame(z, h, payload, order)
  }

  /** Those that can be read back. */
  ghost predicate IsFrame(z: Zlib, f: Bytes) {
    exists h, payload, order :: Sendable(z, h, payload, order) && Readable(h) && f == Frame(z, h, payload, order)
  }

  /** What is written is accepted exactly when it is a frame, else refused whatever follows it; no
      strict prefix of it is ever accepted. */
  lemma FrameAccepted(z: Zlib, f: Bytes)
    requires Lossless(z) && IsWritten(z, f)
    ensures f != [] && (DecodeFrame(z, f).Accepted? <==> IsFrame(z, f))
    ensures !IsFrame(z, f) ==> forall trailing {:trigger f + trailing} :: DecodeFrame(z, f + trailing).Refused?
    ensures forall cut: nat {:trigger f[..cut]} :: cut < |f| ==> DecodeFrame(z, f[..cut]).Refused?
  {
    hide DecodeFrame, Sendable, Readable, Lossless;
    var h, payload, order :| Sendable(z, h, payload, order) && f == Frame(z, h, payload, order);
    assert f + [] == f;
    if IsFrame(z, f) {
      var g, body, keys :| Sendable(z, g, body, keys) && Readable(g) && f == Frame(z, g, body, keys);
      FrameRoundTrip(z, g, body, keys, []);
    } else {
      forall trailing ensures DecodeFrame(z, f + trailing).Refused? {
        FrameRoundTrip(z, h, payload, order, trailing);
      }
    }
    forall cut: nat | cut < |f| ensures DecodeFrame(z, f[..cut]).Refused? {
      PrefixRefused(z, h, payload, order, cut);
    }
  }

  lemma FrameIsWritten(z: Zlib, f: Bytes)
    requires IsFrame(z, f)
    ensures IsWritten(z, f)
  {
    hide Sendable, Readable, Frame;
  }

  /** A frame is neither a proper prefix nor a proper extension of anything the encoder writes. */
  lemma FramesPrefixFree(z: Zlib, f: Bytes, g: Bytes)
    requires Lossless(z) && IsFrame(z, f) && IsWritten(z, g)
    requires f <= g || g <= f
    ensures f == g
  {
    hide DecodeFrame, IsFrame, IsWritten, Lossless;
    if f <= g {
      assert g[..|f|] == f;
    } else {
      assert f[..|g|] == g;
      assert g + f[|g|..] == f;
    }
    FrameIsWritten(z, f);
    FrameAccepted(z, f);
    FrameAccepted(z, g);
  }

  function Concat(fs: seq<Bytes>): Bytes {
    if fs == [] then [] else fs[0] + Concat(fs[1..])
  }

  /** Frames at the front of a stream of written frames are the first ones of that stream. */
  lemma {:induction false} FrontSplit(z: Zlib, fs: seq<Bytes>, rest: Bytes, gs: seq<Bytes>)
    requires Lossless(z)
    requires forall f <- fs :: IsFrame(z, f)
    requires forall g <- gs :: IsWritten(z, g)
    requires Concat(fs) + rest == Concat(gs)
    ensures fs <= gs
    decreases |fs|
  {
    hide IsFrame, IsWritten, DecodeFrame, Lossless;
    if fs != [] {
      var f := fs[0];
      FrameIsWritten(z, f);
      FrameAccepted(z, f);
      var g := gs[0];
      var stream := Concat(gs);
      assert f in fs && g in gs;
      assert stream[..|f|] == f && stream[..|g|] == g;
      assert if |f| <= |g| then f == g[..|f|] else g == f[..|g|];
      FramesPrefixFree(z, f, g);
      assert Concat(fs[1..]) + rest == stream[|f|..] == Concat(gs[1..]);
      FrontSplit(z, fs[1..], rest, gs[1..]);
      assert fs == [f] + fs[1..] && gs == [g] + gs[1..];
    }
  }

  /** A stream of frames can be cut back into frames in only one way. */
  lemma UniqueSplit(z: Zlib, fs: seq<Bytes>, gs: seq<Bytes>)
    requires Lossless(z)
    requires forall f <- fs :: IsFrame(z, f)
    requires forall g <- gs :: IsFrame(z, g)
    requires Concat(fs) == Concat(gs)
    ensures fs == gs
  {
    hide IsFrame, IsWritten, Lossless;
    forall f | f in fs || f in gs ensures IsWritten(z, f) {
      FrameIsWritten(z, f);
    }
    assert Concat(fs) + [] == Concat(fs);
    FrontSplit(z, fs, [], gs);
    FrontSplit(z, gs, [], fs);
  }

  // ---------- the compressor loops ----------

  /** One `z_stream`: `output` is what it has still to hand out. */
  class ZStream {
    var output: Bytes

    constructor (output: Bytes)
      ensures this.output == output
    {
      this.output := output;
    }

    /** `deflate` or `inflate`: fills as much of the buffer as it can. */
    method Run(buffer: array<byte>) returns (availOut: nat)
      modifies this, buffer
      ensures availOut <= buffer.Length
      ensures var n := buffer.Length - availOut;
        && n <= |old(output)| && (availOut > 0 ==> n == |old(output)|)
        && buffer[..n] == old(output)[..n] && output == old(output)[n..]
    {
      var n := if |output| < buffer.Length then |output| else buffer.Length;
      for i := 0 to n
        invariant buffer[..i] == output[..i]
        invariant output == old(output)
        modifies buffer
      {
        buffer[i] := output[i];
      }
      output := output[n..];
      availOut := buffer.Length - n;
    }
  }

  /** The do-while loop shared by `Compress` and `Decompress`: it ends, collects the whole output
      of the stream, and takes one more round than there are full chunks. */
  method Drain(stream: ZStream) returns (result: Bytes, rounds: nat)
    modifies stream
    ensures result == old(stream.output)
    ensures rounds == |old(stream.output)| / 8192 + 1
  {
    var buffer := new byte[CHUNK](_ => 0);
    result, rounds := [], 0;
    var availOut := 0;
    while availOut == 0
      invariant result + stream.output == old(stream.output)
      invariant availOut == 0 ==> |result| == rounds * CHUNK
      invariant availOut > 0 ==> stream.output == [] && rounds == |result| / CHUNK + 1
      invariant fresh(buffer) && buffer.Length == CHUNK
      decreases |stream.output| + (if availOut == 0 then 1 else 0)
    {
      ghost var before := stream.output;
      availOut := stream.Run(buffer);
      var n := CHUNK - availOut;
      assert before == before[..n] + before[n..];
      result := result + buffer[..n];
      rounds := rounds + 1;
    }
  }

  class XrpcCodec {
    const z: Zlib

    constructor (z: Zlib)
      ensures this.z == z
    {
      this.z := z;
    }

    method Compress(data: Bytes) returns (result: Bytes)
      ensures result == z.zip(data)
    {
      var stream := new ZStream(z.zip(data));
      var rounds;
      result, rounds := Drain(stream);
    }

    method Decompress(data: Bytes) returns (result: Bytes)
      ensures result == z.unzip(data)
    {
      var stream := new ZStream(z.unzip(data));
      var rounds;
      result, rounds := Drain(stream);
    }

    /** `Encode` and `EncodeResponse`. */
    method Encode<M>(header: RpcHeader, schema: Schema<M>, message: M, order: seq<Bytes>) returns (result: Bytes)
      ensures result == Frame(z, header, schema.ser(message), order)
    {
      hide Serialize, Varint;
      var args := schema.ser(message);
      var mutableHeader := header.(argsSize := |args| % TWO_32);
      if mutableHeader.compressed && |args| > MIN_COMPRESSED {
        var compressedArgs := Compress(args);
        if |compressedArgs| < |args| {
          mutableHeader := mutableHeader.(argsSize := |compressedArgs| % TWO_32);
          args := compressedArgs;
        } else {
          mutableHeader := mutableHeader.(compressed := false);
        }
      } else if mutableHeader.compressed {
        mutableHeader := mutableHeader.(compressed := false);
      }
      assert mutableHeader == Stamp(z, header, schema.ser(message));
      var headerBytes := Serialize(mutableHeader, order);
      result := Varint(|headerBytes| % TWO_32);
      result := result + headerBytes;
      result := result + args;
    }

    method Decode(data: Bytes) returns (ok: bool, header: RpcHeader, args: Bytes)
      ensures DecodeFrame(z, data) == if ok then Accepted(header, args) else Refused(header)
    {
      ok, header, args := false, EMPTY_HEADER, [];
      var cursor := ReadVarint(data, 10);
      if cursor.None? {
        return;
      }
      var headerSize, rest := cursor.value.value % TWO_32, cursor.value.rest;
      if headerSize >= TWO_31 || |rest| < headerSize {
        return;
      }
      var parsed := ParseHeader(rest[..headerSize]);
      header, rest := parsed.partial, rest[headerSize..];
      if !parsed.ok {
        return;
      }
      if header.argsSize >= TWO_31 || |rest| < header.argsSize {
        return;
      }
      args := rest[..header.argsSize];
      if header.compressed {
        args := Decompress(args);
      }
      ok := true;
    }

    method DecodeResponse<M>(data: Bytes, schema: Schema<M>) returns (ok: bool, header: RpcHeader, response: Slot<M>)
      ensures Answer(ok, header, response) == ReadReply(z, schema, data)
    {
      var body;
      response := Untouched;
      ok, header, body := Decode(data);
      if ok {
        var parsed := schema.parse(body);
        if parsed.None? {
          ok, response := false, Garbled;
        } else {
          response := Holds(parsed.value);
        }
      }
    }
  }

  /** The caller's response object: as it was passed in, holding a parsed message, or left in an
      unspecified state by a parse that failed half-way. */
  datatype Slot<+M> = Untouched | Holds(message: M) | Garbled

  datatype Answer<+M> = Answer(ok: bool, header: RpcHeader, response: Slot<M>)

  function ReadReply<M>(z: Zlib, schema: Schema<M>, data: Bytes): Answer<M> {
    match DecodeFrame(z, data)
    case Refused(h) => Answer(false, h, Untouched)
    case Accepted(h, body) =>
      match schema.parse(body)
      case None => Answer(false, h, Garbled)
      case Some(m) => Answer(true, h, Holds(m))
  }

  /** Compressing and then decompressing through the chunk loops loses nothing. */
  method CompressThenDecompress(codec: XrpcCodec, data: Bytes) returns (result: Bytes)
    requires Lossless(codec.z)
    ensures result == data
  {
    var packed := codec.Compress(data);
    result := codec.Decompress(packed);
  }

  /** The assumption on the compressor can be met: a run-length coder that shrinks some inputs. */
  function RunLengthZip(data: Bytes): Bytes {
    if data != [] && |data| < 256 && (forall b <- data :: b == data[0]) then [0, |data|, data[0]] else [1] + data
  }

  function RunLengthUnzip(data: Bytes): Bytes {
    if data == [] then []
    else if data[0] == 0 && |data| == 3 then seq(data[1], _ => data[2])
    else data[1..]
  }

  lemma RunLengthIsLossless()
    ensures Lossless(Zlib(RunLengthZip, RunLengthUnzip))
    ensures Packs(Zlib(RunLengthZip, RunLengthUnzip), EMPTY_HEADER.(compressed := true), seq(200, _ => 7))
  {
    forall x: Bytes ensures RunLengthUnzip(RunLengthZip(x)) == x {
      if x != [] && |x| < 256 && forall b <- x :: b == x[0] {
        assert forall i :: 0 <= i < |x| ==> x[i] in x;
        assert seq(|x|, _ => x[0]) == x;
      }
    }
    var x: Bytes := seq(200, _ => 7);
    assert |RunLengthZip(x)| == 3;
  }

  /** A payload over 100 bytes that does not get shorter is sent as it is, and the flag is taken
      back, although compression was asked for. */
  lemma LongPayloadSentPlain()
    ensures var z, h := Zlib(RunLengthZip, RunLengthUnzip), EMPTY_HEADER.(compressed := true);
      var payload: Bytes := seq(200, i => i % 2);
      && h.compressed && |payload| > MIN_COMPRESSED
      && Body(z, h, payload) == payload && !Stamp(z, h, payload).compressed
  {
    var payload: Bytes := seq(200, i => i % 2);
    assert payload[1] != payload[0] && payload[1] in payload;
    assert RunLengthZip(payload) == [1] + payload;
  }
}
