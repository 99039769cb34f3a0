/** `XrpcChannel`: finding an address, framing the request, and judging the reply; and what one
    synchronous call on a fresh connection can come to. */
module Channel {
  import opened Common
  import opened Unicode
  import opened Header
  import opened Codec
  import opened Naming
  import opened Server
  import opened Transport
  import opened Controller

  datatype Result<+T> = Ok(value: T) | Err(text: Bytes)

  // ---------- before anything is sent ----------

  /** What the registry answers: an exception, or the addresses of the matching instances. */
  datatype Lookup = Thrown(what: Bytes) | Found(addresses: seq<string>)

  /** `GetServiceAddress`: the first instance, if it looks like an address. */
  function ServiceAddress(lookup: Lookup): Result<string> {
    match lookup
    case Thrown(what) => Err(CString(what))
    case Found(addresses) =>
      if addresses == [] then Err(NO_INSTANCE)
      else if FindFrom(addresses[0], ':', 0).None? then Err(Ascii("Invalid address format"))
      else Ok(addresses[0])
  }

  /** The endpoint the registry names for a call. */
  function NamedEndpoint(lookup: Lookup): Result<Endpoint> {
    match ServiceAddress(lookup)
    case Err(text) => Err(text)
    case Ok(address) =>
      match ParseAddress(address)
      case None => Err(Ascii("stoi"))
      case Some(endpoint) => Ok(endpoint)
  }

  /** The error a call ends with before sending, or the endpoint named. `obstacle` is what stands in
      the way of a new connection; where the socket leads is a matter of `Connected`. */
  function Preflight(lookup: Lookup, obstacle: Option<Trouble>, canceled: bool): Result<Endpoint> {
    var named := NamedEndpoint(lookup);
    if named.Err? then named
    else if obstacle.Some? then Err(CString(What(obstacle.value)))
    else if canceled then Err(Ascii("Request was canceled before sending"))
    else named
  }

  /** Where the socket leads when the call is sent, or has failed before. */
  function SocketAfter(s: Socket, lookup: Lookup, trouble: Option<Trouble>): Socket {
    match NamedEndpoint(lookup)
    case Err(_) => s
    case Ok(endpoint) => Connected(s, endpoint, trouble)
  }

  const NO_INSTANCE := Ascii("Service instance not found")

  /** Which of the early errors a call ends with: what the registry says comes first, then the
      connection, then the cancel; without any of them the endpoint named is the answer. */
  lemma EarlyErrors(lookup: Lookup, obstacle: Option<Trouble>, canceled: bool)
    ensures Preflight(lookup, obstacle, canceled) ==
      match lookup {
        case Thrown(what) => Err(CString(what))
        case Found(addresses) =>
          if addresses == [] then Err(Ascii("Service instance not found"))
          else if ':' !in addresses[0] then Err(Ascii("Invalid address format"))
          else if ParseAddress(addresses[0]).None? then Err(Ascii("stoi"))
          else
            match obstacle {
              case Some(BadAddress(what)) => Err(CString(what))
              case Some(Unreachable) => Err(Ascii("Connection failed"))
              case None =>
                if canceled then Err(Ascii("Request was canceled before sending"))
                else Ok(ParseAddress(addresses[0]).value)
            }
      }
  {
    ConnectionText();
    hide CString, Ascii, ParseAddress;
    if lookup.Found? && lookup.addresses != [] {
      var address := lookup.addresses[0];
      assert address[0..] == address;
      ParsedHasColon(address);
    }
  }

  lemma ConnectionText()
    ensures CString(Ascii("Connection failed")) == Ascii("Connection failed")
  {
    hide CString;
  }

  lemma ParsedHasColon(address: string)
    ensures ParseAddress(address).Some? ==> ':' in address
  {
    hide Stoi;
  }

  /** A cancel comes last: it turns a call that would be sent into a failure, and changes no other
      error. */
  lemma CancelComesLast(lookup: Lookup, obstacle: Option<Trouble>)
    ensures var r := Preflight(lookup, obstacle, false);
      Preflight(lookup, obstacle, true) == if r.Ok? then Err(Ascii("Request was canceled before sending")) else r
  {
    hide NamedEndpoint, Ascii, CString;
  }

  /** The endpoint named for a call, given what the client read of the registry, is that of the first
      instance in the bucket that the test accepts. A server that registered itself is accepted
      exactly when the method, or one that extends it, ends within the first 512 bytes of its list;
      if it is not, and no other instance is, the call fails. On a closed socket the call then goes
      to that server. */
  lemma RegisteredServerIsNamed(service: string, ip: string, port: int32, names: seq<string>, name: string,
                                front: seq<Instance>, back: seq<Instance>)
    requires '/' !in service && '/' !in ip && ':' !in ip
    requires IsIdentifier(name) && forall i :: 0 <= i < |names| ==> IsIdentifier(names[i])
    requires forall e <- front :: !Matches(e.1, name)
    ensures var instance := (RegistrationPath(service, ip, port), Cut(MethodsData(names)));
      var lookup := Found(MatchingAddresses(front + ([instance] + back), name));
      && (Visible(names, name, BUFFER_SIZE) ==>
            && NamedEndpoint(lookup) == Ok(Endpoint(ip, port))
            && Preflight(lookup, None, false) == Ok(Endpoint(ip, port))
            && SocketAfter(Closed, lookup, None) == Leads(Dialed(Endpoint(ip, port))))
      && (!Visible(names, name, BUFFER_SIZE) && (forall e <- back :: !Matches(e.1, name)) ==>
            NamedEndpoint(lookup) == Err(NO_INSTANCE))
  {
    hide Matches, Visible, Cut, MethodsData, RegistrationPath;
    var instance := (RegistrationPath(service, ip, port), Cut(MethodsData(names)));
    EndpointRoundTrip(service, ip, port);
    FoundExactlyWhen(names, name);
    SkipOthers(front, [instance] + back, name);
    assert ([instance] + back)[1..] == back;
    if forall e <- back :: !Matches(e.1, name) {
      SkipOthers(back, [], name);
      assert back + [] == back;
    }
  }

  /** A method that its only server registered, but behind a long name, cannot be called. */
  lemma LateMethodIsNotFound(service: string, ip: string, port: int32)
    requires '/' !in service && '/' !in ip && ':' !in ip
    ensures "b" in LONG_NAMES
    ensures var instance := (RegistrationPath(service, ip, port), Cut(MethodsData(LONG_NAMES)));
      NamedEndpoint(Found(MatchingAddresses([instance], "b"))) == Err(NO_INSTANCE)
  {
    LateNameIsMissed();
    hide Matches, Cut, MethodsData, RegistrationPath, Visible, NamedEndpoint;
    FoundExactlyWhen(LONG_NAMES, "b");
    var instance := (RegistrationPath(service, ip, port), Cut(MethodsData(LONG_NAMES)));
    RegisteredServerIsNamed(service, ip, port, LONG_NAMES, "b", [], []);
    assert [] + ([instance] + []) == [instance];
  }

  // ---------- the call as a value ----------

  /** One call: the names, the argument, and the schemas of its messages. */
  datatype Call<!M> = Call(
    service: Bytes, name: Bytes, id: uint64, argument: M, request: Schema<M>, response: Schema<M>) {
    function Head(): RpcHeader {
      RpcHeader(service, name, 0, id, 0, map[], false, None, false)
    }

    function Request(z: Zlib): Bytes {
      Frame(z, Head(), request.ser(argument), [])
    }
  }

  /** How a call ends: the error set on the controller, if any, and the response object. */
  datatype Outcome<+M> = Outcome(failure: Option<Bytes>, response: Slot<M>)

  /** What the caller makes of the bytes it read. */
  function Conclude<M>(z: Zlib, schema: Schema<M>, data: Bytes, undecodable: Bytes): Outcome<M> {
    var a := ReadReply(z, schema, data);
    if !a.ok then Outcome(Some(undecodable), a.response)
    else if a.header.status != 0 && a.header.error.Some? then Outcome(Some(a.header.error.value.message), a.response)
    else Outcome(None, a.response)
  }

  /** A reply fails the call exactly when it has a status other than 0 and an error; an error text
      alone, or a status alone, does not. */
  lemma ConcludeMeaning<M(!new)>(z: Zlib, schema: Schema<M>, h: RpcHeader, payload: Bytes, order: seq<Bytes>,
                                 trailing: Bytes, undecodable: Bytes)
    requires Lossless(z) && Sendable(z, h, payload, order)
    ensures var o := Conclude(z, schema, Frame(z, h, payload, order) + trailing, undecodable);
      if !Readable(h) then o == Outcome(Some(undecodable), Untouched)
      else if schema.parse(payload).None? then o == Outcome(Some(undecodable), Garbled)
      else o == Outcome(if h.status != 0 && h.error.Some? then Some(h.error.value.message) else None,
                        Holds(schema.parse(payload).value))
  {
    hide Frame, DecodeFrame, Sendable, Readable, Lossless;
    FrameRoundTrip(z, h, payload, order, trailing);
  }

  lemma ConcludeIs<M>(z: Zlib, schema: Schema<M>, data: Bytes, undecodable: Bytes)
    ensures var a := ReadReply(z, schema, data);
      Conclude(z, schema, data, undecodable) == Outcome(
        if !a.ok then Some(undecodable)
        else if a.header.status != 0 && a.header.error.Some? then Some(a.header.error.value.message) else None,
        a.response)
  {
  }

  const UNDECODABLE := Ascii("Failed to decode response")

  /** What goes out for a call, as its receiver decodes it: the names, the id and the argument of the
      caller; nothing compressed, cancelled, failed or attached. */
  lemma RequestMeaning<M(!new)>(z: Zlib, call: Call<M>)
    requires Lossless(z) && Sendable(z, call.Head(), call.request.ser(call.argument), [])
    requires Utf8(call.service) && Utf8(call.name)
    ensures var payload := call.request.ser(call.argument);
      DecodeFrame(z, call.Request(z)) == Accepted(
        RpcHeader(call.service, call.name, |payload|, call.id, 0, map[], false, None, false), payload)
  {
    hide Frame, DecodeFrame, Sendable, Utf8, Lossless;
    var payload := call.request.ser(call.argument);
    SizeFits(z, call.Head(), payload);
    FrameRoundTrip(z, call.Head(), payload, [], []);
    assert call.Request(z) + [] == call.Request(z);
  }

  lemma SizeFits(z: Zlib, h: RpcHeader, payload: Bytes)
    requires Sendable(z, h, payload, [])
    ensures |payload| % TWO_32 == |payload|
  {
    hide Serialize;
  }

  // ---------- what a call can come to ----------

  /** The method the call names, on the server. */
  function Target<M>(w: World<M>, call: Call<M>): Option<Method<M>> {
    if call.service in w.services then FirstNamed(w.services[call.service], call.name) else None
  }

  /** The assumptions of the theorems below: a lossless compressor, messages that come back
      unchanged if they come back, sizes the library can carry, names that are UTF-8, and a server
      that, if it knows the method at all, knows it with the same message types. */
  ghost predicate Fair<M(!new)>(w: World<M>, call: Call<M>) {
    && Lossless(w.z) && ValidOrdering(w.ord)
    && Faithful(call.request) && Faithful(call.response)
    && Sendable(w.z, call.Head(), call.request.ser(call.argument), [])
    && Utf8(call.service) && Utf8(call.name)
    && (Target(w, call).Some? ==>
          var m := Target(w, call).value;
          var ran := m.call(call.argument);
          && m.request == call.request && m.response == call.response
          && |m.response.ser(ran.response)| < TWO_31 && |ran.text| < 0x4000_0000)
  }

  /** The default message, which is what an empty reply body parses to. */
  function Blank<M>(schema: Schema<M>): Slot<M> {
    match schema.parse([])
    case None => Garbled
    case Some(m) => Holds(m)
  }

  predicate Succeeded<M>(ran: Ran<M>) {
    ran.Returned? && !ran.failed
  }

  /** Calling the service object directly, without a network. A throwing method counts as failed. */
  function DirectCall<M>(w: World<M>, call: Call<M>): Outcome<M> {
    var nothing := Blank(call.response);
    if call.service !in w.services then Outcome(Some(Ascii("Service not found")), nothing)
    else
      match Target(w, call)
      case None => Outcome(Some(Ascii("Method not found")), nothing)
      case Some(m) =>
        var ran := m.call(call.argument);
        if Succeeded(ran) then Outcome(None, Holds(ran.response))
        else Outcome(Some(CString(ran.text)), Holds(ran.response))
  }

  predicate Survives<M>(schema: Schema<M>, message: M) {
    schema.parse(schema.ser(message)).Some?
  }

  /** Whether everything the call exchanges can be read back on the other side. */
  predicate Passes<M>(w: World<M>, call: Call<M>) {
    Target(w, call).Some? ==>
      var ran := Target(w, call).value.call(call.argument);
      && Survives(call.request, call.argument) && Survives(call.response, ran.response)
      && (Succeeded(ran) || Utf8(CString(ran.text)))
  }

  /** How a call ends when both frames arrive whole: as a direct call, unless the argument, the
      failure text or the response does not pass. */
  function WholeCall<M>(w: World<M>, call: Call<M>, undecodable: Bytes): Outcome<M> {
    match Target(w, call)
    case None => DirectCall(w, call)
    case Some(m) =>
      var ran := m.call(call.argument);
      if !Survives(call.request, call.argument) then
        Outcome(Some(Ascii("Failed to parse request")), Blank(call.response))
      else if !Succeeded(ran) && !Utf8(CString(ran.text)) then Outcome(Some(undecodable), Untouched)
      else if !Survives(call.response, ran.response) then Outcome(Some(undecodable), Garbled)
      else DirectCall(w, call)
  }

  /** A call without failure is a direct call without failure, and only what does not pass makes a
      difference. (A method that itself fails with the text of the parse error could hide it.) */
  lemma WholeCallMeaning<M(!new)>(w: World<M>, call: Call<M>, undecodable: Bytes)
    ensures var o := WholeCall(w, call, undecodable);
      && (o.failure.None? <==> Passes(w, call) && DirectCall(w, call).failure.None?)
      && (o.failure.None? ==>
            && o == DirectCall(w, call) && Target(w, call).Some?
            && var ran := Target(w, call).value.call(call.argument);
            && Succeeded(ran) && o.response == Holds(ran.response))
      && (Passes(w, call) ==> o == DirectCall(w, call))
      && (o == DirectCall(w, call) ==> Passes(w, call) || o.failure == Some(Ascii("Failed to parse request")))
  {
    hide FirstNamed, CString, Utf8, Ascii;
    if call.service !in w.services {
      assert Target(w, call).None?;
    }
  }

  /** A server that gets the whole request judges it as the caller meant it. */
  lemma WholeRequestJudged<M(!new)>(w: World<M>, call: Call<M>)
    requires Fair(w, call)
    ensures DecodeFrame(w.z, call.Request(w.z)).Accepted?
    ensures var h := Stamp(w.z, call.Head(), call.request.ser(call.argument));
      Judge(w.z, w.services, call.Request(w.z)) ==
        if call.service !in w.services then Reject(h, 2, Ascii("Service not found"))
        else if Target(w, call).None? then Reject(h, 3, Ascii("Method not found"))
        else if !Survives(call.request, call.argument) then Reject(h, 4, Ascii("Failed to parse request"))
        else Invoke(h, Target(w, call).value, call.argument)
  {
    hide Frame, DecodeFrame, FirstNamed, Utf8, Sendable, Ascii;
    var payload := call.request.ser(call.argument);
    FrameRoundTrip(w.z, call.Head(), payload, [], []);
    assert call.Request(w.z) + [] == call.Request(w.z);
  }

  /** What the service makes of the whole request has the sizes that were asked for. */
  lemma WholeRequestBounded<M(!new)>(w: World<M>, call: Call<M>)
    requires Fair(w, call)
    ensures Bounded(Judge(w.z, w.services, call.Request(w.z)))
  {
    hide Judge, Call.Request, FirstNamed, DecodeFrame, Utf8, Ascii;
    WholeRequestJudged(w, call);
  }

  /** The failure text, if the method runs and fails, is UTF-8. */
  predicate Spoken<M>(w: World<M>, call: Call<M>) {
    Target(w, call).Some? && Survives(call.request, call.argument) ==>
      var ran := Target(w, call).value.call(call.argument);
      Succeeded(ran) || Utf8(CString(ran.text))
  }

  /** The request is a frame, and so is its reply, exactly when the failure text is UTF-8. */
  lemma BothAreFrames<M(!new)>(w: World<M>, call: Call<M>)
    requires Fair(w, call) && |call.Request(w.z)| <= MAX_READ
    ensures IsFrame(w.z, call.Request(w.z))
    ensures IsFrame(w.z, w.Answer(call.Request(w.z))) <==> Spoken(w, call)
  {
    hide Judge, Frame, FirstNamed, DecodeFrame, Utf8, CString, Ascii, Sendable, Reply;
    assert Readable(call.Head());
    WholeRequestJudged(w, call);
    WholeRequestBounded(w, call);
    ReplyReadable(w.z, w.services, call.Request(w.z));
    ReplyMeaning(w.z, w.ord, w.services, call.Request(w.z));
    if call.service !in w.services {
      assert Target(w, call).None?;
    }
  }

  /** A server that gets only the front of the request cannot decode it. */
  lemma CutRequestJudged<M(!new)>(w: World<M>, call: Call<M>, piece: Bytes)
    requires Fair(w, call) && piece < call.Request(w.z)
    ensures var v := Judge(w.z, w.services, piece);
      && v.Reject? && v.code == 1 && v.text == Ascii("Failed to decode request")
      && v.header == if |piece| < |call.Request(w.z)| - |call.request.ser(call.argument)| then EMPTY_HEADER
                     else Stamp(w.z, call.Head(), call.request.ser(call.argument))
  {
    hide Frame, DecodeFrame, FirstNamed, Utf8, Ascii;
    assert piece == call.Request(w.z)[..|piece|];
    PrefixRefused(w.z, call.Head(), call.request.ser(call.argument), [], |piece|);
  }

  /** What the caller concludes from the reply to a piece, read whole, with anything behind it. */
  lemma ReplyConcluded<M(!new)>(w: World<M>, call: Call<M>, piece: Bytes, trailing: Bytes, undecodable: Bytes)
    requires Fair(w, call) && |piece| <= MAX_READ && Bounded(Judge(w.z, w.services, piece))
    ensures var v := Judge(w.z, w.services, piece);
      var o := Conclude(w.z, call.response, w.Answer(piece) + trailing, undecodable);
      && (!Legible(v) ==> o == Outcome(Some(undecodable), Untouched))
      && (Legible(v) && v.Reject? ==> o == Outcome(Some(v.text), Blank(call.response)))
      && (Legible(v) && v.Invoke? && v.target.response == call.response ==>
            var ran := v.target.call(v.request);
            if Survives(call.response, ran.response) then
              o == Outcome(if Served(v) then None else Some(CString(ran.text)), Holds(ran.response))
            else o == Outcome(Some(undecodable), Garbled))
  {
    hide DecodeFrame, Judge, Reply, CString, Legible, Sendable, Utf8, IsFrame;
    ReplyMeaning(w.z, w.ord, w.services, piece);
    ReplyStatus(w.z, w.services, piece);
    var v := Judge(w.z, w.services, piece);
    var reply := Reply(w.z, w.ord, w.services, piece);
    assert w.Answer(piece) + trailing == reply + trailing;
  }

  /** A strict front part of a reply always ends in failure. */
  lemma CutReplyConcluded<M(!new)>(w: World<M>, call: Call<M>, piece: Bytes, d: Bytes)
    requires Fair(w, call) && |piece| <= MAX_READ && Bounded(Judge(w.z, w.services, piece))
    requires d < w.Answer(piece)
    ensures Conclude(w.z, call.response, d, UNDECODABLE) == Outcome(Some(Ascii("Failed to decode response")), Untouched)
  {
    hide DecodeFrame, Judge, Reply, Legible, IsFrame;
    ReplyMeaning(w.z, w.ord, w.services, piece);
    assert d == w.Answer(piece)[..|d|];
  }

  /** The whole reply to the whole request, read under either name and with anything behind it. */
  lemma WholeCallConcluded<M(!new)>(w: World<M>, call: Call<M>, trailing: Bytes, undecodable: Bytes)
    requires Fair(w, call) && |call.Request(w.z)| <= MAX_READ
    ensures Conclude(w.z, call.response, w.Answer(call.Request(w.z)) + trailing, undecodable)
         == WholeCall(w, call, undecodable)
  {
    hide World.Answer, Judge, Call.Request, Conclude, FirstNamed, DecodeFrame, Utf8, CString, Ascii, Sendable;
    WholeRequestJudged(w, call);
    WholeRequestBounded(w, call);
    ReplyReadable(w.z, w.services, call.Request(w.z));
    ReplyConcluded(w, call, call.Request(w.z), trailing, undecodable);
    if call.service !in w.services {
      assert Target(w, call).None?;
    }
  }

  /** The reply to a cut request, whether itself cut or not, ends the call in failure. */
  lemma CutRequestConcluded<M(!new)>(w: World<M>, call: Call<M>, piece: Bytes, d: Bytes)
    requires Fair(w, call) && piece < call.Request(w.z) && |piece| <= MAX_READ
    requires d <= w.Answer(piece) || w.Answer(piece) <= d
    ensures Conclude(w.z, call.response, d, UNDECODABLE).failure.Some?
  {
    hide World.Answer, Judge, Call.Request, Conclude, Fair, Legible;
    CutRequestJudged(w, call, piece);
    var reply := w.Answer(piece);
    if reply <= d {
      assert d == reply + d[|reply|..];
      ReplyConcluded(w, call, piece, d[|reply|..], UNDECODABLE);
    } else {
      CutReplyConcluded(w, call, piece, d);
    }
  }

  /** The reply to the whole request ends the call in failure if cut, and as `WholeCall` says if
      not. */
  lemma WholeRequestConcluded<M(!new)>(w: World<M>, call: Call<M>, d: Bytes)
    requires Fair(w, call) && |call.Request(w.z)| <= MAX_READ
    requires var reply := w.Answer(call.Request(w.z)); d <= reply || reply <= d
    ensures var reply := w.Answer(call.Request(w.z)); var o := Conclude(w.z, call.response, d, UNDECODABLE);
      && (d < reply ==> o.failure.Some?)
      && (reply <= d ==> o == WholeCall(w, call, UNDECODABLE))
  {
    hide World.Answer, Judge, Call.Request, Conclude, Fair, Bounded, WholeCall;
    var reply := w.Answer(call.Request(w.z));
    if reply <= d {
      assert d == reply + d[|reply|..];
      WholeCallConcluded(w, call, d[|reply|..], UNDECODABLE);
    } else {
      WholeRequestBounded(w, call);
      CutReplyConcluded(w, call, call.Request(w.z), d);
    }
  }

  /** A synchronous call on a connection with nothing under way, such as the first one, however the
      network cuts request and replies into reads and whatever fails. If it ends without failure
      then the server's only read since was the exact request, the method asked for ran on the
      exact argument and neither failed nor threw, the response is what that method produced, and
      nothing is left under way. Any cut of either frame ends in failure. When both frames arrive
      whole, the call ends as `WholeCall` says. */
  lemma FirstCall<M(!new)>(w: World<M>, call: Call<M>, c0: Conn, moves: seq<Move>)
    requires Fair(w, call) && Quiet(c0)
    requires Drive(w.Answer, Sending(c0, call.Request(w.z)), moves).got.Some?
    ensures var c := Drive(w.Answer, Sending(c0, call.Request(w.z)), moves);
      var o := Conclude(w.z, call.response, c.got.value, UNDECODABLE);
      var whole := c.seen == c0.seen + [call.Request(w.z)] && c.got.value == w.Answer(call.Request(w.z));
      && (o.failure.None? ==>
            && whole && Quiet(c)
            && Target(w, call).Some?
            && var ran := Target(w, call).value.call(call.argument);
            && Succeeded(ran) && o.response == Holds(ran.response))
      && (!whole ==> o.failure.Some?)
      && (whole ==> o == WholeCall(w, call, UNDECODABLE))
  {
    hide Drive, World.Answer, Conclude, Fair, Target, WholeCall, DirectCall, Passes, Call.Request;
    var sent := call.Request(w.z);
    var c := Drive(w.Answer, Sending(c0, sent), moves);
    var piece := FirstPiece(w.Answer, c0, sent, moves);
    var d := c.got.value;
    if piece == sent {
      WholeRequestConcluded(w, call, d);
      WholePiece(d, c.toClient, w.Answer(sent));
    } else {
      assert (c0.seen + [sent])[|c0.seen|] == sent;
      CutRequestConcluded(w, call, piece, d);
    }
    WholeCallMeaning(w, call, UNDECODABLE);
  }

  lemma WholePiece(d: Bytes, rest: Bytes, reply: Bytes)
    requires d + rest <= reply
    ensures d < reply || (d == reply && rest == [])
  {
    if |d| == |reply| {
      assert d == (d + rest)[..|d|] == reply[..|d|];
    } else {
      assert d == (d + rest)[..|d|] == reply[..|d|];
    }
  }

  /** And a call can end: with request and reply of at most 8192 bytes, the reads that take each of
      them whole end it as `WholeCall` says and leave nothing under way. */
  lemma WholeExchange<M(!new)>(w: World<M>, call: Call<M>, c0: Conn)
    requires Fair(w, call) && Quiet(c0) && c0.serving
    requires |call.Request(w.z)| <= 8192 && |w.Answer(call.Request(w.z))| <= 8192
    ensures var sent := call.Request(w.z);
      var c := Drive(w.Answer, Sending(c0, sent), WholeMoves(w.Answer, sent));
      && c.got.Some? && Quiet(c) && c.serving && c.seen == c0.seen + [sent]
      && Conclude(w.z, call.response, c.got.value, UNDECODABLE) == WholeCall(w, call, UNDECODABLE)
  {
    hide Drive, World.Answer, Conclude, Fair, Target, WholeCall, Frame, WholeMoves;
    var sent := call.Request(w.z);
    AnswerNotEmpty(w, sent);
    WholeReadsDeliver(w.Answer, c0, sent);
    FirstCall(w, call, c0, WholeMoves(w.Answer, sent));
  }

  /** So a request longer than one read never succeeds. */
  lemma LongRequestFails<M(!new)>(w: World<M>, call: Call<M>, c0: Conn, moves: seq<Move>)
    requires Fair(w, call) && Quiet(c0) && |call.Request(w.z)| > MAX_READ
    requires Drive(w.Answer, Sending(c0, call.Request(w.z)), moves).got.Some?
    ensures Conclude(w.z, call.response, Drive(w.Answer, Sending(c0, call.Request(w.z)), moves).got.value, UNDECODABLE)
            .failure.Some?
  {
    hide Drive, World.Answer, Conclude, Fair, Target, WholeCall, Call.Request;
    var piece := FirstPiece(w.Answer, c0, call.Request(w.z), moves);
    CutRequestConcluded(w, call, piece, Drive(w.Answer, Sending(c0, call.Request(w.z)), moves).got.value);
  }

  // ---------- one call after another ----------

  /** A call and what the network does while it waits. */
  datatype Attempt<!M> = Attempt(call: Call<M>, moves: seq<Move>)

  /** The outcomes of synchronous calls made one after another on one connection, up to the first
      that does not end. */
  function Converse<M>(w: World<M>, c: Conn, attempts: seq<Attempt<M>>): seq<Outcome<M>>
    decreases |attempts|
  {
    if attempts == [] then []
    else
      var call := attempts[0].call;
      var after := Drive(w.Answer, Sending(c, call.Request(w.z)), attempts[0].moves);
      if after.got.None? then []
      else [Conclude(w.z, call.response, after.got.value, UNDECODABLE)] + Converse(w, after, attempts[1..])
  }

  /** As long as no call before it failed, a call that ends without failure has exactly the result
      of a direct call: bytes of one call never reach another. */
  lemma {:induction false} CallsKeepApart<M(!new)>(w: World<M>, c: Conn, attempts: seq<Attempt<M>>, i: nat)
    requires Quiet(c) && forall a <- attempts :: Fair(w, a.call)
    requires i < |Converse(w, c, attempts)|
    requires forall j :: 0 <= j < i ==> Converse(w, c, attempts)[j].failure.None?
    ensures i < |attempts|
    ensures var o := Converse(w, c, attempts)[i]; o.failure.None? ==> o == DirectCall(w, attempts[i].call)
    decreases |attempts|
  {
    hide Drive, World.Answer, Conclude, Fair, Target, WholeCall, DirectCall, Passes, Call.Request, Quiet;
    var call, moves := attempts[0].call, attempts[0].moves;
    var after := Drive(w.Answer, Sending(c, call.Request(w.z)), moves);
    assert attempts[0] in attempts;
    FirstCall(w, call, c, moves);
    WholeCallMeaning(w, call, UNDECODABLE);
    if i > 0 {
      assert Converse(w, c, attempts)[0].failure.None?;
      assert Converse(w, c, attempts)[1..] == Converse(w, after, attempts[1..]);
      forall j | 0 <= j < i - 1 ensures Converse(w, after, attempts[1..])[j].failure.None? {
        assert Converse(w, c, attempts)[j + 1].failure.None?;
      }
      CallsKeepApart(w, after, attempts[1..], i - 1);
    }
  }

  // ---------- which server is called ----------

  lemma PeerListens(s: Socket, lookup: Lookup, trouble: Option<Trouble>, endpoints: set<Endpoint>)
    requires s.Leads? ==> s.peer in endpoints
    requires trouble.None? && NamedEndpoint(lookup).Ok? ==> Dialed(NamedEndpoint(lookup).value) in endpoints
    ensures var t := SocketAfter(s, lookup, trouble); t.Leads? ==> t.peer in endpoints
  {
  }

  /** The servers, by the endpoints they listen at. */
  type Network<!M> = Endpoint -> World<M>

  /** A call that ends without failure, on a socket with nothing under way, has the result of calling
      the server at the other end of the socket. That is the server the registry named exactly when
      the socket was closed or led there already. */
  lemma CallGoesToPeer<M(!new)>(network: Network<M>, s: Socket, lookup: Lookup, trouble: Option<Trouble>,
                                call: Call<M>, c0: Conn, moves: seq<Move>)
    requires Preflight(lookup, Obstacle(s, trouble), false).Ok? && SocketAfter(s, lookup, trouble).Leads?
    requires var w := network(SocketAfter(s, lookup, trouble).peer);
      Fair(w, call) && Quiet(c0) && Drive(w.Answer, Sending(c0, call.Request(w.z)), moves).got.Some?
    ensures var named := Dialed(NamedEndpoint(lookup).value);
      var peer := SocketAfter(s, lookup, trouble).peer;
      var w := network(peer);
      var c := Drive(w.Answer, Sending(c0, call.Request(w.z)), moves);
      var o := Conclude(w.z, call.response, c.got.value, UNDECODABLE);
      && (peer == named <==> s.Closed? || s == Leads(named))
      && (s.Leads? ==> peer == s.peer)
      && (o.failure.None? ==> o == DirectCall(w, call) && Target(w, call).Some?)
  {
    hide Drive, World.Answer, Conclude, Fair, Target, WholeCall, DirectCall, Passes, Call.Request, Quiet;
    var peer := SocketAfter(s, lookup, trouble).peer;
    FirstCall(network(peer), call, c0, moves);
    WholeCallMeaning(network(peer), call, UNDECODABLE);
    LeadsWhereAsked(s, NamedEndpoint(lookup).value, trouble);
  }

  /** Two servers: after a call to the first, a call for a service that only the second offers finds
      its endpoint and fails all the same, because it is sent to the first. */
  lemma SecondServerIsNotReached<M(!new)>(network: Network<M>, a: Endpoint, lookup: Lookup, trouble: Option<Trouble>,
                                          call: Call<M>, c0: Conn, moves: seq<Move>)
    requires NamedEndpoint(lookup).Ok? && Dialed(NamedEndpoint(lookup).value) != a
    requires var w, w' := network(a), network(Dialed(NamedEndpoint(lookup).value));
      && call.service !in w.services && DirectCall(w', call).failure.None?
      && Fair(w, call) && Quiet(c0) && Drive(w.Answer, Sending(c0, call.Request(w.z)), moves).got.Some?
    ensures Preflight(lookup, Obstacle(Leads(a), trouble), false) == NamedEndpoint(lookup)
    ensures SocketAfter(Leads(a), lookup, trouble) == Leads(a)
    ensures var w := network(a);
      Conclude(w.z, call.response, Drive(w.Answer, Sending(c0, call.Request(w.z)), moves).got.value, UNDECODABLE)
      .failure.Some?
  {
    hide Drive, World.Answer, Conclude, Fair, DirectCall, Call.Request, Quiet;
    CallGoesToPeer(network, Leads(a), lookup, trouble, call, c0, moves);
  }

  // ---------- the assumptions can be met ----------

  const ECHO_SCHEMA: Schema<Bytes> := Schema((m: Bytes) => m, (b: Bytes) => Some(b))

  const ECHO := Method(Ascii("Echo"), ECHO_SCHEMA, ECHO_SCHEMA, (m: Bytes) => Returned(m, false, []))

  const ECHO_CALL := Call(Ascii("Echo"), Ascii("Echo"), 1, [], ECHO_SCHEMA, ECHO_SCHEMA)

  lemma EchoSendable(z: Zlib)
    ensures Sendable(z, ECHO_CALL.Head(), [], [])
  {
    var h := Stamp(z, ECHO_CALL.Head(), []);
    assert Small(h.(error := None), MAX_READ) && IsOrder([], h.metadata);
    hide Serialize, Small, IsOrder;
    HeaderFits(h, []);
    assert IsOrder([], ECHO_CALL.Head().metadata);
  }

  lemma EchoFaithful()
    ensures Faithful(ECHO_SCHEMA)
  {
    forall m: Bytes ensures ECHO_SCHEMA.parse(ECHO_SCHEMA.ser(m)) == Some(m) {
    }
  }

  /** A world, with a service that gives back its argument, and a call for which every assumption
      holds. */
  lemma FairCanBeMet()
    ensures exists w: World<Bytes>, call: Call<Bytes> :: Fair(w, call) && Target(w, call).Some? && Passes(w, call)
  {
    var w := World(Zlib(RunLengthZip, RunLengthUnzip), Keys, map[ECHO.name := [ECHO]]);
    RunLengthIsLossless();
    KeysIsOrdering();
    hide Fair, Target, Passes, Lossless, ValidOrdering, RunLengthZip, RunLengthUnzip, Packs;
    EchoIsFair(w);
  }

  lemma EchoIsFair(w: World<Bytes>)
    requires Lossless(w.z) && ValidOrdering(w.ord) && w.services == map[ECHO.name := [ECHO]]
    ensures Fair(w, ECHO_CALL) && Target(w, ECHO_CALL).Some? && Passes(w, ECHO_CALL)
  {
    assert FirstNamed([ECHO], ECHO.name) == Some(ECHO);
    EchoSendable(w.z);
    EchoFaithful();
    PlainIsUtf8(ECHO.name);
    hide Lossless, ValidOrdering, Sendable, Faithful, Utf8, Ascii, FirstNamed;
  }

  // ---------- the channel object ----------

  function WorldOf<M>(server: XrpcServer<M>): World<M>
    reads server
  {
    World(server.codec.z, server.ord, server.services)
  }

  class XrpcChannel<!M(!new)> {
    const codec: XrpcCodec
    const transport: AsioTransport

    constructor (codec: XrpcCodec, transport: AsioTransport)
      ensures this.codec == codec && this.transport == transport
    {
      this.codec, this.transport := codec, transport;
    }

    /** The address is the first instance the registry offers, and it has a colon; each way to have
        none gives its own error. */
    method GetServiceAddress(lookup: Lookup) returns (r: Result<string>)
      ensures r == ServiceAddress(lookup)
      ensures r.Ok? <==> lookup.Found? && |lookup.addresses| > 0 && ':' in lookup.addresses[0]
      ensures r.Ok? ==> r.value == lookup.addresses[0]
      ensures r.Err? && lookup.Found? ==>
        r.text == if |lookup.addresses| == 0 then NO_INSTANCE else Ascii("Invalid address format")
    {
      match lookup {
        case Thrown(what) =>
          return Err(CString(what));
        case Found(instances) =>
          if instances == [] {
            return Err(NO_INSTANCE);
          }
          var address := instances[0];
          var colon := FindFrom(address, ':', 0);
          assert address[0..] == address;
          if colon.None? {
            return Err(Ascii("Invalid address format"));
          }
          return Ok(address);
      }
    }

    /** The part of `CallMethod` shared by synchronous and asynchronous calls. */
    method Prepare(controller: XrpcController, lookup: Lookup, trouble: Option<Trouble>) returns (r: Result<Endpoint>)
      requires transport.Valid()
      modifies transport`socket
      ensures transport.Valid()
      ensures r == Preflight(lookup, Obstacle(old(transport.socket), trouble), controller.canceled)
      ensures transport.socket == SocketAfter(old(transport.socket), lookup, trouble)
      ensures r.Ok? ==> !transport.socket.Closed?
    {
      var found := GetServiceAddress(lookup);
      if found.Err? {
        return Err(found.text);
      }
      var address := found.value;
      var colon := FindFrom(address, ':', 0).value;
      var serverIp := address[..colon];
      var serverPort := Stoi(address[colon + 1..]);
      if serverPort.None? {
        return Err(Ascii("stoi"));
      }
      var endpoint := Endpoint(serverIp, serverPort.value);
      var thrown := transport.Connect(endpoint, trouble);
      if thrown.Some? {
        return Err(CString(thrown.value));
      }
      if controller.canceled {
        return Err(Ascii("Request was canceled before sending"));
      }
      return Ok(endpoint);
    }

    /** The last part of `CallMethod`: what is made of the bytes that came back. */
    method Settle(call: Call<M>, controller: XrpcController, responseData: Bytes) returns (response: Slot<M>)
      modifies controller
      ensures var o := Conclude(codec.z, call.response, responseData, UNDECODABLE);
        && response == o.response
        && controller.View() == if o.failure.None? then old(controller.View())
                                else Apply(old(controller.View()), SetFailed(o.failure.value)).state
    {
      hide Conclude, ReadReply;
      var ok, responseHeader;
      ok, responseHeader, response := codec.DecodeResponse(responseData, call.response);
      ConcludeIs(codec.z, call.response, responseData, UNDECODABLE);
      if !ok {
        controller.SetFailed(UNDECODABLE);
        return;
      }
      if responseHeader.status != 0 && responseHeader.error.Some? {
        controller.SetFailed(responseHeader.error.value.message);
        return;
      }
    }

    /** The middle part of `CallMethod`, on a socket that leads to `server`. */
    method Exchange(call: Call<M>, controller: XrpcController, server: XrpcServer<M>, writeFails: bool,
                    moves: seq<Move>)
      returns (finished: bool, response: Slot<M>)
      requires transport.Valid() && transport.socket.Leads? && server.codec.z == codec.z
      modifies controller, transport, transport.readBuffer, transport.link
      ensures transport.Valid() && transport.socket == old(transport.socket)
      ensures writeFails ==>
        && finished && response == Untouched
        && controller.View() == Apply(old(controller.View()), SetFailed(Ascii("Failed to send request"))).state
        && transport.link.View() == old(transport.link.View())
      ensures !writeFails ==>
        var c := Drive(WorldOf(server).Answer, Sending(old(transport.link.View()), call.Request(codec.z)), moves);
        && transport.link.View() == c.(got := None, reading := false)
        && if c.got.None? then !finished && response == Untouched && controller.View() == old(controller.View())
           else
             var o := Conclude(codec.z, call.response, c.got.value, UNDECODABLE);
             && finished && response == o.response
             && controller.View() == if o.failure.None? then old(controller.View())
                                     else Apply(old(controller.View()), SetFailed(o.failure.value)).state
    {
      hide Drive, Conclude, Frame, World.Answer;
      response := Untouched;
      var data := codec.Encode(call.Head(), call.request, call.argument, []);
      var delivery := transport.Send(server, data, writeFails, moves);
      match delivery {
        case Failed =>
          controller.SetFailed(Ascii("Failed to send request"));
          return true, response;
        case Waiting =>
          return false, response;
        case Delivered(responseData) =>
          response := Settle(call, controller, responseData);
          return true, response;
      }
    }

    /** `CallMethod` without `done`. `servers` are those listening. `finished` is false when the wait
        for a reply has not ended. With nothing under way, as on a new connection, a call that
        finishes without failure has had exactly the effect, and gives exactly the response, of
        calling directly the server that the socket leads to. */
    method CallMethod(call: Call<M>, controller: XrpcController, lookup: Lookup, trouble: Option<Trouble>,
                      servers: map<Endpoint, XrpcServer<M>>, writeFails: bool, moves: seq<Move>)
      returns (finished: bool, response: Slot<M>)
      requires transport.Valid()
      requires forall e <- servers.Keys :: servers[e].codec.z == codec.z
      requires transport.socket.Leads? ==> transport.socket.peer in servers
      requires trouble.None? && NamedEndpoint(lookup).Ok? ==> Dialed(NamedEndpoint(lookup).value) in servers
      modifies controller, transport, transport.readBuffer, transport.link
      ensures transport.Valid() && transport.socket == SocketAfter(old(transport.socket), lookup, trouble)
      ensures old(controller.canceled) ==>
        && finished && controller.failed && response == Untouched && transport.link.View() == old(transport.link.View())
        && var early := Preflight(lookup, Obstacle(old(transport.socket), trouble), false);
        controller.errorText == if early.Ok? then Ascii("Request was canceled before sending") else early.text
      ensures
        match Preflight(lookup, Obstacle(old(transport.socket), trouble), old(controller.canceled)) {
          case Err(text) =>
            && finished && response == Untouched
            && controller.View() == Apply(old(controller.View()), SetFailed(text)).state
            && transport.link.View() == old(transport.link.View())
          case Ok(_) =>
            if writeFails || !transport.socket.Leads? then
              && finished && response == Untouched
              && controller.View() == Apply(old(controller.View()), SetFailed(Ascii("Failed to send request"))).state
              && transport.link.View() == old(transport.link.View())
            else
              && transport.socket.peer in servers
              && var w := WorldOf(servers[transport.socket.peer]);
              var c := Drive(w.Answer, Sending(old(transport.link.View()), call.Request(codec.z)), moves);
              && transport.link.View() == c.(got := None, reading := false)
              && if c.got.None? then !finished && response == Untouched && controller.View() == old(controller.View())
                 else
                   var o := Conclude(codec.z, call.response, c.got.value, UNDECODABLE);
                   && finished && response == o.response
                   && controller.View() == if o.failure.None? then old(controller.View())
                                           else Apply(old(controller.View()), SetFailed(o.failure.value)).state
        }
      ensures var before, after := old(transport.link.View()), transport.link.View();
        transport.socket.Leads? && transport.socket.peer in servers ==>
        var w := WorldOf(servers[transport.socket.peer]);
        Fair(w, call) && Quiet(before) && finished && !controller.failed ==>
          && after.seen == before.seen + [call.Request(codec.z)] && Quiet(after)
          && Target(w, call).Some?
          && var ran := Target(w, call).value.call(call.argument);
          && Succeeded(ran) && response == Holds(ran.response)
    {
      hide Drive, Conclude, Fair, Frame, Preflight, NamedEndpoint, SocketAfter, Target, WholeCall;
      hide World.Answer;
      response := Untouched;
      CancelComesLast(lookup, Obstacle(transport.socket, trouble));
      var prepared := Prepare(controller, lookup, trouble);
      if prepared.Err? {
        controller.SetFailed(prepared.text);
        return true, response;
      }
      PeerListens(old(transport.socket), lookup, trouble, servers.Keys);
      if !transport.socket.Leads? {
        // `Send` finds an open socket without a server, and its write fails.
        controller.SetFailed(Ascii("Failed to send request"));
        return true, response;
      }
      var server := servers[transport.socket.peer];
      ghost var w := WorldOf(server);
      ghost var start := Sending(transport.link.View(), call.Request(codec.z));
      if Quiet(transport.link.View()) && Fair(w, call) && Drive(w.Answer, start, moves).got.Some? {
        FirstCall(w, call, transport.link.View(), moves);
      }
      finished, response := Exchange(call, controller, server, writeFails, moves);
    }
  }

  /** A call on a new connection, or one with nothing under way, that passes the early checks and
      fits the buffers can be made: it finishes as `WholeCall` says. */
  method CompleteCall<M(!new)>(channel: XrpcChannel<M>, call: Call<M>, controller: XrpcController, lookup: Lookup,
                         trouble: Option<Trouble>, servers: map<Endpoint, XrpcServer<M>>)
    returns (finished: bool, response: Slot<M>)
    requires channel.transport.Valid() && Quiet(channel.transport.link.View()) && channel.transport.link.serving
    requires forall e <- servers.Keys :: servers[e].codec.z == channel.codec.z
    requires channel.transport.socket.Leads? ==> channel.transport.socket.peer in servers
    requires trouble.None? && NamedEndpoint(lookup).Ok? ==> Dialed(NamedEndpoint(lookup).value) in servers
    requires Preflight(lookup, Obstacle(channel.transport.socket, trouble), controller.canceled).Ok?
    requires var s := SocketAfter(channel.transport.socket, lookup, trouble);
      && s.Leads? && s.peer in servers
      && var w := WorldOf(servers[s.peer]);
      Fair(w, call) && |call.Request(w.z)| <= 8192 && |w.Answer(call.Request(w.z))| <= 8192
    modifies controller, channel.transport, channel.transport.readBuffer, channel.transport.link
    ensures var s := SocketAfter(old(channel.transport.socket), lookup, trouble);
      && s.peer in servers
      && var o := WholeCall(old(WorldOf(servers[s.peer])), call, UNDECODABLE);
      && finished && response == o.response
      && controller.failed == (o.failure.Some? || old(controller.failed))
      && (o.failure.Some? ==> controller.errorText == o.failure.value)
    ensures Quiet(channel.transport.link.View()) && channel.transport.link.serving
  {
    hide Drive, Conclude, Fair, Preflight, NamedEndpoint, SocketAfter, WholeCall, World.Answer, WholeMoves;
    hide Call.Request;
    var s := SocketAfter(channel.transport.socket, lookup, trouble);
    var w := WorldOf(servers[s.peer]);
    WholeExchange(w, call, channel.transport.link.View());
    finished, response := channel.CallMethod(call, controller, lookup, trouble, servers, false,
                                             WholeMoves(w.Answer, call.Request(w.z)));
  }
}
