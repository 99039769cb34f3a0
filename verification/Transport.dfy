/** `AsioTransport`: two byte queues between one client and one server, each side taking whatever a
    single read delivers for a whole message. */
module Transport {
  import opened Common
  import opened Codec
  import opened Naming
  import opened Server

  /** A connection during one synchronous call: the bytes under way in each direction, the pieces
      the server has read so far, the one piece the client reads, and whether server and client have
      a read posted. */
  datatype Conn = Conn(
    toServer: Bytes, toClient: Bytes, seen: seq<Bytes>, got: Option<Bytes>, serving: bool, reading: bool)

  /** One completed `async_read_some`, whose size the network decides, or one that failed. In
      `ServerWriteFails` the reply to a piece breaks off after `sent` bytes. */
  datatype Move =
    | ServerRead(n: nat)
    | ServerReadFails
    | ServerWriteFails(n: nat, sent: nat)
    | ClientRead(n: nat)
    | ClientReadFails

  predicate Enabled(c: Conn, m: Move) {
    match m
    case ServerRead(n) => c.serving && 1 <= n <= |c.toServer| && n <= MAX_READ
    case ServerReadFails => c.serving
    case ServerWriteFails(n, _) => c.serving && 1 <= n <= |c.toServer| && n <= MAX_READ
    case ClientRead(n) => c.reading && 1 <= n <= |c.toClient| && n <= MAX_READ
    case ClientReadFails => c.reading
  }

  function Front(b: Bytes, n: nat): (r: Bytes)
    ensures r <= b && |r| == if n < |b| then n else |b|
  {
    if n < |b| then b[..n] else b
  }

  /** After an error neither side posts another read. */
  function Advance(answer: Bytes -> Bytes, c: Conn, m: Move): Conn
    requires Enabled(c, m)
  {
    match m
    case ServerRead(n) =>
      var piece := c.toServer[..n];
      c.(toServer := c.toServer[n..], toClient := c.toClient + answer(piece), seen := c.seen + [piece])
    case ServerReadFails => c.(serving := false)
    case ServerWriteFails(n, sent) =>
      var piece := c.toServer[..n];
      c.(toServer := c.toServer[n..], toClient := c.toClient + Front(answer(piece), sent), seen := c.seen + [piece],
         serving := false)
    case ClientRead(n) =>
      c.(toClient := c.toClient[n..], got := Some(c.toClient[..n]), reading := false)
    case ClientReadFails => c.(reading := false)
  }

  /** A run of the connection until the client has its piece; a move that cannot happen is no move. */
  function Drive(answer: Bytes -> Bytes, c: Conn, moves: seq<Move>): Conn
    decreases |moves|
  {
    if moves == [] || c.got.Some? then c
    else Drive(answer, if Enabled(c, moves[0]) then Advance(answer, c, moves[0]) else c, moves[1..])
  }

  function Answers(answer: Bytes -> Bytes, pieces: seq<Bytes>): Bytes
  {
    if pieces == [] then [] else answer(pieces[0]) + Answers(answer, pieces[1..])
  }

  function Received(c: Conn): Bytes {
    if c.got.Some? then c.got.value else []
  }

  /** Nothing is added or reordered: the pieces read and the bytes still queued make up what was
      sent; what the client has or may still read is a front part of the replies to those pieces,
      and all of them as long as the server goes on. */
  ghost predicate Flow(answer: Bytes -> Bytes, sent: Bytes, c: Conn)
  {
    && Concat(c.seen) + c.toServer == sent
    && Received(c) + c.toClient <= Answers(answer, c.seen)
    && (c.serving ==> Received(c) + c.toClient == Answers(answer, c.seen))
    && (forall i :: 0 <= i < |c.seen| ==> 1 <= |c.seen[i]| <= MAX_READ)
    && (c.got.Some? ==> c.got.value != [] && !c.reading)
  }

  lemma {:induction false} ConcatSnoc(fs: seq<Bytes>, f: Bytes)
    ensures Concat(fs + [f]) == Concat(fs) + f
  {
    if fs != [] {
      assert (fs + [f])[1..] == fs[1..] + [f];
      ConcatSnoc(fs[1..], f);
    }
  }

  lemma {:induction false} AnswersSnoc(answer: Bytes -> Bytes, pieces: seq<Bytes>, p: Bytes)
    ensures Answers(answer, pieces + [p]) == Answers(answer, pieces) + answer(p)
  {
    if pieces != [] {
      assert (pieces + [p])[1..] == pieces[1..] + [p];
      AnswersSnoc(answer, pieces[1..], p);
    } else {
      assert [p][1..] == [];
      assert Answers(answer, [p]) == answer(p) + Answers(answer, []);
    }
  }

  /** One piece is taken off the request, and a front part of the reply to it is queued. */
  lemma PieceKeepsFlow(answer: Bytes -> Bytes, sent: Bytes, c: Conn, n: nat, reply: Bytes, serving: bool)
    requires Flow(answer, sent, c) && c.serving && 1 <= n <= |c.toServer| && n <= MAX_READ
    requires var whole := answer(c.toServer[..n]); reply <= whole && (serving ==> reply == whole)
    ensures Flow(answer, sent, c.(toServer := c.toServer[n..], toClient := c.toClient + reply,
                                  seen := c.seen + [c.toServer[..n]], serving := serving))
  {
    hide Concat, Answers;
    var p, rest := c.toServer[..n], c.toServer[n..];
    assert p + rest == c.toServer;
    ConcatSnoc(c.seen, p);
    AnswersSnoc(answer, c.seen, p);
    Regroup(Concat(c.seen), p, rest);
    Regroup(Received(c), c.toClient, reply);
    FrontBehind(Received(c) + c.toClient, reply, answer(p));
  }

  lemma AdvanceKeepsFlow(answer: Bytes -> Bytes, sent: Bytes, c: Conn, m: Move)
    requires Flow(answer, sent, c) && Enabled(c, m)
    ensures Flow(answer, sent, Advance(answer, c, m))
  {
    hide Concat, Answers, Front;
    match m {
      case ServerRead(n) =>
        PieceKeepsFlow(answer, sent, c, n, answer(c.toServer[..n]), true);
      case ServerWriteFails(n, k) =>
        PieceKeepsFlow(answer, sent, c, n, Front(answer(c.toServer[..n]), k), false);
      case ClientRead(n) =>
        assert c.toClient[..n] + c.toClient[n..] == c.toClient;
      case _ =>
    }
  }

  lemma FrontBehind(a: Bytes, b: Bytes, c: Bytes)
    requires b <= c
    ensures a + b <= a + c
  {
  }

  lemma {:induction false} DriveKeepsFlow(answer: Bytes -> Bytes, sent: Bytes, c: Conn, moves: seq<Move>)
    requires Flow(answer, sent, c)
    ensures Flow(answer, sent, Drive(answer, c, moves))
    decreases |moves|
  {
    hide Flow, Advance, Enabled;
    if moves != [] && c.got.None? {
      if Enabled(c, moves[0]) {
        AdvanceKeepsFlow(answer, sent, c, moves[0]);
        DriveKeepsFlow(answer, sent, Advance(answer, c, moves[0]), moves[1..]);
      } else {
        DriveKeepsFlow(answer, sent, c, moves[1..]);
      }
    }
  }

  /** A request goes out and a read is posted, on a connection as the calls before left it. */
  function Sending(c: Conn, request: Bytes): Conn {
    Conn(c.toServer + request, c.toClient, c.seen, None, c.serving, true)
  }

  /** Nothing is under way, as on a new connection or after a call that came out well. */
  predicate Quiet(c: Conn) {
    c.toServer == [] && c.toClient == []
  }

  function Fresh(): Conn {
    Conn([], [], [], None, true, false)
  }

  /** No read takes nothing, more than is queued, or more than a buffer holds. */
  lemma ReadsAreBounded(c: Conn, n: nat)
    ensures Enabled(c, ServerRead(n)) <==> c.serving && 1 <= n <= |c.toServer| && n <= 8192
    ensures Enabled(c, ClientRead(n)) <==> c.reading && 1 <= n <= |c.toClient| && n <= 8192
  {
  }

  /** Reads may take anything from one byte to all that is queued, up to the 8192 of a buffer: for
      every choice of sizes the server reads that much of the request, and the client that much of
      the reply to it. */
  lemma ReadsOfAnySize(answer: Bytes -> Bytes, c0: Conn, sent: Bytes, m: nat, n: nat)
    requires Quiet(c0) && c0.serving
    requires 1 <= m <= |sent| && m <= 8192 && 1 <= n <= |answer(sent[..m])| && n <= 8192
    ensures Drive(answer, Sending(c0, sent), [ServerRead(m), ClientRead(n)]) == Conn(
      sent[m..], answer(sent[..m])[n..], c0.seen + [sent[..m]], Some(answer(sent[..m])[..n]), true, false)
  {
    var c1 := Conn(sent[m..], answer(sent[..m]), c0.seen + [sent[..m]], None, true, true);
    assert [] + sent == sent && [] + answer(sent[..m]) == answer(sent[..m]);
    DriveOne(answer, Sending(c0, sent), ServerRead(m), [ClientRead(n)]);
    DriveOne(answer, c1, ClientRead(n), []);
    assert [ServerRead(m)] + [ClientRead(n)] == [ServerRead(m), ClientRead(n)];
    assert [ClientRead(n)] + [] == [ClientRead(n)];
  }

  lemma DriveOne(answer: Bytes -> Bytes, c: Conn, m: Move, rest: seq<Move>)
    requires c.got.None? && Enabled(c, m)
    ensures Drive(answer, c, [m] + rest) == Drive(answer, Advance(answer, c, m), rest)
  {
    assert ([m] + rest)[1..] == rest;
  }

  /** The moves by which a request and its reply pass whole. */
  function WholeMoves(answer: Bytes -> Bytes, sent: Bytes): seq<Move> {
    [ServerRead(|sent|), ClientRead(|answer(sent)|)]
  }

  /** So a request and a reply of at most 8192 bytes can pass whole, and then nothing is left under
      way. */
  lemma WholeReadsDeliver(answer: Bytes -> Bytes, c0: Conn, sent: Bytes)
    requires Quiet(c0) && c0.serving && 1 <= |sent| <= 8192 && 1 <= |answer(sent)| <= 8192
    ensures Drive(answer, Sending(c0, sent), WholeMoves(answer, sent))
         == Conn([], [], c0.seen + [sent], Some(answer(sent)), true, false)
  {
    assert sent[..|sent|] == sent && answer(sent)[..|answer(sent)|] == answer(sent);
    ReadsOfAnySize(answer, c0, sent, |sent|, |answer(sent)|);
  }

  /** A read that failed is not seen by the wait: no run ever ends it. */
  lemma {:induction false} FailedReadNeverEnds(answer: Bytes -> Bytes, c: Conn, moves: seq<Move>)
    requires !c.reading && c.got.None?
    ensures Drive(answer, c, moves).got.None?
    decreases |moves|
  {
    if moves != [] {
      FailedReadNeverEnds(answer, if Enabled(c, moves[0]) then Advance(answer, c, moves[0]) else c, moves[1..]);
    }
  }

  /** A server that met an error reads no more of this connection. */
  lemma {:induction false} DroppedSocketIsSilent(answer: Bytes -> Bytes, c: Conn, moves: seq<Move>)
    requires !c.serving
    ensures var r := Drive(answer, c, moves); r.seen == c.seen && r.toServer == c.toServer && !r.serving
    decreases |moves|
  {
    if moves != [] && c.got.None? {
      DroppedSocketIsSilent(answer, if Enabled(c, moves[0]) then Advance(answer, c, moves[0]) else c, moves[1..]);
    }
  }

  /** What the errors do, in the state they find. */
  lemma ErrorsStop(answer: Bytes -> Bytes, c: Conn, n: nat, sent: nat)
    ensures c.serving ==> Enabled(c, ServerReadFails) && Advance(answer, c, ServerReadFails) == c.(serving := false)
    ensures c.reading ==> Enabled(c, ClientReadFails) && Advance(answer, c, ClientReadFails) == c.(reading := false)
    ensures c.serving && 1 <= n <= |c.toServer| && n <= 8192 ==>
      && Enabled(c, ServerWriteFails(n, sent))
      && var d := Advance(answer, c, ServerWriteFails(n, sent));
      !d.serving && d.toServer == c.toServer[n..] && c.toClient <= d.toClient <= c.toClient + answer(c.toServer[..n])
  {
    if c.serving && 1 <= n <= |c.toServer| && n <= 8192 {
      FrontBehind(c.toClient, Front(answer(c.toServer[..n]), sent), answer(c.toServer[..n]));
    }
  }

  /** Earlier reads only stay on record. */
  lemma {:induction false} EarlierReads(answer: Bytes -> Bytes, before: seq<Bytes>, c: Conn, moves: seq<Move>)
    ensures var r := Drive(answer, c, moves);
      Drive(answer, c.(seen := before + c.seen), moves) == r.(seen := before + r.seen)
    decreases |moves|
  {
    hide Front;
    if moves != [] && c.got.None? {
      var d := c.(seen := before + c.seen);
      if Enabled(c, moves[0]) {
        var c1 := Advance(answer, c, moves[0]);
        assert Advance(answer, d, moves[0]) == c1.(seen := before + c1.seen);
        EarlierReads(answer, before, c1, moves[1..]);
      } else {
        EarlierReads(answer, before, c, moves[1..]);
      }
    }
  }

  /** What the client can have read: when the server's first read was the whole request, a front
      part of its reply, with the rest of it still to come; otherwise bytes that start with, or are
      a front part of, the reply to a strict front part of the request. */
  lemma FirstPiece(answer: Bytes -> Bytes, c0: Conn, sent: Bytes, moves: seq<Move>) returns (piece: Bytes)
    requires Quiet(c0)
    requires Drive(answer, Sending(c0, sent), moves).got.Some?
    ensures var c := Drive(answer, Sending(c0, sent), moves); var d := c.got.value;
      && |c0.seen| < |c.seen| && c.seen[|c0.seen|] == piece && c0.seen <= c.seen
      && 1 <= |piece| <= MAX_READ && piece <= sent && d != []
      && (piece == sent ==> c.seen == c0.seen + [sent] && c.toServer == [] && d + c.toClient <= answer(sent))
      && (d <= answer(piece) || answer(piece) <= d)
  {
    hide Drive, Concat, Answers;
    var start := Sending(c0, sent).(seen := []);
    assert [] + sent == sent && c0.seen + [] == c0.seen;
    assert start.(seen := c0.seen + start.seen) == Sending(c0, sent);
    EarlierReads(answer, c0.seen, start, moves);
    var c := Drive(answer, start, moves);
    Unfold(answer, []);
    DriveKeepsFlow(answer, sent, start, moves);
    Unfold(answer, c.seen);
    piece := c.seen[0];
    PrefixesOfOne(c.got.value, c.toClient, answer(piece), Answers(answer, c.seen[1..]));
    FrontPiece(c.seen, c.toServer, sent);
  }

  lemma FrontPiece(pieces: seq<Bytes>, rest: Bytes, sent: Bytes)
    requires pieces != [] && (forall i :: 0 <= i < |pieces| ==> pieces[i] != [])
    requires Concat(pieces) + rest == sent
    ensures pieces[0] <= sent
    ensures pieces[0] == sent ==> pieces == [sent] && pieces[1..] == [] && rest == []
  {
    Prepend(pieces[0], Concat(pieces[1..]), rest);
    ConcatLonger(pieces);
  }

  lemma Prepend(p: Bytes, x: Bytes, y: Bytes)
    ensures p <= p + x + y
  {
  }

  lemma Unfold(answer: Bytes -> Bytes, pieces: seq<Bytes>)
    ensures Concat(pieces) == if pieces == [] then [] else pieces[0] + Concat(pieces[1..])
    ensures Answers(answer, pieces) == if pieces == [] then [] else answer(pieces[0]) + Answers(answer, pieces[1..])
  {
  }

  lemma ConcatLonger(pieces: seq<Bytes>)
    requires pieces != [] && (forall i :: 0 <= i < |pieces| ==> pieces[i] != [])
    ensures |pieces| > 1 ==> |Concat(pieces)| > |pieces[0]|
  {
  }

  lemma PrefixesOfOne(a: Bytes, x: Bytes, b: Bytes, y: Bytes)
    requires a + x <= b + y
    ensures a <= b || b <= a
    ensures y == [] ==> a + x <= b
  {
    var s := b + y;
    assert s[..|a|] == (a + x)[..|a|] == a && s[..|b|] == b;
    if |a| <= |b| {
      assert b[..|a|] == a;
    } else {
      assert a[..|b|] == b;
    }
    if y == [] {
      assert s == b;
    }
  }

  // ---------- the transport objects ----------

  /** The socket pair: what is under way in each direction, and whether the server still holds the
      socket. */
  class Link {
    var toServer: Bytes
    var toClient: Bytes
    var serving: bool
    ghost var seen: seq<Bytes>

    ghost function View(): Conn
      reads this
    {
      Conn(toServer, toClient, seen, None, serving, false)
    }

    constructor ()
      ensures View() == Fresh()
    {
      toServer, toClient, serving, seen := [], [], true, [];
    }
  }

  /** Why a connection cannot be made: the address does not parse, or nobody answers. */
  datatype Trouble = BadAddress(what: Bytes) | Unreachable

  function What(t: Trouble): Bytes {
    if t.BadAddress? then t.what else Ascii("Connection failed")
  }

  /** Where the client's socket leads: nowhere, as long as it is closed; nowhere although it is open,
      after a failed attempt; or to a server. */
  datatype Socket = Closed | Unconnected | Leads(peer: Endpoint)

  /** The address that is dialled: a port is cut to sixteen bits. */
  function Dialed(e: Endpoint): Endpoint {
    e.(port := e.port % 0x1_0000)
  }

  /** A port that fits is dialled as it is. */
  lemma PortIsKept(e: Endpoint)
    requires 0 <= e.port < 65536
    ensures Dialed(e) == e
  {
  }

  /** An open socket is kept, wherever it leads. */
  function Connected(s: Socket, e: Endpoint, trouble: Option<Trouble>): Socket {
    if !s.Closed? then s
    else
      match trouble
      case None => Leads(Dialed(e))
      case Some(BadAddress(_)) => Closed
      case Some(Unreachable) => Unconnected
  }

  /** Only a closed socket can run into trouble. */
  function Obstacle(s: Socket, trouble: Option<Trouble>): Option<Trouble> {
    if s.Closed? then trouble else None
  }

  /** A connection made leads to the endpoint asked for exactly when there was none before, or one
      to that same endpoint. */
  lemma LeadsWhereAsked(s: Socket, e: Endpoint, trouble: Option<Trouble>)
    requires Obstacle(s, trouble).None?
    ensures Connected(s, e, trouble) == Leads(Dialed(e)) <==> s.Closed? || s == Leads(Dialed(e))
  {
  }

  /** The endpoints dialled one after another, with what stood in the way of each. */
  function DialAll(s: Socket, calls: seq<(Endpoint, Option<Trouble>)>): Socket
    decreases |calls|
  {
    if calls == [] then s else DialAll(Connected(s, calls[0].0, calls[0].1), calls[1..])
  }

  predicate Opens(call: (Endpoint, Option<Trouble>)) {
    call.1 != None ==> call.1.value.Unreachable?
  }

  ghost predicate FirstToOpen(calls: seq<(Endpoint, Option<Trouble>)>, i: nat) {
    i < |calls| && Opens(calls[i]) && forall j :: 0 <= j < i ==> !Opens(calls[j])
  }

  /** Over any sequence of calls the first one whose address can be read decides for all where the
      socket leads, even if it could not connect. */
  lemma {:induction false} FirstDialDecides(s: Socket, calls: seq<(Endpoint, Option<Trouble>)>)
    ensures !s.Closed? ==> DialAll(s, calls) == s
    ensures s.Closed? && (forall i :: 0 <= i < |calls| ==> !Opens(calls[i])) ==> DialAll(s, calls) == Closed
    ensures s.Closed? ==> forall i: nat :: FirstToOpen(calls, i) ==>
      DialAll(s, calls) == if calls[i].1.None? then Leads(Dialed(calls[i].0)) else Unconnected
    decreases |calls|
  {
    if calls != [] {
      var tail := calls[1..];
      FirstDialDecides(Connected(s, calls[0].0, calls[0].1), tail);
      assert forall i :: 0 <= i < |tail| ==> tail[i] == calls[i + 1];
      forall i: nat | s.Closed? && FirstToOpen(calls, i)
        ensures DialAll(s, calls) == if calls[i].1.None? then Leads(Dialed(calls[i].0)) else Unconnected
      {
        if i > 0 {
          assert FirstToOpen(tail, i - 1);
        }
      }
    }
  }

  datatype Delivery = Failed | Delivered(response: Bytes) | Waiting

  class AsioTransport {
    var socket: Socket
    var response: Bytes
    var responseReceived: bool
    const readBuffer: array<byte>
    const link: Link

    /** Before the socket is opened nothing has gone over it. */
    ghost predicate Valid()
      reads this, link
    {
      readBuffer.Length == MAX_READ && (socket.Closed? ==> link.View() == Fresh())
    }

    constructor (link: Link)
      requires link.View() == Fresh()
      ensures Valid() && socket == Closed && this.link == link && fresh(readBuffer)
    {
      socket, response, responseReceived := Closed, [], false;
      readBuffer := new byte[MAX_READ](_ => 0);
      this.link := link;
    }

    /** `Connect`. */
    method Connect(endpoint: Endpoint, trouble: Option<Trouble>) returns (thrown: Option<Bytes>)
      requires Valid()
      modifies this`socket
      ensures Valid()
      ensures var o := Obstacle(old(socket), trouble); thrown == if o.None? then None else Some(What(o.value))
      ensures socket == Connected(old(socket), endpoint, trouble)
    {
      thrown := None;
      if socket.Closed? {
        match trouble {
          case Some(BadAddress(what)) =>
            thrown := Some(what);
          case Some(Unreachable) =>
            socket := Unconnected;
            thrown := Some(Ascii("Connection failed"));
          case None =>
            socket := Leads(Dialed(endpoint));
        }
      }
    }

    /** A completed read puts the first bytes of the queue into the buffer. */
    static method Fill(buffer: array<byte>, queue: Bytes, n: nat)
      requires n <= |queue| && n <= buffer.Length
      modifies buffer
      ensures buffer[..n] == queue[..n]
    {
      for i := 0 to n
        invariant buffer[..i] == queue[..i]
      {
        buffer[i] := queue[i];
      }
    }

    /** The client's read handler. After an error nothing has changed, and the wait goes on. */
    method HandleClientRead(read: Option<nat>)
      requires readBuffer.Length == MAX_READ
      requires read.Some? ==> 1 <= read.value <= |link.toClient| && read.value <= MAX_READ
      modifies this`response, this`responseReceived, readBuffer, link`toClient
      ensures match read
        case None =>
          && responseReceived == old(responseReceived) && response == old(response)
          && link.toClient == old(link.toClient)
        case Some(n) =>
          responseReceived && response == old(link.toClient)[..n] && link.toClient == old(link.toClient)[n..]
    {
      if read.Some? {
        var n := read.value;
        Fill(readBuffer, link.toClient, n);
        link.toClient := link.toClient[n..];
        response := readBuffer[..n];
        responseReceived := true;
      }
    }

    /** The server's read handler: one read, one message, one reply. A failed read drops the socket;
        a reply whose write fails after `broken` bytes throws, and no further read is posted. */
    method HandleServerRead<M>(server: XrpcServer<M>, read: Option<nat>, broken: Option<nat>)
      requires link.serving && (read.Some? ==> 1 <= read.value <= |link.toServer| && read.value <= MAX_READ)
      modifies link
      ensures var w := World(server.codec.z, server.ord, server.services);
        link.View() == Advance(w.Answer, old(link.View()),
          if read.None? then ServerReadFails
          else if broken.None? then ServerRead(read.value)
          else ServerWriteFails(read.value, broken.value))
    {
      hide Reply;
      if read.None? {
        link.serving := false;
        return;
      }
      var n := read.value;
      var buffer := new byte[MAX_READ](_ => 0);
      Fill(buffer, link.toServer, n);
      var request := buffer[..n];
      link.toServer := link.toServer[n..];
      link.seen := link.seen + [request];
      var reply := server.OnMessage(request);
      if reply != [] {
        if broken.Some? {
          link.toClient := link.toClient + Front(reply, broken.value);
          link.serving := false;
          return;
        }
        link.toClient := link.toClient + reply;
      }
    }

    /** `Send` to the server at the other end of the socket. The loop polls until a response is in;
        `moves` are the completions it gets to see, and `Waiting` stands for a loop that has not
        ended when they run out. */
    method Send<M>(server: XrpcServer<M>, data: Bytes, writeFails: bool, moves: seq<Move>) returns (result: Delivery)
      requires Valid()
      requires server as object != this
      modifies this, readBuffer, link
      ensures Valid() && socket == old(socket)
      ensures !socket.Leads? || writeFails ==> result == Failed && link.View() == old(link.View())
      ensures socket.Leads? && !writeFails ==>
        var w := World(server.codec.z, server.ord, server.services);
        var c := Drive(w.Answer, Sending(old(link.View()), data), moves);
        && result == (if c.got.Some? then Delivered(c.got.value) else Waiting)
        && link.View() == c.(got := None, reading := false)
    {
      hide World.Answer, Front;
      if socket.Closed? {
        return Failed;
      }
      responseReceived := false;
      if writeFails || socket.Unconnected? {
        return Failed;
      }
      link.toServer := link.toServer + data;
      ghost var w := World(server.codec.z, server.ord, server.services);
      ghost var start := Conn(link.toServer, link.toClient, link.seen, None, link.serving, true);
      var reading, next := true, 0;
      while !responseReceived && next < |moves|
        invariant next <= |moves| && socket == old(socket)
        invariant w == World(server.codec.z, server.ord, server.services)
        invariant var c := link.View().(reading := reading, got := if responseReceived then Some(response) else None);
          Drive(w.Answer, c, moves[next..]) == Drive(w.Answer, start, moves)
      {
        assert moves[next..][0] == moves[next] && moves[next..][1..] == moves[next + 1..];
        match moves[next] {
          case ServerRead(n) =>
            if link.serving && 1 <= n <= |link.toServer| && n <= MAX_READ {
              HandleServerRead(server, Some(n), None);
            }
          case ServerReadFails =>
            if link.serving {
              HandleServerRead(server, None, None);
            }
          case ServerWriteFails(n, sent) =>
            if link.serving && 1 <= n <= |link.toServer| && n <= MAX_READ {
              HandleServerRead(server, Some(n), Some(sent));
            }
          case ClientRead(n) =>
            if reading && 1 <= n <= |link.toClient| && n <= MAX_READ {
              HandleClientRead(Some(n));
              reading := false;
            }
          case ClientReadFails =>
            if reading {
              HandleClientRead(None);
              reading := false;
            }
        }
        next := next + 1;
      }
      if !responseReceived {
        return Waiting;
      }
      return Delivered(response);
    }
  }

  /** A request and a reply that fit a buffer can be exchanged whole: the wait ends with the exact
      reply, and nothing is left under way. */
  method SendWhole<M>(transport: AsioTransport, server: XrpcServer<M>, data: Bytes) returns (result: Delivery)
    requires transport.Valid() && server as object != transport && transport.socket.Leads?
    requires Quiet(transport.link.View()) && transport.link.serving
    requires var w := World(server.codec.z, server.ord, server.services);
      1 <= |data| <= 8192 && |w.Answer(data)| <= 8192
    modifies transport, transport.readBuffer, transport.link
    ensures transport.Valid() && transport.link.serving && Quiet(transport.link.View())
    ensures result == Delivered(old(World(server.codec.z, server.ord, server.services).Answer(data)))
  {
    var w := World(server.codec.z, server.ord, server.services);
    AnswerNotEmpty(w, data);
    WholeReadsDeliver(w.Answer, transport.link.View(), data);
    hide World.Answer, Drive;
    result := transport.Send(server, data, false, WholeMoves(w.Answer, data));
  }
}
