/** Many `SendAsync` calls outstanding on one connection. Writes complete whole and in the order they
    were started, reads complete in the order they were posted, and each read takes whatever part of
    the byte stream the network delivers. */
module Pipeline {
  import opened Common
  import opened Header
  import opened Codec
  import opened Server
  import opened Transport

  /** `queued`: writes started but not on the wire yet. `unposted`: writes whose bytes are on the
      wire but whose handler, which posts the read, has not run. `waiting`: callbacks with a read
      posted. `seen`: what each read of the server took. `delivered`: callbacks that were run, with
      what they were given. A callback is known by the number of its `SendAsync` call. */
  datatype Pipe = Pipe(
    issued: seq<Bytes>,
    queued: seq<nat>, unposted: seq<nat>, waiting: seq<nat>,
    toServer: Bytes, toClient: Bytes,
    seen: seq<Bytes>, delivered: seq<(nat, Bytes)>)

  const EMPTY := Pipe([], [], [], [], [], [], [], [])

  datatype Step = Send(frame: Bytes) | Write | PostRead | ServerRead(n: nat) | ClientRead(n: nat)

  predicate CanStep(p: Pipe, s: Step) {
    match s
    case Send(_) => true
    case Write => p.queued != [] && p.queued[0] < |p.issued|
    case PostRead => p.unposted != []
    case ServerRead(n) => 1 <= n <= |p.toServer| && n <= MAX_READ
    case ClientRead(n) => p.waiting != [] && 1 <= n <= |p.toClient| && n <= MAX_READ
  }

  function Do(answer: Bytes -> Bytes, p: Pipe, s: Step): Pipe
    requires CanStep(p, s)
  {
    match s
    case Send(frame) => p.(issued := p.issued + [frame], queued := p.queued + [|p.issued|])
    case Write =>
      p.(queued := p.queued[1..], unposted := p.unposted + [p.queued[0]],
         toServer := p.toServer + p.issued[p.queued[0]])
    case PostRead => p.(unposted := p.unposted[1..], waiting := p.waiting + [p.unposted[0]])
    case ServerRead(n) =>
      var piece := p.toServer[..n];
      p.(toServer := p.toServer[n..], toClient := p.toClient + answer(piece), seen := p.seen + [piece])
    case ClientRead(n) =>
      p.(waiting := p.waiting[1..], toClient := p.toClient[n..],
         delivered := p.delivered + [(p.waiting[0], p.toClient[..n])])
  }

  function Run(answer: Bytes -> Bytes, p: Pipe, steps: seq<Step>): Pipe
    decreases |steps|
  {
    if steps == [] then p
    else Run(answer, if CanStep(p, steps[0]) then Do(answer, p, steps[0]) else p, steps[1..])
  }

  // ---------- waiting callbacks line up with bytes under way ----------

  /** The callbacks whose bytes are on the wire, oldest first. */
  function Outstanding(p: Pipe): seq<nat> {
    p.waiting + p.unposted
  }

  /** How many requests have been put on the wire. */
  function Sent(p: Pipe): nat {
    |p.delivered| + |Outstanding(p)|
  }

  /** Callbacks are numbered through: those that were run, those waiting, those still to be sent. */
  ghost predicate Numbered(p: Pipe) {
    var k, o := |p.delivered|, Outstanding(p);
    && Sent(p) + |p.queued| == |p.issued|
    && (forall i :: 0 <= i < k ==> p.delivered[i].0 == i)
    && (forall i :: 0 <= i < |o| ==> o[i] == k + i)
    && (forall i :: 0 <= i < |p.queued| ==> p.queued[i] == k + |o| + i)
  }

  function Pieces(delivered: seq<(nat, Bytes)>): seq<Bytes> {
    seq(|delivered|, i requires 0 <= i < |delivered| => delivered[i].1)
  }

  /** And no byte is lost, added or reordered, however the reads cut the streams: the server has
      read or will read the requests sent, the callbacks were or will be given the replies to what
      it has read. */
  ghost predicate LinedUp(answer: Bytes -> Bytes, p: Pipe) {
    && Numbered(p)
    && (forall i :: 0 <= i < |p.seen| ==> 1 <= |p.seen[i]| <= MAX_READ)
    && Concat(p.seen) + p.toServer == Concat(p.issued[..Sent(p)])
    && Concat(Pieces(p.delivered)) + p.toClient == Answers(answer, p.seen)
  }

  lemma SendKeepsLine(answer: Bytes -> Bytes, p: Pipe, frame: Bytes)
    requires LinedUp(answer, p)
    ensures LinedUp(answer, Do(answer, p, Step.Send(frame)))
  {
    hide Concat, Answers;
    var q := Do(answer, p, Step.Send(frame));
    assert Outstanding(q) == Outstanding(p);
    assert q.issued[..Sent(q)] == p.issued[..Sent(p)];
  }

  lemma WriteKeepsLine(answer: Bytes -> Bytes, p: Pipe)
    requires LinedUp(answer, p) && CanStep(p, Step.Write)
    ensures LinedUp(answer, Do(answer, p, Step.Write))
  {
    hide Concat, Answers;
    var q, n := Do(answer, p, Step.Write), Sent(p);
    assert Outstanding(q) == Outstanding(p) + [p.queued[0]];
    assert q.issued[..Sent(q)] == p.issued[..n] + [p.issued[n]];
    ConcatSnoc(p.issued[..n], p.issued[n]);
    Regroup(Concat(p.seen), p.toServer, p.issued[n]);
  }

  lemma PostKeepsLine(answer: Bytes -> Bytes, p: Pipe)
    requires LinedUp(answer, p) && CanStep(p, Step.PostRead)
    ensures LinedUp(answer, Do(answer, p, Step.PostRead))
  {
    hide Concat, Answers;
    assert Outstanding(Do(answer, p, Step.PostRead)) == Outstanding(p);
  }

  lemma ServerReadKeepsLine(answer: Bytes -> Bytes, p: Pipe, n: nat)
    requires LinedUp(answer, p) && CanStep(p, Step.ServerRead(n))
    ensures LinedUp(answer, Do(answer, p, Step.ServerRead(n)))
  {
    hide Concat, Answers;
    assert Outstanding(Do(answer, p, Step.ServerRead(n))) == Outstanding(p);
    var piece, rest := p.toServer[..n], p.toServer[n..];
    assert piece + rest == p.toServer;
    ConcatSnoc(p.seen, piece);
    AnswersSnoc(answer, p.seen, piece);
    Regroup(Concat(p.seen), piece, rest);
    Regroup(Concat(Pieces(p.delivered)), p.toClient, answer(piece));
  }

  lemma ClientReadKeepsLine(answer: Bytes -> Bytes, p: Pipe, n: nat)
    requires LinedUp(answer, p) && CanStep(p, Step.ClientRead(n))
    ensures LinedUp(answer, Do(answer, p, Step.ClientRead(n)))
  {
    hide Concat, Answers;
    var q := Do(answer, p, Step.ClientRead(n));
    var piece, rest := p.toClient[..n], p.toClient[n..];
    assert Outstanding(p)[0] == p.waiting[0];
    assert Outstanding(q) == Outstanding(p)[1..];
    assert piece + rest == p.toClient;
    assert Pieces(q.delivered) == Pieces(p.delivered) + [piece];
    ConcatSnoc(Pieces(p.delivered), piece);
    Regroup(Concat(Pieces(p.delivered)), piece, rest);
  }

  lemma DoKeepsLine(answer: Bytes -> Bytes, p: Pipe, s: Step)
    requires LinedUp(answer, p) && CanStep(p, s)
    ensures LinedUp(answer, Do(answer, p, s))
  {
    hide LinedUp, Do;
    match s {
      case Send(frame) => SendKeepsLine(answer, p, frame);
      case Write => WriteKeepsLine(answer, p);
      case PostRead => PostKeepsLine(answer, p);
      case ServerRead(n) => ServerReadKeepsLine(answer, p, n);
      case ClientRead(n) => ClientReadKeepsLine(answer, p, n);
    }
  }

  lemma {:induction false} RunKeepsLine(answer: Bytes -> Bytes, p: Pipe, steps: seq<Step>)
    requires LinedUp(answer, p)
    ensures LinedUp(answer, Run(answer, p, steps))
    decreases |steps|
  {
    hide LinedUp, Do, CanStep;
    if steps != [] {
      if CanStep(p, steps[0]) {
        DoKeepsLine(answer, p, steps[0]);
        RunKeepsLine(answer, Do(answer, p, steps[0]), steps[1..]);
      } else {
        RunKeepsLine(answer, p, steps[1..]);
      }
    }
  }

  lemma EmptyLinedUp(answer: Bytes -> Bytes)
    ensures LinedUp(answer, EMPTY)
  {
    assert Pieces([]) == [];
  }

  /** In every run, whatever the reads cut, the k-th callback to be run is that of the k-th call. */
  lemma CallbacksInOrder(answer: Bytes -> Bytes, steps: seq<Step>, k: nat)
    requires k < |Run(answer, EMPTY, steps).delivered|
    ensures var p := Run(answer, EMPTY, steps); k < |p.issued| && p.delivered[k].0 == k
  {
    hide Run, Concat, Answers;
    EmptyLinedUp(answer);
    RunKeepsLine(answer, EMPTY, steps);
  }

  // ---------- when callbacks get the right replies ----------

  /** Every callback that was run was given the reply to its own request. */
  ghost predicate OwnReplies(answer: Bytes -> Bytes, p: Pipe)
    requires |p.delivered| <= |p.issued|
  {
    forall k :: 0 <= k < |p.delivered| ==> p.delivered[k] == (k, answer(p.issued[k]))
  }

  ghost predicate AllFrames(z: Zlib, answer: Bytes -> Bytes, requests: seq<Bytes>) {
    forall f <- requests :: IsFrame(z, f) && IsFrame(z, answer(f))
  }

  /** Whatever the server took for a request, its answer is something the encoder can write. */
  ghost predicate AllWritten(z: Zlib, answer: Bytes -> Bytes, pieces: seq<Bytes>) {
    forall piece <- pieces :: IsWritten(z, answer(piece))
  }

  /** Each callback was given one whole frame. */
  ghost predicate WholeReplies(z: Zlib, p: Pipe) {
    forall k :: 0 <= k < |p.delivered| ==> IsFrame(z, p.delivered[k].1)
  }

  /** Every read so far took exactly one frame. */
  ghost predicate OneFramePerRead(z: Zlib, p: Pipe) {
    WholeReplies(z, p) && forall piece <- p.seen :: IsFrame(z, piece)
  }

  lemma RunLinedUp(answer: Bytes -> Bytes, steps: seq<Step>)
    ensures var p := Run(answer, EMPTY, steps); LinedUp(answer, p) && |p.delivered| <= |p.issued|
  {
    hide Run, Concat, Answers;
    EmptyLinedUp(answer);
    RunKeepsLine(answer, EMPTY, steps);
  }

  lemma {:induction false} AnswersAreConcat(answer: Bytes -> Bytes, pieces: seq<Bytes>) returns (replies: seq<Bytes>)
    ensures |replies| == |pieces| && Answers(answer, pieces) == Concat(replies)
    ensures forall i :: 0 <= i < |pieces| ==> replies[i] == answer(pieces[i])
  {
    if pieces == [] {
      replies := [];
    } else {
      var tail := AnswersAreConcat(answer, pieces[1..]);
      replies := [answer(pieces[0])] + tail;
      assert replies[1..] == tail;
    }
  }

  /** A whole reply given to the k-th callback is the reply to the k-th read of the server. */
  lemma WholeRepliesAre(z: Zlib, answer: Bytes -> Bytes, p: Pipe)
    requires Lossless(z) && LinedUp(answer, p) && AllWritten(z, answer, p.seen) && WholeReplies(z, p)
    ensures |p.delivered| <= |p.seen|
    ensures forall k :: 0 <= k < |p.delivered| ==> p.delivered[k] == (k, answer(p.seen[k]))
  {
    hide Concat, Answers, IsFrame, IsWritten, Lossless;
    var replies := AnswersAreConcat(answer, p.seen);
    forall r | r in replies ensures IsWritten(z, r) {
      var i :| 0 <= i < |replies| && replies[i] == r;
      assert p.seen[i] in p.seen;
    }
    FrontSplit(z, Pieces(p.delivered), p.toClient, replies);
    forall k | 0 <= k < |p.delivered| ensures p.delivered[k] == (k, answer(p.seen[k])) {
      assert p.delivered[k].1 == Pieces(p.delivered)[k] == replies[k];
    }
  }

  /** In every run of well-formed calls the callbacks are given the replies to their own requests
      exactly when each is given one whole frame and the k-th read of the server, whatever it took,
      was answered as the k-th request would have been. */
  lemma RepliesInOrder(z: Zlib, answer: Bytes -> Bytes, steps: seq<Step>)
    requires Lossless(z)
    requires var p := Run(answer, EMPTY, steps); AllFrames(z, answer, p.issued) && AllWritten(z, answer, p.seen)
    ensures var p := Run(answer, EMPTY, steps);
      && |p.delivered| <= |p.issued|
      && (OwnReplies(answer, p) <==>
            && WholeReplies(z, p) && |p.delivered| <= |p.seen|
            && forall k :: 0 <= k < |p.delivered| ==> answer(p.seen[k]) == answer(p.issued[k]))
  {
    hide Run, LinedUp, IsFrame, Lossless;
    RunLinedUp(answer, steps);
    var p := Run(answer, EMPTY, steps);
    if OwnReplies(answer, p) {
      forall k | 0 <= k < |p.delivered| ensures IsFrame(z, p.delivered[k].1) {
        assert p.issued[k] in p.issued;
      }
    }
    if WholeReplies(z, p) {
      WholeRepliesAre(z, answer, p);
    }
  }

  /** So it is enough that every read of either side takes one frame: then the server has read the
      requests one by one. */
  lemma OneFramePerReadIsEnough(z: Zlib, answer: Bytes -> Bytes, steps: seq<Step>)
    requires Lossless(z)
    requires var p := Run(answer, EMPTY, steps); AllFrames(z, answer, p.issued) && OneFramePerRead(z, p)
    ensures var p := Run(answer, EMPTY, steps);
      |p.delivered| <= |p.seen| && p.seen <= p.issued && OwnReplies(answer, p)
  {
    hide Run, IsFrame, IsWritten, Lossless, Concat, Answers;
    RunLinedUp(answer, steps);
    var p := Run(answer, EMPTY, steps);
    var sent := p.issued[..Sent(p)];
    forall f | f in sent ensures IsWritten(z, f) {
      assert f in p.issued;
      FrameIsWritten(z, f);
    }
    FrontSplit(z, p.seen, p.toServer, sent);
    forall piece | piece in p.seen ensures IsWritten(z, answer(piece)) {
      assert piece in sent && piece in p.issued;
      FrameIsWritten(z, answer(piece));
    }
    WholeRepliesAre(z, answer, p);
  }

  // ---------- reads that take more or less than one request ----------

  /** The server answers a frame and overlooks whatever came with it in the same read. */
  lemma AnswerOverlooks<M(!new)>(w: World<M>, f: Bytes, g: Bytes)
    requires Lossless(w.z) && IsFrame(w.z, f)
    ensures w.Answer(f + g) == w.Answer(f)
  {
    hide DecodeFrame, Frame, Sendable, Readable, Lossless;
    var h, payload, order :| Sendable(w.z, h, payload, order) && Readable(h) && f == Frame(w.z, h, payload, order);
    FrameRoundTrip(w.z, h, payload, order, g);
    FrameRoundTrip(w.z, h, payload, order, []);
    assert f + [] == f;
  }

  /** The assumptions of `ReplyMeaning`. */
  ghost predicate Sound<M>(w: World<M>, data: Bytes) {
    Lossless(w.z) && ValidOrdering(w.ord) && |data| <= MAX_READ && Bounded(Judge(w.z, w.services, data))
  }

  /** A read that decodes and one that does not are never answered alike: the code tells. */
  lemma RefusalDiffers<M(!new)>(w: World<M>, f: Bytes, g: Bytes)
    requires Sound(w, f) && Sound(w, g) && IsFrame(w.z, w.Answer(f))
    requires DecodeFrame(w.z, f).Accepted? && DecodeFrame(w.z, g).Refused?
    ensures w.Answer(g) != w.Answer(f)
  {
    hide World.Answer, DecodeFrame, IsFrame, Sound;
    RepliesTell(w, f);
    if w.Answer(g) == w.Answer(f) {
      RepliesTell(w, g);
    }
  }

  /** From a reply that is a frame its reader learns whether the request decoded. */
  lemma RepliesTell<M(!new)>(w: World<M>, data: Bytes)
    requires Sound(w, data) && IsFrame(w.z, w.Answer(data))
    ensures var r := DecodeFrame(w.z, w.Answer(data));
      && r.Accepted?
      && (DecodeFrame(w.z, data).Refused? <==>
            r.header.status == 1 && r.header.error.Some? && r.header.error.value.code == 1)
  {
    hide Judge, DecodeFrame, IsFrame, IsWritten, Reply, ReplyHeader, Served, Lossless, Legible, Bounded;
    ReplyMeaning(w.z, w.ord, w.services, data);
    ReplyStatus(w.z, w.services, data);
    RefusedExactlyWhen(w.z, w.services, data);
    JudgedHeader(w.z, w.services, data);
    var reply := Reply(w.z, w.ord, w.services, data);
    assert reply + [] == reply == w.Answer(data);
    ServedIsInvoked(Judge(w.z, w.services, data));
  }

  lemma ServedIsInvoked<M>(v: Verdict<M>)
    ensures Served(v) ==> v.Invoke?
  {
  }

  lemma {:induction false} ConcatSplit(fs: seq<Bytes>, k: nat)
    requires k <= |fs|
    ensures Concat(fs) == Concat(fs[..k]) + Concat(fs[k..])
    decreases k
  {
    if k == 0 {
      assert fs[0..] == fs;
    } else {
      ConcatSplit(fs[1..], k - 1);
      assert fs[1..][..k - 1] == fs[..k][1..] && fs[1..][k - 1..] == fs[k..];
      Regroup(fs[0], Concat(fs[..k][1..]), Concat(fs[k..]));
    }
  }

  lemma StreamFrom(fs: seq<Bytes>, rest: Bytes, gs: seq<Bytes>, k: nat)
    requires k <= |fs| && k <= |gs| && fs[..k] == gs[..k]
    requires Concat(fs) + rest == Concat(gs)
    ensures Concat(fs[k..]) + rest == Concat(gs[k..])
  {
    ConcatSplit(fs, k);
    ConcatSplit(gs, k);
    hide Concat;
    var front := Concat(fs[..k]);
    Regroup(front, Concat(fs[k..]), rest);
    assert (front + (Concat(fs[k..]) + rest))[|front|..] == Concat(fs[k..]) + rest;
    assert (front + Concat(gs[k..]))[|front|..] == Concat(gs[k..]);
  }

  /** If the server has taken the requests before the k-th one by one, its k-th read starts where the
      k-th request starts. */
  lemma ReadStartsAt(answer: Bytes -> Bytes, p: Pipe, k: nat)
    requires LinedUp(answer, p) && k < |p.seen| && k <= |p.issued| && p.seen[..k] == p.issued[..k]
    ensures k < |p.issued| && (p.seen[k] <= p.issued[k] || p.issued[k] <= p.seen[k])
  {
    hide Answers, Concat;
    var sent := p.issued[..Sent(p)];
    var j := if k <= |sent| then k else |sent|;
    assert sent[..j] == p.issued[..k][..j] == p.seen[..k][..j] == p.seen[..j];
    StreamFrom(p.seen, p.toServer, sent, j);
    FirstOfConcat(p.seen[j..]);
    assert |p.seen[j]| >= 1;
    if j < |sent| {
      FirstOfConcat(sent[j..]);
      var more := Concat(p.seen[k..][1..]);
      Regroup(p.seen[k], more, p.toServer);
      PrefixesOfOne(p.seen[k], more + p.toServer, p.issued[k], Concat(sent[k..][1..]));
    } else {
      NothingIn(sent[j..]);
    }
  }

  lemma NothingIn(fs: seq<Bytes>)
    requires fs == []
    ensures Concat(fs) == []
  {
  }

  /** The first read of the server that does not take exactly one request takes more of the stream,
      or less. It is answered as the request it starts with exactly when it takes all of that. */
  lemma FirstInexactRead<M(!new)>(w: World<M>, steps: seq<Step>, k: nat)
    requires var p := Run(w.Answer, EMPTY, steps);
      && AllFrames(w.z, w.Answer, p.issued)
      && (forall f <- p.issued + p.seen :: Sound(w, f))
      && k < |p.seen| && k <= |p.issued| && p.seen[..k] == p.issued[..k]
    ensures var p := Run(w.Answer, EMPTY, steps);
      && k < |p.issued| && (p.seen[k] <= p.issued[k] || p.issued[k] <= p.seen[k])
      && (w.Answer(p.seen[k]) == w.Answer(p.issued[k]) <==> p.issued[k] <= p.seen[k])
  {
    hide Run, LinedUp, IsFrame, IsWritten, World.Answer, DecodeFrame, Sound;
    RunLinedUp(w.Answer, steps);
    var p := Run(w.Answer, EMPTY, steps);
    ReadStartsAt(w.Answer, p, k);
    var f, piece := p.issued[k], p.seen[k];
    assert f in p.issued + p.seen && piece in p.issued + p.seen;
    LosslessOf(w, f);
    FrameIsWritten(w.z, f);
    FrameAccepted(w.z, f);
    if f <= piece {
      assert piece == f + piece[|f|..];
      AnswerOverlooks(w, f, piece[|f|..]);
    } else {
      assert piece == f[..|piece|] && |piece| < |f|;
      RefusalDiffers(w, f, piece);
    }
  }

  lemma LosslessOf<M>(w: World<M>, data: Bytes)
    requires Sound(w, data)
    ensures Lossless(w.z)
  {
    hide Lossless;
  }

  /** A read that takes the requests from number `first` to before number `next`, one at least. */
  ghost predicate Takes(piece: Bytes, issued: seq<Bytes>, first: nat, next: nat) {
    first < next <= |issued| && piece == Concat(issued[first..next])
  }

  /** Every read of the server takes one request or more, whole: the j-th those from `starts[j]` on. */
  ghost predicate TakesWhole(p: Pipe, starts: seq<nat>) {
    && |starts| == |p.seen| + 1
    && (forall j :: 0 <= j < |p.seen| ==> Takes(p.seen[j], p.issued, starts[j], starts[j + 1]))
  }

  /** Such a read is answered as the first request in it. */
  lemma FirstIsAnswered<M(!new)>(w: World<M>, p: Pipe, starts: seq<nat>, j: nat)
    requires Lossless(w.z) && AllFrames(w.z, w.Answer, p.issued) && TakesWhole(p, starts) && j < |p.seen|
    ensures starts[j] < |p.issued| && w.Answer(p.seen[j]) == w.Answer(p.issued[starts[j]])
  {
    hide World.Answer, IsFrame, Lossless, Concat;
    assert Takes(p.seen[j], p.issued, starts[j], starts[j + 1]);
    var taken := p.issued[starts[j]..starts[j + 1]];
    assert taken[0] == p.issued[starts[j]] && p.issued[starts[j]] in p.issued;
    FirstOfConcat(taken);
    AnswerOverlooks(w, taken[0], Concat(taken[1..]));
  }

  lemma {:induction false} StartsAhead(p: Pipe, starts: seq<nat>, j: nat, k: nat)
    requires TakesWhole(p, starts) && j <= k <= |p.seen|
    ensures starts[j] + (k - j) <= starts[k]
    decreases k - j
  {
    if j < k {
      StartsAhead(p, starts, j + 1, k);
    }
  }

  /** When requests can be told apart by their replies, and no read cuts a request: callbacks that
      were given whole replies were given their own exactly when the server had taken one request
      per read up to the read that answered the last of them. That read may have taken more. */
  lemma MergedReads<M(!new)>(w: World<M>, steps: seq<Step>, starts: seq<nat>)
    requires Lossless(w.z)
    requires var p := Run(w.Answer, EMPTY, steps);
      && AllFrames(w.z, w.Answer, p.issued) && AllWritten(w.z, w.Answer, p.seen)
      && TakesWhole(p, starts) && WholeReplies(w.z, p)
      && (forall i, j :: 0 <= i < j < |p.issued| ==> w.Answer(p.issued[i]) != w.Answer(p.issued[j]))
    ensures var p := Run(w.Answer, EMPTY, steps); var n := |p.delivered|;
      && n <= |p.seen| && n <= |p.issued|
      && (OwnReplies(w.Answer, p) <==> n == 0 || starts[n - 1] == n - 1)
  {
    hide Run, LinedUp, WholeReplies, AllFrames, AllWritten, TakesWhole, World.Answer, Lossless;
    RunLinedUp(w.Answer, steps);
    var p := Run(w.Answer, EMPTY, steps);
    var n := |p.delivered|;
    WholeRepliesAre(w.z, w.Answer, p);
    TakesWholeSize(p, starts);
    forall k | 0 <= k < n
      ensures starts[k] < |p.issued| && p.delivered[k] == (k, w.Answer(p.issued[starts[k]]))
      ensures k <= starts[k] && starts[k] + (n - 1 - k) <= starts[n - 1]
    {
      StartsAhead(p, starts, 0, k);
      StartsAhead(p, starts, k, n - 1);
      FirstIsAnswered(w, p, starts, k);
    }
    OwnByPlace(w.Answer, p, starts[..n]);
  }

  lemma OwnByPlace(answer: Bytes -> Bytes, p: Pipe, places: seq<nat>)
    requires |places| == |p.delivered| <= |p.issued|
    requires forall k :: 0 <= k < |places| ==>
      places[k] < |p.issued| && p.delivered[k] == (k, answer(p.issued[places[k]]))
    requires forall k :: 0 <= k < |places| ==>
      k <= places[k] && places[k] + (|places| - 1 - k) <= places[|places| - 1]
    requires forall i, j :: 0 <= i < j < |p.issued| ==> answer(p.issued[i]) != answer(p.issued[j])
    ensures OwnReplies(answer, p) <==> places == [] || places[|places| - 1] == |places| - 1
  {
    var n := |places|;
    if places != [] && places[n - 1] == n - 1 {
      forall k | 0 <= k < n ensures places[k] == k {
      }
    }
  }

  lemma TakesWholeSize(p: Pipe, starts: seq<nat>)
    requires TakesWhole(p, starts)
    ensures |starts| == |p.seen| + 1
  {
  }

  lemma FirstOfConcat(fs: seq<Bytes>)
    requires fs != []
    ensures Concat(fs) == fs[0] + Concat(fs[1..])
  {
  }

  // ---------- ids ----------

  /** A callback that was given its own reply finds the id of its request in it. */
  lemma ReplyEchoesId<M(!new)>(w: World<M>, steps: seq<Step>, k: nat, h: RpcHeader, payload: Bytes, order: seq<Bytes>)
    requires var p := Run(w.Answer, EMPTY, steps);
      && AllFrames(w.z, w.Answer, p.issued) && |p.delivered| <= |p.issued| && OwnReplies(w.Answer, p)
      && k < |p.delivered|
      && Sendable(w.z, h, payload, order) && Readable(h)
      && p.issued[k] == Frame(w.z, h, payload, order) && Sound(w, p.issued[k])
    ensures var d := DecodeFrame(w.z, Run(w.Answer, EMPTY, steps).delivered[k].1);
      d.Accepted? && d.header.requestId == h.requestId
  {
    hide Run, World.Answer, Frame, DecodeFrame, Readable, Sendable, IsFrame, Sound;
    var frame := Run(w.Answer, EMPTY, steps).issued[k];
    assert frame in Run(w.Answer, EMPTY, steps).issued;
    EchoedId(w, frame, h, payload, order);
  }

  lemma EchoedId<M(!new)>(w: World<M>, frame: Bytes, h: RpcHeader, payload: Bytes, order: seq<Bytes>)
    requires Sendable(w.z, h, payload, order) && Readable(h) && frame == Frame(w.z, h, payload, order)
    requires Sound(w, frame) && IsFrame(w.z, w.Answer(frame))
    ensures var d := DecodeFrame(w.z, w.Answer(frame)); d.Accepted? && d.header.requestId == h.requestId
  {
    hide Judge, Frame, DecodeFrame, Served, Readable, Sendable, IsFrame, IsWritten, Bounded, Legible;
    hide Reply, ReplyHeader;
    FrameRoundTrip(w.z, h, payload, order, []);
    assert frame + [] == frame;
    ReplyStatus(w.z, w.services, frame);
    ReplyMeaning(w.z, w.ord, w.services, frame);
    var reply := Reply(w.z, w.ord, w.services, frame);
    assert reply + [] == reply == w.Answer(frame);
  }

  /** So requests with different ids have different replies. */
  lemma IdsTellApart<M(!new)>(w: World<M>, h: RpcHeader, payload: Bytes, order: seq<Bytes>,
                              h': RpcHeader, payload': Bytes, order': seq<Bytes>)
    requires Sendable(w.z, h, payload, order) && Readable(h) && Sendable(w.z, h', payload', order') && Readable(h')
    requires var f, g := Frame(w.z, h, payload, order), Frame(w.z, h', payload', order');
      Sound(w, f) && Sound(w, g) && IsFrame(w.z, w.Answer(f)) && IsFrame(w.z, w.Answer(g))
    requires h.requestId != h'.requestId
    ensures w.Answer(Frame(w.z, h, payload, order)) != w.Answer(Frame(w.z, h', payload', order'))
  {
    hide World.Answer, Frame, DecodeFrame, Readable, Sendable, IsFrame, Sound;
    EchoedId(w, Frame(w.z, h, payload, order), h, payload, order);
    EchoedId(w, Frame(w.z, h', payload', order'), h', payload', order');
  }

  // ---------- what happens otherwise ----------

  lemma RunOne(answer: Bytes -> Bytes, p: Pipe, s: Step, rest: seq<Step>)
    requires CanStep(p, s)
    ensures Run(answer, p, [s] + rest) == Run(answer, Do(answer, p, s), rest)
  {
    assert ([s] + rest)[1..] == rest;
  }

  /** `Send`, `Write` and `PostRead` for one more request. */
  lemma RunCall(answer: Bytes -> Bytes, p: Pipe, f: Bytes, rest: seq<Step>)
    requires p.queued == [] && p.unposted == []
    ensures Run(answer, p, [Step.Send(f)] + ([Step.Write] + ([PostRead] + rest))) == Run(answer,
      p.(issued := p.issued + [f], waiting := p.waiting + [|p.issued|], toServer := p.toServer + f), rest)
  {
    hide Run;
    var p1 := Do(answer, p, Step.Send(f));
    var p2 := Do(answer, p1, Step.Write);
    RunOne(answer, p, Step.Send(f), [Step.Write] + ([PostRead] + rest));
    RunOne(answer, p1, Step.Write, [PostRead] + rest);
    RunOne(answer, p2, PostRead, rest);
    assert [] + [|p.issued|] == [|p.issued|] && [|p.issued|][1..] == [];
  }

  /** Three calls, with the first two requests read at once. */
  function MergedRead(f: Bytes, g: Bytes, h: Bytes, m: nat, n: nat): seq<Step> {
    [Step.Send(f)] + ([Step.Write] + ([PostRead] +
    ([Step.Send(g)] + ([Step.Write] + ([PostRead] +
    ([Step.Send(h)] + ([Step.Write] + ([PostRead] +
    ([Step.ServerRead(|f + g|)] + ([Step.ServerRead(|h|)] +
    ([Step.ClientRead(m)] + ([Step.ClientRead(n)] + []))))))))))))
  }

  /** When the server takes two requests in one read and answers the first, the second callback is
      given the reply to the third request. */
  lemma MergedReadShifts(answer: Bytes -> Bytes, f: Bytes, g: Bytes, h: Bytes)
    requires f != [] && g != [] && h != [] && |f + g| <= MAX_READ && |h| <= MAX_READ
    requires answer(f + g) == answer(f)
    requires 1 <= |answer(f)| <= MAX_READ && 1 <= |answer(h)| <= MAX_READ
    ensures var p := Run(answer, EMPTY, MergedRead(f, g, h, |answer(f)|, |answer(h)|));
      p.issued == [f, g, h] && p.delivered == [(0, answer(f)), (1, answer(h))] && p.waiting == [2]
  {
    hide Run;
    var a, b := answer(f), answer(h);
    var rest := [Step.ServerRead(|f + g|)] + ([Step.ServerRead(|h|)] +
      ([Step.ClientRead(|a|)] + ([Step.ClientRead(|b|)] + [])));
    var third := [Step.Send(h)] + ([Step.Write] + ([PostRead] + rest));
    RunCall(answer, EMPTY, f, [Step.Send(g)] + ([Step.Write] + ([PostRead] + third)));
    var p1 := EMPTY.(issued := [f], waiting := [0], toServer := f);
    assert [] + [f] == [f] && [] + f == f && [] + [0] == [0];
    RunCall(answer, p1, g, third);
    var p2 := EMPTY.(issued := [f, g], waiting := [0, 1], toServer := f + g);
    assert [f] + [g] == [f, g] && [0] + [1] == [0, 1];
    RunCall(answer, p2, h, rest);
    var p3 := EMPTY.(issued := [f, g, h], waiting := [0, 1, 2], toServer := (f + g) + h);
    assert [f, g] + [h] == [f, g, h] && [0, 1] + [2] == [0, 1, 2];
    RunReads(answer, p3, f + g, h);
  }

  lemma RunReads(answer: Bytes -> Bytes, p: Pipe, x: Bytes, h: Bytes)
    requires x != [] && h != [] && |x| <= MAX_READ && |h| <= MAX_READ && |p.waiting| >= 2
    requires p.toServer == x + h && p.toClient == [] && p.seen == [] && p.delivered == []
    requires 1 <= |answer(x)| <= MAX_READ && 1 <= |answer(h)| <= MAX_READ
    ensures var a, b := answer(x), answer(h);
      var q := Run(answer, p,
        [Step.ServerRead(|x|)] + ([Step.ServerRead(|h|)] + ([Step.ClientRead(|a|)] + ([Step.ClientRead(|b|)] + []))));
      q.issued == p.issued && q.delivered == [(p.waiting[0], a), (p.waiting[1], b)] && q.waiting == p.waiting[2..]
  {
    hide Run;
    var a, b := answer(x), answer(h);
    var last := [Step.ClientRead(|b|)] + [];
    var rest := [Step.ClientRead(|a|)] + last;
    assert p.toServer[..|x|] == x && p.toServer[|x|..] == h;
    RunOne(answer, p, Step.ServerRead(|x|), [Step.ServerRead(|h|)] + rest);
    var p1 := p.(toServer := h, toClient := a, seen := [x]);
    assert [] + a == a && [] + [x] == [x] && h[..|h|] == h && h[|h|..] == [];
    RunOne(answer, p1, Step.ServerRead(|h|), rest);
    var p2 := p.(toServer := [], toClient := a + b, seen := [x, h]);
    assert [x] + [h] == [x, h] && (a + b)[..|a|] == a && (a + b)[|a|..] == b;
    RunOne(answer, p2, Step.ClientRead(|a|), last);
    var p3 := p2.(waiting := p.waiting[1..], toClient := b, delivered := [(p.waiting[0], a)]);
    assert [] + [(p.waiting[0], a)] == [(p.waiting[0], a)] && b[..|b|] == b;
    RunOne(answer, p3, Step.ClientRead(|b|), []);
    assert p.waiting[1..][1..] == p.waiting[2..];
    assert [(p.waiting[0], a)] + [(p.waiting[1], b)] == [(p.waiting[0], a), (p.waiting[1], b)];
    RunNothing(answer, Do(answer, p3, Step.ClientRead(|b|)));
  }

  lemma RunNothing(answer: Bytes -> Bytes, p: Pipe)
    ensures Run(answer, p, []) == p
  {
  }

  /** One frame per read is not needed: here the only read of the server takes two requests, and the
      only callback run so far was given its own reply. */
  lemma LastReadMayTakeMore(z: Zlib, answer: Bytes -> Bytes, f: Bytes, g: Bytes)
    requires Lossless(z) && IsFrame(z, f) && IsFrame(z, g)
    requires answer(f + g) == answer(f) && |f + g| <= MAX_READ && 1 <= |answer(f)| <= MAX_READ
    ensures var steps := [Step.Send(f)] + ([Step.Write] + ([PostRead] +
        ([Step.Send(g)] + ([Step.Write] + ([PostRead] +
        ([Step.ServerRead(|f + g|)] + ([Step.ClientRead(|answer(f)|)] + [])))))));
      var p := Run(answer, EMPTY, steps);
      && p.issued == [f, g] && p.delivered == [(0, answer(f))] && p.seen == [f + g]
      && OwnReplies(answer, p) && !OneFramePerRead(z, p)
  {
    hide Run, IsFrame, IsWritten, Lossless;
    var a := answer(f);
    var last := [Step.ClientRead(|a|)] + [];
    var rest := [Step.ServerRead(|f + g|)] + last;
    RunCall(answer, EMPTY, f, [Step.Send(g)] + ([Step.Write] + ([PostRead] + rest)));
    var p1 := EMPTY.(issued := [f], waiting := [0], toServer := f);
    assert [] + [f] == [f] && [] + f == f && [] + [0] == [0];
    RunCall(answer, p1, g, rest);
    var p2 := EMPTY.(issued := [f, g], waiting := [0, 1], toServer := f + g);
    assert [f] + [g] == [f, g] && [0] + [1] == [0, 1];
    FrameIsWritten(z, g);
    FrameAccepted(z, g);
    assert (f + g)[..|f + g|] == f + g && (f + g)[|f + g|..] == [];
    RunOne(answer, p2, Step.ServerRead(|f + g|), last);
    var p3 := p2.(toServer := [], toClient := a, seen := [f + g]);
    assert [] + a == a && [] + [f + g] == [f + g];
    RunOne(answer, p3, Step.ClientRead(|a|), []);
    assert a[..|a|] == a && [] + [(0, a)] == [(0, a)];
    RunNothing(answer, Do(answer, p3, Step.ClientRead(|a|)));
    if IsFrame(z, f + g) {
      FrameIsWritten(z, f + g);
      FramesPrefixFree(z, f, f + g);
    }
    assert f + g in [f + g];
  }

  // ---------- calls do get through ----------

  predicate Idle(p: Pipe) {
    p.queued == [] && p.unposted == [] && p.waiting == [] && p.toServer == [] && p.toClient == []
  }

  function OneCall(f: Bytes, n: nat): seq<Step> {
    [Step.Send(f)] + ([Step.Write] + ([PostRead] + ([Step.ServerRead(|f|)] + ([Step.ClientRead(n)] + []))))
  }

  /** On an idle connection a request and a reply that fit a buffer can pass whole. */
  lemma OneCallGoesThrough(answer: Bytes -> Bytes, p: Pipe, f: Bytes)
    requires Idle(p) && 1 <= |f| <= 8192 && 1 <= |answer(f)| <= 8192
    ensures Run(answer, p, OneCall(f, |answer(f)|)) == p.(
      issued := p.issued + [f], seen := p.seen + [f], delivered := p.delivered + [(|p.issued|, answer(f))])
  {
    hide Run;
    var a := answer(f);
    var last := [Step.ClientRead(|a|)] + [];
    RunCall(answer, p, f, [Step.ServerRead(|f|)] + last);
    var p1 := p.(issued := p.issued + [f], waiting := [|p.issued|], toServer := f);
    assert [] + [|p.issued|] == [|p.issued|] && [] + f == f;
    RunOne(answer, p1, Step.ServerRead(|f|), last);
    var p2 := p1.(toServer := [], toClient := a, seen := p.seen + [f]);
    assert f[..|f|] == f && f[|f|..] == [] && [] + a == a;
    RunOne(answer, p2, Step.ClientRead(|a|), []);
    assert a[..|a|] == a && a[|a|..] == [];
    RunNothing(answer, Do(answer, p2, Step.ClientRead(|a|)));
  }

  lemma {:induction false} RunAppend(answer: Bytes -> Bytes, p: Pipe, first: seq<Step>, second: seq<Step>)
    ensures Run(answer, p, first + second) == Run(answer, Run(answer, p, first), second)
    decreases |first|
  {
    hide Do, CanStep;
    if first == [] {
      assert first + second == second;
    } else {
      assert (first + second)[1..] == first[1..] + second;
      RunAppend(answer, if CanStep(p, first[0]) then Do(answer, p, first[0]) else p, first[1..], second);
    }
  }

  /** Every one of the requests was sent, and its callback was given the reply to it. */
  ghost predicate Through(answer: Bytes -> Bytes, p: Pipe, frames: seq<Bytes>) {
    && Idle(p) && p.issued == frames && |p.delivered| == |frames|
    && forall k :: 0 <= k < |frames| ==> p.delivered[k] == (k, answer(frames[k]))
  }

  lemma ThroughSnoc(answer: Bytes -> Bytes, p: Pipe, frames: seq<Bytes>, f: Bytes)
    requires Through(answer, p, frames) && 1 <= |f| <= 8192 && 1 <= |answer(f)| <= 8192
    ensures Through(answer, Run(answer, p, OneCall(f, |answer(f)|)), frames + [f])
  {
    hide Run, OneCall;
    OneCallGoesThrough(answer, p, f);
  }

  /** Any number of them can pass, each callback with the reply to its own request. */
  lemma {:induction false} CallsGoThrough(answer: Bytes -> Bytes, frames: seq<Bytes>) returns (steps: seq<Step>)
    requires forall f <- frames :: 1 <= |f| <= 8192 && 1 <= |answer(f)| <= 8192
    ensures Through(answer, Run(answer, EMPTY, steps), frames)
    decreases |frames|
  {
    if frames == [] {
      steps := [];
    } else {
      var front, f := frames[..|frames| - 1], frames[|frames| - 1];
      assert f in frames && front + [f] == frames;
      hide Run, OneCall, Through;
      var before := CallsGoThrough(answer, front);
      steps := before + OneCall(f, |answer(f)|);
      RunAppend(answer, EMPTY, before, OneCall(f, |answer(f)|));
      ThroughSnoc(answer, Run(answer, EMPTY, before), front, f);
    }
  }
}
