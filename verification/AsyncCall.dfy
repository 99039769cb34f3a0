/** One asynchronous `CallMethod`: early errors, the write, the read, and a controller that may be
    cancelled or reset at any moment. */
module AsyncCall {
  import opened Common
  import opened Codec
  import opened Server
  import opened Transport
  import opened Controller
  import opened Channel
  import Pipeline

  /** Where the one pending completion of the call stands. */
  datatype Stage = Idle | Writing | Reading | Over

  datatype Snapshot<+M> = Snapshot(controller: State, response: Slot<M>, doneRuns: nat, stage: Stage)

  /** What can happen to a call. `foreign` is a controller that is not an `XrpcController`; the
      completions carry what the library reports. */
  datatype Event =
    | Start(lookup: Lookup, trouble: Option<Trouble>, foreign: bool)
    | WriteDone(ok: bool)
    | ReadDone(data: Option<Bytes>)
    | Cancel
    | ResetController

  const SEND_FAILED := Ascii("Failed to send async request")
  const CANCELED := Ascii("Request was canceled")
  const UNDECODABLE_ASYNC := Ascii("Failed to decode async response")

  /** The end of the call: at most one error is set, and `done` runs. */
  function Finish<M>(v: Snapshot<M>, o: Outcome<M>): Snapshot<M> {
    Snapshot(if o.failure.Some? then Apply(v.controller, SetFailed(o.failure.value)).state else v.controller,
         o.response, v.doneRuns + 1, Over)
  }

  /** The end of the call after a reply: a response that was not touched stays as it was. */
  function Land<M>(v: Snapshot<M>, o: Outcome<M>): Snapshot<M> {
    Finish(v, if o.response.Untouched? then o.(response := v.response) else o)
  }

  function React<M>(z: Zlib, schema: Schema<M>, v: Snapshot<M>, e: Event): Snapshot<M> {
    match e
    case Start(lookup, trouble, foreign) =>
      if !v.stage.Idle? then v
      else
        (match Preflight(lookup, trouble, v.controller.canceled && !foreign)
         case Err(text) => Finish(v, Outcome(Some(text), v.response))
         case Ok(_) => if foreign then Finish(v, Outcome(None, v.response)) else v.(stage := Writing))
    case WriteDone(ok) =>
      if !v.stage.Writing? then v
      else if ok then v.(stage := Reading)
      else Finish(v, Outcome(Some(SEND_FAILED), v.response))
    case ReadDone(data) =>
      if !v.stage.Reading? then v
      else if data.None? then Finish(v, Outcome(Some(SEND_FAILED), v.response))
      else if v.controller.canceled then Finish(v, Outcome(Some(CANCELED), v.response))
      else Land(v, Conclude(z, schema, data.value, UNDECODABLE_ASYNC))
    case Cancel => v.(controller := Apply(v.controller, StartCancel).state)
    case ResetController => v.(controller := Apply(v.controller, Reset).state)
  }

  /** How a call starts: with an early error `done` has run; otherwise the call is pending and `done`
      has not. A controller of another class is not told apart from a success, and nothing is sent. */
  lemma StartMeaning<M>(z: Zlib, schema: Schema<M>, v: Snapshot<M>, lookup: Lookup, obstacle: Option<Trouble>)
    requires v.stage.Idle?
    ensures var early := Preflight(lookup, obstacle, v.controller.canceled);
      var r := React(z, schema, v, Start(lookup, obstacle, false));
      && r.response == v.response
      && (early.Ok? ==> r == Snapshot(v.controller, v.response, v.doneRuns, Writing))
      && (early.Err? ==>
            && r.controller == v.controller.(failed := true, errorText := early.text)
            && r.doneRuns == v.doneRuns + 1 && r.stage == Over)
    ensures Preflight(lookup, obstacle, false).Ok? ==>
      React(z, schema, v, Start(lookup, obstacle, true)) == Snapshot(v.controller, v.response, v.doneRuns + 1, Over)
  {
    hide Preflight;
  }

  /** How a pending call goes on: a good write makes it wait for the reply; a failed write or read, a
      cancel and a reply that cannot be decoded end it with their own texts and the response as it
      was; any other reply ends it as the reply says. */
  lemma PendingMeaning<M>(z: Zlib, schema: Schema<M>, v: Snapshot<M>, data: Bytes)
    ensures v.stage.Writing? ==>
      && React(z, schema, v, WriteDone(true)) == v.(stage := Reading)
      && Failing(v, React(z, schema, v, WriteDone(false)), "Failed to send async request")
    ensures v.stage.Reading? ==>
      var r := React(z, schema, v, ReadDone(Some(data)));
      && Failing(v, React(z, schema, v, ReadDone(None)), "Failed to send async request")
      && (v.controller.canceled ==> Failing(v, r, "Request was canceled"))
      && (!v.controller.canceled && DecodeFrame(z, data).Refused? ==> Failing(v, r, "Failed to decode async response"))
      && (!v.controller.canceled && DecodeFrame(z, data).Accepted? ==>
            r == Finish(v, Conclude(z, schema, data, Ascii("Failed to decode async response"))))
  {
    hide DecodeFrame, Ascii;
  }

  /** The call has ended in failure, with this text and nothing else changed. */
  ghost predicate Failing<M>(v: Snapshot<M>, r: Snapshot<M>, text: string) {
    r == Snapshot(v.controller.(failed := true, errorText := Ascii(text)), v.response, v.doneRuns + 1, Over)
  }

  function Live<M>(z: Zlib, schema: Schema<M>, v: Snapshot<M>, events: seq<Event>): Snapshot<M>
    decreases |events|
  {
    if events == [] then v else Live(z, schema, React(z, schema, v, events[0]), events[1..])
  }

  // ---------- `done` runs once ----------

  function Owed(stage: Stage): nat {
    if stage.Writing? || stage.Reading? then 1 else 0
  }

  ghost predicate OnceInvariant<M>(v: Snapshot<M>) {
    v.doneRuns + Owed(v.stage) == if v.stage.Idle? then 0 else 1
  }

  lemma {:induction false} LiveOnce<M>(z: Zlib, schema: Schema<M>, v: Snapshot<M>, events: seq<Event>)
    requires OnceInvariant(v)
    ensures OnceInvariant(Live(z, schema, v, events))
    decreases |events|
  {
    hide Preflight, Conclude;
    if events != [] {
      LiveOnce(z, schema, React(z, schema, v, events[0]), events[1..]);
    }
  }

  lemma {:induction false} LiveAppend<M>(z: Zlib, schema: Schema<M>, v: Snapshot<M>,
                                         first: seq<Event>, second: seq<Event>)
    ensures Live(z, schema, v, first + second) == Live(z, schema, Live(z, schema, v, first), second)
    decreases |first|
  {
    hide React;
    if first == [] {
      assert first + second == second;
    } else {
      assert (first + second)[1..] == first[1..] + second;
      LiveAppend(z, schema, React(z, schema, v, first[0]), first[1..], second);
    }
  }

  /** `done` runs at most once in every run; it has run exactly once as soon as the call is over;
      and the delivery of the pending completion ends the call. */
  lemma DoneRunsOnce<M>(z: Zlib, schema: Schema<M>, controller: State, events: seq<Event>)
    ensures var v := Live(z, schema, Snapshot(controller, Untouched, 0, Idle), events);
      && v.doneRuns <= 1
      && (v.doneRuns == 1 <==> v.stage.Over?)
      && (forall e :: (v.stage.Writing? && e == WriteDone(false)) || (v.stage.Reading? && e.ReadDone?) ==>
            React(z, schema, v, e).stage.Over? && React(z, schema, v, e).doneRuns == 1)
  {
    hide Preflight, Conclude;
    LiveOnce(z, schema, Snapshot(controller, Untouched, 0, Idle), events);
  }

  // ---------- cancellation ----------

  /** The state of a call that was cancelled and not reset since: if it is over, it ended in
      failure with the response untouched. */
  ghost predicate Doomed<M>(v: Snapshot<M>, response: Slot<M>) {
    && v.controller.canceled && v.response == response
    && (v.stage.Over? ==> v.controller.failed)
  }

  lemma {:induction false} DoomedStays<M>(z: Zlib, schema: Schema<M>, v: Snapshot<M>, events: seq<Event>)
    requires Doomed(v, v.response)
    requires ResetController !in events && (v.stage.Idle? ==> forall e <- events :: e.Start? ==> !e.foreign)
    ensures Doomed(Live(z, schema, v, events), v.response)
    decreases |events|
  {
    hide Preflight, Conclude;
    if events != [] {
      assert events[0] in events;
      DoomedStays(z, schema, React(z, schema, v, events[0]), events[1..]);
    }
  }

  /** A cancel that comes while the call is not over yet, with no reset after it, makes the call
      end in failure whenever it ends, with the response message untouched. */
  lemma CancelDooms<M>(z: Zlib, schema: Schema<M>, controller: State, before: seq<Event>, after: seq<Event>)
    requires ResetController !in after && (forall e <- after :: e.Start? ==> !e.foreign)
    requires !Live(z, schema, Snapshot(controller, Untouched, 0, Idle), before).stage.Over?
    ensures var v := Live(z, schema, Snapshot(controller, Untouched, 0, Idle), before + [Cancel] + after);
      && v.response == Untouched && (v.stage.Over? ==> v.controller.failed)
  {
    hide React;
    var start := Snapshot(controller, Untouched, 0, Idle);
    LiveAppend(z, schema, start, before + [Cancel], after);
    LiveAppend(z, schema, start, before, [Cancel]);
    var b := Live(z, schema, start, before);
    UntouchedUntilOver(z, schema, start, before);
    CancelReacts(z, schema, b);
    DoomedStays(z, schema, Live(z, schema, b, [Cancel]), after);
  }

  lemma CancelReacts<M>(z: Zlib, schema: Schema<M>, v: Snapshot<M>)
    ensures Live(z, schema, v, [Cancel]) == v.(controller := Apply(v.controller, StartCancel).state)
  {
    assert Live(z, schema, v, [Cancel]) == Live(z, schema, React(z, schema, v, Cancel), []);
  }

  lemma {:induction false} UntouchedUntilOver<M>(z: Zlib, schema: Schema<M>, v: Snapshot<M>, events: seq<Event>)
    requires !Live(z, schema, v, events).stage.Over?
    ensures Live(z, schema, v, events).response == v.response
    decreases |events|
  {
    hide Preflight, Conclude;
    if events != [] {
      OverStays(z, schema, React(z, schema, v, events[0]), events[1..]);
      UntouchedUntilOver(z, schema, React(z, schema, v, events[0]), events[1..]);
    }
  }

  /** Once over, nothing but the controller changes: late completions are not delivered again. */
  lemma {:induction false} OverStays<M>(z: Zlib, schema: Schema<M>, v: Snapshot<M>, events: seq<Event>)
    ensures v.stage.Over? ==>
      var r := Live(z, schema, v, events); r.stage.Over? && r.doneRuns == v.doneRuns && r.response == v.response
    decreases |events|
  {
    hide Preflight, Conclude;
    if events != [] && v.stage.Over? {
      OverStays(z, schema, React(z, schema, v, events[0]), events[1..]);
    }
  }

  /** Whether a cancel stands after the events: the last cancel or reset decides. */
  function CancelStands(initially: bool, events: seq<Event>): bool {
    if events == [] then initially
    else
      match events[|events| - 1]
      case Cancel => true
      case ResetController => false
      case _ => CancelStands(initially, events[..|events| - 1])
  }

  lemma {:induction false} CancelFollows<M>(z: Zlib, schema: Schema<M>, v: Snapshot<M>, events: seq<Event>)
    ensures var r := Live(z, schema, v, events);
      && r.controller.canceled == CancelStands(v.controller.canceled, events)
      && (!r.stage.Over? && !v.controller.failed ==> !r.controller.failed)
    decreases |events|
  {
    hide Preflight, Conclude;
    if events != [] {
      var front, last := events[..|events| - 1], events[|events| - 1];
      assert front + [last] == events;
      CancelFollows(z, schema, v, front);
      LiveAppend(z, schema, v, front, [last]);
      LiveOne(z, schema, Live(z, schema, v, front), last);
    }
  }

  lemma LiveOne<M>(z: Zlib, schema: Schema<M>, v: Snapshot<M>, e: Event)
    ensures Live(z, schema, v, [e]) == React(z, schema, v, e)
  {
    hide React;
    assert Live(z, schema, v, [e]) == Live(z, schema, React(z, schema, v, e), [e][1..]);
  }

  /** Take any run that leads to the delivery of a reply which by itself would be a success. The
      call ends in failure with the response untouched exactly when a cancel stands at that moment:
      the last cancel or reset was a cancel, or there was neither and the controller came cancelled.
      Otherwise it ends with the response, and as a success unless the controller came failed. */
  lemma CancelStandsExactly<M>(z: Zlib, schema: Schema<M>, controller: State, events: seq<Event>, data: Bytes)
    requires Live(z, schema, Snapshot(controller, Untouched, 0, Idle), events).stage.Reading?
    requires Conclude(z, schema, data, UNDECODABLE_ASYNC).failure.None?
    ensures var r := Live(z, schema, Snapshot(controller, Untouched, 0, Idle), events + [ReadDone(Some(data))]);
      var stands := CancelStands(controller.canceled, events);
      && r.stage.Over?
      && (r.response.Untouched? <==> stands)
      && (stands ==> r.controller.failed && r.controller.errorText == CANCELED)
      && (!stands ==> r.response == Conclude(z, schema, data, UNDECODABLE_ASYNC).response)
      && (!stands && !controller.failed ==> !r.controller.failed)
  {
    hide Preflight, CancelStands;
    var start := Snapshot(controller, Untouched, 0, Idle);
    var v := Live(z, schema, start, events);
    CancelFollows(z, schema, start, events);
    UntouchedUntilOver(z, schema, start, events);
    LiveAppend(z, schema, start, events, [ReadDone(Some(data))]);
    LiveOne(z, schema, v, ReadDone(Some(data)));
    ConcludeIs(z, schema, data, UNDECODABLE_ASYNC);
  }

  /** A call that passes the early checks, is written and gets a good reply succeeds with it. */
  lemma GoodCallSucceeds<M>(z: Zlib, schema: Schema<M>, controller: State, lookup: Lookup, obstacle: Option<Trouble>,
                            data: Bytes)
    requires !controller.canceled && Preflight(lookup, obstacle, false).Ok?
    requires Conclude(z, schema, data, UNDECODABLE_ASYNC).failure.None?
    ensures Live(z, schema, Snapshot(controller, Untouched, 0, Idle),
                 [Start(lookup, obstacle, false)] + ([WriteDone(true)] + [ReadDone(Some(data))]))
         == Snapshot(controller, Conclude(z, schema, data, UNDECODABLE_ASYNC).response, 1, Over)
  {
    hide React, Preflight, Conclude;
    var v: Snapshot<M> := Snapshot(controller, Untouched, 0, Idle);
    var e1, e2, e3 := Start(lookup, obstacle, false), WriteDone(true), ReadDone(Some(data));
    var v1, v2 := v.(stage := Writing), v.(stage := Reading);
    LiveAppend(z, schema, v, [e1], [e2] + [e3]);
    LiveOne(z, schema, v, e1);
    StartMeaning(z, schema, v, lookup, obstacle);
    LiveAppend(z, schema, v1, [e2], [e3]);
    LiveOne(z, schema, v1, e2);
    PendingMeaning(z, schema, v1, data);
    LiveOne(z, schema, v2, e3);
    ReadSucceeds(z, schema, v2, data);
  }

  lemma ReadSucceeds<M>(z: Zlib, schema: Schema<M>, v: Snapshot<M>, data: Bytes)
    requires v.stage.Reading? && !v.controller.canceled
    requires Conclude(z, schema, data, UNDECODABLE_ASYNC).failure.None?
    ensures React(z, schema, v, ReadDone(Some(data)))
         == Snapshot(v.controller, Conclude(z, schema, data, UNDECODABLE_ASYNC).response, v.doneRuns + 1, Over)
  {
    hide ReadReply;
    ConcludeIs(z, schema, data, UNDECODABLE_ASYNC);
    AnsweredIsHeld(z, schema, data);
  }

  lemma AnsweredIsHeld<M>(z: Zlib, schema: Schema<M>, data: Bytes)
    ensures var a := ReadReply(z, schema, data); a.ok ==> a.response.Holds?
  {
    hide DecodeFrame;
  }

  /** The completion that ended a call well, at place `i`. */
  ghost predicate EndedWell<M>(z: Zlib, schema: Schema<M>, v: Snapshot<M>, events: seq<Event>, i: nat,
                               response: Slot<M>) {
    && i < |events| && events[i].ReadDone? && events[i].data.Some?
    && Live(z, schema, v, events[..i]).stage.Reading?
    && var o := Conclude(z, schema, events[i].data.value, UNDECODABLE_ASYNC);
    && o.failure.None? && response == o.response
  }

  /** Conversely: a call on an `XrpcController` that is over and not failed, without any reset, was
      delivered a reply that is a success, and has its response. */
  lemma {:induction false} SuccessMeansReply<M>(z: Zlib, schema: Schema<M>, v: Snapshot<M>, events: seq<Event>)
    requires v.stage.Idle?
    requires ResetController !in events && (forall e <- events :: e.Start? ==> !e.foreign)
    requires var r := Live(z, schema, v, events); r.stage.Over? && !r.controller.failed
    ensures exists i: nat :: EndedWell(z, schema, v, events, i, Live(z, schema, v, events).response)
    decreases |events|
  {
    hide Preflight, Conclude;
    if events != [] {
      var front, e := events[..|events| - 1], events[|events| - 1];
      assert front + [e] == events && e in events && forall x <- front :: x in events;
      var u := Live(z, schema, v, front);
      LiveAppend(z, schema, v, front, [e]);
      LiveOne(z, schema, u, e);
      if u.stage.Over? {
        SuccessMeansReply(z, schema, v, front);
        var i: nat :| EndedWell(z, schema, v, front, i, u.response);
        assert front[..i] == events[..i];
        assert EndedWell(z, schema, v, events, i, u.response);
      } else {
        LastSucceeded(z, schema, u, e);
        assert EndedWell(z, schema, v, events, |front|, React(z, schema, u, e).response);
      }
    }
  }

  lemma LastSucceeded<M>(z: Zlib, schema: Schema<M>, u: Snapshot<M>, e: Event)
    requires !u.stage.Over? && e != ResetController && (e.Start? ==> !e.foreign)
    requires React(z, schema, u, e).stage.Over? && !React(z, schema, u, e).controller.failed
    ensures u.stage.Reading? && e.ReadDone? && e.data.Some?
    ensures var o := Conclude(z, schema, e.data.value, UNDECODABLE_ASYNC);
      o.failure.None? && React(z, schema, u, e).response == o.response
  {
    hide Preflight;
    if e.ReadDone? && e.data.Some? {
      hide ReadReply;
      ConcludeIs(z, schema, e.data.value, UNDECODABLE_ASYNC);
      AnsweredIsHeld(z, schema, e.data.value);
    }
  }

  /** For instance, after a reset between cancel and completion the cancel is forgotten: this call
      ends without failure although it was cancelled while pending. */
  lemma ResetForgetsCancel<M>(z: Zlib, schema: Schema<M>, v: Snapshot<M>, data: Bytes)
    requires v.stage.Reading?
    requires Conclude(z, schema, data, UNDECODABLE_ASYNC).failure.None?
    ensures !Live(z, schema, v, [Cancel, ResetController, ReadDone(Some(data))]).controller.failed
  {
    assert [Cancel, ResetController, ReadDone(Some(data))] == [Cancel] + ([ResetController] + [ReadDone(Some(data))]);
    var v1 := React(z, schema, v, Cancel);
    var v2 := React(z, schema, v1, ResetController);
    LiveAppend(z, schema, v, [Cancel], [ResetController] + [ReadDone(Some(data))]);
    LiveAppend(z, schema, v1, [ResetController], [ReadDone(Some(data))]);
    LiveOne(z, schema, v, Cancel);
    LiveOne(z, schema, v1, ResetController);
    LiveOne(z, schema, v2, ReadDone(Some(data)));
  }

  // ---------- many calls at once ----------

  /** Many asynchronous calls outstanding on one connection, each read taking one frame: the k-th
      completion belongs to the k-th call, and, unless cancelled, ends it as if it had been alone. */
  lemma PipelinedCalls<M(!new)>(w: World<M>, calls: seq<Call<M>>, steps: seq<Pipeline.Step>, k: nat, v: Snapshot<M>)
    requires Lossless(w.z)
    requires forall call <- calls :: Fair(w, call) && Spoken(w, call) && |call.Request(w.z)| <= MAX_READ
    requires var p := Pipeline.Run(w.Answer, Pipeline.EMPTY, steps);
      && p.issued == seq(|calls|, i requires 0 <= i < |calls| => calls[i].Request(w.z))
      && Pipeline.OneFramePerRead(w.z, p) && k < |p.delivered|
    requires v.stage.Reading? && !v.controller.canceled
    ensures var d := Pipeline.Run(w.Answer, Pipeline.EMPTY, steps).delivered[k];
      && k < |calls| && d.0 == k
      && React(w.z, calls[k].response, v, ReadDone(Some(d.1))) == Land(v, WholeCall(w, calls[k], UNDECODABLE_ASYNC))
  {
    hide World.Answer, Conclude, Fair, Frame, Spoken, WholeCall, IsFrame, Lossless, Pipeline.Run;
    var p := Pipeline.Run(w.Answer, Pipeline.EMPTY, steps);
    forall f | f in p.issued ensures IsFrame(w.z, f) && IsFrame(w.z, w.Answer(f)) {
      var i :| 0 <= i < |calls| && f == calls[i].Request(w.z);
      BothAreFrames(w, calls[i]);
    }
    Pipeline.OneFramePerReadIsEnough(w.z, w.Answer, steps);
    var call := calls[k];
    assert p.delivered[k] == (k, w.Answer(call.Request(w.z)));
    WholeCallConcluded(w, call, [], UNDECODABLE_ASYNC);
    assert w.Answer(call.Request(w.z)) + [] == w.Answer(call.Request(w.z));
  }

  /** Without that, a call can end with the result of another: when the server takes the requests
      of two calls in one read, the second call ends as the third one would, if they have the same
      response type. Nobody compares the ids. */
  lemma MergedReadMisleads<M(!new)>(w: World<M>, a: Call<M>, b: Call<M>, c: Call<M>, v: Snapshot<M>)
    requires Fair(w, a) && Fair(w, c) && b.response == c.response
    requires var f, g, h := a.Request(w.z), b.Request(w.z), c.Request(w.z);
      && |f + g| <= MAX_READ && |h| <= MAX_READ && |w.Answer(f)| <= MAX_READ && |w.Answer(h)| <= MAX_READ
    requires v.stage.Reading? && !v.controller.canceled
    ensures var f, g, h := a.Request(w.z), b.Request(w.z), c.Request(w.z);
      var steps := Pipeline.MergedRead(f, g, h, |w.Answer(f)|, |w.Answer(h)|);
      var p := Pipeline.Run(w.Answer, Pipeline.EMPTY, steps);
      && p.issued == [f, g, h] && |p.delivered| == 2 && p.delivered[1].0 == 1
      && React(w.z, b.response, v, ReadDone(Some(p.delivered[1].1))) == Land(v, WholeCall(w, c, UNDECODABLE_ASYNC))
  {
    hide Conclude, Fair, Frame, Spoken, WholeCall, IsFrame, Pipeline.Run, Pipeline.MergedRead, Reply;
    var f, g, h := a.Request(w.z), b.Request(w.z), c.Request(w.z);
    BothAreFrames(w, a);
    FairIsLossless(w, a);
    Pipeline.AnswerOverlooks(w, f, g);
    Pipeline.MergedReadShifts(w.Answer, f, g, h);
    WholeCallConcluded(w, c, [], UNDECODABLE_ASYNC);
    assert w.Answer(h) + [] == w.Answer(h);
  }

  lemma FairIsLossless<M(!new)>(w: World<M>, call: Call<M>)
    requires Fair(w, call)
    ensures Lossless(w.z)
  {
  }

  // ---------- the call object ----------

  /** The closure handed to `SendAsync`, with the objects it captures. */
  class PendingCall<M(!new)> {
    const channel: XrpcChannel<M>
    const controller: XrpcController
    const schema: Schema<M>
    var response: Slot<M>
    var doneRuns: nat
    var stage: Stage

    ghost function View(): Snapshot<M>
      reads this, controller
    {
      Snapshot(controller.View(), response, doneRuns, stage)
    }

    constructor (channel: XrpcChannel<M>, controller: XrpcController, schema: Schema<M>)
      ensures this.channel == channel && this.controller == controller && this.schema == schema
      ensures response == Untouched && doneRuns == 0 && stage == Idle
    {
      this.channel, this.controller, this.schema := channel, controller, schema;
      response, doneRuns, stage := Untouched, 0, Idle;
    }

    /** `CallMethod` with `done`, up to the return of `SendRequestAsync`. */
    method Start(lookup: Lookup, trouble: Option<Trouble>)
      requires stage.Idle? && channel.transport.Valid()
      modifies this, controller, channel.transport`socket
      ensures channel.transport.socket == SocketAfter(old(channel.transport.socket), lookup, trouble)
      ensures View() == React(channel.codec.z, schema, old(View()),
        Event.Start(lookup, Obstacle(old(channel.transport.socket), trouble), false))
      ensures
        var early := Preflight(lookup, Obstacle(old(channel.transport.socket), trouble), old(controller.canceled));
        if early.Ok? then stage == Writing && doneRuns == old(doneRuns) && controller.View() == old(controller.View())
        else stage == Over && doneRuns == old(doneRuns) + 1 && controller.failed && controller.errorText == early.text
      ensures response == old(response)
    {
      hide Preflight, Conclude;
      var prepared := channel.Prepare(controller, lookup, trouble);
      if prepared.Err? {
        controller.SetFailed(prepared.text);
        doneRuns, stage := doneRuns + 1, Over;
        return;
      }
      stage := Writing;
    }

    /** The handler of `async_write`, which fails on a socket that leads nowhere. */
    method OnWrite(ok: bool)
      requires stage.Writing? && (ok ==> channel.transport.socket.Leads?)
      modifies this, controller
      ensures View() == React(channel.codec.z, schema, old(View()), WriteDone(ok))
    {
      hide Conclude;
      if !ok {
        Completion([], false);
        return;
      }
      stage := Reading;
    }

    /** `HandleClientAsyncRead`. */
    method OnRead(data: Option<Bytes>)
      requires stage.Reading?
      modifies this, controller
      ensures View() == React(channel.codec.z, schema, old(View()), ReadDone(data))
    {
      hide Conclude;
      if data.Some? {
        Completion(data.value, true);
      } else {
        Completion([], false);
      }
    }

    /** The completion handler of `SendRequestAsync`. */
    method Completion(responseData: Bytes, success: bool)
      requires stage.Writing? || stage.Reading?
      modifies this, controller
      ensures View() == Finish(old(View()),
        if !success then Outcome(Some(SEND_FAILED), old(response))
        else if old(controller.canceled) then Outcome(Some(CANCELED), old(response))
        else
          var o := Conclude(channel.codec.z, schema, responseData, UNDECODABLE_ASYNC);
          if o.response.Untouched? then o.(response := old(response)) else o)
    {
      hide Conclude, ReadReply;
      stage := Over;
      if !success {
        controller.SetFailed(SEND_FAILED);
        doneRuns := doneRuns + 1;
        return;
      }
      if controller.canceled {
        controller.SetFailed(CANCELED);
        doneRuns := doneRuns + 1;
        return;
      }
      var ok, responseHeader, decoded := channel.codec.DecodeResponse(responseData, schema);
      ConcludeIs(channel.codec.z, schema, responseData, UNDECODABLE_ASYNC);
      if !decoded.Untouched? {
        response := decoded;
      }
      if !ok {
        controller.SetFailed(UNDECODABLE_ASYNC);
        doneRuns := doneRuns + 1;
        return;
      }
      if responseHeader.status != 0 && responseHeader.error.Some? {
        controller.SetFailed(responseHeader.error.value.message);
        doneRuns := doneRuns + 1;
        return;
      }
      doneRuns := doneRuns + 1;
    }
  }
}
