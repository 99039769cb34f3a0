/** Many asynchronous calls on one connection, each with its own controller, response and `done`: the
    calls of `AsyncCall` running over the byte streams of `Pipeline`. */
module Joint {
  import opened Common
  import opened Codec
  import opened Server
  import opened Transport
  import opened Controller
  import opened Channel
  import opened AsyncCall
  import Pipeline

  /** A call that was sent. `initial`, `events` and `at` are records for the proofs: its controller at
      the start, what has happened to it, and which of these was its completion. */
  datatype Pending<!M> = Pending(call: Call<M>, view: Snapshot<M>, initial: State, events: seq<Event>, at: nat)

  /** `steps` records what the connection has done. */
  datatype System<!M> = System(pipe: Pipeline.Pipe, calls: seq<Pending<M>>, steps: seq<Pipeline.Step>)

  /** What can happen: a call begins, the connection moves, or some caller cancels or resets the
      controller of its call. */
  datatype Label<!M> =
    | Begin(call: Call<M>, controller: State, lookup: Lookup, obstacle: Option<Trouble>)
    | Net(step: Pipeline.Step)
    | CancelCall(k: nat)
    | ResetCall(k: nat)

  function Begun<M>(controller: State): Snapshot<M> {
    Snapshot(controller, Untouched, 0, Idle)
  }

  function Told<M>(z: Zlib, p: Pending<M>, e: Event): Pending<M> {
    p.(view := React(z, p.call.response, p.view, e), events := p.events + [e])
  }

  predicate CanDo<M>(s: System<M>, l: Label<M>) {
    match l
    case Begin(_, _, _, _) => true
    case Net(step) =>
      && Pipeline.CanStep(s.pipe, step)
      && match step {
           case Send(_) => false
           case PostRead => s.pipe.unposted[0] < |s.calls|
           case ClientRead(_) => s.pipe.waiting[0] < |s.calls|
           case _ => true
         }
    case CancelCall(k) => k < |s.calls|
    case ResetCall(k) => k < |s.calls|
  }

  /** The call that a step of the connection concerns, with what happens to it. */
  function Concerned(p: Pipeline.Pipe, step: Pipeline.Step): Option<(nat, Event)>
    requires Pipeline.CanStep(p, step)
  {
    match step
    case PostRead => Some((p.unposted[0], WriteDone(true)))
    case ClientRead(n) => Some((p.waiting[0], ReadDone(Some(p.toClient[..n]))))
    case _ => None
  }

  function Moved<M>(w: World<M>, s: System<M>, step: Pipeline.Step): System<M>
    requires Pipeline.CanStep(s.pipe, step)
  {
    s.(pipe := Pipeline.Do(w.Answer, s.pipe, step), steps := s.steps + [step])
  }

  function Do<M>(w: World<M>, s: System<M>, l: Label<M>): System<M>
    requires CanDo(s, l)
  {
    match l
    case Begin(call, controller, lookup, obstacle) =>
      var e := Event.Start(lookup, obstacle, false);
      var v := React(w.z, call.response, Begun(controller), e);
      if !v.stage.Writing? then s
      else
        var t := Moved(w, s, Pipeline.Step.Send(call.Request(w.z)));
        t.(calls := s.calls + [Pending(call, v, controller, [e], 0)])
    case Net(step) =>
      var t := Moved(w, s, step);
      (match Concerned(s.pipe, step)
       case None => t
       case Some((k, e)) =>
         var p := s.calls[k];
         t.(calls := s.calls[k := Told(w.z, if e.ReadDone? then p.(at := |p.events|) else p, e)]))
    case CancelCall(k) => s.(calls := s.calls[k := Told(w.z, s.calls[k], Cancel)])
    case ResetCall(k) => s.(calls := s.calls[k := Told(w.z, s.calls[k], ResetController)])
  }

  function Run<M>(w: World<M>, s: System<M>, labels: seq<Label<M>>): System<M>
    decreases |labels|
  {
    if labels == [] then s else Run(w, if CanDo(s, labels[0]) then Do(w, s, labels[0]) else s, labels[1..])
  }

  function Empty<M>(): System<M> {
    System(Pipeline.EMPTY, [], [])
  }

  // ---------- every call lives as if it were alone ----------

  /** How far a call has come is known from the connection. */
  function StageOf(p: Pipeline.Pipe, k: nat): Stage {
    if k < |p.delivered| then Over else if k < |p.delivered| + |p.waiting| then Reading else Writing
  }

  /** The state of a call is what its own events make of it. */
  ghost predicate LivesAlone<M>(z: Zlib, p: Pending<M>) {
    p.view == Live(z, p.call.response, Begun(p.initial), p.events)
  }

  /** Its completion, which came while it was reading, delivered these bytes. */
  ghost predicate EndedBy<M>(z: Zlib, p: Pending<M>, data: Bytes) {
    && p.at < |p.events| && p.events[p.at] == ReadDone(Some(data))
    && Live(z, p.call.response, Begun(p.initial), p.events[..p.at]).stage.Reading?
  }

  ghost predicate CallInOrder<M>(z: Zlib, pipe: Pipeline.Pipe, p: Pending<M>, k: nat)
    requires k < |pipe.issued|
  {
    && pipe.issued[k] == p.call.Request(z)
    && LivesAlone(z, p)
    && p.view.stage == StageOf(pipe, k)
    && (k < |pipe.delivered| ==> EndedBy(z, p, pipe.delivered[k].1))
  }

  ghost predicate InOrder<M>(w: World<M>, s: System<M>) {
    && s.pipe == Pipeline.Run(w.Answer, Pipeline.EMPTY, s.steps)
    && Pipeline.LinedUp(w.Answer, s.pipe)
    && |s.calls| == |s.pipe.issued|
    && (forall k :: 0 <= k < |s.calls| ==> CallInOrder(w.z, s.pipe, s.calls[k], k))
  }

  lemma ToldLivesAlone<M>(z: Zlib, p: Pending<M>, e: Event)
    requires LivesAlone(z, p)
    ensures LivesAlone(z, Told(z, p, e))
  {
    hide React;
    LiveAppend(z, p.call.response, Begun(p.initial), p.events, [e]);
    LiveOne(z, p.call.response, p.view, e);
  }

  lemma ToldStillEnded<M>(z: Zlib, p: Pending<M>, e: Event, data: Bytes)
    requires EndedBy(z, p, data)
    ensures EndedBy(z, Told(z, p, e), data)
  {
    hide React, Live;
    assert (p.events + [e])[..p.at] == p.events[..p.at];
  }

  lemma RunSnoc(answer: Bytes -> Bytes, p: Pipeline.Pipe, steps: seq<Pipeline.Step>, step: Pipeline.Step)
    requires Pipeline.CanStep(Pipeline.Run(answer, p, steps), step)
    ensures Pipeline.Run(answer, p, steps + [step]) == Pipeline.Do(answer, Pipeline.Run(answer, p, steps), step)
    decreases |steps|
  {
    hide Pipeline.Do, Pipeline.CanStep;
    if steps == [] {
      assert [] + [step] == [step] + [];
      Pipeline.RunOne(answer, p, step, []);
      Pipeline.RunNothing(answer, Pipeline.Do(answer, p, step));
    } else {
      assert (steps + [step])[1..] == steps[1..] + [step];
      var q := if Pipeline.CanStep(p, steps[0]) then Pipeline.Do(answer, p, steps[0]) else p;
      RunSnoc(answer, q, steps[1..], step);
    }
  }

  /** A cancel or a reset of one call. */
  lemma TouchKeepsOrder<M>(w: World<M>, s: System<M>, k: nat, e: Event)
    requires InOrder(w, s) && k < |s.calls| && (e.Cancel? || e.ResetController?)
    ensures InOrder(w, s.(calls := s.calls[k := Told(w.z, s.calls[k], e)]))
  {
    hide Pipeline.Run, Pipeline.LinedUp, LivesAlone, EndedBy;
    var p := s.calls[k];
    ToldLivesAlone(w.z, p, e);
    if k < |s.pipe.delivered| {
      ToldStillEnded(w.z, p, e, s.pipe.delivered[k].1);
    }
  }

  /** A new call, which comes last. */
  lemma BeginKeepsOrder<M>(w: World<M>, s: System<M>, call: Call<M>, controller: State, lookup: Lookup,
                           obstacle: Option<Trouble>)
    requires InOrder(w, s)
    ensures InOrder(w, Do(w, s, Begin(call, controller, lookup, obstacle)))
  {
    hide Pipeline.Run, Pipeline.LinedUp, React, CallInOrder, Call.Request;
    var e := Event.Start(lookup, obstacle, false);
    var v := React(w.z, call.response, Begun(controller), e);
    if v.stage.Writing? {
      var step := Pipeline.Step.Send(call.Request(w.z));
      RunSnoc(w.Answer, Pipeline.EMPTY, s.steps, step);
      Pipeline.SendKeepsLine(w.Answer, s.pipe, call.Request(w.z));
      NewInOrder(w, s.pipe, Pending(call, v, controller, [e], 0));
      forall k | 0 <= k < |s.calls|
        ensures CallInOrder(w.z, Pipeline.Do(w.Answer, s.pipe, step), s.calls[k], k)
      {
        OthersKeepOrder(w, s.pipe, step, s.calls[k], k);
      }
    }
  }

  lemma NewInOrder<M>(w: World<M>, pipe: Pipeline.Pipe, p: Pending<M>)
    requires Pipeline.LinedUp(w.Answer, pipe)
    requires |p.events| == 1 && p.view == React(w.z, p.call.response, Begun(p.initial), p.events[0])
    requires p.view.stage.Writing?
    ensures CallInOrder(w.z, Pipeline.Do(w.Answer, pipe, Pipeline.Step.Send(p.call.Request(w.z))), p, |pipe.issued|)
  {
    hide Pipeline.LinedUp, React, Call.Request, EndedBy;
    Delivering(w.Answer, pipe);
    assert p.events == [p.events[0]];
    LiveOne(w.z, p.call.response, Begun(p.initial), p.events[0]);
  }

  /** A step of the connection leaves the calls it does not concern as they are. */
  lemma OthersKeepOrder<M>(w: World<M>, pipe: Pipeline.Pipe, step: Pipeline.Step, p: Pending<M>, k: nat)
    requires Pipeline.LinedUp(w.Answer, pipe) && Pipeline.CanStep(pipe, step) && k < |pipe.issued|
    requires CallInOrder(w.z, pipe, p, k)
    requires Concerned(pipe, step).Some? ==> Concerned(pipe, step).value.0 != k
    ensures var t := Pipeline.Do(w.Answer, pipe, step); k < |t.issued| && CallInOrder(w.z, t, p, k)
  {
    hide Pipeline.LinedUp, LivesAlone, EndedBy, Call.Request;
    Delivering(w.Answer, pipe);
  }

  /** What the numbering says about the first callback in each queue. */
  lemma Delivering(answer: Bytes -> Bytes, p: Pipeline.Pipe)
    requires Pipeline.LinedUp(answer, p)
    ensures |p.delivered| + |p.waiting| + |p.unposted| + |p.queued| == |p.issued|
    ensures p.waiting != [] ==> p.waiting[0] == |p.delivered|
    ensures p.unposted != [] ==> p.unposted[0] == |p.delivered| + |p.waiting|
  {
    hide Concat, Answers;
    var o := Pipeline.Outstanding(p);
    assert p.waiting != [] ==> o[0] == p.waiting[0];
    assert p.unposted != [] ==> o[|p.waiting|] == p.unposted[0];
  }

  /** The call whose read is posted. */
  lemma PostKeepsOrder<M>(w: World<M>, pipe: Pipeline.Pipe, p: Pending<M>, k: nat)
    requires Pipeline.LinedUp(w.Answer, pipe) && Pipeline.CanStep(pipe, Pipeline.Step.PostRead)
    requires k == pipe.unposted[0] && k < |pipe.issued| && CallInOrder(w.z, pipe, p, k)
    ensures var t := Pipeline.Do(w.Answer, pipe, Pipeline.Step.PostRead);
      k < |t.issued| && CallInOrder(w.z, t, Told(w.z, p, WriteDone(true)), k)
  {
    hide Pipeline.LinedUp, LivesAlone, EndedBy, Call.Request, Conclude, Preflight;
    Delivering(w.Answer, pipe);
    ToldLivesAlone(w.z, p, WriteDone(true));
  }

  /** The call whose completion is delivered. */
  lemma ReadKeepsOrder<M>(w: World<M>, pipe: Pipeline.Pipe, n: nat, p: Pending<M>, k: nat)
    requires Pipeline.LinedUp(w.Answer, pipe) && Pipeline.CanStep(pipe, Pipeline.Step.ClientRead(n))
    requires k == pipe.waiting[0] && k < |pipe.issued| && CallInOrder(w.z, pipe, p, k)
    ensures var t := Pipeline.Do(w.Answer, pipe, Pipeline.Step.ClientRead(n));
      && k < |t.issued|
      && CallInOrder(w.z, t, Told(w.z, p.(at := |p.events|), ReadDone(Some(pipe.toClient[..n]))), k)
  {
    hide Pipeline.LinedUp, LivesAlone, EndedBy, Call.Request, Conclude, Preflight;
    Delivering(w.Answer, pipe);
    var e := ReadDone(Some(pipe.toClient[..n]));
    SameLife(w.z, p, |p.events|);
    ToldLivesAlone(w.z, p.(at := |p.events|), e);
    EndsNow(w.z, p, e);
  }

  lemma SameLife<M>(z: Zlib, p: Pending<M>, at: nat)
    requires LivesAlone(z, p)
    ensures LivesAlone(z, p.(at := at))
  {
  }

  lemma EndsNow<M>(z: Zlib, p: Pending<M>, e: Event)
    requires LivesAlone(z, p) && p.view.stage.Reading? && e.ReadDone? && e.data.Some?
    ensures EndedBy(z, Told(z, p.(at := |p.events|), e), e.data.value)
  {
    hide React, Live;
    assert (p.events + [e])[..|p.events|] == p.events;
  }

  lemma NetKeepsOrder<M>(w: World<M>, s: System<M>, step: Pipeline.Step)
    requires InOrder(w, s) && CanDo(s, Net(step))
    ensures InOrder(w, Do(w, s, Net(step)))
  {
    hide Pipeline.Run, Pipeline.LinedUp, CallInOrder, React;
    RunSnoc(w.Answer, Pipeline.EMPTY, s.steps, step);
    Pipeline.DoKeepsLine(w.Answer, s.pipe, step);
    var t := Do(w, s, Net(step));
    SameNumber(w.Answer, s.pipe, step);
    forall k | 0 <= k < |t.calls| ensures CallInOrder(w.z, t.pipe, t.calls[k], k) {
      if step.PostRead? && s.pipe.unposted[0] == k {
        PostKeepsOrder(w, s.pipe, s.calls[k], k);
      } else if step.ClientRead? && s.pipe.waiting[0] == k {
        ReadKeepsOrder(w, s.pipe, step.n, s.calls[k], k);
      } else {
        OthersKeepOrder(w, s.pipe, step, s.calls[k], k);
      }
    }
  }

  lemma SameNumber(answer: Bytes -> Bytes, p: Pipeline.Pipe, step: Pipeline.Step)
    requires Pipeline.CanStep(p, step) && !step.Send?
    ensures Pipeline.Do(answer, p, step).issued == p.issued
  {
  }

  lemma DoKeepsOrder<M>(w: World<M>, s: System<M>, l: Label<M>)
    requires InOrder(w, s) && CanDo(s, l)
    ensures InOrder(w, Do(w, s, l))
  {
    hide InOrder;
    match l {
      case Begin(call, controller, lookup, obstacle) => BeginKeepsOrder(w, s, call, controller, lookup, obstacle);
      case Net(step) => NetKeepsOrder(w, s, step);
      case CancelCall(k) =>
        TouchKeepsOrder(w, s, k, Cancel);
      case ResetCall(k) =>
        TouchKeepsOrder(w, s, k, ResetController);
    }
  }

  lemma {:induction false} RunKeepsOrder<M>(w: World<M>, s: System<M>, labels: seq<Label<M>>)
    requires InOrder(w, s)
    ensures InOrder(w, Run(w, s, labels))
    decreases |labels|
  {
    hide InOrder, Do, CanDo;
    if labels != [] {
      if CanDo(s, labels[0]) {
        DoKeepsOrder(w, s, labels[0]);
        RunKeepsOrder(w, Do(w, s, labels[0]), labels[1..]);
      } else {
        RunKeepsOrder(w, s, labels[1..]);
      }
    }
  }

  lemma EmptyInOrder<M>(w: World<M>)
    ensures InOrder(w, Empty<M>())
  {
    Pipeline.EmptyLinedUp(w.Answer);
    Pipeline.RunNothing(w.Answer, Pipeline.EMPTY);
  }

  lemma RunInOrder<M>(w: World<M>, labels: seq<Label<M>>)
    ensures InOrder(w, Run(w, Empty(), labels))
  {
    hide InOrder, Run;
    EmptyInOrder(w);
    RunKeepsOrder(w, Empty(), labels);
  }

  /** In every run, whatever the reads cut and whoever cancels or resets: each call is in the state
      its own events lead to, and its `done` has run exactly once if its completion was delivered,
      and otherwise not at all. */
  lemma EachLivesAlone<M>(w: World<M>, labels: seq<Label<M>>, k: nat)
    requires k < |Run(w, Empty(), labels).calls|
    ensures var s := Run(w, Empty(), labels); var p := s.calls[k];
      && p.view == Live(w.z, p.call.response, Begun(p.initial), p.events)
      && (p.view.stage.Over? <==> k < |s.pipe.delivered|)
      && p.view.doneRuns == if k < |s.pipe.delivered| then 1 else 0
  {
    hide Run, Live, EndedBy, Pipeline.Run, Pipeline.LinedUp, React;
    RunInOrder(w, labels);
    var s := Run(w, Empty(), labels);
    var p := s.calls[k];
    assert CallInOrder(w.z, s.pipe, p, k);
    DoneRunsOnce(w.z, p.call.response, p.initial, p.events);
  }

  /** How a call ends that was given the reply to its own request: with the cancel error and its
      response untouched if a cancel stood at that moment, else as if it had been alone. */
  ghost predicate EndsAlone<M>(w: World<M>, p: Pending<M>) {
    && p.at < |p.events|
    && var before := p.events[..p.at];
    var u := Live(w.z, p.call.response, Begun(p.initial), before);
    var end := Live(w.z, p.call.response, Begun(p.initial), p.events[..p.at + 1]);
    && u.stage.Reading?
    && end == (if CancelStands(p.initial.canceled, before) then Finish(u, Outcome(Some(CANCELED), Untouched))
               else Land(u, WholeCall(w, p.call, UNDECODABLE_ASYNC)))
    && p.view.response == end.response
  }

  lemma EndingAlone<M(!new)>(w: World<M>, p: Pending<M>)
    requires Fair(w, p.call) && |p.call.Request(w.z)| <= MAX_READ
    requires LivesAlone(w.z, p) && EndedBy(w.z, p, w.Answer(p.call.Request(w.z)))
    ensures EndsAlone(w, p)
  {
    hide World.Answer, Fair, WholeCall, Conclude, Preflight, CancelStands, Call.Request, Live;
    var schema, start, before := p.call.response, Begun(p.initial), p.events[..p.at];
    var u := Live(w.z, schema, start, before);
    var data := w.Answer(p.call.Request(w.z));
    CancelFollows(w.z, schema, start, before);
    UntouchedUntilOver(w.z, schema, start, before);
    assert p.events[..p.at + 1] == before + [ReadDone(Some(data))];
    LiveAppend(w.z, schema, start, before, [ReadDone(Some(data))]);
    LiveOne(w.z, schema, u, ReadDone(Some(data)));
    WholeCallConcluded(w, p.call, [], UNDECODABLE_ASYNC);
    assert data + [] == data;
    assert p.events == p.events[..p.at + 1] + p.events[p.at + 1..];
    LiveAppend(w.z, schema, start, p.events[..p.at + 1], p.events[p.at + 1..]);
    OverStays(w.z, schema, Live(w.z, schema, start, p.events[..p.at + 1]), p.events[p.at + 1..]);
  }

  /** In every run in which the callbacks are given their own replies (`Pipeline.RepliesInOrder` says
      exactly when that is), every call whose completion was delivered ends as if it had been alone,
      unless a cancel stands. */
  lemma EachEndsAlone<M(!new)>(w: World<M>, labels: seq<Label<M>>, k: nat)
    requires var s := Run(w, Empty(), labels);
      && |s.pipe.delivered| <= |s.pipe.issued| && Pipeline.OwnReplies(w.Answer, s.pipe)
      && k < |s.pipe.delivered| && k < |s.calls|
      && Fair(w, s.calls[k].call) && |s.calls[k].call.Request(w.z)| <= MAX_READ
    ensures EndsAlone(w, Run(w, Empty(), labels).calls[k])
  {
    hide Run, LivesAlone, EndedBy, EndsAlone, Fair, Pipeline.Run, Pipeline.LinedUp, Call.Request, World.Answer;
    RunInOrder(w, labels);
    var s := Run(w, Empty(), labels);
    assert CallInOrder(w.z, s.pipe, s.calls[k], k);
    EndingAlone(w, s.calls[k]);
  }

  /** In particular when every read of either side takes one frame. */
  lemma AllEndAlone<M(!new)>(w: World<M>, labels: seq<Label<M>>, k: nat)
    requires Lossless(w.z)
    requires var s := Run(w, Empty(), labels);
      && (forall p <- s.calls :: Fair(w, p.call) && Spoken(w, p.call) && |p.call.Request(w.z)| <= MAX_READ)
      && Pipeline.OneFramePerRead(w.z, s.pipe) && k < |s.pipe.delivered|
    ensures k < |Run(w, Empty(), labels).calls| && EndsAlone(w, Run(w, Empty(), labels).calls[k])
  {
    hide Run, LivesAlone, EndedBy, EndsAlone, Fair, Spoken, Pipeline.Run, Pipeline.LinedUp, Call.Request, World.Answer;
    hide IsFrame, Lossless;
    RunInOrder(w, labels);
    var s := Run(w, Empty(), labels);
    forall f | f in s.pipe.issued ensures IsFrame(w.z, f) && IsFrame(w.z, w.Answer(f)) {
      var i :| 0 <= i < |s.pipe.issued| && f == s.pipe.issued[i];
      assert CallInOrder(w.z, s.pipe, s.calls[i], i) && s.calls[i] in s.calls;
      BothAreFrames(w, s.calls[i].call);
    }
    Pipeline.OneFramePerReadIsEnough(w.z, w.Answer, s.steps);
    assert s.calls[k] in s.calls;
    EachEndsAlone(w, labels, k);
  }

  // ---------- calls do get through ----------

  lemma JointOne<M>(w: World<M>, s: System<M>, l: Label<M>, rest: seq<Label<M>>)
    requires CanDo(s, l)
    ensures Run(w, s, [l] + rest) == Run(w, Do(w, s, l), rest)
  {
    assert ([l] + rest)[1..] == rest;
  }

  lemma JointNothing<M>(w: World<M>, s: System<M>)
    ensures Run(w, s, []) == s
  {
  }

  /** One call from beginning to end, with request and reply read whole. */
  function OneCall<M>(w: World<M>, call: Call<M>, controller: State, lookup: Lookup): seq<Label<M>> {
    [Begin(call, controller, lookup, None)] + ([Net(Pipeline.Step.Write)] + ([Net(Pipeline.Step.PostRead)] +
    ([Net(Pipeline.Step.ServerRead(|call.Request(w.z)|))] +
    ([Net(Pipeline.Step.ClientRead(|w.Answer(call.Request(w.z))|))] + []))))
  }

  /** On an idle connection a call that passes the early checks, and fits the buffers with its reply,
      can be sent and completed: its `done` runs and it ends as if alone. */
  lemma CallGoesThrough<M(!new)>(w: World<M>, labels: seq<Label<M>>, call: Call<M>, controller: State, lookup: Lookup)
    requires Pipeline.Idle(Run(w, Empty(), labels).pipe)
    requires Preflight(lookup, None, controller.canceled).Ok? && Fair(w, call)
    requires |call.Request(w.z)| <= 8192 && |w.Answer(call.Request(w.z))| <= 8192
    ensures var s := Run(w, Empty(), labels);
      var t := Run(w, s, OneCall(w, call, controller, lookup));
      && Pipeline.Idle(t.pipe) && |t.calls| == |s.calls| + 1
      && var p := t.calls[|s.calls|];
      p.call == call && p.view.stage.Over? && p.view.doneRuns == 1 && EndsAlone(w, p)
  {
    hide Run, Live, EndsAlone, EndedBy, LivesAlone, Fair, Pipeline.Run, Pipeline.LinedUp, World.Answer, Frame, OneCall;
    RunInOrder(w, labels);
    var s := Run(w, Empty(), labels);
    AnswerNotEmpty(w, call.Request(w.z));
    Delivering(w.Answer, s.pipe);
    StepsOfOneCall(w, s, call, controller, lookup);
    var t := Run(w, s, OneCall(w, call, controller, lookup));
    RunKeepsOrder(w, s, OneCall(w, call, controller, lookup));
    var k := |s.calls|;
    assert |s.pipe.delivered| == k;
    assert CallInOrder(w.z, t.pipe, t.calls[k], k);
    EndingAlone(w, t.calls[k]);
    hide React, Preflight;
    assert LivesAlone(w.z, t.calls[k]);
    DoneRunsOnce(w.z, call.response, t.calls[k].initial, t.calls[k].events);
    LivesAloneIs(w.z, t.calls[k]);
  }

  lemma LivesAloneIs<M>(z: Zlib, p: Pending<M>)
    requires LivesAlone(z, p)
    ensures p.view == Live(z, p.call.response, Begun(p.initial), p.events)
  {
  }

  lemma StepsOfOneCall<M>(w: World<M>, s: System<M>, call: Call<M>, controller: State, lookup: Lookup)
    requires InOrder(w, s) && Pipeline.Idle(s.pipe) && Preflight(lookup, None, controller.canceled).Ok?
    requires 1 <= |call.Request(w.z)| <= 8192 && 1 <= |w.Answer(call.Request(w.z))| <= 8192
    ensures var t := Run(w, s, OneCall(w, call, controller, lookup)); var f := call.Request(w.z);
      && Pipeline.Idle(t.pipe) && |t.calls| == |s.calls| + 1 && t.calls[|s.calls|].call == call
      && t.pipe.delivered == s.pipe.delivered + [(|s.calls|, w.Answer(f))] && |t.pipe.issued| == |s.calls| + 1
  {
    hide Run, React, Pipeline.Run, Pipeline.LinedUp, CallInOrder, World.Answer, Preflight, Call.Request;
    var f := call.Request(w.z);
    var a := w.Answer(f);
    var k := |s.calls|;
    var l1 := Begin(call, controller, lookup, None);
    var l5 := [Net(Pipeline.Step.ClientRead(|a|))] + [];
    var l4 := [Net(Pipeline.Step.ServerRead(|f|))] + l5;
    var l3 := [Net(Pipeline.Step.PostRead)] + l4;
    var l2 := [Net(Pipeline.Step.Write)] + l3;
    StartMeaning(w.z, call.response, Begun(controller), lookup, None);
    Delivering(w.Answer, s.pipe);
    var s1 := Do(w, s, l1);
    JointOne(w, s, l1, l2);
    var s2 := Do(w, s1, Net(Pipeline.Step.Write));
    assert [] + [k] == [k] && s1.pipe.queued == [k] && [] + f == f;
    JointOne(w, s1, Net(Pipeline.Step.Write), l3);
    var s3 := Do(w, s2, Net(Pipeline.Step.PostRead));
    assert s2.pipe.unposted == [k] && s2.pipe.toServer == f;
    JointOne(w, s2, Net(Pipeline.Step.PostRead), l4);
    var s4 := Do(w, s3, Net(Pipeline.Step.ServerRead(|f|)));
    assert s3.pipe.waiting == [k] && f[..|f|] == f && f[|f|..] == [] && [] + a == a;
    JointOne(w, s3, Net(Pipeline.Step.ServerRead(|f|)), l5);
    assert s4.pipe.toClient == a && a[..|a|] == a && a[|a|..] == [];
    JointOne(w, s4, Net(Pipeline.Step.ClientRead(|a|)), []);
    JointNothing(w, Do(w, s4, Net(Pipeline.Step.ClientRead(|a|))));
  }
}
