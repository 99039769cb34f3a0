/** `XrpcController`: failure and cancellation state of one call, and the promise that an installed
    cancel callback runs at most once. */
module Controller {
  import opened Common

  /** A closure is known by the number of the `NotifyOnCancel` call that installed it. */
  type ClosureId = nat

  datatype State = State(failed: bool, errorText: Bytes, canceled: bool, callback: Option<ClosureId>)

  const FRESH := State(false, [], false, None)

  datatype Op =
    | Reset
    | SetFailed(reason: Bytes)
    | StartCancel
    | NotifyOnCancel(callback: Option<ClosureId>)
    | Destroy

  /** What an operation leaves behind, and which closures it runs while doing so. */
  datatype Effect = Effect(state: State, ran: seq<ClosureId>)

  function Apply(s: State, op: Op): Effect {
    match op
    case Reset => Effect(FRESH, [])
    case SetFailed(reason) => Effect(s.(failed := true, errorText := reason), [])
    case StartCancel =>
      if s.canceled then Effect(s, [])
      else Effect(s.(canceled := true, callback := None), Stored(s))
    case NotifyOnCancel(callback) =>
      if s.canceled && callback.Some? then Effect(s.(callback := None), [callback.value])
      else Effect(s.(callback := callback), [])
    case Destroy => Effect(s, if s.canceled then [] else Stored(s))
  }

  function Stored(s: State): seq<ClosureId> {
    if s.callback.Some? then [s.callback.value] else []
  }

  /** The closure an operation takes out of the controller without running it. */
  function Dropped(s: State, op: Op): seq<ClosureId> {
    if op.Reset? || op.NotifyOnCancel? then Stored(s) else []
  }

  function Installed(op: Op): seq<ClosureId> {
    if op.NotifyOnCancel? && op.callback.Some? then [op.callback.value] else []
  }

  // ---------- whole runs ----------

  /** The books over a run: every closure installed, run, and replaced or dropped, in order. */
  datatype Books = Books(state: State, installed: seq<ClosureId>, ran: seq<ClosureId>, dropped: seq<ClosureId>)

  function Enter(b: Books, op: Op): Books {
    var e := Apply(b.state, op);
    Books(e.state, b.installed + Installed(op), b.ran + e.ran, b.dropped + Dropped(b.state, op))
  }

  function Play(b: Books, ops: seq<Op>): Books
    decreases |ops|
  {
    if ops == [] then b else Play(Enter(b, ops[0]), ops[1..])
  }

  const OPENED := Books(FRESH, [], [], [])

  /** The balance: what was installed is what was run, what was dropped, and what is still stored;
      and a cancelled controller stores nothing. */
  ghost predicate Balanced(b: Books) {
    && multiset(b.installed) == multiset(b.ran) + multiset(b.dropped) + multiset(Stored(b.state))
    && (b.state.canceled ==> b.state.callback.None?)
  }

  /** One operation moves closures between the books without making or losing any. */
  lemma ApplyConserves(s: State, op: Op)
    requires !op.Destroy? && (s.canceled ==> s.callback.None?)
    ensures var e := Apply(s, op);
      && multiset(Installed(op)) + multiset(Stored(s))
         == multiset(e.ran) + multiset(Dropped(s, op)) + multiset(Stored(e.state))
      && (e.state.canceled ==> e.state.callback.None?)
  {
  }

  lemma AddUp(total: multiset<nat>, r: multiset<nat>, d: multiset<nat>, kept: multiset<nat>,
              i: multiset<nat>, r': multiset<nat>, d': multiset<nat>, kept': multiset<nat>)
    requires total == r + d + kept && i + kept == r' + d' + kept'
    ensures total + i == (r + r') + (d + d') + kept'
  {
    forall x: nat ensures (total + i)[x] == ((r + r') + (d + d') + kept')[x] {
      assert total[x] == (r + d + kept)[x];
      assert (i + kept)[x] == (r' + d' + kept')[x];
    }
  }

  lemma EnterBalanced(b: Books, op: Op)
    requires Balanced(b) && !op.Destroy?
    ensures Balanced(Enter(b, op))
  {
    hide Apply, Installed, Dropped, Stored;
    var e := Apply(b.state, op);
    ApplyConserves(b.state, op);
    AddUp(multiset(b.installed), multiset(b.ran), multiset(b.dropped), multiset(Stored(b.state)),
          multiset(Installed(op)), multiset(e.ran), multiset(Dropped(b.state, op)), multiset(Stored(e.state)));
  }

  lemma {:induction false} PlayBalanced(b: Books, ops: seq<Op>)
    requires Balanced(b) && Destroy !in ops
    ensures Balanced(Play(b, ops))
    decreases |ops|
  {
    if ops != [] {
      hide Enter, Balanced;
      EnterBalanced(b, ops[0]);
      PlayBalanced(Enter(b, ops[0]), ops[1..]);
    }
  }

  lemma {:induction false} PlayThen(b: Books, ops: seq<Op>, last: Op)
    ensures Play(b, ops + [last]) == Enter(Play(b, ops), last)
    decreases |ops|
  {
    if ops == [] {
      assert Play(b, [last]) == Play(Enter(b, last), []);
    } else {
      assert (ops + [last])[1..] == ops[1..] + [last];
      PlayThen(Enter(b, ops[0]), ops[1..], last);
    }
  }

  function Installs(ops: seq<Op>): seq<ClosureId> {
    if ops == [] then [] else Installed(ops[0]) + Installs(ops[1..])
  }

  lemma {:induction false} PlayInstalls(b: Books, ops: seq<Op>)
    ensures Play(b, ops).installed == b.installed + Installs(ops)
    decreases |ops|
  {
    if ops != [] {
      PlayInstalls(Enter(b, ops[0]), ops[1..]);
    }
  }

  ghost predicate Distinct(ids: seq<ClosureId>) {
    forall i, j :: 0 <= i < j < |ids| ==> ids[i] != ids[j]
  }

  lemma {:induction false} CountDistinct(ids: seq<ClosureId>, id: ClosureId)
    requires Distinct(ids)
    ensures multiset(ids)[id] == if id in ids then 1 else 0
  {
    if ids != [] {
      CountDistinct(ids[1..], id);
      assert ids == [ids[0]] + ids[1..];
    }
  }

  /** Over every sequence of operations, each closure installed once runs at most once; and once
      the controller is destroyed, it was either run exactly once or dropped exactly once (replaced
      by a later install, or by `Reset`), never both and never neither. */
  lemma CallbackOnce(ops: seq<Op>, id: ClosureId)
    requires Destroy !in ops && Distinct(Installs(ops))
    ensures multiset(Play(OPENED, ops).ran)[id] <= 1
    ensures var b := Play(OPENED, ops + [Destroy]);
      multiset(b.ran)[id] + multiset(b.dropped)[id] == if id in Installs(ops) then 1 else 0
  {
    hide Play, Installs, Distinct;
    var b := Play(OPENED, ops);
    PlayBalanced(OPENED, ops);
    PlayInstalls(OPENED, ops);
    assert b.installed == Installs(ops);
    CountDistinct(Installs(ops), id);
    PlayThen(OPENED, ops, Destroy);
    assert multiset(b.ran + Stored(b.state)) == multiset(b.ran) + multiset(Stored(b.state));
  }

  /** What an installed closure's fate hangs on: it runs at once when the controller is already
      cancelled, and otherwise at the next `StartCancel` (or at destruction) unless another install
      or a `Reset` comes first. */
  lemma {:induction false} CallbackFate(s: State, id: ClosureId, quiet: seq<Op>, last: Op)
    requires !s.canceled
    requires forall i :: 0 <= i < |quiet| ==> quiet[i].SetFailed?
    ensures var b := Play(Books(s, [], [], []), [NotifyOnCancel(Some(id))] + quiet + [last]);
      && (last.StartCancel? || last.Destroy? ==> b.ran == [id])
      && (last.Reset? || last.NotifyOnCancel? ==> b.ran == [] && id in b.dropped)
  {
    var start := Books(s, [], [], []);
    var installed := Enter(start, NotifyOnCancel(Some(id)));
    var ops := [NotifyOnCancel(Some(id))] + quiet;
    PlayThen(start, ops, last);
    assert ops[0] == NotifyOnCancel(Some(id)) && ops[1..] == quiet;
    QuietKeepsCallback(installed, quiet);
  }

  lemma {:induction false} QuietKeepsCallback(b: Books, quiet: seq<Op>)
    requires forall i :: 0 <= i < |quiet| ==> quiet[i].SetFailed?
    ensures var r := Play(b, quiet);
      && r.ran == b.ran && r.dropped == b.dropped
      && r.state.callback == b.state.callback && r.state.canceled == b.state.canceled
    decreases |quiet|
  {
    if quiet != [] {
      QuietKeepsCallback(Enter(b, quiet[0]), quiet[1..]);
    }
  }

  // ---------- the controller object ----------

  /** `runs` records, in order, every `Run()` the object makes on a stored or passed closure. */
  class XrpcController {
    var failed: bool
    var errorText: Bytes
    var canceled: bool
    var cancelCallback: Option<ClosureId>
    ghost var runs: seq<ClosureId>

    ghost function View(): State
      reads this
    {
      State(failed, errorText, canceled, cancelCallback)
    }

    constructor ()
      ensures View() == FRESH && runs == []
    {
      failed, errorText, canceled, cancelCallback := false, [], false, None;
      runs := [];
    }

    ghost method Run(callback: ClosureId)
      modifies this`runs
      ensures runs == old(runs) + [callback]
    {
      runs := runs + [callback];
    }

    method Reset()
      modifies this
      ensures var e := Apply(old(View()), Op.Reset); View() == e.state && runs == old(runs) + e.ran
      ensures !failed && errorText == [] && !canceled && cancelCallback.None? && runs == old(runs)
    {
      failed := false;
      errorText := [];
      canceled := false;
      cancelCallback := None;
    }

    method SetFailed(reason: Bytes)
      modifies this
      ensures var e := Apply(old(View()), Op.SetFailed(reason)); View() == e.state && runs == old(runs) + e.ran
      ensures failed && errorText == reason && canceled == old(canceled) && cancelCallback == old(cancelCallback)
    {
      failed := true;
      errorText := reason;
    }

    method StartCancel()
      modifies this
      ensures var e := Apply(old(View()), Op.StartCancel); View() == e.state && runs == old(runs) + e.ran
      ensures canceled && failed == old(failed) && errorText == old(errorText)
      ensures runs == old(runs) + if old(canceled) || old(cancelCallback).None? then [] else [old(cancelCallback).value]
    {
      if canceled {
        return;
      }
      canceled := true;
      if cancelCallback.Some? {
        Run(cancelCallback.value);
        cancelCallback := None;
      }
    }

    method NotifyOnCancel(callback: Option<ClosureId>)
      modifies this
      ensures var e := Apply(old(View()), Op.NotifyOnCancel(callback)); View() == e.state && runs == old(runs) + e.ran
      ensures canceled == old(canceled) && failed == old(failed) && errorText == old(errorText)
      ensures cancelCallback == if canceled then None else callback
      ensures runs == old(runs) + if canceled && callback.Some? then [callback.value] else []
    {
      cancelCallback := callback;
      if canceled && callback.Some? {
        Run(callback.value);
        cancelCallback := None;
      }
    }

    /** The destructor. */
    method Destroy()
      modifies this
      ensures var e := Apply(old(View()), Op.Destroy); View() == e.state && runs == old(runs) + e.ran
      ensures runs == old(runs) + if old(canceled) || old(cancelCallback).None? then [] else [old(cancelCallback).value]
    {
      if cancelCallback.Some? && !canceled {
        Run(cancelCallback.value);
      }
    }
  }
}
