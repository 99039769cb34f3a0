/** What holds of the registry client over every run, whatever the interleaving. */
module RegistryProofs {
  import opened Common
  import opened Naming
  import opened Registry
  import opened RegistryRuns

  // ---------- cached data was really held by the server ----------

  ghost predicate Held(history: seq<Tree>, path: string, data: string) {
    exists i :: 0 <= i < |history| && path in history[i] && history[i][path] == Some(data)
  }

  /** A pair was really on the server: whole if this client's `Register` wrote it, otherwise as the
      first 512 bytes of what was there. */
  ghost predicate WasHeld(s: Sys, e: Instance) {
    || (e in s.written && Held(s.history, e.0, e.1))
    || (exists full :: Held(s.history, e.0, full) && e.1 == Cut(full))
  }

  ghost function Genuine(s: Sys): iset<Instance> {
    iset e: Instance | WasHeld(s, e)
  }

  ghost predicate Honest(s: Sys) {
    && s.history != [] && s.history[|s.history| - 1] == s.tree
    && CacheWithin(s.cache, Genuine(s)) && TaskWithin(s.task, Genuine(s)) && EventWithin(s.event, Genuine(s))
    && LogWithin(s.log, Genuine(s))
  }

  lemma HistoryGrows(s: Sys, l: Label)
    requires Named(s) && CanDo(s, l) && s.history != [] && s.history[|s.history| - 1] == s.tree
    ensures var t := Do(s, l);
      s.history <= t.history && s.written <= t.written && t.history[|t.history| - 1] == t.tree
  {
    hide DoTask, DoStore, DoBeat, DoEvent, CanDo;
  }

  lemma GenuineGrows(s: Sys, t: Sys)
    requires s.history <= t.history && s.written <= t.written
    ensures Genuine(s) <= Genuine(t)
  {
    forall p, d | Held(s.history, p, d) ensures Held(t.history, p, d) {
      var i :| 0 <= i < |s.history| && p in s.history[i] && s.history[i][p] == Some(d);
      assert t.history[i] == s.history[i];
    }
  }

  lemma IncomingIsGenuine(s: Sys, l: Label)
    requires Named(s) && CanDo(s, l) && Incoming(s, l).Some?
    requires s.history != [] && s.history[|s.history| - 1] == s.tree
    ensures Incoming(s, l).value in Genuine(Do(s, l))
  {
    hide DoStore, DoBeat, CacheFind, Cut, ParentOf, IsListing;
    var t := Do(s, l);
    HistoryGrows(s, l);
    var last := |s.history| - 1;
    assert t.history[last] == s.tree;
    match l {
      case TaskWrites(_) => assert Held(t.history, s.task.path, s.task.data) by {
          assert t.history[last + 1] == s.tree[s.task.path := Some(s.task.data)];
        }
      case TaskFetches(reply) => assert Held(t.history, Incoming(s, l).value.0, reply.value);
      case EventFetches(reply) => assert Held(t.history, Incoming(s, l).value.0, reply.value);
    }
  }

  lemma DoHonest(s: Sys, l: Label)
    requires Named(s) && CanDo(s, l) && Honest(s)
    ensures Honest(Do(s, l))
  {
    hide Do, CanDo, Genuine;
    HistoryGrows(s, l);
    GenuineGrows(s, Do(s, l));
    var good := Genuine(Do(s, l));
    if Incoming(s, l).Some? {
      IncomingIsGenuine(s, l);
    }
    FlightStaysWithin(s, l, good);
    CacheStaysWithin(s, l, good);
    LogStaysWithin(s, l, good);
  }

  lemma {:induction false} RunHonest(s: Sys, labels: seq<Label>)
    requires Named(s) && Honest(s)
    ensures Honest(Run(s, labels))
    decreases |labels|
  {
    hide Honest, Do, CanDo;
    if labels != [] {
      if CanDo(s, labels[0]) {
        DoHonest(s, labels[0]);
        RunHonest(Do(s, labels[0]), labels[1..]);
      } else {
        RunHonest(s, labels[1..]);
      }
    }
  }

  /** In every interleaving of client operations, events, heartbeat sweeps and outside changes, each
      cached pair, each pair in flight and each pair shown to a callback was held by the server. */
  lemma CachedDataWasHeld(tree: Tree, labels: seq<Label>)
    ensures var s := Run(Initial(tree), labels);
      && (forall x, i :: x in s.cache && 0 <= i < |s.cache[x]| ==> WasHeld(s, s.cache[x][i]))
      && (s.task.RegisterStore? || s.task.DiscoverStore? ==> WasHeld(s, (s.task.path, s.task.data)))
      && (s.task.ServiceFetch? ==> forall e <- s.task.instances :: WasHeld(s, e))
      && (s.event.DataStore? || s.event.DataNotify? ==> WasHeld(s, (s.event.path, s.event.data)))
      && (forall i :: 0 <= i < |s.log| && !s.log[i].deleted ==> WasHeld(s, (s.log[i].path, s.log[i].data)))
  {
    hide WasHeld, Run;
    RunHonest(Initial(tree), labels);
    var s := Run(Initial(tree), labels);
    forall x, i | x in s.cache && 0 <= i < |s.cache[x]| ensures WasHeld(s, s.cache[x][i]) {
      assert s.cache[x][i] in Genuine(s);
    }
  }

  // ---------- every path in its own bucket, once ----------

  ghost predicate IsChild(path: string, service: string) {
    exists child :: '/' !in child && path == ChildPath(service, child)
  }

  /** A path is kept under its first component; only a listing of a service whose name has a slash
      puts paths elsewhere. */
  ghost predicate Belongs(path: string, service: string) {
    path != "" && (ServiceOf(path) == service || ('/' in service && IsChild(path, service)))
  }

  lemma ChildBelongs(service: string, child: string)
    requires '/' !in child
    ensures Belongs(ChildPath(service, child), service)
  {
    ChildPathBucket(service, child);
    assert IsChild(ChildPath(service, child), service);
  }

  ghost predicate BucketPlaced(b: Bucket, service: string) {
    && NoDuplicates(b)
    && forall i :: 0 <= i < |b| ==> Belongs(b[i].0, service)
  }

  ghost predicate Placed(c: Cache) {
    forall x :: x in c ==> BucketPlaced(c[x], x)
  }

  /** The bucket being fetched is placed, and none of the children still to come is in it. */
  ghost predicate TaskPlaced(t: Task) {
    match t
    case ServiceFetch(service, children, instances) =>
      && Distinct(children) && (forall c <- children :: '/' !in c) && BucketPlaced(instances, service)
      && forall i, j :: 0 <= i < |instances| && 0 <= j < |children| ==>
           instances[i].0 != ChildPath(service, children[j])
    case _ => true
  }

  lemma UpsertPlaced(c: Cache, path: string, data: string)
    requires path != "" && Placed(c)
    ensures Placed(CacheUpsert(c, path, data))
  {
    hide IsChild;
    UpsertMeaning(BucketOf(c, ServiceOf(path)), path, data);
  }

  lemma {:induction false} WithoutPlaced(b: Bucket, path: string, service: string)
    requires BucketPlaced(b, service)
    ensures BucketPlaced(Without(b, path), service)
    ensures forall e <- Without(b, path) :: e in b && e.0 != path
  {
    if b != [] {
      WithoutPlaced(b[1..], path, service);
      hide Belongs;
      assert b[0] in b && forall e <- b[1..] :: e in b && e.0 != b[0].0;
      assert Without(b, path) == (if b[0].0 == path then [] else [b[0]]) + Without(b[1..], path);
      hide Without;
    }
  }

  lemma KeepPlaced(b: Bucket, paths: seq<string>, service: string)
    requires BucketPlaced(b, service)
    ensures BucketPlaced(Keep(b, paths), service)
  {
    var at := KeepMeaning(b, paths);
    hide Keep, Belongs;
    forall i, j | 0 <= i < j < |at| ensures Keep(b, paths)[i].0 != Keep(b, paths)[j].0 {
      assert at[i] < at[j];
    }
  }

  lemma ErasePlaced(c: Cache, path: string)
    requires path != "" && Placed(c)
    ensures Placed(CacheErase(c, path))
  {
    var x := ServiceOf(path);
    if x in c {
      WithoutPlaced(c[x], path, x);
    }
  }

  lemma SweepPlaced(c: Cache, service: string, paths: seq<string>)
    requires Placed(c)
    ensures Placed(CacheSweep(c, service, paths))
  {
    if service in c {
      KeepPlaced(c[service], paths, service);
    }
  }

  lemma FetchPlaced(service: string, children: seq<string>, instances: Bucket, data: string)
    requires TaskPlaced(ServiceFetch(service, children, instances)) && children != []
    ensures TaskPlaced(ServiceFetch(service, children[1..], instances))
    ensures TaskPlaced(ServiceFetch(service, children[1..], instances + [(ChildPath(service, children[0]), data)]))
  {
    ChildBelongs(service, children[0]);
    forall j | 0 < j < |children| ensures ChildPath(service, children[0]) != ChildPath(service, children[j]) {
      if ChildPath(service, children[0]) == ChildPath(service, children[j]) {
        ChildPathInjective(service, children[0], children[j]);
      }
    }
    hide Belongs, ChildPath;
    var more := instances + [(ChildPath(service, children[0]), data)];
    assert forall i :: 0 <= i < |more| ==>
      (i < |instances| && more[i] == instances[i]) || more[i].0 == ChildPath(service, children[0]);
  }

  lemma TaskStaysPlaced(s: Sys, l: Label)
    requires Named(s) && CanDo(s, l) && TaskPlaced(s.task)
    ensures TaskPlaced(DoTask(s, l).task)
  {
    hide DoLookup, CanDo, ParentOf;
    LookupPlaced(s, l);
  }

  lemma LookupPlaced(s: Sys, l: Label)
    requires Named(s) && CanDo(s, l) && TaskPlaced(s.task)
    ensures TaskPlaced(DoLookup(s, l).task)
  {
    hide BucketPlaced, ChildPath, CacheFind, Cut;
    if l.TaskFetches? && s.task.ServiceFetch? {
      assert s.task.instances + [] == s.task.instances;
      FetchPlaced(s.task.service, s.task.children, s.task.instances, if l.reply.Some? then Cut(l.reply.value) else "");
    } else if l.TaskLists? && l.children.Some? {
      NothingPlaced(s.task.service);
    }
  }

  lemma NothingPlaced(service: string)
    ensures BucketPlaced([], service)
  {
  }

  lemma DoPlaced(s: Sys, l: Label)
    requires Named(s) && CanDo(s, l) && Placed(s.cache) && TaskPlaced(s.task)
    ensures var t := Do(s, l); Placed(t.cache) && TaskPlaced(t.task)
  {
    hide DoTask, DoStore, DoBeat, DoEvent, CanDo;
    TaskStaysPlaced(s, l);
    StorePlaced(s);
    EventPlaced(s, l);
    BeatPlaced(s, l);
  }

  lemma StorePlaced(s: Sys)
    requires Named(s) && Placed(s.cache) && TaskPlaced(s.task)
    ensures Placed(DoStore(s).cache)
  {
    hide CacheUpsert, CacheErase, BucketPlaced;
    match s.task {
      case RegisterStore(path, data) => UpsertPlaced(s.cache, path, data);
      case DiscoverStore(path, data) => UpsertPlaced(s.cache, path, data);
      case DeleteErase(path) => ErasePlaced(s.cache, path);
      case _ =>
    }
  }

  lemma EventPlaced(s: Sys, l: Label)
    requires Named(s) && CanDo(s, l) && Placed(s.cache)
    ensures Placed(DoEvent(s, l).cache)
  {
    hide CacheUpsert, CacheErase, BucketPlaced, Cut;
    match s.event {
      case DataStore(path, _, data) => UpsertPlaced(s.cache, path, data);
      case DeleteEntry(path, _) => ErasePlaced(s.cache, path);
      case _ =>
    }
  }

  lemma BeatPlaced(s: Sys, l: Label)
    requires Named(s) && Placed(s.cache)
    ensures Placed(DoBeat(s, l).cache)
  {
    hide CacheSweep, BucketPlaced;
    if s.beat.Filter? {
      SweepPlaced(s.cache, s.beat.service, s.beat.paths);
    }
  }

  lemma {:induction false} RunPlaced(s: Sys, labels: seq<Label>)
    requires Named(s) && Placed(s.cache) && TaskPlaced(s.task)
    ensures var t := Run(s, labels); Placed(t.cache) && TaskPlaced(t.task)
    decreases |labels|
  {
    hide Placed, TaskPlaced, Do, CanDo;
    if labels != [] {
      if CanDo(s, labels[0]) {
        DoPlaced(s, labels[0]);
        RunPlaced(Do(s, labels[0]), labels[1..]);
      } else {
        RunPlaced(s, labels[1..]);
      }
    }
  }

  /** In every interleaving no path is cached twice in one bucket, and every path is cached in the
      bucket named by its own first component or directly below the bucket's name, which then has a
      slash. So among services named without a slash no path is cached twice at all. */
  lemma PathsCachedOnce(tree: Tree, labels: seq<Label>)
    ensures var s := Run(Initial(tree), labels);
      forall x, y, i, j :: x in s.cache && y in s.cache && 0 <= i < |s.cache[x]| && 0 <= j < |s.cache[y]| ==>
        && Belongs(s.cache[x][i].0, x)
        && ('/' !in x ==> ServiceOf(s.cache[x][i].0) == x)
        && (s.cache[x][i].0 == s.cache[y][j].0 && (x == y || ('/' !in x && '/' !in y)) ==> x == y && i == j)
  {
    hide Run, ServiceOf;
    RunPlaced(Initial(tree), labels);
    var s := Run(Initial(tree), labels);
    forall x, y, i, j | x in s.cache && y in s.cache && 0 <= i < |s.cache[x]| && 0 <= j < |s.cache[y]|
      ensures Belongs(s.cache[x][i].0, x)
      ensures '/' !in x ==> ServiceOf(s.cache[x][i].0) == x
      ensures s.cache[x][i].0 == s.cache[y][j].0 && (x == y || ('/' !in x && '/' !in y)) ==> x == y && i == j
    {
      assert BucketPlaced(s.cache[x], x) && BucketPlaced(s.cache[y], y);
    }
  }

  // ---------- watches ----------

  predicate HasToken(e: Event) {
    e.DataFetch? || e.DataStore? || e.DataNotify? || e.DeleteEntry? || e.DeleteNotify?
  }

  /** The callback found for a path is newer than every watch of that path erased and notified. */
  ghost predicate Fresh(log: seq<Notice>, path: string, token: Token) {
    forall i :: 0 <= i < |log| && log[i].deleted && log[i].path == path ==> token >= log[i].era
  }

  ghost predicate WatchesInOrder(s: Sys) {
    && (forall p :: p in s.watchers ==> s.watchers[p] < |s.stored| && Fresh(s.log, p, s.watchers[p]))
    && (HasToken(s.event) ==> s.event.token < |s.stored| && Fresh(s.log, s.event.path, s.event.token))
    && (s.event.DeleteNotify? ==>
          && s.event.token < s.event.era <= |s.stored|
          && (s.event.path in s.watchers ==> s.watchers[s.event.path] >= s.event.era))
    && (forall i :: 0 <= i < |s.log| ==> s.log[i].deleted ==> s.log[i].token < s.log[i].era <= |s.stored|)
    && (forall i, j :: 0 <= i < j < |s.log| && s.log[i].deleted && s.log[i].path == s.log[j].path ==>
          s.log[j].token >= s.log[i].era)
  }

  /** Only these four parts of the state matter to the watches. */
  lemma SameWatches(s: Sys, t: Sys)
    requires WatchesInOrder(s)
    requires t.watchers == s.watchers && t.stored == s.stored && t.event == s.event && t.log == s.log
    ensures WatchesInOrder(t)
  {
    hide Fresh;
  }

  lemma AddWatch(s: Sys, path: string)
    requires WatchesInOrder(s)
    ensures WatchesInOrder(s.(watchers := s.watchers[path := |s.stored|], stored := s.stored + [path]))
  {
  }

  lemma DropWatch(s: Sys, path: string)
    requires WatchesInOrder(s)
    ensures WatchesInOrder(s.(watchers := s.watchers - {path}))
  {
    hide Fresh;
  }

  /** A new event finds the callback that is stored now. */
  lemma FindWatch(s: Sys, e: Event)
    requires WatchesInOrder(s) && s.event.NoEvent?
    requires e.DataFetch? || e.DeleteEntry?
    requires e.path in s.watchers && e.token == s.watchers[e.path]
    ensures WatchesInOrder(s.(event := e))
  {
  }

  /** The event erases the stored watch; from now on only later ones may be called. */
  lemma EraseWatch(s: Sys)
    requires WatchesInOrder(s) && s.event.DeleteEntry?
    ensures WatchesInOrder(s.(
      event := DeleteNotify(s.event.path, s.event.token, |s.stored|), watchers := s.watchers - {s.event.path}))
  {
    hide Fresh;
  }

  lemma CallWatch(s: Sys, n: Notice)
    requires WatchesInOrder(s) && (s.event.DataNotify? || s.event.DeleteNotify?)
    requires n.path == s.event.path && n.token == s.event.token && (n.deleted <==> s.event.DeleteNotify?)
    requires n.deleted ==> n.era == s.event.era
    ensures WatchesInOrder(s.(event := NoEvent, log := s.log + [n]))
  {
    var t := s.(event := NoEvent, log := s.log + [n]);
    assert forall i :: 0 <= i < |s.log| ==> t.log[i] == s.log[i];
  }

  lemma StoreWatchesInOrder(s: Sys)
    requires Named(s) && WatchesInOrder(s)
    ensures WatchesInOrder(DoStore(s))
  {
    hide CacheUpsert, CacheErase, WatchesInOrder;
    match s.task {
      case WatchStore(path) =>
        AddWatch(s, path);
        SameWatches(s.(watchers := s.watchers[path := |s.stored|], stored := s.stored + [path]), DoStore(s));
      case DeleteErase(path) =>
        DropWatch(s, path);
        SameWatches(s.(watchers := s.watchers - {path}), DoStore(s));
      case _ =>
        SameWatches(s, DoStore(s));
    }
  }

  lemma ActWatchesInOrder(s: Sys)
    requires Named(s) && CanDo(s, EventActs) && WatchesInOrder(s)
    ensures WatchesInOrder(DoEvent(s, EventActs))
  {
    hide CacheUpsert, CacheErase, WatchesInOrder, Named;
    var t := DoEvent(s, EventActs);
    match s.event {
      case DeleteEntry(path, token) =>
        EraseWatch(s);
        SameWatches(s.(event := t.event, watchers := s.watchers - {path}), t);
      case DataNotify(path, token, data) =>
        CallWatch(s, Notice(path, token, data, false, 0));
      case DeleteNotify(path, token, era) =>
        CallWatch(s, Notice(path, token, "", true, era));
      case DataStore(path, token, data) =>
        NextStage(s, t.event);
        SameWatches(s.(event := t.event), t);
      case _ =>
        NextStage(s, NoEvent);
        SameWatches(s.(event := NoEvent), t);
    }
  }

  lemma EventWatchesInOrder(s: Sys, l: Label)
    requires Named(s) && CanDo(s, l) && WatchesInOrder(s)
    ensures WatchesInOrder(DoEvent(s, l))
  {
    hide Cut, WatchesInOrder, Named;
    if l.EventActs? {
      ActWatchesInOrder(s);
    } else {
      var t := DoEvent(s, l);
      if l.NodeEvent? && (t.event.DataFetch? || t.event.DeleteEntry?) {
        FindWatch(s, t.event);
      } else if t.event != s.event {
        NextStage(s, t.event);
      }
      SameWatches(s.(event := t.event), t);
    }
  }

  lemma NextStage(s: Sys, e: Event)
    requires WatchesInOrder(s)
    requires HasToken(e) ==> HasToken(s.event) && !e.DeleteNotify? && e.path == s.event.path && e.token == s.event.token
    ensures WatchesInOrder(s.(event := e))
  {
    hide Fresh;
  }

  lemma LeavesWatches(s: Sys, l: Label)
    requires Named(s) && CanDo(s, l)
    requires !l.TaskStores? && !l.NodeEvent? && !l.SessionEvent? && !l.EventFetches? && !l.EventActs?
    ensures var t := Do(s, l);
      t.watchers == s.watchers && t.stored == s.stored && t.event == s.event && t.log == s.log
  {
    hide DoTask, DoStore, DoBeat, DoEvent, CanDo, Recorded;
  }

  lemma DoWatchesInOrder(s: Sys, l: Label)
    requires Named(s) && CanDo(s, l) && WatchesInOrder(s)
    ensures WatchesInOrder(Do(s, l))
  {
    hide DoTask, DoStore, DoBeat, DoEvent, CanDo, WatchesInOrder;
    if l.TaskStores? {
      StoreWatchesInOrder(s);
    } else if l.NodeEvent? || l.SessionEvent? || l.EventFetches? || l.EventActs? {
      EventWatchesInOrder(s, l);
    } else {
      LeavesWatches(s, l);
      hide Do;
      SameWatches(s, Do(s, l));
    }
  }

  lemma {:induction false} RunWatchesInOrder(s: Sys, labels: seq<Label>)
    requires Named(s) && WatchesInOrder(s)
    ensures WatchesInOrder(Run(s, labels))
    decreases |labels|
  {
    hide WatchesInOrder, Do, CanDo;
    if labels != [] {
      if CanDo(s, labels[0]) {
        DoWatchesInOrder(s, labels[0]);
        RunWatchesInOrder(Do(s, labels[0]), labels[1..]);
      } else {
        RunWatchesInOrder(s, labels[1..]);
      }
    }
  }

  /** With serial event delivery, whatever events arrive: after a delete notice for a path, every
      later notice for that path goes to a callback that a `Watch` stored after the delete event
      erased the old one. So each stored callback gets data notices, then at most one delete
      notice, then nothing. */
  lemma NoNoticeAfterDelete(tree: Tree, labels: seq<Label>, i: nat, j: nat)
    requires var log := Run(Initial(tree), labels).log;
      i < j < |log| && log[i].deleted && log[i].path == log[j].path
    ensures var log := Run(Initial(tree), labels).log;
      log[j].token >= log[i].era > log[i].token
  {
    hide Run;
    RunWatchesInOrder(Initial(tree), labels);
  }

  // ---------- a sweep over a quiet tree ----------

  ghost function Live(tree: Tree): iset<Instance> {
    iset e: Instance | e.0 in tree
  }

  /** Labels that neither change the tree nor start an operation that would. */
  predicate Quiet(l: Label) {
    !l.Outside? && !l.CallRegister? && !l.CallDelete?
  }

  predicate Reading(t: Task) {
    t.NoTask? || t.DiscoverLook? || t.DiscoverFetch? || t.DiscoverStore?
    || t.ServiceLook? || t.ServiceList? || t.ServiceFetch? || t.WatchStore?
  }

  /** Only reads are under way, and what they and the sweep carry is live. */
  ghost predicate Settled(s: Sys) {
    && Reading(s.task) && TaskWithin(s.task, Live(s.tree)) && EventWithin(s.event, Live(s.tree))
    && (s.beat.Filter? ==> forall p <- s.beat.paths :: p in s.tree)
  }

  /** Dead paths can only be in the buckets still to be swept. */
  ghost predicate Clean(s: Sys, pending: set<string>) {
    forall x :: x in s.cache && x !in pending ==> BucketWithin(s.cache[x], Live(s.tree))
  }

  function Pending(b: Beat): set<string> {
    match b
    case Sweep(services) => set x | x in services
    case Filter(service, _, services) => {service} + set x | x in services
    case _ => {}
  }

  lemma DoSettled(s: Sys, l: Label)
    requires Named(s) && CanDo(s, l) && Settled(s) && Quiet(l)
    ensures Settled(Do(s, l)) && Do(s, l).tree == s.tree
  {
    hide DoTask, DoStore, DoBeat, DoEvent, CanDo, TaskWithin, EventWithin, Live;
    TaskSettled(s, l);
    BeatSettled(s, l);
    if Incoming(s, l).Some? {
      IncomingLive(s, l);
    }
    FlightStaysWithin(s, l, Live(s.tree));
  }

  lemma TaskSettled(s: Sys, l: Label)
    requires Named(s) && CanDo(s, l) && Reading(s.task)
    ensures var t := DoTask(s, l); Reading(t.task) && t.tree == s.tree
  {
    hide DoLookup, CanDo;
    LookupSettled(s, l);
  }

  lemma LookupSettled(s: Sys, l: Label)
    requires Named(s) && CanDo(s, l) && Reading(s.task)
    ensures Reading(DoLookup(s, l).task)
  {
    hide CanDo, CacheFind, Cut;
  }

  lemma BeatSettled(s: Sys, l: Label)
    requires Named(s) && CanDo(s, l) && (s.beat.Filter? ==> forall p <- s.beat.paths :: p in s.tree)
    ensures var t := DoBeat(s, l); t.beat.Filter? ==> forall p <- t.beat.paths :: p in s.tree
  {
    hide CacheSweep;
    if l.BeatLists? && l.children.Some? {
      ListedPathsLive(s.tree, s.beat.services[0], l.children.value);
    }
  }

  lemma IncomingLive(s: Sys, l: Label)
    requires Named(s) && CanDo(s, l) && Reading(s.task) && Incoming(s, l).Some?
    ensures Incoming(s, l).value in Live(s.tree)
  {
  }

  lemma ListedPathsLive(tree: Tree, service: string, children: seq<string>)
    requires IsListing(tree, service, children)
    ensures forall p <- ChildPaths(service, children) :: p in tree
  {
    forall p | p in ChildPaths(service, children) ensures p in tree {
      var i :| 0 <= i < |children| && p == ChildPath(service, children[i]);
      assert children[i] in children;
    }
  }

  lemma {:induction false} KeepLive(b: Bucket, paths: seq<string>, tree: Tree)
    requires forall p <- paths :: p in tree
    ensures BucketWithin(Keep(b, paths), Live(tree))
  {
    if b != [] {
      KeepLive(b[1..], paths, tree);
    }
  }

  lemma DoClean(s: Sys, l: Label, pending: set<string>)
    requires Named(s) && CanDo(s, l) && Settled(s) && Quiet(l) && Clean(s, pending)
    ensures Clean(Do(s, l), if s.beat.Filter? && l.BeatFilters? then pending - {s.beat.service} else pending)
  {
    hide DoTask, DoStore, DoBeat, DoEvent, CanDo, Live;
    DoSettled(s, l);
    StoreClean(s, pending);
    EventClean(s, l, pending);
    BeatClean(s, l, pending);
  }

  lemma UpsertClean(s: Sys, path: string, data: string, pending: set<string>)
    requires path != "" && (path, data) in Live(s.tree) && Clean(s, pending)
    ensures Clean(s.(cache := CacheUpsert(s.cache, path, data)), pending)
  {
    var x := ServiceOf(path);
    if x !in pending {
      UpsertWithin(BucketOf(s.cache, x), path, data, Live(s.tree));
    }
  }

  lemma EraseClean(s: Sys, path: string, pending: set<string>)
    requires path != "" && Clean(s, pending)
    ensures Clean(s.(cache := CacheErase(s.cache, path)), pending)
  {
    var x := ServiceOf(path);
    if x in s.cache && x !in pending {
      WithoutWithin(s.cache[x], path, Live(s.tree));
    }
  }

  lemma StoreClean(s: Sys, pending: set<string>)
    requires Named(s) && Settled(s) && Clean(s, pending)
    ensures Clean(DoStore(s), pending)
  {
    hide CacheUpsert, CacheErase, Live;
    match s.task {
      case DiscoverStore(path, data) => UpsertClean(s, path, data, pending);
      case _ =>
    }
  }

  lemma EventClean(s: Sys, l: Label, pending: set<string>)
    requires Named(s) && CanDo(s, l) && Settled(s) && Clean(s, pending)
    ensures Clean(DoEvent(s, l), pending)
  {
    hide CacheUpsert, CacheErase, Cut, Live;
    match s.event {
      case DataStore(path, _, data) => UpsertClean(s, path, data, pending);
      case DeleteEntry(path, _) => EraseClean(s, path, pending);
      case _ =>
    }
  }

  lemma BeatClean(s: Sys, l: Label, pending: set<string>)
    requires Named(s) && Settled(s) && Clean(s, pending)
    ensures Clean(DoBeat(s, l), if s.beat.Filter? && l.BeatFilters? then pending - {s.beat.service} else pending)
  {
    hide Live;
    if s.beat.Filter? && s.beat.service in s.cache {
      KeepLive(s.cache[s.beat.service], s.beat.paths, s.tree);
    }
  }

  /** A label that may occur while one sweep, all of whose listings succeed, is under way. */
  predicate WithinSweep(l: Label) {
    Quiet(l) && !l.BeatStarts? && l != BeatLists(None)
  }

  lemma SweepStepClean(s: Sys, l: Label)
    requires Named(s) && CanDo(s, l) && Settled(s) && WithinSweep(l) && Clean(s, Pending(s.beat))
    ensures var t := Do(s, l); Clean(t, Pending(t.beat))
  {
    DoClean(s, l, Pending(s.beat));
    hide DoTask, DoStore, DoEvent, CacheSweep, IsListing, Live, BucketWithin, Settled;
    var t := Do(s, l);
    assert Pending(t.beat) >=
      if s.beat.Filter? && l.BeatFilters? then Pending(s.beat) - {s.beat.service} else Pending(s.beat);
  }

  lemma {:induction false} SweepRunClean(s: Sys, labels: seq<Label>)
    requires Named(s) && Settled(s) && Clean(s, Pending(s.beat))
    requires forall l <- labels :: WithinSweep(l)
    ensures var t := Run(s, labels); Settled(t) && Clean(t, Pending(t.beat)) && t.tree == s.tree
    decreases |labels|
  {
    hide Settled, Clean, Do, CanDo, Pending;
    if labels != [] {
      assert labels[0] in labels;
      if CanDo(s, labels[0]) {
        DoSettled(s, labels[0]);
        SweepStepClean(s, labels[0]);
        SweepRunClean(Do(s, labels[0]), labels[1..]);
      } else {
        SweepRunClean(s, labels[1..]);
      }
    }
  }

  lemma {:induction false} QuietRunClean(s: Sys, labels: seq<Label>)
    requires Named(s) && Settled(s) && Clean(s, {})
    requires forall l <- labels :: Quiet(l)
    ensures var t := Run(s, labels); Clean(t, {}) && t.tree == s.tree
    decreases |labels|
  {
    hide Settled, Clean, Do, CanDo;
    if labels != [] {
      assert labels[0] in labels;
      if CanDo(s, labels[0]) {
        DoSettled(s, labels[0]);
        DoClean(s, labels[0], {});
        assert {} - {if s.beat.Filter? then s.beat.service else ""} == {};
        QuietRunClean(Do(s, labels[0]), labels[1..]);
      } else {
        QuietRunClean(s, labels[1..]);
      }
    }
  }

  /** Once the tree has stopped changing with nothing in flight, one whole sweep whose listings all
      succeed leaves only live paths in the cache, even with reads, watches and events running
      beside it; and every later read, event and sweep keeps it so. */
  lemma SweepLeavesLivePaths(s: Sys, services: seq<string>, during: seq<Label>, after: seq<Label>)
    requires Named(s) && s.task.NoTask? && s.event.NoEvent? && s.beat.Asleep? && s.connected
    requires forall x :: x in services <==> x in s.cache
    requires forall l <- during :: WithinSweep(l)
    requires Run(Do(s, BeatStarts(services)), during).beat == Sweep([])
    requires forall l <- after :: Quiet(l)
    ensures var t := Run(Do(Run(Do(s, BeatStarts(services)), during), BeatEnds), after);
      t.tree == s.tree && forall x, i :: x in t.cache && 0 <= i < |t.cache[x]| ==> t.cache[x][i].0 in s.tree
  {
    hide Run;
    var s1 := Do(s, BeatStarts(services));
    SweepRunClean(s1, during);
    var s2 := Run(s1, during);
    var s3 := Do(s2, BeatEnds);
    QuietRunClean(s3, after);
    var t := Run(s3, after);
    forall x, i | x in t.cache && 0 <= i < |t.cache[x]| ensures t.cache[x][i].0 in s.tree {
      assert BucketWithin(t.cache[x], Live(s.tree));
    }
  }
}
