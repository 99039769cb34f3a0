/** The registry client under concurrency. Three threads share the cache and the stored watches: the
    caller inside an operation (`mutex_` admits one), the heartbeat, and the event delivery. The
    cache lock is dropped around every server call, so each call to the server and each locked block
    is one step, and other clients may change the tree between any two steps. */
module RegistryRuns {
  import opened Common
  import opened Naming
  import opened Registry

  /** The nodes of the server; None is null data. */
  type Tree = map<string, Option<string>>

  /** The caller's operation, by the step it takes next. */
  datatype Task =
    | NoTask
    | RegisterParent(path: string, data: string)
    | RegisterCheck(path: string, data: string)
    | RegisterWrite(path: string, data: string, seen: bool)
    | RegisterStore(path: string, data: string)
    | DiscoverLook(path: string)
    | DiscoverFetch(path: string)
    | DiscoverStore(path: string, data: string)
    | ServiceLook(service: string)
    | ServiceList(service: string)
    | ServiceFetch(service: string, children: seq<string>, instances: Bucket)
    | DeleteCheck(path: string)
    | DeleteNode(path: string)
    | DeleteErase(path: string)
    | WatchStore(path: string)

  datatype Beat =
    | Asleep
    | Sweep(services: seq<string>)
    | Filter(service: string, paths: seq<string>, services: seq<string>)
    | Exited

  /** The event being handled; a node event carries the callback found when it arrived. */
  datatype Event =
    | NoEvent
    | DataFetch(path: string, token: Token)
    | DataStore(path: string, token: Token, data: string)
    | DataNotify(path: string, token: Token, data: string)
    | DeleteEntry(path: string, token: Token)
    | DeleteNotify(path: string, token: Token, era: nat)
    | ChildClear(path: string)
    | ExpiryClear

  /** One call of a stored callback. For a delete notice, `era` is how many callbacks had been
      stored when its event erased the watch. */
  datatype Notice = Notice(path: string, token: Token, data: string, deleted: bool, era: nat)

  /** `history`, `written` and `stored` are records for the proofs: every tree so far, the pairs this
      client's `Register` wrote, and the path of every callback ever stored. */
  datatype Sys = Sys(
    tree: Tree, history: seq<Tree>, written: set<Instance>,
    connected: bool, cache: Cache, watchers: map<string, Token>, stored: seq<string>,
    task: Task, beat: Beat, event: Event, log: seq<Notice>)

  /** What can happen next, with the answer of the server where there is one. */
  datatype Label =
    | Outside(tree: Tree)
    | CallRegister(path: string, data: string)
    | CallDiscover(path: string)
    | CallDiscoverService(service: string)
    | CallDelete(path: string)
    | CallWatch(path: string)
    | TaskCreatesParent(ok: bool)
    | TaskChecks(found: bool)
    | TaskWrites(ok: bool)
    | TaskLooks
    | TaskLists(children: Option<seq<string>>)
    | TaskFetches(reply: Option<string>)
    | TaskStores
    | BeatStarts(services: seq<string>)
    | BeatLists(children: Option<seq<string>>)
    | BeatFilters
    | BeatEnds
    | NodeEvent(kind: EventKind, path: string)
    | SessionEvent(state: SessionState)
    | EventFetches(reply: Option<string>)
    | EventActs

  // ---------- what the server may answer ----------

  ghost predicate Distinct(s: seq<string>) {
    forall i, j :: 0 <= i < j < |s| ==> s[i] != s[j]
  }

  /** The names directly below a service node, in any order. There is no listing of a node that
      does not exist. */
  ghost predicate IsListing(tree: Tree, service: string, children: seq<string>) {
    && "/" + service in tree
    && Distinct(children)
    && (forall c <- children :: '/' !in c)
    && (forall c :: '/' !in c ==> (c in children <==> ChildPath(service, c) in tree))
  }

  /** A read succeeds only on a node with data, and may always fail. */
  predicate IsReply(s: Sys, path: string, reply: Option<string>) {
    reply.Some? ==> s.connected && path in s.tree && s.tree[path] == reply
  }

  function ParentOf(path: string): string {
    if AfterLast(path, '/') <= 1 then "" else path[..AfterLast(path, '/') - 1]
  }

  // ---------- steps ----------

  ghost predicate CanDo(s: Sys, l: Label) {
    match l
    case Outside(_) => true
    case CallRegister(path, _) => s.task.NoTask? && path != "" && s.connected
    case CallDiscover(path) => s.task.NoTask? && path != ""
    case CallDiscoverService(_) => s.task.NoTask?
    case CallDelete(path) => s.task.NoTask? && path != ""
    case CallWatch(_) => s.task.NoTask? && s.connected
    case TaskCreatesParent(_) => s.task.RegisterParent?
    case TaskChecks(found) =>
      (s.task.RegisterCheck? || s.task.DeleteCheck?) && (found ==> s.task.path in s.tree)
    case TaskWrites(ok) =>
      || (s.task.RegisterWrite? && (ok ==> (s.task.seen <==> s.task.path in s.tree)))
      || (s.task.DeleteNode? && (ok ==> s.task.path in s.tree))
    case TaskLooks => s.task.DiscoverLook? || s.task.ServiceLook?
    case TaskLists(children) =>
      s.task.ServiceList? && (children.Some? ==> IsListing(s.tree, s.task.service, children.value))
    case TaskFetches(reply) =>
      || (s.task.DiscoverFetch? && IsReply(s, s.task.path, reply))
      || (s.task.ServiceFetch? && s.task.children != []
          && IsReply(s, ChildPath(s.task.service, s.task.children[0]), reply))
    case TaskStores =>
      || s.task.RegisterStore? || s.task.DiscoverStore? || s.task.DeleteErase? || s.task.WatchStore?
      || (s.task.ServiceFetch? && s.task.children == [])
    case BeatStarts(services) => s.beat.Asleep? && forall x :: x in services <==> x in s.cache
    case BeatLists(children) =>
      s.beat.Sweep? && s.beat.services != []
      && (children.Some? ==> IsListing(s.tree, s.beat.services[0], children.value))
    case BeatFilters => s.beat.Filter?
    case BeatEnds => s.beat == Sweep([])
    case NodeEvent(_, path) => s.event.NoEvent? && path != ""
    case SessionEvent(_) => s.event.NoEvent?
    case EventFetches(reply) => s.event.DataFetch? && IsReply(s, s.event.path, reply)
    case EventActs => !s.event.NoEvent? && !s.event.DataFetch?
  }

  function Grow(s: Sys, tree: Tree): Sys {
    s.(tree := tree, history := s.history + [tree])
  }

  /** Operations on the empty path never get as far as the cache: `substr` throws, or the server
      refuses it. */
  predicate Named(s: Sys) {
    && (s.task.NoTask? || s.task.ServiceLook? || s.task.ServiceList? || s.task.ServiceFetch? || s.task.WatchStore?
        || s.task.path != "")
    && (s.event.NoEvent? || s.event.ExpiryClear? || s.event.path != "")
  }

  /** Every change of the tree is recorded, and no record is lost. */
  predicate Recorded(s: Sys, t: Sys) {
    && s.written <= t.written
    && (t.history == s.history + [t.tree] || (t.history == s.history && t.tree == s.tree))
  }

  function DoRegister(s: Sys, l: Label): (t: Sys)
    requires Named(s)
    ensures Named(t)
    ensures t == s.(tree := t.tree, history := t.history, written := t.written, task := t.task) && Recorded(s, t)
  {
    match (l, s.task)
    case (TaskCreatesParent(ok), RegisterParent(path, data)) =>
      var parent := ParentOf(path);
      if parent == "" then s.(task := RegisterCheck(path, data))
      else if !ok then s.(task := NoTask)
      else Grow(s, if parent in s.tree then s.tree else s.tree[parent := Some("")]).(task := RegisterCheck(path, data))
    case (TaskChecks(found), RegisterCheck(path, data)) => s.(task := RegisterWrite(path, data, found))
    case (TaskWrites(ok), RegisterWrite(path, data, _)) =>
      if !ok then s.(task := NoTask)
      else
        var grown := Grow(s, s.tree[path := Some(data)]);
        grown.(written := s.written + {(path, data)}, task := RegisterStore(path, data))
    case _ => s
  }

  function DoLookup(s: Sys, l: Label): (t: Sys)
    requires CanDo(s, l) && Named(s)
    ensures Named(t)
    ensures t == s.(task := t.task)
  {
    match (l, s.task)
    case (TaskLooks, DiscoverLook(path)) =>
      s.(task := if CacheFind(s.cache, path).Some? then NoTask else DiscoverFetch(path))
    case (TaskLooks, ServiceLook(service)) =>
      s.(task := if service in s.cache then NoTask else ServiceList(service))
    case (TaskLists(children), ServiceList(service)) =>
      s.(task := if children.None? then NoTask else ServiceFetch(service, children.value, []))
    case (TaskFetches(reply), DiscoverFetch(path)) =>
      s.(task := if reply.None? then NoTask else DiscoverStore(path, Cut(reply.value)))
    case (TaskFetches(reply), ServiceFetch(service, children, instances)) =>
      s.(task := ServiceFetch(service, children[1..],
           instances + if reply.None? then [] else [(ChildPath(service, children[0]), Cut(reply.value))]))
    case _ => s
  }

  function DoDelete(s: Sys, l: Label): (t: Sys)
    requires Named(s)
    ensures Named(t)
    ensures t == s.(tree := t.tree, history := t.history, task := t.task) && Recorded(s, t)
  {
    match (l, s.task)
    case (TaskChecks(found), DeleteCheck(path)) => s.(task := if found then DeleteNode(path) else NoTask)
    case (TaskWrites(ok), DeleteNode(path)) =>
      if !ok then s.(task := NoTask) else Grow(s, s.tree - {path}).(task := DeleteErase(path))
    case _ => s
  }

  function DoTask(s: Sys, l: Label): (t: Sys)
    requires CanDo(s, l) && Named(s)
    ensures Named(t)
    ensures t == s.(tree := t.tree, history := t.history, written := t.written, task := t.task) && Recorded(s, t)
  {
    if s.task.RegisterParent? || s.task.RegisterCheck? || s.task.RegisterWrite? then DoRegister(s, l)
    else if s.task.DeleteCheck? || s.task.DeleteNode? then DoDelete(s, l)
    else DoLookup(s, l)
  }

  function DoStore(s: Sys): (t: Sys)
    requires Named(s)
    ensures Named(t)
    ensures t == s.(task := NoTask, cache := t.cache, watchers := t.watchers, stored := t.stored)
  {
    var t := s.(task := NoTask);
    match s.task
    case RegisterStore(path, data) => t.(cache := CacheUpsert(s.cache, path, data))
    case DiscoverStore(path, data) => t.(cache := CacheUpsert(s.cache, path, data))
    case ServiceFetch(service, _, instances) => t.(cache := s.cache[service := instances])
    case DeleteErase(path) => t.(cache := CacheErase(s.cache, path), watchers := s.watchers - {path})
    case WatchStore(path) => t.(watchers := s.watchers[path := |s.stored|], stored := s.stored + [path])
    case _ => t
  }

  function DoBeat(s: Sys, l: Label): (t: Sys)
    requires Named(s)
    ensures Named(t)
    ensures t == s.(beat := t.beat, cache := t.cache)
  {
    match (l, s.beat)
    case (BeatStarts(services), _) => s.(beat := if s.connected then Sweep(services) else Exited)
    case (BeatLists(children), Sweep(services)) =>
      if services == [] then s
      else if children.None? then s.(beat := Sweep(services[1..]))
      else s.(beat := Filter(services[0], ChildPaths(services[0], children.value), services[1..]))
    case (BeatFilters, Filter(service, paths, services)) =>
      s.(beat := Sweep(services), cache := CacheSweep(s.cache, service, paths))
    case (BeatEnds, _) => s.(beat := Asleep)
    case _ => s
  }

  function DoEvent(s: Sys, l: Label): (t: Sys)
    requires CanDo(s, l) && Named(s)
    ensures Named(t)
    ensures t == s.(connected := t.connected, event := t.event, cache := t.cache, watchers := t.watchers, log := t.log)
  {
    match (l, s.event)
    case (NodeEvent(kind, path), _) =>
      if path !in s.watchers then s
      else
        var token := s.watchers[path];
        s.(event := match kind
                    case Deleted => DeleteEntry(path, token)
                    case Child => ChildClear(path)
                    case _ => DataFetch(path, token))
    case (SessionEvent(state), _) =>
      match state {
        case Connected => s.(connected := true)
        case Connecting => s.(connected := false)
        case Expired => s.(connected := false, event := ExpiryClear)
        case Other => s
      }
    case (EventFetches(reply), DataFetch(path, token)) =>
      s.(event := if reply.None? then NoEvent else DataStore(path, token, Cut(reply.value)))
    case (EventActs, DataStore(path, token, data)) =>
      s.(event := DataNotify(path, token, data), cache := CacheUpsert(s.cache, path, data))
    case (EventActs, DataNotify(path, token, data)) =>
      s.(event := NoEvent, log := s.log + [Notice(path, token, data, false, 0)])
    case (EventActs, DeleteEntry(path, token)) =>
      s.(event := DeleteNotify(path, token, |s.stored|), cache := CacheErase(s.cache, path),
         watchers := s.watchers - {path})
    case (EventActs, DeleteNotify(path, token, era)) =>
      s.(event := NoEvent, log := s.log + [Notice(path, token, "", true, era)])
    case (EventActs, ChildClear(path)) => s.(event := NoEvent, cache := s.cache - {ServiceOf(path)})
    case (EventActs, ExpiryClear) => s.(event := NoEvent, cache := map[])
    case _ => s
  }

  function Do(s: Sys, l: Label): (t: Sys)
    requires CanDo(s, l) && Named(s)
    ensures Named(t)
  {
    match l
    case Outside(tree) => Grow(s, tree)
    case CallRegister(path, data) => s.(task := RegisterParent(path, data))
    case CallDiscover(path) => s.(task := DiscoverLook(path))
    case CallDiscoverService(service) => s.(task := ServiceLook(service))
    case CallDelete(path) => s.(task := DeleteCheck(path))
    case CallWatch(path) => s.(task := WatchStore(path))
    case TaskStores => DoStore(s)
    case BeatStarts(_) => DoBeat(s, l)
    case BeatLists(_) => DoBeat(s, l)
    case BeatFilters => DoBeat(s, l)
    case BeatEnds => DoBeat(s, l)
    case NodeEvent(_, _) => DoEvent(s, l)
    case SessionEvent(_) => DoEvent(s, l)
    case EventFetches(_) => DoEvent(s, l)
    case EventActs => DoEvent(s, l)
    case _ => DoTask(s, l)
  }

  /** A run; a label that is not possible when its turn comes is skipped. */
  ghost function Run(s: Sys, labels: seq<Label>): (t: Sys)
    requires Named(s)
    ensures Named(t)
    decreases |labels|
  {
    if labels == [] then s
    else Run(if CanDo(s, labels[0]) then Do(s, labels[0]) else s, labels[1..])
  }

  function Initial(tree: Tree): (s: Sys)
    ensures Named(s)
  {
    Sys(tree, [tree], {}, true, map[], map[], [], NoTask, Asleep, NoEvent, [])
  }

  // ---------- data in the cache and in flight ----------

  ghost predicate BucketWithin(b: Bucket, good: iset<Instance>) {
    forall i :: 0 <= i < |b| ==> b[i] in good
  }

  ghost predicate CacheWithin(c: Cache, good: iset<Instance>) {
    forall x :: x in c ==> BucketWithin(c[x], good)
  }

  ghost predicate TaskWithin(t: Task, good: iset<Instance>) {
    match t
    case RegisterStore(path, data) => (path, data) in good
    case DiscoverStore(path, data) => (path, data) in good
    case ServiceFetch(_, _, instances) => BucketWithin(instances, good)
    case _ => true
  }

  ghost predicate EventWithin(e: Event, good: iset<Instance>) {
    e.DataStore? || e.DataNotify? ==> (e.path, e.data) in good
  }

  ghost predicate LogWithin(log: seq<Notice>, good: iset<Instance>) {
    forall i :: 0 <= i < |log| && !log[i].deleted ==> (log[i].path, log[i].data) in good
  }

  /** The pair a step brings in from the server. */
  function Incoming(s: Sys, l: Label): Option<Instance> {
    match l
    case TaskWrites(true) => if s.task.RegisterWrite? then Some((s.task.path, s.task.data)) else None
    case TaskFetches(Some(d)) =>
      if s.task.DiscoverFetch? then Some((s.task.path, Cut(d)))
      else if s.task.ServiceFetch? && s.task.children != [] then
        Some((ChildPath(s.task.service, s.task.children[0]), Cut(d)))
      else None
    case EventFetches(Some(d)) => if s.event.DataFetch? then Some((s.event.path, Cut(d))) else None
    case _ => None
  }

  lemma {:induction false} UpsertWithin(b: Bucket, path: string, data: string, good: iset<Instance>)
    requires BucketWithin(b, good) && (path, data) in good
    ensures BucketWithin(Upsert(b, path, data), good)
  {
    UpsertMeaning(b, path, data);
  }

  lemma {:induction false} WithoutWithin(b: Bucket, path: string, good: iset<Instance>)
    requires BucketWithin(b, good)
    ensures BucketWithin(Without(b, path), good)
  {
    if b != [] {
      WithoutWithin(b[1..], path, good);
    }
  }

  lemma {:induction false} KeepWithin(b: Bucket, paths: seq<string>, good: iset<Instance>)
    requires BucketWithin(b, good)
    ensures BucketWithin(Keep(b, paths), good)
  {
    if b != [] {
      KeepWithin(b[1..], paths, good);
    }
  }

  lemma UpsertCacheWithin(c: Cache, path: string, data: string, good: iset<Instance>)
    requires path != "" && CacheWithin(c, good) && (path, data) in good
    ensures CacheWithin(CacheUpsert(c, path, data), good)
  {
    UpsertWithin(BucketOf(c, ServiceOf(path)), path, data, good);
  }

  lemma EraseCacheWithin(c: Cache, path: string, good: iset<Instance>)
    requires path != "" && CacheWithin(c, good)
    ensures CacheWithin(CacheErase(c, path), good)
  {
    if ServiceOf(path) in c {
      WithoutWithin(c[ServiceOf(path)], path, good);
    }
  }

  lemma SweepCacheWithin(c: Cache, service: string, paths: seq<string>, good: iset<Instance>)
    requires CacheWithin(c, good)
    ensures CacheWithin(CacheSweep(c, service, paths), good)
  {
    if service in c {
      KeepWithin(c[service], paths, good);
    }
  }

  lemma RegisterFlight(s: Sys, l: Label, good: iset<Instance>)
    requires Named(s) && TaskWithin(s.task, good)
    requires Incoming(s, l).Some? ==> Incoming(s, l).value in good
    ensures TaskWithin(DoRegister(s, l).task, good)
  {
    hide ParentOf, Cut;
  }

  lemma LookupFlight(s: Sys, l: Label, good: iset<Instance>)
    requires Named(s) && CanDo(s, l) && TaskWithin(s.task, good)
    requires Incoming(s, l).Some? ==> Incoming(s, l).value in good
    ensures TaskWithin(DoLookup(s, l).task, good)
  {
    hide CacheFind, Cut, IsListing, IsReply;
  }

  lemma TaskFlight(s: Sys, l: Label, good: iset<Instance>)
    requires Named(s) && CanDo(s, l) && TaskWithin(s.task, good)
    requires Incoming(s, l).Some? ==> Incoming(s, l).value in good
    ensures TaskWithin(DoTask(s, l).task, good)
  {
    hide DoRegister, DoLookup, CanDo;
    RegisterFlight(s, l, good);
    LookupFlight(s, l, good);
  }

  lemma EventFlight(s: Sys, l: Label, good: iset<Instance>)
    requires Named(s) && CanDo(s, l) && EventWithin(s.event, good)
    requires Incoming(s, l).Some? ==> Incoming(s, l).value in good
    ensures EventWithin(DoEvent(s, l).event, good)
  {
    hide CacheUpsert, CacheErase, Cut;
  }

  /** Steps only move data around: what is in flight after a step was so before, or came in. */
  lemma FlightStaysWithin(s: Sys, l: Label, good: iset<Instance>)
    requires Named(s) && CanDo(s, l)
    requires TaskWithin(s.task, good) && EventWithin(s.event, good)
    requires Incoming(s, l).Some? ==> Incoming(s, l).value in good
    ensures var t := Do(s, l); TaskWithin(t.task, good) && EventWithin(t.event, good)
  {
    hide DoTask, DoStore, DoBeat, DoEvent, CanDo;
    TaskFlight(s, l, good);
    EventFlight(s, l, good);
  }

  lemma StoreCache(s: Sys, good: iset<Instance>)
    requires Named(s) && CacheWithin(s.cache, good) && TaskWithin(s.task, good)
    ensures CacheWithin(DoStore(s).cache, good)
  {
    hide CacheUpsert, CacheErase;
    match s.task {
      case RegisterStore(path, data) => UpsertCacheWithin(s.cache, path, data, good);
      case DiscoverStore(path, data) => UpsertCacheWithin(s.cache, path, data, good);
      case DeleteErase(path) => EraseCacheWithin(s.cache, path, good);
      case _ =>
    }
  }

  lemma EventCache(s: Sys, l: Label, good: iset<Instance>)
    requires Named(s) && CanDo(s, l) && CacheWithin(s.cache, good) && EventWithin(s.event, good)
    ensures CacheWithin(DoEvent(s, l).cache, good)
  {
    hide CacheUpsert, CacheErase, Cut;
    match s.event {
      case DataStore(path, _, data) => UpsertCacheWithin(s.cache, path, data, good);
      case DeleteEntry(path, _) => EraseCacheWithin(s.cache, path, good);
      case _ =>
    }
  }

  lemma BeatCache(s: Sys, l: Label, good: iset<Instance>)
    requires Named(s) && CacheWithin(s.cache, good)
    ensures CacheWithin(DoBeat(s, l).cache, good)
  {
    hide CacheSweep;
    if s.beat.Filter? {
      SweepCacheWithin(s.cache, s.beat.service, s.beat.paths, good);
    }
  }

  /** What is cached after a step was cached before, or in flight. */
  lemma CacheStaysWithin(s: Sys, l: Label, good: iset<Instance>)
    requires Named(s) && CanDo(s, l)
    requires CacheWithin(s.cache, good) && TaskWithin(s.task, good) && EventWithin(s.event, good)
    ensures CacheWithin(Do(s, l).cache, good)
  {
    hide DoTask, DoStore, DoBeat, DoEvent, CanDo;
    StoreCache(s, good);
    EventCache(s, l, good);
    BeatCache(s, l, good);
  }

  lemma LogStaysWithin(s: Sys, l: Label, good: iset<Instance>)
    requires Named(s) && CanDo(s, l)
    requires LogWithin(s.log, good) && EventWithin(s.event, good)
    ensures LogWithin(Do(s, l).log, good)
  {
    hide DoTask, DoStore, DoBeat, CacheUpsert, CacheErase, Cut, IsListing;
  }
}
