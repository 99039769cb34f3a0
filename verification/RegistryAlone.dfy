/** The step system and the client object agree: an operation whose steps run one after another,
    with nothing in between, has the effect that the object's method promises. */
module RegistryAlone {
  import opened Common
  import opened Naming
  import opened Registry
  import opened RegistryRuns
  import RegistryProofs

  lemma RunOne(s: Sys, l: Label, rest: seq<Label>)
    requires Named(s) && CanDo(s, l)
    ensures Run(s, [l] + rest) == Run(Do(s, l), rest)
  {
    assert ([l] + rest)[1..] == rest;
  }

  lemma StoreLast(s: Sys)
    requires Named(s) && CanDo(s, TaskStores)
    ensures Run(s, [TaskStores] + []) == DoStore(s)
  {
    hide Run, CanDo, DoStore;
    RunOne(s, TaskStores, []);
    RunNothing(Do(s, TaskStores));
  }

  lemma ActLast(s: Sys)
    requires Named(s) && CanDo(s, EventActs)
    ensures Run(s, [EventActs] + []) == DoEvent(s, EventActs)
  {
    hide Run, CanDo, DoEvent;
    RunOne(s, EventActs, []);
    RunNothing(Do(s, EventActs));
  }

  function RegisterLabels(path: string, data: string, seen: bool): seq<Label> {
    [CallRegister(path, data)] + ([TaskCreatesParent(true)] +
    ([TaskChecks(seen)] + ([TaskWrites(true)] + ([TaskStores] + []))))
  }

  lemma {:induction false} AfterLastBelow(path: string)
    requires path != ""
    ensures ParentOf(path) != path
  {
    if AfterLast(path, '/') > 1 {
      assert |ParentOf(path)| < |path|;
    }
  }

  lemma RegisterChecks(s: Sys, path: string, data: string)
    requires Named(s) && s.task == RegisterCheck(path, data)
    ensures CanDo(s, TaskChecks(path in s.tree))
    ensures Do(s, TaskChecks(path in s.tree)) == s.(task := RegisterWrite(path, data, path in s.tree))
  {
    hide DoBeat, DoEvent, DoLookup, DoDelete, DoStore, Recorded;
  }

  lemma RegisterWrites(s: Sys, path: string, data: string)
    requires Named(s) && s.task == RegisterWrite(path, data, path in s.tree)
    ensures CanDo(s, TaskWrites(true))
    ensures var t := Do(s, TaskWrites(true));
      && t.task == RegisterStore(path, data) && t.tree == s.tree[path := Some(data)]
      && t.cache == s.cache && t.watchers == s.watchers && t.event == s.event && t.beat == s.beat
  {
    hide DoBeat, DoEvent, DoLookup, DoDelete, DoStore, Recorded;
  }

  lemma RegisterTail(s: Sys, path: string, data: string)
    requires Named(s) && s.task == RegisterCheck(path, data)
    ensures var t := Run(s, [TaskChecks(path in s.tree)] + ([TaskWrites(true)] + ([TaskStores] + [])));
      && t.cache == CacheUpsert(s.cache, path, data) && t.task.NoTask?
      && path in t.tree && t.tree[path] == Some(data)
      && s.tree.Keys <= t.tree.Keys
      && t.watchers == s.watchers && t.event == s.event && t.beat == s.beat
  {
    hide Run, CacheUpsert, Do, DoTask;
    var s1 := s.(task := RegisterWrite(path, data, path in s.tree));
    RegisterChecks(s, path, data);
    RunOne(s, TaskChecks(path in s.tree), [TaskWrites(true)] + ([TaskStores] + []));
    RegisterWrites(s1, path, data);
    RunOne(s1, TaskWrites(true), [TaskStores] + []);
    StoreLast(Do(s1, TaskWrites(true)));
  }

  /** `Register` alone writes the node and leaves the cache as `ZookeeperClient.Register` does. */
  lemma RegisterAlone(s: Sys, path: string, data: string)
    requires Named(s) && s.task.NoTask? && s.connected && path != ""
    ensures var t := Run(s, RegisterLabels(path, data, path in s.tree));
      && t.cache == CacheUpsert(s.cache, path, data) && t.task.NoTask?
      && path in t.tree && t.tree[path] == Some(data)
      && s.tree.Keys <= t.tree.Keys && (ParentOf(path) != "" ==> ParentOf(path) in t.tree)
      && t.watchers == s.watchers && t.event == s.event && t.beat == s.beat
  {
    hide Run, CacheUpsert, ParentOf, DoStore, DoBeat, DoEvent;
    AfterLastBelow(path);
    var rest := [TaskChecks(path in s.tree)] + ([TaskWrites(true)] + ([TaskStores] + []));
    var s1 := Do(s, CallRegister(path, data));
    var s2 := Do(s1, TaskCreatesParent(true));
    RunOne(s, CallRegister(path, data), [TaskCreatesParent(true)] + rest);
    RunOne(s1, TaskCreatesParent(true), rest);
    RegisterTail(s2, path, data);
  }

  lemma RunNothing(s: Sys)
    requires Named(s)
    ensures Run(s, []) == s
  {
  }

  /** The parent of an instance path is the node of its service. */
  lemma ParentOfChild(service: string, child: string)
    requires '/' !in child
    ensures ParentOf(ChildPath(service, child)) == "/" + service
  {
    var path := ChildPath(service, child);
    assert path[|service| + 2..] == child;
    LastIs(path, '/', |service| + 2);
    assert path[..|service| + 1] == "/" + service;
  }

  // ---------- what can happen ----------

  /** Every call can begin when no other is under way, events and sweeps likewise, and the server may
      refuse whatever it is asked; a read may be answered with the data that is there. */
  lemma StepsPossible(s: Sys, path: string, data: string, service: string, tree: Tree, services: seq<string>,
                      kind: EventKind, state: SessionState)
    requires path != ""
    ensures CanDo(s, Outside(tree))
    ensures s.task.NoTask? ==>
      && CanDo(s, CallDiscover(path)) && CanDo(s, CallDiscoverService(service)) && CanDo(s, CallDelete(path))
      && (s.connected ==> CanDo(s, CallRegister(path, data)) && CanDo(s, CallWatch(path)))
    ensures s.event.NoEvent? ==> CanDo(s, NodeEvent(kind, path)) && CanDo(s, SessionEvent(state))
    ensures s.beat.Asleep? && (forall x :: x in services <==> x in s.cache) ==> CanDo(s, BeatStarts(services))
    ensures s.task.RegisterParent? ==> CanDo(s, TaskCreatesParent(false)) && CanDo(s, TaskCreatesParent(true))
    ensures s.task.RegisterWrite? || s.task.DeleteNode? ==> CanDo(s, TaskWrites(false))
    ensures s.task.ServiceList? ==> CanDo(s, TaskLists(None))
    ensures s.task.DiscoverFetch? ==> CanDo(s, TaskFetches(None))
    ensures s.event.DataFetch? ==> CanDo(s, EventFetches(None))
    ensures s.connected && path in s.tree ==> IsReply(s, path, s.tree[path])
  {
  }

  /** A refused call ends its operation or event and changes nothing else; without a connection the
      heartbeat ends for good. */
  lemma RefusalsChangeNothing(s: Sys, services: seq<string>)
    requires Named(s) && forall x :: x in services <==> x in s.cache
    ensures s.task.RegisterParent? && ParentOf(s.task.path) != "" ==>
      Do(s, TaskCreatesParent(false)) == s.(task := NoTask)
    ensures s.task.RegisterWrite? || s.task.DeleteNode? ==> Do(s, TaskWrites(false)) == s.(task := NoTask)
    ensures s.task.DeleteCheck? ==> Do(s, TaskChecks(false)) == s.(task := NoTask)
    ensures s.task.ServiceList? ==> Do(s, TaskLists(None)) == s.(task := NoTask)
    ensures s.task.DiscoverFetch? ==> Do(s, TaskFetches(None)) == s.(task := NoTask)
    ensures s.event.DataFetch? ==> Do(s, EventFetches(None)) == s.(event := NoEvent)
    ensures s.beat.Asleep? && !s.connected ==> Do(s, BeatStarts(services)) == s.(beat := Exited)
  {
    hide ParentOf, CacheFind, Cut, IsListing, CacheUpsert, CacheErase, CacheSweep, Recorded, DoStore;
  }

  // ---------- a sweep ----------

  function SweepLabels(services: seq<string>, listings: map<string, seq<string>>): seq<Label> {
    if services == [] then [BeatEnds] + []
    else if services[0] in listings then
      [BeatLists(Some(listings[services[0]]))] + ([BeatFilters] + SweepLabels(services[1..], listings))
    else [BeatLists(None)] + SweepLabels(services[1..], listings)
  }

  ghost predicate ListingsTrue(tree: Tree, listings: map<string, seq<string>>) {
    forall x :: x in listings ==> IsListing(tree, x, listings[x])
  }

  function Used(services: seq<string>, listings: map<string, seq<string>>): map<string, seq<string>> {
    map x | x in services && x in listings :: listings[x]
  }

  lemma UsedStep(done: map<string, seq<string>>, services: seq<string>, listings: map<string, seq<string>>)
    requires services != []
    ensures var x := services[0];
      done + Used(services, listings)
      == (if x in listings then done[x := listings[x]] else done) + Used(services[1..], listings)
  {
    assert forall y :: y in services <==> y == services[0] || y in services[1..];
  }

  lemma SweepOne(s: Sys, services: seq<string>, children: seq<string>, rest: seq<Label>)
    requires Named(s) && services != [] && s.beat == Sweep(services) && IsListing(s.tree, services[0], children)
    ensures Run(s, [BeatLists(Some(children))] + ([BeatFilters] + rest)) ==
      Run(s.(beat := Sweep(services[1..]),
             cache := CacheSweep(s.cache, services[0], ChildPaths(services[0], children))), rest)
  {
    hide Run, CacheSweep, IsListing;
    var s1 := Do(s, BeatLists(Some(children)));
    RunOne(s, BeatLists(Some(children)), [BeatFilters] + rest);
    RunOne(s1, BeatFilters, rest);
  }

  lemma SkipOne(s: Sys, services: seq<string>, rest: seq<Label>)
    requires Named(s) && services != [] && s.beat == Sweep(services)
    ensures Run(s, [BeatLists(None)] + rest) == Run(s.(beat := Sweep(services[1..])), rest)
  {
    hide Run;
    RunOne(s, BeatLists(None), rest);
  }

  lemma EndSweep(s: Sys)
    requires Named(s) && s.beat == Sweep([])
    ensures Run(s, [BeatEnds] + []) == s.(beat := Asleep)
  {
    hide Run;
    RunOne(s, BeatEnds, []);
    RunNothing(Do(s, BeatEnds));
  }

  /** The rest of a sweep: `done` holds the listings already used. */
  lemma {:induction false} RestOfSweep(s: Sys, c: Cache, done: map<string, seq<string>>, services: seq<string>,
                                       listings: map<string, seq<string>>)
    requires Named(s) && s.beat == Sweep(services) && s.cache == Swept(c, done)
    requires ListingsTrue(s.tree, listings) && Distinct(services)
    requires forall x <- services :: x in c && x !in done
    ensures Run(s, SweepLabels(services, listings))
         == s.(beat := Asleep, cache := Swept(c, done + Used(services, listings)))
    decreases |services|
  {
    hide Run, Swept, CacheSweep, IsListing, Used;
    if services == [] {
      EndSweep(s);
      UsedNothing(done, listings);
    } else {
      var x, rest := services[0], SweepLabels(services[1..], listings);
      assert x in services && forall y <- services[1..] :: y in services && y != x;
      UsedStep(done, services, listings);
      if x in listings {
        SweepOne(s, services, listings[x], rest);
        SweptStep(c, done, x, listings[x]);
        var swept := CacheSweep(s.cache, x, ChildPaths(x, listings[x]));
        var after := s.(beat := Sweep(services[1..]), cache := swept);
        RestOfSweep(after, c, done[x := listings[x]], services[1..], listings);
      } else {
        SkipOne(s, services, rest);
        RestOfSweep(s.(beat := Sweep(services[1..])), c, done, services[1..], listings);
      }
    }
  }

  lemma UsedNothing(done: map<string, seq<string>>, listings: map<string, seq<string>>)
    ensures done + Used([], listings) == done
  {
  }

  lemma SweptByUsed(c: Cache, services: seq<string>, listings: map<string, seq<string>>)
    requires forall x :: x in services <==> x in c
    ensures Swept(c, map[]) == c && Swept(c, map[] + Used(services, listings)) == Swept(c, listings)
  {
    SweptNothing(c);
    SweptAgree(c, map[] + Used(services, listings), listings);
  }

  /** One heartbeat round alone, whatever the order of the services, does to the cache what
      `ZookeeperClient.Heartbeat` does. */
  lemma HeartbeatAlone(s: Sys, services: seq<string>, listings: map<string, seq<string>>)
    requires Named(s) && s.connected && s.beat.Asleep? && Distinct(services)
    requires forall x :: x in services <==> x in s.cache
    requires ListingsTrue(s.tree, listings)
    ensures Run(s, [BeatStarts(services)] + SweepLabels(services, listings)) == s.(cache := Swept(s.cache, listings))
  {
    hide Run, Swept, Used, ListingsTrue, SweepLabels;
    RunOne(s, BeatStarts(services), SweepLabels(services, listings));
    SweptByUsed(s.cache, services, listings);
    RestOfSweep(s.(beat := Sweep(services)), s.cache, map[], services, listings);
  }

  /** And if every service is listed, only live paths are left in the cache. */
  lemma SweepAloneLeavesLive(s: Sys, services: seq<string>, listings: map<string, seq<string>>)
    requires Named(s) && s.connected && s.beat.Asleep? && Distinct(services)
    requires forall x :: x in services <==> x in s.cache
    requires ListingsTrue(s.tree, listings) && forall x :: x in s.cache ==> x in listings
    ensures var t := Run(s, [BeatStarts(services)] + SweepLabels(services, listings));
      forall x, i :: x in t.cache && 0 <= i < |t.cache[x]| ==> t.cache[x][i].0 in s.tree
  {
    hide Run, SweepLabels, IsListing, ChildPath, Keep;
    HeartbeatAlone(s, services, listings);
    var t := Run(s, [BeatStarts(services)] + SweepLabels(services, listings));
    forall x, i | x in t.cache && 0 <= i < |t.cache[x]| ensures t.cache[x][i].0 in s.tree {
      var paths := ChildPaths(x, listings[x]);
      RegistryProofs.ListedPathsLive(s.tree, x, listings[x]);
      KeepLeft(s.cache[x], paths);
      assert t.cache[x] == Keep(s.cache[x], paths);
    }
  }

  // ---------- fetching a service ----------

  function FetchLabels(replies: seq<Option<string>>): seq<Label> {
    if replies == [] then [TaskStores] + [] else [TaskFetches(replies[0])] + FetchLabels(replies[1..])
  }

  ghost predicate RepliesTrue(s: Sys, service: string, children: seq<string>, replies: seq<Option<string>>) {
    && |replies| == |children|
    && forall i :: 0 <= i < |replies| ==> IsReply(s, ChildPath(service, children[i]), replies[i])
  }

  lemma {:induction false} RestOfFetch(s: Sys, service: string, children: seq<string>, got: Bucket,
                                       replies: seq<Option<string>>)
    requires Named(s) && s.task == ServiceFetch(service, children, got) && RepliesTrue(s, service, children, replies)
    ensures Run(s, FetchLabels(replies))
         == s.(task := NoTask, cache := s.cache[service := got + Fetched(service, children, replies)])
    decreases |children|
  {
    hide Run, ChildPath, Cut;
    if children == [] {
      StoreLast(s);
      assert got + [] == got;
    } else {
      var s1 := Do(s, TaskFetches(replies[0]));
      RunOne(s, TaskFetches(replies[0]), FetchLabels(replies[1..]));
      var one := if replies[0].None? then [] else [(ChildPath(service, children[0]), Cut(replies[0].value))];
      RestOfFetch(s1, service, children[1..], got + one, replies[1..]);
      var tail := Fetched(service, children[1..], replies[1..]);
      assert got + (one + tail) == got + one + tail;
    }
  }

  lemma LookMisses(s: Sys, service: string, rest: seq<Label>)
    requires Named(s) && s.task.NoTask? && service !in s.cache
    ensures Run(s, [CallDiscoverService(service)] + ([TaskLooks] + rest)) == Run(s.(task := ServiceList(service)), rest)
  {
    hide Run, DoStore, DoBeat, DoEvent, DoRegister, DoDelete;
    var s1 := Do(s, CallDiscoverService(service));
    RunOne(s, CallDiscoverService(service), [TaskLooks] + rest);
    RunOne(s1, TaskLooks, rest);
  }

  function MissLabels(service: string, children: seq<string>, replies: seq<Option<string>>): seq<Label> {
    [CallDiscoverService(service)] + ([TaskLooks] + ([TaskLists(Some(children))] + FetchLabels(replies)))
  }

  /** `DiscoverService` alone, on a service that is not cached, caches what
      `ZookeeperClient.DiscoverService` does. */
  lemma DiscoverServiceAlone(s: Sys, service: string, children: seq<string>, replies: seq<Option<string>>)
    requires Named(s) && s.task.NoTask? && service !in s.cache
    requires IsListing(s.tree, service, children) && RepliesTrue(s, service, children, replies)
    ensures Run(s, MissLabels(service, children, replies))
         == s.(cache := s.cache[service := Fetched(service, children, replies)])
  {
    hide Run, IsListing, Fetched, DoStore, DoBeat, DoEvent, DoRegister, DoDelete;
    var s2 := s.(task := ServiceList(service));
    var s3 := Do(s2, TaskLists(Some(children)));
    LookMisses(s, service, [TaskLists(Some(children))] + FetchLabels(replies));
    RunOne(s2, TaskLists(Some(children)), FetchLabels(replies));
    RestOfFetch(s3, service, children, [], replies);
    assert [] + Fetched(service, children, replies) == Fetched(service, children, replies);
  }

  // ---------- the other operations ----------

  lemma DiscoverMiss(s: Sys, path: string, reply: Option<string>)
    requires Named(s) && s.task == DiscoverFetch(path) && IsReply(s, path, reply) && reply.Some?
    ensures Run(s, [TaskFetches(reply)] + ([TaskStores] + []))
         == s.(task := NoTask, cache := CacheUpsert(s.cache, path, Cut(reply.value)))
  {
    hide Run, CacheUpsert, Cut, DoBeat, DoEvent, DoRegister, DoDelete, Recorded;
    var s1 := Do(s, TaskFetches(reply));
    RunOne(s, TaskFetches(reply), [TaskStores] + []);
    StoreLast(s1);
  }

  /** `Discover` alone answers from the cache, or caches what it reads. */
  lemma DiscoverAlone(s: Sys, path: string, reply: Option<string>)
    requires Named(s) && s.task.NoTask? && path != "" && IsReply(s, path, reply)
    ensures CacheFind(s.cache, path).Some? ==> Run(s, [CallDiscover(path)] + ([TaskLooks] + [])) == s
    ensures CacheFind(s.cache, path).None? && reply.Some? ==>
      Run(s, [CallDiscover(path)] + ([TaskLooks] + ([TaskFetches(reply)] + ([TaskStores] + []))))
      == s.(cache := CacheUpsert(s.cache, path, Cut(reply.value)))
  {
    hide Run, CacheUpsert, CacheFind, Cut, DoBeat, DoEvent, DoStore, DoRegister, DoDelete, Recorded;
    var s1 := Do(s, CallDiscover(path));
    var s2 := Do(s1, TaskLooks);
    if CacheFind(s.cache, path).Some? {
      RunOne(s, CallDiscover(path), [TaskLooks] + []);
      RunOne(s1, TaskLooks, []);
      RunNothing(s2);
    } else if reply.Some? {
      var rest := [TaskFetches(reply)] + ([TaskStores] + []);
      RunOne(s, CallDiscover(path), [TaskLooks] + rest);
      RunOne(s1, TaskLooks, rest);
      DiscoverMiss(s2, path, reply);
    }
  }

  lemma DeleteTail(s: Sys, path: string)
    requires Named(s) && s.task == DeleteNode(path) && path in s.tree
    ensures var t := Run(s, [TaskWrites(true)] + ([TaskStores] + []));
      && t.cache == CacheErase(s.cache, path) && t.watchers == s.watchers - {path} && t.tree == s.tree - {path}
      && t.task.NoTask? && t.event == s.event && t.beat == s.beat
  {
    hide Run, CacheErase, DoBeat, DoEvent;
    var s1 := Do(s, TaskWrites(true));
    RunOne(s, TaskWrites(true), [TaskStores] + []);
    StoreLast(s1);
  }

  /** `Delete` alone removes the node, its cached pair and its stored watch. */
  lemma DeleteAlone(s: Sys, path: string)
    requires Named(s) && s.task.NoTask? && path != "" && path in s.tree
    ensures var t := Run(s, [CallDelete(path)] + ([TaskChecks(true)] + ([TaskWrites(true)] + ([TaskStores] + []))));
      && t.cache == CacheErase(s.cache, path) && t.watchers == s.watchers - {path} && t.tree == s.tree - {path}
      && t.task.NoTask? && t.event == s.event && t.beat == s.beat
  {
    hide Run, CacheErase, DoBeat, DoEvent, DoStore;
    var s1 := Do(s, CallDelete(path));
    var s2 := Do(s1, TaskChecks(true));
    var rest := [TaskWrites(true)] + ([TaskStores] + []);
    RunOne(s, CallDelete(path), [TaskChecks(true)] + rest);
    RunOne(s1, TaskChecks(true), rest);
    DeleteTail(s2, path);
  }

  /** A delete event alone does what `ZookeeperClient.NodeEvent` does, and tells the callback. */
  lemma DeleteEventAlone(s: Sys, path: string)
    requires Named(s) && s.event.NoEvent? && path in s.watchers && path != ""
    ensures Run(s, [NodeEvent(Deleted, path)] + ([EventActs] + ([EventActs] + [])))
      == s.(cache := CacheErase(s.cache, path), watchers := s.watchers - {path},
            log := s.log + [Notice(path, s.watchers[path], "", true, |s.stored|)])
  {
    hide Run, CacheErase, DoTask, DoBeat, DoStore;
    var s1 := Do(s, NodeEvent(Deleted, path));
    var s2 := Do(s1, EventActs);
    RunOne(s, NodeEvent(Deleted, path), [EventActs] + ([EventActs] + []));
    RunOne(s1, EventActs, [EventActs] + []);
    ActLast(s2);
  }

  lemma NotifyAlone(s: Sys, path: string, token: Token, data: string)
    requires Named(s) && s.event == DataStore(path, token, data)
    ensures Run(s, [EventActs] + ([EventActs] + []))
      == s.(event := NoEvent, cache := CacheUpsert(s.cache, path, data),
            log := s.log + [Notice(path, token, data, false, 0)])
  {
    hide Run, CacheUpsert, DoTask, DoBeat, DoStore, Recorded;
    var s1 := s.(event := DataNotify(path, token, data), cache := CacheUpsert(s.cache, path, data));
    RunOne(s, EventActs, [EventActs] + []);
    ActLast(s1);
  }

  /** So does a data event whose read succeeds. */
  lemma DataEventAlone(s: Sys, kind: EventKind, path: string, data: string)
    requires Named(s) && s.event.NoEvent? && path in s.watchers && path != ""
    requires (kind.Created? || kind.Changed?) && IsReply(s, path, Some(data))
    ensures Run(s, [NodeEvent(kind, path)] + ([EventFetches(Some(data))] + ([EventActs] + ([EventActs] + []))))
      == s.(cache := CacheUpsert(s.cache, path, Cut(data)),
            log := s.log + [Notice(path, s.watchers[path], Cut(data), false, 0)])
  {
    hide Run, CacheUpsert, Cut, DoTask, DoBeat, DoStore, Recorded;
    var rest := [EventActs] + ([EventActs] + []);
    var s1 := s.(event := DataFetch(path, s.watchers[path]));
    var s2 := s.(event := DataStore(path, s.watchers[path], Cut(data)));
    RunOne(s, NodeEvent(kind, path), [EventFetches(Some(data))] + rest);
    RunOne(s1, EventFetches(Some(data)), rest);
    NotifyAlone(s2, path, s.watchers[path], Cut(data));
  }

  /** `Watch` alone stores the callback under the next number. */
  lemma WatchAlone(s: Sys, path: string)
    requires Named(s) && s.task.NoTask? && s.connected
    ensures Run(s, [CallWatch(path)] + ([TaskStores] + []))
         == s.(watchers := s.watchers[path := |s.stored|], stored := s.stored + [path])
  {
    hide Run, Do, CanDo, DoStore;
    WatchSteps(s, path);
    RunOne(s, CallWatch(path), [TaskStores] + []);
    StoreLast(s.(task := WatchStore(path)));
  }

  lemma WatchSteps(s: Sys, path: string)
    requires Named(s) && s.task.NoTask? && s.connected
    ensures var t := s.(task := WatchStore(path));
      && CanDo(s, CallWatch(path)) && Do(s, CallWatch(path)) == t && CanDo(t, TaskStores)
      && DoStore(t) == s.(watchers := s.watchers[path := |s.stored|], stored := s.stored + [path])
  {
    hide DoTask, DoBeat, DoEvent, CacheUpsert, CacheErase;
  }

  /** A child event alone drops the bucket of the first component of its path, and tells nobody. */
  lemma ChildEventAlone(s: Sys, path: string)
    requires Named(s) && s.event.NoEvent? && path in s.watchers && path != ""
    ensures Run(s, [NodeEvent(Child, path)] + ([EventActs] + [])) == s.(cache := s.cache - {ServiceOf(path)})
  {
    hide Run, ServiceOf, DoTask, DoBeat, DoStore;
    RunOne(s, NodeEvent(Child, path), [EventActs] + []);
    ActLast(s.(event := ChildClear(path)));
  }

  /** An event for a path that is not watched does nothing. */
  lemma UnwatchedEventAlone(s: Sys, kind: EventKind, path: string)
    requires Named(s) && s.event.NoEvent? && path !in s.watchers && path != ""
    ensures Do(s, NodeEvent(kind, path)) == s
  {
    hide DoTask, DoBeat, DoStore;
  }

  /** Session events set the connection state; only an expired session clears the cache, and the
      watches stay. */
  lemma SessionAlone(s: Sys)
    requires Named(s) && s.event.NoEvent?
    ensures Do(s, SessionEvent(Connected)) == s.(connected := true)
    ensures Do(s, SessionEvent(Connecting)) == s.(connected := false)
    ensures Do(s, SessionEvent(Other)) == s
    ensures Run(s, [SessionEvent(Expired)] + ([EventActs] + [])) == s.(connected := false, cache := map[])
  {
    SessionStep(s, Connected);
    SessionStep(s, Connecting);
    SessionStep(s, Other);
    SessionStep(s, Expired);
    ExpiryClears(s.(connected := false, event := ExpiryClear));
    hide Run, Do, CanDo, DoEvent;
    RunOne(s, SessionEvent(Expired), [EventActs] + []);
    ActLast(s.(connected := false, event := ExpiryClear));
  }

  lemma SessionStep(s: Sys, state: SessionState)
    requires Named(s) && s.event.NoEvent?
    ensures CanDo(s, SessionEvent(state))
    ensures Do(s, SessionEvent(state)) == s.(
      connected := if state.Connected? then true else if state.Other? then s.connected else false,
      event := if state.Expired? then ExpiryClear else NoEvent)
  {
    hide DoTask, DoBeat, DoStore, CacheUpsert, CacheErase, IsListing;
  }

  lemma ExpiryClears(s: Sys)
    requires Named(s) && s.event.ExpiryClear?
    ensures CanDo(s, EventActs) && DoEvent(s, EventActs) == s.(event := NoEvent, cache := map[])
  {
    hide CacheUpsert, CacheErase, IsListing;
  }

  // ---------- what DiscoverService does not promise ----------

  lemma FetchedStep(service: string, children: seq<string>, replies: seq<Option<string>>, path: string)
    requires |replies| == |children| && children != []
    ensures Find(Fetched(service, children, replies), path) ==
      if replies[0].Some? && ChildPath(service, children[0]) == path then Some(Cut(replies[0].value))
      else Find(Fetched(service, children[1..], replies[1..]), path)
  {
    hide ChildPath, Cut;
    var tail := Fetched(service, children[1..], replies[1..]);
    if replies[0].Some? {
      PrependFind((ChildPath(service, children[0]), Cut(replies[0].value)), tail, path);
    } else {
      assert [] + tail == tail;
    }
  }

  lemma {:induction false} FetchedLacks(service: string, children: seq<string>, replies: seq<Option<string>>,
                                        path: string)
    requires |replies| == |children| && forall i :: 0 <= i < |children| ==> ChildPath(service, children[i]) != path
    ensures Find(Fetched(service, children, replies), path).None?
    decreases |children|
  {
    hide ChildPath, Cut;
    if children != [] {
      FetchedStep(service, children, replies, path);
      FetchedLacks(service, children[1..], replies[1..], path);
    }
  }

  /** A child is in the fetched bucket, with the first 512 bytes of its data, exactly when its own
      read succeeded. */
  lemma {:induction false} FetchedFind(service: string, children: seq<string>, replies: seq<Option<string>>, i: nat)
    requires |replies| == |children| && Distinct(children) && i < |children|
    ensures Find(Fetched(service, children, replies), ChildPath(service, children[i]))
         == if replies[i].Some? then Some(Cut(replies[i].value)) else None
    decreases |children|
  {
    var path := ChildPath(service, children[i]);
    FetchedStep(service, children, replies, path);
    if i > 0 {
      if ChildPath(service, children[0]) == path {
        ChildPathInjective(service, children[0], children[i]);
      }
      FetchedFind(service, children[1..], replies[1..], i - 1);
    } else if replies[0].None? {
      forall j | 0 <= j < |children| - 1 ensures ChildPath(service, children[1..][j]) != path {
        if ChildPath(service, children[1..][j]) == path {
          ChildPathInjective(service, children[j + 1], children[0]);
        }
      }
      FetchedLacks(service, children[1..], replies[1..], path);
    }
  }

  /** `DiscoverService` on a service that is not cached, run alone: a node directly below the service
      is in the new bucket exactly when its own read succeeded, and nothing else is in it. So all of
      them are listed exactly when every read succeeded; a node with null data always prevents it. */
  lemma MissListsAll(s: Sys, service: string, children: seq<string>, replies: seq<Option<string>>)
    requires Named(s) && s.task.NoTask? && service !in s.cache
    requires IsListing(s.tree, service, children) && RepliesTrue(s, service, children, replies)
    ensures var t := Run(s, MissLabels(service, children, replies));
      && service in t.cache
      && var b := t.cache[service];
      && (forall i :: 0 <= i < |children| ==>
            Find(b, ChildPath(service, children[i])) ==
              if replies[i].Some? then Some(Cut(replies[i].value)) else None)
      && (forall p :: Find(b, p).Some? ==> exists i :: 0 <= i < |children| && p == ChildPath(service, children[i]))
      && ((forall c :: '/' !in c && ChildPath(service, c) in s.tree ==> Find(b, ChildPath(service, c)).Some?)
          <==> (forall i :: 0 <= i < |replies| ==> replies[i].Some?))
  {
    hide Run, Fetched, ChildPath, Cut, MissLabels;
    DiscoverServiceAlone(s, service, children, replies);
    var b := Fetched(service, children, replies);
    forall i | 0 <= i < |children|
      ensures Find(b, ChildPath(service, children[i])) == if replies[i].Some? then Some(Cut(replies[i].value)) else None
      ensures '/' !in children[i] && ChildPath(service, children[i]) in s.tree
    {
      FetchedFind(service, children, replies, i);
      assert children[i] in children;
    }
    forall p | Find(b, p).Some? ensures exists i :: 0 <= i < |children| && p == ChildPath(service, children[i]) {
      if forall i :: 0 <= i < |children| ==> ChildPath(service, children[i]) != p {
        FetchedLacks(service, children, replies, p);
      }
    }
    if forall i :: 0 <= i < |replies| ==> replies[i].Some? {
      forall c | '/' !in c && ChildPath(service, c) in s.tree ensures Find(b, ChildPath(service, c)).Some? {
        var i :| 0 <= i < |children| && children[i] == c;
      }
    }
  }

  lemma {:induction false} Enumerate(names: set<string>) returns (listed: seq<string>)
    ensures Distinct(listed) && forall x :: x in listed <==> x in names
    decreases |names|
  {
    if names == {} {
      listed := [];
    } else {
      var x :| x in names;
      var others := Enumerate(names - {x});
      listed := [x] + others;
      assert forall y :: y in listed <==> y == x || y in others;
    }
  }

  lemma ListingExists(tree: Tree, service: string) returns (children: seq<string>)
    requires "/" + service in tree
    ensures IsListing(tree, service, children)
  {
    var front := "/" + service + "/";
    var names := set p | p in tree && front <= p && '/' !in p[|front|..] :: p[|front|..];
    children := Enumerate(names);
    forall c | '/' !in c ensures c in names <==> ChildPath(service, c) in tree {
      var p := ChildPath(service, c);
      assert front <= p && p[|front|..] == c;
      if c in names {
        var q :| q in tree && front <= q && q[|front|..] == c;
        assert q == front + q[|front|..] == p;
      }
    }
  }

  /** `DiscoverService` on a service that is not cached can list it exactly when its node exists.
      Otherwise it throws, and so it does on a failed call; then the cache is as it was. */
  lemma AbsentServiceThrows(s: Sys, service: string)
    requires Named(s) && s.task.NoTask? && service !in s.cache
    ensures var t := Run(s, [CallDiscoverService(service)] + ([TaskLooks] + []));
      && t.task == ServiceList(service)
      && ((exists children :: CanDo(t, TaskLists(Some(children)))) <==> "/" + service in s.tree)
    ensures Run(s, [CallDiscoverService(service)] + ([TaskLooks] + ([TaskLists(None)] + []))) == s
  {
    hide Run, IsListing, DoStore, DoBeat, DoEvent, DoRegister, DoDelete;
    var t := s.(task := ServiceList(service));
    LookMisses(s, service, []);
    RunNothing(t);
    LookMisses(s, service, [TaskLists(None)] + []);
    RunOne(t, TaskLists(None), []);
    RunNothing(s);
    if "/" + service in s.tree {
      var children := ListingExists(s.tree, service);
      assert CanDo(t, TaskLists(Some(children)));
    }
    ListingNeedsNode(s.tree, service);
  }

  lemma ListingNeedsNode(tree: Tree, service: string)
    ensures forall children :: IsListing(tree, service, children) ==> "/" + service in tree
  {
  }

  /** A service name with a slash can put a path into two buckets: "/a/b/c" is cached under "a" by
      `Discover` and under "a/b" by `DiscoverService`. */
  lemma SlashedNameCachesTwice()
    ensures var s := Initial(map["/a/b" := Some(""), "/a/b/c" := Some("d")]);
      var t := Run(Run(s, [CallDiscover("/a/b/c")] + ([TaskLooks] + ([TaskFetches(Some("d"))] + ([TaskStores] + [])))),
                   MissLabels("a/b", ["c"], [Some("d")]));
      t.cache == map["a" := [("/a/b/c", "d")], "a/b" := [("/a/b/c", "d")]]
  {
    hide Run, MissLabels;
    var tree: Tree := map["/a/b" := Some(""), "/a/b/c" := Some("d")];
    var s := Initial(tree);
    assert ChildPath("a/b", "c") == "/a/b/c";
    assert ServiceOf("/a/b/c") == "a" by { ChildPathBucket("a", "b/c"); assert ChildPath("a", "b/c") == "/a/b/c"; }
    assert Upsert([], "/a/b/c", "d") == [("/a/b/c", "d")];
    DiscoverAlone(s, "/a/b/c", Some("d"));
    var s1 := s.(cache := map["a" := [("/a/b/c", "d")]]);
    forall c | '/' !in c ensures c in ["c"] <==> ChildPath("a/b", c) in tree {
      assert |ChildPath("a/b", c)| == 5 + |c| && |"/a/b"| == 4;
      if ChildPath("a/b", c) == ChildPath("a/b", "c") {
        ChildPathInjective("a/b", c, "c");
      }
    }
    assert "/" + "a/b" == "/a/b";
    assert RepliesTrue(s1, "a/b", ["c"], [Some("d")]);
    DiscoverServiceAlone(s1, "a/b", ["c"], [Some("d")]);
    assert Fetched("a/b", ["c"], [Some("d")]) == [("/a/b/c", "d")];
  }

  lemma HitChangesNothing(s: Sys, service: string)
    requires Named(s) && s.task.NoTask? && service in s.cache
    ensures Do(Do(s, CallDiscoverService(service)), TaskLooks) == s
  {
  }

  /** But a bucket that `Register` or `Discover` started counts as the whole answer later: here a
      live instance of another server is missing from it. */
  lemma PartialBucketIsAHit()
    ensures var s := Run(Initial(map["/S/a" := Some("methods=M")]), RegisterLabels("/S/b", "methods=M", false));
      && "S" in s.cache && s.cache["S"] == [("/S/b", "methods=M")]
      && "/S/a" in s.tree
      && s.task.NoTask? && Do(Do(s, CallDiscoverService("S")), TaskLooks) == s
  {
    hide Run, RegisterLabels, CacheUpsert, DoRegister, DoDelete, DoLookup, DoStore, DoBeat, DoEvent;
    var tree: Tree := map["/S/a" := Some("methods=M")];
    PartialTexts();
    RegisterAlone(Initial(tree), "/S/b", "methods=M");
    HitChangesNothing(Run(Initial(tree), RegisterLabels("/S/b", "methods=M", false)), "S");
  }

  lemma PartialTexts()
    ensures "/S/b" != "/S/a" && CacheUpsert(map[], "/S/b", "methods=M") == map["S" := [("/S/b", "methods=M")]]
  {
    assert "/S/b"[3] != "/S/a"[3];
    ChildPathBucket("S", "b");
    assert "/S/b" == ChildPath("S", "b");
    assert Upsert([], "/S/b", "methods=M") == [("/S/b", "methods=M")];
  }
}
