/** `ZookeeperClient`: the per-service cache of (path, data) pairs, the stored watch callbacks, and
    the operations on them. Every answer of the ZooKeeper server is a parameter. */
module Registry {
  import opened Common
  import opened Naming

  type Bucket = seq<Instance>

  type Cache = map<string, Bucket>

  /** A stored callback is known by the number of the `Watch` call that stored it. */
  type Token = nat

  // ---------- buckets ----------

  /** The first entry of the path is overwritten in place; without one, the pair goes to the end. */
  function Upsert(b: Bucket, path: string, data: string): Bucket {
    if b == [] then [(path, data)]
    else if b[0].0 == path then [(path, data)] + b[1..]
    else [b[0]] + Upsert(b[1..], path, data)
  }

  function Without(b: Bucket, path: string): Bucket {
    if b == [] then [] else (if b[0].0 == path then [] else [b[0]]) + Without(b[1..], path)
  }

  function Keep(b: Bucket, paths: seq<string>): Bucket {
    if b == [] then [] else (if b[0].0 in paths then [b[0]] else []) + Keep(b[1..], paths)
  }

  function Find(b: Bucket, path: string): Option<string> {
    if b == [] then None else if b[0].0 == path then Some(b[0].1) else Find(b[1..], path)
  }

  ghost predicate NoDuplicates(b: Bucket) {
    forall i, j :: 0 <= i < j < |b| ==> b[i].0 != b[j].0
  }

  /** Upserting changes what is found for one path only. */
  lemma {:induction false} UpsertFind(b: Bucket, path: string, data: string, p: string)
    ensures Find(Upsert(b, path, data), p) == if p == path then Some(data) else Find(b, p)
  {
    if b != [] && b[0].0 != path {
      UpsertFind(b[1..], path, data, p);
      assert Upsert(b, path, data)[1..] == Upsert(b[1..], path, data);
    } else if b != [] {
      assert Upsert(b, path, data)[1..] == b[1..];
    }
  }

  /** And it leaves every other entry where it was: the bucket grows only by a path it lacked. */
  lemma {:induction false} UpsertMeaning(b: Bucket, path: string, data: string)
    ensures var r := Upsert(b, path, data);
      && |r| == |b| + (if Find(b, path).Some? then 0 else 1)
      && (forall i :: 0 <= i < |b| && b[i].0 != path ==> r[i] == b[i])
      && (forall i :: 0 <= i < |r| ==> r[i] == (path, data) || (i < |b| && r[i] == b[i]))
      && (NoDuplicates(b) ==> NoDuplicates(r))
  {
    UpsertPlaces(b, path, data);
    if NoDuplicates(b) {
      UpsertDistinct(b, path, data);
    }
  }

  lemma {:induction false} UpsertPlaces(b: Bucket, path: string, data: string)
    ensures var r := Upsert(b, path, data);
      && |r| == |b| + (if Find(b, path).Some? then 0 else 1)
      && (forall i :: 0 <= i < |b| && b[i].0 != path ==> r[i] == b[i])
      && (forall i :: 0 <= i < |r| ==> r[i] == (path, data) || (i < |b| && r[i] == b[i]))
  {
    if b != [] && b[0].0 != path {
      UpsertPlaces(b[1..], path, data);
      hide Upsert, Find;
      UpsertStep(b, path, data);
      assert forall i :: 0 < i < |b| ==> b[i] == b[1..][i - 1];
    }
  }

  lemma UpsertStep(b: Bucket, path: string, data: string)
    requires b != [] && b[0].0 != path
    ensures Upsert(b, path, data) == [b[0]] + Upsert(b[1..], path, data) && Find(b, path) == Find(b[1..], path)
  {
  }

  lemma {:induction false} UpsertDistinct(b: Bucket, path: string, data: string)
    requires NoDuplicates(b)
    ensures NoDuplicates(Upsert(b, path, data))
    ensures forall e <- Upsert(b, path, data) :: e == (path, data) || e in b
  {
    if b != [] && b[0].0 != path {
      UpsertDistinct(b[1..], path, data);
      UpsertStep(b, path, data);
      hide Upsert, Find;
      assert forall e <- b[1..] :: e in b && e.0 != b[0].0;
    }
  }

  /** `at` lists, in increasing order, the places of `b` whose path is kept. */
  ghost predicate Survivors(b: Bucket, paths: seq<string>, at: seq<nat>) {
    && (forall i :: 0 <= i < |at| ==> at[i] < |b| && b[at[i]].0 in paths)
    && (forall i, j :: 0 <= i < j < |at| ==> at[i] < at[j])
    && (forall k :: 0 <= k < |b| && b[k].0 in paths ==> k in at)
  }

  lemma {:induction false} KeepSnoc(b: Bucket, paths: seq<string>, last: Instance)
    ensures Keep(b + [last], paths) == Keep(b, paths) + (if last.0 in paths then [last] else [])
  {
    if b != [] {
      assert (b + [last])[1..] == b[1..] + [last];
      KeepSnoc(b[1..], paths, last);
    }
  }

  lemma {:induction false} WithoutSnoc(b: Bucket, path: string, last: Instance)
    ensures Without(b + [last], path) == Without(b, path) + (if last.0 == path then [] else [last])
  {
    if b != [] {
      assert (b + [last])[1..] == b[1..] + [last];
      WithoutSnoc(b[1..], path, last);
    }
  }

  lemma SurvivorsSnoc(b: Bucket, paths: seq<string>, at: seq<nat>, last: Instance)
    requires Survivors(b, paths, at)
    ensures Survivors(b + [last], paths, at + if last.0 in paths then [|b|] else [])
  {
    var c, more := b + [last], at + if last.0 in paths then [|b|] else [];
    forall k | 0 <= k < |c| && c[k].0 in paths ensures k in more {
      if k < |b| {
        assert b[k] == c[k];
      } else {
        assert more[|at|] == |b|;
      }
    }
    assert forall i :: 0 <= i < |at| ==> more[i] == at[i] && c[at[i]] == b[at[i]];
  }

  /** A filter keeps exactly the chosen entries, with their data, in their order. */
  lemma {:induction false} KeepMeaning(b: Bucket, paths: seq<string>) returns (at: seq<nat>)
    ensures Survivors(b, paths, at)
    ensures |Keep(b, paths)| == |at| && forall i :: 0 <= i < |at| ==> Keep(b, paths)[i] == b[at[i]]
  {
    if b == [] {
      at := [];
    } else {
      var front, last := b[..|b| - 1], b[|b| - 1];
      at := KeepMeaning(front, paths);
      assert b == front + [last];
      KeepSnoc(front, paths, last);
      SurvivorsSnoc(front, paths, at, last);
      at := at + if last.0 in paths then [|front|] else [];
    }
  }

  /** Erasing a path is keeping all the others. */
  lemma {:induction false} WithoutIsKeep(b: Bucket, path: string, others: seq<string>)
    requires path !in others && forall i :: 0 <= i < |b| && b[i].0 != path ==> b[i].0 in others
    ensures Without(b, path) == Keep(b, others)
  {
    if b != [] {
      WithoutIsKeep(b[1..], path, others);
    }
  }

  // ---------- the cache ----------

  function BucketOf(c: Cache, service: string): Bucket {
    if service in c then c[service] else []
  }

  function Shrink(c: Cache, service: string, b: Bucket): Cache {
    if b == [] then c - {service} else c[service := b]
  }

  function CacheUpsert(c: Cache, path: string, data: string): Cache
    requires path != ""
  {
    c[ServiceOf(path) := Upsert(BucketOf(c, ServiceOf(path)), path, data)]
  }

  function CacheErase(c: Cache, path: string): Cache
    requires path != ""
  {
    var service := ServiceOf(path);
    if service in c then Shrink(c, service, Without(c[service], path)) else c
  }

  function CacheSweep(c: Cache, service: string, paths: seq<string>): Cache {
    if service in c then Shrink(c, service, Keep(c[service], paths)) else c
  }

  function CacheFind(c: Cache, path: string): Option<string>
    requires path != ""
  {
    Find(BucketOf(c, ServiceOf(path)), path)
  }

  function ChildPaths(service: string, children: seq<string>): seq<string> {
    seq(|children|, i requires 0 <= i < |children| => ChildPath(service, children[i]))
  }

  /** The bucket `DiscoverService` builds from a listing: children whose data cannot be read are
      left out. `data[i]` answers for `children[i]`. */
  function Fetched(service: string, children: seq<string>, data: seq<Option<string>>): Bucket
    requires |data| == |children|
  {
    if children == [] then []
    else
      (if data[0].Some? then [(ChildPath(service, children[0]), Cut(data[0].value))] else [])
      + Fetched(service, children[1..], data[1..])
  }

  lemma PrependFind(e: Instance, b: Bucket, p: string)
    ensures Find([e] + b, p) == if e.0 == p then Some(e.1) else Find(b, p)
  {
    assert ([e] + b)[1..] == b;
  }

  lemma {:induction false} WithoutFind(b: Bucket, path: string, p: string)
    ensures Find(Without(b, path), p) == if p == path then None else Find(b, p)
  {
    if b != [] {
      WithoutFind(b[1..], path, p);
      PrependFind(b[0], Without(b[1..], path), p);
      assert b[0].0 == path ==> Without(b, path) == Without(b[1..], path);
    }
  }

  lemma {:induction false} KeepFind(b: Bucket, paths: seq<string>, p: string)
    ensures Find(Keep(b, paths), p) == if p in paths then Find(b, p) else None
  {
    if b != [] {
      KeepFind(b[1..], paths, p);
      PrependFind(b[0], Keep(b[1..], paths), p);
      assert b[0].0 !in paths ==> Keep(b, paths) == Keep(b[1..], paths);
    }
  }

  /** Seen through lookups the cache is a map of paths: storing sets one path, erasing clears one
      path, and sweeping a service clears those of its paths that are not listed. */
  lemma CacheLookups(c: Cache, path: string, data: string, service: string, paths: seq<string>, p: string)
    requires path != "" && p != ""
    ensures CacheFind(CacheUpsert(c, path, data), p) == if p == path then Some(data) else CacheFind(c, p)
    ensures CacheFind(CacheErase(c, path), p) == if p == path then None else CacheFind(c, p)
    ensures CacheFind(CacheSweep(c, service, paths), p)
         == if ServiceOf(p) == service && p !in paths then None else CacheFind(c, p)
  {
    UpsertFind(BucketOf(c, ServiceOf(path)), path, data, p);
    WithoutFind(BucketOf(c, ServiceOf(path)), path, p);
    KeepFind(BucketOf(c, service), paths, p);
    hide ServiceOf, Find, Upsert;
    assert Without([], path) == [] && Keep([], paths) == [];
  }

  /** Storing makes a bucket for the service and touches no other. */
  lemma StoreMeaning(c: Cache, path: string, data: string)
    requires path != ""
    ensures var r := CacheUpsert(c, path, data);
      && r.Keys == c.Keys + {ServiceOf(path)} && r[ServiceOf(path)] != []
      && (forall x :: x in c && x != ServiceOf(path) ==> r[x] == c[x])
  {
    hide ServiceOf;
  }

  /** A service is still cached after one of its paths was erased exactly when an entry with another
      path is left; no empty bucket stays behind that would answer for the server. No other service
      is touched. */
  lemma EraseMeaning(c: Cache, path: string)
    requires path != ""
    ensures var r, x := CacheErase(c, path), ServiceOf(path);
      && (x in r <==> x in c && exists i :: 0 <= i < |c[x]| && c[x][i].0 != path)
      && (x in r ==> r[x] != [] && forall i :: 0 <= i < |r[x]| ==> r[x][i].0 != path)
      && (forall y :: y != x ==> (y in r <==> y in c) && (y in c ==> r[y] == c[y]))
  {
    hide ServiceOf;
    var x := ServiceOf(path);
    if x in c {
      WithoutLeft(c[x], path);
    }
  }

  lemma {:induction false} WithoutLeft(b: Bucket, path: string)
    ensures Without(b, path) != [] <==> exists i :: 0 <= i < |b| && b[i].0 != path
    ensures forall i :: 0 <= i < |Without(b, path)| ==> Without(b, path)[i].0 != path
  {
    if b != [] {
      WithoutLeft(b[1..], path);
      assert forall i :: 0 < i < |b| ==> b[i] == b[1..][i - 1];
    }
  }

  /** A service is still cached after a sweep of it exactly when one of its paths is listed. */
  lemma SweepMeaning(c: Cache, service: string, paths: seq<string>)
    ensures var r := CacheSweep(c, service, paths);
      && (service in r <==> service in c && exists i :: 0 <= i < |c[service]| && c[service][i].0 in paths)
      && (service in r ==> r[service] != [] && forall i :: 0 <= i < |r[service]| ==> r[service][i].0 in paths)
      && (forall y :: y != service ==> (y in r <==> y in c) && (y in c ==> r[y] == c[y]))
  {
    if service in c {
      KeepLeft(c[service], paths);
    }
  }

  lemma {:induction false} KeepLeft(b: Bucket, paths: seq<string>)
    ensures Keep(b, paths) != [] <==> exists i :: 0 <= i < |b| && b[i].0 in paths
    ensures forall i :: 0 <= i < |Keep(b, paths)| ==> Keep(b, paths)[i].0 in paths
  {
    if b != [] {
      KeepLeft(b[1..], paths);
      assert forall i :: 0 < i < |b| ==> b[i] == b[1..][i - 1];
    }
  }

  /** `at` lists, in increasing order, the children whose data could be read. */
  ghost predicate Reads(service: string, children: seq<string>, data: seq<Option<string>>, at: seq<nat>, r: Bucket)
    requires |data| == |children|
  {
    && |r| == |at|
    && (forall i :: 0 <= i < |at| ==>
          && at[i] < |children| && data[at[i]].Some?
          && r[i] == (ChildPath(service, children[at[i]]), Cut(data[at[i]].value)))
    && (forall i, j :: 0 <= i < j < |at| ==> at[i] < at[j])
    && (forall k :: 0 <= k < |children| && data[k].Some? ==> k in at)
  }

  lemma {:induction false} FetchedSnoc(service: string, children: seq<string>, data: seq<Option<string>>,
                                       child: string, d: Option<string>)
    requires |data| == |children|
    ensures Fetched(service, children + [child], data + [d])
         == Fetched(service, children, data) + if d.Some? then [(ChildPath(service, child), Cut(d.value))] else []
  {
    hide ChildPath, Cut;
    if children == [] {
      assert ([child][1..] == [] && [d][1..] == []);
    } else {
      assert (children + [child])[1..] == children[1..] + [child] && (data + [d])[1..] == data[1..] + [d];
      FetchedSnoc(service, children[1..], data[1..], child, d);
    }
  }

  lemma ReadsSnoc(service: string, children: seq<string>, data: seq<Option<string>>, at: seq<nat>, r: Bucket,
                  child: string, d: Option<string>)
    requires |data| == |children| && Reads(service, children, data, at, r)
    ensures d.Some? ==> Reads(service, children + [child], data + [d], at + [|children|],
                              r + [(ChildPath(service, child), Cut(d.value))])
    ensures d.None? ==> Reads(service, children + [child], data + [d], at, r)
  {
    hide ChildPath, Cut;
    var more := at + [|children|];
    assert more[|at|] == |children|;
    assert forall k :: k in at ==> k in more;
  }

  /** The bucket fetched holds the readable children, each once, in the order of the listing. */
  lemma {:induction false} FetchedMeaning(service: string, children: seq<string>, data: seq<Option<string>>)
    returns (at: seq<nat>)
    requires |data| == |children|
    ensures Reads(service, children, data, at, Fetched(service, children, data))
    decreases |children|
  {
    hide ChildPath, Cut;
    if children == [] {
      at := [];
    } else {
      var n := |children| - 1;
      at := FetchedMeaning(service, children[..n], data[..n]);
      assert children == children[..n] + [children[n]] && data == data[..n] + [data[n]];
      FetchedSnoc(service, children[..n], data[..n], children[n], data[n]);
      var front := Fetched(service, children[..n], data[..n]);
      ReadsSnoc(service, children[..n], data[..n], at, front, children[n], data[n]);
      if data[n].Some? {
        at := at + [n];
      }
    }
  }

  /** The whole sweep at once: each listed bucket is filtered, and dropped when nothing is left. */
  function Swept(c: Cache, listings: map<string, seq<string>>): Cache {
    map service | service in c
        && (service in listings ==> Keep(c[service], ChildPaths(service, listings[service])) != [])
      :: if service in listings then Keep(c[service], ChildPaths(service, listings[service])) else c[service]
  }

  lemma SweptStep(c: Cache, done: map<string, seq<string>>, service: string, listing: seq<string>)
    requires service in c && service !in done
    ensures Swept(c, done[service := listing]) == CacheSweep(Swept(c, done), service, ChildPaths(service, listing))
  {
  }

  lemma SweptNothing(c: Cache)
    ensures Swept(c, map[]) == c
  {
  }

  lemma SweptAgree(c: Cache, a: map<string, seq<string>>, b: map<string, seq<string>>)
    requires forall x :: x in c ==> (x in a <==> x in b) && (x in a ==> a[x] == b[x])
    ensures Swept(c, a) == Swept(c, b)
  {
  }

  // ---------- the client object ----------

  datatype EventKind = Created | Changed | Deleted | Child

  datatype SessionState = Connected | Expired | Connecting | Other

  datatype Presence = Present | Absent | Unknown

  class ZookeeperClient {
    var serviceCache: Cache
    var watchers: map<string, Token>
    var isConnected: bool
    var started: bool

    constructor ()
      ensures serviceCache == map[] && watchers == map[] && !isConnected && !started
    {
      serviceCache, watchers, isConnected, started := map[], map[], false, false;
    }

    static method FindIf(b: Bucket, path: string) returns (at: nat)
      ensures at <= |b| && (at < |b| ==> b[at].0 == path) && forall i :: 0 <= i < at ==> b[i].0 != path
    {
      at := 0;
      while at < |b| && b[at].0 != path
        invariant at <= |b| && forall i :: 0 <= i < at ==> b[i].0 != path
      {
        at := at + 1;
      }
    }

    static lemma {:induction false} UpsertAt(b: Bucket, path: string, data: string, at: nat)
      requires at <= |b| && (at < |b| ==> b[at].0 == path) && forall i :: 0 <= i < at ==> b[i].0 != path
      ensures Upsert(b, path, data) == if at < |b| then b[at := (path, data)] else b + [(path, data)]
      ensures Find(b, path) == if at < |b| then Some(b[at].1) else None
    {
      if at > 0 {
        UpsertAt(b[1..], path, data, at - 1);
      }
    }

    /** The locked block that ends `Register`, `Discover` and a data event. */
    method StoreInstance(path: string, data: string)
      requires path != ""
      modifies this`serviceCache
      ensures serviceCache == CacheUpsert(old(serviceCache), path, data)
    {
      var service := ServiceOf(path);
      var instances := if service in serviceCache then serviceCache[service] else [];
      var at := FindIf(instances, path);
      UpsertAt(instances, path, data, at);
      if at < |instances| {
        instances := instances[at := (path, data)];
      } else {
        instances := instances + [(path, data)];
      }
      serviceCache := serviceCache[service := instances];
    }

    /** `erase(remove_if(...))` for one path. */
    static method RemovePath(b: Bucket, path: string) returns (rest: Bucket)
      ensures rest == Without(b, path)
    {
      rest := [];
      assert Without(b[..0], path) == [];
      hide Without;
      for i := 0 to |b|
        invariant rest == Without(b[..i], path)
      {
        WithoutSnoc(b[..i], path, b[i]);
        assert b[..i + 1] == b[..i] + [b[i]];
        if b[i].0 != path {
          rest := rest + [b[i]];
        }
      }
      assert b[..|b|] == b;
    }

    /** `erase(remove_if(...))` for the paths that are not listed any more. */
    static method RemoveUnlisted(b: Bucket, currentPaths: seq<string>) returns (rest: Bucket)
      ensures rest == Keep(b, currentPaths)
    {
      rest := [];
      assert Keep(b[..0], currentPaths) == [];
      hide Keep;
      for i := 0 to |b|
        invariant rest == Keep(b[..i], currentPaths)
      {
        KeepSnoc(b[..i], currentPaths, b[i]);
        assert b[..i + 1] == b[..i] + [b[i]];
        if b[i].0 in currentPaths {
          rest := rest + [b[i]];
        }
      }
      assert b[..|b|] == b;
    }

    /** The locked block of `Delete` and of a delete event. */
    method EraseInstance(path: string)
      requires path != ""
      modifies this`serviceCache, this`watchers
      ensures serviceCache == CacheErase(old(serviceCache), path)
      ensures watchers == old(watchers) - {path}
    {
      var service := ServiceOf(path);
      if service in serviceCache {
        var instances := serviceCache[service];
        instances := RemovePath(instances, path);
        serviceCache := serviceCache[service := instances];
        if instances == [] {
          serviceCache := serviceCache - {service};
          assert serviceCache == old(serviceCache) - {service};
        }
      }
      watchers := watchers - {path};
    }

    /** `GetNodeData`; `reply` is None when the read fails or the node has null data. */
    method GetNodeData(reply: Option<string>) returns (data: Option<string>)
      ensures data == if isConnected && started && reply.Some? then Some(Cut(reply.value)) else None
    {
      if !isConnected || !started || reply.None? {
        return None;
      }
      return Some(Cut(reply.value));
    }

    /** `Register`. The answers are whether the parent could be made, whether the node is seen, and
        whether it could be written. */
    method Register(path: string, data: string, parentMade: bool, seen: bool, updated: bool, created: bool)
      returns (ok: bool)
      requires path != ""
      modifies this`serviceCache
      ensures ok <==>
        isConnected && started && (parentMade || AfterLast(path, '/') <= 1) && (if seen then updated else created)
      ensures serviceCache == if ok then CacheUpsert(old(serviceCache), path, data) else old(serviceCache)
    {
      if !isConnected || !started {
        return false;
      }
      var afterSlash := AfterLast(path, '/');
      if afterSlash > 0 {
        var parent := path[..afterSlash - 1];
        if parent != "" && !parentMade {
          return false;
        }
      }
      if seen {
        if !updated {
          return false;
        }
      } else {
        if !created {
          return false;
        }
      }
      StoreInstance(path, data);
      return true;
    }

    /** `Discover`: a cached answer, or one fresh from the server that is then cached. */
    method Discover(path: string, reply: Option<string>) returns (data: Option<string>)
      requires path != ""
      modifies this`serviceCache
      ensures var hit := CacheFind(old(serviceCache), path);
        if hit.Some? then data == hit && serviceCache == old(serviceCache)
        else if isConnected && started && reply.Some? then
          && data == Some(Cut(reply.value)) && serviceCache == CacheUpsert(old(serviceCache), path, Cut(reply.value))
          && CacheFind(serviceCache, path) == data
        else data == None && serviceCache == old(serviceCache)
    {
      var service := ServiceOf(path);
      if service in serviceCache {
        var instances := serviceCache[service];
        var at := FindIf(instances, path);
        UpsertAt(instances, path, "", at);
        if at < |instances| {
          return Some(instances[at].1);
        }
      }
      data := GetNodeData(reply);
      if data.None? {
        return None;
      }
      UpsertFind(BucketOf(serviceCache, service), path, data.value, path);
      StoreInstance(path, data.value);
    }

    /** `DiscoverService`: any cached bucket counts as the answer, even an empty or partial one. */
    method DiscoverService(service: string, listing: Option<seq<string>>, replies: seq<Option<string>>)
      returns (result: Option<Bucket>)
      requires listing.Some? ==> |replies| == |listing.value|
      modifies this`serviceCache
      ensures if service in old(serviceCache) then
          result == Some(old(serviceCache)[service]) && serviceCache == old(serviceCache)
        else if listing.None? then result == None && serviceCache == old(serviceCache)
        else
          && result == Some(Fetched(service, listing.value,
               if isConnected && started then replies else seq(|replies|, _ => None)))
          && serviceCache == old(serviceCache)[service := result.value]
    {
      if service in serviceCache {
        return Some(serviceCache[service]);
      }
      if listing.None? {
        return None;
      }
      var instances := FetchAll(service, listing.value, replies);
      serviceCache := serviceCache[service := instances];
      return Some(instances);
    }

    /** The loop of `DiscoverService` over the children. */
    method FetchAll(service: string, children: seq<string>, replies: seq<Option<string>>) returns (instances: Bucket)
      requires |replies| == |children|
      ensures instances == Fetched(service, children,
        if isConnected && started then replies else seq(|replies|, _ => None))
    {
      hide Cut, ChildPath;
      ghost var answers := if isConnected && started then replies else seq(|replies|, _ => None);
      instances := [];
      for i := 0 to |children|
        invariant instances + Fetched(service, children[i..], answers[i..]) == Fetched(service, children, answers)
      {
        var data := GetNodeData(replies[i]);
        assert answers[i..][0] == answers[i] && children[i..][0] == children[i];
        assert children[i..][1..] == children[i + 1..] && answers[i..][1..] == answers[i + 1..];
        if data.Some? {
          instances := instances + [(ChildPath(service, children[i]), data.value)];
        }
      }
      assert children[|children|..] == [];
    }

    /** `FindInstancesByMethod`. */
    method FindInstancesByMethod(service: string, name: string,
                                 listing: Option<seq<string>>, replies: seq<Option<string>>)
      returns (matching: Option<seq<string>>)
      requires listing.Some? ==> |replies| == |listing.value|
      modifies this`serviceCache
      ensures matching.Some? <==> service in serviceCache
      ensures matching.Some? ==> matching.value == MatchingAddresses(serviceCache[service], name)
      ensures matching.Some? ==> exists at :: Picks(serviceCache[service], name, at, matching.value)
    {
      var instances := DiscoverService(service, listing, replies);
      if instances.None? {
        return None;
      }
      var addresses := CollectMatching(instances.value, name);
      return Some(addresses);
    }

    method Delete(path: string, presence: Presence, removed: bool) returns (ok: bool)
      requires path != ""
      modifies this`serviceCache, this`watchers
      ensures ok <==> started && (presence.Absent? || (presence.Present? && removed))
      ensures if started && presence.Present? && removed then
          serviceCache == CacheErase(old(serviceCache), path) && watchers == old(watchers) - {path}
        else serviceCache == old(serviceCache) && watchers == old(watchers)
    {
      if !started {
        return false;
      }
      if presence.Absent? {
        return true;
      }
      if !presence.Present? {
        return false;
      }
      if !removed {
        return false;
      }
      EraseInstance(path);
      return true;
    }

    /** `Watch`: the callback is stored even when arming the server-side watch then fails. */
    method Watch(path: string, token: Token, armed: bool) returns (ok: bool)
      modifies this`watchers
      ensures ok <==> isConnected && started && armed
      ensures watchers == if isConnected && started then old(watchers)[path := token] else old(watchers)
    {
      if !isConnected || !started {
        return false;
      }
      watchers := watchers[path := token];
      return armed;
    }

    /** The locked block of one service within a sweep. */
    method FilterBucket(service: string, currentPaths: seq<string>)
      modifies this`serviceCache
      ensures serviceCache == CacheSweep(old(serviceCache), service, currentPaths)
    {
      if service in serviceCache {
        var instances := serviceCache[service];
        instances := RemoveUnlisted(instances, currentPaths);
        serviceCache := serviceCache[service := instances];
        if instances == [] {
          serviceCache := serviceCache - {service};
          assert serviceCache == old(serviceCache) - {service};
        }
      }
    }

    /** One round of `Heartbeat`; services without a listing are those whose listing failed. Each
        bucket is handled once, and the result does not depend on the order. */
    method Heartbeat(listings: map<string, seq<string>>)
      modifies this`serviceCache
      ensures serviceCache == if isConnected && started then Swept(old(serviceCache), listings) else old(serviceCache)
    {
      if !isConnected || !started {
        return;
      }
      var services := serviceCache.Keys;
      ghost var before := serviceCache;
      ghost var done: map<string, seq<string>> := map[];
      SweptNothing(before);
      hide Swept, CacheSweep, ChildPaths;
      while services != {}
        invariant services <= before.Keys
        invariant done == map s | s in before.Keys - services && s in listings :: listings[s]
        invariant serviceCache == Swept(before, done)
        decreases services
      {
        var service :| service in services;
        services := services - {service};
        ghost var done' := map s | s in before.Keys - services && s in listings :: listings[s];
        if service in listings {
          var currentPaths := ChildPaths(service, listings[service]);
          SweptStep(before, done, service, listings[service]);
          FilterBucket(service, currentPaths);
          assert done' == done[service := listings[service]];
        } else {
          assert done' == done;
        }
        done := done';
      }
      SweptAgree(before, done, listings);
    }

    /** `WatcherCallback` for a session event. */
    method SessionEvent(state: SessionState)
      modifies this`serviceCache, this`isConnected
      ensures isConnected == (if state.Other? then old(isConnected) else state.Connected?)
      ensures serviceCache == if state.Expired? then map[] else old(serviceCache)
    {
      match state {
        case Connected =>
          isConnected := true;
        case Expired =>
          isConnected := false;
          serviceCache := map[];
        case Connecting =>
          isConnected := false;
        case Other =>
      }
    }

    /** `WatcherCallback` for a node event; `notice` is the call made on the stored callback. */
    method NodeEvent(kind: EventKind, path: string, reply: Option<string>) returns (notice: Option<(Token, string)>)
      requires path != ""
      modifies this`serviceCache, this`watchers
      ensures if path !in old(watchers) then
          notice == None && serviceCache == old(serviceCache) && watchers == old(watchers)
        else match kind {
          case Deleted =>
            && notice == Some((old(watchers)[path], ""))
            && serviceCache == CacheErase(old(serviceCache), path) && watchers == old(watchers) - {path}
          case Child =>
            notice == None && serviceCache == old(serviceCache) - {ServiceOf(path)} && watchers == old(watchers)
          case _ =>
            && watchers == old(watchers)
            && if isConnected && started && reply.Some? then
                 && notice == Some((old(watchers)[path], Cut(reply.value)))
                 && serviceCache == CacheUpsert(old(serviceCache), path, Cut(reply.value))
               else notice == None && serviceCache == old(serviceCache)
        }
    {
      notice := None;
      if path !in watchers {
        return;
      }
      var callback := watchers[path];
      match kind {
        case Deleted =>
          EraseInstance(path);
          notice := Some((callback, ""));
        case Child =>
          serviceCache := serviceCache - {ServiceOf(path)};
        case _ =>
          var data := GetNodeData(reply);
          if data.Some? {
            StoreInstance(path, data.value);
            notice := Some((callback, data.value));
          }
      }
    }
  }

  /** Deleting the last cached instance of a service makes the next `DiscoverService` ask the server;
      as long as another one is cached, the others are the answer. */
  method DeleteThenDiscover(client: ZookeeperClient, path: string, listing: Option<seq<string>>,
                            replies: seq<Option<string>>)
    returns (answer: Option<Bucket>)
    requires path != "" && client.started && ServiceOf(path) in client.serviceCache
    requires listing.Some? ==> |replies| == |listing.value|
    modifies client`serviceCache, client`watchers
    ensures var cached := old(client.serviceCache)[ServiceOf(path)];
      if forall i :: 0 <= i < |cached| ==> cached[i].0 == path then
        answer == match listing
          case None => None
          case Some(children) => Some(Fetched(ServiceOf(path), children,
            if client.isConnected then replies else seq(|replies|, _ => None)))
      else answer == Some(Without(cached, path))
  {
    EraseMeaning(client.serviceCache, path);
    var ok := client.Delete(path, Present, true);
    hide Fetched, ServiceOf;
    answer := client.DiscoverService(ServiceOf(path), listing, replies);
  }
}
