/** The text that links server, registry and channel: node paths, the `methods=` list a server
    publishes, the substring test a client runs on it, and the `ip:port` address. */
module Naming {
  import opened Common

  // ---------- std::string searches ----------

  function FindFrom(s: string, c: char, from: nat): (r: Option<nat>)
    ensures r.Some? ==> from <= r.value < |s| && s[r.value] == c && c !in s[from..r.value]
    ensures r.None? && from <= |s| ==> c !in s[from..]
    decreases |s| - from
  {
    if from >= |s| then None
    else if s[from] == c then Some(from)
    else
      var r := FindFrom(s, c, from + 1);
      assert s[from..] == [s[from]] + s[from + 1..];
      assert r.Some? ==> s[from..r.value] == [s[from]] + s[from + 1..r.value];
      r
  }

  /** One past the last occurrence, and 0 when there is none: `rfind(c) + 1`. */
  function AfterLast(s: string, c: char): (r: nat)
    ensures r <= |s| && c !in s[r..] && (r > 0 ==> s[r - 1] == c)
  {
    if s == "" then 0
    else if s[|s| - 1] == c then |s|
    else
      var r := AfterLast(s[..|s| - 1], c);
      assert s[r..] == s[..|s| - 1][r..] + [s[|s| - 1]];
      r
  }

  /** Where a character is found first, and last, is fixed by what surrounds it. */
  lemma {:induction false} FirstIs(s: string, c: char, from: nat, at: nat)
    requires from <= at < |s| && s[at] == c && c !in s[from..at]
    ensures FindFrom(s, c, from) == Some(at)
    decreases at - from
  {
    if from < at {
      assert s[from] == s[from..at][0];
      assert s[from + 1..at] == s[from..at][1..];
      FirstIs(s, c, from + 1, at);
    }
  }

  lemma {:induction false} LastIs(s: string, c: char, after: nat)
    requires after <= |s| && c !in s[after..] && (after > 0 ==> s[after - 1] == c)
    ensures AfterLast(s, c) == after
  {
    if after < |s| {
      assert s[|s| - 1] == s[after..][|s| - 1 - after];
      assert s[..|s| - 1][after..] == s[after..][..|s| - 1 - after];
      LastIs(s[..|s| - 1], c, after);
    }
  }

  predicate At(s: string, i: nat, sub: string) {
    i + |sub| <= |s| && s[i..i + |sub|] == sub
  }

  /** `s.find(sub) != npos`. */
  predicate Contains(s: string, sub: string) {
    exists i: nat | i <= |s| :: At(s, i, sub)
  }

  // ---------- paths ----------

  /** `path.substr(1, path.find('/', 1) - 1)`: the cache bucket a path belongs to. */
  function ServiceOf(path: string): (service: string)
    requires path != ""
    ensures '/' !in service
  {
    match FindFrom(path, '/', 1)
    case Some(end) => path[1..end]
    case None => path[1..]
  }

  /** `path.substr(path.rfind('/') + 1)`: what `FindInstancesByMethod` returns of a path. */
  function Suffix(path: string): string {
    path[AfterLast(path, '/')..]
  }

  /** The bucket of any path, whatever its first character: up to the next slash, or all the rest. */
  lemma ServiceOfMeaning(path: string)
    requires path != ""
    ensures var rest := path[1..]; var x := ServiceOf(path);
      if '/' in rest then x + "/" <= rest else x == rest
  {
    var rest := path[1..];
    match FindFrom(path, '/', 1) {
      case Some(end) =>
        assert path[end] == '/' && rest[..end - 1] == path[1..end] && rest[end - 1] == '/';
      case None =>
    }
  }

  /** A path without a slash is its own last component. */
  lemma SuffixMeaning(path: string)
    ensures '/' !in Suffix(path)
    ensures if '/' in path then exists i :: 0 <= i < |path| && path[i] == '/' && Suffix(path) == path[i + 1..]
            else Suffix(path) == path
  {
    var after := AfterLast(path, '/');
    if after > 0 {
      assert path[after - 1] == '/' && Suffix(path) == path[after - 1 + 1..];
    } else {
      assert path[0..] == path;
    }
  }

  function ChildPath(service: string, child: string): string {
    "/" + service + "/" + child
  }

  /** An instance path is keyed by its service exactly when the service name has no slash. */
  lemma ChildPathBucket(service: string, child: string)
    ensures ServiceOf(ChildPath(service, child)) == service <==> '/' !in service
  {
    if '/' in service {
      return;
    }
    var path := ChildPath(service, child);
    assert path[1..1 + |service|] == service;
    FirstIs(path, '/', 1, 1 + |service|);
  }

  lemma ChildPathSuffix(service: string, child: string)
    requires '/' !in child
    ensures Suffix(ChildPath(service, child)) == child
  {
    var path := ChildPath(service, child);
    assert path[|service| + 2..] == child;
    LastIs(path, '/', |service| + 2);
  }

  lemma ChildPathInjective(service: string, a: string, b: string)
    requires ChildPath(service, a) == ChildPath(service, b)
    ensures a == b
  {
    assert ChildPath(service, a)[|service| + 2..] == a;
    assert ChildPath(service, b)[|service| + 2..] == b;
  }

  // ---------- the published method list ----------

  predicate IsIdentifierChar(c: char) {
    'a' <= c <= 'z' || 'A' <= c <= 'Z' || '0' <= c <= '9' || c == '_'
  }

  predicate IsIdentifier(s: string) {
    s != "" && forall i :: 0 <= i < |s| ==> IsIdentifierChar(s[i])
  }

  function Join(names: seq<string>): string {
    if names == [] then ""
    else if |names| == 1 then names[0]
    else names[0] + "," + Join(names[1..])
  }

  const METHODS := "methods="

  function MethodsData(names: seq<string>): string {
    METHODS + Join(names)
  }

  /** The loop of `RegisterService` that writes the node data behind `methods=`. */
  method BuildData(prefix: string, names: seq<string>) returns (data: string)
    ensures data == prefix + Join(names)
  {
    data := prefix;
    assert Join(names[..0]) == "" && prefix + "" == prefix;
    hide Join;
    for i := 0 to |names|
      invariant data == prefix + Join(names[..i])
    {
      if i > 0 {
        data := data + ",";
      }
      data := data + names[i];
      JoinSnoc(names[..i], names[i]);
      assert names[..i + 1] == names[..i] + [names[i]];
      Append3(prefix, Join(names[..i]), ",", names[i]);
    }
    assert names[..|names|] == names;
  }

  lemma Append3(a: string, b: string, c: string, d: string)
    ensures ((a + b) + c) + d == a + (b + c + d)
  {
  }

  lemma {:induction false} JoinSnoc(names: seq<string>, last: string)
    ensures Join(names + [last]) == if names == [] then last else Join(names) + "," + last
  {
    if names == [] {
    } else {
      assert (names + [last])[1..] == names[1..] + [last];
      JoinSnoc(names[1..], last);
    }
  }

  /** Where the k-th name begins in the data. */
  function NameStart(names: seq<string>, k: nat): int
    requires k <= |names|
  {
    |MethodsData(names)| - |Join(names[k..])|
  }

  const BUFFER_SIZE: nat := 512

  /** What `GetNodeData` keeps of a node's data. */
  function Cut(data: string): string {
    if |data| <= BUFFER_SIZE then data else data[..BUFFER_SIZE]
  }

  /** At most 512 characters are kept, from the front. */
  lemma CutMeaning(data: string)
    ensures Cut(data) <= data && |Cut(data)| == if |data| < 512 then |data| else 512
  {
  }

  /** The test `FindInstancesByMethod` runs on the data of one instance. */
  predicate Matches(data: string, name: string) {
    || Contains(data, METHODS + name)
    || Contains(data, METHODS + name + ",")
    || Contains(data, "," + name)
  }

  lemma {:induction false} JoinChars(names: seq<string>)
    requires forall i :: 0 <= i < |names| ==> IsIdentifier(names[i])
    ensures forall i :: 0 <= i < |Join(names)| ==> Join(names)[i] != '='
  {
    if |names| > 1 {
      JoinChars(names[1..]);
    }
  }

  /** An identifier at the front of a joined list is the front of its first name. */
  lemma FrontOfJoin(names: seq<string>, name: string)
    requires IsIdentifier(name) && name <= Join(names)
    ensures names != [] && name <= names[0]
  {
    if |names| > 1 {
      assert Join(names)[|names[0]|] == ',';
      assert |name| <= |names[0]|;
      assert names[0] == Join(names)[..|names[0]|];
    }
  }

  /** Every comma of a joined list stands right before one of its names. */
  lemma {:induction false} CommaStartsName(names: seq<string>, j: nat) returns (k: nat)
    requires forall i :: 0 <= i < |names| ==> IsIdentifier(names[i])
    requires j < |Join(names)| && Join(names)[j] == ','
    ensures 0 < k < |names| && Join(names)[j + 1..] == Join(names[k..])
  {
    if |names| == 1 || j < |names[0]| {
      assert false;
    } else if j == |names[0]| {
      k := 1;
    } else {
      var tail := names[1..];
      var skip := |names[0]| + 1;
      assert Join(names)[skip..] == Join(tail);
      var k' := CommaStartsName(tail, j - skip);
      k := k' + 1;
      assert tail[k'..] == names[k..];
      assert Join(names)[j + 1..] == Join(tail)[j - skip + 1..];
    }
  }

  lemma {:induction false} NameInJoin(names: seq<string>, k: nat) returns (j: nat)
    requires k < |names|
    ensures j + |names[k]| <= |Join(names)| && Join(names)[j..j + |names[k]|] == names[k]
    ensures k == 0 ==> j == 0
    ensures k > 0 ==> j > 0 && Join(names)[j - 1] == ','
    ensures |METHODS| + j == NameStart(names, k) && |names[k]| <= |Join(names[k..])|
  {
    if k == 0 {
      j := 0;
      assert names[0..] == names;
    } else {
      assert names[1..][k - 1..] == names[k..];
      var j' := NameInJoin(names[1..], k - 1);
      j := j' + |names[0]| + 1;
      assert Join(names)[|names[0]| + 1..] == Join(names[1..]);
      assert Join(names)[j..j + |names[k]|] == Join(names[1..])[j'..j' + |names[k]|];
    }
  }

  /** A match right after `methods=` can only be at the front of the data: no name holds a '='. */
  lemma MatchAtFront(names: seq<string>, name: string, i: nat)
    requires forall i :: 0 <= i < |names| ==> IsIdentifier(names[i])
    requires IsIdentifier(name) && At(MethodsData(names), i, METHODS + name)
    ensures i == 0 && names != [] && name <= names[0] && NameStart(names, 0) == |METHODS|
  {
    var data := MethodsData(names);
    assert data[i + 7] == (METHODS + name)[7];
    JoinChars(names);
    assert i == 0;
    assert name == data[..|METHODS + name|][|METHODS|..] == Join(names)[..|name|];
    FrontOfJoin(names, name);
    assert names[0..] == names;
  }

  lemma MatchAtComma(names: seq<string>, name: string, i: nat) returns (k: nat)
    requires forall i :: 0 <= i < |names| ==> IsIdentifier(names[i])
    requires IsIdentifier(name) && At(MethodsData(names), i, "," + name)
    ensures 0 < k < |names| && name <= names[k] && NameStart(names, k) == i + 1
  {
    var data := MethodsData(names);
    assert data[i] == ("," + name)[0];
    assert i >= |METHODS|;
    var j := i - |METHODS|;
    k := CommaStartsName(names, j);
    assert name == data[i..i + |"," + name|][1..] == Join(names)[j + 1..][..|name|];
    FrontOfJoin(names[k..], name);
  }

  lemma AtCut(data: string, cut: nat, i: nat, sub: string)
    requires cut <= |data|
    ensures At(data[..cut], i, sub) <==> At(data, i, sub) && i + |sub| <= cut
  {
    if i + |sub| <= cut {
      assert data[..cut][i..i + |sub|] == data[i..i + |sub|];
    }
  }

  lemma AtFrontOf(data: string, i: nat, sub: string, more: string)
    requires At(data, i, sub + more)
    ensures At(data, i, sub)
  {
    assert data[i..i + |sub|] == data[i..i + |sub + more|][..|sub|];
  }

  /** Some registered name begins with the name asked for, early enough to be read. */
  ghost predicate Visible(names: seq<string>, name: string, cut: nat) {
    exists k :: 0 <= k < |names| && name <= names[k] && NameStart(names, k) + |name| <= cut
  }

  lemma NameIsMatched(names: seq<string>, name: string, k: nat, cut: nat)
    requires k < |names| && name <= names[k]
    requires NameStart(names, k) + |name| <= cut <= |MethodsData(names)|
    ensures Matches(MethodsData(names)[..cut], name)
  {
    var data := MethodsData(names);
    var j := NameInJoin(names, k);
    assert Join(names)[j..j + |name|] == Join(names)[j..j + |names[k]|][..|name|];
    if k == 0 {
      assert At(data, 0, METHODS + name);
      AtCut(data, cut, 0, METHODS + name);
    } else {
      assert At(data, |METHODS| + j - 1, "," + name);
      AtCut(data, cut, |METHODS| + j - 1, "," + name);
    }
  }

  lemma MatchIsVisible(names: seq<string>, name: string, cut: nat)
    requires forall i :: 0 <= i < |names| ==> IsIdentifier(names[i])
    requires IsIdentifier(name) && cut <= |MethodsData(names)| && Matches(MethodsData(names)[..cut], name)
    ensures Visible(names, name, cut)
  {
    var data := MethodsData(names);
    var front, comma := METHODS + name, "," + name;
    if Contains(data[..cut], comma) {
      var i: nat :| At(data[..cut], i, comma);
      AtCut(data, cut, i, comma);
      var k := MatchAtComma(names, name, i);
    } else {
      var i: nat;
      if Contains(data[..cut], front) {
        i :| At(data[..cut], i, front);
      } else {
        i :| At(data[..cut], i, front + ",");
        AtFrontOf(data[..cut], i, front, ",");
      }
      AtCut(data, cut, i, front);
      MatchAtFront(names, name, i);
    }
  }

  /** On the first `cut` characters of what a server published, the test accepts the instance
      exactly when the name asked for is the front of a registered name and ends before the cut. */
  lemma MatchesCutExactly(names: seq<string>, name: string, cut: nat)
    requires forall i :: 0 <= i < |names| ==> IsIdentifier(names[i])
    requires IsIdentifier(name) && cut <= |MethodsData(names)|
    ensures Matches(MethodsData(names)[..cut], name) <==> Visible(names, name, cut)
  {
    hide Matches, MethodsData;
    if Matches(MethodsData(names)[..cut], name) {
      MatchIsVisible(names, name, cut);
    }
    if Visible(names, name, cut) {
      var k :| 0 <= k < |names| && name <= names[k] && NameStart(names, k) + |name| <= cut;
      NameIsMatched(names, name, k, cut);
    }
  }

  /** A whole list is accepted exactly when the name asked for is the front of some registered
      name. */
  lemma MatchesExactly(names: seq<string>, name: string)
    requires forall i :: 0 <= i < |names| ==> IsIdentifier(names[i])
    requires IsIdentifier(name)
    ensures Matches(MethodsData(names), name) <==> exists k :: 0 <= k < |names| && name <= names[k]
  {
    var data := MethodsData(names);
    assert data[..|data|] == data;
    MatchesCutExactly(names, name, |data|);
    forall k | 0 <= k < |names| && name <= names[k] ensures NameStart(names, k) + |name| <= |data| {
      var j := NameInJoin(names, k);
    }
  }

  /** So a client that reads what a server published finds it exactly under those names. */
  lemma FoundExactlyWhen(names: seq<string>, name: string)
    requires forall i :: 0 <= i < |names| ==> IsIdentifier(names[i])
    requires IsIdentifier(name)
    ensures Matches(Cut(MethodsData(names)), name) <==> Visible(names, name, BUFFER_SIZE)
  {
    var data := MethodsData(names);
    var cut := if |data| <= BUFFER_SIZE then |data| else BUFFER_SIZE;
    assert Cut(data) == data[..cut];
    hide Matches, MethodsData, Cut;
    MatchesCutExactly(names, name, cut);
    forall k | 0 <= k < |names| && name <= names[k] ensures NameStart(names, k) + |name| <= |data| {
      var j := NameInJoin(names, k);
    }
  }

  lemma EqualOrProper(a: string, b: string)
    requires a <= b
    ensures a == b || a < b
  {
    if |a| == |b| {
      assert a == b;
    }
  }

  /** So the test tells a registered name from any other exactly when: a registered name, or one
      that extends it, ends before the cut; or, the name not being registered, no registered name
      that properly extends it shows that much of itself. */
  lemma MatchesExactName(names: seq<string>, name: string, cut: nat)
    requires forall i :: 0 <= i < |names| ==> IsIdentifier(names[i])
    requires IsIdentifier(name) && cut <= |MethodsData(names)|
    ensures (Matches(MethodsData(names)[..cut], name) <==> name in names)
       <==> if name in names then Visible(names, name, cut)
            else forall k :: 0 <= k < |names| && name < names[k] ==> NameStart(names, k) + |name| > cut
  {
    hide Matches, MethodsData;
    MatchesCutExactly(names, name, cut);
    if name !in names {
      forall k | 0 <= k < |names| && name <= names[k] ensures names[k] in names && name < names[k] {
        EqualOrProper(name, names[k]);
      }
    }
  }

  /** A registered name that extends the one asked for is accepted in its place. */
  lemma LongerNameIsAccepted()
    ensures Matches(MethodsData(["LoginWithToken"]), "Login") && "Login" !in ["LoginWithToken"]
  {
    assert "Login" <= ["LoginWithToken"][0];
    MatchesExactly(["LoginWithToken"], "Login");
  }

  /** On any data, what is cut off can make the test miss a name but never invent one. */
  lemma CutDataStaysSound(data: string, cut: nat, name: string)
    requires cut <= |data| && Matches(data[..cut], name)
    ensures Matches(data, name)
  {
    forall sub | Contains(data[..cut], sub) ensures Contains(data, sub) {
      var i: nat :| At(data[..cut], i, sub);
      AtCut(data, cut, i, sub);
      assert At(data, i, sub);
    }
  }

  const LONG_NAMES: seq<string> := [seq(600, _ => 'a'), "b"]

  /** A method that is registered behind a long name is not found by a client that reads 512 bytes
      of the list. */
  lemma LateNameIsMissed()
    ensures forall i :: 0 <= i < |LONG_NAMES| ==> IsIdentifier(LONG_NAMES[i])
    ensures IsIdentifier("b") && "b" in LONG_NAMES && Matches(MethodsData(LONG_NAMES), "b")
    ensures !Matches(Cut(MethodsData(LONG_NAMES)), "b")
  {
    var names := LONG_NAMES;
    assert names[1] == "b" && names[1..] == ["b"];
    assert Join(names) == names[0] + "," + Join(["b"]) == names[0] + ",b";
    assert names[0][0] == 'a' && "b"[0] == 'b';
    assert "b" <= names[1];
    MatchesExactly(names, "b");
    assert NameStart(names, 1) == 609;
    MatchesCutExactly(names, "b", BUFFER_SIZE);
  }

  // ---------- choosing instances ----------

  type Instance = (string, string)

  /** The addresses of the matching instances, in bucket order. */
  function MatchingAddresses(instances: seq<Instance>, name: string): seq<string> {
    if instances == [] then []
    else
      (if Matches(instances[0].1, name) then [Suffix(instances[0].0)] else [])
      + MatchingAddresses(instances[1..], name)
  }

  /** `at` lists, in increasing order, the places of the instances whose data matches, and `r` their
      addresses. */
  ghost predicate Picks(instances: seq<Instance>, name: string, at: seq<nat>, r: seq<string>) {
    && |r| == |at|
    && (forall i :: 0 <= i < |at| ==>
          at[i] < |instances| && Matches(instances[at[i]].1, name) && r[i] == Suffix(instances[at[i]].0))
    && (forall i, j :: 0 <= i < j < |at| ==> at[i] < at[j])
    && (forall k :: 0 <= k < |instances| && Matches(instances[k].1, name) ==> k in at)
  }

  lemma {:induction false} MatchingSnoc(instances: seq<Instance>, name: string, last: Instance)
    ensures MatchingAddresses(instances + [last], name)
         == MatchingAddresses(instances, name) + if Matches(last.1, name) then [Suffix(last.0)] else []
  {
    hide Matches, Suffix;
    if instances == [] {
      assert [last][1..] == [] && [] + [last] == [last];
    } else {
      assert (instances + [last])[1..] == instances[1..] + [last];
      MatchingSnoc(instances[1..], name, last);
    }
  }

  lemma PicksSnoc(instances: seq<Instance>, name: string, last: Instance, at: seq<nat>, r: seq<string>)
    requires Picks(instances, name, at, r)
    ensures Matches(last.1, name) ==> Picks(instances + [last], name, at + [|instances|], r + [Suffix(last.0)])
    ensures !Matches(last.1, name) ==> Picks(instances + [last], name, at, r)
  {
    hide Matches, Suffix;
    var more := at + [|instances|];
    assert more[|at|] == |instances|;
    assert forall k :: k in at ==> k in more;
  }

  /** Every matching instance is chosen, none twice, in bucket order. */
  lemma {:induction false} MatchingMeaning(instances: seq<Instance>, name: string) returns (at: seq<nat>)
    ensures Picks(instances, name, at, MatchingAddresses(instances, name))
  {
    hide Matches, Suffix;
    if instances == [] {
      at := [];
    } else {
      var front, last := instances[..|instances| - 1], instances[|instances| - 1];
      assert instances == front + [last];
      at := MatchingMeaning(front, name);
      MatchingSnoc(front, name, last);
      PicksSnoc(front, name, last, at, MatchingAddresses(front, name));
      if Matches(last.1, name) {
        at := at + [|front|];
      }
    }
  }

  /** What stands in front of the first matching instance does not matter. */
  lemma {:induction false} SkipOthers(front: seq<Instance>, rest: seq<Instance>, name: string)
    requires forall e <- front :: !Matches(e.1, name)
    ensures MatchingAddresses(front + rest, name) == MatchingAddresses(rest, name)
  {
    hide Matches;
    if front == [] {
      assert front + rest == rest;
    } else {
      assert (front + rest)[1..] == front[1..] + rest;
      SkipOthers(front[1..], rest, name);
    }
  }

  /** The loop of `FindInstancesByMethod`. */
  method CollectMatching(instances: seq<Instance>, name: string) returns (matching: seq<string>)
    ensures matching == MatchingAddresses(instances, name)
    ensures exists at :: Picks(instances, name, at, matching)
  {
    hide Matches, Suffix;
    ghost var at := MatchingMeaning(instances, name);
    hide Picks;
    matching := [];
    for i := 0 to |instances|
      invariant matching + MatchingAddresses(instances[i..], name) == MatchingAddresses(instances, name)
    {
      var (path, data) := instances[i];
      if Matches(data, name) {
        matching := matching + [Suffix(path)];
      }
    }
  }

  /** Two servers that offer the method are both found. */
  lemma BothServersFound(first: string, second: string)
    requires '/' !in first && '/' !in second
    ensures MatchingAddresses([(ChildPath("UserService", first), "methods=Login"),
                               (ChildPath("UserService", second), "methods=Login,Register")], "Login")
         == [first, second]
  {
    hide Matches, Suffix, MatchingAddresses;
    ChildPathSuffix("UserService", first);
    ChildPathSuffix("UserService", second);
    LoginFound();
    var a := (ChildPath("UserService", first), "methods=Login");
    var b := (ChildPath("UserService", second), "methods=Login,Register");
    BothMatch(a, b, "Login");
  }

  lemma LoginFound()
    ensures Matches("methods=Login", "Login") && Matches("methods=Login,Register", "Login")
  {
    assert At("methods=Login", 0, METHODS + "Login");
    assert At("methods=Login,Register", 0, METHODS + "Login");
  }

  lemma BothMatch(a: Instance, b: Instance, name: string)
    requires Matches(a.1, name) && Matches(b.1, name)
    ensures MatchingAddresses([a, b], name) == [Suffix(a.0), Suffix(b.0)]
  {
    hide Matches, Suffix;
    assert [a, b][1..] == [b] && [b][1..] == [];
    assert MatchingAddresses([b], name) == [Suffix(b.0)];
  }

  // ---------- ports ----------

  function Digit(d: nat): char
    requires d < 10
  {
    '0' + d as char
  }

  function NatText(n: nat): string {
    if n < 10 then [Digit(n)] else NatText(n / 10) + [Digit(n % 10)]
  }

  /** `std::to_string`. */
  function IntText(n: int): string {
    if n < 0 then "-" + NatText(-n) else NatText(n)
  }

  predicate IsDigit(c: char) {
    '0' <= c <= '9'
  }

  predicate AllDigits(s: string) {
    forall i :: 0 <= i < |s| ==> IsDigit(s[i])
  }

  predicate IsSpace(c: char) {
    c == ' ' || '\t' <= c <= '\r'
  }

  /** Blanks are those of the C locale. */
  lemma CharClasses(c: char)
    ensures IsSpace(c) <==> c in [' ', '\t', '\n', '\U{000B}', '\U{000C}', '\r']
    ensures IsDigit(c) <==> c in ['0', '1', '2', '3', '4', '5', '6', '7', '8', '9']
  {
  }

  function SkipSpace(s: string): string {
    if s != "" && IsSpace(s[0]) then SkipSpace(s[1..]) else s
  }

  function LeadingDigits(s: string): (r: string)
    ensures AllDigits(r)
  {
    if s != "" && IsDigit(s[0]) then [s[0]] + LeadingDigits(s[1..]) else ""
  }

  function DigitsValue(s: string): nat
    requires AllDigits(s)
  {
    if s == "" then 0 else 10 * DigitsValue(s[..|s| - 1]) + (s[|s| - 1] - '0') as nat
  }

  function ReadInt(digits: string, negative: bool): Option<int32>
    requires AllDigits(digits)
  {
    var abs: int := DigitsValue(digits);
    var n := if negative then -abs else abs;
    if digits != "" && -TWO_31 <= n < TWO_31 then Some(n) else None
  }

  /** `std::stoi`: leading blanks and a sign are accepted, what follows the digits is ignored;
      None stands for both of its exceptions. */
  function Stoi(s: string): Option<int32> {
    var t := SkipSpace(s);
    if t != "" && t[0] == '-' then ReadInt(LeadingDigits(t[1..]), true)
    else if t != "" && t[0] == '+' then ReadInt(LeadingDigits(t[1..]), false)
    else ReadInt(LeadingDigits(t), false)
  }

  lemma {:induction false} NatTextDigits(n: nat)
    ensures NatText(n) != "" && AllDigits(NatText(n)) && DigitsValue(NatText(n)) == n
  {
    var s := NatText(n);
    if n >= 10 {
      NatTextDigits(n / 10);
      assert s[..|s| - 1] == NatText(n / 10);
    } else {
      assert s[..0] == "";
    }
  }

  lemma {:induction false} AllLeading(s: string)
    requires AllDigits(s)
    ensures LeadingDigits(s) == s
  {
    if s != "" {
      AllLeading(s[1..]);
    }
  }

  lemma SkipNothing(s: string)
    requires s != "" && !IsSpace(s[0])
    ensures SkipSpace(s) == s
  {
  }

  lemma StoiOfDigits(s: string)
    requires s != "" && AllDigits(s) && DigitsValue(s) < TWO_31
    ensures Stoi(s) == Some(DigitsValue(s))
  {
    AllLeading(s);
    assert IsDigit(s[0]);
    SkipNothing(s);
    hide DigitsValue, LeadingDigits, AllDigits, SkipSpace;
  }

  lemma StoiOfMinus(s: string)
    requires s != "" && AllDigits(s) && DigitsValue(s) <= TWO_31
    ensures Stoi("-" + s) == Some(-(DigitsValue(s) as int))
  {
    hide DigitsValue, LeadingDigits, AllDigits, SkipSpace, ReadInt;
    AllLeading(s);
    MinusInFront(s);
    SkipNothing("-" + s);
    assert Stoi("-" + s) == ReadInt(s, true);
    ReadsMinus(s);
  }

  lemma MinusInFront(s: string)
    ensures var t := "-" + s; t != "" && t[0] == '-' && t[1..] == s && !IsSpace(t[0])
  {
  }

  lemma ReadsMinus(digits: string)
    requires digits != "" && AllDigits(digits) && DigitsValue(digits) <= TWO_31
    ensures ReadInt(digits, true) == Some(-(DigitsValue(digits) as int))
  {
    hide DigitsValue;
  }

  lemma DigitsAreNoMarks(s: string)
    requires AllDigits(s)
    ensures '/' !in s && ':' !in s && '/' !in "-" + s && ':' !in "-" + s
  {
  }

  /** The text `std::stoi` accepts: blanks, a sign, digits, and anything that does not go on with a
      digit. */
  datatype Numeral = Numeral(blanks: string, sign: string, digits: string, tail: string) {
    predicate Valid() {
      && (forall c <- blanks :: IsSpace(c))
      && sign in {"", "+", "-"}
      && digits != "" && AllDigits(digits)
      && (tail == "" || !IsDigit(tail[0]))
    }

    function Text(): string {
      blanks + (sign + (digits + tail))
    }
  }

  lemma {:induction false} SkipBlanks(blanks: string, rest: string)
    requires (forall c <- blanks :: IsSpace(c)) && (rest == "" || !IsSpace(rest[0]))
    ensures SkipSpace(blanks + rest) == rest
  {
    if blanks == "" {
      assert blanks + rest == rest;
    } else {
      assert (blanks + rest)[1..] == blanks[1..] + rest && blanks[0] in blanks;
      SkipBlanks(blanks[1..], rest);
    }
  }

  lemma {:induction false} TakeDigits(digits: string, tail: string)
    requires AllDigits(digits) && (tail == "" || !IsDigit(tail[0]))
    ensures LeadingDigits(digits + tail) == digits
  {
    if digits == "" {
      assert digits + tail == tail;
    } else {
      assert (digits + tail)[1..] == digits[1..] + tail;
      TakeDigits(digits[1..], tail);
    }
  }

  lemma {:induction false} SplitBlanks(s: string) returns (blanks: string)
    ensures (forall c <- blanks :: IsSpace(c)) && s == blanks + SkipSpace(s)
    ensures SkipSpace(s) == "" || !IsSpace(SkipSpace(s)[0])
  {
    if s != "" && IsSpace(s[0]) {
      var more := SplitBlanks(s[1..]);
      blanks := [s[0]] + more;
    } else {
      blanks := "";
    }
  }

  lemma {:induction false} SplitDigits(s: string) returns (tail: string)
    ensures s == LeadingDigits(s) + tail && (tail == "" || !IsDigit(tail[0]))
  {
    if s != "" && IsDigit(s[0]) {
      tail := SplitDigits(s[1..]);
    } else {
      tail := s;
    }
  }

  /** `stoi` reads the number of every such text, and nothing else; a number that does not fit an int
      is an error too. */
  lemma StoiReads(n: Numeral)
    requires n.Valid()
    ensures Stoi(n.Text()) == ReadInt(n.digits, n.sign == "-")
  {
    hide LeadingDigits, SkipSpace, ReadInt;
    var t := n.sign + (n.digits + n.tail);
    assert n.digits[0] == (n.digits + n.tail)[0] && IsDigit(n.digits[0]);
    SkipBlanks(n.blanks, t);
    TakeDigits(n.digits, n.tail);
    if n.sign == "" {
      assert t == n.digits + n.tail;
    } else {
      assert t[0] == n.sign[0] && t[1..] == n.digits + n.tail;
    }
  }

  lemma StoiReadsOnly(s: string) returns (n: Numeral)
    requires Stoi(s).Some?
    ensures n.Valid() && n.Text() == s && Stoi(s) == ReadInt(n.digits, n.sign == "-")
  {
    var blanks := SplitBlanks(s);
    var t := SkipSpace(s);
    var sign := if t != "" && t[0] in {'-', '+'} then [t[0]] else "";
    var rest := t[|sign|..];
    var tail := SplitDigits(rest);
    n := Numeral(blanks, sign, LeadingDigits(rest), tail);
    hide LeadingDigits, SkipSpace;
    assert t == sign + rest;
    if sign != "" {
      assert rest == t[1..];
    } else {
      assert rest == t;
    }
  }

  /** Text without digits in front has no number. */
  lemma StoiMeaning(s: string)
    ensures Stoi(s).Some? <==> exists n: Numeral :: n.Valid() && n.Text() == s && ReadInt(n.digits, n.sign == "-").Some?
  {
    hide Stoi, ReadInt;
    if Stoi(s).Some? {
      var n := StoiReadsOnly(s);
    }
    forall n: Numeral | n.Valid() && n.Text() == s ensures Stoi(s) == ReadInt(n.digits, n.sign == "-") {
      StoiReads(n);
    }
  }

  /** The digits of a decimal numeral, and no zero in front of others. */
  lemma IntTextDigits()
    ensures IntText(0) == "0" && IntText(8080) == "8080" && IntText(-1) == "-1"
    ensures forall n: nat :: 10 <= n ==> IntText(n) == IntText(n / 10) + [(n % 10) as char + '0']
  {
    assert NatText(8) == "8" && NatText(80) == "80" && NatText(808) == "808" && NatText(8080) == "8080";
  }

  /** Printing a port and parsing it again gives the port. */
  lemma StoiRoundTrip(n: int32)
    ensures Stoi(IntText(n)) == Some(n)
    ensures '/' !in IntText(n) && ':' !in IntText(n)
  {
    hide Stoi, NatText, DigitsValue;
    var v: int := n;
    var abs: nat := if v < 0 then -v else v;
    NatTextDigits(abs);
    if v < 0 {
      StoiOfMinus(NatText(abs));
    } else {
      StoiOfDigits(NatText(abs));
    }
    DigitsAreNoMarks(NatText(abs));
  }

  // ---------- addresses ----------

  function RegistrationPath(service: string, ip: string, port: int32): string {
    "/" + service + "/" + ip + ":" + IntText(port)
  }

  datatype Endpoint = Endpoint(ip: string, port: int32)

  /** How the channel takes an address apart: `ip` before the first colon, port after it. */
  function ParseAddress(address: string): Option<Endpoint> {
    match FindFrom(address, ':', 0)
    case None => None
    case Some(colon) =>
      match Stoi(address[colon + 1..])
      case None => None
      case Some(port) => Some(Endpoint(address[..colon], port))
  }

  /** The first colon of an address splits it, however many there are. */
  lemma FirstColonSplits(ip: string, rest: string)
    requires ':' !in ip
    ensures ParseAddress(ip + ":" + rest) == match Stoi(rest) {
      case None => None
      case Some(port) => Some(Endpoint(ip, port))
    }
  {
    hide Stoi, FindFrom;
    var address := ip + ":" + rest;
    assert address[0..|ip|] == ip && address[|ip|] == ':' && address[|ip| + 1..] == rest;
    FirstIs(address, ':', 0, |ip|);
  }

  /** What a server of two methods publishes. */
  lemma PublishedTexts()
    ensures RegistrationPath("UserService", "127.0.0.1", 8080) == "/UserService/127.0.0.1:8080"
    ensures MethodsData(["Login", "Register"]) == "methods=Login,Register"
  {
    IntTextDigits();
    hide IntText;
    TwoNames("Login", "Register");
    hide Join;
    Literals();
  }

  lemma TwoNames(a: string, b: string)
    ensures Join([a, b]) == a + "," + b
  {
    assert [a, b][1..] == [b];
  }

  lemma Literals()
    ensures "/" + "UserService" + "/" + "127.0.0.1" + ":" + "8080" == "/UserService/127.0.0.1:8080"
    ensures "methods=" + ("Login" + "," + "Register") == "methods=Login,Register"
  {
  }

  /** The path a server registers comes back unchanged: as the cache bucket, and as the endpoint
      the channel connects to. */
  lemma EndpointRoundTrip(service: string, ip: string, port: int32)
    requires '/' !in service && '/' !in ip && ':' !in ip
    ensures var path := RegistrationPath(service, ip, port);
      && ServiceOf(path) == service
      && ParseAddress(Suffix(path)) == Some(Endpoint(ip, port))
  {
    hide ServiceOf, Suffix, ParseAddress, IntText;
    StoiRoundTrip(port);
    AddressParses(ip, port);
    RegistrationIsChild(service, ip, port);
    ChildPathBucket(service, ip + ":" + IntText(port));
    ChildPathSuffix(service, ip + ":" + IntText(port));
  }

  lemma RegistrationIsChild(service: string, ip: string, port: int32)
    ensures RegistrationPath(service, ip, port) == ChildPath(service, ip + ":" + IntText(port))
  {
    hide IntText;
  }

  lemma AddressParses(ip: string, port: int32)
    requires ':' !in ip
    ensures ParseAddress(ip + ":" + IntText(port)) == Some(Endpoint(ip, port))
  {
    StoiRoundTrip(port);
    FirstColonSplits(ip, IntText(port));
  }
}
