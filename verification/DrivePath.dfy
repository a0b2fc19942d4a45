/** Google Drive reports files by id with a parent id; this turns a parent chain into a
    path below the mounted folder. Id maps may be incomplete and may contain cycles. */
module DrivePath {
  import opened Types
  import opened Text

  type Id = string

  datatype Node = Node(name: string, parents: seq<Id>)

  type IdMap = map<Id, Node>

  /** How many times the walk compares a folder with the root before it gives up. */
  const MAX_CHECKS: nat := 100

  /** Components from the root down, joined by slashes. */
  function Join(parts: seq<string>): string
    requires parts != []
  {
    if |parts| == 1 then parts[0]
    else Join(parts[..|parts| - 1]) + "/" + parts[|parts| - 1]
  }

  /** The step from a folder to its first parent exists in the map. */
  predicate HasParent(ids: IdMap, x: Id) { x in ids && ids[x].parents != [] }

  /** `c` leads from its first element to `root` by first parents. */
  ghost predicate Ladder(ids: IdMap, root: Id, c: seq<Id>) {
    && c != [] && c[|c| - 1] == root
    && (forall j :: 0 <= j < |c| - 1 ==> HasParent(ids, c[j]))
    && (forall j :: 0 <= j < |c| - 1 ==> c[j + 1] == ids[c[j]].parents[0])
  }

  /** The first-parent chain of `start`, up to where it first meets `root`. */
  ghost predicate Chain(ids: IdMap, root: Id, start: Id, c: seq<Id>) {
    Ladder(ids, root, c) && c[0] == start && forall j :: 0 <= j < |c| - 1 ==> c[j] != root
  }

  /** Names along a ladder, from the root down, without the root's own. */
  function Names(ids: IdMap, c: seq<Id>): seq<string>
    requires c != [] && forall j :: 0 <= j < |c| - 1 ==> c[j] in ids
  {
    if |c| == 1 then [] else Names(ids, c[1..]) + [ids[c[0]].name]
  }

  /** The names run from the folder below the root down to the first folder of the ladder. */
  lemma {:induction false} NamesSpelled(ids: IdMap, c: seq<Id>, j: nat)
    requires c != [] && (forall k :: 0 <= k < |c| - 1 ==> c[k] in ids) && j < |c| - 1
    ensures |Names(ids, c)| == |c| - 1 && Names(ids, c)[j] == ids[c[|c| - 2 - j]].name
    decreases |c|
  {
    NamesCount(ids, c);
    NamesCount(ids, c[1..]);
    if j < |c| - 2 { NamesSpelled(ids, c[1..], j); }
  }

  lemma {:induction false} NamesCount(ids: IdMap, c: seq<Id>)
    requires c != [] && forall k :: 0 <= k < |c| - 1 ==> c[k] in ids
    ensures |Names(ids, c)| == |c| - 1
    decreases |c|
  {
    if |c| > 1 { NamesCount(ids, c[1..]); }
  }

  /** Joined names: one by itself, and two lists with a slash in between. */
  lemma {:induction false} JoinSpelled(a: seq<string>, b: seq<string>, name: string)
    requires a != [] && b != []
    ensures Join([name]) == name && Join(a + b) == Join(a) + "/" + Join(b)
    decreases |b|
  {
    var front, last := b[..|b| - 1], b[|b| - 1];
    assert (a + b)[..|a + b| - 1] == a + front && (a + b)[|a + b| - 1] == last;
    if front == [] {
      assert a + front == a && b == [last];
    } else {
      JoinSpelled(a, front, name);
    }
  }

  /** The path of a file, defined without a walk: some first-parent chain of at most 100
      folders ends at the root, and the path lists its names. */
  ghost predicate ResolvesTo(ids: IdMap, root: Id, file: Node, path: string) {
    file.parents != [] &&
    exists c :: Chain(ids, root, file.parents[0], c) && |c| <= 100 && path == Join(Names(ids, c) + [file.name])
  }

  // ------------------------------------------------------------------- the walk

  /** What the walk has pushed so far, nearest folder first. */
  function Pushed(ids: IdMap, visited: seq<Id>): seq<string>
    requires forall j :: 0 <= j < |visited| ==> visited[j] in ids
  {
    if visited == [] then []
    else Pushed(ids, visited[..|visited| - 1]) + [ids[visited[|visited| - 1]].name]
  }

  function Reversed(s: seq<string>): seq<string> {
    if s == [] then [] else [s[|s| - 1]] + Reversed(s[..|s| - 1])
  }

  lemma {:induction false} ReversedFirst(x: string, s: seq<string>)
    ensures Reversed([x] + s) == Reversed(s) + [x]
  {
    if s != [] {
      assert ([x] + s)[..|s|] == [x] + s[..|s| - 1];
      ReversedFirst(x, s[..|s| - 1]);
    }
  }

  lemma {:induction false} PushedFirst(ids: IdMap, x: Id, rest: seq<Id>)
    requires x in ids && forall j :: 0 <= j < |rest| ==> rest[j] in ids
    ensures forall j :: 0 <= j < |[x] + rest| ==> ([x] + rest)[j] in ids
    ensures Pushed(ids, [x] + rest) == [ids[x].name] + Pushed(ids, rest)
  {
    if rest != [] {
      assert ([x] + rest)[..|rest|] == [x] + rest[..|rest| - 1];
      PushedFirst(ids, x, rest[..|rest| - 1]);
    }
  }

  /** Reversing what was pushed gives the names from the root down. */
  lemma {:induction false} PushedIsNames(ids: IdMap, visited: seq<Id>, root: Id)
    requires forall j :: 0 <= j < |visited| ==> visited[j] in ids
    ensures Reversed(Pushed(ids, visited)) == Names(ids, visited + [root])
  {
    if visited != [] {
      var x, rest := visited[0], visited[1..];
      assert visited == [x] + rest && (visited + [root])[1..] == rest + [root];
      PushedIsNames(ids, rest, root);
      PushedFirst(ids, x, rest);
      ReversedFirst(ids[x].name, Pushed(ids, rest));
    }
  }

  /** `v.reverse()`. */
  method Reverse(s: seq<string>) returns (r: seq<string>)
    ensures r == Reversed(s)
  {
    r := [];
    for i := 0 to |s|
      invariant r == Reversed(s[..i])
    {
      assert s[..i + 1][..i] == s[..i];
      r := [s[i]] + r;
    }
    assert s[..|s|] == s;
  }

  /** `resolve_path`: answers exactly the path of the file, or nothing when it has none. */
  method ResolvePath(ids: IdMap, root: Id, file: Node) returns (r: Option<string>)
    ensures forall path :: r == Some(path) <==> ResolvesTo(ids, root, file, path)
  {
    if file.parents == [] { return None; }
    var start := file.parents[0];
    var components, current := [file.name], start;
    ghost var visited: seq<Id> := [];
    for i := 0 to MAX_CHECKS
      invariant |visited| == i && Walked(ids, root, start, visited, current)
      invariant forall j :: 0 <= j < |visited| ==> visited[j] in ids
      invariant components == [file.name] + Pushed(ids, visited)
    {
      if current == root {
        components := Reverse(components);
        MeetsRoot(ids, root, file, visited);
        return Some(Join(components));
      }
      if current !in ids {
        DeadEnd(ids, root, start, visited, current);
        return None;
      }
      components := components + [ids[current].name];
      if ids[current].parents == [] {
        DeadEnd(ids, root, start, visited, current);
        return None;
      }
      WalksOn(ids, root, start, visited, current);
      visited := visited + [current];
      assert visited[..|visited| - 1] + [current] == visited;
      current := ids[current].parents[0];
    }
    TooLong(ids, root, start, visited, current);
    return None;
  }

  /** `visited` then `current` begin the chain of `start`, and the root was not met yet. */
  ghost predicate Walked(ids: IdMap, root: Id, start: Id, visited: seq<Id>, current: Id) {
    var w := visited + [current];
    && w[0] == start
    && (forall j :: 0 <= j < |visited| ==> HasParent(ids, w[j]) && w[j] != root)
    && (forall j :: 0 <= j < |visited| ==> w[j + 1] == ids[w[j]].parents[0])
  }

  lemma WalksOn(ids: IdMap, root: Id, start: Id, visited: seq<Id>, current: Id)
    requires Walked(ids, root, start, visited, current) && current != root && HasParent(ids, current)
    ensures Walked(ids, root, start, visited + [current], ids[current].parents[0])
  {
  }

  /** A chain from `start` follows what was walked for as long as both go on. */
  lemma {:induction false} ChainFollows(ids: IdMap, root: Id, start: Id, visited: seq<Id>, current: Id, c: seq<Id>,
                                        k: nat)
    requires Walked(ids, root, start, visited, current) && Chain(ids, root, start, c) && k <= |visited|
    ensures k < |c| && c[k] == (visited + [current])[k]
  {
    if k > 0 { ChainFollows(ids, root, start, visited, current, c, k - 1); }
  }

  lemma TooLong(ids: IdMap, root: Id, start: Id, visited: seq<Id>, current: Id)
    requires Walked(ids, root, start, visited, current)
    ensures forall c :: Chain(ids, root, start, c) ==> |c| > |visited|
  {
    forall c | Chain(ids, root, start, c) ensures |c| > |visited| {
      ChainFollows(ids, root, start, visited, current, c, |visited|);
    }
  }

  lemma DeadEnd(ids: IdMap, root: Id, start: Id, visited: seq<Id>, current: Id)
    requires Walked(ids, root, start, visited, current) && current != root && !HasParent(ids, current)
    ensures forall c :: !Chain(ids, root, start, c)
  {
    forall c ensures !Chain(ids, root, start, c) {
      if Chain(ids, root, start, c) {
        ChainFollows(ids, root, start, visited, current, c, |visited|);
      }
    }
  }

  /** Chains are determined by where they start. */
  lemma ChainUnique(ids: IdMap, root: Id, start: Id, c: seq<Id>, d: seq<Id>)
    requires Chain(ids, root, start, c) && Chain(ids, root, start, d)
    ensures c == d
  {
    var v := d[..|d| - 1];
    assert v + [root] == d;
    assert Walked(ids, root, start, v, root);
    forall k | 0 <= k < |d| ensures k < |c| && c[k] == d[k] {
      ChainFollows(ids, root, start, v, root, c, k);
    }
    assert c[|d| - 1] == root;
  }

  lemma MeetsRoot(ids: IdMap, root: Id, file: Node, visited: seq<Id>)
    requires file.parents != [] && Walked(ids, root, file.parents[0], visited, root) && |visited| < MAX_CHECKS
    ensures forall j :: 0 <= j < |visited| ==> visited[j] in ids
    ensures
      var walked := Join(Reversed([file.name] + Pushed(ids, visited)));
      forall path :: path == walked <==> ResolvesTo(ids, root, file, path)
  {
    var c := visited + [root];
    assert forall j :: 0 <= j < |visited| ==> visited[j] == c[j];
    PushedIsNames(ids, visited, root);
    ReversedFirst(file.name, Pushed(ids, visited));
    assert Chain(ids, root, file.parents[0], c);
    forall d | Chain(ids, root, file.parents[0], d) ensures d == c {
      ChainUnique(ids, root, file.parents[0], c, d);
    }
  }

  // ----------------------------------------------------------------- injectivity

  predicate SlashFree(s: string) { '/' !in s }

  lemma {:induction false} JoinInjective(a: seq<string>, b: seq<string>)
    requires a != [] && b != [] && Join(a) == Join(b)
    requires forall s :: s in a ==> SlashFree(s)
    requires forall s :: s in b ==> SlashFree(s)
    ensures a == b
  {
    LastSlash(a);
    LastSlash(b);
    if |a| > 1 && |b| > 1 {
      var a', b' := a[..|a| - 1], b[..|b| - 1];
      assert Join(a)[..|Join(a')|] == Join(a') && Join(b)[..|Join(b')|] == Join(b');
      JoinInjective(a', b');
      assert Join(a)[|Join(a')| + 1..] == a[|a| - 1] && Join(b)[|Join(b')| + 1..] == b[|b| - 1];
      assert a == a' + [a[|a| - 1]] && b == b' + [b[|b| - 1]];
    }
  }

  /** Where the last component of a joined path begins. */
  lemma LastSlash(a: seq<string>)
    requires a != [] && forall s :: s in a ==> SlashFree(s)
    ensures LastIndexOf(Join(a), '/') == if |a| == 1 then -1 else |Join(a[..|a| - 1])|
  {
    assert a[|a| - 1] in a && SlashFree(a[|a| - 1]);
    if |a| > 1 { LastIndexUnique(Join(a), '/', |Join(a[..|a| - 1])|); }
  }

  /** Every name is free of slashes. */
  ghost predicate PlainNames(ids: IdMap) { forall x :: x in ids ==> SlashFree(ids[x].name) }

  /** No two children of one folder share a name. */
  ghost predicate DistinctSiblings(ids: IdMap) {
    forall x, y :: HasParent(ids, x) && HasParent(ids, y) && x != y && ids[x].parents[0] == ids[y].parents[0]
      ==> ids[x].name != ids[y].name
  }

  /** A ladder is determined by its names: by induction from the root down. */
  lemma {:induction false} LadderByNames(ids: IdMap, root: Id, c: seq<Id>, d: seq<Id>)
    requires DistinctSiblings(ids) && Ladder(ids, root, c) && Ladder(ids, root, d)
    requires Names(ids, c) == Names(ids, d)
    ensures c == d
  {
    if |c| == 1 || |d| == 1 {
      assert |c| == 1 && |d| == 1;
    } else {
      LadderTail(ids, root, c);
      LadderTail(ids, root, d);
      LadderByNames(ids, root, c[1..], d[1..]);
      assert c[1] == c[1..][0] && d[1] == d[1..][0];
      assert c == [c[0]] + c[1..] && d == [d[0]] + d[1..];
    }
  }

  lemma LadderTail(ids: IdMap, root: Id, c: seq<Id>)
    requires Ladder(ids, root, c) && |c| > 1
    ensures
      var n := Names(ids, c);
      Ladder(ids, root, c[1..]) && n != [] && Names(ids, c[1..]) == n[..|n| - 1] && ids[c[0]].name == n[|n| - 1]
  {
  }

  lemma {:induction false} NamesPlain(ids: IdMap, c: seq<Id>)
    requires PlainNames(ids) && c != [] && forall j :: 0 <= j < |c| - 1 ==> c[j] in ids
    ensures forall s :: s in Names(ids, c) ==> SlashFree(s)
  {
    if |c| > 1 { NamesPlain(ids, c[1..]); }
  }

  lemma LadderFrom(ids: IdMap, root: Id, x: Id, c: seq<Id>)
    requires PlainNames(ids) && HasParent(ids, x) && Chain(ids, root, ids[x].parents[0], c)
    ensures Ladder(ids, root, [x] + c) && Names(ids, [x] + c) == Names(ids, c) + [ids[x].name]
    ensures forall s :: s in Names(ids, [x] + c) ==> SlashFree(s)
  {
    assert ([x] + c)[1..] == c;
    assert Ladder(ids, root, [x] + c);
    NamesPlain(ids, [x] + c);
  }

  /** With names free of slashes and distinct among siblings, two ids of the map never get the
      same path, whatever the map looks like otherwise. */
  lemma PathsDistinct(ids: IdMap, root: Id, x: Id, y: Id, path: string)
    requires PlainNames(ids) && DistinctSiblings(ids) && x in ids && y in ids
    requires ResolvesTo(ids, root, ids[x], path) && ResolvesTo(ids, root, ids[y], path)
    ensures x == y
  {
    var c :| Chain(ids, root, ids[x].parents[0], c) && path == Join(Names(ids, c) + [ids[x].name]);
    var d :| Chain(ids, root, ids[y].parents[0], d) && path == Join(Names(ids, d) + [ids[y].name]);
    LadderFrom(ids, root, x, c);
    LadderFrom(ids, root, y, d);
    JoinInjective(Names(ids, [x] + c), Names(ids, [y] + d));
    LadderByNames(ids, root, [x] + c, [y] + d);
    assert ([x] + c)[0] == ([y] + d)[0];
  }

  /** Of several parents, of the file and of a folder, the first one counts. */
  lemma FirstParentCounts(ids: IdMap, file: Node)
    requires ids == map["a" := Node("x", ["root", "b"]), "b" := Node("y", ["root"])]
    requires file == Node("f", ["a", "b"])
    ensures ResolvesTo(ids, "root", file, "x/f") && !ResolvesTo(ids, "root", file, "y/f")
    ensures !ResolvesTo(ids, "root", file, "y/x/f")
  {
    var c := ["a", "root"];
    assert c[1..] == ["root"] && Names(ids, c) == Names(ids, c[1..]) + ["x"];
    var parts := Names(ids, c) + ["f"];
    assert parts == ["x", "f"] && parts[..1] == ["x"] && Join(parts) == "x/f";
    assert Chain(ids, "root", "a", c);
    forall d | Chain(ids, "root", "a", d) ensures d == c { ChainUnique(ids, "root", "a", c, d); }
    assert "x/f"[0] != "y/f"[0] && "x/f"[0] != "y/x/f"[0];
  }
}
