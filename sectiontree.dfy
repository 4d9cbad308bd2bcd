/** The section tree (`MainWindow.data_tree`): a forest of named nodes, each
    with a display colour, ordered children and an optional section lock.
    A node is addressed by the list of names from a root; every lookup takes
    the first sibling with the wanted name, as `next(n for n in nodes if ...)`
    does. Edits build the new forest as a value. */
module SectionTree {
  import opened Wrappers
  import opened Crypto
  import opened Text

  /** A section lock: its own salt, verifier and KDF name. */
  datatype Lock = Lock(salt: Bytes, verifier: string, kdf: string)

  datatype Node = Node(name: string, children: seq<Node>, color: string, lock: Option<Lock>)

  /** The index of the first node called `name`. */
  function FirstNamed(nodes: seq<Node>, name: string): (r: Option<nat>)
    ensures r.Some? ==>
      && r.value < |nodes| && nodes[r.value].name == name
      && forall j :: 0 <= j < r.value ==> nodes[j].name != name
    ensures r.None? <==> forall j :: 0 <= j < |nodes| ==> nodes[j].name != name
  {
    if nodes == [] then None
    else if nodes[0].name == name then Some(0)
    else match FirstNamed(nodes[1..], name)
      case None => None
      case Some(i) => Some(i + 1)
  }

  /** `find_node(path)[0]`: the node at `path`; none for the empty path. */
  function FindNode(nodes: seq<Node>, path: seq<string>): (r: Option<Node>)
    ensures r.Some? ==> path != [] && r.value.name == path[|path| - 1]
    decreases |path|
  {
    if path == [] then None
    else match FirstNamed(nodes, path[0])
      case None => None
      case Some(i) => if |path| == 1 then Some(nodes[i]) else FindNode(nodes[i].children, path[1..])
  }

  /** `find_node(path)[1]`: the children of the node at `path`, the roots for the empty path. */
  function ChildrenAt(nodes: seq<Node>, path: seq<string>): Option<seq<Node>> {
    if path == [] then Some(nodes)
    else match FindNode(nodes, path)
      case None => None
      case Some(n) => Some(n.children)
  }

  lemma {:induction false} FindNodeStep(nodes: seq<Node>, path: seq<string>)
    requires |path| >= 2
    ensures FindNode(nodes, path).Some? ==> FindNode(nodes, path[..|path| - 1]).Some?
    ensures ChildrenAt(nodes, path[..|path| - 1]).Some? ==>
      FindNode(nodes, path) == (match FirstNamed(ChildrenAt(nodes, path[..|path| - 1]).value, path[|path| - 1])
        case None => None
        case Some(i) => Some(ChildrenAt(nodes, path[..|path| - 1]).value[i]))
    decreases |path|
  {
    match FirstNamed(nodes, path[0])
    case None =>
    case Some(i) =>
      if |path| > 2 {
        FindNodeStep(nodes[i].children, path[1..]);
        assert path[1..][..|path| - 2] == path[..|path| - 1][1..];
      }
  }

  datatype Location = Location(siblings: seq<Node>, node: Node, index: nat)

  /** `find_parent_and_index`: the sibling list holding the node at `path`, the
      node, and its position there (`list.index` agrees: no earlier sibling
      equals it, since none has its name). */
  function FindParentAndIndex(nodes: seq<Node>, path: seq<string>): (r: Option<Location>)
    ensures r.Some? <==> FindNode(nodes, path).Some?
    ensures r.Some? ==>
      && r.value.node == FindNode(nodes, path).value
      && r.value.index < |r.value.siblings|
      && r.value.siblings[r.value.index] == r.value.node
      && (forall j :: 0 <= j < r.value.index ==> r.value.siblings[j] != r.value.node)
      && ChildrenAt(nodes, path[..|path| - 1]) == Some(r.value.siblings)
    decreases |path|
  {
    if path == [] then None
    else match FirstNamed(nodes, path[0])
      case None => None
      case Some(i) =>
        if |path| == 1 then Some(Location(nodes, nodes[i], i))
        else
          var r := FindParentAndIndex(nodes[i].children, path[1..]);
          if r.Some? then
            FindNodeOfChildren(nodes, path, i);
            r
          else r
  }

  lemma FindNodeOfChildren(nodes: seq<Node>, path: seq<string>, i: nat)
    requires |path| >= 2 && FirstNamed(nodes, path[0]) == Some(i)
    ensures ChildrenAt(nodes, path[..|path| - 1]) == ChildrenAt(nodes[i].children, path[1..][..|path| - 2])
  {
    assert path[..|path| - 1][0] == path[0];
    assert path[..|path| - 1][1..] == path[1..][..|path| - 2];
  }

  /** Applies `g` to the child list of the node at `path` (the roots for the
      empty path); a path that does not resolve leaves the forest unchanged. */
  function UpdateChildren(nodes: seq<Node>, path: seq<string>, g: seq<Node> -> seq<Node>): (r: seq<Node>)
    decreases |path|
  {
    if path == [] then g(nodes)
    else match FirstNamed(nodes, path[0])
      case None => nodes
      case Some(i) => nodes[i := nodes[i].(children := UpdateChildren(nodes[i].children, path[1..], g))]
  }

  /** Updating a child list is seen at exactly that place. */
  lemma {:induction false} UpdateChildrenAt(nodes: seq<Node>, path: seq<string>, g: seq<Node> -> seq<Node>)
    requires ChildrenAt(nodes, path).Some?
    ensures ChildrenAt(UpdateChildren(nodes, path, g), path) == Some(g(ChildrenAt(nodes, path).value))
    decreases |path|
  {
    if path != [] {
      var i := FirstNamed(nodes, path[0]).value;
      var r := UpdateChildren(nodes, path, g);
      assert r[i].name == nodes[i].name;
      assert forall j :: 0 <= j < i ==> r[j] == nodes[j];
      assert FirstNamed(r, path[0]) == Some(i);
      if |path| > 1 {
        UpdateChildrenAt(nodes[i].children, path[1..], g);
      }
    }
  }

  /** A path that does not resolve leaves the update without effect. */
  lemma {:induction false} UpdateChildrenMissing(nodes: seq<Node>, path: seq<string>, g: seq<Node> -> seq<Node>)
    requires ChildrenAt(nodes, path).None?
    ensures UpdateChildren(nodes, path, g) == nodes
    decreases |path|
  {
    match FirstNamed(nodes, path[0])
    case None =>
    case Some(i) =>
      assert |path| > 1;
      UpdateChildrenMissing(nodes[i].children, path[1..], g);
      assert nodes[i].(children := nodes[i].children) == nodes[i];
  }

  /** Replaces the first node called `name` by `h` of it. */
  function UpdateNamed(nodes: seq<Node>, name: string, h: Node -> Node): seq<Node> {
    match FirstNamed(nodes, name)
    case None => nodes
    case Some(i) => nodes[i := h(nodes[i])]
  }

  function LockEdit(name: string, lock: Option<Lock>): seq<Node> -> seq<Node> {
    (s: seq<Node>) => UpdateNamed(s, name, (n: Node) => n.(lock := lock))
  }

  /** Sets or removes the lock on the node at `path` (`n["lock"] = ...`, `n.pop("lock")`). */
  function SetLock(nodes: seq<Node>, path: seq<string>, lock: Option<Lock>): seq<Node>
    requires path != []
  {
    UpdateChildren(nodes, path[..|path| - 1], LockEdit(path[|path| - 1], lock))
  }

  /** The node at a path is the first child of that name under its parent path. */
  lemma FindNodeViaParent(nodes: seq<Node>, path: seq<string>)
    requires path != []
    ensures FindNode(nodes, path) == (match ChildrenAt(nodes, path[..|path| - 1])
      case None => None
      case Some(s) => match FirstNamed(s, path[|path| - 1])
        case None => None
        case Some(i) => Some(s[i]))
  {
    if |path| > 1 {
      FindNodeStep(nodes, path);
      if FindNode(nodes, path[..|path| - 1]).None? {
        if FindNode(nodes, path).Some? {
          FindNodeStep(nodes, path);
        }
      }
    }
  }

  /** An edit that keeps names keeps the position of the first match. */
  lemma UpdateNamedFirst(s: seq<Node>, name: string, h: Node -> Node)
    requires FirstNamed(s, name).Some?
    requires h(s[FirstNamed(s, name).value]).name == name
    ensures var i := FirstNamed(s, name).value;
      && UpdateNamed(s, name, h) == s[i := h(s[i])]
      && FirstNamed(UpdateNamed(s, name, h), name) == Some(i)
  {
    var i := FirstNamed(s, name).value;
    var s' := s[i := h(s[i])];
    assert forall j :: 0 <= j < i ==> s'[j].name == s[j].name;
  }

  /** After `SetLock` the node at `path` carries exactly that lock and is otherwise the same. */
  lemma SetLockAt(nodes: seq<Node>, path: seq<string>, lock: Option<Lock>)
    requires FindNode(nodes, path).Some?
    ensures FindNode(SetLock(nodes, path, lock), path) == Some(FindNode(nodes, path).value.(lock := lock))
  {
    var parent := path[..|path| - 1];
    var name := path[|path| - 1];
    var g := LockEdit(name, lock);
    FindNodeViaParent(nodes, path);
    FindNodeViaParent(SetLock(nodes, path, lock), path);
    UpdateChildrenAt(nodes, parent, g);
    var s := ChildrenAt(nodes, parent).value;
    UpdateNamedFirst(s, name, (n: Node) => n.(lock := lock));
  }

  /** `remove_from(nodes, path)` in `delete_item`: drops the node at `path`. */
  function RemoveNode(nodes: seq<Node>, path: seq<string>): seq<Node>
    requires path != []
  {
    UpdateChildren(nodes, path[..|path| - 1], RemoveEdit(path[|path| - 1]))
  }

  function RemoveEdit(name: string): seq<Node> -> seq<Node> {
    (s: seq<Node>) => RemoveFirstNamed(s, name)
  }

  function RemoveFirstNamed(nodes: seq<Node>, name: string): (r: seq<Node>)
    ensures FirstNamed(nodes, name).None? ==> r == nodes
    ensures FirstNamed(nodes, name).Some? ==> |r| == |nodes| - 1
  {
    match FirstNamed(nodes, name)
    case None => nodes
    case Some(i) => nodes[..i] + nodes[i + 1..]
  }

  /** `s.pop(idx)` then `s.insert(new_idx, node)`. */
  function Reorder(s: seq<Node>, idx: nat, newIdx: nat): (r: seq<Node>)
    requires idx < |s| && newIdx < |s|
    ensures |r| == |s| && r[newIdx] == s[idx]
    ensures multiset(r) == multiset(s)
  {
    var rest := s[..idx] + s[idx + 1..];
    assert s == s[..idx] + [s[idx]] + s[idx + 1..];
    var out := rest[..newIdx] + [s[idx]] + rest[newIdx..];
    assert rest == rest[..newIdx] + rest[newIdx..];
    assert multiset(s) == multiset(s[..idx]) + multiset{s[idx]} + multiset(s[idx + 1..]);
    assert multiset(rest) == multiset(s[..idx]) + multiset(s[idx + 1..]);
    assert multiset(rest) == multiset(rest[..newIdx]) + multiset(rest[newIdx..]);
    assert multiset(out) == multiset(rest[..newIdx]) + multiset{s[idx]} + multiset(rest[newIdx..]);
    assert multiset(out) == multiset(rest) + multiset{s[idx]};
    assert multiset(s) == multiset(rest) + multiset{s[idx]};
    out
  }

  /** A step of one is a swap with that neighbour; everything else stays in place. */
  lemma ReorderAdjacent(s: seq<Node>, idx: nat, newIdx: nat)
    requires idx < |s| && newIdx < |s| && (newIdx == idx + 1 || idx == newIdx + 1)
    ensures Reorder(s, idx, newIdx) == s[idx := s[newIdx]][newIdx := s[idx]]
  {
    var r := Reorder(s, idx, newIdx);
    var w := s[idx := s[newIdx]][newIdx := s[idx]];
    assert forall k :: 0 <= k < |s| ==> r[k] == w[k];
  }

  /** `_ensure_tree_path`, on the list of names: walks down, appending a node
      (no children, the theme's tag colour, no lock) wherever a name is missing. */
  function EnsurePath(nodes: seq<Node>, parts: seq<string>, color: string): (r: seq<Node>)
    ensures |r| >= |nodes|
    ensures parts != [] ==> FindNode(r, parts).Some?
    decreases |parts|
  {
    if parts == [] then nodes
    else match FirstNamed(nodes, parts[0])
      case Some(i) =>
        var r := nodes[i := nodes[i].(children := EnsurePath(nodes[i].children, parts[1..], color))];
        assert forall j :: 0 <= j <= i ==> r[j].name == nodes[j].name;
        assert FirstNamed(r, parts[0]) == Some(i);
        r
      case None =>
        var n := Node(parts[0], EnsurePath([], parts[1..], color), color, None);
        var r := nodes + [n];
        assert forall j :: 0 <= j < |nodes| ==> r[j].name == nodes[j].name;
        assert r[|nodes|].name == parts[0];
        assert FirstNamed(r, parts[0]) == Some(|nodes|);
        r
  }

  /** Ensuring a path that already exists changes nothing; hence ensuring twice is ensuring once. */
  lemma {:induction false} EnsureExisting(nodes: seq<Node>, parts: seq<string>, color: string)
    requires parts != [] && FindNode(nodes, parts).Some?
    ensures EnsurePath(nodes, parts, color) == nodes
    decreases |parts|
  {
    var i := FirstNamed(nodes, parts[0]).value;
    if |parts| > 1 {
      EnsureExisting(nodes[i].children, parts[1..], color);
    }
    assert nodes[i].(children := nodes[i].children) == nodes[i];
  }

  /** A lookup on a list whose leading names are those of `a` finds what it finds in `a`. */
  lemma FirstNamedPrefix(a: seq<Node>, b: seq<Node>, name: string)
    requires |a| <= |b| && forall k :: 0 <= k < |a| ==> b[k].name == a[k].name
    requires FirstNamed(a, name).Some?
    ensures FirstNamed(b, name) == FirstNamed(a, name)
  {
  }

  /** Ensuring a path removes no node: every path that resolved still
      resolves, to a node with the same lock. */
  lemma {:induction false} EnsureKeepsNodes(nodes: seq<Node>, parts: seq<string>, color: string, p: seq<string>)
    requires FindNode(nodes, p).Some?
    ensures FindNode(EnsurePath(nodes, parts, color), p).Some?
    ensures FindNode(EnsurePath(nodes, parts, color), p).value.lock == FindNode(nodes, p).value.lock
    decreases |p|
  {
    if parts == [] {
      return;
    }
    var e := EnsurePath(nodes, parts, color);
    var j := FirstNamed(nodes, p[0]).value;
    match FirstNamed(nodes, parts[0])
    case Some(i) =>
      assert forall k :: 0 <= k < |nodes| ==> e[k].name == nodes[k].name && e[k].lock == nodes[k].lock;
      FirstNamedPrefix(nodes, e, p[0]);
      if |p| > 1 {
        if i == j {
          EnsureKeepsNodes(nodes[i].children, parts[1..], color, p[1..]);
        } else {
          assert e[j] == nodes[j];
        }
      }
    case None =>
      assert forall k :: 0 <= k < |nodes| ==> e[k] == nodes[k];
      FirstNamedPrefix(nodes, e, p[0]);
  }

  lemma EnsurePathIdempotent(nodes: seq<Node>, parts: seq<string>, color: string)
    ensures EnsurePath(EnsurePath(nodes, parts, color), parts, color) == EnsurePath(nodes, parts, color)
  {
    if parts != [] {
      EnsureExisting(EnsurePath(nodes, parts, color), parts, color);
    }
  }

  /** Every path of the forest, as name lists, in pre-order. */
  function AllPathLists(nodes: seq<Node>): (r: seq<seq<string>>)
    ensures forall p :: p in r ==> p != []
    decreases nodes
  {
    if nodes == [] then []
    else
      var n := nodes[0];
      [[n.name]] + PrefixAll(n.name, AllPathLists(n.children)) + AllPathLists(nodes[1..])
  }

  function PrefixAll(name: string, ps: seq<seq<string>>): (r: seq<seq<string>>)
    ensures |r| == |ps| && forall i :: 0 <= i < |ps| ==> r[i] == [name] + ps[i]
  {
    seq(|ps|, i requires 0 <= i < |ps| => [name] + ps[i])
  }

  /** `get_all_paths`: every path joined with "/", in pre-order. */
  function GetAllPaths(nodes: seq<Node>): (r: seq<string>)
    ensures |r| == |AllPathLists(nodes)|
    ensures forall i :: 0 <= i < |r| ==> r[i] == Join(AllPathLists(nodes)[i], "/")
  {
    var ps := AllPathLists(nodes);
    seq(|ps|, i requires 0 <= i < |ps| => Join(ps[i], "/"))
  }

  /** No two siblings share a name, at any depth (what addressing by path needs). */
  ghost predicate UniqueNames(nodes: seq<Node>)
    decreases nodes
  {
    && (forall i, j :: 0 <= i < j < |nodes| ==> nodes[i].name != nodes[j].name)
    && (forall i :: 0 <= i < |nodes| ==> UniqueNames(nodes[i].children))
  }

  /** Every node that `find_node` reaches is listed by `get_all_paths`. */
  lemma {:induction false} FoundIsListed(nodes: seq<Node>, path: seq<string>)
    requires FindNode(nodes, path).Some?
    ensures path in AllPathLists(nodes)
    decreases nodes
  {
    var i := FirstNamed(nodes, path[0]).value;
    var n := nodes[0];
    if i == 0 {
      if |path| > 1 {
        FoundIsListed(n.children, path[1..]);
        var ps := AllPathLists(n.children);
        var k :| 0 <= k < |ps| && ps[k] == path[1..];
        assert PrefixAll(n.name, ps)[k] == path;
      } else {
        assert path == [n.name];
      }
    } else {
      assert FirstNamed(nodes[1..], path[0]) == Some(i - 1);
      if |path| == 1 {
        assert FindNode(nodes[1..], path) == Some(nodes[i]);
      } else {
        assert FindNode(nodes[1..], path) == FindNode(nodes[i].children, path[1..]);
      }
      FoundIsListed(nodes[1..], path);
    }
  }

  /** With unique sibling names, every listed path resolves. */
  lemma {:induction false} ListedIsFound(nodes: seq<Node>, path: seq<string>)
    requires UniqueNames(nodes)
    requires path in AllPathLists(nodes)
    ensures FindNode(nodes, path).Some?
    decreases nodes
  {
    var n := nodes[0];
    var ps := AllPathLists(n.children);
    assert FirstNamed(nodes, n.name) == Some(0);
    if path == [n.name] {
    } else if path in PrefixAll(n.name, ps) {
      var k :| 0 <= k < |ps| && PrefixAll(n.name, ps)[k] == path;
      assert path[1..] == ps[k];
      ListedIsFound(n.children, path[1..]);
    } else {
      assert path in AllPathLists(nodes[1..]);
      assert UniqueNames(nodes[1..]) by {
        assert forall i :: 0 <= i < |nodes[1..]| ==> nodes[1..][i] == nodes[i + 1];
      }
      ListedIsFound(nodes[1..], path);
      var j := FirstNamed(nodes[1..], path[0]).value;
      assert nodes[j + 1].name != n.name;
      assert FirstNamed(nodes, path[0]) == Some(j + 1);
      if |path| == 1 {
        assert FindNode(nodes[1..], path) == Some(nodes[j + 1]);
      } else {
        assert FindNode(nodes[1..], path) == FindNode(nodes[j + 1].children, path[1..]);
      }
    }
  }

  /** The node at `path` carries a lock (`n and n.get("lock")`). */
  predicate IsLockedAt(nodes: seq<Node>, path: seq<string>) {
    FindNode(nodes, path).Some? && FindNode(nodes, path).value.lock.Some?
  }

  /** The prefix lengths `1..n` of `path` whose node carries a lock, ascending. */
  function LockedDepths(nodes: seq<Node>, path: seq<string>, n: nat): (r: seq<nat>)
    requires n <= |path|
    ensures forall i, j :: 0 <= i < j < |r| ==> r[i] < r[j]
    ensures forall i :: 0 <= i < |r| ==> 1 <= r[i] <= n
    ensures forall k :: k in r <==> 1 <= k <= n && IsLockedAt(nodes, path[..k])
  {
    if n == 0 then []
    else LockedDepths(nodes, path, n - 1) + (if IsLockedAt(nodes, path[..n]) then [n] else [])
  }

  /** `_locked_prefixes`: the joined prefixes of `path`, shortest first, whose node carries a lock. */
  function LockedPrefixes(nodes: seq<Node>, path: seq<string>): (r: seq<string>)
    ensures var d := LockedDepths(nodes, path, |path|);
      |r| == |d| && forall i :: 0 <= i < |d| ==> r[i] == Join(path[..d[i]], "/")
  {
    LockedPrefixesUpTo(nodes, path, |path|)
  }

  function LockedPrefixesUpTo(nodes: seq<Node>, path: seq<string>, n: nat): (r: seq<string>)
    requires n <= |path|
    ensures var d := LockedDepths(nodes, path, n);
      |r| == |d| && forall i :: 0 <= i < |d| ==> r[i] == Join(path[..d[i]], "/")
  {
    if n == 0 then []
    else LockedPrefixesUpTo(nodes, path, n - 1) + (if IsLockedAt(nodes, path[..n]) then [Join(path[..n], "/")] else [])
  }

  /** Every locked prefix of the path is listed. */
  lemma LockedPrefixListed(nodes: seq<Node>, path: seq<string>, k: nat)
    requires 1 <= k <= |path|
    ensures IsLockedAt(nodes, path[..k]) ==> Join(path[..k], "/") in LockedPrefixes(nodes, path)
  {
    var d := LockedDepths(nodes, path, |path|);
    if IsLockedAt(nodes, path[..k]) {
      var i :| 0 <= i < |d| && d[i] == k;
      assert LockedPrefixes(nodes, path)[i] == Join(path[..k], "/");
    }
  }

  /** Every listed prefix is in `u` exactly when every locked prefix of the path is. */
  lemma AllLockedIn(nodes: seq<Node>, path: seq<string>, u: set<string>)
    ensures (forall p :: p in LockedPrefixes(nodes, path) ==> p in u)
        <==> (forall k :: 1 <= k <= |path| && IsLockedAt(nodes, path[..k]) ==> Join(path[..k], "/") in u)
  {
    var r := LockedPrefixes(nodes, path);
    var d := LockedDepths(nodes, path, |path|);
    if forall p :: p in r ==> p in u {
      forall k | 1 <= k <= |path| && IsLockedAt(nodes, path[..k]) ensures Join(path[..k], "/") in u {
        LockedPrefixListed(nodes, path, k);
      }
    }
    if forall k :: 1 <= k <= |path| && IsLockedAt(nodes, path[..k]) ==> Join(path[..k], "/") in u {
      forall p | p in r ensures p in u {
        var i :| 0 <= i < |r| && r[i] == p;
        assert d[i] in d;
      }
    }
  }

  /** With unique names at every depth, the siblings at any resolved place have unique names. */
  lemma {:induction false} UniqueNamesAt(nodes: seq<Node>, path: seq<string>)
    requires UniqueNames(nodes) && ChildrenAt(nodes, path).Some?
    ensures UniqueNames(ChildrenAt(nodes, path).value)
    decreases |path|
  {
    if path != [] {
      var i := FirstNamed(nodes, path[0]).value;
      if |path| > 1 {
        UniqueNamesAt(nodes[i].children, path[1..]);
      }
    }
  }

  /** `delete_item`'s tree part: the node's parent list loses exactly that node,
      and with unique names the path no longer resolves. */
  lemma RemoveNodeAt(nodes: seq<Node>, path: seq<string>)
    requires FindNode(nodes, path).Some?
    ensures var loc := FindParentAndIndex(nodes, path).value;
      ChildrenAt(RemoveNode(nodes, path), path[..|path| - 1]) ==
        Some(loc.siblings[..loc.index] + loc.siblings[loc.index + 1..])
    ensures UniqueNames(nodes) ==> FindNode(RemoveNode(nodes, path), path).None?
  {
    var parent := path[..|path| - 1];
    var name := path[|path| - 1];
    var g := RemoveEdit(name);
    var loc := FindParentAndIndex(nodes, path).value;
    LocationIsFirst(nodes, path);
    UpdateChildrenAt(nodes, parent, g);
    if UniqueNames(nodes) {
      UniqueNamesAt(nodes, parent);
      RemovedGone(loc.siblings, loc.index, name);
      FindNodeViaParent(RemoveNode(nodes, path), path);
    }
  }

  lemma RemovedGone(s: seq<Node>, i: nat, name: string)
    requires FirstNamed(s, name) == Some(i)
    requires forall a, b :: 0 <= a < b < |s| ==> s[a].name != s[b].name
    ensures FirstNamed(s[..i] + s[i + 1..], name).None?
  {
    var s' := s[..i] + s[i + 1..];
    forall j | 0 <= j < |s'| ensures s'[j].name != name {
      if j < i { assert s'[j] == s[j]; } else { assert s'[j] == s[j + 1]; }
    }
  }

  function RemoveAt(s: seq<Node>, i: nat): seq<Node> {
    if i < |s| then s[..i] + s[i + 1..] else s
  }

  /** `del parent_list[idx]` at the node's place (the first step of `_move_section`). */
  function Detach(nodes: seq<Node>, path: seq<string>): seq<Node>
    requires FindNode(nodes, path).Some?
  {
    var loc := FindParentAndIndex(nodes, path).value;
    UpdateChildren(nodes, path[..|path| - 1], (s: seq<Node>) => RemoveAt(s, loc.index))
  }

  /** `_move_section`'s tree part: detach the node, then append it to the children
      of `newParent` (the roots when it is empty or does not resolve); a path
      that does not resolve changes nothing. */
  function MoveSectionTree(nodes: seq<Node>, path: seq<string>, newParent: string): seq<Node> {
    if FindNode(nodes, path).None? then nodes
    else
      var node := FindNode(nodes, path).value;
      var t1 := Detach(nodes, path);
      if newParent == "" || FindNode(t1, Split(newParent)).None? then t1 + [node]
      else UpdateChildren(t1, Split(newParent), (s: seq<Node>) => s + [node])
  }

  /** The moved node is taken out of its old list and is the new last child of its new parent. */
  lemma MoveSectionLands(nodes: seq<Node>, path: seq<string>, newParent: string)
    requires FindNode(nodes, path).Some?
    ensures var loc := FindParentAndIndex(nodes, path).value;
      ChildrenAt(Detach(nodes, path), path[..|path| - 1]) == Some(RemoveAt(loc.siblings, loc.index))
    ensures var t1 := Detach(nodes, path);
      var dest := if newParent == "" || FindNode(t1, Split(newParent)).None? then [] else Split(newParent);
      ChildrenAt(MoveSectionTree(nodes, path, newParent), dest) ==
        Some(ChildrenAt(t1, dest).value + [FindNode(nodes, path).value])
  {
    var loc := FindParentAndIndex(nodes, path).value;
    UpdateChildrenAt(nodes, path[..|path| - 1], (s: seq<Node>) => RemoveAt(s, loc.index));
    var t1 := Detach(nodes, path);
    if !(newParent == "" || FindNode(t1, Split(newParent)).None?) {
      UpdateChildrenAt(t1, Split(newParent), (s: seq<Node>) => s + [FindNode(nodes, path).value]);
    }
  }

  /** `_reorder_section`'s tree part: move the node `direction` places among its
      siblings; a path that does not resolve or a step past either end changes nothing. */
  function ReorderSection(nodes: seq<Node>, path: seq<string>, direction: int): seq<Node> {
    match FindParentAndIndex(nodes, path)
    case None => nodes
    case Some(loc) =>
      var newIdx := loc.index + direction;
      if newIdx < 0 || newIdx >= |loc.siblings| then nodes
      else UpdateChildren(nodes, path[..|path| - 1], ReorderEdit(loc.index, newIdx))
  }

  function ReorderEdit(i: nat, j: nat): seq<Node> -> seq<Node> {
    (s: seq<Node>) => if i < |s| && j < |s| then Reorder(s, i, j) else s
  }

  /** In range, the sibling list becomes the reordered one. */
  lemma ReorderSectionAt(nodes: seq<Node>, path: seq<string>, direction: int)
    requires FindNode(nodes, path).Some?
    requires var loc := FindParentAndIndex(nodes, path).value;
      0 <= loc.index + direction < |loc.siblings|
    ensures var loc := FindParentAndIndex(nodes, path).value;
      ChildrenAt(ReorderSection(nodes, path, direction), path[..|path| - 1])
        == Some(Reorder(loc.siblings, loc.index, loc.index + direction))
  {
    var loc := FindParentAndIndex(nodes, path).value;
    ReorderInRange(nodes, path, loc, loc.index + direction);
  }

  /** A step past either end changes nothing. */
  lemma ReorderSectionOut(nodes: seq<Node>, path: seq<string>, direction: int)
    requires FindNode(nodes, path).Some?
    requires var loc := FindParentAndIndex(nodes, path).value;
      !(0 <= loc.index + direction < |loc.siblings|)
    ensures ReorderSection(nodes, path, direction) == nodes
  {
  }

  lemma ReorderInRange(nodes: seq<Node>, path: seq<string>, loc: Location, newIdx: nat)
    requires FindParentAndIndex(nodes, path) == Some(loc) && newIdx < |loc.siblings|
    ensures ChildrenAt(UpdateChildren(nodes, path[..|path| - 1], ReorderEdit(loc.index, newIdx)), path[..|path| - 1])
      == Some(Reorder(loc.siblings, loc.index, newIdx))
  {
    UpdateChildrenAt(nodes, path[..|path| - 1], ReorderEdit(loc.index, newIdx));
    assert ReorderEdit(loc.index, newIdx)(loc.siblings) == Reorder(loc.siblings, loc.index, newIdx);
  }

  /** `rename_item`'s tree part: `node["name"] = clean` on the node at `path`. */
  function RenameNode(nodes: seq<Node>, path: seq<string>, newName: string): seq<Node>
    requires path != []
  {
    UpdateChildren(nodes, path[..|path| - 1], RenameEdit(path[|path| - 1], newName))
  }

  function RenameEdit(name: string, newName: string): seq<Node> -> seq<Node> {
    (s: seq<Node>) => UpdateNamed(s, name, (n: Node) => n.(name := newName))
  }

  /** The renamed node keeps its place, children, colour and lock. */
  lemma RenameNodeAt(nodes: seq<Node>, path: seq<string>, newName: string)
    requires FindNode(nodes, path).Some?
    ensures var loc := FindParentAndIndex(nodes, path).value;
      ChildrenAt(RenameNode(nodes, path, newName), path[..|path| - 1])
        == Some(loc.siblings[loc.index := loc.node.(name := newName)])
  {
    var loc := FindParentAndIndex(nodes, path).value;
    var parent := path[..|path| - 1];
    var name := path[|path| - 1];
    LocationIsFirst(nodes, path);
    UpdateChildrenAt(nodes, parent, RenameEdit(name, newName));
  }

  /** The located index is the first sibling with the node's name. */
  lemma LocationIsFirst(nodes: seq<Node>, path: seq<string>)
    requires FindNode(nodes, path).Some?
    ensures var loc := FindParentAndIndex(nodes, path).value;
      FirstNamed(loc.siblings, path[|path| - 1]) == Some(loc.index)
  {
    var loc := FindParentAndIndex(nodes, path).value;
    FindNodeViaParent(nodes, path);
    var i := FirstNamed(loc.siblings, path[|path| - 1]).value;
    assert loc.siblings[i] == loc.node;
    assert !(i < loc.index);
  }
}
