/** Processes started by an Office process, found in the process tree or through a COM activation
    recorded on the node. */
module MartiansOffice {
  import opened PyModel

  /** A node of the process tree; the path may be missing, and a `Stub` has no list of children. */
  datatype Node =
    | Node(path: Option<string>, pid: int, comParent: Option<int>, children: seq<Node>)
    | Stub(path: Option<string>, pid: int, comParent: Option<int>)

  datatype Finding = Martian(path: string) | ComMartian(path: string, parent: int)

  /** `Raised` is an exception, which the engine counts as no match. */
  datatype Outcome = Raised | Returned(matched: bool)

  function Children(n: Node): seq<Node> { if n.Node? then n.children else [] }

  function PathOf(n: Node): string { if n.path.Some? then Lower(n.path.value) else "" }

  // ---- specification over the forest ----

  /** All nodes of a forest in preorder. */
  function Nodes(forest: seq<Node>): seq<Node> {
    if forest == [] then []
    else [forest[0]] + (if forest[0].Node? then Nodes(forest[0].children) else []) + Nodes(forest[1..])
  }

  function Paths(nodes: seq<Node>): seq<string> {
    seq(|nodes|, i requires 0 <= i < |nodes| => PathOf(nodes[i]))
  }

  /** No node of the forest lacks a path or a list of children. */
  ghost predicate Complete(forest: seq<Node>) {
    forall n :: n in Nodes(forest) ==> n.path.Some? && n.Node?
  }

  /** The pids of the Office processes anywhere in the forest. */
  ghost function OfficePids(isOffice: string -> bool, forest: seq<Node>): set<int> {
    set n | n in Nodes(forest) && isOffice(PathOf(n)) :: n.pid
  }

  ghost predicate Whitelisted(whitelist: seq<string -> bool>, path: string) {
    exists i :: 0 <= i < |whitelist| && whitelist[i](path)
  }

  ghost function NotWhitelisted(whitelist: seq<string -> bool>, paths: seq<string>): seq<string> {
    if paths == [] then []
    else if Whitelisted(whitelist, Last(paths)) then NotWhitelisted(whitelist, Front(paths))
    else NotWhitelisted(whitelist, Front(paths)) + [Last(paths)]
  }

  ghost predicate IsComMartian(whitelist: seq<string -> bool>, pids: set<int>, n: Node) {
    n.comParent.Some? && n.comParent.value in pids && PathOf(n) != "" && !Whitelisted(whitelist, PathOf(n))
  }

  /** The COM findings over a list of nodes, in order. */
  ghost function ComFindings(whitelist: seq<string -> bool>, pids: set<int>, nodes: seq<Node>): seq<Finding> {
    if nodes == [] then []
    else if IsComMartian(whitelist, pids, Last(nodes)) then
      ComFindings(whitelist, pids, Front(nodes)) + [ComMartian(PathOf(Last(nodes)), Last(nodes).comParent.value)]
    else ComFindings(whitelist, pids, Front(nodes))
  }

  function MartiansOf(paths: seq<string>): seq<Finding> {
    seq(|paths|, i requires 0 <= i < |paths| => Martian(paths[i]))
  }

  // ---- one tree at the top of the forest ----

  ghost predicate IsOfficeRoot(isOffice: string -> bool, p: Node) {
    p.path.Some? && PathOf(p) != "" && isOffice(PathOf(p)) && p.Node?
  }

  /** The non-whitelisted paths below an Office root. */
  ghost function MartiansBelow(whitelist: seq<string -> bool>, p: Node): seq<string> {
    NotWhitelisted(whitelist, Paths(Nodes(Children(p))))
  }

  /** Looking at this tree raises: it has no path, or it is an Office root with an incomplete tree. */
  ghost predicate Breaks(isOffice: string -> bool, p: Node) {
    p.path.None? || (IsOfficeRoot(isOffice, p) && !Complete(Children(p)))
  }

  ghost predicate HasMartians(isOffice: string -> bool, whitelist: seq<string -> bool>, p: Node) {
    IsOfficeRoot(isOffice, p) && Complete(Children(p)) && MartiansBelow(whitelist, p) != []
  }

  /** The first tree that decides the tree pass. */
  ghost predicate Decides(isOffice: string -> bool, whitelist: seq<string -> bool>, forest: seq<Node>, k: nat) {
    && k < |forest| && (Breaks(isOffice, forest[k]) || HasMartians(isOffice, whitelist, forest[k]))
    && forall j :: 0 <= j < k ==> !Breaks(isOffice, forest[j]) && !HasMartians(isOffice, whitelist, forest[j])
  }

  /** No tree before position `i` decides the tree pass. */
  ghost predicate Undecided(isOffice: string -> bool, whitelist: seq<string -> bool>, forest: seq<Node>, i: nat) {
    forall j :: 0 <= j < i && j < |forest| ==> !Breaks(isOffice, forest[j]) && !HasMartians(isOffice, whitelist, forest[j])
  }

  /** What the deciding tree makes of the run. */
  ghost predicate TreeOutcome(whitelist: seq<string -> bool>, isOffice: string -> bool, p: Node,
                              before: seq<Finding>, out: Outcome, after: seq<Finding>)
  {
    if Breaks(isOffice, p) then out == Raised && after == before
    else out == Returned(true) && after == before + MartiansOf(MartiansBelow(whitelist, p))
  }

  predicate OfficePackage(package: string) {
    exists i :: 0 <= i < |OfficePackages| && Contains(package, OfficePackages[i])
  }

  const OfficePackages: seq<string> := ["ppt", "doc", "xls", "eml"]

  // ---- lemmas ----

  lemma NodesUnfold(a: seq<Node>)
    requires a != []
    ensures Nodes(a) == ([a[0]] + Nodes(Children(a[0]))) + Nodes(a[1..])
  {
  }

  lemma NodesEmpty()
    ensures Nodes([]) == []
  {
  }

  lemma {:induction false} NodesConcat(a: seq<Node>, b: seq<Node>)
    ensures Nodes(a + b) == Nodes(a) + Nodes(b)
  {
    hide Nodes;
    if a == [] {
      NodesEmpty();
      assert a + b == b;
    } else {
      NodesConcat(a[1..], b);
      assert (a + b)[1..] == a[1..] + b && (a + b)[0] == a[0];
      NodesUnfold(a);
      NodesUnfold(a + b);
    }
  }

  lemma NodesSnoc(a: seq<Node>, n: Node)
    ensures Nodes(a + [n]) == Nodes(a) + ([n] + Nodes(Children(n)))
  {
    NodesConcat(a, [n]);
    assert [n][1..] == [];
  }

  lemma PathsConcat(a: seq<Node>, b: seq<Node>)
    ensures Paths(a + b) == Paths(a) + Paths(b)
  {
  }

  lemma {:induction false} NotWhitelistedConcat(w: seq<string -> bool>, a: seq<string>, b: seq<string>)
    ensures NotWhitelisted(w, a + b) == NotWhitelisted(w, a) + NotWhitelisted(w, b)
  {
    if b == [] {
      assert a + b == a;
    } else {
      NotWhitelistedConcat(w, a, Front(b));
      assert Front(a + b) == a + Front(b);
    }
  }

  /** Only paths outside the whitelist survive, and all of them do, in order. */
  lemma {:induction false} NotWhitelistedMeaning(w: seq<string -> bool>, paths: seq<string>, p: string)
    ensures p in NotWhitelisted(w, paths) <==> p in paths && !Whitelisted(w, p)
  {
    if paths != [] {
      NotWhitelistedMeaning(w, Front(paths), p);
      assert paths == Front(paths) + [Last(paths)];
    }
  }

  lemma {:induction false} ComFindingsConcat(w: seq<string -> bool>, pids: set<int>, a: seq<Node>, b: seq<Node>)
    ensures ComFindings(w, pids, a + b) == ComFindings(w, pids, a) + ComFindings(w, pids, b)
  {
    if b == [] {
      assert a + b == a;
    } else {
      ComFindingsConcat(w, pids, a, Front(b));
      assert Front(a + b) == a + Front(b);
    }
  }

  /** The Office root itself is in the list `go_deeper` builds, but never among the martians, because
      the Office pattern is part of the whitelist. */
  lemma RootIsNoMartian(isOffice: string -> bool, w: seq<string -> bool>, p: Node)
    requires isOffice in w && isOffice(PathOf(p))
    ensures NotWhitelisted(w, Paths([p] + Nodes(Children(p)))) == MartiansBelow(w, p)
  {
    var root, below := [PathOf(p)], Paths(Nodes(Children(p)));
    PathsConcat([p], Nodes(Children(p)));
    NotWhitelistedConcat(w, root, below);
    var i :| 0 <= i < |w| && w[i] == isOffice;
    assert Whitelisted(w, PathOf(p));
    assert Front(root) == [] && Last(root) == PathOf(p);
    assert Paths([p]) == root;
  }

  lemma RootCompleteness(n: Node)
    ensures Complete([]) && Nodes([]) == []
    ensures n.path.None? || n.Stub? ==> !Complete([n])
    ensures n.path.Some? && n.Node? ==> (Complete([n]) <==> Complete(n.children))
    ensures n.Node? ==> Nodes([n]) == [n] + Nodes(n.children)
  {
    assert [n][1..] == [];
    assert Nodes([n]) == [n] + Nodes(Children(n));
    assert n in Nodes([n]);
  }

  lemma RootPath(n: Node, items: seq<string>, was: seq<string>)
    requires n.path.Some? && items == was + [Lower(n.path.value)]
    ensures items == was + Paths([n] + [])
  {
    assert Paths([n] + []) == [Lower(n.path.value)];
  }

  /** Visiting one more child of a node. */
  lemma NextChild(n: Node, i: nat)
    requires n.Node? && i < |n.children|
    ensures Complete(n.children[..i + 1]) <==> Complete(n.children[..i]) && Complete([n.children[i]])
    ensures !Complete([n.children[i]]) ==> !Complete(n.children)
    ensures Paths([n] + Nodes(n.children[..i + 1])) == Paths([n] + Nodes(n.children[..i])) + Paths(Nodes([n.children[i]]))
  {
    var done, child, rest := n.children[..i], [n.children[i]], n.children[i + 1..];
    assert n.children[..i + 1] == done + child;
    assert n.children == (done + child) + rest;
    NodesConcat(done, child);
    NodesConcat(done + child, rest);
    assert [n] + Nodes(done + child) == ([n] + Nodes(done)) + Nodes(child);
    PathsConcat([n] + Nodes(done), Nodes(child));
  }

  lemma NoPids(isOffice: string -> bool)
    ensures OfficePids(isOffice, []) == {}
  {
  }

  lemma OfficePidsSnoc(isOffice: string -> bool, a: seq<Node>, n: Node)
    ensures OfficePids(isOffice, a + [n]) ==
            OfficePids(isOffice, a) + (if isOffice(PathOf(n)) then {n.pid} else {}) + OfficePids(isOffice, Children(n))
    ensures OfficePids(isOffice, []) == {}
  {
    NodesSnoc(a, n);
  }

  lemma NoFindings(w: seq<string -> bool>, pids: set<int>)
    ensures ComFindings(w, pids, Nodes([])) == []
  {
  }

  ghost function OwnFinding(w: seq<string -> bool>, pids: set<int>, n: Node): seq<Finding> {
    if IsComMartian(w, pids, n) then [ComMartian(PathOf(n), n.comParent.value)] else []
  }

  lemma ComFindingsSnoc(w: seq<string -> bool>, pids: set<int>, a: seq<Node>, n: Node)
    ensures ComFindings(w, pids, Nodes(a + [n])) ==
            ComFindings(w, pids, Nodes(a)) + OwnFinding(w, pids, n) + ComFindings(w, pids, Nodes(Children(n)))
    ensures ComFindings(w, pids, Nodes([])) == []
  {
    NodesSnoc(a, n);
    ComFindingsConcat(w, pids, Nodes(a), [n] + Nodes(Children(n)));
    ComFindingsConcat(w, pids, [n], Nodes(Children(n)));
    assert Front([n]) == [] && Last([n]) == n;
  }

  /** A node is reported by the COM pass exactly when it is a COM child of an Office process with a
      non-whitelisted path. */
  lemma {:induction false} ComFindingsMeaning(w: seq<string -> bool>, pids: set<int>, nodes: seq<Node>, f: Finding)
    ensures f in ComFindings(w, pids, nodes) <==>
            exists n :: n in nodes && IsComMartian(w, pids, n) && f == ComMartian(PathOf(n), n.comParent.value)
  {
    if nodes != [] {
      ComFindingsMeaning(w, pids, Front(nodes), f);
      assert nodes == Front(nodes) + [Last(nodes)];
    }
  }

  lemma DecidedHere(isOffice: string -> bool, w: seq<string -> bool>, forest: seq<Node>, i: nat)
    requires i < |forest| && Undecided(isOffice, w, forest, i)
    requires Breaks(isOffice, forest[i]) || HasMartians(isOffice, w, forest[i])
    ensures Decides(isOffice, w, forest, i)
    ensures forall k: nat :: Decides(isOffice, w, forest, k) ==> k == i
  {
    hide Breaks, HasMartians;
  }

  /** The tree pass is left undecided exactly when every tree has a path and no Office root has an
      incomplete tree or a martian below it. */
  lemma {:induction false} SomeTreeDecides(isOffice: string -> bool, w: seq<string -> bool>, forest: seq<Node>, n: nat)
    requires n <= |forest|
    ensures Undecided(isOffice, w, forest, n) <==> forall k: nat :: k < n ==> !Decides(isOffice, w, forest, k)
  {
    hide Breaks, HasMartians;
    if n > 0 {
      SomeTreeDecides(isOffice, w, forest, n - 1);
      if Undecided(isOffice, w, forest, n - 1) && !Undecided(isOffice, w, forest, n) {
        assert Decides(isOffice, w, forest, n - 1);
      }
    }
  }

  lemma NoneBeyond(isOffice: string -> bool, w: seq<string -> bool>, forest: seq<Node>)
    ensures forall k: nat :: Decides(isOffice, w, forest, k) ==> k < |forest|
  {
    hide Breaks, HasMartians;
  }

  lemma NoMartiansWithoutChildren(w: seq<string -> bool>, p: Node)
    requires p.Node? && p.children == []
    ensures MartiansBelow(w, p) == []
  {
  }

  // ---- the same in full ----

  lemma OfficePackageInFull(package: string)
    ensures OfficePackage(package) <==>
      exists p, before, rest :: (p == "ppt" || p == "doc" || p == "xls" || p == "eml") && package == before + p + rest
  {
    hide Contains;
    forall i | 0 <= i < 4 ensures Contains(package, OfficePackages[i]) <==>
      exists before, rest :: package == before + OfficePackages[i] + rest
    {
      ContainsInFull(package, OfficePackages[i]);
    }
    if p, before, rest :| (p == "ppt" || p == "doc" || p == "xls" || p == "eml") && package == before + p + rest {
      var i := if p == "ppt" then 0 else if p == "doc" then 1 else if p == "xls" then 2 else 3;
      assert OfficePackages[i] == p && package == before + OfficePackages[i] + rest;
    }
  }

  /** The paths collected from a tree, in full. */
  lemma PathsInFull(nodes: seq<Node>, k: nat)
    requires k < |nodes|
    ensures |Paths(nodes)| == |nodes|
    ensures Paths(nodes)[k] == if nodes[k].path.Some? then Lower(nodes[k].path.value) else ""
  {
  }

  /** A tree decides with martians when it is a complete tree under an Office process and some path below
      is matched by no whitelist entry. */
  lemma HasMartiansInFull(isOffice: string -> bool, w: seq<string -> bool>, p: Node)
    ensures HasMartians(isOffice, w, p) <==>
      && p.path.Some? && Lower(p.path.value) != "" && isOffice(Lower(p.path.value)) && p.Node?
      && (forall n :: n in Nodes(p.children) ==> n.path.Some? && n.Node?)
      && exists n :: n in Nodes(p.children) && n.path.Some? && forall i :: 0 <= i < |w| ==> !w[i](Lower(n.path.value))
  {
    hide Nodes, NotWhitelisted;
    if IsOfficeRoot(isOffice, p) && Complete(p.children) {
      var nodes := Nodes(p.children);
      var paths := Paths(nodes);
      if MartiansBelow(w, p) != [] {
        var q := NotWhitelisted(w, paths)[0];
        NotWhitelistedMeaning(w, paths, q);
        var k :| 0 <= k < |paths| && paths[k] == q;
        assert nodes[k] in nodes && !Whitelisted(w, Lower(nodes[k].path.value));
        assert forall i :: 0 <= i < |w| ==> !w[i](Lower(nodes[k].path.value));
      }
      if n :| n in nodes && n.path.Some? && forall i :: 0 <= i < |w| ==> !w[i](Lower(n.path.value)) {
        var k :| 0 <= k < |nodes| && nodes[k] == n;
        assert paths[k] == Lower(n.path.value);
        NotWhitelistedMeaning(w, paths, Lower(n.path.value));
      }
    }
  }

  /** A node the COM pass reports, in full: activated by an Office process anywhere in the forest, with a
      path that no whitelist entry matches. */
  lemma ComMartianInFull(isOffice: string -> bool, w: seq<string -> bool>, forest: seq<Node>, f: Finding)
    ensures f in ComFindings(w, OfficePids(isOffice, forest), Nodes(forest)) <==>
      exists n, o ::
        && n in Nodes(forest) && o in Nodes(forest)
        && n.path.Some? && Lower(n.path.value) != "" && n.comParent == Some(o.pid)
        && isOffice(if o.path.Some? then Lower(o.path.value) else "")
        && (forall i :: 0 <= i < |w| ==> !w[i](Lower(n.path.value)))
        && f == ComMartian(Lower(n.path.value), o.pid)
  {
    hide Nodes, ComFindings;
    var nodes, pids := Nodes(forest), OfficePids(isOffice, forest);
    ComFindingsMeaning(w, pids, nodes, f);
    if n :| n in nodes && IsComMartian(w, pids, n) && f == ComMartian(PathOf(n), n.comParent.value) {
      var o :| o in nodes && isOffice(PathOf(o)) && o.pid == n.comParent.value;
      assert n in nodes && o in nodes;
    }
    if n, o :|
      && n in nodes && o in nodes
      && n.path.Some? && Lower(n.path.value) != "" && n.comParent == Some(o.pid)
      && isOffice(if o.path.Some? then Lower(o.path.value) else "")
      && (forall i :: 0 <= i < |w| ==> !w[i](Lower(n.path.value)))
      && f == ComMartian(Lower(n.path.value), o.pid)
    {
      assert isOffice(PathOf(o)) && IsComMartian(w, pids, n);
    }
  }

  // ---- the signature ----

  class PathList {
    var items: seq<string>

    constructor ()
      ensures items == []
    {
      items := [];
    }
  }

  class MartiansOffice {
    const isOffice: string -> bool
    const whitelist: seq<string -> bool>
    var officePids: set<int>
    var data: seq<Finding>

    /** The compiled whitelist ends with the Office pattern. */
    constructor (isOffice: string -> bool, patterns: seq<string -> bool>)
      ensures this.isOffice == isOffice && whitelist == patterns + [isOffice]
      ensures officePids == {} && data == []
    {
      this.isOffice, whitelist := isOffice, patterns + [isOffice];
      officePids, data := {}, [];
    }

    /** Appends the lower-cased paths of the tree to the shared list, in preorder. */
    method GoDeeper(n: Node, result: PathList) returns (ok: bool)
      modifies result
      ensures ok <==> Complete([n])
      ensures ok ==> result.items == old(result.items) + Paths(Nodes([n]))
      decreases n
    {
      hide Nodes, Paths, Complete, PathOf;
      if n.path.None? || n.Stub? {
        RootCompleteness(n);
        return false;
      }
      RootCompleteness(n);
      result.items := result.items + [Lower(n.path.value)];
      RootPath(n, result.items, old(result.items));
      for i := 0 to |n.children|
        invariant Complete(n.children[..i])
        invariant result.items == old(result.items) + Paths([n] + Nodes(n.children[..i]))
      {
        NextChild(n, i);
        ghost var before := result.items;
        ok := GoDeeper(n.children[i], result);
        if !ok {
          return;
        }
        assert result.items == before + Paths(Nodes([n.children[i]]));
      }
      assert n.children[..|n.children|] == n.children;
      return true;
    }

    /** The paths of the tree that no whitelist entry matches; none when the root has no children. */
    method FindMartians(p: Node) returns (ok: bool, martians: seq<string>)
      requires p.Node?
      ensures ok <==> p.children == [] || Complete([p])
      ensures ok ==> martians == if p.children == [] then [] else NotWhitelisted(whitelist, Paths(Nodes([p])))
    {
      hide Nodes, Paths, Complete, PathOf;
      martians := [];
      if p.children == [] {
        return true, martians;
      }
      var shared := new PathList();
      ok := GoDeeper(p, shared);
      if !ok {
        return;
      }
      var children := shared.items;
      for i := 0 to |children|
        invariant martians == NotWhitelisted(whitelist, children[..i])
      {
        assert Front(children[..i + 1]) == children[..i] && Last(children[..i + 1]) == children[i];
        var matchFound := false;
        for j := 0 to |whitelist|
          invariant matchFound <==> exists m :: 0 <= m < j && whitelist[m](children[i])
        {
          if whitelist[j](children[i]) {
            matchFound := true;
          }
        }
        if !matchFound {
          martians := martians + [children[i]];
        }
      }
      assert children[..|children|] == children;
    }

    /** Adds the pids of the Office processes of the forest. */
    method CollectOfficePids(nodes: seq<Node>)
      modifies this`officePids
      ensures officePids == old(officePids) + OfficePids(isOffice, nodes)
      decreases nodes
    {
      hide Nodes, OfficePids, PathOf;
      NoPids(isOffice);
      for i := 0 to |nodes|
        invariant officePids == old(officePids) + OfficePids(isOffice, nodes[..i])
      {
        var n := nodes[i];
        OfficePidsSnoc(isOffice, nodes[..i], n);
        assert nodes[..i + 1] == nodes[..i] + [n];
        if isOffice(PathOf(n)) {
          officePids := officePids + {n.pid};
        }
        if n.Node? {
          CollectOfficePids(n.children);
        }
      }
      assert nodes[..|nodes|] == nodes;
    }

    method InWhitelist(path: string) returns (found: bool)
      ensures found <==> Whitelisted(whitelist, path)
    {
      for j := 0 to |whitelist|
        invariant forall m :: 0 <= m < j ==> !whitelist[m](path)
      {
        if whitelist[j](path) {
          return true;
        }
      }
      return false;
    }

    /** Reports the COM children of Office processes, in preorder. */
    method CheckComMartians(nodes: seq<Node>)
      modifies this`data
      ensures data == old(data) + ComFindings(whitelist, officePids, Nodes(nodes))
      decreases nodes
    {
      hide Nodes, PathOf, Whitelisted, ComFindings;
      NoFindings(whitelist, officePids);
      for i := 0 to |nodes|
        invariant data == old(data) + ComFindings(whitelist, officePids, Nodes(nodes[..i]))
      {
        var n := nodes[i];
        ghost var before := data;
        ComFindingsSnoc(whitelist, officePids, nodes[..i], n);
        assert nodes[..i + 1] == nodes[..i] + [n];
        if n.comParent.Some? && n.comParent.value in officePids {
          var path := PathOf(n);
          var listed := InWhitelist(path);
          if path != "" && !listed {
            data := data + [ComMartian(path, n.comParent.value)];
          }
        }
        assert data == before + OwnFinding(whitelist, officePids, n);
        if n.Node? {
          CheckComMartians(n.children);
        }
      }
      assert nodes[..|nodes|] == nodes;
    }

    /** The tree pass stops at the first tree that decides it; only when none does are the COM children
        of the whole forest looked at. */
    method Run(isUrl: bool, package: string, processes: seq<Node>) returns (out: Outcome)
      requires isOffice in whitelist
      modifies this
      ensures isUrl || !OfficePackage(package) ==> out == Returned(false) && data == old(data)
      ensures !isUrl && OfficePackage(package) ==>
                forall k: nat :: Decides(isOffice, whitelist, processes, k) ==>
                  TreeOutcome(whitelist, isOffice, processes[k], old(data), out, data)
      ensures !isUrl && OfficePackage(package) && (forall k: nat :: !Decides(isOffice, whitelist, processes, k)) ==>
                && data == old(data) + ComFindings(whitelist, OfficePids(isOffice, processes), Nodes(processes))
                && out == Returned(data != [])
    {
      hide Nodes, Complete, Whitelisted, NotWhitelisted, ComFindings, OfficePids, Decides, OfficePackage;
      hide MartiansOf, Paths, PathOf;
      if isUrl || !OfficePackage(package) {
        return Returned(false);
      }
      for i := 0 to |processes|
        invariant data == old(data)
        invariant Undecided(isOffice, whitelist, processes, i)
      {
        var p := processes[i];
        RootCompleteness(p);
        if p.path.None? {
          DecidedHere(isOffice, whitelist, processes, i);
          return Raised;
        }
        if PathOf(p) != "" && isOffice(PathOf(p)) && p.Node? {
          RootIsNoMartian(isOffice, whitelist, p);
          if p.children == [] {
            NoMartiansWithoutChildren(whitelist, p);
          }
          var ok, martians := FindMartians(p);
          if !ok {
            DecidedHere(isOffice, whitelist, processes, i);
            return Raised;
          }
          if |martians| > 0 {
            DecidedHere(isOffice, whitelist, processes, i);
            data := data + MartiansOf(martians);
            return Returned(true);
          }
        }
      }
      SomeTreeDecides(isOffice, whitelist, processes, |processes|);
      NoneBeyond(isOffice, whitelist, processes);
      officePids := {};
      CollectOfficePids(processes);
      assert officePids == OfficePids(isOffice, processes);
      CheckComMartians(processes);
      return Returned(data != []);
    }
  }
}
