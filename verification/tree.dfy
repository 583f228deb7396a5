/**
 The site tree a crawl builds (api/v1/types.go `Node`) and `AddToTree`
 (crawler_server/main.go:51-78), which inserts one segment list. The Go tree
 shares each children slice through a pointer and appends to it in place;
 here a node is an immutable value and insertion returns the updated tree.
 The model has no nil children pointer: below the root the rendering treats
 nil and empty alike, and the only difference at the root is left out.
 */
module SiteTree {

  datatype Node = Node(name: string, children: seq<Node>)

  /** The index of the first child called `name`, or `|children|` when no
      child has that name: the range loop of main.go:63-68 that returns on
      the first match. */
  function FindChild(children: seq<Node>, name: string): (i: nat)
    ensures i <= |children|
    ensures i < |children| ==> children[i].name == name
    ensures forall j :: 0 <= j < i ==> children[j].name != name
  {
    if |children| == 0 then 0
    else if children[0].name == name then 0
    else 1 + FindChild(children[1..], name)
  }

  /** `AddToTree(root, parts)`. An empty list changes nothing. Otherwise the
      first segment is looked up among the children (before it is checked
      for emptiness, as in the source): a match is descended into with the
      remaining segments; an unmatched empty segment ends the insertion; an
      unmatched non-empty segment becomes a new last child, into which the
      remaining segments are inserted.
      The contract: the node keeps its name; at most one child is added, at
      the end; the existing children keep their positions and names. */
  function AddToTree(root: Node, parts: seq<string>): (r: Node)
    ensures r.name == root.name
    ensures |root.children| <= |r.children| <= |root.children| + 1
    ensures forall j :: 0 <= j < |root.children| ==> r.children[j].name == root.children[j].name
    decreases |parts|
  {
    if |parts| == 0 then root
    else
      var name := parts[0];
      var rest := parts[1..];
      var i := FindChild(root.children, name);
      if i < |root.children| then
        root.(children := root.children[i := AddToTree(root.children[i], rest)])
      else if |name| == 0 then root
      else
        root.(children := root.children + [AddToTree(Node(name, []), rest)])
  }

  /** The segments of `parts` before its first empty one: the part of the
      list insertion can act on in a tree without empty names. */
  function TakeUntilEmpty(parts: seq<string>): (r: seq<string>)
    ensures r <= parts
    ensures forall k :: 0 <= k < |r| ==> r[k] != ""
    ensures |r| < |parts| ==> parts[|r|] == ""
  {
    if |parts| == 0 || parts[0] == "" then [] else [parts[0]] + TakeUntilEmpty(parts[1..])
  }

  /** The chain of single-child nodes spelling the non-empty prefix of `parts`. */
  function Chain(parts: seq<string>): seq<Node>
  {
    if |parts| == 0 || parts[0] == "" then [] else [Node(parts[0], Chain(parts[1..]))]
  }

  /** No two of the nodes share a name. */
  predicate UniqueNames(cs: seq<Node>) {
    forall i, j :: 0 <= i < j < |cs| ==> cs[i].name != cs[j].name
  }

  /** The invariant insertion preserves: at every level sibling names are
      unique, and no node below the root is named "". The root's own name
      (the site) is unconstrained. */
  predicate WellFormed(n: Node)
    decreases n
  {
    && UniqueNames(n.children)
    && forall k :: 0 <= k < |n.children| ==> n.children[k].name != "" && WellFormed(n.children[k])
  }

  /** The tree contains the path `path` below `n`: it can be followed one
      child name at a time. */
  ghost predicate HasPath(n: Node, path: seq<string>)
    decreases |path|
  {
    |path| == 0 ||
    exists k :: 0 <= k < |n.children| && n.children[k].name == path[0] && HasPath(n.children[k], path[1..])
  }

  /** A childless node holds only the empty path. */
  lemma ChildlessPaths(n: Node, q: seq<string>)
    requires |n.children| == 0
    ensures HasPath(n, q) <==> q == []
  {
  }

  /** Inserting the empty list leaves the node unchanged (main.go:52-54). */
  lemma InsertNothing(n: Node)
    ensures AddToTree(n, []) == n
  {
  }

  /** A first segment that names an existing child adds no child at this
      level; insertion continues inside the first child of that name and
      every other child is untouched (main.go:63-67). */
  lemma InsertExisting(n: Node, parts: seq<string>, i: nat)
    requires |parts| > 0 && i < |n.children| && n.children[i].name == parts[0]
    requires forall j :: 0 <= j < i ==> n.children[j].name != parts[0]
    ensures AddToTree(n, parts) == n.(children := n.children[i := AddToTree(n.children[i], parts[1..])])
  {
    var f := FindChild(n.children, parts[0]);
    assert f == i;
  }

  /** A new non-empty first segment appends exactly one child with that name
      after the existing children; the node's name is unchanged and the new
      child is the chain of the remaining segments (main.go:69-76). */
  lemma InsertNew(n: Node, parts: seq<string>)
    requires |parts| > 0 && parts[0] != ""
    requires forall j :: 0 <= j < |n.children| ==> n.children[j].name != parts[0]
    ensures AddToTree(n, parts) == Node(n.name, n.children + [Node(parts[0], Chain(parts[1..]))])
  {
    InsertFresh(parts[0], parts[1..]);
  }

  /** An unmatched empty segment ends insertion with nothing added at or
      below it (main.go:69-71). */
  lemma InsertEmptySegment(n: Node, parts: seq<string>)
    requires |parts| > 0 && parts[0] == ""
    requires forall j :: 0 <= j < |n.children| ==> n.children[j].name != ""
    ensures AddToTree(n, parts) == n
  {
  }

  /** Inserting into a new childless node builds the chain of segments up
      to the first empty one. */
  lemma {:induction false} InsertFresh(name: string, parts: seq<string>)
    ensures AddToTree(Node(name, []), parts) == Node(name, Chain(parts))
    decreases |parts|
  {
    if |parts| > 0 && parts[0] != "" {
      InsertFresh(parts[0], parts[1..]);
    }
  }

  /** In a tree without empty names, only the segments before the first
      empty one matter: `a//b` inserts just `a`. */
  lemma {:induction false} InsertStopsAtEmpty(n: Node, parts: seq<string>)
    requires WellFormed(n)
    ensures AddToTree(n, parts) == AddToTree(n, TakeUntilEmpty(parts))
    decreases |parts|
  {
    if |parts| > 0 && parts[0] != "" {
      var name := parts[0];
      var i := FindChild(n.children, name);
      assert TakeUntilEmpty(parts)[0] == name;
      assert TakeUntilEmpty(parts)[1..] == TakeUntilEmpty(parts[1..]);
      if i < |n.children| {
        InsertStopsAtEmpty(n.children[i], parts[1..]);
      } else {
        InsertStopsAtEmpty(Node(name, []), parts[1..]);
      }
    }
  }

  /** Two child lists with the same names position by position have the
      same first match for every name. */
  lemma FindChildByNames(a: seq<Node>, b: seq<Node>, name: string)
    requires |a| == |b|
    requires forall j :: 0 <= j < |a| ==> a[j].name == b[j].name
    ensures FindChild(a, name) == FindChild(b, name)
  {
  }

  /** A child appended under a name no earlier child has is the first
      match for that name. */
  lemma {:induction false} FindChildAppended(cs: seq<Node>, x: Node, name: string)
    requires FindChild(cs, name) == |cs| && x.name == name
    ensures FindChild(cs + [x], name) == |cs|
    decreases |cs|
  {
    if |cs| > 0 {
      assert cs[0].name != name;
      assert (cs + [x])[1..] == cs[1..] + [x];
      FindChildAppended(cs[1..], x, name);
    }
  }

  /** Inserting the same segment list twice gives the same tree as
      inserting it once. */
  lemma {:induction false} InsertIdempotent(n: Node, parts: seq<string>)
    ensures AddToTree(AddToTree(n, parts), parts) == AddToTree(n, parts)
    decreases |parts|
  {
    if |parts| > 0 {
      var name, rest := parts[0], parts[1..];
      var once := AddToTree(n, parts);
      var i := FindChild(n.children, name);
      if i < |n.children| {
        FindChildByNames(n.children, once.children, name);
        InsertIdempotent(n.children[i], rest);
      } else if |name| > 0 {
        var leaf := AddToTree(Node(name, []), rest);
        assert once.children == n.children + [leaf];
        FindChildAppended(n.children, leaf, name);
        InsertIdempotent(Node(name, []), rest);
        assert once.children[|n.children| := AddToTree(leaf, rest)] == once.children;
      }
    }
  }

  /** Insertion preserves sibling-name uniqueness and the absence of empty
      names below the root (main.go:63-75, read sequentially). */
  lemma {:induction false} InsertPreservesWellFormed(n: Node, parts: seq<string>)
    requires WellFormed(n)
    ensures WellFormed(AddToTree(n, parts))
    decreases |parts|
  {
    if |parts| > 0 {
      var name, rest := parts[0], parts[1..];
      var r := AddToTree(n, parts);
      var i := FindChild(n.children, name);
      if i < |n.children| {
        InsertPreservesWellFormed(n.children[i], rest);
        assert forall k :: 0 <= k < |n.children| ==> r.children[k].name == n.children[k].name;
        assert forall k :: 0 <= k < |r.children| && k != i ==> r.children[k] == n.children[k];
      } else if |name| > 0 {
        assert WellFormed(Node(name, []));
        InsertPreservesWellFormed(Node(name, []), rest);
        assert forall k :: 0 <= k < |n.children| ==> r.children[k] == n.children[k];
        assert r.children[|n.children|].name == name;
      }
    }
  }

  /** Following a path through a prefix-matching list of segments. */
  lemma PrefixCons(q: seq<string>, name: string, t: seq<string>)
    requires |q| > 0
    ensures q <= [name] + t <==> q[0] == name && q[1..] <= t
  {
    if q[0] == name && q[1..] <= t {
      assert q == [name] + q[1..];
    }
  }

  /** What insertion adds, exactly: in a well-formed tree, after inserting
      `parts` a path is present if and only if it was present before or is a
      prefix of the segments before the first empty one. */
  lemma {:induction false} InsertPaths(n: Node, parts: seq<string>, q: seq<string>)
    requires WellFormed(n)
    ensures HasPath(AddToTree(n, parts), q) <==> HasPath(n, q) || q <= TakeUntilEmpty(parts)
    decreases |parts|
  {
    if |parts| > 0 && |q| > 0 && parts[0] != "" {
      var name, rest := parts[0], parts[1..];
      var r := AddToTree(n, parts);
      var i := FindChild(n.children, name);
      assert TakeUntilEmpty(parts) == [name] + TakeUntilEmpty(rest);
      PrefixCons(q, name, TakeUntilEmpty(rest));
      if i < |n.children| {
        InsertPaths(n.children[i], rest, q[1..]);
        PathsReplaced(n, i, AddToTree(n.children[i], rest), q);
      } else {
        var leaf := Node(name, []);
        InsertPaths(leaf, rest, q[1..]);
        PathsAppended(n, AddToTree(leaf, rest), q);
      }
    } else if |parts| > 0 && |q| > 0 {
      assert AddToTree(n, parts) == n;
    }
  }

  /** Replacing child `i` by a node of the same name that keeps the
      child's paths below `q[0]`: the paths through the other children are
      unchanged. */
  lemma PathsReplaced(n: Node, i: nat, c: Node, q: seq<string>)
    requires |q| > 0 && i < |n.children| && c.name == n.children[i].name
    requires HasPath(n.children[i], q[1..]) ==> HasPath(c, q[1..])
    ensures HasPath(n.(children := n.children[i := c]), q) <==>
              HasPath(n, q) || (q[0] == c.name && HasPath(c, q[1..]))
  {
    var r := n.(children := n.children[i := c]);
    if HasPath(r, q) {
      var k :| 0 <= k < |r.children| && r.children[k].name == q[0] && HasPath(r.children[k], q[1..]);
      if k != i {
        assert n.children[k] == r.children[k];
      }
    }
    if HasPath(n, q) {
      var k :| 0 <= k < |n.children| && n.children[k].name == q[0] && HasPath(n.children[k], q[1..]);
      assert r.children[k].name == q[0];
      if k != i {
        assert n.children[k] == r.children[k];
      }
    }
    if q[0] == c.name && HasPath(c, q[1..]) {
      assert r.children[i] == c;
    }
  }

  /** Appending a child adds exactly the paths through it. */
  lemma PathsAppended(n: Node, x: Node, q: seq<string>)
    requires |q| > 0
    ensures HasPath(n.(children := n.children + [x]), q) <==>
              HasPath(n, q) || (q[0] == x.name && HasPath(x, q[1..]))
  {
    var cs := n.children + [x];
    assert n.(children := cs) == Node(n.name, cs);
    AppendedPathsFrom(n, cs, x, q);
    AppendedPathsKept(n, cs, x, q);
    AppendedPathsNew(n, cs, x, q);
  }

  /** A path of the grown node goes through an old child or the new one. */
  lemma AppendedPathsFrom(n: Node, cs: seq<Node>, x: Node, q: seq<string>)
    requires |q| > 0 && cs == n.children + [x]
    ensures HasPath(Node(n.name, cs), q) ==> HasPath(n, q) || (q[0] == x.name && HasPath(x, q[1..]))
  {
    if HasPath(Node(n.name, cs), q) {
      var k :| 0 <= k < |cs| && cs[k].name == q[0] && HasPath(cs[k], q[1..]);
      if k < |n.children| {
        assert cs[k] == n.children[k];
        assert HasPath(n, q);
      } else {
        assert cs[k] == x;
      }
    }
  }

  /** The old paths are all in the grown node. */
  lemma AppendedPathsKept(n: Node, cs: seq<Node>, x: Node, q: seq<string>)
    requires |q| > 0 && cs == n.children + [x]
    ensures HasPath(n, q) ==> HasPath(Node(n.name, cs), q)
  {
    if HasPath(n, q) {
      var k :| 0 <= k < |n.children| && n.children[k].name == q[0] && HasPath(n.children[k], q[1..]);
      assert cs[k] == n.children[k];
    }
  }

  /** The paths through the new child are in the grown node. */
  lemma AppendedPathsNew(n: Node, cs: seq<Node>, x: Node, q: seq<string>)
    requires |q| > 0 && cs == n.children + [x]
    ensures q[0] == x.name && HasPath(x, q[1..]) ==> HasPath(Node(n.name, cs), q)
  {
    assert cs[|n.children|] == x;
  }

  /** The sequential reading of many workers' insertions: each segment list
      inserted in turn. */
  function InsertAll(n: Node, lists: seq<seq<string>>): Node
    decreases |lists|
  {
    if |lists| == 0 then n else InsertAll(AddToTree(n, lists[0]), lists[1..])
  }

  /** Any sequence of insertions preserves the invariant. */
  lemma {:induction false} InsertAllPreservesWellFormed(n: Node, lists: seq<seq<string>>)
    requires WellFormed(n)
    ensures WellFormed(InsertAll(n, lists))
    decreases |lists|
  {
    if |lists| > 0 {
      InsertPreservesWellFormed(n, lists[0]);
      InsertAllPreservesWellFormed(AddToTree(n, lists[0]), lists[1..]);
    }
  }

  /** Completeness: after any sequence of insertions into a well-formed tree,
      a path is present exactly when it was present before or is a prefix of
      one of the inserted lists (cut at its first empty segment). The set of
      paths does not depend on the order of the insertions. */
  lemma {:induction false} InsertAllPaths(n: Node, lists: seq<seq<string>>, q: seq<string>)
    requires WellFormed(n)
    ensures HasPath(InsertAll(n, lists), q) <==>
              HasPath(n, q) || exists k :: 0 <= k < |lists| && q <= TakeUntilEmpty(lists[k])
    decreases |lists|
  {
    if |lists| > 0 {
      var m := AddToTree(n, lists[0]);
      InsertPreservesWellFormed(n, lists[0]);
      InsertPaths(n, lists[0], q);
      InsertAllPaths(m, lists[1..], q);
      if exists k :: 0 <= k < |lists[1..]| && q <= TakeUntilEmpty(lists[1..][k]) {
        var k :| 0 <= k < |lists[1..]| && q <= TakeUntilEmpty(lists[1..][k]);
        assert lists[1..][k] == lists[k + 1];
      }
      if exists k :: 0 <= k < |lists| && q <= TakeUntilEmpty(lists[k]) {
        var k :| 0 <= k < |lists| && q <= TakeUntilEmpty(lists[k]);
        if k > 0 {
          assert lists[1..][k - 1] == lists[k];
        }
      }
    }
  }
}
