/**
 `PrintTree` (common/common.go:15-22): the preorder, indented rendering of a
 site tree, one line per descendant of the root. The source prints each line;
 here the lines are returned in order. A parser for the rendering is defined
 alongside it, and the rendering is shown to lose nothing but the root's name.
 */
module Render {
  import opened SiteTree
  import opened Optional

  /** `strings.Repeat(" ", n)`. */
  function Spaces(n: nat): (r: string)
    ensures |r| == n
    ensures forall k :: 0 <= k < n ==> r[k] == ' '
  {
    if n == 0 then "" else Spaces(n - 1) + " "
  }

  /** The line for a node named `name` at depth `depth` (common.go:17). */
  function Line(depth: nat, name: string): string
  {
    Spaces(depth * 4) + "+--" + name
  }

  /** `PrintTree(root, depth)`: the lines for the children of `root`, each
      followed by the lines of its own subtree one level deeper. The
      recursion is skipped for a child without children (common.go:18). */
  function PrintTree(root: Node, depth: nat): (r: seq<string>)
    ensures |r| == Size(root.children)
    ensures |root.children| == 0 ==> r == []
  {
    PrintChildren(root.children, depth)
  }

  /** The range loop of `PrintTree` over a list of children. */
  function PrintChildren(cs: seq<Node>, depth: nat): (r: seq<string>)
    ensures |r| == Size(cs)
    decreases cs
  {
    if |cs| == 0 then []
    else
      [Line(depth, cs[0].name)]
      + (if |cs[0].children| != 0 then PrintChildren(cs[0].children, depth + 1) else [])
      + PrintChildren(cs[1..], depth)
  }

  /** One rendered node: its depth and its name. */
  datatype Entry = Entry(depth: nat, name: string)

  /** The nodes of a forest in preorder, with their depths: the reference
      order the rendering is meant to follow. */
  function Flatten(cs: seq<Node>, depth: nat): seq<Entry>
    decreases cs
  {
    if |cs| == 0 then []
    else [Entry(depth, cs[0].name)] + Flatten(cs[0].children, depth + 1) + Flatten(cs[1..], depth)
  }

  /** The number of nodes in a forest. */
  function Size(cs: seq<Node>): nat
    decreases cs
  {
    if |cs| == 0 then 0 else 1 + Size(cs[0].children) + Size(cs[1..])
  }

  /** The line of every entry, in order. */
  function Lines(es: seq<Entry>): (r: seq<string>)
    ensures |r| == |es|
  {
    if |es| == 0 then [] else [Line(es[0].depth, es[0].name)] + Lines(es[1..])
  }

  /** Line `k` is the line of entry `k`. */
  lemma {:induction false} LinesAt(es: seq<Entry>, k: nat)
    requires k < |es|
    ensures Lines(es)[k] == Line(es[k].depth, es[k].name)
    decreases k
  {
    if k > 0 {
      LinesAt(es[1..], k - 1);
    }
  }

  /** Rendering two runs of entries one after the other. */
  lemma {:induction false} LinesAppend(a: seq<Entry>, b: seq<Entry>)
    ensures Lines(a + b) == Lines(a) + Lines(b)
    decreases |a|
  {
    if |a| == 0 {
      assert a + b == b;
    } else {
      assert (a + b)[0] == a[0];
      assert (a + b)[1..] == a[1..] + b;
      LinesAppend(a[1..], b);
      var head := [Line(a[0].depth, a[0].name)];
      assert Lines(a + b) == head + (Lines(a[1..]) + Lines(b));
    }
  }

  /** Every entry of the preorder of a depth-`depth` forest lies at depth
      `depth` or deeper, and the first one at exactly `depth`. */
  lemma {:induction false} FlattenDepths(cs: seq<Node>, depth: nat)
    ensures |Flatten(cs, depth)| == Size(cs)
    ensures forall k :: 0 <= k < |Flatten(cs, depth)| ==> Flatten(cs, depth)[k].depth >= depth
    ensures |cs| > 0 ==> Flatten(cs, depth)[0] == Entry(depth, cs[0].name)
    decreases cs
  {
    if |cs| > 0 {
      FlattenDepths(cs[0].children, depth + 1);
      FlattenDepths(cs[1..], depth);
    }
  }

  /** The rendering is the line of every node of the preorder, in order:
      each line is `4 * depth` spaces, "+--" and the node's name. */
  lemma {:induction false} PrintIsPreorder(cs: seq<Node>, depth: nat)
    ensures PrintChildren(cs, depth) == Lines(Flatten(cs, depth))
    decreases cs
  {
    if |cs| > 0 {
      var c := cs[0];
      PrintIsPreorder(c.children, depth + 1);
      PrintIsPreorder(cs[1..], depth);
      LinesAppend([Entry(depth, c.name)] + Flatten(c.children, depth + 1), Flatten(cs[1..], depth));
      LinesAppend([Entry(depth, c.name)], Flatten(c.children, depth + 1));
    }
  }

  /** Exactly one line per descendant of the root, each naming one node at
      a depth no smaller than the starting depth, in preorder
      (common.go:15-21). */
  lemma PrintLines(root: Node, depth: nat)
    ensures |PrintTree(root, depth)| == Size(root.children) == |Flatten(root.children, depth)|
    ensures forall k :: 0 <= k < |PrintTree(root, depth)| ==>
              PrintTree(root, depth)[k] == Line(Flatten(root.children, depth)[k].depth, Flatten(root.children, depth)[k].name)
              && Flatten(root.children, depth)[k].depth >= depth
  {
    PrintIsPreorder(root.children, depth);
    FlattenDepths(root.children, depth);
    forall k | 0 <= k < |PrintTree(root, depth)|
      ensures PrintTree(root, depth)[k]
              == Line(Flatten(root.children, depth)[k].depth, Flatten(root.children, depth)[k].name)
    {
      LinesAt(Flatten(root.children, depth), k);
    }
  }

  /** Siblings are rendered in child-list order: the rendering of a list of
      children is the rendering of its first part followed by that of the
      rest. */
  lemma PrintSiblings(a: seq<Node>, b: seq<Node>, depth: nat)
    ensures PrintChildren(a + b, depth) == PrintChildren(a, depth) + PrintChildren(b, depth)
  {
    PrintIsPreorder(a + b, depth);
    PrintIsPreorder(a, depth);
    PrintIsPreorder(b, depth);
    FlattenAppend(a, b, depth);
    LinesAppend(Flatten(a, depth), Flatten(b, depth));
  }

  /** The preorder of two forests side by side is one preorder after the
      other. */
  lemma {:induction false} FlattenAppend(a: seq<Node>, b: seq<Node>, depth: nat)
    ensures Flatten(a + b, depth) == Flatten(a, depth) + Flatten(b, depth)
    decreases |a|
  {
    if |a| == 0 {
      assert a + b == b;
    } else {
      var head := [Entry(depth, a[0].name)] + Flatten(a[0].children, depth + 1);
      assert (a + b)[0] == a[0];
      assert (a + b)[1..] == a[1..] + b;
      FlattenAppend(a[1..], b, depth);
      calc {
        Flatten(a + b, depth);
        head + Flatten(a[1..] + b, depth);
        head + (Flatten(a[1..], depth) + Flatten(b, depth));
        (head + Flatten(a[1..], depth)) + Flatten(b, depth);
      }
    }
  }

  /** Preorder at one child: its line comes right after the lines of the
      children before it and right before its own subtree, rendered one
      level deeper, which in turn comes right before the later children
      (common.go:16-20). A child without children contributes its line
      alone. */
  lemma PrintChild(root: Node, i: nat, depth: nat)
    requires i < |root.children|
    ensures PrintTree(root, depth) ==
              PrintChildren(root.children[..i], depth)
              + [Line(depth, root.children[i].name)]
              + PrintTree(root.children[i], depth + 1)
              + PrintChildren(root.children[i + 1..], depth)
    ensures |root.children[i].children| == 0 ==> PrintTree(root.children[i], depth + 1) == []
  {
    PrintSplitAt(root.children, i, depth);
    PrintFrom(root.children, i, depth);
  }

  lemma PrintSplitAt(cs: seq<Node>, i: nat, depth: nat)
    requires i <= |cs|
    ensures PrintChildren(cs, depth) == PrintChildren(cs[..i], depth) + PrintChildren(cs[i..], depth)
  {
    assert cs == cs[..i] + cs[i..];
    PrintSiblings(cs[..i], cs[i..], depth);
  }

  lemma PrintFrom(cs: seq<Node>, i: nat, depth: nat)
    requires i < |cs|
    ensures PrintChildren(cs[i..], depth)
            == [Line(depth, cs[i].name)] + PrintTree(cs[i], depth + 1) + PrintChildren(cs[i + 1..], depth)
  {
    var tail := cs[i..];
    assert tail[0] == cs[i] && tail[1..] == cs[i + 1..];
    PrintFirst(tail, depth);
  }

  /** The first child's line, then its subtree one level deeper, then the
      later children. */
  lemma PrintFirst(cs: seq<Node>, depth: nat)
    requires |cs| > 0
    ensures PrintChildren(cs, depth)
            == [Line(depth, cs[0].name)] + PrintTree(cs[0], depth + 1) + PrintChildren(cs[1..], depth)
  {
  }

  /** The rendering does not depend on the root's name: the root itself is
      never printed. */
  lemma PrintIgnoresRootName(root: Node, name: string, depth: nat)
    ensures PrintTree(root, depth) == PrintTree(root.(name := name), depth)
  {
  }

  /** The number of leading spaces of `s`. */
  function LeadingSpaces(s: string): (k: nat)
    ensures k <= |s|
    ensures forall j :: 0 <= j < k ==> s[j] == ' '
    ensures k < |s| ==> s[k] != ' '
  {
    if |s| > 0 && s[0] == ' ' then 1 + LeadingSpaces(s[1..]) else 0
  }

  /** Reads one rendered line back: a multiple of four spaces, "+--", then
      the name (which may itself contain anything). */
  function ParseLine(s: string): Option<Entry>
  {
    var k := LeadingSpaces(s);
    if k % 4 == 0 && k + 3 <= |s| && s[k..k + 3] == "+--" then Some(Entry(k / 4, s[k + 3..])) else None
  }

  /** Every line reads back as the entry it was made from. */
  lemma ParseLineRoundTrip(depth: nat, name: string)
    ensures ParseLine(Line(depth, name)) == Some(Entry(depth, name))
  {
    var s := Line(depth, name);
    var n := depth * 4;
    assert s[n] == '+';
    assert forall j :: 0 <= j < n ==> s[j] == ' ';
    assert LeadingSpaces(s) == n;
    assert s[n..n + 3] == "+--";
    assert s[n + 3..] == name;
  }

  /** Reads every line, failing on the first that is not a rendered line. */
  function ParseLines(lines: seq<string>): (r: Option<seq<Entry>>)
    ensures r.Some? ==> |r.value| == |lines|
  {
    if |lines| == 0 then Some([])
    else match (ParseLine(lines[0]), ParseLines(lines[1..]))
      case (Some(e), Some(es)) => Some([e] + es)
      case _ => None
  }

  lemma {:induction false} ParseLinesRoundTrip(es: seq<Entry>)
    ensures ParseLines(Lines(es)) == Some(es)
  {
    if |es| > 0 {
      ParseLineRoundTrip(es[0].depth, es[0].name);
      LinesAt(es, 0);
      assert Lines(es)[1..] == Lines(es[1..]);
      ParseLinesRoundTrip(es[1..]);
      assert [es[0]] + es[1..] == es;
    }
  }

  /** The end of the subtree of the first entry: the first later entry at
      depth `depth` or shallower, or the end of the list. */
  function SubtreeEnd(es: seq<Entry>, depth: nat): (j: nat)
    requires |es| > 0
    ensures 1 <= j <= |es|
    ensures forall k :: 1 <= k < j ==> es[k].depth > depth
    ensures j < |es| ==> es[j].depth <= depth
    decreases |es|
  {
    if |es| == 1 then 1
    else if es[1].depth <= depth then 1
    else 1 + SubtreeEnd(es[1..], depth)
  }

  /** Rebuilds a forest from its preorder entries at depth `depth`: each
      entry becomes a node whose children are built from the deeper entries
      that follow it. */
  function Unflatten(es: seq<Entry>, depth: nat): seq<Node>
    decreases |es|
  {
    if |es| == 0 then []
    else
      var j := SubtreeEnd(es, depth);
      [Node(es[0].name, Unflatten(es[1..j], depth + 1))] + Unflatten(es[j..], depth)
  }

  /** Rebuilds the children of the rendered root from the printed lines. */
  function ParseTree(lines: seq<string>, depth: nat): Option<seq<Node>>
  {
    match ParseLines(lines)
    case Some(es) => Some(Unflatten(es, depth))
    case None => None
  }

  /** The first entry's subtree is exactly the run of deeper entries that
      follows it, so rebuilding splits the entries there. */
  lemma SubtreeSplit(e: Entry, sub: seq<Entry>, later: seq<Entry>, depth: nat)
    requires forall k :: 0 <= k < |sub| ==> sub[k].depth > depth
    requires |later| > 0 ==> later[0].depth <= depth
    ensures Unflatten([e] + sub + later, depth)
            == [Node(e.name, Unflatten(sub, depth + 1))] + Unflatten(later, depth)
  {
    var es := [e] + sub + later;
    var m := 1 + |sub|;
    assert forall k :: 1 <= k < m ==> es[k] == sub[k - 1];
    assert m < |es| ==> es[m] == later[0];
    assert SubtreeEnd(es, depth) == m;
    assert es[1..m] == sub;
    assert es[m..] == later;
  }

  /** Rebuilding the preorder of a non-empty forest rebuilds its first
      tree from that tree's own preorder, then the rest. */
  lemma UnflattenFirst(cs: seq<Node>, depth: nat)
    requires |cs| > 0
    ensures Unflatten(Flatten(cs, depth), depth)
            == [Node(cs[0].name, Unflatten(Flatten(cs[0].children, depth + 1), depth + 1))]
               + Unflatten(Flatten(cs[1..], depth), depth)
  {
    var sub := Flatten(cs[0].children, depth + 1);
    var later := Flatten(cs[1..], depth);
    FlattenDepths(cs[0].children, depth + 1);
    FlattenDepths(cs[1..], depth);
    SubtreeSplit(Entry(depth, cs[0].name), sub, later, depth);
  }

  /** Rebuilding the preorder gives the forest back. */
  lemma {:induction false} UnflattenFlatten(cs: seq<Node>, depth: nat)
    ensures Unflatten(Flatten(cs, depth), depth) == cs
    decreases cs
  {
    if |cs| > 0 {
      UnflattenFirst(cs, depth);
      UnflattenFlatten(cs[0].children, depth + 1);
      UnflattenFlatten(cs[1..], depth);
      assert Unflatten(Flatten(cs, depth), depth) == [cs[0]] + cs[1..];
      assert [cs[0]] + cs[1..] == cs;
    }
  }

  /** The rendering loses nothing but the root's name: parsing the returned
      line sequence gives back the root's children, subtree by subtree. This
      is about the sequence; a name holding a newline would print as two
      lines. */
  lemma PrintRoundTrip(root: Node, depth: nat)
    ensures ParseTree(PrintTree(root, depth), depth) == Some(root.children)
  {
    PrintIsPreorder(root.children, depth);
    ParseLinesRoundTrip(Flatten(root.children, depth));
    UnflattenFlatten(root.children, depth);
  }
}
