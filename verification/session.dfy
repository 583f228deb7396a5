/**
 One crawler's tree-building loop, `BuildTree` (crawler_server/main.go:31-49),
 read sequentially. A worker takes URL paths from the queue; for each it
 checks the stop channel with a `select` that has a `default` branch. Once
 the channel is closed the `break` leaves only the `select`, so the worker
 keeps draining the queue but inserts nothing. Many workers share one tree;
 here their insertions are taken one at a time, in the order they happen.
 */
module Session {
  import opened SiteTree
  import Paths

  /** The part of a `v1.Crawler` the loop reads and writes: whether it has
      been stopped (the `Stop` flag and the closed `StopChan`, which `Stop`
      sets together) and its tree. */
  datatype Crawler = Crawler(stopped: bool, tree: Node)

  /** What the workers of one crawler observe, in order: a URL path taken
      from the queue, or the stop channel being closed. */
  datatype Event = Url(path: string) | StopSignal

  /** The crawler a site starts with once its crawl is set up
      (main.go:88): not stopped, a childless root named after the site. */
  function NewCrawler(site: string): (c: Crawler)
    ensures !c.stopped && c.tree.name == site && WellFormed(c.tree)
    ensures |c.tree.children| == 0
  {
    Crawler(false, Node(site, []))
  }

  /** One pass of the loop body (main.go:34-44): discard the path if the
      crawler is stopped, else insert its segments. */
  function HandleUrl(c: Crawler, path: string): (r: Crawler)
    ensures r.stopped == c.stopped && r.tree.name == c.tree.name
    ensures c.stopped ==> r == c
    ensures !c.stopped ==> r.tree == AddToTree(c.tree, Paths.Decompose(path))
  {
    if c.stopped then c else c.(tree := AddToTree(c.tree, Paths.Decompose(path)))
  }

  /** What the workers do with one event: a URL is one loop pass; the stop
      signal closes the channel, after which every pass discards. */
  function Step(c: Crawler, e: Event): (r: Crawler)
    ensures r.tree.name == c.tree.name
    ensures r.stopped <==> c.stopped || e.StopSignal?
    ensures e.StopSignal? || c.stopped ==> r.tree == c.tree
    ensures c.stopped ==> r == c
  {
    match e
    case Url(path) => HandleUrl(c, path)
    case StopSignal => c.(stopped := true)
  }

  /** The workers' loop over a whole run of events. */
  function BuildTree(c: Crawler, events: seq<Event>): (r: Crawler)
    ensures r.stopped <==> c.stopped || StopSignal in events
    ensures r.tree.name == c.tree.name
    ensures c.stopped ==> r.tree == c.tree
    decreases |events|
  {
    if |events| == 0 then c
    else
      assert events == [events[0]] + events[1..];
      BuildTree(Step(c, events[0]), events[1..])
  }

  /** The paths delivered before the first stop signal. */
  function PathsBeforeStop(events: seq<Event>): (r: seq<string>)
    ensures |r| <= |events|
  {
    if |events| == 0 || events[0].StopSignal? then []
    else [events[0].path] + PathsBeforeStop(events[1..])
  }

  /** The segment lists of a run of paths. */
  function DecomposeAll(paths: seq<string>): (r: seq<seq<string>>)
    ensures |r| == |paths|
    ensures forall k :: 0 <= k < |paths| ==> r[k] == Paths.Decompose(paths[k])
  {
    if |paths| == 0 then [] else [Paths.Decompose(paths[0])] + DecomposeAll(paths[1..])
  }

  /** What a run of the loop does: the crawler ends stopped exactly when it
      started stopped or a stop signal arrived; its tree is the starting tree
      with the paths delivered before the first stop inserted in order, and
      nothing delivered after the stop (or at all, if it started stopped) is
      inserted. */
  lemma {:induction false} BuildTreeEffect(c: Crawler, events: seq<Event>)
    ensures BuildTree(c, events).stopped <==> c.stopped || StopSignal in events
    ensures c.stopped ==> BuildTree(c, events).tree == c.tree
    ensures !c.stopped ==>
              BuildTree(c, events).tree == InsertAll(c.tree, DecomposeAll(PathsBeforeStop(events)))
    decreases |events|
  {
    if |events| > 0 {
      var e, rest := events[0], events[1..];
      BuildTreeEffect(Step(c, e), rest);
      assert events == [e] + rest;
      if !c.stopped && e.Url? {
        var ps := PathsBeforeStop(events);
        assert ps[1..] == PathsBeforeStop(rest);
        assert DecomposeAll(ps)[1..] == DecomposeAll(PathsBeforeStop(rest));
      }
    }
  }

  /** Any run keeps the tree well formed: sibling names stay unique and no
      node below the root is named "". */
  lemma BuildTreeWellFormed(c: Crawler, events: seq<Event>)
    requires WellFormed(c.tree)
    ensures WellFormed(BuildTree(c, events).tree)
  {
    BuildTreeEffect(c, events);
    InsertAllPreservesWellFormed(c.tree, DecomposeAll(PathsBeforeStop(events)));
  }

  /** Completeness of a run from a fresh crawler: the tree holds a path
      exactly when the path is a prefix of the non-empty leading segments of
      some URL delivered before the stop signal, whatever the order of the
      deliveries. */
  lemma BuildTreePaths(site: string, events: seq<Event>, q: seq<string>)
    ensures HasPath(BuildTree(NewCrawler(site), events).tree, q) <==>
              q == [] || exists k :: 0 <= k < |PathsBeforeStop(events)|
                            && q <= TakeUntilEmpty(Paths.Decompose(PathsBeforeStop(events)[k]))
  {
    var c := NewCrawler(site);
    var ps := PathsBeforeStop(events);
    var lists := DecomposeAll(ps);
    BuildTreeEffect(c, events);
    var t := BuildTree(c, events).tree;
    assert t == InsertAll(c.tree, lists);
    InsertAllPaths(c.tree, lists, q);
    ChildlessPaths(c.tree, q);
    if exists k :: 0 <= k < |lists| && q <= TakeUntilEmpty(lists[k]) {
      var k :| 0 <= k < |lists| && q <= TakeUntilEmpty(lists[k]);
      assert q <= TakeUntilEmpty(Paths.Decompose(ps[k]));
    }
    if exists k :: 0 <= k < |ps| && q <= TakeUntilEmpty(Paths.Decompose(ps[k])) {
      var k :| 0 <= k < |ps| && q <= TakeUntilEmpty(Paths.Decompose(ps[k]));
      assert q <= TakeUntilEmpty(lists[k]);
    }
  }

  /** The three-URL scenario: `/a/b`, `/a/c` and `/a/b` again give the root
      one child `a` with the leaves `b` and `c`, and no second `b`. */
  lemma ExampleRun(site: string, a: string, b: string, c: string)
    requires a != "" && b != "" && c != "" && b != c
    requires '/' !in a && '/' !in b && '/' !in c
    ensures BuildTree(NewCrawler(site), [Url("/" + a + "/" + b), Url("/" + a + "/" + c), Url("/" + a + "/" + b)]).tree
            == Node(site, [Node(a, [Node(b, []), Node(c, [])])])
  {
    var ab, ac := "/" + a + "/" + b, "/" + a + "/" + c;
    var events := [Url(ab), Url(ac), Url(ab)];
    Paths.DecomposeTwo(a, b);
    Paths.DecomposeTwo(a, c);
    var t1 := Node(site, [Node(a, [Node(b, [])])]);
    var t2 := Node(site, [Node(a, [Node(b, []), Node(c, [])])]);
    ExampleFirst(site, a, b);
    ExampleSecond(site, a, b, c);
    ExampleThird(site, a, b, c);
    var c0 := NewCrawler(site);
    var c1 := Crawler(false, t1);
    var c2 := Crawler(false, t2);
    assert Step(c0, Url(ab)) == c1;
    assert Step(c1, Url(ac)) == c2;
    assert Step(c2, Url(ab)) == c2;
    assert BuildTree(c2, [Url(ab)]) == c2;
    assert BuildTree(c1, [Url(ac), Url(ab)]) == c2 by {
      assert [Url(ac), Url(ab)][1..] == [Url(ab)];
    }
    assert BuildTree(c0, events) == c2 by {
      assert events[1..] == [Url(ac), Url(ab)];
    }
  }

  /** The first URL of the scenario creates the chain `a -> b`. */
  lemma ExampleFirst(site: string, a: string, b: string)
    requires a != "" && b != ""
    ensures AddToTree(Node(site, []), [a, b]) == Node(site, [Node(a, [Node(b, [])])])
  {
    var parts := [a, b];
    InsertNew(Node(site, []), parts);
    assert parts[1..] == [b];
    assert Chain([b]) == [Node(b, Chain([]))];
  }

  /** The second URL descends into `a` and appends `c` after `b`. */
  lemma ExampleSecond(site: string, a: string, b: string, c: string)
    requires a != "" && c != "" && b != c
    ensures AddToTree(Node(site, [Node(a, [Node(b, [])])]), [a, c])
            == Node(site, [Node(a, [Node(b, []), Node(c, [])])])
  {
    var na := Node(a, [Node(b, [])]);
    var parts := [a, c];
    assert parts[1..] == [c];
    InsertExisting(Node(site, [na]), parts, 0);
    InsertNew(na, [c]);
    assert [c][1..] == [];
    assert AddToTree(na, [c]) == Node(a, [Node(b, []), Node(c, [])]);
  }

  /** The repeated URL changes nothing. */
  lemma ExampleThird(site: string, a: string, b: string, c: string)
    ensures AddToTree(Node(site, [Node(a, [Node(b, []), Node(c, [])])]), [a, b])
            == Node(site, [Node(a, [Node(b, []), Node(c, [])])])
  {
    var na := Node(a, [Node(b, []), Node(c, [])]);
    var parts := [a, b];
    assert parts[1..] == [b];
    InsertExisting(Node(site, [na]), parts, 0);
    InsertExisting(na, [b], 0);
    assert [b][1..] == [];
    assert AddToTree(na, [b]) == na;
  }

  /** The root path inserts nothing, and a doubled slash cuts a path short:
      `/a//b` inserts only `a`. */
  lemma ExampleEmptySegments(site: string, a: string, b: string)
    requires a != "" && b != "" && '/' !in a && '/' !in b
    ensures HandleUrl(NewCrawler(site), "/") == NewCrawler(site)
    ensures HandleUrl(NewCrawler(site), "/" + a + "//" + b).tree == Node(site, [Node(a, [])])
  {
    Paths.DecomposeRoot();
    var parts := [a, "", b];
    Paths.DecomposeDoubleSlash(a, b);
    InsertNew(Node(site, []), parts);
    assert parts[1..][0] == "";
  }
}
