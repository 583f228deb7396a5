/**
 The crawler registry behind the `Start`, `Stop` and `List` calls
 (crawler_server/main.go:120-156): the process-wide `crawlers` map from a
 site key to its crawler. Each call is a function from the map before the
 call to its reply and the map after it. A second `Stop` on the same crawler
 closes an already-closed channel, which panics in Go; here that is an
 explicit outcome.
 */
module Registry {
  import opened SiteTree
  import opened Session
  import opened Optional
  import Paths

  type Crawlers = map<string, Crawler>

  /** The reply of `Start`, with the registry after it. */
  datatype Started = Started(crawlers: Crawlers, message: string)

  /** The outcome of `Stop`: a reply with the registry after it, or the
      panic of closing a stop channel that is already closed. */
  datatype StopOutcome = Stopped(crawlers: Crawlers, message: string) | ClosedTwice

  /** `Start` (main.go:129-147). The crawler is registered under the path of
      the parsed request name (`site`, since URL parsing is foreign code);
      the reply repeats the raw request name. Any crawler already under
      that key is replaced by a fresh one: not stopped, with a childless
      root named after the site (main.go:88). */
  function Start(crawlers: Crawlers, name: string, site: string): (r: Started)
    ensures r.crawlers.Keys == crawlers.Keys + {site}
    ensures r.crawlers[site] == NewCrawler(site)
    ensures forall k :: k in crawlers && k != site ==> r.crawlers[k] == crawlers[k]
    ensures r.message == "Started Crawler " + name
  {
    Started(crawlers[site := NewCrawler(site)], "Started Crawler " + name)
  }

  /** `Stop` (main.go:149-156). A known crawler that is still running is
      marked stopped; an unknown name changes nothing; either way the reply
      is "Stopped Crawler " and the name. A crawler that is already stopped
      has its channel closed a second time: the call panics. */
  function Stop(crawlers: Crawlers, name: string): (r: StopOutcome)
    ensures r.ClosedTwice? <==> name in crawlers && crawlers[name].stopped
    ensures r.Stopped? ==> r.message == "Stopped Crawler " + name
    ensures r.Stopped? ==> r.crawlers.Keys == crawlers.Keys
    ensures r.Stopped? ==> forall k :: k in crawlers && k != name ==> r.crawlers[k] == crawlers[k]
    ensures r.Stopped? && name in crawlers ==>
              r.crawlers[name].stopped && r.crawlers[name].tree == crawlers[name].tree
  {
    if name in crawlers then
      if crawlers[name].stopped then ClosedTwice
      else Stopped(crawlers[name := crawlers[name].(stopped := true)], "Stopped Crawler " + name)
    else Stopped(crawlers, "Stopped Crawler " + name)
  }

  /** `List` (main.go:120-127): the tree of the crawler under `name`, or
      nothing (a nil message) when there is none. The tree is handed out
      as is; its encoding and compression are not modelled. */
  function List(crawlers: Crawlers, name: string): (r: Option<Node>)
    ensures r.Some? <==> name in crawlers
    ensures r.Some? ==> r.value == crawlers[name].tree
  {
    if name in crawlers then Some(crawlers[name].tree) else None
  }

  /** A worker of the crawler registered under `site` handles one URL path
      (main.go:31-49); with no crawler there, nothing happens. */
  function Work(crawlers: Crawlers, site: string, path: string): (r: Crawlers)
    ensures r.Keys == crawlers.Keys
    ensures forall k :: k in crawlers && k != site ==> r[k] == crawlers[k]
    ensures site in crawlers ==> r[site].stopped == crawlers[site].stopped
    ensures site in crawlers ==> r[site] == HandleUrl(crawlers[site], path)
  {
    if site in crawlers then crawlers[site := HandleUrl(crawlers[site], path)] else crawlers
  }

  /** The registry invariant: every crawler's tree is rooted at its own key
      and well formed. */
  predicate Valid(crawlers: Crawlers) {
    forall k :: k in crawlers ==> crawlers[k].tree.name == k && WellFormed(crawlers[k].tree)
  }

  /** `Start`, `Stop` and the workers keep the registry valid. */
  lemma StartValid(crawlers: Crawlers, name: string, site: string)
    requires Valid(crawlers)
    ensures Valid(Start(crawlers, name, site).crawlers)
  {
  }

  lemma StopValid(crawlers: Crawlers, name: string)
    requires Valid(crawlers)
    ensures Stop(crawlers, name).Stopped? ==> Valid(Stop(crawlers, name).crawlers)
  {
  }

  lemma WorkValid(crawlers: Crawlers, site: string, path: string)
    requires Valid(crawlers)
    ensures Valid(Work(crawlers, site, path))
  {
    if site in crawlers {
      InsertPreservesWellFormed(crawlers[site].tree, Paths.Decompose(path));
    }
  }

  /** Right after `Start`, `List` returns the fresh childless root. */
  lemma ListAfterStart(crawlers: Crawlers, name: string, site: string)
    ensures List(Start(crawlers, name, site).crawlers, site) == Some(Node(site, []))
  {
  }

  /** `List` and `Stop` on an unknown name: no tree, and the registry is
      unchanged. */
  lemma UnknownName(crawlers: Crawlers, name: string)
    requires name !in crawlers
    ensures List(crawlers, name) == None
    ensures Stop(crawlers, name) == Stopped(crawlers, "Stopped Crawler " + name)
  {
  }

  /** Stopping a running crawler succeeds once; stopping it again without a
      new `Start` panics, and a new `Start` makes it stoppable again. */
  lemma StopTwice(crawlers: Crawlers, name: string)
    requires name in crawlers && !crawlers[name].stopped
    ensures Stop(crawlers, name).Stopped?
    ensures Stop(Stop(crawlers, name).crawlers, name).ClosedTwice?
    ensures Stop(Start(Stop(crawlers, name).crawlers, name, name).crawlers, name).Stopped?
  {
  }

  /** After `Stop`, workers no longer change what `List` returns: every URL
      still in the queue is drained and discarded. */
  lemma StopFreezesTree(crawlers: Crawlers, name: string, paths: seq<string>)
    requires Stop(crawlers, name).Stopped?
    ensures var after := Stop(crawlers, name).crawlers;
            List(WorkAll(after, name, paths), name) == List(after, name)
  {
    WorkAllStopped(Stop(crawlers, name).crawlers, name, paths);
  }

  /** The workers of `site` handling a run of URL paths one after another. */
  function WorkAll(crawlers: Crawlers, site: string, paths: seq<string>): Crawlers
    decreases |paths|
  {
    if |paths| == 0 then crawlers else WorkAll(Work(crawlers, site, paths[0]), site, paths[1..])
  }

  lemma {:induction false} WorkAllStopped(crawlers: Crawlers, site: string, paths: seq<string>)
    requires site !in crawlers || crawlers[site].stopped
    ensures WorkAll(crawlers, site, paths) == crawlers
    decreases |paths|
  {
    if |paths| > 0 {
      assert Work(crawlers, site, paths[0]) == crawlers;
      WorkAllStopped(crawlers, site, paths[1..]);
    }
  }
}
