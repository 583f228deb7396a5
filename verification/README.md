# Site-tree crawler: a Dafny model

This project models the pure core of a small site crawler server. Each named
crawl builds a tree of the site's URL paths, with one node per path segment,
while it discovers pages. The server keeps a registry of crawls. Clients
control it through the `Start`, `Stop` and `List` calls, and the client
prints a tree as an indented outline.

The modelled parts are:

- **Path decomposition** (`Paths`). The parsed URL path is trimmed of its
  leading and trailing slashes and split on `/`. Go's `strings.Trim`,
  `strings.Split` and `strings.Join` are written out with their
  one-character-separator semantics.
- **Tree insertion** (`SiteTree`). `AddToTree` is a pure function on an
  immutable `Node(name, children)`. It descends into the first child with the
  segment's name. Otherwise it appends one new child at the end. An unmatched
  empty segment ends the insertion. The source descends through copies of
  the child records (`range` values and the local `node`), but the copies
  share the child-list pointer, so every insertion lands in the stored tree.
  The model therefore updates the child in place.
- **Worker loop** (`Session`). `BuildTree` becomes a fold over the events one
  crawler's workers observe: a URL path from the queue, or the stop channel
  being closed. After the stop, every remaining URL is drained and discarded.
- **Registry** (`Registry`). This is a `map<string, Crawler>` state machine
  with `Start`, `Stop`, `List` and a worker step. A second `Stop` of the same
  crawler is the explicit outcome `ClosedTwice`, because the source closes
  the stop channel again and panics.
- **Rendering** (`Render`). `PrintTree` returns its lines in order instead of
  printing them. A parser for those lines is defined next to it. The
  round-trip lemma shows that the returned line sequence keeps every node
  except the root. It is a statement about the sequence of lines, not about
  the printed text: a segment holding a newline (from a percent-decoded
  `%0A`) would print as two lines.

In these places the code behaves differently from what a reader might expect;
the model follows the code:

- An empty path (`""` or `/`) decomposes to `[""]`, not to an empty list.
  Insertion then does nothing, because no node below the root is named `""`.
- `Start` on a key that is already present replaces the entry with a fresh
  crawler. It is not a no-op.
- A second `Stop` panics. It is not a no-op.
- After the stop, workers keep draining the queue and discard every item.
  They do not leave the loop.
- `Start` registers the crawler under the path of the parsed request name.
  `Stop` and `List` look up the raw request name.
- `AddToTree` searches the children before it checks for an empty segment.
  So a child named `""` would be descended into. The model keeps this order.

## Model

| member | source | states |
|---|---|---|
| Paths.TrimLeft | crawler_server/main.go:43 | the input is a run of slashes followed by the result, and the result does not start with '/' |
| Paths.TrimRight | crawler_server/main.go:43 | the input is the result followed by a run of slashes, and the result does not end with '/' |
| Paths.Trim | crawler_server/main.go:43 | the result neither starts nor ends with '/' and sits in the input between two runs of slashes |
| Paths.Split | crawler_server/main.go:43 | there is always at least one segment, and no segment contains '/' |
| Paths.JoinSplit | crawler_server/main.go:43 | joining the segments of a string with '/' gives the string back |
| Paths.SplitJoin | crawler_server/main.go:43 | splitting a join of slash-free segments gives the segments back |
| Paths.TrimEmpty | crawler_server/main.go:43 | the trimmed path is empty exactly when the path consists only of slashes |
| Paths.SegmentEnds | crawler_server/main.go:43 | a string not starting (or not ending) with '/' has a non-empty first (or last) segment; only "" splits to [""] |
| Paths.Decompose | crawler_server/main.go:43 | no segment contains '/'; the segments joined with '/' are the trimmed path; "" and "/" (any all-slash path, and only those) give [""]; otherwise the first and last segments are non-empty |
| Paths.DecomposeRoot | crawler_server/main.go:43 | the root path "/" and the empty path both give [""] |
| Paths.DecomposeTwo | crawler_server/main.go:43 | /a/b gives [a, b] for non-empty slash-free a and b |
| Paths.DecomposeDoubleSlash | crawler_server/main.go:43 | /a//b gives [a, "", b]: a doubled slash makes an empty segment |
| SiteTree.FindChild | crawler_server/main.go:63-68 | the index of the first child with the name, or the child count when no child has it |
| SiteTree.AddToTree | crawler_server/main.go:51-78 | the node keeps its name; at most one child is added; existing children keep their positions and names |
| SiteTree.TakeUntilEmpty | crawler_server/main.go:69-71 | the result is the prefix of the segments before the first empty one |
| SiteTree.InsertNothing | crawler_server/main.go:52-54 | inserting the empty list leaves the node unchanged |
| SiteTree.InsertExisting | crawler_server/main.go:63-67 | a segment naming an existing child adds nothing at this level; insertion continues in the first such child and the other children are untouched |
| SiteTree.InsertNew | crawler_server/main.go:69-76 | a new non-empty segment appends exactly one child with that name after the existing children; the node's name is unchanged |
| SiteTree.InsertEmptySegment | crawler_server/main.go:69-71 | an unmatched empty segment ends insertion with nothing added |
| SiteTree.InsertFresh | crawler_server/main.go:72-76 | inserting into a new childless node builds the chain of the segments up to the first empty one |
| SiteTree.InsertStopsAtEmpty | crawler_server/main.go:69-71 | in a well-formed tree only the segments before the first empty one have any effect |
| SiteTree.InsertIdempotent | crawler_server/main.go:51-78 | inserting the same segment list twice gives the same tree as inserting it once |
| SiteTree.InsertPreservesWellFormed | crawler_server/main.go:63-75 | insertion keeps sibling names unique and leaves no node below the root named "" |
| SiteTree.PathsReplaced | crawler_server/main.go:63-67 | descending into a child that keeps its name and its old paths changes the paths of the node only through that child |
| SiteTree.PathsAppended | crawler_server/main.go:72-75 | appending a child adds exactly the paths through it |
| SiteTree.InsertPaths | crawler_server/main.go:51-78 | after insertion, a path is in the tree exactly when it was there before or is a prefix of the segments before the first empty one |
| SiteTree.InsertAllPreservesWellFormed | crawler_server/main.go:33-44 | any sequence of insertions keeps the tree well formed |
| SiteTree.InsertAllPaths | crawler_server/main.go:33-44 | after a sequence of insertions, the paths in the tree are the old ones plus the prefixes of each inserted list, whatever the order |
| Session.NewCrawler | crawler_server/main.go:88 | a new crawler is not stopped and has a well-formed childless root named after the site |
| Session.HandleUrl | crawler_server/main.go:34-44 | a stopped crawler discards the path; a running one inserts the path's segments; the stop state and root name never change |
| Session.Step | crawler_server/main.go:33-44 | a stop signal marks the crawler stopped and leaves its tree alone; a URL leaves the stop state as it was and keeps the root's name; once stopped, nothing changes |
| Session.BuildTree | crawler_server/main.go:31-49 | a run ends stopped exactly when it began stopped or saw a stop signal; the root keeps its name; a crawler that began stopped keeps its tree |
| Session.PathsBeforeStop | crawler_server/main.go:33-36 | the paths delivered before the first stop signal, no more of them than there are events |
| Session.DecomposeAll | crawler_server/main.go:43 | the segment list of every path, position by position |
| Session.BuildTreeEffect | crawler_server/main.go:31-49 | a run ends stopped exactly when it began stopped or saw a stop signal; its tree is the old tree with the paths delivered before the stop inserted in order, and nothing after the stop |
| Session.BuildTreeWellFormed | crawler_server/main.go:31-49 | any run keeps the tree well formed |
| Session.BuildTreePaths | crawler_server/main.go:31-49 | from a fresh crawler, a path is in the tree exactly when it is a prefix of the leading non-empty segments of some URL delivered before the stop, whatever the delivery order |
| Session.ExampleRun | crawler_server/main.go:31-78 | for any non-empty slash-free names with b and c different, the URLs /a/b, /a/c, /a/b give root -> a -> [b, c] with no second b |
| Session.ExampleFirst | crawler_server/main.go:69-76 | the first URL of the example creates the chain a -> b |
| Session.ExampleSecond | crawler_server/main.go:63-76 | the second URL descends into a and appends c after b |
| Session.ExampleThird | crawler_server/main.go:63-67 | the duplicate URL changes nothing |
| Session.ExampleEmptySegments | crawler_server/main.go:43-71 | the path / inserts nothing, and /a//b inserts only a |
| Registry.Start | crawler_server/main.go:129-147 | the key gets a fresh crawler, replacing any earlier one; no other entry changes; the reply is "Started Crawler " and the name |
| Registry.Stop | crawler_server/main.go:149-156 | it panics exactly when the crawler is known and already stopped; otherwise only the named crawler changes, it becomes stopped with its tree intact, and the reply is "Stopped Crawler " and the name |
| Registry.List | crawler_server/main.go:120-127 | there is a tree exactly when the name is registered, and it is that crawler's tree |
| Registry.Work | crawler_server/main.go:31-49 | a worker of a registered crawler handles the path as one loop pass (discarded once stopped, else inserted); no key, no other crawler and no stop flag changes |
| Registry.StartValid | crawler_server/main.go:129-147 | Start keeps every tree rooted at its key and well formed |
| Registry.StopValid | crawler_server/main.go:149-156 | a successful Stop keeps the registry valid |
| Registry.WorkValid | crawler_server/main.go:31-49 | a worker step keeps the registry valid |
| Registry.ListAfterStart | crawler_server/main.go:120-147 | right after Start, List gives the childless root |
| Registry.UnknownName | crawler_server/main.go:120-156 | for an unknown name, List gives nothing and Stop changes nothing but still replies |
| Registry.StopTwice | crawler_server/main.go:149-156 | Stop succeeds once, panics the second time, and works again after a new Start |
| Registry.StopFreezesTree | crawler_server/main.go:33-36 | after Stop, no run of worker steps changes what List returns |
| Registry.WorkAllStopped | crawler_server/main.go:33-36 | worker steps on a stopped or missing crawler change nothing |
| Render.Spaces | common/common.go:17 | n spaces |
| Render.PrintTree | common/common.go:15-22 | one line per descendant of the root; a root with no children renders nothing |
| Render.PrintChildren | common/common.go:16-21 | one line per node of the rendered children and their subtrees |
| Render.LinesAt | common/common.go:17 | line k is entry k's depth*4 spaces, "+--" and name |
| Render.LinesAppend | common/common.go:16-21 | the lines of two runs of entries are the lines of the first followed by those of the second |
| Render.FlattenDepths | common/common.go:19 | the preorder has one entry per node; every entry is at the starting depth or deeper, the first exactly at it |
| Render.PrintIsPreorder | common/common.go:15-22 | the rendering is the preorder of the nodes, each as depth*4 spaces, "+--" and the name |
| Render.PrintLines | common/common.go:15-21 | exactly one line per descendant, each depth*4 spaces, "+--" and a node's name, at the starting depth or deeper |
| Render.PrintSiblings | common/common.go:16-20 | siblings are rendered in child-list order |
| Render.PrintChild | common/common.go:16-20 | a child's line comes after its earlier siblings and right before its subtree, which is rendered one level deeper; a childless child contributes its line alone |
| Render.PrintIgnoresRootName | common/common.go:15-17 | the root's own name is never printed |
| Render.ParseLineRoundTrip | common/common.go:17 | every rendered line reads back as its depth and name |
| Render.ParseLinesRoundTrip | common/common.go:15-22 | the lines of a run of entries read back as those entries |
| Render.UnflattenFlatten | common/common.go:15-22 | rebuilding a forest from its preorder gives the forest back |
| Render.PrintRoundTrip | common/common.go:15-22 | parsing the printed lines gives back the root's children, so the rendering keeps every node except the root |

## Left out

- Goroutines, the `WaitGroup`, the `Mutex` and the `URLs` and `StopChan` channels (crawler_server/main.go:31-35, 73-75, 83-86, 111-112) are not modelled. Insertions are taken one at a time, in the order they happen. The unlocked check-then-append in `AddToTree` keeps sibling names unique only under this sequential reading.
- The page fetching by the colly collector (crawler_server/main.go:90-110) is left out because it is an external library doing network I/O. That includes the `Stop` flag's check before visiting a link (line 98). The URLs it would deliver are a parameter: the event sequence.
- `url.Parse` (crawler_server/main.go:38, 130) is foreign code, so the parsed path is the input string. A parse error makes the source dereference nil, and that is not modelled.
- `Start` first stores a crawler with an empty `Node{}` (line 138). `Process` (main.go:80-114) later sets its root (line 88). The model stores the final root at once, so a `List` between the two steps is not modelled.
- When `Start` replaces a crawler, the old crawl's workers keep inserting into the orphaned tree. That is not modelled, because the orphaned tree can no longer be reached.
- The gRPC server, the client and flag parsing (crawler_server/main.go:116-118, 158-169; crawler_client/main.go) are left out. They are transport code.
- gob encoding and gzip compression (common/common.go:24-67) are left out because they are library codecs. So `List` returns the tree itself. Below the root, a nil children pointer and an empty child list render alike (common/common.go:18), and the model has only the empty list.
- Logging, `time.Now` and `time.Since` are left out.
- Render.PrintTree: a root whose children pointer is nil makes the source panic at common/common.go:16, because only the children are checked for nil (line 18). gob does not transmit an empty slice, so the decoded root of a childless tree, such as a `List` right after `Start`, is nil there. The model has no nil child list and renders such a root as no lines. That panic is not modelled.
- Render.PrintTree: `depth` is a natural number. The source's `int` allows a negative depth, which makes `strings.Repeat` panic. The only caller passes 0.
