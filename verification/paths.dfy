/**
 The path decomposition the tree workers apply to every discovered URL:
 the parsed URL path with its leading and trailing '/' trimmed, split on '/'
 into segments (`strings.Split(strings.Trim(path, "/"), "/")`). Both string
 functions are written out here with the semantics of Go's `strings` package
 for a one-character separator and cutset.
 */
module Paths {

  /** Every character of `s` is a '/'. */
  predicate AllSlashes(s: string) {
    forall i :: 0 <= i < |s| ==> s[i] == '/'
  }

  /** A run of `n` slashes. */
  function Slashes(n: nat): (r: string)
    ensures |r| == n && AllSlashes(r)
  {
    if n == 0 then "" else "/" + Slashes(n - 1)
  }

  /** `strings.TrimLeft(s, "/")`: drops every leading '/'. `s` is the result
      after a run of slashes, and the result does not start with '/'. */
  function TrimLeft(s: string): (r: string)
    ensures |r| <= |s| && s == Slashes(|s| - |r|) + r
    ensures |r| == 0 || r[0] != '/'
  {
    if |s| > 0 && s[0] == '/' then
      var r := TrimLeft(s[1..]);
      assert s == "/" + s[1..];
      r
    else s
  }

  /** `strings.TrimRight(s, "/")`: drops every trailing '/'. `s` is the
      result followed by a run of slashes, and the result does not end with
      '/'. */
  function TrimRight(s: string): (r: string)
    ensures |r| <= |s| && s == r + Slashes(|s| - |r|)
    ensures |r| == 0 || r[|r| - 1] != '/'
  {
    if |s| > 0 && s[|s| - 1] == '/' then
      var r := TrimRight(s[..|s| - 1]);
      SlashesSnoc(|s| - 1 - |r|);
      assert s == s[..|s| - 1] + "/";
      r
    else s
  }

  /** A run of slashes can be grown at its end as well as at its start. */
  lemma {:induction false} SlashesSnoc(n: nat)
    ensures Slashes(n + 1) == Slashes(n) + "/"
  {
    if n > 0 {
      SlashesSnoc(n - 1);
    }
  }

  /** `strings.Trim(s, "/")`: `s` is the result between two runs of
      slashes, and the result neither starts nor ends with '/'. */
  function Trim(s: string): (r: string)
    ensures |r| == 0 || (r[0] != '/' && r[|r| - 1] != '/')
    ensures exists a: nat, b: nat :: s == Slashes(a) + r + Slashes(b)
  {
    var l := TrimLeft(s);
    var r := TrimRight(l);
    Between(s, Slashes(|s| - |l|), l, r, Slashes(|l| - |r|));
    r
  }

  lemma Between(s: string, x: string, l: string, r: string, y: string)
    requires s == x + l && l == r + y
    ensures s == x + r + y
  {
  }

  /** `strings.Split(s, "/")`: the pieces of `s` between its slashes, in
      order. There is always at least one piece; `Split("")` is `[""]`. */
  function Split(s: string): (r: seq<string>)
    ensures |r| >= 1
    ensures forall k :: 0 <= k < |r| ==> '/' !in r[k]
  {
    if |s| == 0 then [""]
    else
      var rest := Split(s[1..]);
      if s[0] == '/' then [""] + rest
      else [[s[0]] + rest[0]] + rest[1..]
  }

  /** `strings.Join(ss, "/")`. */
  function Join(ss: seq<string>): string
  {
    if |ss| == 0 then ""
    else if |ss| == 1 then ss[0]
    else ss[0] + "/" + Join(ss[1..])
  }

  /** Joining the pieces of `s` with '/' gives `s` back. */
  lemma {:induction false} JoinSplit(s: string)
    ensures Join(Split(s)) == s
    decreases |s|
  {
    if |s| > 0 {
      var rest := Split(s[1..]);
      JoinSplit(s[1..]);
      if s[0] == '/' {
        assert Join(Split(s)) == "" + "/" + Join(rest);
        assert s == [s[0]] + s[1..];
      } else if |rest| == 1 {
        assert Join(Split(s)) == [s[0]] + rest[0];
        assert s == [s[0]] + s[1..];
      } else {
        assert Join(Split(s)) == [s[0]] + rest[0] + "/" + Join(rest[1..]);
        assert Join(rest) == rest[0] + "/" + Join(rest[1..]);
        assert s == [s[0]] + s[1..];
      }
    }
  }

  /** A string with no '/' is a single piece. */
  lemma {:induction false} SplitNoSlash(a: string)
    requires '/' !in a
    ensures Split(a) == [a]
    decreases |a|
  {
    if |a| > 0 {
      SplitNoSlash(a[1..]);
      assert [a[0]] + a[1..] == a;
    }
  }

  /** A slash-free prefix followed by '/' becomes the first piece. */
  lemma {:induction false} SplitPrefix(a: string, b: string)
    requires '/' !in a
    ensures Split(a + "/" + b) == [a] + Split(b)
    decreases |a|
  {
    if |a| == 0 {
      assert a + "/" + b == "/" + b;
      assert ("/" + b)[1..] == b;
    } else {
      var s := a + "/" + b;
      assert s[1..] == a[1..] + "/" + b;
      SplitPrefix(a[1..], b);
      assert [a[0]] + a[1..] == a;
    }
  }

  /** Splitting a join of slash-free pieces gives the pieces back: `Split`
      and `Join` are inverse on non-empty lists of slash-free segments. */
  lemma {:induction false} SplitJoin(ss: seq<string>)
    requires |ss| >= 1
    requires forall k :: 0 <= k < |ss| ==> '/' !in ss[k]
    ensures Split(Join(ss)) == ss
    decreases |ss|
  {
    if |ss| == 1 {
      SplitNoSlash(ss[0]);
    } else {
      SplitJoin(ss[1..]);
      SplitPrefix(ss[0], Join(ss[1..]));
      assert [ss[0]] + ss[1..] == ss;
    }
  }

  /** The segment list of a URL path (main.go:43): no segment contains '/',
      joining the segments with '/' gives back the trimmed path, a path made
      only of slashes (including "" and "/") gives the single empty segment,
      and any other path has a non-empty first and last segment. */
  function Decompose(path: string): (r: seq<string>)
    ensures |r| >= 1
    ensures forall k :: 0 <= k < |r| ==> '/' !in r[k]
    ensures Join(r) == Trim(path)
    ensures r == [""] <==> AllSlashes(path)
    ensures !AllSlashes(path) ==> r[0] != "" && r[|r| - 1] != ""
  {
    var t := Trim(path);
    JoinSplit(t);
    TrimEmpty(path);
    SegmentEnds(t);
    Split(t)
  }

  /** The trimmed path is empty exactly when the path is all slashes. */
  lemma TrimEmpty(path: string)
    ensures Trim(path) == "" <==> AllSlashes(path)
  {
    var t := Trim(path);
    var a: nat, b: nat :| path == Slashes(a) + t + Slashes(b);
    if t != "" {
      assert path[a] == t[0];
    }
  }

  /** The first piece of a string that does not start with '/' is non-empty,
      and so is the last piece of one that does not end with '/'. */
  lemma {:induction false} SegmentEnds(t: string)
    ensures |t| > 0 && t[0] != '/' ==> Split(t)[0] != ""
    ensures |t| > 0 && t[|t| - 1] != '/' ==> Split(t)[|Split(t)| - 1] != ""
    ensures Split(t) == [""] <==> t == ""
    decreases |t|
  {
    if |t| > 0 {
      SegmentEnds(t[1..]);
      var rest := Split(t[1..]);
      if t[0] != '/' && |rest| == 1 {
        assert Split(t)[|Split(t)| - 1] == [t[0]] + rest[0];
      }
      if |t| > 1 {
        assert t[1..][|t[1..]| - 1] == t[|t| - 1];
      }
    }
  }

  /** A path that is one slash followed by a string that neither starts nor
      ends with '/' trims to that string. */
  lemma TrimRooted(t: string)
    requires |t| > 0 && t[0] != '/' && t[|t| - 1] != '/'
    ensures Trim("/" + t) == t
  {
    assert ("/" + t)[1..] == t;
  }

  /** `/a/b` decomposes to `[a, b]` for non-empty slash-free `a` and `b`. */
  lemma DecomposeTwo(a: string, b: string)
    requires a != "" && b != "" && '/' !in a && '/' !in b
    ensures Decompose("/" + a + "/" + b) == [a, b]
  {
    TrimRootedJoin(a, "/", b);
    SplitTwo(a, b);
  }

  lemma SplitTwo(a: string, b: string)
    requires '/' !in a && '/' !in b
    ensures Split(a + "/" + b) == [a, b]
  {
    SplitPrefix(a, b);
    SplitNoSlash(b);
  }

  /** `/a//b` decomposes to `[a, "", b]`: the doubled slash gives an empty
      segment. */
  lemma DecomposeDoubleSlash(a: string, b: string)
    requires a != "" && b != "" && '/' !in a && '/' !in b
    ensures Decompose("/" + a + "//" + b) == [a, "", b]
  {
    TrimRootedJoin(a, "//", b);
    SplitDoubleSlash(a, b);
  }

  lemma SplitDoubleSlash(a: string, b: string)
    requires '/' !in a && '/' !in b
    ensures Split(a + "//" + b) == [a, "", b]
  {
    assert a + "//" + b == a + "/" + ("" + "/" + b);
    SplitPrefix(a, "" + "/" + b);
    SplitTwo("", b);
  }

  /** `/` followed by `a`, a run of slashes and `b` trims to all but the
      first slash when `a` and `b` are non-empty and slash-free. */
  lemma TrimRootedJoin(a: string, sep: string, b: string)
    requires a != "" && b != "" && '/' !in a && '/' !in b
    ensures Trim("/" + a + sep + b) == a + sep + b
  {
    var t := a + sep + b;
    assert "/" + a + sep + b == "/" + t;
    assert t[0] == a[0] && t[|t| - 1] == b[|b| - 1];
    TrimRooted(t);
  }

  /** The root path "/" and the empty path decompose to `[""]`. */
  lemma DecomposeRoot()
    ensures Decompose("/") == [""] && Decompose("") == [""]
  {
    assert AllSlashes("/");
  }
}
