/** `FileManager.enumerator(at:includingPropertiesForKeys:options: [])`
    over the tree: every entry below the directory, hidden ones included,
    in pre-order (a directory comes just before its contents), each with
    the attributes `resourceValues` would report for it. The enumerator
    itself never yields the directory it was started at. */
module Enumeration {
  import opened Optional
  import opened FileTree

  /** One entry handed out by the enumerator: its URL and the outcome of
      reading its attributes (`None` when that throws). */
  datatype Visited = Visited(path: Path, attributes: Option<Attributes>)

  /** Directories never report themselves as regular files. */
  const DirectoryAttributes: Option<Attributes> := Some(Attributes(Some(false), None))

  function AttributesOf(n: Node): Option<Attributes> {
    match n
    case File(_, a) => a
    case Dir(_, _) => DirectoryAttributes
  }

  /** Pre-order walk of the listing `nodes` of the directory at `dir`. */
  function Walk(dir: Path, nodes: seq<Node>): seq<Visited>
    decreases nodes
  {
    if |nodes| == 0 then []
    else
      var here := dir + [nodes[0].name];
      (match nodes[0]
       case File(_, a) => [Visited(here, a)]
       case Dir(_, kids) => [Visited(here, DirectoryAttributes)] + Walk(here, kids))
      + Walk(dir, nodes[1..])
  }

  /** Everything the enumerator started at `dir` yields. */
  function Enumerate(disk: seq<Node>, dir: Path): seq<Visited> {
    Walk(dir, Listing(disk, dir))
  }

  /** No entry is skipped: every entry at any depth below the directory,
      inside hidden directories too, is enumerated. */
  lemma {:induction false} WalkComplete(dir: Path, nodes: seq<Node>, rel: Path)
    requires Exists(nodes, rel)
    ensures Visited(dir + rel, AttributesOf(Lookup(nodes, rel).value)) in Walk(dir, nodes)
    decreases |rel|, |nodes|
  {
    var n := nodes[0];
    var here := dir + [n.name];
    if n.name == rel[0] {
      if |rel| == 1 {
        assert here == dir + rel;
      } else {
        assert dir + rel == here + rel[1..];
        WalkComplete(here, n.children, rel[1..]);
      }
    } else {
      WalkComplete(dir, nodes[1..], rel);
    }
  }

  /** Nothing else is enumerated: every yielded entry is the one at its
      path, and that path lies strictly below the directory. */
  lemma {:induction false} WalkSound(dir: Path, nodes: seq<Node>, v: Visited)
    requires UniqueNames(nodes)
    requires v in Walk(dir, nodes)
    ensures dir < v.path
    ensures Exists(nodes, v.path[|dir|..])
    ensures v.attributes == AttributesOf(Lookup(nodes, v.path[|dir|..]).value)
    decreases nodes
  {
    var n := nodes[0];
    var here := dir + [n.name];
    var tail := Walk(dir, nodes[1..]);
    var own := if n.File? then [Visited(here, n.attributes)]
               else [Visited(here, DirectoryAttributes)] + Walk(here, n.children);
    assert Walk(dir, nodes) == own + tail;
    if v in tail {
      WalkSound(dir, nodes[1..], v);
      var rel := v.path[|dir|..];
      assert Find(nodes[1..], rel[0]).Some?;
      LookupSkip(nodes, rel);
    } else if v == own[0] {
      assert v.path[|dir|..] == [n.name];
    } else {
      var kids := n.children;
      assert v in Walk(here, kids);
      WalkSound(here, kids, v);
      var rel := v.path[|dir|..];
      assert rel == [n.name] + v.path[|here|..];
      LookupEnter(nodes, rel);
    }
  }

  /** No two enumerated entries share a path. */
  predicate DistinctPaths(items: seq<Visited>) {
    forall i, j :: 0 <= i < j < |items| ==> items[i].path != items[j].path
  }

  lemma DistinctConcat(a: seq<Visited>, b: seq<Visited>)
    requires DistinctPaths(a) && DistinctPaths(b)
    requires forall x, y :: x in a && y in b ==> x.path != y.path
    ensures DistinctPaths(a + b)
  {
    var c := a + b;
    forall i, j | 0 <= i < j < |c|
      ensures c[i].path != c[j].path
    {
      if j < |a| {
        assert c[i] == a[i] && c[j] == a[j];
      } else if i >= |a| {
        assert c[i] == b[i - |a|] && c[j] == b[j - |a|];
      } else {
        assert c[i] in a && c[j] in b;
      }
    }
  }

  /** On a well-formed tree the enumerator yields every path once. */
  lemma {:induction false} WalkDistinct(dir: Path, nodes: seq<Node>)
    requires UniqueNames(nodes)
    ensures DistinctPaths(Walk(dir, nodes))
    decreases nodes
  {
    if |nodes| > 0 {
      var n := nodes[0];
      var here := dir + [n.name];
      var tail := Walk(dir, nodes[1..]);
      var own := if n.File? then [Visited(here, n.attributes)]
                 else [Visited(here, DirectoryAttributes)] + Walk(here, n.children);
      assert Walk(dir, nodes) == own + tail;
      WalkDistinct(dir, nodes[1..]);
      forall x | x in own
        ensures here <= x.path
      {
        if x != own[0] {
          WalkSound(here, n.children, x);
        }
      }
      if n.Dir? {
        var below := Walk(here, n.children);
        WalkDistinct(here, n.children);
        forall y | y in below
          ensures y.path != here
        {
          WalkSound(here, n.children, y);
        }
        DistinctConcat([Visited(here, DirectoryAttributes)], below);
      }
      forall x, y | x in own && y in tail
        ensures x.path != y.path
      {
        WalkSound(dir, nodes[1..], y);
        var rel := y.path[|dir|..];
        assert Find(nodes[1..], rel[0]).Some?;
        assert x.path[|dir|] == n.name;
        assert y.path[|dir|] == rel[0];
      }
      DistinctConcat(own, tail);
    }
  }
}
