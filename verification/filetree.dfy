/** The filesystem the scanner walks and deletes from, as an immutable tree.
    `FileManager`'s enumeration, `resourceValues` and `removeItem` are
    modelled over it in the other modules. A path is the sequence of
    components below "/", so `[]` is "/" itself. */
module FileTree {
  import opened Optional

  type Path = seq<string>

  /** What `resourceValues(forKeys: [.fileSizeKey, .isRegularFileKey])`
      reports for an entry whose attributes could be read; each key may be
      absent from the answer. */
  datatype Attributes = Attributes(isRegularFile: Option<bool>, fileSize: Option<int>)

  /** A non-directory entry (regular file, symbolic link, socket, ...) with
      its attributes, `None` when reading them throws; or a directory with
      its listing in enumeration order. */
  datatype Node =
    | File(name: string, attributes: Option<Attributes>)
    | Dir(name: string, children: seq<Node>)

  /** `URL.lastPathComponent`; the root "/" answers "/". */
  function LastComponent(p: Path): string {
    if |p| == 0 then "/" else p[|p| - 1]
  }

  /** The first entry of a listing with the given name. */
  function Find(nodes: seq<Node>, name: string): (r: Option<Node>)
    ensures r.Some? ==> r.value in nodes && r.value.name == name
    ensures r.None? <==> forall i :: 0 <= i < |nodes| ==> nodes[i].name != name
  {
    if |nodes| == 0 then None
    else if nodes[0].name == name then Some(nodes[0])
    else Find(nodes[1..], name)
  }

  /** The entry at path `p` below the listing `nodes`. */
  function Lookup(nodes: seq<Node>, p: Path): Option<Node>
    decreases |p|
  {
    if |p| == 0 then None
    else match Find(nodes, p[0])
      case None => None
      case Some(n) =>
        if |p| == 1 then Some(n)
        else if n.Dir? then Lookup(n.children, p[1..])
        else None
  }

  predicate Exists(nodes: seq<Node>, p: Path) {
    Lookup(nodes, p).Some?
  }

  /** What enumerating the directory at `dir` lists: its children when it is
      a directory, nothing when it is missing or not a directory. */
  function Listing(nodes: seq<Node>, dir: Path): seq<Node>
    decreases |dir|
  {
    if |dir| == 0 then nodes
    else match Find(nodes, dir[0])
      case Some(Dir(_, kids)) => Listing(kids, dir[1..])
      case _ => []
  }

  /** No directory holds two entries of the same name: what every real
      filesystem guarantees. */
  predicate UniqueNames(nodes: seq<Node>)
    decreases nodes
  {
    |nodes| == 0 ||
    (&& Find(nodes[1..], nodes[0].name).None?
     && (nodes[0].Dir? ==> UniqueNames(nodes[0].children))
     && UniqueNames(nodes[1..]))
  }

  /** `removeItem(at: p)` once it has succeeded: the entry at `p` disappears
      together with everything below it. */
  function Remove(nodes: seq<Node>, p: Path): seq<Node>
    decreases |p|, |nodes|
  {
    if |p| == 0 || |nodes| == 0 then nodes
    else if nodes[0].name != p[0] then [nodes[0]] + Remove(nodes[1..], p)
    else if |p| == 1 then nodes[1..]
    else match nodes[0]
      case File(_, _) => nodes
      case Dir(name, kids) => [Dir(name, Remove(kids, p[1..]))] + nodes[1..]
  }

  // ---------------------------------------------------------------------
  // Lookup

  /** The entry found at a path carries the path's last component as its
      name. */
  lemma {:induction false} LookupName(nodes: seq<Node>, p: Path)
    requires Exists(nodes, p)
    ensures |p| > 0 && Lookup(nodes, p).value.name == LastComponent(p)
    decreases |p|
  {
    var n := Find(nodes, p[0]).value;
    if |p| > 1 {
      LookupName(n.children, p[1..]);
    }
  }

  lemma LookupSkip(nodes: seq<Node>, p: Path)
    requires |nodes| > 0 && |p| > 0 && nodes[0].name != p[0]
    ensures Lookup(nodes, p) == Lookup(nodes[1..], p)
  {
  }

  lemma LookupEnter(nodes: seq<Node>, p: Path)
    requires |nodes| > 0 && nodes[0].Dir? && |p| > 1 && nodes[0].name == p[0]
    ensures Lookup(nodes, p) == Lookup(nodes[0].children, p[1..])
  {
  }

  /** Nothing lies below a file: a path that runs through a non-directory
      names no entry. */
  lemma {:induction false} NothingBelowFile(nodes: seq<Node>, p: Path, q: Path)
    requires Exists(nodes, p) && Lookup(nodes, p).value.File?
    requires p < q
    ensures !Exists(nodes, q)
    decreases |p|
  {
    var n := Find(nodes, p[0]).value;
    assert q[0] == p[0];
    if |p| > 1 {
      NothingBelowFile(n.children, p[1..], q[1..]);
    }
  }

  /** Looking below a directory is looking in its listing. */
  lemma {:induction false} LookupBelow(nodes: seq<Node>, dir: Path, rel: Path)
    requires |rel| > 0
    ensures Lookup(nodes, dir + rel) == Lookup(Listing(nodes, dir), rel)
    decreases |dir|
  {
    if |dir| == 0 {
      assert dir + rel == rel;
    } else {
      var p := dir + rel;
      assert p[0] == dir[0];
      assert p[1..] == dir[1..] + rel;
      match Find(nodes, dir[0])
      case None =>
      case Some(n) =>
        if n.Dir? {
          LookupBelow(n.children, dir[1..], rel);
        }
    }
  }

  // ---------------------------------------------------------------------
  // Unique names

  lemma {:induction false} FindInUnique(nodes: seq<Node>, name: string)
    requires UniqueNames(nodes)
    ensures Find(nodes, name).Some? && Find(nodes, name).value.Dir? ==>
              UniqueNames(Find(nodes, name).value.children)
    decreases |nodes|
  {
    if |nodes| > 0 && nodes[0].name != name {
      FindInUnique(nodes[1..], name);
    }
  }

  /** Every directory listing of a well-formed tree is itself well formed. */
  lemma {:induction false} ListingUnique(nodes: seq<Node>, dir: Path)
    requires UniqueNames(nodes)
    ensures UniqueNames(Listing(nodes, dir))
    decreases |dir|
  {
    if |dir| > 0 {
      FindInUnique(nodes, dir[0]);
      match Find(nodes, dir[0])
      case Some(Dir(_, kids)) => ListingUnique(kids, dir[1..]);
      case _ =>
    }
  }

  // ---------------------------------------------------------------------
  // Removal

  lemma PrefixStep(p: Path, q: Path)
    requires |p| > 0 && |q| > 0 && p[0] == q[0]
    ensures p <= q <==> p[1..] <= q[1..]
  {
    if p[1..] <= q[1..] {
      assert p == [p[0]] + p[1..];
      assert q[..|p|] == [q[0]] + q[1..][..|p| - 1];
    }
  }

  /** Removal renames nothing: the remaining entries of a listing are the
      old ones, in the old order, under the old names. */
  lemma {:induction false} RemoveKeepsNames(nodes: seq<Node>, p: Path, name: string)
    ensures Find(Remove(nodes, p), name).Some? ==> Find(nodes, name).Some?
    ensures |p| > 0 && name != p[0] ==> Find(Remove(nodes, p), name) == Find(nodes, name)
    ensures |p| > 1 ==> (Find(Remove(nodes, p), name).Some? <==> Find(nodes, name).Some?)
    decreases |nodes|
  {
    if |p| > 0 && |nodes| > 0 {
      if nodes[0].name != p[0] {
        RemoveKeepsNames(nodes[1..], p, name);
      }
    }
  }

  /** A removal keeps a well-formed tree well formed. */
  lemma {:induction false} RemoveKeepsUnique(nodes: seq<Node>, p: Path)
    requires UniqueNames(nodes)
    ensures UniqueNames(Remove(nodes, p))
    decreases |p|, |nodes|
  {
    if |p| > 0 && |nodes| > 0 {
      var r := Remove(nodes, p);
      if nodes[0].name != p[0] {
        RemoveKeepsUnique(nodes[1..], p);
        RemoveKeepsNames(nodes[1..], p, nodes[0].name);
        assert r[1..] == Remove(nodes[1..], p);
      } else if |p| > 1 && nodes[0].Dir? {
        RemoveKeepsUnique(nodes[0].children, p[1..]);
        assert r[1..] == nodes[1..];
      }
    }
  }

  /** After removing `p`, exactly the paths that are not `p` or below it
      still exist. */
  lemma {:induction false} RemoveExists(nodes: seq<Node>, p: Path, q: Path)
    requires UniqueNames(nodes)
    requires |p| > 0
    ensures Exists(Remove(nodes, p), q) <==> Exists(nodes, q) && !(p <= q)
    decreases |p|, |nodes|
  {
    if |q| > 0 && |nodes| > 0 {
      var r := Remove(nodes, p);
      if nodes[0].name != p[0] {
        assert r[1..] == Remove(nodes[1..], p);
        if q[0] != nodes[0].name {
          RemoveExists(nodes[1..], p, q);
        }
        if q[0] != p[0] {
          assert !(p <= q);
        }
      } else if |p| == 1 {
        if q[0] == p[0] {
          assert p <= q;
        } else {
          assert !(p <= q);
        }
      } else if nodes[0].File? {
        if q[0] == p[0] {
          if p <= q {
            assert |q| > 1;
          }
        } else {
          assert !(p <= q);
        }
      } else {
        assert r[1..] == nodes[1..];
        if q[0] == p[0] {
          PrefixStep(p, q);
          if |q| > 1 {
            RemoveExists(nodes[0].children, p[1..], q[1..]);
          }
        } else {
          assert !(p <= q);
        }
      }
    }
  }

  /** A removal only takes files away; every file still found afterwards
      was found, unchanged, before. */
  lemma {:induction false} RemoveKeepsFiles(nodes: seq<Node>, p: Path, q: Path)
    requires UniqueNames(nodes)
    requires Exists(Remove(nodes, p), q) && Lookup(Remove(nodes, p), q).value.File?
    ensures Lookup(nodes, q) == Lookup(Remove(nodes, p), q)
    decreases |p|, |nodes|
  {
    if |p| > 0 && |nodes| > 0 {
      var r := Remove(nodes, p);
      if nodes[0].name != p[0] {
        assert r[1..] == Remove(nodes[1..], p);
        if q[0] != nodes[0].name {
          RemoveKeepsFiles(nodes[1..], p, q);
        }
      } else if |p| == 1 {
        assert r == nodes[1..];
        if q[0] != p[0] {
          assert Find(r, q[0]) == Find(nodes, q[0]);
        }
      } else if nodes[0].Dir? {
        assert r[1..] == nodes[1..];
        if q[0] == p[0] && |q| > 1 {
          RemoveKeepsFiles(nodes[0].children, p[1..], q[1..]);
        }
      }
    }
  }
}
