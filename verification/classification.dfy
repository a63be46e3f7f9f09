/** The scan's filter (FileScanner.swift, the body of `scan`'s background
    block): which enumerated entries become `ScannedFile`s, and the list
    built from them in enumeration order. */
module Classification {
  import opened Optional
  import opened FileTree
  import opened Enumeration

  /** One collected file. The `UUID` identity used by the list view is not
      modelled. */
  datatype ScannedFile = ScannedFile(url: Path, size: int) {
    function Name(): string {
      LastComponent(url)
    }
  }

  /** `hasPrefix(".")` and neither "." nor "..". */
  predicate IsHiddenName(name: string) {
    |name| > 0 && name[0] == '.' && name != "." && name != ".."
  }

  /** An entry is kept when its own name is hidden and its attributes could
      be read and say it is a regular file. */
  predicate Kept(v: Visited) {
    && IsHiddenName(LastComponent(v.path))
    && v.attributes.Some?
    && v.attributes.value.isRegularFile == Some(true)
  }

  /** `resourceValues.fileSize ?? 0`. */
  function ReportedSize(a: Attributes): int {
    match a.fileSize
    case Some(n) => n
    case None => 0
  }

  /** The record made for a kept entry: its URL and the reported size, 0
      when no size is reported. */
  function Record(v: Visited): ScannedFile
    requires Kept(v)
  {
    ScannedFile(v.path, ReportedSize(v.attributes.value))
  }

  /** The list the background walk builds. */
  function Collect(items: seq<Visited>): (files: seq<ScannedFile>)
    ensures |files| <= |items|
    ensures forall i :: 0 <= i < |files| ==> IsHiddenName(files[i].Name())
  {
    if |items| == 0 then []
    else (if Kept(items[0]) then [Record(items[0])] else []) + Collect(items[1..])
  }

  /** The loop of `scan` over the enumerator, appending each kept entry to
      a private list. */
  method BuildList(items: seq<Visited>) returns (files: seq<ScannedFile>)
    ensures files == Collect(items)
  {
    files := [];
    var i := 0;
    while i < |items|
      invariant 0 <= i <= |items|
      invariant files == Collect(items[..i])
    {
      var item := items[i];
      if Kept(item) {
        files := files + [Record(item)];
      }
      CollectAppend(items[..i], [item]);
      assert items[..i + 1] == items[..i] + [item];
      i := i + 1;
    }
    assert items[..i] == items;
  }

  /** The filter is a homomorphism of concatenation: the order of kept
      entries is the enumeration order. */
  lemma {:induction false} CollectAppend(a: seq<Visited>, b: seq<Visited>)
    ensures Collect(a + b) == Collect(a) + Collect(b)
    decreases |a|
  {
    if |a| == 0 {
      assert a + b == b;
    } else {
      assert (a + b)[0] == a[0];
      assert (a + b)[1..] == a[1..] + b;
      CollectAppend(a[1..], b);
    }
  }

  /** A single entry contributes its record exactly when it is kept. */
  lemma CollectOne(v: Visited)
    ensures Kept(v) ==> Collect([v]) == [Record(v)]
    ensures !Kept(v) ==> Collect([v]) == []
  {
    assert [v][1..] == [];
  }

  /** An entry whose attributes cannot be read is dropped, and the walk
      carries on with the entries after it. */
  lemma SkipsUnreadable(before: seq<Visited>, v: Visited, after: seq<Visited>)
    requires v.attributes.None?
    ensures Collect(before + [v] + after) == Collect(before) + Collect(after)
  {
    calc {
      Collect(before + [v] + after);
      { CollectAppend(before + [v], after); }
      Collect(before + [v]) + Collect(after);
      { CollectAppend(before, [v]); CollectOne(v); }
      Collect(before) + Collect(after);
    }
  }

  /** A file is in the list exactly when some enumerated entry is kept and
      recorded as that file. */
  lemma {:induction false} CollectMembership(items: seq<Visited>, f: ScannedFile)
    ensures f in Collect(items) <==>
              exists i :: 0 <= i < |items| && Kept(items[i]) && Record(items[i]) == f
    decreases |items|
  {
    if |items| > 0 {
      CollectMembership(items[1..], f);
      if f in Collect(items[1..]) {
        var i :| 0 <= i < |items[1..]| && Kept(items[1..][i]) && Record(items[1..][i]) == f;
        assert items[i + 1] == items[1..][i];
      }
      if exists i :: 0 <= i < |items| && Kept(items[i]) && Record(items[i]) == f {
        var i :| 0 <= i < |items| && Kept(items[i]) && Record(items[i]) == f;
        if i > 0 {
          assert items[1..][i - 1] == items[i];
        }
      }
    }
  }

  // ---------------------------------------------------------------------
  // The scan over a whole tree

  /** What a scan of `directory` on `disk` collects. */
  function ScanDisk(disk: seq<Node>, directory: Path): seq<ScannedFile> {
    Collect(Enumerate(disk, directory))
  }

  /** `f` names a hidden regular file on `disk` whose attributes can be read,
      and carries that file's reported size (0 when none is reported). */
  predicate IsJunkFileOn(disk: seq<Node>, f: ScannedFile) {
    match Lookup(disk, f.url)
    case Some(File(name, Some(a))) =>
      && IsHiddenName(name)
      && a.isRegularFile == Some(true)
      && f.size == ReportedSize(a)
    case _ => false
  }

  /** Every file a scan collects is a hidden, readable regular file
      strictly below the scanned directory, carrying its reported size. */
  lemma ScanSound(disk: seq<Node>, directory: Path, f: ScannedFile)
    requires UniqueNames(disk)
    requires f in ScanDisk(disk, directory)
    ensures directory < f.url && IsJunkFileOn(disk, f)
  {
    var items := Enumerate(disk, directory);
    var kids := Listing(disk, directory);
    CollectMembership(items, f);
    var i :| 0 <= i < |items| && Kept(items[i]) && Record(items[i]) == f;
    ListingUnique(disk, directory);
    WalkSound(directory, kids, items[i]);
    var rel := f.url[|directory|..];
    assert f.url == directory + rel;
    LookupBelow(disk, directory, rel);
    LookupName(disk, f.url);
  }

  /** Every hidden, readable regular file strictly below the scanned
      directory, at any depth and inside hidden directories too, is
      collected with its reported size. */
  lemma ScanComplete(disk: seq<Node>, directory: Path, f: ScannedFile)
    requires directory < f.url && IsJunkFileOn(disk, f)
    ensures f in ScanDisk(disk, directory)
  {
    var items := Enumerate(disk, directory);
    var kids := Listing(disk, directory);
    var rel := f.url[|directory|..];
    assert f.url == directory + rel;
    LookupBelow(disk, directory, rel);
    WalkComplete(directory, kids, rel);
    LookupName(disk, f.url);
    var v := Visited(f.url, Lookup(disk, f.url).value.attributes);
    assert v in items;
    var j :| 0 <= j < |items| && items[j] == v;
    assert Kept(items[j]) && Record(items[j]) == f;
    CollectMembership(items, f);
  }

  /** On a well-formed tree a scan of `directory` collects exactly the
      hidden, readable regular files strictly below it, at any depth, with
      their sizes. Directories, hidden or not, never appear, and only the
      entry's own name is looked at. */
  lemma ScanFindsExactlyJunk(disk: seq<Node>, directory: Path, f: ScannedFile)
    requires UniqueNames(disk)
    ensures f in ScanDisk(disk, directory) <==> directory < f.url && IsJunkFileOn(disk, f)
  {
    if f in ScanDisk(disk, directory) {
      ScanSound(disk, directory, f);
    }
    if directory < f.url && IsJunkFileOn(disk, f) {
      ScanComplete(disk, directory, f);
    }
  }

  /** Filtering keeps distinct paths distinct. */
  lemma {:induction false} CollectDistinct(items: seq<Visited>)
    requires DistinctPaths(items)
    ensures var files := Collect(items);
            forall i, j :: 0 <= i < j < |files| ==> files[i].url != files[j].url
    decreases |items|
  {
    if |items| > 0 {
      var rest := Collect(items[1..]);
      assert DistinctPaths(items[1..]) by {
        forall i, j | 0 <= i < j < |items[1..]|
          ensures items[1..][i].path != items[1..][j].path
        {
          assert items[1..][i] == items[i + 1] && items[1..][j] == items[j + 1];
        }
      }
      CollectDistinct(items[1..]);
      if Kept(items[0]) {
        forall k | 0 <= k < |rest|
          ensures rest[k].url != items[0].path
        {
          CollectMembership(items[1..], rest[k]);
          var m :| 0 <= m < |items[1..]| && Kept(items[1..][m]) && Record(items[1..][m]) == rest[k];
          assert items[1..][m] == items[m + 1];
        }
        var files := Collect(items);
        assert files == [Record(items[0])] + rest;
        forall i, j | 0 <= i < j < |files|
          ensures files[i].url != files[j].url
        {
          assert files[j] == rest[j - 1];
          if i > 0 {
            assert files[i] == rest[i - 1];
          }
        }
      } else {
        assert Collect(items) == rest;
      }
    }
  }

  /** On a well-formed tree no file a scan lists is listed twice or lies
      below another listed file. */
  lemma ScanPrefixFree(disk: seq<Node>, directory: Path)
    requires UniqueNames(disk)
    ensures var files := ScanDisk(disk, directory);
            forall i, j :: 0 <= i < |files| && 0 <= j < |files| && i != j ==> !(files[i].url <= files[j].url)
  {
    var files := ScanDisk(disk, directory);
    ListingUnique(disk, directory);
    WalkDistinct(directory, Listing(disk, directory));
    CollectDistinct(Enumerate(disk, directory));
    assert files == Collect(Enumerate(disk, directory));
    assert forall i, j :: 0 <= i < j < |files| ==> files[i].url != files[j].url;
    forall i, j | 0 <= i < |files| && 0 <= j < |files| && i != j
      ensures !(files[i].url <= files[j].url)
    {
      ScanSound(disk, directory, files[i]);
      ScanSound(disk, directory, files[j]);
      if i < j {
        assert files[i].url != files[j].url;
      } else {
        assert files[j].url != files[i].url;
      }
      assert Exists(disk, files[i].url) && Lookup(disk, files[i].url).value.File?;
      assert Exists(disk, files[j].url);
      if files[i].url < files[j].url {
        NothingBelowFile(disk, files[i].url, files[j].url);
      }
    }
  }
}
