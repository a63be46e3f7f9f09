/** The repository's scanner test, on a concrete tree. */
module Scenarios {
  import opened Optional
  import opened FileTree
  import opened Enumeration
  import opened Classification
  import opened FileScanner


  function Regular(name: string, size: int): Node {
    File(name, Some(Attributes(Some(true), Some(size))))
  }

  /** FileScannerTests.testScanFindsDotFiles: "normal.txt", ".hidden" and
      ".DS_Store", each holding "content", in a fresh directory. */
  const TestDisk: seq<Node> :=
    [Dir("tmp", [Dir("run", [Regular("normal.txt", 7), Regular(".hidden", 7), Regular(".DS_Store", 7)])])]

  lemma ScanFindsDotFiles()
    ensures ScanDisk(TestDisk, ["tmp", "run"]) ==
              [ScannedFile(["tmp", "run", ".hidden"], 7), ScannedFile(["tmp", "run", ".DS_Store"], 7)]
  {
    var dir: Path := ["tmp", "run"];
    var kids := [Regular("normal.txt", 7), Regular(".hidden", 7), Regular(".DS_Store", 7)];
    assert Listing(TestDisk, dir) == kids by {
      assert Find(TestDisk, "tmp") == Some(TestDisk[0]);
      assert Find(TestDisk[0].children, "run") == Some(Dir("run", kids));
    }
    var a := Some(Attributes(Some(true), Some(7)));
    var items := [Visited(dir + ["normal.txt"], a), Visited(dir + [".hidden"], a), Visited(dir + [".DS_Store"], a)];
    assert Walk(dir, kids) == items by {
      assert kids[1..] == [kids[1], kids[2]] && kids[1..][1..] == [kids[2]];
      assert Walk(dir, kids[1..][1..]) == [items[2]];
      assert Walk(dir, kids[1..]) == [items[1], items[2]];
    }
    assert items[1..] == [items[1], items[2]] && items[1..][1..] == [items[2]];
    assert !Kept(items[0]) && Kept(items[1]) && Kept(items[2]);
    assert Collect(items[1..][1..]) == [Record(items[2])];
    assert Collect(items[1..]) == [Record(items[1]), Record(items[2])];
    assert Collect(items) == [Record(items[1]), Record(items[2])];
    assert Enumerate(TestDisk, dir) == items;
    assert dir + [".hidden"] == ["tmp", "run", ".hidden"];
    assert dir + [".DS_Store"] == ["tmp", "run", ".DS_Store"];
  }
}
