/** The observable state of `FileScanner` (FileScanner.swift) and its
    transitions: the two halves of `scan` and `cleanFiles`. `scan`'s
    hand-off from the background queue to the main queue is modelled as two
    separate steps, `BeginScan` and `FinishScan`; `removeItem` is modelled
    by `Remove` on the tree, failing when the path is missing or the system
    refuses to remove it. */
module FileScanner {
  import opened Optional
  import opened Decimal
  import opened FileTree
  import opened Enumeration
  import opened Classification

  datatype Scanner = Scanner(foundFiles: seq<ScannedFile>, isScanning: bool, statusMessage: string)

  // ---------------------------------------------------------------------
  // Status strings

  const ReadyMessage: string := "Ready to scan"
  const FoundPrefix: string := "Found "
  const CleanedPrefix: string := "Cleaned "
  const FilesSuffix: string := " files."

  function ScanningMessage(directory: Path): string {
    "Scanning " + LastComponent(directory) + "..."
  }

  function FoundMessage(n: nat): string {
    FoundPrefix + NatToString(n) + FilesSuffix
  }

  function CleanedMessage(n: nat): string {
    CleanedPrefix + NatToString(n) + FilesSuffix
  }

  /** The count a "<prefix>N files." status reports, if it has that shape. */
  function CountIn(message: string, prefix: string): Option<nat> {
    if |message| >= |prefix| + |FilesSuffix|
       && message[..|prefix|] == prefix
       && message[|message| - |FilesSuffix|..] == FilesSuffix
    then ParseNat(message[|prefix|..|message| - |FilesSuffix|])
    else None
  }

  /** The count written into a status message is the one read back. */
  lemma CountInMessage(prefix: string, n: nat)
    ensures CountIn(prefix + NatToString(n) + FilesSuffix, prefix) == Some(n)
  {
    var m := prefix + NatToString(n) + FilesSuffix;
    assert m[..|prefix|] == prefix;
    assert m[|m| - |FilesSuffix|..] == FilesSuffix;
    assert m[|prefix|..|m| - |FilesSuffix|] == NatToString(n);
    ParseRendered(n);
  }

  // ---------------------------------------------------------------------
  // Transitions

  /** Whatever the scanner shows is consistent: nothing is listed while a
      scan runs, and a non-empty list is always the one the last "Found N
      files." status counted. */
  predicate Coherent(s: Scanner) {
    && (s.isScanning ==> s.foundFiles == [])
    && (s.foundFiles != [] ==> CountIn(s.statusMessage, FoundPrefix) == Some(|s.foundFiles|))
  }

  /** The state of a newly created scanner. */
  function Initial(): (s: Scanner)
    ensures s.foundFiles == [] && !s.isScanning
    ensures s.statusMessage == ReadyMessage
    ensures CountIn(s.statusMessage, FoundPrefix).None? && CountIn(s.statusMessage, CleanedPrefix).None?
  {
    Scanner([], false, ReadyMessage)
  }

  /** The synchronous start of `scan(directory:)`. */
  function BeginScan(s: Scanner, directory: Path): (r: Scanner)
    ensures r.isScanning && r.foundFiles == []
    ensures Coherent(r)
    ensures r.statusMessage == ScanningMessage(directory)
  {
    Scanner([], true, ScanningMessage(directory))
  }

  /** The main-queue completion of `scan`, publishing the built list. */
  function FinishScan(s: Scanner, files: seq<ScannedFile>): (r: Scanner)
    ensures !r.isScanning && r.foundFiles == files
    ensures Coherent(r)
    ensures r.statusMessage == FoundMessage(|files|)
    ensures CountIn(r.statusMessage, FoundPrefix) == Some(|files|)
  {
    CountInMessage(FoundPrefix, |files|);
    Scanner(files, false, FoundMessage(|files|))
  }

  /** A scan started on `directory` and completed publishes exactly the
      hidden, readable regular files strictly below it, with a status that
      counts them. */
  lemma ScanLifecycle(s: Scanner, disk: seq<Node>, directory: Path, g: ScannedFile)
    requires UniqueNames(disk)
    ensures var f := FinishScan(BeginScan(s, directory), ScanDisk(disk, directory));
            && !f.isScanning
            && (g in f.foundFiles <==> directory < g.url && IsJunkFileOn(disk, g))
            && f.statusMessage == FoundMessage(|f.foundFiles|)
            && CountIn(f.statusMessage, FoundPrefix) == Some(|f.foundFiles|)
  {
    ScanFindsExactlyJunk(disk, directory, g);
  }

  // ---------------------------------------------------------------------
  // cleanFiles

  /** The disk after a batch of removals and how many of them succeeded. */
  datatype Removal = Removal(disk: seq<Node>, deleted: nat)

  /** `removeItem(at: p)` succeeds when `p` exists and the system does not
      refuse to remove it. */
  predicate Removable(disk: seq<Node>, p: Path, refused: set<Path>) {
    Exists(disk, p) && p !in refused
  }

  /** Each path in turn, a failure skipping to the next one. */
  function RemoveEach(disk: seq<Node>, urls: seq<Path>, refused: set<Path>): (r: Removal)
    ensures r.deleted <= |urls|
    decreases |urls|
  {
    if |urls| == 0 then Removal(disk, 0)
    else if Removable(disk, urls[0], refused) then
      var rest := RemoveEach(Remove(disk, urls[0]), urls[1..], refused);
      Removal(rest.disk, rest.deleted + 1)
    else RemoveEach(disk, urls[1..], refused)
  }

  function Urls(files: seq<ScannedFile>): (urls: seq<Path>)
    ensures |urls| == |files|
    ensures forall i :: 0 <= i < |files| ==> urls[i] == files[i].url
  {
    seq(|files|, i requires 0 <= i < |files| => files[i].url)
  }

  /** The scanner and disk `cleanFiles` leaves behind. */
  datatype Cleaned = Cleaned(scanner: Scanner, disk: seq<Node>)

  function CleanOutcome(s: Scanner, disk: seq<Node>, refused: set<Path>): Cleaned {
    var d := RemoveEach(disk, Urls(s.foundFiles), refused);
    Cleaned(Scanner([], s.isScanning, CleanedMessage(d.deleted)), d.disk)
  }

  /** `cleanFiles()`: try every listed file, count the successes, then
      clear the list whatever happened and report the count. */
  method CleanFiles(s: Scanner, disk: seq<Node>, refused: set<Path>) returns (r: Scanner, after: seq<Node>)
    ensures r.foundFiles == [] && r.isScanning == s.isScanning
    ensures var d := RemoveEach(disk, Urls(s.foundFiles), refused);
            after == d.disk && r.statusMessage == CleanedMessage(d.deleted)
    ensures exists n: nat :: n <= |s.foundFiles| && CountIn(r.statusMessage, CleanedPrefix) == Some(n)
    ensures Cleaned(r, after) == CleanOutcome(s, disk, refused)
  {
    ghost var urls := Urls(s.foundFiles);
    ghost var total := RemoveEach(disk, urls, refused);
    var deletedCount := 0;
    after := disk;
    var i := 0;
    while i < |s.foundFiles|
      invariant 0 <= i <= |s.foundFiles|
      invariant RemoveEach(after, urls[i..], refused).disk == total.disk
      invariant deletedCount + RemoveEach(after, urls[i..], refused).deleted == total.deleted
    {
      var url := s.foundFiles[i].url;
      assert urls[i..][0] == url && urls[i..][1..] == urls[i + 1..];
      if Removable(after, url, refused) {
        after := Remove(after, url);
        deletedCount := deletedCount + 1;
      }
      i := i + 1;
    }
    r := Scanner([], s.isScanning, CleanedMessage(deletedCount));
    CountInMessage(CleanedPrefix, deletedCount);
  }

  /** Removals never create entries, and an entry that disappears lies at or
      below one of the paths asked for. */
  lemma {:induction false} RemoveEachOnlyTargets(disk: seq<Node>, urls: seq<Path>, refused: set<Path>, q: Path)
    requires UniqueNames(disk)
    ensures UniqueNames(RemoveEach(disk, urls, refused).disk)
    ensures Exists(RemoveEach(disk, urls, refused).disk, q) ==> Exists(disk, q)
    ensures Exists(disk, q) && !Exists(RemoveEach(disk, urls, refused).disk, q) ==>
              exists i :: 0 <= i < |urls| && urls[i] <= q
    decreases |urls|
  {
    if |urls| > 0 {
      var next := if Removable(disk, urls[0], refused) then Remove(disk, urls[0]) else disk;
      if Removable(disk, urls[0], refused) {
        LookupName(disk, urls[0]);
        RemoveKeepsUnique(disk, urls[0]);
        RemoveExists(disk, urls[0], q);
      }
      RemoveEachOnlyTargets(next, urls[1..], refused, q);
      if Exists(disk, q) && !Exists(RemoveEach(disk, urls, refused).disk, q) {
        if !(urls[0] <= q) {
          var i :| 0 <= i < |urls[1..]| && urls[1..][i] <= q;
          assert urls[i + 1] <= q;
        }
      }
    }
  }

  /** Every path the system does not refuse is gone afterwards: removed by
      this batch, or already missing. */
  lemma {:induction false} RemoveEachClears(disk: seq<Node>, urls: seq<Path>, refused: set<Path>, i: nat)
    requires UniqueNames(disk)
    requires i < |urls| && urls[i] !in refused
    ensures !Exists(RemoveEach(disk, urls, refused).disk, urls[i])
    decreases |urls|
  {
    var next := if Removable(disk, urls[0], refused) then Remove(disk, urls[0]) else disk;
    var after := RemoveEach(disk, urls, refused).disk;
    if Removable(disk, urls[0], refused) {
      LookupName(disk, urls[0]);
      RemoveKeepsUnique(disk, urls[0]);
    }
    if i == 0 {
      if Removable(disk, urls[0], refused) {
        RemoveExists(disk, urls[0], urls[0]);
      }
      RemoveEachOnlyTargets(next, urls[1..], refused, urls[0]);
    } else {
      RemoveEachClears(next, urls[1..], refused, i - 1);
    }
  }

  /** Every file present after the batch was present before, unchanged. */
  lemma {:induction false} RemoveEachKeepsFiles(disk: seq<Node>, urls: seq<Path>, refused: set<Path>, q: Path)
    requires UniqueNames(disk)
    requires Exists(RemoveEach(disk, urls, refused).disk, q)
    requires Lookup(RemoveEach(disk, urls, refused).disk, q).value.File?
    ensures Lookup(disk, q) == Lookup(RemoveEach(disk, urls, refused).disk, q)
    decreases |urls|
  {
    if |urls| > 0 {
      if Removable(disk, urls[0], refused) {
        var next := Remove(disk, urls[0]);
        RemoveKeepsUnique(disk, urls[0]);
        RemoveEachKeepsFiles(next, urls[1..], refused, q);
        RemoveKeepsFiles(disk, urls[0], q);
      } else {
        RemoveEachKeepsFiles(disk, urls[1..], refused, q);
      }
    }
  }

  /** Cleaning right after a scan removes nothing but the files the scan
      listed, and a new scan of the same directory lists only files the
      system refused to remove. */
  lemma CleanAfterScan(disk: seq<Node>, directory: Path, refused: set<Path>)
    requires UniqueNames(disk)
    ensures var files := ScanDisk(disk, directory);
            var after := RemoveEach(disk, Urls(files), refused).disk;
            && (forall q :: Exists(disk, q) && !Exists(after, q) ==> q in Urls(files))
            && (forall g :: g in ScanDisk(after, directory) ==> g in files && g.url in refused)
  {
    var files := ScanDisk(disk, directory);
    var urls := Urls(files);
    var after := RemoveEach(disk, urls, refused).disk;
    forall q | Exists(disk, q) && !Exists(after, q)
      ensures q in urls
    {
      RemoveEachOnlyTargets(disk, urls, refused, q);
      var i :| 0 <= i < |urls| && urls[i] <= q;
      ScanSound(disk, directory, files[i]);
      if urls[i] < q {
        NothingBelowFile(disk, urls[i], q);
      }
      assert q == urls[i];
    }
    forall g | g in ScanDisk(after, directory)
      ensures g in files && g.url in refused
    {
      RemoveEachOnlyTargets(disk, urls, refused, g.url);
      ScanSound(after, directory, g);
      RemoveEachKeepsFiles(disk, urls, refused, g.url);
      ScanComplete(disk, directory, g);
      var i :| 0 <= i < |files| && files[i] == g;
      if g.url !in refused {
        RemoveEachClears(disk, urls, refused, i);
      }
    }
  }

  /** How many of `urls` the system would let be removed from `disk` as it
      stands. */
  function CountRemovable(disk: seq<Node>, urls: seq<Path>, refused: set<Path>): (n: nat)
    ensures n <= |urls|
    ensures (forall i :: 0 <= i < |urls| ==> Removable(disk, urls[i], refused)) ==> n == |urls|
    decreases |urls|
  {
    if |urls| == 0 then 0
    else (if Removable(disk, urls[0], refused) then 1 else 0) + CountRemovable(disk, urls[1..], refused)
  }

  /** No path of `urls` lies at or below another one. */
  predicate PrefixFree(urls: seq<Path>) {
    forall i, j :: 0 <= i < |urls| && 0 <= j < |urls| && i != j ==> !(urls[i] <= urls[j])
  }

  lemma {:induction false} RemoveUnrelated(disk: seq<Node>, p: Path, urls: seq<Path>, refused: set<Path>)
    requires UniqueNames(disk) && |p| > 0
    requires forall j :: 0 <= j < |urls| ==> !(p <= urls[j])
    ensures CountRemovable(Remove(disk, p), urls, refused) == CountRemovable(disk, urls, refused)
    decreases |urls|
  {
    if |urls| > 0 {
      RemoveExists(disk, p, urls[0]);
      RemoveUnrelated(disk, p, urls[1..], refused);
    }
  }

  /** When no path is below another, the batch deletes exactly the paths
      that exist and are not refused; when that is all of them, it deletes
      every one. */
  lemma {:induction false} RemoveEachCount(disk: seq<Node>, urls: seq<Path>, refused: set<Path>)
    requires UniqueNames(disk)
    requires PrefixFree(urls)
    ensures RemoveEach(disk, urls, refused).deleted == CountRemovable(disk, urls, refused)
    decreases |urls|
  {
    if |urls| > 0 {
      assert PrefixFree(urls[1..]) by {
        forall i, j | 0 <= i < |urls[1..]| && 0 <= j < |urls[1..]| && i != j
          ensures !(urls[1..][i] <= urls[1..][j])
        {
          assert urls[1..][i] == urls[i + 1] && urls[1..][j] == urls[j + 1];
        }
      }
      if Removable(disk, urls[0], refused) {
        LookupName(disk, urls[0]);
        RemoveKeepsUnique(disk, urls[0]);
        RemoveEachCount(Remove(disk, urls[0]), urls[1..], refused);
        forall j | 0 <= j < |urls[1..]|
          ensures !(urls[0] <= urls[1..][j])
        {
          assert urls[1..][j] == urls[j + 1];
        }
        RemoveUnrelated(disk, urls[0], urls[1..], refused);
      } else {
        RemoveEachCount(disk, urls[1..], refused);
      }
    }
  }

  /** The paths of `urls` the system does not refuse, in order. */
  function Unrefused(urls: seq<Path>, refused: set<Path>): (r: seq<Path>)
    ensures forall p :: p in r <==> p in urls && p !in refused
    decreases |urls|
  {
    if |urls| == 0 then []
    else (if urls[0] in refused then [] else [urls[0]]) + Unrefused(urls[1..], refused)
  }

  /** When every path exists, the removable ones are the unrefused ones. */
  lemma {:induction false} CountAllowed(disk: seq<Node>, urls: seq<Path>, refused: set<Path>)
    requires forall i :: 0 <= i < |urls| ==> Exists(disk, urls[i])
    ensures CountRemovable(disk, urls, refused) == |Unrefused(urls, refused)|
    decreases |urls|
  {
    if |urls| > 0 {
      CountAllowed(disk, urls[1..], refused);
    }
  }

  /** Cleaning right after a scan reports as deleted exactly the listed
      files the system did not refuse; with nothing refused, all of them. */
  lemma CleanAfterScanCount(disk: seq<Node>, directory: Path, refused: set<Path>)
    requires UniqueNames(disk)
    ensures var files := ScanDisk(disk, directory);
            var d := RemoveEach(disk, Urls(files), refused);
            && d.deleted == |Unrefused(Urls(files), refused)|
            && (refused == {} ==> d.deleted == |files|)
  {
    var files := ScanDisk(disk, directory);
    var urls := Urls(files);
    ScanPrefixFree(disk, directory);
    RemoveEachCount(disk, urls, refused);
    forall i | 0 <= i < |urls|
      ensures Removable(disk, urls[i], {})
    {
      ScanSound(disk, directory, files[i]);
    }
    CountAllowed(disk, urls, refused);
  }
}
