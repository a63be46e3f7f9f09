/** A scanner driven by any sequence of user actions against one disk:
    the invariants `FileScanner` keeps however `scan` and `cleanFiles` are
    interleaved (one scan at a time; the enumeration is evaluated when the
    scan completes). */
module Session {
  import opened FileTree
  import opened Classification
  import opened FileScanner

  datatype Event =
    | StartScan(directory: Path)
    | CompleteScan(directory: Path)
    | Clean(refused: set<Path>)

  datatype State = State(scanner: Scanner, disk: seq<Node>)

  function Step(st: State, e: Event): State {
    match e
    case StartScan(directory) => State(BeginScan(st.scanner, directory), st.disk)
    case CompleteScan(directory) => State(FinishScan(st.scanner, ScanDisk(st.disk, directory)), st.disk)
    case Clean(refused) =>
      var c := CleanOutcome(st.scanner, st.disk, refused);
      State(c.scanner, c.disk)
  }

  function Run(st: State, events: seq<Event>): State
    decreases |events|
  {
    if |events| == 0 then st else Run(Step(st, events[0]), events[1..])
  }

  /** The disk stays well formed, the scanner coherent, and every listed
      file is a hidden, readable regular file still on the disk with the
      size it had when it was found. */
  predicate Good(st: State) {
    && UniqueNames(st.disk)
    && Coherent(st.scanner)
    && forall f :: f in st.scanner.foundFiles ==> IsJunkFileOn(st.disk, f)
  }

  lemma StepKeepsGood(st: State, e: Event)
    requires Good(st)
    ensures Good(Step(st, e))
  {
    match e
    case StartScan(_) =>
    case CompleteScan(directory) =>
      forall f | f in ScanDisk(st.disk, directory)
        ensures IsJunkFileOn(st.disk, f)
      {
        ScanSound(st.disk, directory, f);
      }
    case Clean(refused) =>
      RemoveEachOnlyTargets(st.disk, Urls(st.scanner.foundFiles), refused, []);
  }

  /** A fresh scanner on a well-formed disk stays good whatever happens. */
  lemma {:induction false} RunKeepsGood(disk: seq<Node>, events: seq<Event>)
    requires UniqueNames(disk)
    ensures Good(Run(State(Initial(), disk), events))
  {
    RunFromGood(State(Initial(), disk), events);
  }

  lemma {:induction false} RunFromGood(st: State, events: seq<Event>)
    requires Good(st)
    ensures Good(Run(st, events))
    decreases |events|
  {
    if |events| > 0 {
      StepKeepsGood(st, events[0]);
      RunFromGood(Step(st, events[0]), events[1..]);
    }
  }
}
