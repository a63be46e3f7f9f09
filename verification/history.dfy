/** `HistoryManager` (HistoryManager.swift): two lifetime totals kept in
    memory and mirrored to `UserDefaults`, here a map from key to stored
    integer. Swift's `Int` and `Int64` are both 64 bits wide on the
    platforms the app targets, so the conversions between them never
    change a value. */
module History {

  const Int64Min: int := -0x8000_0000_0000_0000
  const Int64Max: int := 0x7fff_ffff_ffff_ffff

  predicate InInt64(x: int) {
    Int64Min <= x <= Int64Max
  }

  type Int64 = x: int | InInt64(x)

  type Defaults = map<string, Int64>

  const FilesKey: string := "totalFilesCleaned"
  const BytesKey: string := "totalBytesCleaned"

  datatype Totals = Totals(totalFilesCleaned: Int64, totalBytesCleaned: Int64)

  datatype Manager = Manager(totals: Totals, defaults: Defaults)

  /** `UserDefaults.integer(forKey:)`: the stored value, 0 when absent. */
  function IntegerForKey(defaults: Defaults, key: string): Int64 {
    if key in defaults then defaults[key] else 0
  }

  /** What `init` reads back from the store. */
  function Load(defaults: Defaults): (t: Totals)
    ensures defaults == map[] ==> t == Totals(0, 0)
  {
    Totals(IntegerForKey(defaults, FilesKey), IntegerForKey(defaults, BytesKey))
  }

  /** The in-memory totals are the stored ones. */
  predicate Synced(m: Manager) {
    Load(m.defaults) == m.totals
  }

  /** `init`: start from whatever the store holds. */
  function Init(defaults: Defaults): (m: Manager)
    ensures Synced(m) && m.defaults == defaults
  {
    Manager(Load(defaults), defaults)
  }

  /** Swift's `+=` traps instead of wrapping, so a call is only defined
      when both new totals stay representable. */
  predicate CanAdd(t: Totals, files: int, bytes: int) {
    InInt64(t.totalFilesCleaned + files) && InInt64(t.totalBytesCleaned + bytes)
  }

  /** `addCleaned(files:bytes:)`: add to both totals, then write both back. */
  function AddCleaned(m: Manager, files: Int64, bytes: Int64): (r: Manager)
    requires CanAdd(m.totals, files, bytes)
    ensures r.totals.totalFilesCleaned - m.totals.totalFilesCleaned == files
    ensures r.totals.totalBytesCleaned - m.totals.totalBytesCleaned == bytes
    ensures Synced(r)
    ensures forall k :: k != FilesKey && k != BytesKey ==>
              (k in r.defaults <==> k in m.defaults) && (k in m.defaults ==> r.defaults[k] == m.defaults[k])
  {
    var t := Totals(m.totals.totalFilesCleaned + files, m.totals.totalBytesCleaned + bytes);
    Manager(t, m.defaults[FilesKey := t.totalFilesCleaned][BytesKey := t.totalBytesCleaned])
  }

  /** Adding nothing leaves the totals alone, and a synced manager's store
      then reads back the same totals. */
  lemma AddNothing(m: Manager)
    ensures AddCleaned(m, 0, 0).totals == m.totals
    ensures Synced(m) ==> Load(AddCleaned(m, 0, 0).defaults) == Load(m.defaults)
  {
  }

  /** Two calls amount to one call with the summed arguments (when those
      sums are themselves representable), whichever comes first. */
  lemma AddTwice(m: Manager, f1: Int64, b1: Int64, f2: Int64, b2: Int64)
    requires CanAdd(m.totals, f1, b1)
    requires CanAdd(AddCleaned(m, f1, b1).totals, f2, b2)
    requires CanAdd(m.totals, f2, b2)
    requires InInt64(f1 + f2) && InInt64(b1 + b2)
    ensures CanAdd(m.totals, f1 + f2, b1 + b2)
    ensures AddCleaned(AddCleaned(m, f1, b1), f2, b2).totals == AddCleaned(m, f1 + f2, b1 + b2).totals
    ensures CanAdd(AddCleaned(m, f2, b2).totals, f1, b1)
    ensures AddCleaned(AddCleaned(m, f2, b2), f1, b1).totals == AddCleaned(AddCleaned(m, f1, b1), f2, b2).totals
  {
  }

  /** A new manager created from the store a call left behind starts with
      that call's totals. */
  lemma ReloadAfterAdd(m: Manager, files: Int64, bytes: Int64)
    requires CanAdd(m.totals, files, bytes)
    ensures Init(AddCleaned(m, files, bytes).defaults).totals == AddCleaned(m, files, bytes).totals
  {
  }
}
