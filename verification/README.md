# USB Cleaner core, modelled in Dafny

USB Cleaner is a macOS app. It scans a folder, typically a USB volume, for hidden
"junk" files such as `.DS_Store` and `._photo.jpg`, lists them, and deletes them on
request. All of its behaviour lives in two small classes. The rest is SwiftUI.

- `FileScanner` walks the chosen folder and keeps every entry whose own name starts
  with `.` (and is neither `.` nor `..`) and whose attributes say it is a regular
  file; the model states this rule once, as `Classification.Kept`. It publishes the list with a "Found N files." status. `cleanFiles` tries to
  remove every listed file, counts the successes, clears the list and reports
  "Cleaned N files.".
- `HistoryManager` holds two lifetime totals, files and bytes cleaned. `addCleaned`
  adds to them and writes them to `UserDefaults`, which `init` reads back.

The filesystem is an immutable tree (`FileTree.Node`). The folder enumerator is a
pre-order walk of that tree (`Enumeration.Walk`). `removeItem` is a removal from
the tree that fails when the path is missing or the system refuses it (a set of
refused paths). `scan` is split into its two halves, `BeginScan` on the calling
thread and `FinishScan` on the main queue. `Session` drives a scanner through any
sequence of scans and cleans.

Modules, one per file: `Optional` (Swift's optionals), `Decimal` (how Swift prints a non-negative `Int`, i.e. the counts),
`FileTree`, `Enumeration`, `Classification` (the scan's filter and `ScannedFile`),
`FileScanner` (scanner state, status strings, `cleanFiles`), `Session`, `History`,
and `Scenarios` (the repository's unit test on a concrete tree).

What the code does, and therefore what the model does:

- The classifier has no fixed list of names and no case-insensitive matching. Any
  dot-named entry other than `.` and `..` qualifies by name
  (Sources/USBCleaner/FileScanner.swift:39).
- There is no shallow/deep switch. The enumerator gets no options, so the whole
  subtree is walked (Sources/USBCleaner/FileScanner.swift:32).
- Directories are never collected, dot-named or not. Only entries whose attributes
  say "regular file" are kept (Sources/USBCleaner/FileScanner.swift:45).
- An entry whose attributes cannot be read is dropped, not kept with size 0
  (Sources/USBCleaner/FileScanner.swift:43-52).
- `cleanFiles` takes no selection and returns nothing. It tries every listed file,
  then clears the whole list, including files whose removal failed
  (Sources/USBCleaner/FileScanner.swift:65-79).

## Model

| member | source | states |
|---|---|---|
| Decimal.NatToString | Sources/USBCleaner/FileScanner.swift:60 | The count in a status string is printed as decimal digits with no leading zero. |
| Decimal.ParseRendered | Sources/USBCleaner/FileScanner.swift:60 | Reading the printed count back gives the same number. |
| Decimal.RenderingInjective | Sources/USBCleaner/FileScanner.swift:79 | Different counts are printed differently, so a status string names one count. |
| FileTree.Find | Sources/USBCleaner/FileScanner.swift:32 | A name lookup in a directory returns an entry of that name, and fails exactly when no entry has it. |
| FileTree.LookupName | Sources/USBCleaner/FileScanner.swift:12-14 | The entry found at a URL has the URL's last path component as its name. |
| FileTree.NothingBelowFile | Sources/USBCleaner/FileScanner.swift:45 | Nothing exists below a regular file, so a path through one names no entry. |
| FileTree.LookupBelow | Sources/USBCleaner/FileScanner.swift:32 | Looking up a path below the scanned folder is the same as looking it up in the folder's listing. |
| FileTree.ListingUnique | Sources/USBCleaner/FileScanner.swift:32 | Every folder of a well-formed filesystem has a well-formed listing. |
| FileTree.RemoveKeepsNames | Sources/USBCleaner/FileScanner.swift:71 | A removal never adds or renames entries in a folder. |
| FileTree.RemoveKeepsUnique | Sources/USBCleaner/FileScanner.swift:71 | After a removal, no folder has two entries of the same name. |
| FileTree.RemoveExists | Sources/USBCleaner/FileScanner.swift:71 | After `removeItem(at: p)` succeeds, a path exists iff it existed before and is neither `p` nor below it. |
| FileTree.RemoveKeepsFiles | Sources/USBCleaner/FileScanner.swift:71 | Any file still present after a removal is the same file that was there before. |
| Enumeration.WalkComplete | Sources/USBCleaner/FileScanner.swift:32 | With no enumerator options, every entry at every depth is visited, hidden folders' contents included. |
| Enumeration.WalkSound | Sources/USBCleaner/FileScanner.swift:32-35 | Every visited entry lies strictly below the folder and carries the attributes of the entry at its path. |
| Enumeration.WalkDistinct | Sources/USBCleaner/FileScanner.swift:34 | On a well-formed filesystem, no path is visited twice. |
| Classification.Collect | Sources/USBCleaner/FileScanner.swift:34-54 | The built list is no longer than the enumeration, and every listed name starts with "." and is not "." or "..". |
| Classification.BuildList | Sources/USBCleaner/FileScanner.swift:29-54 | The appending loop over the enumerator builds exactly the filtered list. |
| Classification.CollectAppend | Sources/USBCleaner/FileScanner.swift:34-48 | Filtering commutes with concatenation, so kept entries stay in enumeration order. |
| Classification.CollectOne | Sources/USBCleaner/FileScanner.swift:39-49 | A single entry contributes its record iff its name is hidden and it reads as a regular file; otherwise it contributes nothing. |
| Classification.SkipsUnreadable | Sources/USBCleaner/FileScanner.swift:43-52 | An entry whose attributes cannot be read is dropped entirely, not kept with size 0, and the walk continues with the next entry. |
| Classification.CollectMembership | Sources/USBCleaner/FileScanner.swift:34-48 | A record is in the list iff some enumerated entry is kept and gives that URL and that size (0 when no size is reported). |
| Classification.ScanSound | Sources/USBCleaner/FileScanner.swift:32-49 | Every collected file is a hidden, readable regular file strictly below the folder, recorded with its reported size. |
| Classification.ScanComplete | Sources/USBCleaner/FileScanner.swift:32-49 | Every hidden, readable regular file below the folder is collected, at any depth and inside dot-named folders too. |
| Classification.ScanFindsExactlyJunk | Sources/USBCleaner/FileScanner.swift:32-49 | A file is collected iff it is such a file. Directories never appear, and only the entry's own name is tested, never an ancestor's. |
| Classification.CollectDistinct | Sources/USBCleaner/FileScanner.swift:34-48 | Filtering a walk with distinct paths yields distinct URLs. |
| Classification.ScanPrefixFree | Sources/USBCleaner/FileScanner.swift:32-49 | No collected URL equals another collected URL or lies below it. |
| FileScanner.CountInMessage | Sources/USBCleaner/FileScanner.swift:60 | The number in a "Found N files." or "Cleaned N files." status reads back as N. |
| FileScanner.Initial | Sources/USBCleaner/FileScanner.swift:18-20 | A new scanner lists nothing, is not scanning, and its status ("Ready to scan") reports no count. |
| FileScanner.BeginScan | Sources/USBCleaner/FileScanner.swift:22-25 | Starting a scan sets `isScanning`, empties the list and sets the status to "Scanning <last path component of the folder>...". |
| FileScanner.FinishScan | Sources/USBCleaner/FileScanner.swift:57-61 | Completion publishes the built list, clears `isScanning`, and sets the status to exactly "Found N files." with N the list's length, a count that reads back as N. |
| FileScanner.ScanLifecycle | Sources/USBCleaner/FileScanner.swift:22-61 | Begin then finish leaves exactly the folder's hidden regular files listed, not scanning, with the status exactly "Found N files." counting them. |
| FileScanner.RemoveEach | Sources/USBCleaner/FileScanner.swift:69-76 | The removal loop counts at most one success per listed entry. |
| FileScanner.CleanFiles | Sources/USBCleaner/FileScanner.swift:65-80 | Every entry is attempted and failures do not stop the loop. The result is the clean step the session uses. The list ends empty, `isScanning` is untouched, and the status is "Cleaned N files." with N successes, 0 <= N <= list length. |
| FileScanner.RemoveEachOnlyTargets | Sources/USBCleaner/FileScanner.swift:69-76 | Cleaning creates nothing, and every entry that disappears is a listed path or lies below one. |
| FileScanner.RemoveEachClears | Sources/USBCleaner/FileScanner.swift:69-76 | After cleaning, every listed path the system did not refuse is gone. |
| FileScanner.RemoveEachKeepsFiles | Sources/USBCleaner/FileScanner.swift:69-76 | Every file present after cleaning was present before, unchanged. |
| FileScanner.CountRemovable | Sources/USBCleaner/FileScanner.swift:69-76 | The number of removable paths is at most the number of entries, and equals it when all are removable. |
| FileScanner.RemoveEachCount | Sources/USBCleaner/FileScanner.swift:69-76 | When no listed path lies below another, the success count is the number of listed paths that exist and are not refused. |
| FileScanner.Unrefused | Sources/USBCleaner/FileScanner.swift:69-76 | The unrefused paths are exactly the listed paths that are not refused. |
| FileScanner.CleanAfterScan | Sources/USBCleaner/FileScanner.swift:65-80 | Cleaning right after a scan removes only the listed files. A rescan of the folder lists only files whose removal was refused, so it lists nothing when none was refused. |
| FileScanner.CleanAfterScanCount | Sources/USBCleaner/FileScanner.swift:65-80 | Cleaning right after a scan reports as cleaned the listed files that were not refused; all of them when none was refused. |
| Session.StepKeepsGood | Sources/USBCleaner/FileScanner.swift:22-80 | Every scan start, scan completion or clean preserves three facts: the filesystem stays well formed, nothing is listed mid-scan, and each listed file is a hidden regular file still on disk. |
| Session.RunKeepsGood | Sources/USBCleaner/FileScanner.swift:18-80 | From a new scanner, those facts hold after any sequence of scans and cleans. |
| History.Load | Sources/USBCleaner/HistoryManager.swift:10-11 | An empty store loads as zero totals. |
| History.Init | Sources/USBCleaner/HistoryManager.swift:9-12 | A new manager's totals are the stored ones. |
| History.AddCleaned | Sources/USBCleaner/HistoryManager.swift:14-19 | The totals grow by exactly `files` and `bytes`. The call is defined only when neither overflows 64 bits. Afterwards the store holds the new totals and every other key is untouched. |
| History.AddNothing | Sources/USBCleaner/HistoryManager.swift:14-16 | `addCleaned(0, 0)` leaves both totals unchanged. |
| History.AddTwice | Sources/USBCleaner/HistoryManager.swift:14-16 | Two calls give the same totals as one call with the summed arguments, in either order. |
| History.ReloadAfterAdd | Sources/USBCleaner/HistoryManager.swift:10-19 | A manager created from the store a call left behind starts with that call's totals. |
| Scenarios.ScanFindsDotFiles | Tests/USBCleanerTests/FileScannerTests.swift:18-47 | In a folder with `normal.txt`, `.hidden` and `.DS_Store`, exactly `.hidden` and `.DS_Store` are found, in listing order, each with its size. |

## Left out

- Concurrency. The background queue and the main-queue hand-off are two separate
  steps. The walk is evaluated when the scan completes. A second `scan` started
  while one is still running races in the app; that race is not modelled.
- Enumeration order. `FileManager` leaves the order open. The model fixes pre-order,
  with each folder's entries in the order of its `children` sequence.
- A folder that cannot be listed is modelled as an empty `Dir`. The enumerator's
  error handler is nil, so such a folder contributes nothing.
- URLs are sequences of path components. There is no normalisation, symbolic-link
  resolution or trailing-slash handling. Names are compared as plain character
  sequences, without Swift's Unicode canonical equivalence.
- `removeItem` failures of every kind (permissions, file in use, file missing) are
  one set of refused paths, plus "the path no longer exists". Removing a folder
  cannot partly fail.
- `ScannedFile.id` (a `UUID`) exists only for SwiftUI list identity. `print`
  logging is also left out.
- `UserDefaults` is a map from key to 64-bit integer. Non-integer values and their
  coercion by `integer(forKey:)` are not modelled, nor is when the store is flushed
  to disk. The `shared` singleton and `@Published` change notifications are left
  out too.
- Nothing in the app calls `addCleaned`, so `History` stands alone. It is not
  connected to `cleanFiles`.
- The UI is left out: the SwiftUI views, the help text, the folder picker, and the
  "Selected ..." status it sets. The clear-selection button, which only empties the
  list and resets the status, is also left out. Package configuration and the test
  file's one-second wait are not modelled either.
