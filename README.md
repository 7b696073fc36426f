# golang-database document store, modelled in Dafny

The model covers the `Driver` of `golang-database/main.go`, a small document
store. It keeps each JSON document as a file `<root>/<collection>/<resource>.json`.
`Write` stages the encoded value in `<resource>.json.tmp` and renames it onto
the final name. `Read` and `Delete` check that the file exists first. `ReadAll`
lists a collection directory and keeps the entries whose extension is `.json`.
After the name checks, `Write`, `Read` and `Delete` fetch the collection's lock from a table
filled lazily by `getOrCreateMutex`. `ReadAll` takes the driver's single guard lock instead.

Modules:

- `Errors` (errors.dfy): the error kinds and the `Result`, `Option` and `Status` wrappers.
- `Paths` (paths.dfy): the two file names of a resource, and Go's `filepath.Ext`
  modelled exactly, with `filepath.Ext(n) == ".json"` proved to mean "n ends in `.json`".
- `Os` (os.dfy): the disk under the root as a value (`Disk`), plus a class
  `FileSystem` whose methods are the `os` calls the driver makes.
- `Store` (store.dfy): functions giving each driver operation's returned value
  and new disk, and lemmas relating several calls.
- `Database` (database.dfy): the `Driver` class with its lock table, whose
  methods are proved to follow `Store`.

The model has no real I/O.
- OS failures the model cannot predict (permissions, a full disk) are inputs.
  `Write` takes a `WriteFault` naming the call that fails. `Read` and `Delete`
  take a flag. `ReadAll` takes a flag for the listing and the set of entries
  whose read fails. `New` takes
  a flag for `MkdirAll`.
- The JSON encoder and decoder are function parameters:
  `encode: V -> Option<string>` and `decode: string -> Option<V>`.

## Model

| member | source | states |
|---|---|---|
| Paths.Ext | golang-database/main.go:107 | the result is a suffix of the path; if non-empty it starts at a dot and holds no other dot or separator; it is empty only if every dot of the path has a separator after it |
| Paths.FileName | golang-database/main.go:76 | the committed file name is the resource name followed by `.json` |
| Paths.TempName | golang-database/main.go:77 | the staging file name is the committed file name followed by `.tmp` |
| Paths.HasJsonExt | golang-database/main.go:107 | ReadAll's filter `filepath.Ext(name) == ".json"` holds exactly for the names ending in `.json` |
| Paths.ExtOfDottedSuffix | golang-database/main.go:107 | appending a dotted suffix without other dots or separators makes that suffix the extension, whatever precedes it |
| Paths.JsonExtIffSuffix | golang-database/main.go:107 | `Ext(name) == ".json"` holds exactly when the name ends in `.json`, for every name |
| Paths.FileNameIsJson | golang-database/main.go:76 | every committed file `<resource>.json` passes ReadAll's filter |
| Paths.TempNameIsNotJson | golang-database/main.go:77 | the staging file `<resource>.json.tmp` has extension `.tmp`, so ReadAll's filter rejects it |
| Paths.FileNameInjective | golang-database/main.go:76 | two resources share a committed file name exactly when they are the same resource |
| Paths.TempNameIsNoFileName | golang-database/main.go:76-77 | no staging file name is the committed file name of any resource |
| Os.Disk.Listing | golang-database/main.go:100 | a collection lists its files with their contents and is absent if its directory is missing; the empty collection name lists the root, whose entries are the collection directories |
| Os.Disk.Mkdir | golang-database/main.go:79 | the root and the collection directory exist afterwards; no file changes; validity is kept |
| Os.Disk.Put | golang-database/main.go:88 | the named file holds the data; every other file of every collection is unchanged |
| Os.Disk.Move | golang-database/main.go:92 | the target holds the source's contents, the source is gone, every other file is unchanged |
| Os.Disk.Unlink | golang-database/main.go:159 | the named file is gone, every other file is unchanged, no directory disappears |
| Os.FileSystem.StatRoot | golang-database/main.go:55 | reports whether the root directory exists |
| Os.FileSystem.Stat | golang-database/main.go:131 | reports whether the file exists in the collection |
| Os.FileSystem.MkdirAll | golang-database/main.go:79 | on success the disk becomes `Mkdir` of the old disk; on failure it is unchanged and the result is an I/O error |
| Os.FileSystem.WriteFile | golang-database/main.go:88 | on success the disk becomes `Put` of the old disk; a missing directory or a failure gives an I/O error and no change |
| Os.FileSystem.Rename | golang-database/main.go:92 | on success the disk becomes `Move` of the old disk; a missing source or a failure gives an I/O error and no change |
| Os.FileSystem.Remove | golang-database/main.go:159 | on success the disk becomes `Unlink` of the old disk; a missing file or a failure gives an I/O error and no change |
| Os.FileSystem.ReadDir | golang-database/main.go:100 | the entry names of the directory, or an I/O error if it is missing or the listing fails |
| Os.FileSystem.ReadFile | golang-database/main.go:135 | the contents of a regular file; a missing entry, a directory or a failure gives an I/O error |
| Os.ReadOutcome | golang-database/main.go:108 | what `os.ReadFile` of one listed entry yields: its contents exactly when it is a regular file and the read does not fail, otherwise an I/O error |
| Store.CheckNames | golang-database/main.go:65-70 | no error exactly when both names are non-empty; the collection is checked before the resource |
| Store.WriteSpec | golang-database/main.go:64-93 | empty names give their error and no change; a failed `MkdirAll` changes nothing; a failed encode or staging write leaves only the directory; a failed rename leaves the staging file and the previous version; success means the committed file holds exactly the encoding plus a newline, no staging file remains, every other file is unchanged, and disk validity is kept |
| Store.Decoded | golang-database/main.go:139 | the decoder's value, or a decode error when it has none |
| Store.ReadSpec | golang-database/main.go:118-140 | empty names give their error; a missing file gives not-found; an existing file gives an I/O error when the read fails and otherwise exactly what decoding its contents gives; success means the file exists, was readable and decodes to the returned value; a decode error means the file exists and does not decode |
| Store.DeleteSpec | golang-database/main.go:142-160 | empty names give their error and a missing file gives not-found, both with no change; a failed remove of an existing file gives an I/O error with no change; success means exactly that one file is gone; every failure leaves the disk unchanged |
| Store.ReadAllSpec | golang-database/main.go:95-116 | a failed listing, a missing directory, or any `.json` entry that is not a readable regular file (`Store.Readable`), gives an I/O error; otherwise the result holds exactly the `.json` entries keyed by file name with their contents; on the root it is empty, or an error when a collection's name has extension `.json` |
| Store.ReadAllStopsAt | golang-database/main.go:108-111 | one `.json` entry whose read fails makes ReadAll return an I/O error |
| Store.ReadAllCollects | golang-database/main.go:105-115 | records holding exactly the readable `.json` entries with their contents are ReadAll's result |
| Store.NewSpec | golang-database/main.go:50-61 | an existing root is left unchanged with no error; a missing root is created, or an I/O error is returned with no change |
| Store.WriteThenRead | golang-database/main.go:82-139 | after a successful write, Read decodes exactly the encoded value plus the newline, giving the written value when the decoder inverts the encoder |
| Store.WriteIsolated | golang-database/main.go:75-92 | a successful write does not change what any other resource of any collection reads as |
| Store.WriteCommitsTree | golang-database/main.go:79-92 | a write with valid names and no failure leaves the collection holding the committed file in place of any staging file |
| Store.WriteOverwrites | golang-database/main.go:88-92 | writing a resource twice leaves the same disk as writing only the second value |
| Store.DeleteThenRead | golang-database/main.go:130-159 | after a successful delete, Read of that resource and a second Delete both report not found |
| Store.ReadAllKeepsJsonFiles | golang-database/main.go:106-113 | ReadAll returns exactly the collection's files whose name ends in `.json` |
| Store.ReadAllSkipsStaging | golang-database/main.go:106-112 | no `.json.tmp` staging file is ever returned by ReadAll |
| Store.ReadAllAfterWrite | golang-database/main.go:75-113 | after a successful write, ReadAll of the collection succeeds and maps `<resource>.json` to the written contents, with no staging entry |
| Store.ScenarioWrite | golang-database/main.go:39-93 | opening an empty root creates it, and writing `users/john` leaves exactly `users/john.json` holding the encoding plus a newline |
| Store.ScenarioList | golang-database/main.go:95-116 | ReadAll of that collection returns exactly `john.json` with its contents |
| Store.ScenarioReadDelete | golang-database/main.go:118-160 | Read decodes the stored contents; Delete empties the collection; a later Read reports not found |
| Database.Driver.constructor | golang-database/main.go:50-54 | a driver starts with an empty lock table |
| Database.Driver.New | golang-database/main.go:39-62 | returns a fresh driver with an empty lock table over the given disk, which changes as `NewSpec` says; the driver is returned even when creating the root failed |
| Database.Driver.GetOrCreateMutex | golang-database/main.go:162-172 | an existing collection gets its recorded lock back and the table is unchanged; a new collection gets a fresh lock (a new `Database.Mutex` object, the `&sync.Mutex{}` of line 168) added as the one new entry; no two collections ever share a lock |
| Database.Driver.Write | golang-database/main.go:64-93 | the disk and result are those of `WriteSpec`; empty names leave the lock table unchanged, otherwise it has gained at most the collection's lock; locks stay distinct |
| Database.Driver.Read | golang-database/main.go:118-140 | the result is that of `ReadSpec`, the disk is unchanged, and the lock table changes as for Write |
| Database.Driver.Delete | golang-database/main.go:142-160 | the disk and result are those of `DeleteSpec`, and the lock table changes as for Write |
| Database.Driver.ReadAll | golang-database/main.go:95-116 | its loop over the directory entries returns exactly `ReadAllSpec`: the `.json` entries with their contents, or an I/O error; the lock table is untouched |

## Left out

- Operating-system calls are modelled by the `FileSystem` class over an abstract tree. A failure is an input flag saying which call fails. A failing call changes nothing: partial effects are not modelled, such as a truncated staging file from a failed `WriteFile` or some parents made by a failed `MkdirAll`.
- Os.FileSystem.Stat: reports only existence. Other `os.Stat` errors, such as permission denied, are not modelled apart from the read fault that follows them.
- Layout limits: the tree has one level of collection directories holding plain files. A resource or collection name with a `/` is kept as one flat name. In the real layout it would name a subdirectory. The separator of `filepath.Ext` is `/`, as on Unix.
- The root path and its `filepath.Clean`/`filepath.Join` normalisation are not modelled. The `FileSystem` object stands for the directory tree under the root.
- Store.ReadAllSpec: its root clause (the listing of the empty collection name is empty or an error) holds only in this layout. In the source, the collection names `.` and `..` go through `filepath.Join` to the root or its parent, so `Write(".", "x", v)` would put `x.json` in the root and `ReadAll("")` would return it; the model treats `.` and `..` as ordinary collection names.
- JSON encoding and decoding (`json.MarshalIndent` with tab indentation, `json.Unmarshal`) are function parameters: their formatting and the unmarshal-into-`&v` detail are not modelled. `Read` returns the decoded value instead of filling a caller's variable.
- Locks are identities only. Blocking and the ordering they impose are not modelled, and neither are the guard lock `d.mutex` around the table and the fact that `ReadAll` takes that guard lock and not the collection lock. A sequential model has no interleavings.
- The logger (`lumber`, `Options`, the `Logger` interface) is left out: it is output only.
- Also left out: the `main` demo with its `User`/`Address` types, the `Version` constant, and the two other programs of the repository (the URL shortener and the goroutine counter).

## Notes on the source

- Empty names give two different errors, the collection checked first (golang-database/main.go:65-70). The model has `EmptyCollection` and `EmptyResource`.
- `New` returns the driver together with `MkdirAll`'s error (golang-database/main.go:61). `Driver.New` does the same.
- `Read` decodes exactly the bytes written, the encoding plus a newline (golang-database/main.go:87, 139). `Store.WriteThenRead` states that, and gives equality when the decoder inverts the encoder.
- `ReadAll("")` lists the root, because joining the root with the empty name is the root. It fails on a collection directory whose name has extension `.json`, because reading a directory fails (golang-database/main.go:99-110). `Store.ReadAllSpec` models that path.
