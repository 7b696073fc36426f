/** What each operation of the document store does to the disk and what it
    returns, as functions of the disk before the call. The driver's methods
    are proved to follow these; the lemmas relate several calls. */
module Store {
  import opened Errors
  import opened Paths
  import opened Os

  /** Which of Write's file-system calls, if any, fails. */
  datatype WriteFault = NoFault | MkdirFails | WriteTempFails | RenameFails

  /** The disk after an operation, and what the operation returned. */
  datatype Step = Step(disk: Disk, status: Status)

  /** The argument checks of Write, Read and Delete, in their order. */
  function CheckNames(collection: string, resource: string): (e: Option<Error>)
    ensures e.None? <==> collection != "" && resource != ""
    ensures collection == "" ==> e == Some(EmptyCollection)
    ensures collection != "" && resource == "" ==> e == Some(EmptyResource)
  {
    if collection == "" then Some(EmptyCollection)
    else if resource == "" then Some(EmptyResource)
    else None
  }

  /** `after` holds the same files as `before`; at most the directories in
      `added` (and the root) are new. */
  ghost predicate SameFiles(before: Disk, after: Disk, added: set<string>) {
    && after.tree.Keys == before.tree.Keys + added
    && (before.rootExists ==> after.rootExists)
    && forall c, n :: after.FileAt(c, n) == before.FileAt(c, n)
  }

  /** `name` in `collection` holds `data` (or is gone if `data` is None) and
      every other file of every collection is as before. */
  ghost predicate OnlyFileChanged(before: Disk, after: Disk, collection: string, name: string, data: Option<string>) {
    && after.FileAt(collection, name) == data
    && forall c, n :: (c != collection || n != name) ==> after.FileAt(c, n) == before.FileAt(c, n)
  }

  /** The state a successful write leaves: the collection exists, the
      committed file holds exactly `data`, no staging file is left, and every
      other file of every collection is as before. */
  ghost predicate Committed(before: Disk, after: Disk, collection: string, resource: string, data: string) {
    && after.rootExists
    && after.tree.Keys == before.tree.Keys + {collection}
    && after.FileAt(collection, FileName(resource)) == Some(data)
    && after.FileAt(collection, TempName(resource)) == None
    && forall c, n :: (c != collection || (n != FileName(resource) && n != TempName(resource))) ==>
                        after.FileAt(c, n) == before.FileAt(c, n)
  }

  /** Write: check the names, make the collection directory, encode, write
      `<resource>.json.tmp`, rename it onto `<resource>.json`. `encoded` is
      what the JSON encoder made of the value. */
  function WriteSpec(s: Disk, collection: string, resource: string, encoded: Option<string>, fault: WriteFault): (res: Step)
    ensures CheckNames(collection, resource).Some? ==> res == Step(s, Failed(CheckNames(collection, resource).value))
    ensures CheckNames(collection, resource).None? && fault == MkdirFails ==> res == Step(s, Failed(IOError))
    // the directory is made before encoding, so a value that cannot be
    // encoded leaves a (possibly new, empty) collection directory behind
    ensures CheckNames(collection, resource).None? && fault != MkdirFails && encoded.None? ==>
              res.status == Failed(EncodeError) && SameFiles(s, res.disk, {collection}) && res.disk.rootExists
    ensures CheckNames(collection, resource).None? && encoded.Some? && fault == WriteTempFails ==>
              res.status == Failed(IOError) && SameFiles(s, res.disk, {collection}) && res.disk.rootExists
    // a failed rename leaves the staging file and the previous version
    ensures CheckNames(collection, resource).None? && encoded.Some? && fault == RenameFails ==>
              res.status == Failed(IOError) && res.disk.tree.Keys == s.tree.Keys + {collection} &&
              OnlyFileChanged(s, res.disk, collection, TempName(resource), Some(encoded.value + "\n")) &&
              res.disk.rootExists
    ensures res.status == Done <==> CheckNames(collection, resource).None? && encoded.Some? && fault == NoFault
    ensures res.status == Done ==> Committed(s, res.disk, collection, resource, encoded.value + "\n")
    ensures s.Valid() ==> res.disk.Valid()
  {
    match CheckNames(collection, resource)
    case Some(e) => Step(s, Failed(e))
    case None =>
      if fault == MkdirFails then Step(s, Failed(IOError))
      else
        var made := s.Mkdir(collection);
        match encoded
        case None => Step(made, Failed(EncodeError))
        case Some(json) =>
          var data := json + "\n";
          if fault == WriteTempFails then Step(made, Failed(IOError))
          else
            var staged := made.Put(collection, TempName(resource), data);
            if fault == RenameFails then Step(staged, Failed(IOError))
            else
              assert fault == NoFault;
              TempNameIsNoFileName(resource, resource);
              Step(staged.Move(collection, TempName(resource), FileName(resource)), Done)
  }

  /** What decoding the bytes of a file yields. */
  function Decoded<V>(decode: string -> Option<V>, text: string): (r: Result<V>)
    ensures r.Ok? <==> decode(text).Some?
    ensures r.Ok? ==> decode(text) == Some(r.value)
    ensures r.Err? ==> r.error == DecodeError
  {
    match decode(text)
    case None => Err(DecodeError)
    case Some(v) => Ok(v)
  }

  /** Read: check the names, report a missing file as not found, read the
      file and decode it. The disk does not change. */
  function ReadSpec<V>(s: Disk, collection: string, resource: string, decode: string -> Option<V>, readFails: bool): (res: Result<V>)
    ensures CheckNames(collection, resource).Some? ==> res == Err(CheckNames(collection, resource).value)
    ensures CheckNames(collection, resource).None? && s.FileAt(collection, FileName(resource)).None? ==> res == Err(NotFound)
    ensures CheckNames(collection, resource).None? && s.FileAt(collection, FileName(resource)).Some? ==>
              res == if readFails then Err(IOError) else Decoded(decode, s.FileAt(collection, FileName(resource)).value)
    ensures res.Ok? ==> s.FileAt(collection, FileName(resource)).Some? && !readFails &&
                        decode(s.FileAt(collection, FileName(resource)).value) == Some(res.value)
    ensures res == Err(DecodeError) ==> s.FileAt(collection, FileName(resource)).Some? &&
                                        decode(s.FileAt(collection, FileName(resource)).value).None?
  {
    match CheckNames(collection, resource)
    case Some(e) => Err(e)
    case None =>
      match s.FileAt(collection, FileName(resource))
      case None => Err(NotFound)
      case Some(data) => if readFails then Err(IOError) else Decoded(decode, data)
  }

  /** Delete: check the names, report a missing file as not found, remove
      the file. The collection directory stays. */
  function DeleteSpec(s: Disk, collection: string, resource: string, removeFails: bool): (res: Step)
    ensures CheckNames(collection, resource).Some? ==> res == Step(s, Failed(CheckNames(collection, resource).value))
    ensures CheckNames(collection, resource).None? && s.FileAt(collection, FileName(resource)).None? ==>
              res == Step(s, Failed(NotFound))
    ensures res.status == Done <==>
              CheckNames(collection, resource).None? && s.FileAt(collection, FileName(resource)).Some? && !removeFails
    ensures CheckNames(collection, resource).None? && s.FileAt(collection, FileName(resource)).Some? && removeFails ==>
              res == Step(s, Failed(IOError))
    ensures res.status.Failed? ==> res.disk == s
    ensures res.status == Done ==>
              res.disk.rootExists == s.rootExists && res.disk.tree.Keys == s.tree.Keys &&
              OnlyFileChanged(s, res.disk, collection, FileName(resource), None)
    ensures s.Valid() ==> res.disk.Valid()
  {
    match CheckNames(collection, resource)
    case Some(e) => Step(s, Failed(e))
    case None =>
      if s.FileAt(collection, FileName(resource)).None? then Step(s, Failed(NotFound))
      else if removeFails then Step(s, Failed(IOError))
      else Step(s.Unlink(collection, FileName(resource)), Done)
  }

  /** ReadAll: list `<root>/<collection>` and read every entry whose
      extension is `.json`, keyed by its file name. Listing fails when
      `listFails` holds or the directory is missing; reading an entry fails
      when it is a directory or when it is in `unreadable`. */
  function ReadAllSpec(s: Disk, collection: string, listFails: bool, unreadable: set<string>): (res: Result<map<string, string>>)
    ensures res.Err? ==> res.error == IOError
    ensures listFails ==> res == Err(IOError)
    ensures collection != "" ==>
              (res.Ok? <==> !listFails && collection in s.tree &&
                            forall n :: n in s.tree[collection] && HasJsonExt(n) ==> n !in unreadable)
    ensures collection != "" && res.Ok? ==>
              (forall n :: n in res.value <==> n in s.tree[collection] && HasJsonExt(n)) &&
              (forall n :: n in res.value ==> res.value[n] == s.tree[collection][n])
    // the root holds only directories, and reading one is an error
    ensures collection == "" ==>
              (res.Ok? <==> !listFails && s.rootExists && forall n :: n in s.tree ==> !HasJsonExt(n))
    ensures collection == "" && res.Ok? ==> res.value == map[]
  {
    if listFails then Err(IOError)
    else
      match s.Listing(collection)
      case None => Err(IOError)
      case Some(entries) =>
        if exists n :: n in entries && HasJsonExt(n) && !Readable(entries, n, unreadable)
        then Err(IOError)
        else Ok(map n | n in entries && HasJsonExt(n) :: entries[n].data)
  }

  /** A `.json` entry that cannot be read makes the whole listing fail. */
  lemma ReadAllStopsAt(s: Disk, collection: string, unreadable: set<string>, name: string)
    requires s.Listing(collection).Some?
    requires name in s.Listing(collection).value && HasJsonExt(name)
    requires !Readable(s.Listing(collection).value, name, unreadable)
    ensures ReadAllSpec(s, collection, false, unreadable) == Err(IOError)
  {
  }

  /** Records holding exactly the readable `.json` entries, with their
      contents, are what ReadAll returns. */
  lemma ReadAllCollects(s: Disk, collection: string, unreadable: set<string>, records: map<string, string>)
    requires s.Listing(collection).Some?
    requires var entries := s.Listing(collection).value;
             forall n :: n in entries && HasJsonExt(n) ==> Readable(entries, n, unreadable)
    requires var entries := s.Listing(collection).value;
             forall n :: n in records <==> n in entries && HasJsonExt(n)
    requires var entries := s.Listing(collection).value;
             forall n :: n in records ==> entries[n].File? && records[n] == entries[n].data
    ensures ReadAllSpec(s, collection, false, unreadable) == Ok(records)
  {
    var entries := s.Listing(collection).value;
    assert records == map n | n in entries && HasJsonExt(n) :: entries[n].data;
  }

  /** Entry `name` is a regular file that can be read. */
  predicate Readable(entries: map<string, Entry>, name: string, unreadable: set<string>) {
    name in entries && entries[name].File? && name !in unreadable
  }

  /** New: an existing root is left alone; a missing one is created. */
  function NewSpec(s: Disk, mkdirFails: bool): (res: Step)
    ensures s.rootExists ==> res == Step(s, Done)
    ensures !s.rootExists && mkdirFails ==> res == Step(s, Failed(IOError))
    ensures !s.rootExists && !mkdirFails ==> res.status == Done && res.disk == Disk(true, s.tree)
    ensures res.disk.rootExists <==> res.status == Done
    ensures s.Valid() ==> res.disk.Valid()
  {
    if s.rootExists then Step(s, Done)
    else if mkdirFails then Step(s, Failed(IOError))
    else Step(s.Mkdir(""), Done)
  }

  // ---- properties relating several calls --------------------------------

  /** A successful write is read back: Read decodes exactly the encoded value
      followed by the newline, so a decoder that inverts the encoder yields
      the value that was written. */
  lemma WriteThenRead<V>(s: Disk, collection: string, resource: string, json: string, decode: string -> Option<V>, v: V)
    requires WriteSpec(s, collection, resource, Some(json), NoFault).status == Done
    ensures ReadSpec(WriteSpec(s, collection, resource, Some(json), NoFault).disk, collection, resource, decode, false)
            == Decoded(decode, json + "\n")
    ensures decode(json + "\n") == Some(v) ==>
              ReadSpec(WriteSpec(s, collection, resource, Some(json), NoFault).disk, collection, resource, decode, false) == Ok(v)
  {
  }

  /** A write changes what no other resource reads as. */
  lemma WriteIsolated<V>(s: Disk, collection: string, resource: string, json: string,
                         c: string, r: string, decode: string -> Option<V>, readFails: bool)
    requires WriteSpec(s, collection, resource, Some(json), NoFault).status == Done
    requires c != collection || r != resource
    ensures ReadSpec(WriteSpec(s, collection, resource, Some(json), NoFault).disk, c, r, decode, readFails)
            == ReadSpec(s, c, r, decode, readFails)
  {
    var after := WriteSpec(s, collection, resource, Some(json), NoFault).disk;
    FileNameInjective(r, resource);
    TempNameIsNoFileName(resource, r);
    assert after.FileAt(c, FileName(r)) == s.FileAt(c, FileName(r));
  }

  /** The second of two writes to one resource fully replaces the first:
      the disk is as if only the second had happened. */
  lemma WriteOverwrites(s: Disk, collection: string, resource: string, first: string, second: string)
    requires WriteSpec(s, collection, resource, Some(first), NoFault).status == Done
    ensures WriteSpec(WriteSpec(s, collection, resource, Some(first), NoFault).disk, collection, resource, Some(second), NoFault)
            == WriteSpec(s, collection, resource, Some(second), NoFault)
  {
    var tmp, fin := TempName(resource), FileName(resource);
    var made := s.Mkdir(collection);
    var dir := made.tree[collection];
    var firstDir := (dir - {tmp})[fin := first + "\n"];
    var mid := Disk(true, made.tree[collection := firstDir]);
    WriteCommitsTree(s, collection, resource, first);
    WriteCommitsTree(s, collection, resource, second);
    WriteCommitsTree(mid, collection, resource, second);
    assert mid.Mkdir(collection) == mid;
    assert (firstDir - {tmp})[fin := second + "\n"] == (dir - {tmp})[fin := second + "\n"];
    UpdateTwice(made.tree, collection, firstDir, (dir - {tmp})[fin := second + "\n"]);
  }

  /** The tree a successful write leaves, spelled out. */
  lemma WriteCommitsTree(s: Disk, collection: string, resource: string, json: string)
    requires CheckNames(collection, resource).None?
    ensures var made := s.Mkdir(collection);
            var dir := made.tree[collection];
            WriteSpec(s, collection, resource, Some(json), NoFault)
            == Step(Disk(true, made.tree[collection := (dir - {TempName(resource)})[FileName(resource) := json + "\n"]]), Done)
  {
    TempNameIsNoFileName(resource, resource);
    var made := s.Mkdir(collection);
    StageThenRename(made.tree[collection], TempName(resource), FileName(resource), json + "\n");
  }

  /** Overriding one key twice keeps only the second value. */
  lemma UpdateTwice<K, U>(m: map<K, U>, k: K, a: U, b: U)
    ensures m[k := a][k := b] == m[k := b]
  {
  }

  /** Writing a staging file and renaming it onto the target equals setting
      the target and dropping any staging entry. */
  lemma StageThenRename(dir: Dir, tmp: string, fin: string, data: string)
    requires tmp != fin
    ensures (dir[tmp := data] - {tmp})[fin := data] == (dir - {tmp})[fin := data]
  {
  }

  /** After a successful delete the resource reads as not found, and a second
      delete reports not found. */
  lemma DeleteThenRead<V>(s: Disk, collection: string, resource: string, decode: string -> Option<V>, readFails: bool, removeFails: bool)
    requires DeleteSpec(s, collection, resource, false).status == Done
    ensures ReadSpec(DeleteSpec(s, collection, resource, false).disk, collection, resource, decode, readFails) == Err(NotFound)
    ensures DeleteSpec(DeleteSpec(s, collection, resource, false).disk, collection, resource, removeFails).status == Failed(NotFound)
  {
  }

  /** ReadAll returns, for an existing collection, exactly the files whose
      name ends in `.json`, keyed with the extension kept. */
  lemma ReadAllKeepsJsonFiles(s: Disk, collection: string, listFails: bool, unreadable: set<string>)
    requires collection != "" && ReadAllSpec(s, collection, listFails, unreadable).Ok?
    ensures forall n :: n in ReadAllSpec(s, collection, listFails, unreadable).value <==>
                        n in s.tree[collection] && EndsWith(n, JsonExt)
  {
    forall n {
      JsonExtIffSuffix(n);
    }
  }

  /** A staging file left by an interrupted write is never returned. */
  lemma ReadAllSkipsStaging(s: Disk, collection: string, listFails: bool, unreadable: set<string>, resource: string)
    requires ReadAllSpec(s, collection, listFails, unreadable).Ok?
    ensures TempName(resource) !in ReadAllSpec(s, collection, listFails, unreadable).value
  {
    TempNameIsNotJson(resource);
  }

  /** After a successful write, ReadAll of the collection holds the new
      file under `<resource>.json` with the written contents, and no staging
      file for it. */
  lemma ReadAllAfterWrite(s: Disk, collection: string, resource: string, json: string)
    requires WriteSpec(s, collection, resource, Some(json), NoFault).status == Done
    ensures ReadAllSpec(WriteSpec(s, collection, resource, Some(json), NoFault).disk, collection, false, {}).Ok?
    ensures var all := ReadAllSpec(WriteSpec(s, collection, resource, Some(json), NoFault).disk, collection, false, {}).value;
            FileName(resource) in all && all[FileName(resource)] == json + "\n" && TempName(resource) !in all
  {
    FileNameIsJson(resource);
    TempNameIsNotJson(resource);
  }

  /** The end-to-end run on an empty root: open the store, write
      `users/john`, list `users`, read the resource, delete it, read it
      again. Each step's disk is spelled out. */
  lemma ScenarioWrite(json: string)
    ensures NewSpec(Disk(false, map[]), false) == Step(Disk(true, map[]), Done)
    ensures WriteSpec(Disk(true, map[]), "users", "john", Some(json), NoFault)
            == Step(Disk(true, map["users" := map["john.json" := json + "\n"]]), Done)
  {
    assert FileName("john") == "john.json";
    WriteCommitsTree(Disk(true, map[]), "users", "john", json);
    assert (map[] - {TempName("john")})[FileName("john") := json + "\n"] == map["john.json" := json + "\n"];
  }

  lemma ScenarioList(data: string)
    ensures ReadAllSpec(Disk(true, map["users" := map["john.json" := data]]), "users", false, {}) == Ok(map["john.json" := data])
  {
    var stored := Disk(true, map["users" := map["john.json" := data]]);
    assert FileName("john") == "john.json";
    FileNameIsJson("john");
    var entries := stored.Listing("users").value;
    assert entries.Keys == {"john.json"} && entries["john.json"] == File(data);
    assert Readable(entries, "john.json", {});
    assert ReadAllSpec(stored, "users", false, {}).Ok?;
    var listed := ReadAllSpec(stored, "users", false, {}).value;
    assert listed.Keys == {"john.json"} && listed["john.json"] == data;
    assert listed == map["john.json" := data];
  }

  lemma ScenarioReadDelete<V>(data: string, decode: string -> Option<V>)
    ensures ReadSpec(Disk(true, map["users" := map["john.json" := data]]), "users", "john", decode, false)
            == Decoded(decode, data)
    ensures DeleteSpec(Disk(true, map["users" := map["john.json" := data]]), "users", "john", false)
            == Step(Disk(true, map["users" := map[]]), Done)
    ensures ReadSpec(Disk(true, map["users" := map[]]), "users", "john", decode, false) == Err(NotFound)
  {
    assert FileName("john") == "john.json";
    assert map["john.json" := data] - {FileName("john")} == map[];
  }
}
