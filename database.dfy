/** The document store's driver: a lock table and the file system under the
    database root. Each collection is the directory `<root>/<collection>`,
    each resource the file `<resource>.json` in it. */
module Database {
  import opened Errors
  import opened Paths
  import opened Os
  import opened Store

  /** A per-collection exclusion lock. Only its identity is modelled:
      locking and unlocking are left out of a sequential model. */
  class Mutex {
    constructor ()
    {
    }
  }

  /** No two collections share a lock. */
  ghost predicate DistinctLocks(locks: map<string, Mutex>) {
    forall a, b :: a in locks && b in locks && a != b ==> locks[a] != locks[b]
  }

  /** The lock table after a call that obtained the lock of `collection`:
      one entry more if it was new, and every existing entry kept. */
  ghost predicate Grown(before: map<string, Mutex>, after: map<string, Mutex>, collection: string) {
    && after.Keys == before.Keys + {collection}
    && forall k :: k in before ==> after[k] == before[k]
  }

  class Driver {
    const fs: FileSystem
    var mutexes: map<string, Mutex>

    ghost predicate Valid()
      reads this, fs
    {
      fs.Valid() && DistinctLocks(mutexes)
    }

    constructor (fs: FileSystem)
      ensures this.fs == fs && mutexes == map[]
    {
      this.fs := fs;
      mutexes := map[];
    }

    /** Opens a store on the root that `fs` stands for, creating the root
        directory if it is absent. As in the source, the driver is returned
        even when creating the directory failed. */
    static method New(fs: FileSystem, mkdirFails: bool) returns (d: Driver, st: Status)
      requires fs.Valid()
      modifies fs
      ensures fresh(d) && d.fs == fs && d.mutexes == map[] && d.Valid()
      ensures Step(fs.State(), st) == NewSpec(old(fs.State()), mkdirFails)
    {
      d := new Driver(fs);
      var present := fs.StatRoot();
      if present {
        return d, Done;
      }
      st := fs.MkdirAll("", mkdirFails);
    }

    /** The lock of `collection`, created on first use. */
    method GetOrCreateMutex(collection: string) returns (m: Mutex)
      requires Valid()
      modifies this
      ensures Valid()
      ensures mutexes == old(mutexes)[collection := m]
      ensures collection in old(mutexes) ==> m == old(mutexes)[collection]
      ensures collection !in old(mutexes) ==> fresh(m)
      ensures Grown(old(mutexes), mutexes, collection)
    {
      if collection in mutexes {
        m := mutexes[collection];
      } else {
        m := new Mutex();
        mutexes := mutexes[collection := m];
      }
    }

    /** Stores the encoding of `v` followed by a newline as
        `<collection>/<resource>.json`, going through `<resource>.json.tmp`. */
    method Write<V>(collection: string, resource: string, v: V, encode: V -> Option<string>, fault: WriteFault)
      returns (st: Status)
      requires Valid()
      modifies this, fs
      ensures Valid()
      ensures Step(fs.State(), st) == WriteSpec(old(fs.State()), collection, resource, encode(v), fault)
      ensures CheckNames(collection, resource).Some? ==> mutexes == old(mutexes)
      ensures CheckNames(collection, resource).None? ==> Grown(old(mutexes), mutexes, collection)
    {
      var bad := CheckNames(collection, resource);
      if bad.Some? {
        return Failed(bad.value);
      }
      var lock := GetOrCreateMutex(collection);
      var made := fs.MkdirAll(collection, fault == MkdirFails);
      if made.Failed? {
        return made;
      }
      var encoded := encode(v);
      if encoded.None? {
        return Failed(EncodeError);
      }
      var data := encoded.value + "\n";
      var staged := fs.WriteFile(collection, TempName(resource), data, fault == WriteTempFails);
      if staged.Failed? {
        return staged;
      }
      st := fs.Rename(collection, TempName(resource), FileName(resource), fault == RenameFails);
    }

    /** Reads `<collection>/<resource>.json` and decodes it. */
    method Read<V>(collection: string, resource: string, decode: string -> Option<V>, readFails: bool)
      returns (res: Result<V>)
      requires Valid()
      modifies this
      ensures Valid() && fs.State() == old(fs.State())
      ensures res == ReadSpec(fs.State(), collection, resource, decode, readFails)
      ensures CheckNames(collection, resource).Some? ==> mutexes == old(mutexes)
      ensures CheckNames(collection, resource).None? ==> Grown(old(mutexes), mutexes, collection)
    {
      var bad := CheckNames(collection, resource);
      if bad.Some? {
        return Err(bad.value);
      }
      var lock := GetOrCreateMutex(collection);
      var found := fs.Stat(collection, FileName(resource));
      if !found {
        return Err(NotFound);
      }
      var data := fs.ReadFile(collection, FileName(resource), readFails);
      if data.Err? {
        return Err(data.error);
      }
      res := Decoded(decode, data.value);
    }

    /** Removes `<collection>/<resource>.json`. */
    method Delete(collection: string, resource: string, removeFails: bool) returns (st: Status)
      requires Valid()
      modifies this, fs
      ensures Valid()
      ensures Step(fs.State(), st) == DeleteSpec(old(fs.State()), collection, resource, removeFails)
      ensures CheckNames(collection, resource).Some? ==> mutexes == old(mutexes)
      ensures CheckNames(collection, resource).None? ==> Grown(old(mutexes), mutexes, collection)
    {
      var bad := CheckNames(collection, resource);
      if bad.Some? {
        return Failed(bad.value);
      }
      var lock := GetOrCreateMutex(collection);
      var found := fs.Stat(collection, FileName(resource));
      if !found {
        return Failed(NotFound);
      }
      st := fs.Remove(collection, FileName(resource), removeFails);
    }

    /** Reads every `.json` entry of `<collection>`, keyed by its file name.
        Listing fails when `listFails` holds; reading the entries in
        `unreadable` fails. */
    method ReadAll(collection: string, listFails: bool, unreadable: set<string>) returns (res: Result<map<string, string>>)
      ensures res == ReadAllSpec(fs.State(), collection, listFails, unreadable)
    {
      var listing := fs.ReadDir(collection, listFails);
      if listing.Err? {
        return Err(listing.error);
      }
      ghost var entries := fs.State().Listing(collection).value;
      var names := listing.value;
      var records := map[];
      while names != {}
        invariant names <= entries.Keys
        invariant forall n :: n in entries && n !in names && HasJsonExt(n) ==> Readable(entries, n, unreadable)
        invariant forall n :: n in records <==> n in entries && n !in names && HasJsonExt(n)
        invariant forall n :: n in records ==> entries[n].File? && records[n] == entries[n].data
        decreases names
      {
        var name :| name in names;
        if HasJsonExt(name) {
          var data := fs.ReadFile(collection, name, name in unreadable);
          if data.Err? {
            ReadAllStopsAt(fs.State(), collection, unreadable, name);
            return Err(data.error);
          }
          records := records[name := data.value];
        }
        names := names - {name};
      }
      ReadAllCollects(fs.State(), collection, unreadable, records);
      res := Ok(records);
    }
  }

}
