/** The part of the operating system the driver uses: the directory tree
    under the database root, and the calls made on it. */
module Os {
  import opened Errors

  /** One collection directory: file name to file contents. */
  type Dir = map<string, string>

  /** All collection directories under the root, by name. */
  type Tree = map<string, Dir>

  /** A directory entry as `os.ReadDir` reports it. */
  datatype Entry = File(data: string) | Directory

  /** The state of the root: whether the root directory exists, and the
      collection directories with their files. */
  datatype Disk = Disk(rootExists: bool, tree: Tree) {

    /** A collection directory lives inside an existing root, and no
        collection has the empty name (it would be the root itself). */
    predicate Valid() {
      (tree != map[] ==> rootExists) && "" !in tree
    }

    function FileAt(collection: string, name: string): Option<string> {
      if collection in tree && name in tree[collection] then Some(tree[collection][name]) else None
    }

    /** The entries of `<root>/<collection>`: for the empty collection name the
        root itself, whose entries are the collection directories. */
    function Listing(collection: string): (es: Option<map<string, Entry>>)
      ensures collection != "" ==>
        (es.Some? <==> collection in tree) &&
        (es.Some? ==> es.value.Keys == tree[collection].Keys &&
                      forall n :: n in es.value ==> es.value[n] == File(tree[collection][n]))
      ensures collection == "" ==>
        (es.Some? <==> rootExists) &&
        (es.Some? ==> es.value.Keys == tree.Keys && forall n :: n in es.value ==> es.value[n] == Directory)
    {
      if collection == "" then
        if rootExists then Some(map n | n in tree :: Directory) else None
      else if collection in tree then
        Some(map n | n in tree[collection] :: File(tree[collection][n]))
      else None
    }

    /** `os.MkdirAll(<root>/<collection>)`: the root and the collection
        directory exist afterwards; no file changes. */
    function Mkdir(collection: string): (d: Disk)
      ensures d.rootExists
      ensures d.tree.Keys == tree.Keys + (if collection == "" then {} else {collection})
      ensures forall c, n :: d.FileAt(c, n) == FileAt(c, n)
      ensures Valid() ==> d.Valid()
    {
      if collection == "" || collection in tree then Disk(true, tree)
      else Disk(true, tree[collection := map[]])
    }

    /** `os.WriteFile(<root>/<collection>/<name>)` into an existing directory:
        creates or truncates that one file. */
    function Put(collection: string, name: string, data: string): (d: Disk)
      requires collection in tree
      ensures d.FileAt(collection, name) == Some(data)
      ensures forall c, n :: (c != collection || n != name) ==> d.FileAt(c, n) == FileAt(c, n)
      ensures d.rootExists == rootExists && d.tree.Keys == tree.Keys
      ensures Valid() ==> d.Valid()
    {
      Disk(rootExists, tree[collection := tree[collection][name := data]])
    }

    /** `os.Rename` within one directory: the source entry's contents move to
        the target name, replacing what was there. */
    function Move(collection: string, from: string, to: string): (d: Disk)
      requires collection in tree && from in tree[collection]
      ensures d.FileAt(collection, to) == FileAt(collection, from)
      ensures from != to ==> d.FileAt(collection, from) == None
      ensures forall c, n :: (c != collection || (n != from && n != to)) ==> d.FileAt(c, n) == FileAt(c, n)
      ensures d.rootExists == rootExists && d.tree.Keys == tree.Keys
      ensures Valid() ==> d.Valid()
    {
      var dir := tree[collection];
      Disk(rootExists, tree[collection := (dir - {from})[to := dir[from]]])
    }

    /** `os.Remove` of a file: that one entry disappears, the directory stays. */
    function Unlink(collection: string, name: string): (d: Disk)
      requires collection in tree && name in tree[collection]
      ensures d.FileAt(collection, name) == None
      ensures forall c, n :: (c != collection || n != name) ==> d.FileAt(c, n) == FileAt(c, n)
      ensures d.rootExists == rootExists && d.tree.Keys == tree.Keys
      ensures Valid() ==> d.Valid()
    {
      Disk(rootExists, tree[collection := tree[collection] - {name}])
    }
  }

  /** The file system, changed in place by the calls the driver makes. Each
      call that can fail for reasons outside the model (permissions, a full
      disk) takes a `fail` flag saying whether it does. */
  class FileSystem {
    var rootExists: bool
    var tree: Tree

    function State(): Disk
      reads this
    {
      Disk(rootExists, tree)
    }

    ghost predicate Valid()
      reads this
    {
      State().Valid()
    }

    constructor (initial: Disk)
      ensures State() == initial
    {
      rootExists := initial.rootExists;
      tree := initial.tree;
    }

    /** `os.Stat` of the root directory succeeds. */
    method StatRoot() returns (found: bool)
      ensures found == rootExists
    {
      found := rootExists;
    }

    /** `os.Stat` of `<root>/<collection>/<name>` does not report "not exist". */
    method Stat(collection: string, name: string) returns (found: bool)
      ensures found <==> State().FileAt(collection, name).Some?
    {
      found := collection in tree && name in tree[collection];
    }

    method MkdirAll(collection: string, fail: bool) returns (st: Status)
      modifies this
      ensures st == if fail then Failed(IOError) else Done
      ensures State() == if fail then old(State()) else old(State()).Mkdir(collection)
    {
      if fail {
        return Failed(IOError);
      }
      rootExists := true;
      if collection != "" && collection !in tree {
        tree := tree[collection := map[]];
      }
      st := Done;
    }

    /** Fails, changing nothing, when the directory is missing. */
    method WriteFile(collection: string, name: string, data: string, fail: bool) returns (st: Status)
      modifies this
      ensures st == if fail || collection !in old(tree) then Failed(IOError) else Done
      ensures State() == if st.Failed? then old(State()) else old(State()).Put(collection, name, data)
    {
      if fail || collection !in tree {
        return Failed(IOError);
      }
      tree := tree[collection := tree[collection][name := data]];
      st := Done;
    }

    /** Fails, changing nothing, when the source entry is missing. */
    method Rename(collection: string, from: string, to: string, fail: bool) returns (st: Status)
      modifies this
      ensures st == if fail || old(State()).FileAt(collection, from).None? then Failed(IOError) else Done
      ensures State() == if st.Failed? then old(State()) else old(State()).Move(collection, from, to)
    {
      if fail || collection !in tree || from !in tree[collection] {
        return Failed(IOError);
      }
      var dir := tree[collection];
      tree := tree[collection := (dir - {from})[to := dir[from]]];
      st := Done;
    }

    /** Fails, changing nothing, when the entry is missing. */
    method Remove(collection: string, name: string, fail: bool) returns (st: Status)
      modifies this
      ensures st == if fail || old(State()).FileAt(collection, name).None? then Failed(IOError) else Done
      ensures State() == if st.Failed? then old(State()) else old(State()).Unlink(collection, name)
    {
      if fail || collection !in tree || name !in tree[collection] {
        return Failed(IOError);
      }
      tree := tree[collection := tree[collection] - {name}];
      st := Done;
    }

    /** `os.ReadDir`: the entry names, or an error when the directory is
        missing or cannot be listed. */
    method ReadDir(collection: string, fail: bool) returns (r: Result<set<string>>)
      ensures fail || State().Listing(collection).None? ==> r == Err(IOError)
      ensures !fail && State().Listing(collection).Some? ==> r == Ok(State().Listing(collection).value.Keys)
    {
      if fail {
        return Err(IOError);
      }
      if collection == "" {
        r := if rootExists then Ok(tree.Keys) else Err(IOError);
      } else {
        r := if collection in tree then Ok(tree[collection].Keys) else Err(IOError);
      }
    }

    /** `os.ReadFile`: the contents of a regular file; reading a missing entry
        or a directory fails. */
    method ReadFile(collection: string, name: string, fail: bool) returns (r: Result<string>)
      ensures r == ReadOutcome(State().Listing(collection), name, fail)
    {
      r := ReadOutcome(State().Listing(collection), name, fail);
    }
  }

  /** What reading entry `name` of a listing yields. */
  function ReadOutcome(listing: Option<map<string, Entry>>, name: string, fail: bool): (r: Result<string>)
    ensures r.Ok? <==> !fail && listing.Some? && name in listing.value && listing.value[name].File?
    ensures r.Ok? ==> r.value == listing.value[name].data
    ensures r.Err? ==> r.error == IOError
  {
    if !fail && listing.Some? && name in listing.value && listing.value[name].File?
    then Ok(listing.value[name].data) else Err(IOError)
  }
}
