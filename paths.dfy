/** File names of the on-disk layout `<root>/<collection>/<resource>.json`,
    and the extension test that ReadAll applies to directory entries. */
module Paths {

  const JsonExt: string := ".json"
  const TempExt: string := ".tmp"

  predicate EndsWith(s: string, suffix: string) {
    |suffix| <= |s| && s[|s| - |suffix|..] == suffix
  }

  /** The path separator of a Unix host. */
  predicate IsSeparator(ch: char) {
    ch == '/'
  }

  /** The committed file of a resource: `<resource>.json`. */
  function FileName(resource: string): (name: string)
    ensures EndsWith(name, JsonExt) && |name| == |resource| + |JsonExt| && name[..|resource|] == resource
  {
    resource + JsonExt
  }

  /** The staging file a write goes through: `<resource>.json.tmp`. */
  function TempName(resource: string): (name: string)
    ensures EndsWith(name, TempExt) && |name| == |FileName(resource)| + |TempExt|
    ensures name[..|FileName(resource)|] == FileName(resource)
  {
    FileName(resource) + TempExt
  }

  /** The extension of a path, as Go's `filepath.Ext` computes it: the suffix
      starting at the last dot of the final path element, or empty when that
      element has no dot. */
  function Ext(path: string): (e: string)
    ensures EndsWith(path, e)
    ensures e != [] ==> e[0] == '.' && forall i :: 1 <= i < |e| ==> e[i] != '.' && !IsSeparator(e[i])
    ensures e == [] ==> forall i :: 0 <= i < |path| && path[i] == '.' ==>
                          exists j :: i < j < |path| && IsSeparator(path[j])
    decreases |path|
  {
    if path == [] then []
    else
      var last := path[|path| - 1];
      if IsSeparator(last) then []
      else if last == '.' then [last]
      else
        var prefix := path[..|path| - 1];
        var e := Ext(prefix);
        assert path == prefix + [last];
        if e == [] then
          assert forall i :: 0 <= i < |prefix| && path[i] == '.' ==>
                   exists j :: i < j < |prefix| && IsSeparator(prefix[j]);
          []
        else
          assert path[|path| - |e| - 1..] == prefix[|prefix| - |e|..] + [last];
          e + [last]
  }

  /** ReadAll's filter on directory entries: `filepath.Ext(name) == ".json"`,
      which holds exactly for the names ending in `.json`. */
  predicate HasJsonExt(name: string): (b: bool)
    ensures b <==> EndsWith(name, JsonExt)
  {
    JsonExtIffSuffix(name);
    Ext(name) == JsonExt
  }

  /** A dotted suffix without further dots or separators is the extension of
      whatever it is appended to. */
  lemma {:induction false} ExtOfDottedSuffix(p: string, s: string)
    requires s != [] && s[0] == '.'
    requires forall i :: 1 <= i < |s| ==> s[i] != '.' && !IsSeparator(s[i])
    ensures Ext(p + s) == s
    decreases |s|
  {
    if |s| > 1 {
      var init := s[..|s| - 1];
      ExtOfDottedSuffix(p, init);
      assert (p + s)[..|p + s| - 1] == p + init;
    }
  }

  /** The extension test is exactly "the name ends in .json", whatever the
      name holds. */
  lemma JsonExtIffSuffix(name: string)
    ensures Ext(name) == JsonExt <==> EndsWith(name, JsonExt)
  {
    if EndsWith(name, JsonExt) {
      var p := name[..|name| - |JsonExt|];
      assert name == p + JsonExt;
      ExtOfDottedSuffix(p, JsonExt);
    }
  }

  /** Every committed resource file passes ReadAll's filter. */
  lemma FileNameIsJson(resource: string)
    ensures HasJsonExt(FileName(resource))
  {
    ExtOfDottedSuffix(resource, JsonExt);
  }

  /** A staging file never passes ReadAll's filter: its extension is `.tmp`. */
  lemma TempNameIsNotJson(resource: string)
    ensures Ext(TempName(resource)) == TempExt
    ensures !HasJsonExt(TempName(resource))
  {
    ExtOfDottedSuffix(FileName(resource), TempExt);
  }

  /** Distinct resources have distinct committed files. */
  lemma FileNameInjective(r1: string, r2: string)
    ensures FileName(r1) == FileName(r2) <==> r1 == r2
  {
    if FileName(r1) == FileName(r2) {
      assert r1 == FileName(r1)[..|r1|];
      assert r2 == FileName(r2)[..|r2|];
    }
  }

  /** No staging file is mistaken for a committed file. */
  lemma TempNameIsNoFileName(r1: string, r2: string)
    ensures TempName(r1) != FileName(r2)
  {
    assert TempName(r1)[|TempName(r1)| - 1] == 'p';
    assert FileName(r2)[|FileName(r2)| - 1] == 'n';
  }
}
