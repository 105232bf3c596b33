/**
  The file storage the entry store writes to, reduced to what the store uses
  of it: a map from path to file content, and the order in which listing the
  `entries/` directory reports the files directly inside it. Paths are plain
  strings; a path whose part after `entries/` holds a `/` names a file in a
  subdirectory, which the listing of `entries/` does not show.
 */
module Storage {
  import opened Sequences

  datatype Option<T> = None | Some(value: T)

  /** The directory every entry lives in, as a path prefix. */
  const Dir: string := "entries/"

  /** A name with no directory part. */
  predicate Plain(name: string) {
    '/' !in name
  }

  /** `path` names a file directly inside `Dir`. */
  predicate InDir(path: string) {
    |Dir| < |path| && path[..|Dir|] == Dir && Plain(path[|Dir|..])
  }

  /** The name under which `Dir` lists the file at `path`. */
  function NameIn(path: string): (name: string)
    requires InDir(path)
    ensures Dir + name == path
  {
    assert path == path[..|Dir|] + path[|Dir|..];
    path[|Dir|..]
  }

  /** Joining `Dir` and a name gives a path directly in `Dir` exactly when the
      name is non-empty and has no directory part, and the listing shows that name. */
  lemma JoinDir(name: string)
    ensures InDir(Dir + name) <==> name != [] && Plain(name)
    ensures InDir(Dir + name) ==> NameIn(Dir + name) == name
  {
  }

  class FileStorage {
    /** Content of every file the storage holds, by path. */
    var files: map<string, string>
    /** Names of the files directly in `Dir`, in the order a listing reports them. */
    var listing: seq<string>

    /** The listing shows each file directly in `Dir` once, and nothing else. */
    ghost predicate Valid()
      reads this
    {
      && NoDup(listing)
      && (forall name :: name in listing ==> name != [] && Plain(name) && Dir + name in files)
      && (forall path :: path in files && InDir(path) ==> path[|Dir|..] in listing)
    }

    constructor ()
      ensures Valid()
      ensures files == map[] && listing == []
    {
      files := map[];
      listing := [];
    }

    /** `exists(path)`: true exactly when opening `path` would find a file. */
    function Exists(path: string): (b: bool)
      reads this
      ensures b <==> Open(path).Some?
    {
      path in files
    }

    /** `open(path).read()`: the file's text, or `None` for `FileNotFoundError`. */
    function Open(path: string): (r: Option<string>)
      reads this
      ensures r.None? <==> path !in files
      ensures r.Some? ==> r.value == files[path]
    {
      if path in files then Some(files[path]) else None
    }

    /** The files part of `listdir("entries")`: in a valid storage, each file
        directly in `Dir` appears once, and nothing else does. */
    function ListDir(): (names: seq<string>)
      reads this
      ensures Valid() ==> NoDup(names)
      ensures Valid() ==> forall name :: name in names ==> Plain(name) && Dir + name in files
      ensures Valid() ==> forall path :: path in files && InDir(path) ==> NameIn(path) in names
    {
      listing
    }

    /** `delete(path)`: removes the file if there is one, and its name from the listing. */
    method Delete(path: string)
      requires Valid()
      modifies this
      ensures Valid()
      ensures files == old(files) - {path}
      ensures listing == if InDir(path) then Without(old(listing), NameIn(path)) else old(listing)
    {
      ghost var before := listing;
      files := files - {path};
      if InDir(path) {
        listing := Without(listing, NameIn(path));
      }
      forall name | name in listing
        ensures Dir + name in files
      {
        assert name in before;
        JoinDir(name);
      }
      forall p | p in files && InDir(p)
        ensures p[|Dir|..] in listing
      {
        assert NameIn(p) in before;
        if InDir(path) {
          assert NameIn(p) != NameIn(path);
        }
      }
    }

    /** `save(path, content)`. Django would pick a fresh name if `path` were
        taken; every caller in the store makes sure it is not. */
    method Save(path: string, content: string)
      requires Valid()
      requires path !in files
      modifies this
      ensures Valid()
      ensures files == old(files)[path := content]
      ensures listing == if InDir(path) then old(listing) + [NameIn(path)] else old(listing)
    {
      ghost var before := listing;
      files := files[path := content];
      if InDir(path) {
        assert NameIn(path) !in before;
        listing := listing + [NameIn(path)];
      }
      forall p | p in files && InDir(p)
        ensures p[|Dir|..] in listing
      {
        if p != path {
          assert p[|Dir|..] in before;
        }
      }
    }
  }
}
