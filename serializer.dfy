/** HotKeySerializer over an abstract file system: a map from a path to the
    list last written there. The JSON text in between is not modelled. */
module HotKeySerializer {
  import opened HotKeys

  /** The files on disk, each path holding the list serialised into it. */
  type Files = map<string, seq<HotKey>>

  /** What Deserialize reads back from `files`: the stored list, or the empty
      list when File.Exists(path) is false. */
  function Load(files: Files, path: string): seq<HotKey>
  {
    if path in files then files[path] else []
  }

  /** The file system after Serialize overwrote `path` with `hotKeys`. */
  function Save(files: Files, path: string, hotKeys: seq<HotKey>): (r: Files)
    ensures path in r && r[path] == hotKeys
    ensures r.Keys == files.Keys + {path}
    ensures forall p :: p in files && p != path ==> r[p] == files[p]
  {
    files[path := hotKeys]
  }

  /** A missing path loads as the empty list. */
  lemma LoadMissing(files: Files, path: string)
    requires path !in files
    ensures Load(files, path) == []
  {
  }

  /** Saving a list and loading it from the same path gives the same list,
      entries, order and all. */
  lemma SaveThenLoad(files: Files, path: string, hotKeys: seq<HotKey>)
    ensures Load(Save(files, path, hotKeys), path) == hotKeys
  {
  }

  /** Saving to one path leaves what every other path loads unchanged. */
  lemma SaveLeavesOtherPaths(files: Files, path: string, other: string, hotKeys: seq<HotKey>)
    requires other != path
    ensures Load(Save(files, path, hotKeys), other) == Load(files, other)
  {
  }

  /** Loading an existing file and saving the list back changes nothing. */
  lemma LoadThenSave(files: Files, path: string)
    requires path in files
    ensures Save(files, path, Load(files, path)) == files
  {
  }

  /** The file system as the program sees it. */
  class FileSystem {
    var files: Files

    constructor (files: Files)
      ensures this.files == files
    {
      this.files := files;
    }
  }

  /** HotKeySerializer.Serialize: writes the whole list to `path`, replacing
      any earlier content and leaving every other file as it was. */
  method Serialize(disk: FileSystem, hotKeys: seq<HotKey>, path: string)
    modifies disk
    ensures disk.files == Save(old(disk.files), path, hotKeys)
  {
    disk.files := Save(disk.files, path, hotKeys);
  }

  /** HotKeySerializer.Deserialize: the list stored at `path`, or [] when
      there is no such file. */
  method Deserialize(disk: FileSystem, path: string) returns (hotKeys: seq<HotKey>)
    ensures path in disk.files ==> hotKeys == disk.files[path]
    ensures path !in disk.files ==> hotKeys == []
    ensures hotKeys == Load(disk.files, path)
  {
    if path in disk.files {
      hotKeys := disk.files[path];
    } else {
      hotKeys := [];
    }
  }
}
