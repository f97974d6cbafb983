/** `DataEntry`: a named binary resource (an image, a sound file) carried along
    with a glossary. Its bytes are kept in memory, or in a file whose path the
    entry remembers. The file system is a map from paths to file contents;
    directories are not modelled. */
module Resources {
  import opened Wrappers

  newtype uint8 = x: int | 0 <= x < 256

  type Bytes = seq<uint8>

  /** The files that exist, by path. */
  type FileSystem = map<string, Bytes>

  /** `data` is the in-memory content; a non-empty `tmpPath` (Python's truthiness
      of `_tmpPath`) means the content lives in that file instead. */
  datatype Resource = Resource(fname: string, data: Bytes, tmpPath: string) {
    predicate Spooled() {
      tmpPath != ""
    }
  }

  /** Reading, moving or creating under a path that does not exist. */
  datatype IoError = FileNotFound(path: string)

  /** What a successful `save` leaves behind. */
  datatype Saved = Saved(resource: Resource, fs: FileSystem, path: string)

  /** `DataEntry(fname, data, inTmp)`. With `inTmp` the bytes are written to the
      fresh temporary path `tmpPath` (chosen by `mktemp`, so it is a parameter)
      and the in-memory copy is dropped; without it they stay in memory. Either
      way the entry reads back exactly the bytes it was given, and no other
      file changes. */
  function NewResource(fname: string, data: Bytes, inTmp: bool, tmpPath: string, fs: FileSystem)
    : (r: (Resource, FileSystem))
    requires inTmp ==> tmpPath != ""
    ensures GetData(r.0, r.1) == Success(data)
    ensures r.0.fname == fname && (r.0.Spooled() <==> inTmp)
    ensures inTmp ==> r.0.data == []
    ensures forall p :: p != r.0.tmpPath ==> (p in r.1 <==> p in fs)
    ensures forall p :: p in fs && p != r.0.tmpPath ==> r.1[p] == fs[p]
  {
    if inTmp then (Resource(fname, [], tmpPath), fs[tmpPath := data])
    else (Resource(fname, data, ""), fs)
  }

  /** `getData`: the temporary file's content when there is one, otherwise the
      in-memory bytes. */
  function GetData(r: Resource, fs: FileSystem): (d: Result<Bytes, IoError>)
    ensures d.Failure? <==> r.Spooled() && r.tmpPath !in fs
    ensures d.Success? && r.Spooled() ==> d.value == fs[r.tmpPath]
    ensures !r.Spooled() ==> d == Success(r.data)
  {
    if r.Spooled() then
      if r.tmpPath in fs then Success(fs[r.tmpPath]) else Failure(FileNotFound(r.tmpPath))
    else Success(r.data)
  }

  /** `size`: `getsize` of the temporary file or the length of the in-memory
      bytes. It is computed without reading the content, yet always agrees with
      it. */
  function Size(r: Resource, fs: FileSystem): (n: Result<nat, IoError>)
    ensures n.Success? <==> GetData(r, fs).Success?
    ensures n.Success? ==> n.value == |GetData(r, fs).value|
  {
    if r.Spooled() then
      if r.tmpPath in fs then Success(|fs[r.tmpPath]|) else Failure(FileNotFound(r.tmpPath))
    else Success(|r.data|)
  }

  /** POSIX `os.path.join(dir, name)`: an absolute name replaces the directory;
      otherwise a `/` is put between the two unless the directory is empty or
      already ends in one. The name always ends the result. */
  function PathJoin(dir: string, name: string): (p: string)
    ensures |p| >= |name| && p[|p| - |name|..] == name
    ensures |name| > 0 && name[0] == '/' ==> p == name
    ensures !(|name| > 0 && name[0] == '/') ==> dir <= p
    ensures !(|name| > 0 && name[0] == '/') && (dir == [] || dir[|dir| - 1] == '/') ==> p == dir + name
    ensures !(|name| > 0 && name[0] == '/') && dir != [] && dir[|dir| - 1] != '/' ==> p == dir + "/" + name
    ensures !(|name| > 0 && name[0] == '/') && dir != [] ==> '/' in p
  {
    if |name| > 0 && name[0] == '/' then name
    else if dir == [] || dir[|dir| - 1] == '/' then
      assert dir != [] ==> (dir + name)[|dir| - 1] == '/';
      dir + name
    else
      assert (dir + "/" + name)[|dir|] == '/';
      dir + "/" + name
  }

  /** `save(directory)`: the resource's bytes end up in the file
      `join(directory, fname)`, whose path is returned. A spooled resource has
      its temporary file moved there and then points at it; an in-memory
      resource is written out and stays in memory. The content the resource
      reads back is unchanged, and no file other than the temporary one and
      the target changes. It fails when the temporary file is missing, or when
      the target has no directory part (`os.makedirs("")` raises). */
  function Save(r: Resource, dir: string, fs: FileSystem): (s: Result<Saved, IoError>)
    ensures s.Success? <==> '/' in PathJoin(dir, r.fname) && GetData(r, fs).Success?
    ensures s.Success? ==>
              && s.value.path == PathJoin(dir, r.fname)
              && s.value.path in s.value.fs
              && s.value.fs[s.value.path] == GetData(r, fs).value
              && GetData(s.value.resource, s.value.fs) == GetData(r, fs)
              && s.value.resource.fname == r.fname
              && (s.value.resource.Spooled() <==> r.Spooled())
    ensures s.Success? && r.Spooled() ==>
              && s.value.resource.tmpPath == s.value.path
              && (r.tmpPath != s.value.path ==> r.tmpPath !in s.value.fs)
    ensures s.Success? && !r.Spooled() ==> s.value.resource == r
    ensures s.Success? ==>
              forall p :: p != r.tmpPath && p != s.value.path ==>
                (p in s.value.fs <==> p in fs) && (p in fs ==> s.value.fs[p] == fs[p])
  {
    var fpath := PathJoin(dir, r.fname);
    if '/' !in fpath then Failure(FileNotFound(""))
    else if r.Spooled() then
      if r.tmpPath !in fs then Failure(FileNotFound(r.tmpPath))
      else
        var content := fs[r.tmpPath];
        Success(Saved(r.(tmpPath := fpath), (fs - {r.tmpPath})[fpath := content], fpath))
    else
      Success(Saved(r, fs[fpath := r.data], fpath))
  }

  /** `DataEntry.fromFile(glos, word, fpath)`: an empty in-memory resource
      pointed at `fpath`. When the path is empty the resource stays in memory
      and holds no bytes; otherwise it reads whatever that file holds. */
  function FromFile(word: string, fpath: string): (r: Resource)
    ensures r.fname == word && r.tmpPath == fpath
    ensures forall fs: FileSystem :: fpath == "" ==> GetData(r, fs) == Success([])
    ensures forall fs: FileSystem :: fpath in fs && fpath != "" ==> GetData(r, fs) == Success(fs[fpath])
  {
    Resource(word, [], fpath)
  }

  // ---------------------------------------------------------------------------
  // the entry interface of a resource

  /** `word`: the file name, whatever the content and wherever it is kept. */
  function Word(r: Resource): (w: string)
    ensures w == r.fname
  {
    r.fname
  }

  /** `defi`: a fixed description: the text `File: ` followed by the word. */
  function Defi(r: Resource): (d: string)
    ensures |d| == 6 + |Word(r)|
    ensures d[..6] == "File: " && d[6..] == Word(r)
  {
    "File: " + r.fname
  }

  /** The description names the file and nothing else: two resources have the
      same description exactly when they have the same word. */
  lemma DefiDeterminesWord(a: Resource, b: Resource)
    ensures Defi(a) == Defi(b) <==> Word(a) == Word(b)
  {
  }
}
