/**
 * The tar extraction driver of `Zip.untar`: it reads header blocks from a file
 * handle, stops on a short read or an all-zero block, skips blocks without a
 * usable name, creates directories, writes files and skips the padding that
 * aligns the next header to 512 bytes.
 *
 * The filesystem is a map from paths to file contents plus a set of directory
 * paths. `HeaderStep` is one pass of the loop on the byte sequence, `Run` the
 * whole loop, and the method `Untar` is proved to do exactly what `Run` says.
 */
module TarExtract {
  import opened Wrappers
  import opened Bytes
  import opened Text
  import opened TarHeader

  type Path = string

  // ---------------------------------------------------------------------------
  // The filesystem as a value
  // ---------------------------------------------------------------------------

  datatype FsState = FsState(files: map<Path, seq<byte>>, dirs: set<Path>)

  /** The directories above `p`: each prefix of `p` that ends just before a '/'. */
  function Ancestors(p: Path): set<Path>
  {
    set i | 0 < i < |p| && p[i] == '/' :: p[..i]
  }

  /**
   * A filesystem as these operations keep it: no path is both a file and a
   * directory, and every directory above a file or a directory exists.
   */
  predicate WellFormed(fs: FsState)
  {
    && fs.files.Keys !! fs.dirs
    && (forall d :: d in fs.dirs ==> Ancestors(d) <= fs.dirs)
    && (forall f :: f in fs.files ==> Ancestors(f) <= fs.dirs)
  }

  /** The directories above a directory above `p` are above `p` too. */
  lemma AncestorsOfAncestor(p: Path, q: Path)
    requires q in Ancestors(p)
    ensures Ancestors(q) <= Ancestors(p)
  {
    var i :| 0 < i < |p| && p[i] == '/' && q == p[..i];
    forall a | a in Ancestors(q) ensures a in Ancestors(p) {
      var j :| 0 < j < |q| && q[j] == '/' && a == q[..j];
      assert p[j] == '/' && a == p[..j];
    }
  }

  /** Splitting at the last '/': the directories above `p` are its parent and those above the parent. */
  lemma AncestorsViaParent(p: Path)
    requires LastIndexOf(p, '/') > 0
    ensures Ancestors(p) == Ancestors(DeletingLastPathComponent(p)) + {DeletingLastPathComponent(p)}
  {
    var k := LastIndexOf(p, '/');
    var parent := p[..k];
    assert parent in Ancestors(p);
    AncestorsOfAncestor(p, parent);
    forall a | a in Ancestors(p) ensures a == parent || a in Ancestors(parent) {
      var i :| 0 < i < |p| && p[i] == '/' && a == p[..i];
      if i != k {
        assert parent[i] == '/' && a == parent[..i];
      }
    }
  }

  /** `fileExists(atPath:)`: a file or a directory is there. */
  predicate Exists(fs: FsState, p: Path)
  {
    p in fs.files || p in fs.dirs
  }

  /**
   * `createDirectory(atPath:withIntermediateDirectories: true)`: creates `p` and
   * every missing directory above it; fails, changing nothing, when a regular
   * file sits at `p` or at one of those places.
   */
  function MkDirAll(fs: FsState, p: Path): (r: FsState)
    ensures r.files == fs.files
    ensures fs.dirs <= r.dirs && r.dirs - fs.dirs <= Ancestors(p) + {p}
    ensures p in r.dirs <==> p in fs.dirs || (Ancestors(p) + {p}) !! fs.files.Keys
    ensures p in r.dirs ==> Ancestors(p) <= r.dirs || p in fs.dirs
  {
    var chain := Ancestors(p) + {p};
    if chain !! fs.files.Keys then fs.(dirs := fs.dirs + chain) else fs
  }

  lemma MkDirAllKeepsWellFormed(fs: FsState, p: Path)
    requires WellFormed(fs)
    ensures WellFormed(MkDirAll(fs, p))
  {
    var r := MkDirAll(fs, p);
    forall d | d in r.dirs ensures Ancestors(d) <= r.dirs {
      if d in Ancestors(p) {
        AncestorsOfAncestor(p, d);
      }
    }
  }

  datatype Created = Created(ok: bool, fs: FsState)

  /**
   * `createFile(atPath:contents:)`: writes (or overwrites) a regular file; it
   * fails, changing nothing, when `p` is a directory or a directory above it
   * is missing.
   */
  function CreateFileAt(fs: FsState, p: Path, contents: seq<byte>): (r: Created)
    ensures r.ok <==> p !in fs.dirs && Ancestors(p) <= fs.dirs
    ensures r.ok ==> r.fs == FsState(fs.files[p := contents], fs.dirs)
    ensures !r.ok ==> r.fs == fs
  {
    if p !in fs.dirs && Ancestors(p) <= fs.dirs
    then Created(true, fs.(files := fs.files[p := contents]))
    else Created(false, fs)
  }

  /** `deletingLastPathComponent`: the text before the last '/' ("/" for a top-level path, "" without a '/'). */
  function DeletingLastPathComponent(p: Path): (r: Path)
    ensures |r| <= |p|
    ensures r != "/" && r != "" ==> |r| < |p| && r == p[..|r|] && p[|r|] == '/'
  {
    var k := LastIndexOf(p, '/');
    if k > 0 then p[..k] else if k == 0 then "/" else ""
  }

  function StripTrailingSlashes(name: string): (r: string)
    ensures |r| <= |name|
    ensures r == name[..|r|]
    ensures r == [] || r[|r| - 1] != '/'
  {
    if |name| > 0 && name[|name| - 1] == '/' then StripTrailingSlashes(name[..|name| - 1]) else name
  }

  /** `destURL.appendingPathComponent(name).path`. */
  function FullPath(dest: Path, name: string): (r: Path)
    ensures |r| > |dest| && r[..|dest| + 1] == dest + "/"
  {
    dest + "/" + StripTrailingSlashes(name)
  }

  // ---------------------------------------------------------------------------
  // One pass of the loop, on the byte sequence
  // ---------------------------------------------------------------------------

  /** What a header announces: a directory, a file with (possibly truncated) data, or an empty file. */
  datatype Entry =
    | DirectoryEntry(name: string)
    | FileEntry(name: string, contents: seq<byte>)
    | EmptyFileEntry(name: string)

  /** The outcome of one pass: the loop ends, a block is skipped, or an entry is extracted; `next` is the new cursor. */
  datatype Step = Stop(next: nat) | SkipBlock(next: nat) | Extract(entry: Entry, next: nat)

  /** `readData(ofLength: n)` at cursor `c`: the cursor afterwards. */
  function ReadEnd(data: seq<byte>, c: nat, n: nat): (r: nat)
    requires c <= |data|
    ensures c <= r <= |data|
    ensures r - c == n || (r == |data| && |data| - c < n)
  {
    c + Min(n, |data| - c)
  }

  /**
   * A file with data: `readData(ofLength: size)` from `start`, which returns
   * fewer bytes only at the end of the archive, then the padding read.
   */
  function FileStep(data: seq<byte>, start: nat, name: string, size: int): (r: Step)
    requires start <= |data| && size > 0
    ensures r.Extract? && r.entry.FileEntry? && r.entry.name == name
    ensures start <= r.next <= |data|
  {
    var dataEnd := ReadEnd(data, start, size);
    Extract(FileEntry(name, data[start..dataEnd]), ReadEnd(data, dataEnd, Padding(size)))
  }

  /** With the whole entry present, exactly `size` data bytes are read, then the full padding. */
  lemma FileStepInFull(data: seq<byte>, start: nat, name: string, size: int)
    requires size > 0 && start + size + Padding(size) <= |data|
    ensures FileStep(data, start, name, size)
         == Extract(FileEntry(name, data[start..start + size]), start + size + Padding(size))
  {
    var dataEnd := ReadEnd(data, start, size);
    assert dataEnd == start + size;
  }

  /**
   * One iteration of `while true` in `untar`, starting with the cursor at `c`.
   * Every iteration that does not end the loop consumes at least the 512 header bytes.
   */
  function HeaderStep(data: seq<byte>, c: nat): (r: Step)
    requires c <= |data|
    ensures c <= r.next <= |data|
    ensures !r.Stop? ==> c + BlockSize <= r.next
    ensures r.Extract? ==> r.entry.name != ""
  {
    if |data| - c < BlockSize then Stop(|data|)
    else BlockStep(data, c + BlockSize, data[c..c + BlockSize])
  }

  /** The rest of the iteration once a full header block has been read, leaving the cursor at `afterHeader`. */
  function BlockStep(data: seq<byte>, afterHeader: nat, header: seq<byte>): (r: Step)
    requires afterHeader <= |data| && IsHeaderBlock(header)
    ensures afterHeader <= r.next <= |data|
    ensures r.Extract? ==> r.entry.name != ""
  {
    if IsZeroBlock(header) then Stop(ReadEnd(data, afterHeader, BlockSize))
    else match DecodeName(header)
      case None => SkipBlock(afterHeader)
      case Some(name) =>
        if name == "" then SkipBlock(afterHeader)
        else
          var size := DecodeOctalSize(header);
          if TypeFlag(header) == DirectoryFlag then Extract(DirectoryEntry(name), afterHeader)
          else if size > 0 then FileStep(data, afterHeader, name, size)
          else Extract(EmptyFileEntry(name), afterHeader)
  }

  // The six ways one pass can go, each as its own fact.

  /** A header read that returns fewer than 512 bytes ends the loop; the cursor is at the end of the data. */
  lemma StepOnShortRead(data: seq<byte>, c: nat)
    requires c <= |data| && |data| - c < BlockSize
    ensures HeaderStep(data, c) == Stop(|data|)
  {
  }

  /** An all-zero header ends the loop after one more block (full, partial or absent) is consumed. */
  lemma StepOnZeroBlock(data: seq<byte>, afterHeader: nat, header: seq<byte>)
    requires afterHeader <= |data| && IsHeaderBlock(header) && IsZeroBlock(header)
    ensures BlockStep(data, afterHeader, header) == Stop(ReadEnd(data, afterHeader, BlockSize))
  {
  }

  /** A non-zero block whose name is undecodable or empty is skipped: only its 512 bytes are consumed. */
  lemma StepOnUnnamedBlock(data: seq<byte>, afterHeader: nat, header: seq<byte>)
    requires afterHeader <= |data| && IsHeaderBlock(header) && !IsZeroBlock(header)
    requires DecodeName(header) in {None, Some("")}
    ensures BlockStep(data, afterHeader, header) == SkipBlock(afterHeader)
  {
  }

  /** A directory header consumes no data bytes. */
  lemma StepOnDirectory(data: seq<byte>, afterHeader: nat, header: seq<byte>, name: string)
    requires afterHeader <= |data| && IsHeaderBlock(header) && !IsZeroBlock(header)
    requires DecodeName(header) == Some(name) && name != ""
    requires TypeFlag(header) == DirectoryFlag
    ensures BlockStep(data, afterHeader, header) == Extract(DirectoryEntry(name), afterHeader)
  {
  }

  /** A file header with a positive size consumes min(size, remaining) data bytes, then the padding up to 512. */
  lemma StepOnFile(data: seq<byte>, afterHeader: nat, header: seq<byte>, name: string)
    requires afterHeader <= |data| && IsHeaderBlock(header) && !IsZeroBlock(header)
    requires DecodeName(header) == Some(name) && name != ""
    requires TypeFlag(header) != DirectoryFlag
    requires DecodeOctalSize(header) > 0
    ensures BlockStep(data, afterHeader, header) == FileStep(data, afterHeader, name, DecodeOctalSize(header))
  {
  }

  /** A file header with size zero or below consumes nothing beyond its 512 bytes. */
  lemma StepOnEmptyFile(data: seq<byte>, afterHeader: nat, header: seq<byte>, name: string)
    requires afterHeader <= |data| && IsHeaderBlock(header) && !IsZeroBlock(header)
    requires DecodeName(header) == Some(name) && name != ""
    requires TypeFlag(header) != DirectoryFlag
    requires DecodeOctalSize(header) <= 0
    ensures BlockStep(data, afterHeader, header) == Extract(EmptyFileEntry(name), afterHeader)
  {
  }

  /** `if !fm.fileExists(atPath: parentDir) { try? fm.createDirectory(...) }`. */
  function PrepareParent(fs: FsState, p: Path): (r: FsState)
    ensures r.files == fs.files && fs.dirs <= r.dirs
    ensures var parent := DeletingLastPathComponent(p);
      r.dirs - fs.dirs <= Ancestors(parent) + {parent}
  {
    var parent := DeletingLastPathComponent(p);
    if Exists(fs, parent) then fs else MkDirAll(fs, parent)
  }

  /**
   * On a well-formed filesystem with no regular file above `p`, preparing the
   * parent leaves every directory above `p` in place, and adds only those.
   */
  lemma PrepareParentMakesAncestors(fs: FsState, p: Path)
    requires WellFormed(fs) && LastIndexOf(p, '/') > 0
    requires Ancestors(p) !! fs.files.Keys
    ensures Ancestors(p) <= PrepareParent(fs, p).dirs
    ensures PrepareParent(fs, p).dirs - fs.dirs <= Ancestors(p)
  {
    AncestorsViaParent(p);
  }

  /** With a non-empty destination, the entry path's last '/' comes after the destination. */
  lemma FullPathHasParent(dest: Path, name: string)
    requires dest != ""
    ensures LastIndexOf(FullPath(dest, name), '/') >= |dest| > 0
  {
    assert FullPath(dest, name)[|dest|] == '/';
  }

  datatype Materialized = Materialized(fs: FsState, counted: bool)

  /**
   * What the loop does to the filesystem and the counter for one entry.
   * Directories are never counted; empty files always are, whether or not
   * `createFile` succeeded; files with data only when it did.
   */
  function Materialize(fs: FsState, dest: Path, e: Entry): (r: Materialized)
    ensures var p := FullPath(dest, e.name);
      && fs.files.Keys <= r.fs.files.Keys <= fs.files.Keys + {p}
      && (forall q :: q in fs.files && q != p ==> r.fs.files[q] == fs.files[q])
      && fs.dirs <= r.fs.dirs
      && (e.DirectoryEntry? ==> !r.counted && r.fs.files == fs.files)
      && (e.EmptyFileEntry? ==> r.counted)
      && (e.FileEntry? && r.counted ==> p in r.fs.files && r.fs.files[p] == e.contents)
      && (e.FileEntry? && !r.counted ==> r.fs.files == fs.files)
  {
    var p := FullPath(dest, e.name);
    match e
    case DirectoryEntry(_) => Materialized(MkDirAll(fs, p), false)
    case FileEntry(_, contents) =>
      var created := CreateFileAt(PrepareParent(fs, p), p, contents);
      Materialized(created.fs, created.ok)
    case EmptyFileEntry(_) =>
      Materialized(CreateFileAt(PrepareParent(fs, p), p, []).fs, true)
  }

  /**
   * The only directories one entry adds lie on its path: the entry path and
   * those above it for a directory, the parent and those above it otherwise.
   */
  lemma MaterializeAddsDirectoriesOnPath(fs: FsState, dest: Path, e: Entry)
    ensures var p := FullPath(dest, e.name);
      var r := Materialize(fs, dest, e);
      && (e.DirectoryEntry? ==> r.fs.dirs - fs.dirs <= Ancestors(p) + {p})
      && (!e.DirectoryEntry? ==>
            var parent := DeletingLastPathComponent(p); r.fs.dirs - fs.dirs <= Ancestors(parent) + {parent})
  {
  }

  lemma MaterializeKeepsWellFormed(fs: FsState, dest: Path, e: Entry)
    requires WellFormed(fs)
    ensures WellFormed(Materialize(fs, dest, e).fs)
  {
    var p := FullPath(dest, e.name);
    if e.DirectoryEntry? {
      MkDirAllKeepsWellFormed(fs, p);
    } else {
      var parent := DeletingLastPathComponent(p);
      if !Exists(fs, parent) {
        MkDirAllKeepsWellFormed(fs, parent);
      }
    }
  }

  /**
   * The success case of one file entry: on a well-formed filesystem, below a
   * non-empty destination, with no regular file above the entry path and no
   * directory at it, the file is written with its contents and counted, and
   * the only directories added are the missing ones above it.
   */
  lemma MaterializeWritesFile(fs: FsState, dest: Path, e: Entry)
    requires WellFormed(fs) && dest != "" && !e.DirectoryEntry?
    requires Ancestors(FullPath(dest, e.name)) !! fs.files.Keys && FullPath(dest, e.name) !in fs.dirs
    ensures var p := FullPath(dest, e.name);
      var r := Materialize(fs, dest, e);
      && r.counted
      && p in r.fs.files
      && r.fs.files[p] == (if e.FileEntry? then e.contents else [])
      && r.fs.dirs - fs.dirs <= Ancestors(p)
  {
    var p := FullPath(dest, e.name);
    FullPathHasParent(dest, e.name);
    PrepareParentMakesAncestors(fs, p);
    AncestorsViaParent(p);
  }

  /** A directory entry in the same situation, with no regular file at its path either, is created. */
  lemma MaterializeMakesDirectory(fs: FsState, dest: Path, e: Entry)
    requires e.DirectoryEntry?
    requires (Ancestors(FullPath(dest, e.name)) + {FullPath(dest, e.name)}) !! fs.files.Keys
    ensures var p := FullPath(dest, e.name);
      var r := Materialize(fs, dest, e);
      && !r.counted
      && Ancestors(p) + {p} <= r.fs.dirs
  {
  }

  // ---------------------------------------------------------------------------
  // The whole loop
  // ---------------------------------------------------------------------------

  datatype Outcome = Outcome(fs: FsState, count: nat, cursor: nat)

  /** The loop from cursor `c` with filesystem `fs` and counter `count`, up to its `break`. */
  function Run(data: seq<byte>, c: nat, dest: Path, fs: FsState, count: nat): (r: Outcome)
    requires c <= |data|
    ensures c <= r.cursor <= |data|
    ensures count <= r.count
    ensures fs.files.Keys <= r.fs.files.Keys && fs.dirs <= r.fs.dirs
    decreases |data| - c
  {
    match HeaderStep(data, c)
    case Stop(next) => Outcome(fs, count, next)
    case SkipBlock(next) => Run(data, next, dest, fs, count)
    case Extract(e, next) =>
      var m := Materialize(fs, dest, e);
      Run(data, next, dest, m.fs, if m.counted then count + 1 else count)
  }

  /** The whole loop keeps the filesystem well formed. */
  lemma {:induction false} RunKeepsWellFormed(data: seq<byte>, c: nat, dest: Path, fs: FsState, count: nat)
    requires c <= |data| && WellFormed(fs)
    ensures WellFormed(Run(data, c, dest, fs, count).fs)
    decreases |data| - c
  {
    match HeaderStep(data, c)
    case Stop(next) =>
    case SkipBlock(next) => RunKeepsWellFormed(data, next, dest, fs, count);
    case Extract(e, next) =>
      var m := Materialize(fs, dest, e);
      MaterializeKeepsWellFormed(fs, dest, e);
      RunKeepsWellFormed(data, next, dest, m.fs, if m.counted then count + 1 else count);
  }

  // ---------------------------------------------------------------------------
  // The manifest returned after the loop
  // ---------------------------------------------------------------------------

  predicate IsBelow(p: Path, root: Path)
  {
    |root| + 1 < |p| && p[..|root| + 1] == root + "/"
  }

  /** What `listFiles(at: destURL)` enumerates: every file and directory below the destination. */
  function ListFiles(fs: FsState, root: Path): (r: set<Path>)
    ensures forall p :: p in r <==> Exists(fs, p) && IsBelow(p, root)
  {
    set p | p in fs.files.Keys + fs.dirs && IsBelow(p, root)
  }

  datatype TarManifest = TarManifest(path: Path, fileCount: nat, files: set<Path>, kind: string)

  function ManifestOf(fs: FsState, dest: Path): (r: TarManifest)
    ensures r.fileCount == |r.files| && r.kind == "tar" && r.path == dest
  {
    var files := ListFiles(fs, dest);
    TarManifest(dest, |files|, files, "tar")
  }

  // ---------------------------------------------------------------------------
  // Stateful collaborators: the open file handle and the file manager
  // ---------------------------------------------------------------------------

  /** `FileHandle(forReadingAtPath:)`: the archive bytes and a cursor that only moves forward. */
  class FileHandle {
    const bytes: seq<byte>
    var offset: nat

    ghost predicate Valid()
      reads this
    {
      offset <= |bytes|
    }

    constructor (contents: seq<byte>)
      ensures bytes == contents && offset == 0 && Valid()
    {
      bytes := contents;
      offset := 0;
    }

    /** `readData(ofLength:)`: up to `length` bytes; fewer only at the end of the data. */
    method ReadData(length: nat) returns (chunk: seq<byte>)
      requires Valid()
      modifies this`offset
      ensures Valid()
      ensures offset == ReadEnd(bytes, old(offset), length)
      ensures chunk == bytes[old(offset)..offset]
    {
      var n := Min(length, |bytes| - offset);
      chunk := bytes[offset..offset + n];
      offset := offset + n;
    }
  }

  /** `FileManager.default`, restricted to what `untar` uses. */
  class FileManager {
    var files: map<Path, seq<byte>>
    var dirs: set<Path>

    function State(): FsState
      reads this
    {
      FsState(files, dirs)
    }

    constructor (initial: FsState)
      ensures State() == initial
    {
      files := initial.files;
      dirs := initial.dirs;
    }

    method FileExists(path: Path) returns (b: bool)
      ensures b <==> path in State().files || path in State().dirs
    {
      b := path in files || path in dirs;
    }

    method CreateDirectory(path: Path) returns (ok: bool)
      modifies this
      ensures State() == MkDirAll(old(State()), path)
      ensures ok <==> path in dirs
    {
      var next := MkDirAll(State(), path);
      files, dirs := next.files, next.dirs;
      ok := path in dirs;
    }

    method CreateFile(path: Path, contents: seq<byte>) returns (ok: bool)
      modifies this
      ensures Created(ok, State()) == CreateFileAt(old(State()), path, contents)
    {
      var created := CreateFileAt(State(), path, contents);
      files, dirs := created.fs.files, created.fs.dirs;
      ok := created.ok;
    }
  }

  // ---------------------------------------------------------------------------
  // The driver
  // ---------------------------------------------------------------------------



  /** Read `fileSize` data bytes, write them to `fullPath`, then skip the padding to the next 512-byte boundary. */
  method WriteFile(fileHandle: FileHandle, fm: FileManager, fullPath: Path, fileSize: int) returns (created: bool)
    requires fileHandle.Valid() && fileSize > 0
    modifies fileHandle`offset, fm
    ensures fileHandle.Valid()
    ensures var dataEnd := ReadEnd(fileHandle.bytes, old(fileHandle.offset), fileSize);
      && fileHandle.offset == ReadEnd(fileHandle.bytes, dataEnd, Padding(fileSize))
      && Created(created, fm.State())
         == CreateFileAt(old(fm.State()), fullPath, fileHandle.bytes[old(fileHandle.offset)..dataEnd])
  {
    var fileData := fileHandle.ReadData(fileSize);
    created := fm.CreateFile(fullPath, fileData);
    var padding := (BlockSize - fileSize % BlockSize) % BlockSize;
    PaddingIsSourceFormula(fileSize);
    if padding > 0 {
      var _ := fileHandle.ReadData(padding);
    }
  }

  /**
   * The body of the loop once a named, non-zero header has been read: create the
   * directory, or prepare the parent directory, write the file and skip its
   * padding. `counted` says whether `extractedCount` goes up.
   */
  method ExtractEntry(fileHandle: FileHandle, fm: FileManager, dest: Path, ghost c: nat,
                      headerData: seq<byte>, name: string) returns (counted: bool)
    requires fileHandle.Valid() && c + BlockSize == fileHandle.offset
    requires headerData == fileHandle.bytes[c..c + BlockSize]
    requires !IsZeroBlock(headerData) && DecodeName(headerData) == Some(name) && name != ""
    modifies fileHandle`offset, fm
    ensures fileHandle.Valid()
    ensures var step := BlockStep(fileHandle.bytes, c + BlockSize, headerData);
      step.Extract? && step.next == fileHandle.offset
      && Materialize(old(fm.State()), dest, step.entry) == Materialized(fm.State(), counted)
  {
    hide Ancestors;
    ghost var fs := fm.State();
    var fileSize := DecodeOctalSize(headerData);
    var typeFlag := headerData[TypeFlagOffset];
    var fullPath := FullPath(dest, name);

    if typeFlag == DirectoryFlag {
      var _ := fm.CreateDirectory(fullPath);
      counted := false;
      StepOnDirectory(fileHandle.bytes, c + BlockSize, headerData, name);
      assert Materialize(fs, dest, DirectoryEntry(name)) == Materialized(fm.State(), counted);
    } else {
      var parentDir := DeletingLastPathComponent(fullPath);
      var parentExists := fm.FileExists(parentDir);
      if !parentExists {
        var _ := fm.CreateDirectory(parentDir);
      }
      assert fm.State() == PrepareParent(fs, fullPath);

      if fileSize > 0 {
        ghost var afterHeader := fileHandle.offset;
        counted := WriteFile(fileHandle, fm, fullPath, fileSize);
        StepOnFile(fileHandle.bytes, c + BlockSize, headerData, name);
        ghost var fileData := fileHandle.bytes[afterHeader..ReadEnd(fileHandle.bytes, afterHeader, fileSize)];
        assert Materialize(fs, dest, FileEntry(name, fileData)) == Materialized(fm.State(), counted);
      } else {
        var _ := fm.CreateFile(fullPath, []);
        counted := true;
        StepOnEmptyFile(fileHandle.bytes, c + BlockSize, headerData, name);
        assert Materialize(fs, dest, EmptyFileEntry(name)) == Materialized(fm.State(), counted);
      }
    }
  }

  /**
   * `untar(sourceURL:destURL:)`. `archive` is the source file's bytes, None when
   * it cannot be opened. Besides the manifest, the loop's running counter
   * `extractedCount` is returned so that its value can be stated.
   */
  method Untar(archive: Option<seq<byte>>, dest: Path, fm: FileManager)
      returns (result: Result<TarManifest, string>, extractedCount: nat)
    modifies fm
    ensures archive.None? ==>
      result == Err("Cannot open source file") && fm.State() == old(fm.State()) && extractedCount == 0
    ensures archive.Some? ==>
      var o := Run(archive.value, 0, dest, old(fm.State()), 0);
      fm.State() == o.fs && extractedCount == o.count && result == Ok(ManifestOf(o.fs, dest))
  {
    if archive.None? {
      return Err("Cannot open source file"), 0;
    }
    var bytes := archive.value;
    var fileHandle := new FileHandle(bytes);
    ghost var initial := fm.State();
    extractedCount := 0;

    while true
      invariant fileHandle.Valid() && fileHandle.bytes == bytes
      invariant Run(bytes, 0, dest, initial, 0)
             == Run(bytes, fileHandle.offset, dest, fm.State(), extractedCount)
      decreases |bytes| - fileHandle.offset
    {
      ghost var c := fileHandle.offset;
      ghost var fs := fm.State();
      ghost var count := extractedCount;

      var headerData := fileHandle.ReadData(BlockSize);
      if |headerData| < BlockSize {
        StepOnShortRead(bytes, c);
        break;
      }
      assert headerData == bytes[c..c + BlockSize];

      if IsZeroBlock(headerData) {
        var nextBlock := fileHandle.ReadData(BlockSize);
        StepOnZeroBlock(bytes, c + BlockSize, headerData);
        if IsZeroBlock(nextBlock) { break; }
        break;
      }

      var name := DecodeName(headerData);
      if name.None? || name.value == "" {
        StepOnUnnamedBlock(bytes, c + BlockSize, headerData);
        continue;
      }

      var counted := ExtractEntry(fileHandle, fm, dest, c, headerData, name.value);
      if counted {
        extractedCount := extractedCount + 1;
      }
    }

    result := Ok(ManifestOf(fm.State(), dest));
  }
}
