/**
 * What the extraction loop promises, stated on `Run`: how each kind of header
 * block ends or continues the loop, and the decomposition of a run into a pure
 * scan of the byte sequence (which never depends on the filesystem) followed by
 * the materialisation of the scanned entries in order.
 */
module TarProperties {
  import opened Wrappers
  import opened Bytes
  import opened TarHeader
  import opened TarExtract

  // ---------------------------------------------------------------------------
  // Header by header
  // ---------------------------------------------------------------------------

  /** A short header read ends extraction normally: no entry is processed and nothing changes. */
  lemma ShortHeaderEndsExtraction(data: seq<byte>, c: nat, dest: Path, fs: FsState, count: nat)
    requires c <= |data| && |data| - c < BlockSize
    ensures Run(data, c, dest, fs, count) == Outcome(fs, count, |data|)
  {
    StepOnShortRead(data, c);
  }

  /**
   * An all-zero header ends extraction after consuming one further block,
   * whatever that block holds: nothing after it is materialised.
   */
  lemma ZeroBlockEndsExtraction(data: seq<byte>, c: nat, dest: Path, fs: FsState, count: nat)
    requires c + BlockSize <= |data| && IsZeroBlock(data[c..c + BlockSize])
    ensures Run(data, c, dest, fs, count) == Outcome(fs, count, ReadEnd(data, c + BlockSize, BlockSize))
    ensures Scan(data, c).entries == []
  {
    StepOnZeroBlock(data, c + BlockSize, data[c..c + BlockSize]);
  }

  /** A block with no usable name is skipped: 512 bytes are consumed, the filesystem and the counter stay. */
  lemma UnnamedBlockIsSkipped(data: seq<byte>, c: nat, dest: Path, fs: FsState, count: nat)
    requires c + BlockSize <= |data| && !IsZeroBlock(data[c..c + BlockSize])
    requires DecodeName(data[c..c + BlockSize]) in {None, Some("")}
    ensures Run(data, c, dest, fs, count) == Run(data, c + BlockSize, dest, fs, count)
    ensures Scan(data, c) == Scan(data, c + BlockSize)
  {
    StepOnUnnamedBlock(data, c + BlockSize, data[c..c + BlockSize]);
  }

  /** A directory header creates `dest/name` on a best-effort basis, reads no data and leaves the counter. */
  lemma DirectoryHeaderCreatesDirectory(data: seq<byte>, c: nat, dest: Path, fs: FsState, count: nat, name: string)
    requires c + BlockSize <= |data| && !IsZeroBlock(data[c..c + BlockSize])
    requires DecodeName(data[c..c + BlockSize]) == Some(name) && name != ""
    requires TypeFlag(data[c..c + BlockSize]) == DirectoryFlag
    ensures Run(data, c, dest, fs, count)
         == Run(data, c + BlockSize, dest, MkDirAll(fs, FullPath(dest, name)), count)
  {
    StepOnDirectory(data, c + BlockSize, data[c..c + BlockSize], name);
  }

  /**
   * With the whole entry present, a file header of positive size yields exactly
   * `size` data bytes and leaves the cursor at the header's end plus `size`
   * and its padding (`PaddedSizeIsRoundedUp`: the next multiple of 512).
   */
  lemma FileHeaderConsumesRoundedSize(data: seq<byte>, afterHeader: nat, header: seq<byte>, name: string, size: int)
    requires IsHeaderBlock(header) && !IsZeroBlock(header)
    requires DecodeName(header) == Some(name) && name != ""
    requires TypeFlag(header) != DirectoryFlag
    requires size == DecodeOctalSize(header) && size > 0
    requires afterHeader + size + Padding(size) <= |data|
    ensures BlockStep(data, afterHeader, header)
         == Extract(FileEntry(name, data[afterHeader..afterHeader + size]), afterHeader + size + Padding(size))
  {
    StepOnFile(data, afterHeader, header, name);
    FileStepInFull(data, afterHeader, name, size);
  }

  /** A file header of size zero or below gives an empty file, counts one, and consumes no data or padding. */
  lemma EmptyFileHeaderCountsOne(data: seq<byte>, c: nat, dest: Path, fs: FsState, count: nat, name: string)
    requires c + BlockSize <= |data| && !IsZeroBlock(data[c..c + BlockSize])
    requires DecodeName(data[c..c + BlockSize]) == Some(name) && name != ""
    requires TypeFlag(data[c..c + BlockSize]) != DirectoryFlag
    requires DecodeOctalSize(data[c..c + BlockSize]) <= 0
    ensures var p := FullPath(dest, name);
      Run(data, c, dest, fs, count)
      == Run(data, c + BlockSize, dest, CreateFileAt(PrepareParent(fs, p), p, []).fs, count + 1)
  {
    StepOnEmptyFile(data, c + BlockSize, data[c..c + BlockSize], name);
    var p := FullPath(dest, name);
    assert Materialize(fs, dest, EmptyFileEntry(name)) == Materialized(CreateFileAt(PrepareParent(fs, p), p, []).fs, true);
  }

  /**
   * A file header whose size field reads "-" and octal digits takes the
   * empty-file branch: an empty file is created and counted, and none of the
   * bytes after the header are read as its data.
   */
  lemma NegativeSizeGivesEmptyFile(data: seq<byte>, c: nat, dest: Path, fs: FsState, count: nat,
                                   name: string, digits: string)
    requires c + BlockSize <= |data| && !IsZeroBlock(data[c..c + BlockSize])
    requires DecodeName(data[c..c + BlockSize]) == Some(name) && name != ""
    requires TypeFlag(data[c..c + BlockSize]) != DirectoryFlag
    requires SizeText(data[c..c + BlockSize]) == "-" + digits && IsOctalDigits(digits) && OctalValue(digits) > 0
    ensures HeaderStep(data, c) == Extract(EmptyFileEntry(name), c + BlockSize)
    ensures var p := FullPath(dest, name);
      Run(data, c, dest, fs, count)
      == Run(data, c + BlockSize, dest, CreateFileAt(PrepareParent(fs, p), p, []).fs, count + 1)
  {
    NegativeSizeFieldIsNegative(data[c..c + BlockSize], digits);
    StepOnEmptyFile(data, c + BlockSize, data[c..c + BlockSize], name);
    EmptyFileHeaderCountsOne(data, c, dest, fs, count, name);
  }

  // ---------------------------------------------------------------------------
  // Scan, then materialise
  // ---------------------------------------------------------------------------

  datatype Listing = Listing(entries: seq<Entry>, end: nat)

  /** The entries the loop acts on from cursor `c`, in order, and the cursor at which it stops. */
  function Scan(data: seq<byte>, c: nat): (r: Listing)
    requires c <= |data|
    ensures c <= r.end <= |data|
    ensures forall i :: 0 <= i < |r.entries| ==> r.entries[i].name != ""
    decreases |data| - c
  {
    match HeaderStep(data, c)
    case Stop(next) => Listing([], next)
    case SkipBlock(next) => Scan(data, next)
    case Extract(e, next) =>
      var rest := Scan(data, next);
      Listing([e] + rest.entries, rest.end)
  }

  datatype Applied = Applied(fs: FsState, count: nat)

  /** Materialise entries in order; `count` is how many of them the counter takes. */
  function ApplyAll(fs: FsState, dest: Path, es: seq<Entry>): (r: Applied)
    ensures fs.files.Keys <= r.fs.files.Keys && fs.dirs <= r.fs.dirs
    ensures r.count <= |es|
    decreases |es|
  {
    if es == [] then Applied(fs, 0)
    else
      var m := Materialize(fs, dest, es[0]);
      var rest := ApplyAll(m.fs, dest, es[1..]);
      Applied(rest.fs, rest.count + if m.counted then 1 else 0)
  }

  /**
   * A run is its scan followed by the materialisation of the scanned entries:
   * where the loop stops and which entries it sees never depend on the filesystem.
   */
  lemma {:induction false} RunIsScanThenApply(data: seq<byte>, c: nat, dest: Path, fs: FsState, count: nat)
    requires c <= |data|
    ensures var listing := Scan(data, c);
      var applied := ApplyAll(fs, dest, listing.entries);
      Run(data, c, dest, fs, count) == Outcome(applied.fs, count + applied.count, listing.end)
    decreases |data| - c
  {
    hide HeaderStep;
    match HeaderStep(data, c)
    case Stop(next) =>
    case SkipBlock(next) =>
      RunIsScanThenApply(data, next, dest, fs, count);
    case Extract(e, next) =>
      var m := Materialize(fs, dest, e);
      var n := if m.counted then count + 1 else count;
      RunIsScanThenApply(data, next, dest, m.fs, n);
      var rest := Scan(data, next).entries;
      assert ([e] + rest)[0] == e && ([e] + rest)[1..] == rest;
  }

  function NonDirectoryCount(es: seq<Entry>): (r: nat)
    ensures r <= |es|
  {
    if es == [] then 0 else (if es[0].DirectoryEntry? then 0 else 1) + NonDirectoryCount(es[1..])
  }

  function EmptyFileCount(es: seq<Entry>): (r: nat)
    ensures r <= NonDirectoryCount(es)
  {
    if es == [] then 0 else (if es[0].EmptyFileEntry? then 1 else 0) + EmptyFileCount(es[1..])
  }

  /**
   * The counter never counts a directory, always counts an empty file, and
   * counts a file with data at most once.
   */
  lemma {:induction false} CounterBounds(fs: FsState, dest: Path, es: seq<Entry>)
    ensures EmptyFileCount(es) <= ApplyAll(fs, dest, es).count <= NonDirectoryCount(es)
    decreases |es|
  {
    if es != [] {
      CounterBounds(Materialize(fs, dest, es[0]).fs, dest, es[1..]);
    }
  }

  /** The counter at the end of a run lies between the empty files and all non-directory entries scanned. */
  lemma RunCounterBounds(data: seq<byte>, dest: Path, fs: FsState)
    ensures var es := Scan(data, 0).entries;
      EmptyFileCount(es) <= Run(data, 0, dest, fs, 0).count <= NonDirectoryCount(es)
  {
    RunIsScanThenApply(data, 0, dest, fs, 0);
    CounterBounds(fs, dest, Scan(data, 0).entries);
  }
}
