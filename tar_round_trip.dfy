/**
 * Well-formed archives read back: an archive written as header, data and
 * zero padding per entry, closed by two zero blocks, is scanned by the
 * extraction loop into exactly the entries it was written from, and the loop
 * stops at the archive's end.
 */
module TarRoundTrip {
  import opened Wrappers
  import opened Bytes
  import opened TarHeader
  import opened TarExtract
  import opened TarProperties

  /** An entry a tar writer can emit so that the reader gives it back unchanged. */
  predicate IsWritable(e: Entry)
  {
    && IsValidName(e.name)
    && (e.FileEntry? ==> 0 < |e.contents| < Pow8(11))
  }

  predicate AllWritable(es: seq<Entry>)
  {
    forall i :: 0 <= i < |es| ==> IsWritable(es[i])
  }

  function EntrySize(e: Entry): (r: nat)
    requires IsWritable(e)
    ensures r < Pow8(11)
    ensures r > 0 <==> e.FileEntry?
  {
    if e.FileEntry? then |e.contents| else 0
  }

  function EntryFlag(e: Entry): (r: byte)
    ensures r == DirectoryFlag <==> e.DirectoryEntry?
  {
    if e.DirectoryEntry? then DirectoryFlag else RegularFlag
  }

  /** The header block a writer emits for `e`. */
  function HeaderOf(e: Entry): (r: seq<byte>)
    requires IsWritable(e)
    ensures IsHeaderBlock(r)
  {
    EncodeHeader(e.name, EntrySize(e), EntryFlag(e))
  }

  /** How many bytes follow the header: a file's data rounded up to whole blocks. */
  function BodyLength(e: Entry): (r: nat)
    requires IsWritable(e)
    ensures r % BlockSize == 0
  {
    if e.FileEntry? then PaddingAligns(|e.contents|); |e.contents| + Padding(|e.contents|) else 0
  }

  /** What follows the header: for a file with data, its contents and the zero padding up to the next block. */
  function EntryBody(e: Entry): (r: seq<byte>)
    requires IsWritable(e)
    ensures |r| == BodyLength(e)
    ensures e.FileEntry? ==> r[..|e.contents|] == e.contents
  {
    if e.FileEntry? then e.contents + Zeros(Padding(|e.contents|)) else []
  }

  /** One entry as a writer emits it: its header block, then its body. */
  function EncodeEntry(e: Entry): (r: seq<byte>)
    requires IsWritable(e)
  {
    HeaderOf(e) + EntryBody(e)
  }

  /** The header block of each entry, in order. */
  function Headers(es: seq<Entry>): (r: seq<seq<byte>>)
    requires AllWritable(es)
    ensures |r| == |es|
    ensures forall i :: 0 <= i < |es| ==> r[i] == HeaderOf(es[i])
  {
    if es == [] then [] else [HeaderOf(es[0])] + Headers(es[1..])
  }

  /** Each entry behind its header block `hs[i]`, then the two-zero-block trailer. */
  function Archive(hs: seq<seq<byte>>, es: seq<Entry>): (r: seq<byte>)
    requires |hs| == |es| && AllWritable(es)
    ensures |r| >= 2 * BlockSize
  {
    if es == [] then Zeros(2 * BlockSize) else hs[0] + (EntryBody(es[0]) + Archive(hs[1..], es[1..]))
  }

  /** A complete archive as a writer emits it. */
  function EncodeArchive(es: seq<Entry>): (r: seq<byte>)
    requires AllWritable(es)
    ensures |r| >= 2 * BlockSize
  {
    Archive(Headers(es), es)
  }

  /** `header` is a non-zero block that decodes to the name, size and type flag of `e`. */
  predicate Describes(header: seq<byte>, e: Entry)
    requires IsHeaderBlock(header) && IsWritable(e)
  {
    && !IsZeroBlock(header)
    && DecodeName(header) == Some(e.name)
    && DecodeOctalSize(header) == EntrySize(e)
    && TypeFlag(header) == EntryFlag(e)
  }

  /** Every `hs[i]` is a header block that describes `es[i]`. */
  predicate AllDescribe(hs: seq<seq<byte>>, es: seq<Entry>)
  {
    && |hs| == |es| && AllWritable(es)
    && forall i :: 0 <= i < |es| ==> IsHeaderBlock(hs[i]) && Describes(hs[i], es[i])
  }

  /** The header a writer emits decodes back to the entry's name, size and flag. */
  lemma HeaderOfDescribes(e: Entry)
    requires IsWritable(e)
    ensures Describes(HeaderOf(e), e)
  {
    DecodeNameOfEncoded(e.name, EntrySize(e), EntryFlag(e));
    DecodeSizeOfEncoded(e.name, EntrySize(e), EntryFlag(e));
    EncodedHeaderIsNotZero(e.name, EntrySize(e), EntryFlag(e));
  }

  /** The reader's view of one entry: a header describing it, then its data, gives it back and moves past its body. */
  lemma StepOnDescribedBlock(data: seq<byte>, afterHeader: nat, header: seq<byte>, e: Entry)
    requires IsWritable(e) && IsHeaderBlock(header) && Describes(header, e)
    requires afterHeader + BodyLength(e) <= |data|
    requires e.FileEntry? ==> data[afterHeader..afterHeader + |e.contents|] == e.contents
    ensures BlockStep(data, afterHeader, header) == Extract(e, afterHeader + BodyLength(e))
  {
    hide DecodeName, DecodeOctalSize, IsZeroBlock, BlockStep, FileStep;
    match e
    case DirectoryEntry(name) =>
      StepOnDirectory(data, afterHeader, header, name);
    case EmptyFileEntry(name) =>
      StepOnEmptyFile(data, afterHeader, header, name);
    case FileEntry(name, contents) =>
      var size := |contents|;
      assert DecodeOctalSize(header) == size;
      FileHeaderConsumesRoundedSize(data, afterHeader, header, name, size);
      assert data[afterHeader..afterHeader + size] == contents;
  }

  /** If `data[c..]` is `a + b`, then `a` sits at `c` and `b` right after it. */
  lemma SplitAt(data: seq<byte>, c: nat, a: seq<byte>, b: seq<byte>)
    requires c <= |data| && data[c..] == a + b
    ensures c + |a| <= |data| && data[c..c + |a|] == a && data[c + |a|..] == b
  {
    assert data[c..c + |a|] == (a + b)[..|a|];
    assert data[c + |a|..] == (a + b)[|a|..];
  }

  /** A pass that extracts `e` puts `e` at the head of the scan. */
  lemma ScanOnExtract(data: seq<byte>, c: nat, e: Entry, next: nat)
    requires c <= |data| && HeaderStep(data, c) == Extract(e, next)
    ensures next <= |data|
    ensures Scan(data, c) == Listing([e] + Scan(data, next).entries, Scan(data, next).end)
  {
  }

  /** Where the pieces of an entry laid out at `c` sit in `data`. */
  lemma EntryLayout(data: seq<byte>, c: nat, h: seq<byte>, e: Entry, rest: seq<byte>, next: nat)
    requires IsWritable(e) && IsHeaderBlock(h)
    requires c <= |data| && data[c..] == h + (EntryBody(e) + rest)
    requires next == c + BlockSize + BodyLength(e)
    ensures next <= |data| && data[next..] == rest
    ensures data[c..c + BlockSize] == h
    ensures e.FileEntry? ==> data[c + BlockSize..c + BlockSize + |e.contents|] == e.contents
  {
    SplitAt(data, c, h, EntryBody(e) + rest);
    SplitAt(data, c + BlockSize, EntryBody(e), rest);
    if e.FileEntry? {
      assert data[c + BlockSize..c + BlockSize + |e.contents|] == EntryBody(e)[..|e.contents|];
    }
  }

  /** A header describing `e` at `c`, followed by `e`'s data, puts `e` at the head of the scan from `c`. */
  lemma ScanDescribedEntry(data: seq<byte>, c: nat, e: Entry, next: nat)
    requires IsWritable(e) && next == c + BlockSize + BodyLength(e) && next <= |data|
    requires Describes(data[c..c + BlockSize], e)
    requires e.FileEntry? ==> data[c + BlockSize..c + BlockSize + |e.contents|] == e.contents
    ensures Scan(data, c) == Listing([e] + Scan(data, next).entries, Scan(data, next).end)
  {
    hide Describes, DecodeName, DecodeOctalSize, TypeFlag, IsZeroBlock, BlockStep, Scan;
    StepOnDescribedBlock(data, c + BlockSize, data[c..c + BlockSize], e);
    ScanOnExtract(data, c, e, next);
  }

  /** Two zero blocks at the end of the data stop the scan there, with no entry. */
  lemma ScanTrailer(data: seq<byte>, c: nat)
    requires c <= |data| && data[c..] == Zeros(2 * BlockSize)
    ensures Scan(data, c) == Listing([], |data|)
  {
    assert data[c..] == Zeros(BlockSize) + Zeros(BlockSize);
    SplitAt(data, c, Zeros(BlockSize), Zeros(BlockSize));
    ZeroBlockIsZeros(data[c..c + BlockSize]);
    StepOnZeroBlock(data, c + BlockSize, data[c..c + BlockSize]);
  }

  /** The first header describes the first entry, and the remaining headers the remaining entries. */
  lemma AllDescribeTail(hs: seq<seq<byte>>, es: seq<Entry>)
    requires AllDescribe(hs, es) && es != []
    ensures IsHeaderBlock(hs[0]) && Describes(hs[0], es[0]) && AllDescribe(hs[1..], es[1..])
  {
    forall i | 0 <= i < |es| - 1 ensures hs[1..][i] == hs[i + 1] && es[1..][i] == es[i + 1] { }
  }

  /** The first entry of an archive heads the scan, and the rest of the archive follows its body. */
  lemma ScanArchiveStep(data: seq<byte>, c: nat, hs: seq<seq<byte>>, es: seq<Entry>, next: nat)
    requires AllDescribe(hs, es) && es != [] && c <= |data| && data[c..] == Archive(hs, es)
    requires next == c + BlockSize + BodyLength(es[0])
    ensures next <= |data| && AllDescribe(hs[1..], es[1..]) && data[next..] == Archive(hs[1..], es[1..])
    ensures Scan(data, c) == Listing([es[0]] + Scan(data, next).entries, Scan(data, next).end)
  {
    hide Describes, Scan, HeaderStep, BlockStep;
    AllDescribeTail(hs, es);
    EntryLayout(data, c, hs[0], es[0], Archive(hs[1..], es[1..]), next);
    ScanDescribedEntry(data, c, es[0], next);
  }

  /**
   * From the start of entries laid out behind headers that describe them, the
   * loop scans exactly those entries and stops at the end of the data. How
   * the fields the reader ignores are filled does not matter.
   */
  lemma {:induction false} ScanArchive(data: seq<byte>, c: nat, hs: seq<seq<byte>>, es: seq<Entry>)
    requires AllDescribe(hs, es) && c <= |data| && data[c..] == Archive(hs, es)
    ensures Scan(data, c) == Listing(es, |data|)
    decreases es
  {
    hide Describes, Scan, HeaderStep, BlockStep;
    if es == [] {
      ScanTrailer(data, c);
    } else {
      var next := c + BlockSize + BodyLength(es[0]);
      ScanArchiveStep(data, c, hs, es, next);
      ScanArchive(data, next, hs[1..], es[1..]);
      assert [es[0]] + es[1..] == es;
    }
  }

  /** The headers a writer emits describe their entries. */
  lemma HeadersDescribe(es: seq<Entry>)
    requires AllWritable(es)
    ensures AllDescribe(Headers(es), es)
  {
    forall i | 0 <= i < |es| ensures IsHeaderBlock(Headers(es)[i]) && Describes(Headers(es)[i], es[i]) {
      HeaderOfDescribes(es[i]);
    }
  }

  /** Round trip: scanning an encoded archive gives back its entries, and the loop reads the archive to its end. */
  lemma ArchiveRoundTrip(es: seq<Entry>)
    requires AllWritable(es)
    ensures Scan(EncodeArchive(es), 0) == Listing(es, |EncodeArchive(es)|)
  {
    var data := EncodeArchive(es);
    assert data[0..] == data;
    HeadersDescribe(es);
    ScanArchive(data, 0, Headers(es), es);
  }

  /** Extracting an encoded archive materialises its entries in order, starting from `fs`. */
  lemma ExtractEncodedArchive(es: seq<Entry>, dest: Path, fs: FsState)
    requires AllWritable(es)
    ensures var applied := ApplyAll(fs, dest, es);
      Run(EncodeArchive(es), 0, dest, fs, 0) == Outcome(applied.fs, applied.count, |EncodeArchive(es)|)
  {
    ArchiveRoundTrip(es);
    RunIsScanThenApply(EncodeArchive(es), 0, dest, fs, 0);
  }

  /** A ten-byte file occupies one header block and one data block: 10 data bytes and 502 of padding. */
  lemma TenByteFileTakesTwoBlocks(name: string, contents: seq<byte>)
    requires IsValidName(name) && |contents| == 10
    ensures |EncodeEntry(FileEntry(name, contents))| == 2 * BlockSize
  {
    PaddingOfTen();
  }
}
