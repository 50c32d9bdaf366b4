/**
 * The pure decisions of the iOS `Zip` class: the ZIP signature test of
 * `isValidZip` and the file-name test by which `extract` sends a source to the
 * hand-written tar reader instead of the ZIP library.
 */
module ZipSwift {
  import opened Wrappers
  import opened Bytes
  import opened Text

  /** The local-file-header signature "PK\x03\x04" that starts every ZIP file (PKWARE APPNOTE.TXT, section 4.3.7). */
  const ZipSignature: seq<byte> := [0x50, 0x4B, 0x03, 0x04]

  /**
   * `isValidZip`: `contents` is None when the file cannot be read. The test
   * compares the first four bytes one by one, after checking there are four.
   */
  function IsValidZip(contents: Option<seq<byte>>): (r: bool)
    ensures r <==> contents.Some? && |contents.value| >= |ZipSignature| && contents.value[..|ZipSignature|] == ZipSignature
  {
    match contents
    case None => false
    case Some(data) =>
      && |data| >= 4
      && data[0] == 0x50
      && data[1] == 0x4B
      && data[2] == 0x03
      && data[3] == 0x04
  }

  /** Only the first four bytes matter: whatever follows the signature, the file is accepted. */
  lemma ValidZipIgnoresTail(head: seq<byte>, tail: seq<byte>)
    requires |head| >= |ZipSignature|
    ensures IsValidZip(Some(head + tail)) == IsValidZip(Some(head))
  {
    assert (head + tail)[..|ZipSignature|] == head[..|ZipSignature|];
  }

  /** A file shorter than the signature, or unreadable, is never a valid ZIP. */
  lemma ShortOrUnreadableIsNotZip(contents: Option<seq<byte>>)
    requires contents.None? || |contents.value| < 4
    ensures !IsValidZip(contents)
  {
  }

  // ---------------------------------------------------------------------------
  // Routing in `extract`
  // ---------------------------------------------------------------------------

  /** The name suffixes `extract` tests, after the extension test for "tar". */
  const TarNameSuffixes: seq<string> := [".tgz", ".tar.gz", ".tbz", ".tar.bz2", ".txz", ".tar.xz", ".zst", ".tar.zst"]

  /**
   * The test in `extract`: the lower-cased path extension is "tar", or the
   * lower-cased last path component ends with one of the tar-family suffixes.
   */
  predicate IsTarName(path: string)
  {
    var ext := Lower(PathExtension(LastComponent(path)));
    var filename := Lower(LastComponent(path));
    || ext == "tar"
    || EndsWith(filename, ".tgz")
    || EndsWith(filename, ".tar.gz")
    || EndsWith(filename, ".tbz")
    || EndsWith(filename, ".tar.bz2")
    || EndsWith(filename, ".txz")
    || EndsWith(filename, ".tar.xz")
    || EndsWith(filename, ".zst")
    || EndsWith(filename, ".tar.zst")
  }

  /** Every suffix that routes a name to the tar reader; ".tar" only after at least one character. */
  predicate HasTarSuffix(name: string)
  {
    (EndsWith(name, ".tar") && |name| > 4) || exists i :: 0 <= i < |TarNameSuffixes| && EndsWith(name, TarNameSuffixes[i])
  }

  /**
   * The routing test is a plain suffix test on the lower-cased last path
   * component: the extension test for "tar" is the suffix ".tar".
   */
  lemma TarRoutingIsSuffixTest(path: string)
    ensures IsTarName(path) <==> HasTarSuffix(Lower(LastComponent(path)))
  {
    hide EndsWith, Lower, PathExtension, LastComponent;
    var name := LastComponent(path);
    PathExtensionOfLower(name);
    ExtensionTarIffSuffix(Lower(name));
    var filename := Lower(name);
    if HasTarSuffix(filename) && !(EndsWith(filename, ".tar") && |filename| > 4) {
      var i :| 0 <= i < |TarNameSuffixes| && EndsWith(filename, TarNameSuffixes[i]);
      assert i in {0, 1, 2, 3, 4, 5, 6, 7};
    }
    if EndsWith(filename, ".tgz") { assert EndsWith(filename, TarNameSuffixes[0]); }
    if EndsWith(filename, ".tar.gz") { assert EndsWith(filename, TarNameSuffixes[1]); }
    if EndsWith(filename, ".tbz") { assert EndsWith(filename, TarNameSuffixes[2]); }
    if EndsWith(filename, ".tar.bz2") { assert EndsWith(filename, TarNameSuffixes[3]); }
    if EndsWith(filename, ".txz") { assert EndsWith(filename, TarNameSuffixes[4]); }
    if EndsWith(filename, ".tar.xz") { assert EndsWith(filename, TarNameSuffixes[5]); }
    if EndsWith(filename, ".zst") { assert EndsWith(filename, TarNameSuffixes[6]); }
    if EndsWith(filename, ".tar.zst") { assert EndsWith(filename, TarNameSuffixes[7]); }
  }

  /** Upper or lower case in the path makes no difference to the routing. */
  lemma TarRoutingIgnoresCase(p: string, q: string)
    requires Lower(p) == Lower(q)
    ensures IsTarName(p) == IsTarName(q)
  {
    TarRoutingIsSuffixTest(p);
    TarRoutingIsSuffixTest(q);
    LowerCommutesWithLastComponent(p);
    LowerCommutesWithLastComponent(q);
  }

  /** The last test is dead: a name ending in ".tar.zst" already ends in ".zst". */
  lemma TarZstIsSubsumed(filename: string)
    requires EndsWith(filename, ".tar.zst")
    ensures EndsWith(filename, ".zst")
  {
    assert filename[|filename| - 4..] == filename[|filename| - 8..][4..];
  }

  /** Where `extract` sends a source that exists. */
  datatype Route = ToUntar | ToUnzip

  /**
   * Why `extract` gives up before any archive work: the source is missing, or
   * the destination directory was missing and `createDirectory` threw (its
   * error is Foundation's, so only the path is kept).
   */
  datatype ExtractError = SourceMissing(message: string) | DestinationNotCreated(path: string)

  /**
   * The decision `extract` takes before any archive work. A missing source is
   * an error whose message names its path; a missing destination is created
   * with its intermediate directories, `destinationCreated` being whether that
   * succeeded; then the name decides between the tar reader and the ZIP library.
   */
  function ExtractRoute(sourcePath: string, destPath: string, sourceExists: bool,
                        destExists: bool, destinationCreated: bool): (r: Result<Route, ExtractError>)
    ensures r.Err? <==> !sourceExists || (!destExists && !destinationCreated)
    ensures !sourceExists ==> r == Err(SourceMissing("Source file does not exist at: " + sourcePath))
    ensures sourceExists && !destExists && !destinationCreated ==> r == Err(DestinationNotCreated(destPath))
    ensures r == Ok(ToUntar) <==>
      sourceExists && (destExists || destinationCreated) && HasTarSuffix(Lower(LastComponent(sourcePath)))
  {
    TarRoutingIsSuffixTest(sourcePath);
    if !sourceExists then Err(SourceMissing("Source file does not exist at: " + sourcePath))
    else if !destExists && !destinationCreated then Err(DestinationNotCreated(destPath))
    else if IsTarName(sourcePath) then Ok(ToUntar)
    else Ok(ToUnzip)
  }

  /** A source whose last component ends in ".zip" goes to the ZIP library once the destination is there. */
  lemma ZipNameGoesToUnzip(sourcePath: string, destPath: string, destExists: bool, destinationCreated: bool)
    requires EndsWith(Lower(LastComponent(sourcePath)), ".zip")
    requires destExists || destinationCreated
    ensures ExtractRoute(sourcePath, destPath, true, destExists, destinationCreated) == Ok(ToUnzip)
  {
    hide Lower, LastComponent;
    var name := Lower(LastComponent(sourcePath));
    EndsWithAtMostOne(name, ".zip", ".tar", 1);
    forall i | 0 <= i < |TarNameSuffixes| ensures !EndsWith(name, TarNameSuffixes[i]) {
      EndsWithAtMostOne(name, ".zip", TarNameSuffixes[i], 1);
    }
  }

  /**
   * A source named just ".tar" (in any case) has no extension, only a hidden
   * file name, and no other suffix matches: it goes to the ZIP library.
   */
  lemma HiddenTarNameGoesToUnzip(sourcePath: string, destPath: string, destExists: bool, destinationCreated: bool)
    requires Lower(LastComponent(sourcePath)) == ".tar"
    requires destExists || destinationCreated
    ensures ExtractRoute(sourcePath, destPath, true, destExists, destinationCreated) == Ok(ToUnzip)
  {
    hide Lower, LastComponent;
    var name := Lower(LastComponent(sourcePath));
    forall i | 0 <= i < |TarNameSuffixes| ensures !EndsWith(name, TarNameSuffixes[i]) {
      if |TarNameSuffixes[i]| <= 4 {
        EndsWithAtMostOne(name, ".tar", TarNameSuffixes[i], 1);
      }
    }
  }
}
