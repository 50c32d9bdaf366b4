/**
 * The decision logic of the Android `ZipPlugin`: archive-type detection from
 * a file name, the compression-level and encryption options handed to the ZIP
 * library, the type dispatch of `compress` and `extract`, and the recursive
 * file count of `countFilesInDirectory`.
 */
module AndroidZip {
  import opened Wrappers
  import opened Text
  import ZipSwift

  // ---------------------------------------------------------------------------
  // Archive types
  // ---------------------------------------------------------------------------

  /** The five archive types both dispatch switches accept. */
  datatype ArchiveType = Zip | Tar | TarGz | TarBz2 | TarXz

  const TypeNames: set<string> := {"zip", "tar", "tar.gz", "tar.bz2", "tar.xz"}

  /** The lower-case name under which each type appears in the switches. */
  function TypeName(t: ArchiveType): (r: string)
    ensures r in TypeNames
    ensures Lower(r) == r
  {
    match t
    case Zip => "zip"
    case Tar => "tar"
    case TarGz => "tar.gz"
    case TarBz2 => "tar.bz2"
    case TarXz => "tar.xz"
  }

  /**
   * `switch (type.toLowerCase())`: the lower-cased type selects a case, and
   * anything outside the five names falls to `default`.
   */
  function ParseType(archiveType: string): (r: Option<ArchiveType>)
    ensures r.Some? <==> Lower(archiveType) in TypeNames
    ensures r.Some? ==> TypeName(r.value) == Lower(archiveType)
  {
    var t := Lower(archiveType);
    if t == "zip" then Some(Zip)
    else if t == "tar" then Some(Tar)
    else if t == "tar.gz" then Some(TarGz)
    else if t == "tar.bz2" then Some(TarBz2)
    else if t == "tar.xz" then Some(TarXz)
    else None
  }

  /** Every type is accepted under its own name, and names no two types alike. */
  lemma ParseTypeName(t: ArchiveType)
    ensures ParseType(TypeName(t)) == Some(t)
  {
  }

  /** Upper or lower case in the type argument makes no difference. */
  lemma ParseTypeIgnoresCase(a: string, b: string)
    requires Lower(a) == Lower(b)
    ensures ParseType(a) == ParseType(b)
  {
  }

  // ---------------------------------------------------------------------------
  // detectArchiveType
  // ---------------------------------------------------------------------------

  /**
   * `detectArchiveType`: the lower-cased file name is matched against the
   * compound suffixes first, then ".tar", then ".zip"; the default is "zip".
   */
  function DetectArchiveType(filePath: string): (r: string)
    ensures r in TypeNames
  {
    var fileName := Lower(LastComponent(filePath));
    if EndsWith(fileName, ".tar.gz") || EndsWith(fileName, ".tgz") then "tar.gz"
    else if EndsWith(fileName, ".tar.bz2") || EndsWith(fileName, ".tbz2") then "tar.bz2"
    else if EndsWith(fileName, ".tar.xz") || EndsWith(fileName, ".txz") then "tar.xz"
    else if EndsWith(fileName, ".tar") then "tar"
    else if EndsWith(fileName, ".zip") then "zip"
    else "zip"
  }

  /** The suffixes that select each tar variant. */
  predicate GzName(name: string) { EndsWith(name, ".tar.gz") || EndsWith(name, ".tgz") }
  predicate Bz2Name(name: string) { EndsWith(name, ".tar.bz2") || EndsWith(name, ".tbz2") }
  predicate XzName(name: string) { EndsWith(name, ".tar.xz") || EndsWith(name, ".txz") }
  predicate PlainTarName(name: string) { EndsWith(name, ".tar") }

  /** No name ends in suffixes of two different groups. */
  lemma SuffixGroupsAreDisjoint(name: string)
    ensures !(GzName(name) && Bz2Name(name))
    ensures !(GzName(name) && XzName(name))
    ensures !(Bz2Name(name) && XzName(name))
    ensures PlainTarName(name) ==> !GzName(name) && !Bz2Name(name) && !XzName(name)
  {
    hide EndsWith;
    EndsWithAtMostOne(name, ".tar.gz", ".tar.bz2", 1);
    EndsWithAtMostOne(name, ".tar.gz", ".tbz2", 1);
    EndsWithAtMostOne(name, ".tgz", ".tar.bz2", 1);
    EndsWithAtMostOne(name, ".tgz", ".tbz2", 1);
    EndsWithAtMostOne(name, ".tar.gz", ".tar.xz", 2);
    EndsWithAtMostOne(name, ".tar.gz", ".txz", 2);
    EndsWithAtMostOne(name, ".tgz", ".tar.xz", 2);
    EndsWithAtMostOne(name, ".tgz", ".txz", 2);
    EndsWithAtMostOne(name, ".tar.bz2", ".tar.xz", 1);
    EndsWithAtMostOne(name, ".tar.bz2", ".txz", 1);
    EndsWithAtMostOne(name, ".tbz2", ".tar.xz", 1);
    EndsWithAtMostOne(name, ".tbz2", ".txz", 1);
    EndsWithAtMostOne(name, ".tar", ".tar.gz", 1);
    EndsWithAtMostOne(name, ".tar", ".tgz", 1);
    EndsWithAtMostOne(name, ".tar", ".tar.bz2", 1);
    EndsWithAtMostOne(name, ".tar", ".tbz2", 1);
    EndsWithAtMostOne(name, ".tar", ".tar.xz", 1);
    EndsWithAtMostOne(name, ".tar", ".txz", 1);
  }

  /**
   * The whole suffix table, each row in both directions: since no name ends in
   * suffixes of two groups, the order of the tests never decides the result,
   * and every name outside the tar suffixes, ".zip" or not, is "zip".
   */
  lemma DetectArchiveTypeBySuffix(filePath: string, name: string)
    requires name == Lower(LastComponent(filePath))
    ensures DetectArchiveType(filePath) == "tar.gz" <==> GzName(name)
    ensures DetectArchiveType(filePath) == "tar.bz2" <==> Bz2Name(name)
    ensures DetectArchiveType(filePath) == "tar.xz" <==> XzName(name)
    ensures DetectArchiveType(filePath) == "tar" <==> PlainTarName(name)
    ensures DetectArchiveType(filePath) == "zip" <==> !GzName(name) && !Bz2Name(name) && !XzName(name) && !PlainTarName(name)
  {
    SuffixGroupsAreDisjoint(name);
  }

  /** Detection depends only on the lower-cased path. */
  lemma DetectArchiveTypeIgnoresCase(p: string, q: string)
    requires Lower(p) == Lower(q)
    ensures DetectArchiveType(p) == DetectArchiveType(q)
  {
    hide Lower, LastComponent, EndsWith;
    LowerCommutesWithLastComponent(p);
    LowerCommutesWithLastComponent(q);
  }

  /** A detected type is always one that the dispatch accepts. */
  lemma DetectedTypeIsSupported(filePath: string)
    ensures ParseType(DetectArchiveType(filePath)).Some?
  {
    var r := DetectArchiveType(filePath);
    assert Lower(r) == r;
  }

  /**
   * The two platforms disagree on ".tbz": the iOS `extract` routes it to its
   * tar reader, while the Android detection falls back to "zip".
   */
  lemma TbzNameDisagreesAcrossPlatforms(path: string, name: string, dest: string)
    requires name == Lower(LastComponent(path)) && EndsWith(name, ".tbz")
    ensures ZipSwift.ExtractRoute(path, dest, true, true, false) == Ok(ZipSwift.ToUntar)
    ensures DetectArchiveType(path) == "zip"
  {
    hide EndsWith, Lower, LastComponent, DetectArchiveType, ZipSwift.ExtractRoute, ZipSwift.IsTarName;
    DetectArchiveTypeBySuffix(path, name);
    ZipSwift.TarRoutingIsSuffixTest(path);
    assert EndsWith(name, ZipSwift.TarNameSuffixes[2]);
    EndsWithAtMostOne(name, ".tbz", ".tar.gz", 2);
    EndsWithAtMostOne(name, ".tbz", ".tgz", 2);
    EndsWithAtMostOne(name, ".tbz", ".tar.bz2", 1);
    EndsWithAtMostOne(name, ".tbz", ".tbz2", 1);
    EndsWithAtMostOne(name, ".tbz", ".tar.xz", 2);
    EndsWithAtMostOne(name, ".tbz", ".txz", 2);
    EndsWithAtMostOne(name, ".tbz", ".tar", 1);
  }

  /**
   * The two platforms disagree on ".tbz2" the other way round: the iOS
   * `extract` hands it to the ZIP library, the Android detection reads it as
   * tar.bz2.
   */
  lemma Tbz2NameDisagreesAcrossPlatforms(path: string, name: string, dest: string)
    requires name == Lower(LastComponent(path)) && EndsWith(name, ".tbz2")
    ensures ZipSwift.ExtractRoute(path, dest, true, true, false) == Ok(ZipSwift.ToUnzip)
    ensures DetectArchiveType(path) == "tar.bz2"
  {
    hide EndsWith, Lower, LastComponent, DetectArchiveType, ZipSwift.ExtractRoute, ZipSwift.IsTarName;
    DetectArchiveTypeBySuffix(path, name);
    ZipSwift.TarRoutingIsSuffixTest(path);
    EndsWithAtMostOne(name, ".tbz2", ".tar", 1);
    forall i | 0 <= i < |ZipSwift.TarNameSuffixes| ensures !EndsWith(name, ZipSwift.TarNameSuffixes[i]) {
      EndsWithAtMostOne(name, ".tbz2", ZipSwift.TarNameSuffixes[i], if i == 3 then 4 else 1);
    }
    var route := ZipSwift.ExtractRoute(path, dest, true, true, false);
    assert route.Ok? && route != Ok(ZipSwift.ToUntar);
    assert route.value.ToUnzip?;
  }

  /**
   * A file named just ".tar": the iOS `extract` sees no extension and hands it
   * to the ZIP library, the Android detection reads it as plain tar.
   */
  lemma HiddenTarNameDisagreesAcrossPlatforms(path: string, dest: string)
    requires Lower(LastComponent(path)) == ".tar"
    ensures ZipSwift.ExtractRoute(path, dest, true, true, false) == Ok(ZipSwift.ToUnzip)
    ensures DetectArchiveType(path) == "tar"
  {
    hide Lower, LastComponent, ZipSwift.ExtractRoute;
    ZipSwift.HiddenTarNameGoesToUnzip(path, dest, true, false);
    DetectArchiveTypeBySuffix(path, Lower(LastComponent(path)));
  }

  // ---------------------------------------------------------------------------
  // ZIP options in compressZip
  // ---------------------------------------------------------------------------

  datatype CompressionLevel = Fastest | Normal | Maximum

  /** The `compressionLevel` argument when the call leaves it out. */
  const DefaultCompressionLevel: int := 6

  /** The switch on the integer level: only 1 and 9 are special. */
  function LevelFor(level: int): (r: CompressionLevel)
    ensures r == Fastest <==> level == 1
    ensures r == Maximum <==> level == 9
    ensures r == Normal <==> level != 1 && level != 9
  {
    if level == 1 then Fastest
    else if level == 9 then Maximum
    else Normal
  }

  /** The level used when the call gives none, and any out-of-range level, is NORMAL. */
  lemma DefaultAndOutOfRangeLevelsAreNormal(level: int)
    requires level == DefaultCompressionLevel || level < 1 || level > 9
    ensures LevelFor(level) == Normal
  {
  }

  datatype EncryptionMethod = ZipStandard

  datatype ZipParameters = ZipParameters(level: CompressionLevel, encryption: Option<EncryptionMethod>)

  /**
   * The parameters `compressZip` builds: the mapped level, and ZIP standard
   * encryption exactly when a non-empty password is given.
   */
  function ZipParametersFor(compressionLevel: int, password: Option<string>): (r: ZipParameters)
    ensures r.level == LevelFor(compressionLevel)
    ensures r.encryption.Some? <==> password.Some? && password.value != ""
    ensures r.encryption.Some? ==> r.encryption.value == ZipStandard
  {
    var encryption := if password.Some? && password.value != "" then Some(ZipStandard) else None;
    ZipParameters(LevelFor(compressionLevel), encryption)
  }

  // ---------------------------------------------------------------------------
  // Dispatch in compress and extract
  // ---------------------------------------------------------------------------

  /** The stream codec the tar helpers are given. */
  datatype Codec = Gzip | Bzip2 | Xz

  /** The codec each tar type is handed to `compressTar`/`extractTar` with; none for ZIP. */
  function TarCodec(t: ArchiveType): (r: Option<Codec>)
    ensures r.Some? ==> t != Zip && t != Tar
  {
    match t
    case Zip => None
    case Tar => None
    case TarGz => Some(Gzip)
    case TarBz2 => Some(Bzip2)
    case TarXz => Some(Xz)
  }

  /** The helper a dispatch calls. */
  datatype Job = ZipJob | TarJob(compression: Option<Codec>)

  function JobFor(t: ArchiveType): (r: Job)
    ensures r.ZipJob? <==> t == Zip
    ensures r.TarJob? ==> r.compression == TarCodec(t)
  {
    if t == Zip then ZipJob else TarJob(TarCodec(t))
  }

  /** Each type reaches a different helper call, so the dispatch loses nothing. */
  lemma JobForIsInjective(a: ArchiveType, b: ArchiveType)
    requires JobFor(a) == JobFor(b)
    ensures a == b
  {
  }

  /** The arguments of a `compress` call; an absent argument is None. */
  datatype CompressRequest = CompressRequest(
    source: Option<string>,
    destination: Option<string>,
    archiveType: Option<string>,
    password: Option<string>,
    compressionLevel: Option<int>)

  /** The helper call `compress` makes, and the type it reports back. */
  datatype CompressPlan = CompressPlan(
    sourcePath: string,
    destPath: string,
    archiveType: ArchiveType,
    job: Job,
    parameters: ZipParameters,
    reportedType: string)

  const CompressArgumentsMissing := "Source, destination, and type are required"

  function UnsupportedType(archiveType: string): string
  {
    "Unsupported archive type: " + archiveType
  }

  function CompressSourceMissing(sourcePath: string): string
  {
    "Source file/directory does not exist: " + sourcePath
  }

  function ExtractSourceMissing(sourcePath: string): string
  {
    "Source archive file does not exist: " + sourcePath
  }

  /**
   * `compress` up to the helper call. `absolute` stands for `getAbsolutePath`
   * and `isPresent` for `File.exists`; the rejection messages are those of
   * `call.reject`.
   */
  function Compress(req: CompressRequest, absolute: string -> string, isPresent: string -> bool): (r: Result<CompressPlan, string>)
    ensures req.source.None? || req.destination.None? || req.archiveType.None? ==> r == Err(CompressArgumentsMissing)
    ensures r.Ok? <==>
              && req.source.Some? && req.destination.Some? && req.archiveType.Some?
              && isPresent(absolute(req.source.value))
              && Lower(req.archiveType.value) in TypeNames
    ensures r.Ok? ==>
              && r.value.sourcePath == absolute(req.source.value)
              && r.value.destPath == absolute(req.destination.value)
              && r.value.reportedType == req.archiveType.value
              && TypeName(r.value.archiveType) == Lower(r.value.reportedType)
              && r.value.job == JobFor(r.value.archiveType)
              && r.value.parameters == ZipParametersFor(
                   if req.compressionLevel.Some? then req.compressionLevel.value else DefaultCompressionLevel, req.password)
    ensures req.source.Some? && req.destination.Some? && req.archiveType.Some? && !isPresent(absolute(req.source.value)) ==>
              r == Err(CompressSourceMissing(absolute(req.source.value)))
    ensures r.Err? && r != Err(CompressArgumentsMissing) && isPresent(absolute(req.source.value)) ==>
              r == Err(UnsupportedType(req.archiveType.value))
  {
    if req.source.None? || req.destination.None? || req.archiveType.None? then
      Err(CompressArgumentsMissing)
    else
      var sourcePath := absolute(req.source.value);
      var destPath := absolute(req.destination.value);
      if !isPresent(sourcePath) then
        Err(CompressSourceMissing(sourcePath))
      else
        var level := if req.compressionLevel.Some? then req.compressionLevel.value else DefaultCompressionLevel;
        match ParseType(req.archiveType.value)
        case None => Err(UnsupportedType(req.archiveType.value))
        case Some(t) =>
          Ok(CompressPlan(sourcePath, destPath, t, JobFor(t), ZipParametersFor(level, req.password), req.archiveType.value))
  }

  /** The arguments of an `extract` call; the type may be left out. */
  datatype ExtractRequest = ExtractRequest(
    source: Option<string>,
    destination: Option<string>,
    archiveType: Option<string>,
    password: Option<string>)

  datatype ExtractPlan = ExtractPlan(
    sourcePath: string,
    destPath: string,
    archiveType: ArchiveType,
    job: Job,
    password: Option<string>,
    reportedType: string)

  const ExtractArgumentsMissing := "Source and destination paths are required"

  /**
   * `extract` up to the helper call: when no type is given it is detected
   * from the resolved source path, and the type reported back is the one
   * given or detected, in its original case.
   */
  function Extract(req: ExtractRequest, absolute: string -> string, isPresent: string -> bool): (r: Result<ExtractPlan, string>)
    ensures req.source.None? || req.destination.None? ==> r == Err(ExtractArgumentsMissing)
    ensures r.Ok? <==>
              && req.source.Some? && req.destination.Some?
              && isPresent(absolute(req.source.value))
              && (req.archiveType.None? || Lower(req.archiveType.value) in TypeNames)
    ensures r.Ok? ==>
              && r.value.sourcePath == absolute(req.source.value)
              && r.value.destPath == absolute(req.destination.value)
              && r.value.reportedType ==
                   (if req.archiveType.Some? then req.archiveType.value else DetectArchiveType(r.value.sourcePath))
              && TypeName(r.value.archiveType) == Lower(r.value.reportedType)
              && r.value.job == JobFor(r.value.archiveType)
              && r.value.password == req.password
    ensures req.source.Some? && req.destination.Some? && !isPresent(absolute(req.source.value)) ==>
              r == Err(ExtractSourceMissing(absolute(req.source.value)))
    ensures r.Err? && r != Err(ExtractArgumentsMissing) && isPresent(absolute(req.source.value)) ==>
              req.archiveType.Some? && r == Err(UnsupportedType(req.archiveType.value))
  {
    if req.source.None? || req.destination.None? then
      Err(ExtractArgumentsMissing)
    else
      var sourcePath := absolute(req.source.value);
      var destPath := absolute(req.destination.value);
      if !isPresent(sourcePath) then
        Err(ExtractSourceMissing(sourcePath))
      else
        var archiveType := if req.archiveType.Some? then req.archiveType.value else DetectArchiveType(sourcePath);
        DetectedTypeIsSupported(sourcePath);
        match ParseType(archiveType)
        case None => Err(UnsupportedType(archiveType))
        case Some(t) => Ok(ExtractPlan(sourcePath, destPath, t, JobFor(t), req.password, archiveType))
  }

  /** `compress` and `extract` accept and reject the same type arguments, and send each to the same helper. */
  lemma DispatchTablesAgree(
    source: string, destination: string, archiveType: string, password: Option<string>, level: Option<int>,
    absolute: string -> string, isPresent: string -> bool)
    requires isPresent(absolute(source))
    ensures Compress(CompressRequest(Some(source), Some(destination), Some(archiveType), password, level), absolute, isPresent).Ok?
        <==> Extract(ExtractRequest(Some(source), Some(destination), Some(archiveType), password), absolute, isPresent).Ok?
    ensures Compress(CompressRequest(Some(source), Some(destination), Some(archiveType), password, level), absolute, isPresent).Ok? ==>
              Compress(CompressRequest(Some(source), Some(destination), Some(archiveType), password, level), absolute, isPresent).value.job
              == Extract(ExtractRequest(Some(source), Some(destination), Some(archiveType), password), absolute, isPresent).value.job
  {
  }

  /** An `extract` call without a type never fails on the type. */
  lemma ExtractWithoutTypeSucceeds(req: ExtractRequest, absolute: string -> string, isPresent: string -> bool)
    requires req.source.Some? && req.destination.Some? && req.archiveType.None?
    requires isPresent(absolute(req.source.value))
    ensures Extract(req, absolute, isPresent).Ok?
  {
  }

  // ---------------------------------------------------------------------------
  // countFilesInDirectory
  // ---------------------------------------------------------------------------

  /**
   * A file-system node as `java.io.File` sees it: a regular file, a directory
   * whose listing may fail (`listFiles()` returns null), or something that is
   * neither (a broken link, a device).
   */
  datatype Node =
    | RegularFile(name: string)
    | Directory(name: string, listable: bool, children: seq<Node>)
    | Other(name: string)

  /** The regular files beneath a node, at every depth; the specification of the count. */
  function FilesBelow(n: Node): nat
    decreases n, 1
  {
    if n.Directory? && n.listable then FilesAmong(n.children) else 0
  }

  /** Regular files among `ns` and beneath the directories among them. */
  function FilesAmong(ns: seq<Node>): nat
    decreases ns, 0
  {
    if ns == [] then 0
    else FilesAmong(ns[..|ns| - 1]) + (if ns[|ns| - 1].RegularFile? then 1 else FilesBelow(ns[|ns| - 1]))
  }

  /**
   * `countFilesInDirectory`: a loop over the listing that adds one per
   * regular file and recurses into each directory.
   */
  method CountFilesInDirectory(directory: Node) returns (count: int)
    ensures count == FilesBelow(directory)
    decreases directory
  {
    count := 0;
    if directory.Directory? && directory.listable {
      var files := directory.children;
      var i := 0;
      while i < |files|
        invariant 0 <= i <= |files|
        invariant count == FilesAmong(files[..i])
      {
        var file := files[i];
        assert files[..i + 1][..i] == files[..i];
        if file.RegularFile? {
          count := count + 1;
        } else if file.Directory? {
          var below := CountFilesInDirectory(file);
          count := count + below;
        }
        i := i + 1;
      }
      assert files[..|files|] == files;
    }
  }

  /**
   * `listFiles`: the absolute paths of the regular files beneath a node, in
   * listing order; `parent` is the node's own path.
   */
  function ListFiles(n: Node, parent: string): (r: seq<string>)
    ensures forall i :: 0 <= i < |r| ==> parent + "/" <= r[i]
    decreases n, 1
  {
    if n.Directory? && n.listable then ListFilesAmong(n.children, parent) else []
  }

  function ListFilesAmong(ns: seq<Node>, parent: string): (r: seq<string>)
    ensures forall i :: 0 <= i < |r| ==> parent + "/" <= r[i]
    decreases ns, 0
  {
    if ns == [] then []
    else
      var last := ns[|ns| - 1];
      var path := parent + "/" + last.name;
      ListFilesAmong(ns[..|ns| - 1], parent) + (if last.RegularFile? then [path] else ListFiles(last, path))
  }

  /**
   * `p` is the path of a regular file beneath `n`, reached through listable
   * directories, when `n`'s own path is `parent`: the reference the listing
   * is checked against.
   */
  predicate FileAt(n: Node, parent: string, p: string)
    decreases n, 0
  {
    n.Directory? && n.listable && exists i :: 0 <= i < |n.children| && ChildFileAt(n.children[i], parent, p)
  }

  /** `p` is the path of the child `c` of the directory at `parent`, or of a regular file beneath it. */
  predicate ChildFileAt(c: Node, parent: string, p: string)
    decreases c, 1
  {
    if c.RegularFile? then p == parent + "/" + c.name else FileAt(c, parent + "/" + c.name, p)
  }

  /** The listing holds exactly the paths of the regular files beneath the node. */
  lemma {:induction false} ListFilesMembership(n: Node, parent: string, p: string)
    ensures p in ListFiles(n, parent) <==> FileAt(n, parent, p)
    decreases n, 1
  {
    if n.Directory? && n.listable {
      ListFilesAmongMembership(n.children, parent, p);
    }
  }

  lemma {:induction false} ListFilesAmongMembership(ns: seq<Node>, parent: string, p: string)
    ensures p in ListFilesAmong(ns, parent) <==> exists i :: 0 <= i < |ns| && ChildFileAt(ns[i], parent, p)
    decreases ns, 0
  {
    if ns != [] {
      var init, last := ns[..|ns| - 1], ns[|ns| - 1];
      var path := parent + "/" + last.name;
      ListFilesAmongMembership(init, parent, p);
      if !last.RegularFile? {
        ListFilesMembership(last, path, p);
      }
      assert forall i :: 0 <= i < |init| ==> init[i] == ns[i];
      if exists i :: 0 <= i < |ns| && ChildFileAt(ns[i], parent, p) {
        var i :| 0 <= i < |ns| && ChildFileAt(ns[i], parent, p);
        if i < |init| {
          assert ChildFileAt(init[i], parent, p);
        }
      }
    }
  }

  /** The count and the listing walk the same tree: one path per counted file. */
  lemma {:induction false} CountMatchesListing(n: Node, parent: string)
    ensures |ListFiles(n, parent)| == FilesBelow(n)
    decreases n, 1
  {
    if n.Directory? && n.listable {
      CountMatchesListingAmong(n.children, parent);
    }
  }

  lemma {:induction false} CountMatchesListingAmong(ns: seq<Node>, parent: string)
    ensures |ListFilesAmong(ns, parent)| == FilesAmong(ns)
    decreases ns, 0
  {
    if ns != [] {
      var last := ns[|ns| - 1];
      CountMatchesListingAmong(ns[..|ns| - 1], parent);
      if !last.RegularFile? {
        CountMatchesListing(last, parent + "/" + last.name);
      }
    }
  }

  /** A directory adds nothing for itself: an empty subdirectory leaves the count unchanged. */
  lemma EmptyDirectoryCountsNothing(name: string, children: seq<Node>, sub: string, listable: bool)
    ensures FilesBelow(Directory(name, true, children + [Directory(sub, listable, [])]))
         == FilesBelow(Directory(name, true, children))
  {
    assert (children + [Directory(sub, listable, [])])[..|children|] == children;
    assert FilesBelow(Directory(sub, listable, [])) == 0;
  }

  /** A regular file adds exactly one, however deep the directory holding it. */
  lemma FileCountsOnce(name: string, children: seq<Node>, file: string)
    ensures FilesBelow(Directory(name, true, children + [RegularFile(file)]))
         == FilesBelow(Directory(name, true, children)) + 1
  {
  }

  /**
   * The count `compressZip` returns: the file count of a directory source, 1
   * for any other source.
   */
  method CompressZipFileCount(source: Node) returns (count: int)
    ensures source.Directory? ==> count == FilesBelow(source)
    ensures !source.Directory? ==> count == 1
  {
    if source.Directory? {
      count := CountFilesInDirectory(source);
    } else {
      count := 1;
    }
  }
}
