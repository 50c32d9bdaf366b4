# Archive decisions and the tar reader of the Capacitor zip plugin

This project models the parts of the plugin's two native back ends that the plugin writes itself, as opposed to handing them to a compression library:

- **iOS `Zip`** (`ios/Sources/ZipPlugin/Zip.swift`):
  - the tar extractor `untar`: a `while true` loop over a file handle. It reads 512-byte header blocks and stops on a short read or on an all-zero block. It takes the entry name, the octal size and the type flag from fixed offsets, then creates a directory or writes a file and skips the padding to the next block boundary;
  - the `isValidZip` signature test;
  - the file-name test by which `extract` sends a source to `untar` instead of the ZIP library.
- **Android `ZipPlugin`** (`android/src/main/java/com/aga/zipper/plugin/zip/ZipPlugin.java`):
  - `detectArchiveType`;
  - the compression-level and encryption options built by `compressZip`;
  - the type dispatch of `compress` and `extract`;
  - `countFilesInDirectory`, with the `listFiles` walk that mirrors it.

Modules:

- `Wrappers`: `Option` and `Result`.
- `Bytes`: the `byte` type, NUL-terminated prefixes and ASCII decoding.
- `Text`: ASCII lower-casing, suffix tests, last path component and extension.
- `TarHeader`: the pure decoders of one 512-byte header, the padding formula, and a header writer used for round trips.
- `TarExtract`: the extractor itself.
  - The filesystem is the value `FsState`.
  - `FileHandle` and `FileManager` are classes whose methods change a cursor or the filesystem.
  - `HeaderStep`/`BlockStep` are one pass of the loop on the byte sequence, and `Run` is the whole loop.
  - The method `Untar` is proved to leave exactly the state `Run` describes.
- `TarProperties`: what the loop does on each kind of header, and its split into a pure parse (`Scan`) followed by materialisation (`ApplyAll`).
- `TarRoundTrip`: an archive written from a list of entries is read back as exactly those entries.
- `ZipSwift`: `isValidZip` and the routing test in `extract`.
- `AndroidZip`: detection, options, dispatch and file counting on Android.

## Model

| member | source | states |
|---|---|---|
| Bytes.Zeros | ios/Sources/ZipPlugin/Zip.swift:131 | the all-zero block of a given length |
| Bytes.PrefixUntilNul | ios/Sources/ZipPlugin/Zip.swift:147 | `prefix(while: { $0 != 0 })`: a NUL-free prefix of the input that stops at the first NUL |
| Bytes.PrefixUntilNulOfTerminated | ios/Sources/ZipPlugin/Zip.swift:147 | a NUL-free text followed by a NUL (or nothing) yields exactly that text |
| Bytes.DecodeAscii | ios/Sources/ZipPlugin/Zip.swift:147 | ASCII decoding succeeds exactly when every byte is below 0x80, and maps byte to character one for one |
| Bytes.EncodeAscii | ios/Sources/ZipPlugin/Zip.swift:147 | the ASCII bytes of an ASCII text, one per character |
| Bytes.AsciiRoundTrip | ios/Sources/ZipPlugin/Zip.swift:147 | decoding the encoding of an ASCII text gives the text back |
| TarHeader.ZeroBlockIsAllZero | ios/Sources/ZipPlugin/Zip.swift:131 | the front-to-back zero test holds exactly when every byte of the block is 0 |
| TarHeader.ZeroBlockIsZeros | ios/Sources/ZipPlugin/Zip.swift:131 | a block is a zero block exactly when it equals the zero block of its length |
| TarHeader.DecodeName | ios/Sources/ZipPlugin/Zip.swift:146-147 | the name is decoded exactly when bytes [0,100) up to the first NUL are ASCII, and is at most 100 characters |
| TarHeader.DecodedNameIsFieldPrefix | ios/Sources/ZipPlugin/Zip.swift:146-147 | a decoded name has no NUL, repeats the header's leading bytes, and is followed by a NUL when shorter than 100 |
| TarHeader.DropLeadingWhitespace | ios/Sources/ZipPlugin/Zip.swift:152 | removes exactly the leading run of whitespace |
| TarHeader.DropTrailingWhitespace | ios/Sources/ZipPlugin/Zip.swift:152 | removes exactly the trailing run of whitespace |
| TarHeader.Trim | ios/Sources/ZipPlugin/Zip.swift:152 | the result neither starts nor ends with whitespace, and a text without outer whitespace is unchanged |
| TarHeader.DigitValue | ios/Sources/ZipPlugin/Zip.swift:153 | an octal digit's value is below 8 |
| TarHeader.Pow8 | ios/Sources/ZipPlugin/Zip.swift:153 | powers of eight are positive |
| TarHeader.OctalValue | ios/Sources/ZipPlugin/Zip.swift:153 | the value of n octal digits is below 8^n |
| TarHeader.ParseOctalDigits | ios/Sources/ZipPlugin/Zip.swift:153 | an unsigned base-8 parse of n characters is below 8^n |
| TarHeader.ParseOctalDigitsIsValue | ios/Sources/ZipPlugin/Zip.swift:153 | the unsigned parse succeeds exactly on all-octal text and then gives its octal value |
| TarHeader.ParseOctalInt | ios/Sources/ZipPlugin/Zip.swift:153 | `Int(_, radix: 8)`: succeeds exactly when the text after an optional '+' or '-' is a non-empty run of octal digits whose signed value fits a 64-bit Int, and then gives that signed value, negated after a '-' |
| TarHeader.ParseOctalIntOfDigits | ios/Sources/ZipPlugin/Zip.swift:153 | a field of up to 12 octal digits parses to its octal value |
| TarHeader.SizeText | ios/Sources/ZipPlugin/Zip.swift:151-152 | the trimmed text of bytes [124,136) up to the first NUL is at most 12 characters |
| TarHeader.DecodeOctalSize | ios/Sources/ZipPlugin/Zip.swift:151-153 | the decoded size lies strictly between -8^12 and 8^12 |
| TarHeader.UnparsableSizeIsZero | ios/Sources/ZipPlugin/Zip.swift:152-153 | a size field that is empty, or has anything but octal digits after its optional sign, gives size 0, so it never aborts extraction |
| TarHeader.NegativeSizeFieldIsNegative | ios/Sources/ZipPlugin/Zip.swift:151-153 | a size field of '-' and octal digits with a positive value gives the negated value, a negative size |
| TarHeader.DigitSizeIsOctalValue | ios/Sources/ZipPlugin/Zip.swift:151-153 | a size field of octal digits gives its non-negative octal value |
| TarHeader.FieldValueFitsInt64 | ios/Sources/ZipPlugin/Zip.swift:151-153 | the value of up to 12 octal digits fits a 64-bit Int |
| TarHeader.Pow8Monotone | ios/Sources/ZipPlugin/Zip.swift:153 | more digits never lower the bound 8^n |
| TarHeader.Padding | ios/Sources/ZipPlugin/Zip.swift:178 | the padding after a positive size is less than one block |
| TarHeader.RemainderWithoutOneBlock | ios/Sources/ZipPlugin/Zip.swift:178 | removing one block does not change the remainder modulo 512 |
| TarHeader.PaddingIsSourceFormula | ios/Sources/ZipPlugin/Zip.swift:178 | the padding equals `(512 - size % 512) % 512` |
| TarHeader.PaddingAligns | ios/Sources/ZipPlugin/Zip.swift:177-181 | size plus padding is a multiple of 512 |
| TarHeader.PaddedSizeIsRoundedUp | ios/Sources/ZipPlugin/Zip.swift:171-181 | size plus padding is the size rounded up to a multiple of 512 |
| TarHeader.PaddingOfTen | ios/Sources/ZipPlugin/Zip.swift:178 | a 10-byte file is followed by 502 padding bytes |
| TarHeader.OctalDigits | ios/Sources/ZipPlugin/Zip.swift:151-153 | writer side of the size field: exactly w octal digits |
| TarHeader.OctalDigitsValue | ios/Sources/ZipPlugin/Zip.swift:151-153 | the w digits written for n < 8^w read back as n |
| TarHeader.NameField | ios/Sources/ZipPlugin/Zip.swift:146 | writer side of the name field: exactly 100 bytes |
| TarHeader.SizeField | ios/Sources/ZipPlugin/Zip.swift:151 | writer side of the size field: exactly 12 bytes |
| TarHeader.EncodeHeader | ios/Sources/ZipPlugin/Zip.swift:146-156 | a 512-byte header whose name, size and type-flag fields sit at offsets 0, 124 and 156 |
| TarHeader.DecodeNameOfEncoded | ios/Sources/ZipPlugin/Zip.swift:146-148 | the name decoder reads back the name written |
| TarHeader.DecodeSizeOfEncoded | ios/Sources/ZipPlugin/Zip.swift:151-153 | the size decoder reads back the size written |
| TarHeader.EncodedHeaderIsNotZero | ios/Sources/ZipPlugin/Zip.swift:131 | a written header is never mistaken for the end-of-archive block |
| TarExtract.MkDirAll | ios/Sources/ZipPlugin/Zip.swift:162 | `createDirectory(withIntermediateDirectories: true)`: leaves files alone; adds only the path and its ancestors; succeeds exactly when no regular file is in the way |
| TarExtract.CreateFileAt | ios/Sources/ZipPlugin/Zip.swift:173 | `createFile`: succeeds exactly when the path is not a directory and its parents exist; then stores the contents, and otherwise changes nothing |
| TarExtract.DeletingLastPathComponent | ios/Sources/ZipPlugin/Zip.swift:166 | the parent path is a proper prefix that ends just before a '/' |
| TarExtract.StripTrailingSlashes | ios/Sources/ZipPlugin/Zip.swift:158 | a prefix of the name that does not end in '/' |
| TarExtract.FullPath | ios/Sources/ZipPlugin/Zip.swift:158 | the entry path, as text, is the destination, a '/' and the name; '.' and '..' segments are kept as written |
| TarExtract.ReadEnd | ios/Sources/ZipPlugin/Zip.swift:127 | `readData(ofLength:)` advances by exactly the length asked for, or, when fewer bytes remain, to the end of the data |
| TarExtract.FileStep | ios/Sources/ZipPlugin/Zip.swift:171-181 | a file entry with the header's name; the cursor stays within the data |
| TarExtract.FileStepInFull | ios/Sources/ZipPlugin/Zip.swift:171-181 | with enough input, a file entry holds exactly `size` data bytes, and the cursor passes the data and the padding |
| TarExtract.HeaderStep | ios/Sources/ZipPlugin/Zip.swift:126-188 | one pass never moves the cursor back; a pass that does not stop consumes at least one block; extracted entries have names |
| TarExtract.BlockStep | ios/Sources/ZipPlugin/Zip.swift:131-187 | the pass after a full header block keeps the cursor within the data, and extracted entries have names |
| TarExtract.StepOnShortRead | ios/Sources/ZipPlugin/Zip.swift:127-128 | fewer than 512 bytes left: the loop stops, and the short read has consumed the rest |
| TarExtract.StepOnZeroBlock | ios/Sources/ZipPlugin/Zip.swift:131-142 | a zero header block stops the loop after one more block is read, whatever that block holds |
| TarExtract.StepOnUnnamedBlock | ios/Sources/ZipPlugin/Zip.swift:146-148 | an undecodable or empty name skips the block and consumes nothing more |
| TarExtract.StepOnDirectory | ios/Sources/ZipPlugin/Zip.swift:156-162 | type flag '5' yields a directory entry and consumes no data |
| TarExtract.StepOnFile | ios/Sources/ZipPlugin/Zip.swift:171-181 | another flag with a positive size yields the file step for that size |
| TarExtract.StepOnEmptyFile | ios/Sources/ZipPlugin/Zip.swift:182-186 | another flag with size at most 0 yields an empty file and consumes nothing more |
| TarExtract.AncestorsOfAncestor | ios/Sources/ZipPlugin/Zip.swift:162 | the directories above a directory above a path are above the path |
| TarExtract.AncestorsViaParent | ios/Sources/ZipPlugin/Zip.swift:166 | the directories above a path are its parent and those above the parent |
| TarExtract.MkDirAllKeepsWellFormed | ios/Sources/ZipPlugin/Zip.swift:162 | `createDirectory` keeps the filesystem well formed |
| TarExtract.PrepareParent | ios/Sources/ZipPlugin/Zip.swift:166-169 | creating a missing parent leaves files alone and adds only the parent and the directories above it |
| TarExtract.PrepareParentMakesAncestors | ios/Sources/ZipPlugin/Zip.swift:166-169 | on a well-formed filesystem with no regular file above the path, afterwards every directory above the path exists, and only those were added |
| TarExtract.FullPathHasParent | ios/Sources/ZipPlugin/Zip.swift:158-166 | below a non-empty destination, the entry path's parent is found after the destination |
| TarExtract.Materialize | ios/Sources/ZipPlugin/Zip.swift:158-186 | one entry writes at most its own path and never removes a directory: directories are never counted, empty files always are, and files with data only when they are written |
| TarExtract.MaterializeAddsDirectoriesOnPath | ios/Sources/ZipPlugin/Zip.swift:161-169 | the only directories one entry adds are its own path and those above it for a directory entry, and its parent and those above that otherwise |
| TarExtract.MaterializeKeepsWellFormed | ios/Sources/ZipPlugin/Zip.swift:158-186 | one entry keeps the filesystem well formed |
| TarExtract.MaterializeWritesFile | ios/Sources/ZipPlugin/Zip.swift:166-186 | the success case: on a well-formed filesystem, with no regular file above the entry path and no directory at it, the file is written with its contents (empty for size 0) and counted, and only directories above it are added |
| TarExtract.MaterializeMakesDirectory | ios/Sources/ZipPlugin/Zip.swift:161-162 | a directory entry with no regular file on its path creates it and every directory above it, and is not counted |
| TarExtract.Run | ios/Sources/ZipPlugin/Zip.swift:126-188 | the loop ends within the data, never lowers the counter, and never removes files or directories |
| TarExtract.RunKeepsWellFormed | ios/Sources/ZipPlugin/Zip.swift:126-188 | the whole loop keeps the filesystem well formed |
| TarExtract.ListFiles | ios/Sources/ZipPlugin/Zip.swift:190 | the paths listed are exactly the files and directories below the destination |
| TarExtract.ManifestOf | ios/Sources/ZipPlugin/Zip.swift:190-196 | the returned `fileCount` is the number of listed paths, with type "tar" and the destination path |
| TarExtract.FileHandle.constructor | ios/Sources/ZipPlugin/Zip.swift:118 | a handle opened on the archive bytes starts at offset 0 |
| TarExtract.FileHandle.ReadData | ios/Sources/ZipPlugin/Zip.swift:127 | returns the bytes between the old and the new offset; the new offset is the `ReadEnd` of the read |
| TarExtract.FileManager.constructor | ios/Sources/ZipPlugin/Zip.swift:117 | the manager starts on the given filesystem |
| TarExtract.FileManager.FileExists | ios/Sources/ZipPlugin/Zip.swift:167 | true exactly when a file or a directory is at the path |
| TarExtract.FileManager.CreateDirectory | ios/Sources/ZipPlugin/Zip.swift:162 | the new state is `MkDirAll` of the old |
| TarExtract.FileManager.CreateFile | ios/Sources/ZipPlugin/Zip.swift:173 | the new state and the success flag are `CreateFileAt` of the old state |
| TarExtract.WriteFile | ios/Sources/ZipPlugin/Zip.swift:171-181 | reads `size` bytes (fewer at the end of the data) and the padding; creates the file from the bytes read |
| TarExtract.ExtractEntry | ios/Sources/ZipPlugin/Zip.swift:156-187 | after a named non-zero header, the cursor and the filesystem are those of `BlockStep` and `Materialize` |
| TarExtract.Untar | ios/Sources/ZipPlugin/Zip.swift:116-197 | an unopenable source fails with "Cannot open source file" and changes nothing; otherwise the final filesystem and counter are those of `Run` from offset 0, and the result is the manifest of the destination |
| TarProperties.ShortHeaderEndsExtraction | ios/Sources/ZipPlugin/Zip.swift:127-128 | a short header read ends extraction with no error, no entry, and the filesystem and counter unchanged |
| TarProperties.ZeroBlockEndsExtraction | ios/Sources/ZipPlugin/Zip.swift:131-142 | a zero block ends extraction after consuming one more block, whatever it holds; nothing after it is materialised |
| TarProperties.UnnamedBlockIsSkipped | ios/Sources/ZipPlugin/Zip.swift:146-148 | an unnamed block changes neither the filesystem nor the counter, and extraction resumes at the next block |
| TarProperties.DirectoryHeaderCreatesDirectory | ios/Sources/ZipPlugin/Zip.swift:156-162 | a directory header creates `dest/name` on a best-effort basis, consumes no data and leaves the counter unchanged |
| TarProperties.FileHeaderConsumesRoundedSize | ios/Sources/ZipPlugin/Zip.swift:171-181 | with enough input, a file of size n > 0 is read in full, and the cursor moves past n rounded up to 512 |
| TarProperties.EmptyFileHeaderCountsOne | ios/Sources/ZipPlugin/Zip.swift:182-186 | size at most 0: an empty file is created, the counter goes up by 1, and no data is consumed |
| TarProperties.NegativeSizeGivesEmptyFile | ios/Sources/ZipPlugin/Zip.swift:151-186 | a file header whose size field reads '-' and octal digits takes the empty-file branch: an empty file is created and counted, and the bytes after the header are not read as data |
| TarProperties.Scan | ios/Sources/ZipPlugin/Zip.swift:126-188 | the loop's entries read without touching the filesystem; each has a name and the end cursor is within the data |
| TarProperties.ApplyAll | ios/Sources/ZipPlugin/Zip.swift:156-186 | materialising entries only adds paths, and counts at most one per entry |
| TarProperties.RunIsScanThenApply | ios/Sources/ZipPlugin/Zip.swift:126-188 | the loop is the parse followed by materialising the parsed entries in order: the filesystem never steers the cursor |
| TarProperties.NonDirectoryCount | ios/Sources/ZipPlugin/Zip.swift:163-186 | at most one per entry |
| TarProperties.EmptyFileCount | ios/Sources/ZipPlugin/Zip.swift:182-186 | empty-file entries are among the non-directory entries |
| TarProperties.CounterBounds | ios/Sources/ZipPlugin/Zip.swift:171-186 | the counter lies between the number of empty-file entries and the number of non-directory entries |
| TarProperties.RunCounterBounds | ios/Sources/ZipPlugin/Zip.swift:123-188 | the same bounds for a whole run from offset 0 |
| TarRoundTrip.EntrySize | ios/Sources/ZipPlugin/Zip.swift:151-153 | the size written for an entry fits 11 octal digits and is positive exactly for files with data |
| TarRoundTrip.EntryFlag | ios/Sources/ZipPlugin/Zip.swift:156-161 | the flag written is '5' exactly for directories |
| TarRoundTrip.HeaderOf | ios/Sources/ZipPlugin/Zip.swift:144-156 | the header written for an entry is one block |
| TarRoundTrip.BodyLength | ios/Sources/ZipPlugin/Zip.swift:171-181 | the data and padding after a header fill whole blocks |
| TarRoundTrip.EntryBody | ios/Sources/ZipPlugin/Zip.swift:171-181 | the body starts with the file's contents and has the padded length |
| TarRoundTrip.Headers | ios/Sources/ZipPlugin/Zip.swift:144-156 | one header per entry, in order |
| TarRoundTrip.Archive | ios/Sources/ZipPlugin/Zip.swift:126-142 | an archive always ends with the two-zero-block trailer |
| TarRoundTrip.EncodeArchive | ios/Sources/ZipPlugin/Zip.swift:126-142 | the same, for the archive written from a list of entries |
| TarRoundTrip.HeaderOfDescribes | ios/Sources/ZipPlugin/Zip.swift:144-156 | the written header decodes to the entry's name, size and flag, and is not a zero block |
| TarRoundTrip.StepOnDescribedBlock | ios/Sources/ZipPlugin/Zip.swift:131-187 | a header describing an entry, followed by that entry's body, is read as that entry, and the cursor passes the body |
| TarRoundTrip.SplitAt | ios/Sources/ZipPlugin/Zip.swift:127 | consecutive reads of a concatenation return its parts |
| TarRoundTrip.ScanOnExtract | ios/Sources/ZipPlugin/Zip.swift:126-188 | an extracted entry heads the rest of the parse |
| TarRoundTrip.EntryLayout | ios/Sources/ZipPlugin/Zip.swift:127-181 | header, body and rest sit where the reader looks for them |
| TarRoundTrip.ScanDescribedEntry | ios/Sources/ZipPlugin/Zip.swift:126-188 | a described entry is parsed, and the parse continues after its body |
| TarRoundTrip.ScanTrailer | ios/Sources/ZipPlugin/Zip.swift:131-142 | the two-zero-block trailer yields no entry and ends at the end of the data |
| TarRoundTrip.AllDescribeTail | ios/Sources/ZipPlugin/Zip.swift:126-188 | describing headers stay aligned after the first entry |
| TarRoundTrip.ScanArchiveStep | ios/Sources/ZipPlugin/Zip.swift:126-188 | one entry of an archive is parsed, and the rest is again an archive |
| TarRoundTrip.ScanArchive | ios/Sources/ZipPlugin/Zip.swift:126-188 | any archive whose headers describe its entries parses to exactly those entries, in order |
| TarRoundTrip.HeadersDescribe | ios/Sources/ZipPlugin/Zip.swift:144-156 | the written headers describe their entries |
| TarRoundTrip.ArchiveRoundTrip | ios/Sources/ZipPlugin/Zip.swift:126-188 | reading a written archive gives back the entries written, and ends at its last byte |
| TarRoundTrip.ExtractEncodedArchive | ios/Sources/ZipPlugin/Zip.swift:116-197 | extracting a written archive materialises exactly the entries written |
| TarRoundTrip.TenByteFileTakesTwoBlocks | ios/Sources/ZipPlugin/Zip.swift:171-181 | a 10-byte file takes one header block and one data block (10 + 502 bytes) |
| Text.LowerChar | ios/Sources/ZipPlugin/Zip.swift:72-73 | lower-casing maps A-Z 32 code points down and leaves everything else |
| Text.Lower | ios/Sources/ZipPlugin/Zip.swift:72-73 | lower-cases character by character and keeps the length |
| Text.LowerIsIdempotent | ios/Sources/ZipPlugin/Zip.swift:72-73 | lower-casing twice is lower-casing once |
| Text.LastIndexOf | ios/Sources/ZipPlugin/Zip.swift:72-73 | the last position of a character, or -1 when it is absent |
| Text.LastComponent | ios/Sources/ZipPlugin/Zip.swift:73 | the last path component has no '/' and ends the path |
| Text.PathExtension | ios/Sources/ZipPlugin/Zip.swift:72 | the extension has no '.' and, when present, ends the name after a '.' that is not the name's first character |
| Text.ExtensionTarIffSuffix | ios/Sources/ZipPlugin/Zip.swift:72-76 | the extension is "tar" exactly when the name ends in ".tar" and is longer than ".tar" |
| Text.LowerCommutesWithLastComponent | ios/Sources/ZipPlugin/Zip.swift:72-73 | lower-casing and taking the last component commute |
| Text.LastIndexOfLower | ios/Sources/ZipPlugin/Zip.swift:72-73 | lower-casing does not move '/' or '.' |
| Text.PathExtensionOfLower | ios/Sources/ZipPlugin/Zip.swift:72 | lower-casing and taking the extension commute |
| Text.EndsWithCharFromEnd | ios/Sources/ZipPlugin/Zip.swift:76-84 | a string and its suffix agree character by character from the end |
| Text.EndsWithAtMostOne | ios/Sources/ZipPlugin/Zip.swift:76-84 | two suffixes that differ at some distance from the end never end the same name |
| Text.EndsWithLower | ios/Sources/ZipPlugin/Zip.swift:76-84 | a suffix of a name lower-cases to a suffix of the lower-cased name |
| ZipSwift.IsValidZip | ios/Sources/ZipPlugin/Zip.swift:205-210 | true exactly when the file is readable, has at least 4 bytes, and starts with 50 4B 03 04 |
| ZipSwift.ValidZipIgnoresTail | ios/Sources/ZipPlugin/Zip.swift:205-210 | bytes after the fourth never change the verdict |
| ZipSwift.ShortOrUnreadableIsNotZip | ios/Sources/ZipPlugin/Zip.swift:205 | an unreadable file, or one shorter than 4 bytes, is not a ZIP |
| ZipSwift.TarRoutingIsSuffixTest | ios/Sources/ZipPlugin/Zip.swift:72-84 | the routing test holds exactly when the lower-cased last component ends in ".tar" or one of the eight tar-family suffixes |
| ZipSwift.TarRoutingIgnoresCase | ios/Sources/ZipPlugin/Zip.swift:72-84 | paths that differ only in letter case are routed alike |
| ZipSwift.TarZstIsSubsumed | ios/Sources/ZipPlugin/Zip.swift:83-84 | every name ending in ".tar.zst" already ends in ".zst", so the last test never decides |
| ZipSwift.ExtractRoute | ios/Sources/ZipPlugin/Zip.swift:63-86 | a missing source fails with "Source file does not exist at: " and its path; then a missing destination whose creation throws fails with that destination; otherwise the source goes to the tar reader exactly when its name has a tar-family suffix |
| ZipSwift.ZipNameGoesToUnzip | ios/Sources/ZipPlugin/Zip.swift:72-90 | a ".zip" name goes to the ZIP library |
| ZipSwift.HiddenTarNameGoesToUnzip | ios/Sources/ZipPlugin/Zip.swift:72-90 | a file named just ".tar" has no extension and goes to the ZIP library |
| AndroidZip.TypeName | android/src/main/java/com/aga/zipper/plugin/zip/ZipPlugin.java:78-93 | each type's case label is one of the five names and already lower case |
| AndroidZip.ParseType | android/src/main/java/com/aga/zipper/plugin/zip/ZipPlugin.java:78-97 | a type is accepted exactly when its lower-cased form is one of the five names, and then selects the case with that label |
| AndroidZip.ParseTypeName | android/src/main/java/com/aga/zipper/plugin/zip/ZipPlugin.java:78-93 | each type's label selects that type |
| AndroidZip.ParseTypeIgnoresCase | android/src/main/java/com/aga/zipper/plugin/zip/ZipPlugin.java:78 | type arguments that differ only in letter case are dispatched alike |
| AndroidZip.DetectArchiveType | android/src/main/java/com/aga/zipper/plugin/zip/ZipPlugin.java:389-405 | the result is always one of the five type names |
| AndroidZip.SuffixGroupsAreDisjoint | android/src/main/java/com/aga/zipper/plugin/zip/ZipPlugin.java:392-399 | no name ends in suffixes of two different type groups, ".tar" included |
| AndroidZip.DetectArchiveTypeBySuffix | android/src/main/java/com/aga/zipper/plugin/zip/ZipPlugin.java:389-405 | the whole suffix table, both directions: ".tar.gz"/".tgz" give tar.gz, ".tar.bz2"/".tbz2" tar.bz2, ".tar.xz"/".txz" tar.xz, ".tar" tar, anything else zip |
| AndroidZip.DetectArchiveTypeIgnoresCase | android/src/main/java/com/aga/zipper/plugin/zip/ZipPlugin.java:390 | paths that differ only in letter case get the same type |
| AndroidZip.DetectedTypeIsSupported | android/src/main/java/com/aga/zipper/plugin/zip/ZipPlugin.java:137-169 | a detected type is always accepted by the dispatch |
| AndroidZip.TbzNameDisagreesAcrossPlatforms | android/src/main/java/com/aga/zipper/plugin/zip/ZipPlugin.java:392-404 | a ".tbz" name goes to the iOS tar reader but is detected as zip on Android |
| AndroidZip.Tbz2NameDisagreesAcrossPlatforms | android/src/main/java/com/aga/zipper/plugin/zip/ZipPlugin.java:394-395 | a ".tbz2" name goes to the iOS ZIP library but is detected as tar.bz2 on Android |
| AndroidZip.HiddenTarNameDisagreesAcrossPlatforms | android/src/main/java/com/aga/zipper/plugin/zip/ZipPlugin.java:398 | a file named just ".tar" goes to the iOS ZIP library but is detected as tar on Android |
| AndroidZip.LevelFor | android/src/main/java/com/aga/zipper/plugin/zip/ZipPlugin.java:251-260 | 1 gives FASTEST, 9 gives MAXIMUM, every other integer NORMAL |
| AndroidZip.DefaultAndOutOfRangeLevelsAreNormal | android/src/main/java/com/aga/zipper/plugin/zip/ZipPlugin.java:51 | the default level 6, and any level outside 1..9, gives NORMAL |
| AndroidZip.ZipParametersFor | android/src/main/java/com/aga/zipper/plugin/zip/ZipPlugin.java:249-266 | the mapped level, and ZIP-standard encryption exactly when a non-empty password is given |
| AndroidZip.TarCodec | android/src/main/java/com/aga/zipper/plugin/zip/ZipPlugin.java:82-93 | only the compressed tar types get a codec |
| AndroidZip.JobFor | android/src/main/java/com/aga/zipper/plugin/zip/ZipPlugin.java:78-93 | only "zip" goes to the ZIP helper; the tar helpers get the type's codec |
| AndroidZip.JobForIsInjective | android/src/main/java/com/aga/zipper/plugin/zip/ZipPlugin.java:78-93 | different types reach different helper calls |
| AndroidZip.Compress | android/src/main/java/com/aga/zipper/plugin/zip/ZipPlugin.java:46-97 | a missing argument is rejected with "Source, destination, and type are required"; a missing source with "Source file/directory does not exist: " and its resolved path; otherwise the call goes ahead exactly when the type is supported, with that type's helper and ZIP options, and reports the type as given; an unsupported type is rejected with "Unsupported archive type: " and the type |
| AndroidZip.Extract | android/src/main/java/com/aga/zipper/plugin/zip/ZipPlugin.java:115-169 | the same for `extract`, with "Source and destination paths are required" and "Source archive file does not exist: " and the resolved path, where an absent type is detected from the resolved source path, and a type-based rejection only ever happens for a type that was given |
| AndroidZip.DispatchTablesAgree | android/src/main/java/com/aga/zipper/plugin/zip/ZipPlugin.java:78-97 | `compress` and `extract` accept the same types and send each to the same helper |
| AndroidZip.ExtractWithoutTypeSucceeds | android/src/main/java/com/aga/zipper/plugin/zip/ZipPlugin.java:136-169 | an `extract` call without a type, on an existing source, never fails in the dispatch |
| AndroidZip.CountFilesInDirectory | android/src/main/java/com/aga/zipper/plugin/zip/ZipPlugin.java:441-453 | the loop's count is the number of regular files at every depth below the node |
| AndroidZip.ListFiles | android/src/main/java/com/aga/zipper/plugin/zip/ZipPlugin.java:456-467 | every path collected starts with the node's own path and a '/' |
| AndroidZip.ListFilesMembership | android/src/main/java/com/aga/zipper/plugin/zip/ZipPlugin.java:456-467 | a path is collected exactly when it is the path of a regular file below the node |
| AndroidZip.CountMatchesListing | android/src/main/java/com/aga/zipper/plugin/zip/ZipPlugin.java:441-467 | the count equals the number of paths `listFiles` collects |
| AndroidZip.EmptyDirectoryCountsNothing | android/src/main/java/com/aga/zipper/plugin/zip/ZipPlugin.java:446-450 | a directory contributes 0 for itself |
| AndroidZip.FileCountsOnce | android/src/main/java/com/aga/zipper/plugin/zip/ZipPlugin.java:446-447 | each regular file contributes exactly 1 |
| AndroidZip.CompressZipFileCount | android/src/main/java/com/aga/zipper/plugin/zip/ZipPlugin.java:268-274 | a directory source reports its file count, any other source 1 |

## Left out

- The ZIP library calls: SSZipArchive on iOS (`Zip.swift` lines 28-36 and 90-96) and zip4j on Android (`ZipPlugin.java` lines 247-275 and 329-341). Their behaviour is not visible. The model stops at the options and at the routing decision.
- Android tar extraction, compression and validation (`extractTar`, `compressTar`, `addToTarArchive`, `isValidTarFile`, `isValidArchive`). They are wrappers over Apache Commons Compress. The model stops at the codec handed to them (`AndroidZip.Job`).
- Decompression. `untar` reads the source bytes as they are, even for ".tgz", ".tar.xz" or ".zst" names. The model does the same and has no codec.
- The bridge layers. These are `ios/Sources/ZipPlugin/ZipPlugin.swift`, the `@PluginMethod` marshalling and `JSObject` results in `ZipPlugin.java`, and `src/web.ts`. None of them is part of this model. `compress` and `extract` are modelled up to the helper call they make. Their exception handlers ("Failed to create archive", "Failed to extract archive") catch failures of the left-out helpers, so they are not modelled.
- Path resolution is left abstract:
  - `getURL` on iOS and `getAbsolutePath` on Android depend on platform URL and sandbox APIs;
  - on Android they are the function parameter `absolute`, and `File.exists` is `isPresent`;
  - the iOS routing takes the source path as already resolved.
- Letter case: `lowercased()` and `toLowerCase()` are modelled for ASCII letters only. Other Unicode case mappings are not. Java's `toLowerCase()` without an argument also depends on the default locale: under a Turkish locale "ZIP" becomes "zıp" with a dotless i, which matches no case label. `AndroidZip.ParseTypeIgnoresCase` and `AndroidZip.DetectArchiveTypeIgnoresCase` hold for the locale-independent ASCII mapping only.
- URL path quirks: `lastPathComponent` is the text after the last '/', and `pathExtension` the text after the last '.' of that component, or nothing when that '.' is its first character. Trailing slashes, percent-encoding and any further rule Foundation applies to what counts as an extension are not modelled.
- TarExtract.FullPath: the entry path is the text `dest + "/" + name`. The filesystem resolves it, but the model keys files and directories by that text. So '.' segments ("./a" and "a" are one file on disk, two in the model), '..' segments ("../x" lands outside the destination on disk, while the model lists it below the destination) and doubled slashes are not resolved. `TarExtract.ListFiles` and the manifest therefore see such names as written.
- The walk after extraction. On iOS, `listFiles(at:)` and `countFiles(at:)` enumerate the real directory tree. The model lists the set of paths below the destination in the abstract filesystem. Order, symbolic links and hidden-file handling are not modelled.
- `mkdirs` of the destination before dispatch, in Android `compress`/`extract`, is a side effect outside the decision. It is not modelled.
- The file handle's I/O errors. `readData(ofLength:)` is modelled as always returning the available bytes. `closeFile` is not modelled.
- Integer widths. Swift `Int` and Java `int` are 64 and 32 bits. A size field of 12 characters cannot exceed 8^12, so the Swift size never overflows. File counts are unbounded `int` in the model, because no realistic tree overflows a Java `int`.
- ZipSwift.ExtractRoute: whether the destination already exists and whether `createDirectory` succeeds are parameters. The error `createDirectory` throws is Foundation's, so the model keeps only the destination path, not the error's message.
- TarExtract.Materialize: directory creation follows the model's `MkDirAll`. Attribute and permission handling of `createDirectory`/`createFile` is not modelled.
- AndroidZip.CountFilesInDirectory: `listFiles()` returning null is modelled per directory (`listable`). A node that is neither a file nor a directory counts 0, as in the source.

Where the code and the design description of the plugin differ, the model follows the code:

- The `fileCount` returned by `untar` is the number of paths `listFiles` enumerates below the destination (`Zip.swift` line 190). It is not the `extractedCount` counter, which the code never returns. Directories, and parents created on the way, are therefore counted.
- The block after a first zero block is read and dropped whatever it holds (`Zip.swift` lines 133-141). The loop never resumes after a zero block.
- A size field holding a negative octal number, such as "-7", parses, because `Int(_, radix: 8)` accepts a sign. It then takes the empty-file branch (`TarProperties.NegativeSizeGivesEmptyFile`).
- Entry names are not checked: a name with '..' segments, such as "../x", is created outside the destination directory once the filesystem resolves the path (`Zip.swift` line 158).
- A source named just ".tar" has no path extension, so the iOS `extract` hands it to the ZIP library, while Android detects it as tar (`AndroidZip.HiddenTarNameDisagreesAcrossPlatforms`).
- The routing test includes ".tbz" but not ".tbz2", while Android detection includes ".tbz2" but not ".tbz". The disagreement is proved in `AndroidZip.TbzNameDisagreesAcrossPlatforms` and `AndroidZip.Tbz2NameDisagreesAcrossPlatforms`.
- The ".tar.zst" test can never decide, because the ".zst" suffix test comes just before it (`ZipSwift.TarZstIsSubsumed`).
