/**
 * Decoding of one 512-byte tar header block, as the hand-written reader in
 * `Zip.untar` does it (ustar layout of POSIX.1-2017 `pax`, section "ustar
 * Interchange Format"): the name field, the octal size field and the type flag.
 * No checksum is verified. An encoder of the same layout is given for the
 * round-trip lemmas.
 */
module TarHeader {
  import opened Wrappers
  import opened Bytes

  const BlockSize: nat := 512
  const NameLength: nat := 100
  const SizeOffset: nat := 124
  const SizeLength: nat := 12
  const TypeFlagOffset: nat := 156
  /** The type flag '5' marks a directory; every other value is read as a regular file. */
  const DirectoryFlag: byte := 0x35
  const RegularFlag: byte := 0x30

  predicate IsHeaderBlock(block: seq<byte>) { |block| == BlockSize }

  // ---------------------------------------------------------------------------
  // End-of-archive test
  // ---------------------------------------------------------------------------

  /** `headerData.allSatisfy({ $0 == 0 })`, checked byte by byte from the front. */
  predicate IsZeroBlock(block: seq<byte>)
  {
    |block| == 0 || (block[0] == 0 && IsZeroBlock(block[1..]))
  }

  /** A block is a zero block exactly when every one of its bytes is 0. */
  lemma {:induction false} ZeroBlockIsAllZero(block: seq<byte>)
    ensures IsZeroBlock(block) <==> forall i :: 0 <= i < |block| ==> block[i] == 0
  {
    if |block| > 0 {
      ZeroBlockIsAllZero(block[1..]);
      assert forall i :: 1 <= i < |block| ==> block[i] == block[1..][i - 1];
    }
  }

  lemma ZeroBlockIsZeros(block: seq<byte>)
    ensures IsZeroBlock(block) <==> block == Zeros(|block|)
  {
    ZeroBlockIsAllZero(block);
    if IsZeroBlock(block) {
      assert forall i :: 0 <= i < |block| ==> block[i] == Zeros(|block|)[i];
    }
  }

  // ---------------------------------------------------------------------------
  // Name field: bytes [0, 100)
  // ---------------------------------------------------------------------------

  /**
   * The ASCII text of the name field up to, not including, its first NUL;
   * None when a byte before that NUL is not ASCII.
   */
  function DecodeName(header: seq<byte>): (r: Option<string>)
    requires IsHeaderBlock(header)
    ensures r.Some? <==> IsAscii(PrefixUntilNul(header[..NameLength]))
    ensures r.Some? ==> |r.value| <= NameLength
  {
    DecodeAscii(PrefixUntilNul(header[..NameLength]))
  }

  /**
   * A decoded name is the text of the field's first bytes, holds no NUL, and is
   * followed in the field by a NUL unless it fills all 100 bytes.
   */
  lemma DecodedNameIsFieldPrefix(header: seq<byte>)
    requires IsHeaderBlock(header) && DecodeName(header).Some?
    ensures var name := DecodeName(header).value;
      && '\0' !in name
      && (forall i :: 0 <= i < |name| ==> name[i] as int == header[i] as int)
      && (|name| < NameLength ==> header[|name|] == 0)
  {
    var raw := PrefixUntilNul(header[..NameLength]);
    var name := DecodeName(header).value;
    assert forall i :: 0 <= i < |raw| ==> raw[i] == header[i];
    assert forall i :: 0 <= i < |name| ==> name[i] as int == raw[i] as int;
    forall i | 0 <= i < |name| ensures name[i] != '\0' {
      assert raw[i] != 0;
    }
  }

  // ---------------------------------------------------------------------------
  // Size field: bytes [124, 136), octal ASCII
  // ---------------------------------------------------------------------------

  /** `.whitespacesAndNewlines` restricted to ASCII: tab, LF, VT, FF, CR and space. */
  predicate IsWhitespace(c: char) { c == ' ' || '\t' <= c <= '\r' }

  function DropLeadingWhitespace(s: string): (r: string)
    ensures |r| <= |s|
    ensures r == s[|s| - |r|..]
    ensures forall i :: 0 <= i < |s| - |r| ==> IsWhitespace(s[i])
    ensures |r| > 0 ==> !IsWhitespace(r[0])
  {
    if |s| > 0 && IsWhitespace(s[0]) then DropLeadingWhitespace(s[1..]) else s
  }

  function DropTrailingWhitespace(s: string): (r: string)
    ensures |r| <= |s|
    ensures r == s[..|r|]
    ensures forall i :: |r| <= i < |s| ==> IsWhitespace(s[i])
    ensures |r| > 0 ==> !IsWhitespace(r[|r| - 1])
  {
    if |s| > 0 && IsWhitespace(s[|s| - 1]) then DropTrailingWhitespace(s[..|s| - 1]) else s
  }

  /** `trimmingCharacters(in: .whitespacesAndNewlines)`: trims both ends. */
  function Trim(s: string): (r: string)
    ensures |r| <= |s|
    ensures |r| > 0 ==> !IsWhitespace(r[0]) && !IsWhitespace(r[|r| - 1])
    ensures (|s| > 0 && !IsWhitespace(s[0]) && !IsWhitespace(s[|s| - 1])) ==> r == s
  {
    DropTrailingWhitespace(DropLeadingWhitespace(s))
  }

  predicate IsOctalDigit(c: char) { '0' <= c <= '7' }

  function DigitValue(c: char): (r: nat)
    requires IsOctalDigit(c)
    ensures r < 8
  {
    c as int - '0' as int
  }

  predicate IsOctalDigits(s: string) { |s| > 0 && forall i :: 0 <= i < |s| ==> IsOctalDigit(s[i]) }

  function Pow8(n: nat): (r: nat)
    ensures r >= 1
  {
    if n == 0 then 1 else 8 * Pow8(n - 1)
  }

  /** The value of a string of octal digits, most significant first. */
  function OctalValue(s: string): (r: nat)
    requires forall i :: 0 <= i < |s| ==> IsOctalDigit(s[i])
    ensures r < Pow8(|s|)
  {
    if |s| == 0 then 0
    else
      assert IsOctalDigit(s[|s| - 1]);
      8 * OctalValue(s[..|s| - 1]) + DigitValue(s[|s| - 1])
  }

  const Int64Min: int := -0x8000_0000_0000_0000
  const Int64Max: int := 0x7FFF_FFFF_FFFF_FFFF

  /** The value of `s` read as octal digits; None as soon as a character is not one. */
  function ParseOctalDigits(s: string): (r: Option<nat>)
    ensures r.Some? ==> r.value < Pow8(|s|)
  {
    if |s| == 0 then Some(0)
    else if !IsOctalDigit(s[|s| - 1]) then None
    else match ParseOctalDigits(s[..|s| - 1])
      case None => None
      case Some(high) => Some(8 * high + DigitValue(s[|s| - 1]))
  }

  /** The digit parser accepts exactly the strings of octal digits, and agrees with `OctalValue` on them. */
  lemma {:induction false} ParseOctalDigitsIsValue(s: string)
    ensures ParseOctalDigits(s).Some? <==> forall i :: 0 <= i < |s| ==> IsOctalDigit(s[i])
    ensures ParseOctalDigits(s).Some? ==> ParseOctalDigits(s).value == OctalValue(s)
  {
    if |s| > 0 {
      var init := s[..|s| - 1];
      ParseOctalDigitsIsValue(init);
      assert forall i :: 0 <= i < |init| ==> init[i] == s[i];
    }
  }

  /** The text after an optional leading '+' or '-'. */
  function UnsignedPart(s: string): (r: string)
    ensures |r| <= |s| && r == s[|s| - |r|..]
  {
    if |s| > 0 && (s[0] == '+' || s[0] == '-') then s[1..] else s
  }

  /** The value of a sign and octal digits: negated after a '-'. */
  function SignedOctalValue(s: string): int
    requires IsOctalDigits(UnsignedPart(s))
  {
    var magnitude: int := OctalValue(UnsignedPart(s));
    if s[0] == '-' then -magnitude else magnitude
  }

  /**
   * Swift's `Int(text, radix: 8)`: an optional '+' or '-' followed by at least
   * one octal digit and nothing else, and a value that fits a 64-bit Int.
   */
  function ParseOctalInt(s: string): (r: Option<int>)
    ensures r.Some? <==>
      IsOctalDigits(UnsignedPart(s)) && Int64Min <= SignedOctalValue(s) <= Int64Max
    ensures r.Some? ==> r.value == SignedOctalValue(s)
    ensures r.Some? ==> -(Pow8(|s|) as int) < r.value < Pow8(|s|)
    ensures r.Some? && r.value < 0 ==> s[0] == '-'
  {
    var digits := UnsignedPart(s);
    ParseOctalDigitsIsValue(digits);
    if |digits| == 0 then None
    else match ParseOctalDigits(digits)
      case None => None
      case Some(n) =>
        Pow8Monotone(|digits|, |s|);
        var v: int := if s[0] == '-' then -(n as int) else n;
        if Int64Min <= v <= Int64Max then Some(v) else None
  }

  /** A short run of plain octal digits parses to its value: it always fits a 64-bit Int. */
  lemma ParseOctalIntOfDigits(s: string)
    requires IsOctalDigits(s) && |s| <= SizeLength
    ensures ParseOctalInt(s) == Some(OctalValue(s))
  {
    assert UnsignedPart(s) == s;
    FieldValueFitsInt64(|s|);
  }

  /** Up to 12 octal digits always fit a 64-bit Int. */
  lemma FieldValueFitsInt64(n: nat)
    requires n <= SizeLength
    ensures Pow8(n) <= Int64Max
  {
    Pow8Monotone(n, SizeLength);
    assert Pow8(SizeLength) == 0x10_0000_0000;
  }

  /** The text the size parse sees: the field up to its first NUL, ASCII-decoded and trimmed; "0" if not ASCII. */
  function SizeText(header: seq<byte>): (r: string)
    requires IsHeaderBlock(header)
    ensures |r| <= SizeLength
  {
    match DecodeAscii(PrefixUntilNul(header[SizeOffset..SizeOffset + SizeLength]))
    case None => "0"
    case Some(text) => Trim(text)
  }

  /**
   * The declared entry size. An empty or unparsable field decodes to 0, so this
   * field never aborts extraction; a field of at most 12 characters cannot
   * overflow a 64-bit Int, and a leading '-' yields a negative size.
   */
  function DecodeOctalSize(header: seq<byte>): (r: int)
    requires IsHeaderBlock(header)
    ensures -(Pow8(SizeLength) as int) < r < Pow8(SizeLength)
  {
    var text := SizeText(header);
    match ParseOctalInt(text)
    case None => 0
    case Some(v) =>
      Pow8Monotone(|text|, SizeLength);
      v
  }

  /**
   * A size field that is empty, or holds anything but octal digits after its
   * optional sign, decodes to 0 rather than aborting.
   */
  lemma UnparsableSizeIsZero(header: seq<byte>)
    requires IsHeaderBlock(header) && !IsOctalDigits(UnsignedPart(SizeText(header)))
    ensures DecodeOctalSize(header) == 0
  {
  }

  /** A size field of '-' and octal digits decodes to a negative size. */
  lemma NegativeSizeFieldIsNegative(header: seq<byte>, digits: string)
    requires IsHeaderBlock(header) && SizeText(header) == "-" + digits
    requires IsOctalDigits(digits) && OctalValue(digits) > 0
    ensures DecodeOctalSize(header) == -(OctalValue(digits) as int) < 0
  {
    assert UnsignedPart(SizeText(header)) == digits;
    FieldValueFitsInt64(|digits|);
  }

  /** A size field of plain octal digits decodes to their value, which is never negative. */
  lemma DigitSizeIsOctalValue(header: seq<byte>)
    requires IsHeaderBlock(header) && IsOctalDigits(SizeText(header))
    ensures DecodeOctalSize(header) == OctalValue(SizeText(header)) >= 0
  {
    ParseOctalIntOfDigits(SizeText(header));
  }

  lemma {:induction false} Pow8Monotone(a: nat, b: nat)
    requires a <= b
    ensures Pow8(a) <= Pow8(b)
  {
    if a < b { Pow8Monotone(a, b - 1); }
  }

  /** The type flag byte. */
  function TypeFlag(header: seq<byte>): byte
    requires IsHeaderBlock(header)
  {
    header[TypeFlagOffset]
  }

  // ---------------------------------------------------------------------------
  // Padding after the data of a regular file
  // ---------------------------------------------------------------------------

  /**
   * The padding after `size` data bytes, evaluated only for positive sizes:
   * nothing when `size` is already a multiple of 512, otherwise what is left of
   * the last block. `PaddingIsSourceFormula` shows this is the source's
   * `(blockSize - (fileSize % blockSize)) % blockSize`.
   */
  function Padding(size: int): (r: nat)
    requires size > 0
    ensures r < BlockSize
    decreases size
  {
    if size <= BlockSize then BlockSize - size else Padding(size - BlockSize)
  }

  /** Removing one whole block changes neither the remainder nor the padding. */
  lemma RemainderWithoutOneBlock(size: int)
    requires size > BlockSize
    ensures (size - BlockSize) % BlockSize == size % BlockSize
  {
    var q, m := (size - 512) / 512, (size - 512) % 512;
    assert size - 512 == 512 * q + m;
    assert size == 512 * (q + 1) + m;
  }

  lemma {:induction false} PaddingIsSourceFormula(size: int)
    requires size > 0
    ensures Padding(size) == (BlockSize - size % BlockSize) % BlockSize
    decreases size
  {
    if size > BlockSize {
      RemainderWithoutOneBlock(size);
      PaddingIsSourceFormula(size - BlockSize);
    }
  }

  /** Data plus padding ends on a block boundary. */
  lemma {:induction false} PaddingAligns(size: int)
    requires size > 0
    ensures (size + Padding(size)) % BlockSize == 0
    decreases size
  {
    if size > BlockSize {
      PaddingAligns(size - BlockSize);
      RemainderWithoutOneBlock(size + Padding(size));
    }
  }

  /** Data plus padding is the size rounded up to the next multiple of 512. */
  lemma PaddedSizeIsRoundedUp(size: int)
    requires size > 0
    ensures size + Padding(size) == ((size + BlockSize - 1) / BlockSize) * BlockSize
  {
    PaddingAligns(size);
    var q, m := size / 512, size % 512;
    assert size == 512 * q + m;
    if m == 0 {
      assert (size + 511) / 512 == q;
    } else {
      assert Padding(size) == 512 - m;
      assert (size + 511) / 512 == q + 1;
    }
  }

  lemma PaddingOfTen()
    ensures Padding(10) == 502
  {
  }

  // ---------------------------------------------------------------------------
  // Header encoding (the layout a tar writer produces, for the round trips)
  // ---------------------------------------------------------------------------

  /** An entry name the reader can reproduce: non-empty, at most 100 ASCII characters, no NUL. */
  predicate IsValidName(name: string)
  {
    0 < |name| <= NameLength && forall i :: 0 <= i < |name| ==> 0 < name[i] as int < 128
  }

  /** `w` octal digits of `n`, most significant first, zero-filled on the left. */
  function OctalDigits(n: nat, w: nat): (r: string)
    ensures |r| == w
    ensures forall i :: 0 <= i < w ==> IsOctalDigit(r[i])
  {
    if w == 0 then "" else OctalDigits(n / 8, w - 1) + [('0' as int + n % 8) as char]
  }

  lemma {:induction false} OctalDigitsValue(n: nat, w: nat)
    requires n < Pow8(w)
    ensures OctalValue(OctalDigits(n, w)) == n
  {
    if w > 0 {
      var s := OctalDigits(n, w);
      assert s[..w - 1] == OctalDigits(n / 8, w - 1);
      OctalDigitsValue(n / 8, w - 1);
    }
  }

  /** Largest size the 11-digit octal size field can carry. */
  function NameField(name: string): (r: seq<byte>)
    requires IsValidName(name)
    ensures |r| == NameLength
  {
    EncodeAscii(name) + Zeros(NameLength - |name|)
  }

  function SizeField(size: nat): (r: seq<byte>)
    requires size < Pow8(11)
    ensures |r| == SizeLength
  {
    EncodeAscii(OctalDigits(size, 11)) + [0]
  }

  /** A ustar header block with the given name, size and type flag; the fields the reader ignores are zero. */
  function EncodeHeader(name: string, size: nat, flag: byte): (r: seq<byte>)
    requires IsValidName(name) && size < Pow8(11)
    ensures IsHeaderBlock(r)
    ensures r[..NameLength] == NameField(name)
    ensures r[SizeOffset..SizeOffset + SizeLength] == SizeField(size)
    ensures r[TypeFlagOffset] == flag
  {
    var r := NameField(name) + Zeros(24) + SizeField(size) + Zeros(20) + [flag] + Zeros(355);
    assert r[..NameLength] == NameField(name);
    assert r[SizeOffset..SizeOffset + SizeLength] == SizeField(size);
    r
  }

  lemma DecodeNameOfEncoded(name: string, size: nat, flag: byte)
    requires IsValidName(name) && size < Pow8(11)
    ensures DecodeName(EncodeHeader(name, size, flag)) == Some(name)
  {
    var h := EncodeHeader(name, size, flag);
    var a := EncodeAscii(name);
    var z := Zeros(NameLength - |name|);
    assert 0 !in a by {
      forall i | 0 <= i < |a| ensures a[i] != 0 { }
    }
    PrefixUntilNulOfTerminated(a, z);
    assert h[..NameLength] == a + z;
    AsciiRoundTrip(name);
  }

  lemma DecodeSizeOfEncoded(name: string, size: nat, flag: byte)
    requires IsValidName(name) && size < Pow8(11)
    ensures DecodeOctalSize(EncodeHeader(name, size, flag)) == size
  {
    var h := EncodeHeader(name, size, flag);
    var digits := OctalDigits(size, 11);
    assert IsAsciiText(digits) by {
      forall i | 0 <= i < |digits| ensures digits[i] as int < 128 { assert IsOctalDigit(digits[i]); }
    }
    var a := EncodeAscii(digits);
    assert 0 !in a by {
      forall i | 0 <= i < |a| ensures a[i] != 0 { assert IsOctalDigit(digits[i]); }
    }
    PrefixUntilNulOfTerminated(a, [0]);
    assert h[SizeOffset..SizeOffset + SizeLength] == a + [0];
    AsciiRoundTrip(digits);
    assert !IsWhitespace(digits[0]) && !IsWhitespace(digits[10]);
    assert SizeText(h) == digits;
    OctalDigitsValue(size, 11);
    DigitSizeIsOctalValue(h);
  }

  lemma EncodedHeaderIsNotZero(name: string, size: nat, flag: byte)
    requires IsValidName(name) && size < Pow8(11)
    ensures !IsZeroBlock(EncodeHeader(name, size, flag))
  {
    var h := EncodeHeader(name, size, flag);
    assert h[0] == NameField(name)[0];
    assert h[0] != 0;
    ZeroBlockIsAllZero(h);
  }
}
