/** Raw bytes as Foundation's `Data` holds them, and their ASCII reading. */
module Bytes {
  import opened Wrappers

  newtype byte = x: int | 0 <= x < 256

  /** `n` zero bytes. */
  function Zeros(n: nat): (r: seq<byte>)
    ensures |r| == n
    ensures forall i :: 0 <= i < n ==> r[i] == 0
  {
    seq(n, _ => 0)
  }

  /** `data.prefix(while: { $0 != 0 })`: the bytes before the first NUL. */
  function PrefixUntilNul(bs: seq<byte>): (r: seq<byte>)
    ensures r <= bs
    ensures 0 !in r
    ensures |r| < |bs| ==> bs[|r|] == 0
  {
    if |bs| == 0 || bs[0] == 0 then [] else [bs[0]] + PrefixUntilNul(bs[1..])
  }

  /** A NUL-free run followed by a NUL (or by nothing) reads back as that run. */
  lemma {:induction false} PrefixUntilNulOfTerminated(a: seq<byte>, z: seq<byte>)
    requires 0 !in a
    requires z == [] || z[0] == 0
    ensures PrefixUntilNul(a + z) == a
  {
    if a != [] {
      assert (a + z)[1..] == a[1..] + z;
      PrefixUntilNulOfTerminated(a[1..], z);
    }
  }

  predicate IsAsciiByte(b: byte) { b < 128 }

  predicate IsAscii(bs: seq<byte>) { forall i :: 0 <= i < |bs| ==> IsAsciiByte(bs[i]) }

  /** `String(data:encoding: .ascii)`: fails on any byte above 0x7F. */
  function DecodeAscii(bs: seq<byte>): (r: Option<string>)
    ensures r.Some? <==> IsAscii(bs)
    ensures r.Some? ==> |r.value| == |bs|
    ensures r.Some? ==> forall i :: 0 <= i < |bs| ==> r.value[i] as int == bs[i] as int
  {
    if |bs| == 0 then Some("")
    else if !IsAsciiByte(bs[0]) then None
    else match DecodeAscii(bs[1..])
      case None => None
      case Some(rest) => Some([bs[0] as int as char] + rest)
  }

  predicate IsAsciiText(s: string) { forall i :: 0 <= i < |s| ==> s[i] as int < 128 }

  /** The ASCII bytes of a text made only of ASCII characters. */
  function EncodeAscii(s: string): (r: seq<byte>)
    requires IsAsciiText(s)
    ensures |r| == |s|
    ensures forall i :: 0 <= i < |s| ==> r[i] as int == s[i] as int
  {
    seq(|s|, i requires 0 <= i < |s| => s[i] as int as byte)
  }

  lemma AsciiRoundTrip(s: string)
    requires IsAsciiText(s)
    ensures DecodeAscii(EncodeAscii(s)) == Some(s)
  {
    var bs := EncodeAscii(s);
    assert forall i :: 0 <= i < |bs| ==> IsAsciiByte(bs[i]);
    var t := DecodeAscii(bs).value;
    assert forall i :: 0 <= i < |s| ==> t[i] as int == s[i] as int;
    assert t == s;
  }
}
