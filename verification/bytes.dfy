/** Bytes as the VM stores them (`ByteArray` contents, marshal streams), and
    the conversion of ASCII text literals into bytes. */
module Bytes {

  type Byte = b: int | 0 <= b < 256

  /** The byte string of an ASCII text (each character's code point). */
  function Ascii(s: string): (r: seq<Byte>)
    requires forall i :: 0 <= i < |s| ==> s[i] as int < 256
    ensures |r| == |s|
    ensures forall i :: 0 <= i < |s| ==> r[i] == s[i] as int
  {
    seq(|s|, i requires 0 <= i < |s| => s[i] as int)
  }

  const Newline: Byte := 10
  const CarriageReturn: Byte := 13
}
