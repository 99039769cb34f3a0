/** Types shared by every part of the model. A C++ `std::string` that carries wire bytes is a
    `Bytes` value; a `std::string` that carries text (paths, config lines) is a Dafny `string`. */
module Common {
  datatype Option<+T> = None | Some(value: T)

  type byte = b: int | 0 <= b < 256

  type Bytes = seq<byte>

  type uint32 = x: int | 0 <= x < TWO_32

  type uint64 = x: int | 0 <= x < TWO_64

  type int32 = x: int | -TWO_31 <= x < TWO_31

  const TWO_31 := 0x8000_0000
  const TWO_32 := 0x1_0000_0000
  const TWO_64 := 0x1_0000_0000_0000_0000

  /** The bytes of an ASCII text, such as a string literal or an identifier of the source. */
  function Ascii(s: string): (r: Bytes)
    ensures |r| == |s| && forall i :: 0 <= i < |r| ==> r[i] < 0x80
    ensures forall i :: 0 <= i < |s| && s[i] < 128 as char ==> r[i] == s[i] as int
  {
    seq(|s|, i requires 0 <= i < |s| => s[i] as int % 0x80)
  }

  lemma Regroup(a: Bytes, b: Bytes, c: Bytes)
    ensures (a + b) + c == a + (b + c)
    ensures |a| <= |a + b| && |b| <= |a + b|
  {
  }
}
