/** Shared vocabulary: bytes, 64-bit unsigned integers and optional values. */
module Prelude {
  datatype Option<+T> = None | Some(value: T)

  datatype Result<+T, +E> = Success(value: T) | Failure(error: E)

  type byte = x: int | 0 <= x < 256

  /** A Go string or byte slice; nil and empty slices are the same sequence. */
  type Bytes = seq<byte>

  /** What Go's binary.Uvarint returns: a value and a width that is not positive on failure. */
  datatype Scan = Scan(value: nat, width: int)

  /** The bytes of an ASCII literal. */
  function Ascii(text: string): (b: Bytes)
    requires forall i :: 0 <= i < |text| ==> text[i] as int < 128
    ensures |b| == |text|
  {
    seq<byte>(|text|, i requires 0 <= i < |text| => text[i] as int)
  }

  type u64 = x: int | 0 <= x < 0x1_0000_0000_0000_0000

  lemma {:induction false} SubsetSize<T>(a: set<T>, b: set<T>)
    requires a <= b
    ensures |a| <= |b|
  {
    if a != {} {
      var x :| x in a;
      SubsetSize(a - {x}, b - {x});
    }
  }
}
