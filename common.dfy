/** Shared vocabulary: bytes, optional values, the .NET exceptions that can
    escape the core, and the packed little-endian field readers that replace
    the marshalling of byte ranges into structs. */
module Common {

  /** An unsigned 8-bit value, as carried by the serial link and stored in the image. */
  type byte = b: int | 0 <= b < 0x100

  datatype Option<+T> = None | Some(value: T)

  /** The exceptions the core raises and nothing in it catches. */
  datatype Exception =
    | IndexOutOfRange     // an array index past the end of the image
    | ArgumentOutOfRange  // a DateTime built from impossible calendar fields
    | Argument            // a record read that runs past the end of the image

  /** A call that either returns a value or raises. */
  datatype Outcome<+T> = Returned(value: T) | Threw(error: Exception)

  // ---------------------------------------------------------------------
  // Packed little-endian field readers and the writers that invert them.
  // ---------------------------------------------------------------------

  /** Unsigned 16-bit little-endian field at offset i. */
  function U16(b: seq<byte>, i: nat): (v: int)
    requires i + 2 <= |b|
    ensures 0 <= v < 0x1_0000
  {
    b[i] as int + 0x100 * b[i + 1] as int
  }

  /** Unsigned 32-bit little-endian field at offset i. */
  function U32(b: seq<byte>, i: nat): (v: int)
    requires i + 4 <= |b|
    ensures 0 <= v < 0x1_0000_0000
  {
    U16(b, i) + 0x1_0000 * U16(b, i + 2)
  }

  /** Signed (two's complement) 16-bit little-endian field at offset i. */
  function I16(b: seq<byte>, i: nat): (v: int)
    requires i + 2 <= |b|
    ensures -0x8000 <= v < 0x8000
  {
    var u := U16(b, i);
    if u < 0x8000 then u else u - 0x1_0000
  }

  /** Signed (two's complement) 32-bit little-endian field at offset i. */
  function I32(b: seq<byte>, i: nat): (v: int)
    requires i + 4 <= |b|
    ensures -0x8000_0000 <= v < 0x8000_0000
  {
    var u := U32(b, i);
    if u < 0x8000_0000 then u else u - 0x1_0000_0000
  }

  predicate IsInt16(v: int) { -0x8000 <= v < 0x8000 }
  predicate IsInt32(v: int) { -0x8000_0000 <= v < 0x8000_0000 }

  function LE16(v: int): (r: seq<byte>)
    requires 0 <= v < 0x1_0000
    ensures |r| == 2 && U16(r, 0) == v
  {
    [v % 0x100, v / 0x100]
  }

  function LE32(v: int): (r: seq<byte>)
    requires 0 <= v < 0x1_0000_0000
    ensures |r| == 4 && U32(r, 0) == v
  {
    var lo, hi := LE16(v % 0x1_0000), LE16(v / 0x1_0000);
    assert U16(lo + hi, 0) == U16(lo, 0) && U16(lo + hi, 2) == U16(hi, 0);
    lo + hi
  }

  function LEI16(v: int): (r: seq<byte>)
    requires IsInt16(v)
    ensures |r| == 2 && I16(r, 0) == v
  {
    LE16(v % 0x1_0000)
  }

  function LEI32(v: int): (r: seq<byte>)
    requires IsInt32(v)
    ensures |r| == 4 && I32(r, 0) == v
  {
    LE32(v % 0x1_0000_0000)
  }

  // ---------------------------------------------------------------------
  // Unchecked (wrap-around) arithmetic of C#'s Int32 and Int16.
  // ---------------------------------------------------------------------

  /** The Int32 value that C#'s unchecked arithmetic yields for the exact result x. */
  function Wrap32(x: int): (v: int)
    ensures IsInt32(v)
    ensures (v - x) % 0x1_0000_0000 == 0
    ensures IsInt32(x) ==> v == x
  {
    (x + 0x8000_0000) % 0x1_0000_0000 - 0x8000_0000
  }

  /** The Int16 value that C#'s unchecked arithmetic yields for the exact result x. */
  function Wrap16(x: int): (v: int)
    ensures IsInt16(v)
    ensures (v - x) % 0x1_0000 == 0
    ensures IsInt16(x) ==> v == x
  {
    (x + 0x8000) % 0x1_0000 - 0x8000
  }
}
