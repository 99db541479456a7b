/** The value carried by a process reading. Floats are raw IEEE bits, text is its UTF-8 bytes;
    the eight integer variants are grouped by width in bytes. */
module Bronze {
  import opened Bytes

  datatype PointValue =
    | Null
    | Bool(b: bool)
    | Int(width: nat, v: int)
    | UInt(width: nat, n: nat)
    | Float(bits: nat)
    | Double(bits: nat)
    | Text(text: seq<byte>)
    | Bytes(bytes: seq<byte>)
    | DateTime(us: nat)
}
