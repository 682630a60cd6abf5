/** Values as they travel between the programs and the log: bytes, optional values,
    fixed-width integers and the records handed to a writer. Go strings are byte
    strings, so a Go `string` is modelled as `Bytes` and `[]byte(s)` is the identity. */
module Wire {

  newtype byte = b: int | 0 <= b < 256

  type Bytes = seq<byte>

  /** Go's int64, used for millisecond timestamps. */
  newtype int64 = x: int | -0x8000_0000_0000_0000 <= x < 0x8000_0000_0000_0000

  datatype Option<+T> = None | Some(value: T)

  /** The outcome of a call that may raise or return an error. */
  datatype Result<+T> = Ok(value: T) | Err

  /** A Go `[]byte` as a loop receives it: nil, which is what kafka-go gives for the value of
      a null record (Python's kafka client gives None), or a slice, possibly empty. */
  datatype GoBytes = Nil | NonNil(bytes: Bytes)

  /** A record handed to a writer or producer: a key and a value. */
  datatype Message = Message(key: Bytes, value: Bytes)

  ghost predicate IsAscii(s: string) {
    forall k | 0 <= k < |s| :: s[k] as int < 128
  }

  /** The bytes of an ASCII string literal: one byte per character, equal to its code point. */
  function Ascii(s: string): (r: Bytes)
    requires IsAscii(s)
    ensures |r| == |s|
    ensures forall k | 0 <= k < |s| :: r[k] as int == s[k] as int
  {
    seq(|s|, k requires 0 <= k < |s| => s[k] as int as byte)
  }

  /** Python's `str.encode()`: the UTF-8 encoding of a string of Unicode scalar values. */
  function Utf8(s: string): (r: Bytes)
    ensures |r| >= |s|
  {
    if s == [] then [] else Utf8Char(s[0]) + Utf8(s[1..])
  }

  function Utf8Char(c: char): (r: Bytes)
    ensures 1 <= |r| <= 4
    ensures c as int < 128 <==> |r| == 1
  {
    var cp := c as int;
    if cp < 0x80 then [cp as byte]
    else if cp < 0x800 then [(0xC0 + cp / 0x40) as byte, (0x80 + cp % 0x40) as byte]
    else if cp < 0x1_0000 then
      [(0xE0 + cp / 0x1000) as byte, (0x80 + cp / 0x40 % 0x40) as byte, (0x80 + cp % 0x40) as byte]
    else
      [(0xF0 + cp / 0x4_0000) as byte, (0x80 + cp / 0x1000 % 0x40) as byte,
       (0x80 + cp / 0x40 % 0x40) as byte, (0x80 + cp % 0x40) as byte]
  }

  /** On ASCII text, UTF-8 and the one-byte-per-character encoding agree. */
  lemma {:induction false} Utf8OfAscii(s: string)
    requires IsAscii(s)
    ensures Utf8(s) == Ascii(s)
  {
    if s != [] {
      Utf8OfAscii(s[1..]);
    }
  }
}
