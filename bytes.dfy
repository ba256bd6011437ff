/** Basic values shared by the scanning and patching engine. */
module Bytes {

  /** One element of a Uint8Array. */
  newtype byte = b: int | 0 <= b < 256

  /** The printable ASCII range used for string extraction (32..126 inclusive). */
  predicate Printable(b: byte) {
    32 <= b <= 126
  }

  datatype Option<T> = None | Some(value: T)

  /** One hit in a buffer: where it starts, how many bytes it covers, and those bytes. */
  datatype Match = Match(offset: nat, length: nat, text: seq<byte>)

  /** The hit lies inside a buffer of n bytes. */
  predicate InBounds(m: Match, n: nat) {
    m.offset + m.length <= n
  }

  /** Byte position j lies in the range the hit covers. */
  predicate Covers(m: Match, j: int) {
    m.offset <= j < m.offset + m.length
  }

  /** A run of printable bytes starting at an absolute offset of the buffer. */
  datatype Run = Run(offset: nat, text: seq<byte>)

  /** The position just past the run. */
  function End(r: Run): nat {
    r.offset + |r.text|
  }

  /** A user pattern, together with the byte encodings of the pattern, of its
      lower-case form and of its upper-case form, as the caller's text encoder
      produced them. */
  datatype Pattern = Pattern(text: seq<char>, encoded: seq<byte>, lowerEncoded: seq<byte>, upperEncoded: seq<byte>)
}
