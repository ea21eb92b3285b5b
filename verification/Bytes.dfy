/** Octets, the ASCII octets the protocol gives a meaning to, and status codes. */
module Bytes {

  type byte = b: int | 0 <= b < 256

  type Text = seq<byte>

  const TAB: byte := 0x09
  const LF: byte := 0x0A
  const CR: byte := 0x0D
  const SPACE: byte := 0x20
  const QUOTE: byte := 0x22
  const PLUS: byte := 0x2B
  const COMMA: byte := 0x2C
  const MINUS: byte := 0x2D
  const DOT: byte := 0x2E
  const SLASH: byte := 0x2F
  const ZERO: byte := 0x30
  const NINE: byte := 0x39
  const COLON: byte := 0x3A
  const UPPER_E: byte := 0x45
  const LBRACKET: byte := 0x5B
  const BACKSLASH: byte := 0x5C
  const RBRACKET: byte := 0x5D
  const LOWER_B: byte := 0x62
  const LOWER_E: byte := 0x65
  const LOWER_F: byte := 0x66
  const LOWER_N: byte := 0x6E
  const LOWER_R: byte := 0x72
  const LOWER_T: byte := 0x74
  const LOWER_U: byte := 0x75
  const LBRACE: byte := 0x7B
  const RBRACE: byte := 0x7D

  const U32: int := 0x1_0000_0000

  type u32 = x: int | 0 <= x < U32

  predicate IsSpace(b: byte) {
    b == SPACE || b == TAB || b == CR || b == LF
  }

  predicate IsDigit(b: byte) {
    ZERO <= b <= NINE
  }

  /** The value of a hexadecimal digit, or -1. */
  function HexValue(b: byte): (v: int)
    ensures -1 <= v < 16
  {
    if 0x30 <= b <= 0x39 then b - 0x30
    else if 0x61 <= b <= 0x66 then b - 0x61 + 10
    else if 0x41 <= b <= 0x46 then b - 0x41 + 10
    else -1
  }

  predicate IsHex(b: byte) {
    HexValue(b) >= 0
  }

  /** The octets of an ASCII string. */
  function Ascii(text: string): (s: Text)
    requires forall i :: 0 <= i < |text| ==> text[i] as int < 128
    ensures |s| == |text|
    ensures forall i :: 0 <= i < |s| ==> s[i] == text[i] as int
  {
    seq(|text|, i requires 0 <= i < |text| => text[i] as int)
  }

  /** What the C functions return: 0 or a negative errno. */
  datatype Status =
    | Ok
    | InvalidInput      // -EINVAL
    | Stale             // -ESTALE
    | TooLong           // -EMSGSIZE
    | NotConnected      // -ENOTCONN
    | TryAgain          // -EAGAIN
    | NoSpace           // -ENOSPC
    | NoMessage         // -ENOMSG
    | NoMemory          // -ENOMEM
    | SendFailed        // any error of a transport

  datatype Option<+T> = None | Some(value: T)
}
