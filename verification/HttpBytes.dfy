/** Bytes, character classes and lookup tables of the HTTP parser (strict build). */
module HttpBytes {

  type byte = b: int | 0 <= b < 256

  const MAX_UINT64: nat := 0xFFFF_FFFF_FFFF_FFFF
  const HTTP_MAX_HEADER_SIZE: nat := 80 * 1024

  const TAB: byte := 9
  const LF: byte := 10
  const CR: byte := 13
  const SP: byte := 32
  const COMMA: byte := 44
  const SLASH: byte := 47
  const DOT: byte := 46
  const COLON: byte := 58
  const SEMICOLON: byte := 59

  // The words the parser compares against, as ASCII.
  const PROXY_CONNECTION: seq<byte> :=  // "proxy-connection"
    [112, 114, 111, 120, 121, 45, 99, 111, 110, 110, 101, 99, 116, 105, 111, 110]
  const CONNECTION: seq<byte> :=  // "connection"
    [99, 111, 110, 110, 101, 99, 116, 105, 111, 110]
  const CONTENT_LENGTH: seq<byte> :=  // "content-length"
    [99, 111, 110, 116, 101, 110, 116, 45, 108, 101, 110, 103, 116, 104]
  const TRANSFER_ENCODING: seq<byte> :=  // "transfer-encoding"
    [116, 114, 97, 110, 115, 102, 101, 114, 45, 101, 110, 99, 111, 100, 105, 110, 103]
  const UPGRADE: seq<byte> :=  // "upgrade"
    [117, 112, 103, 114, 97, 100, 101]
  const CHUNKED: seq<byte> :=  // "chunked"
    [99, 104, 117, 110, 107, 101, 100]
  const KEEP_ALIVE: seq<byte> :=  // "keep-alive"
    [107, 101, 101, 112, 45, 97, 108, 105, 118, 101]
  const CLOSE: seq<byte> :=  // "close"
    [99, 108, 111, 115, 101]

  predicate IsNum(b: byte) {
    48 <= b <= 57
  }

  /** `c | 0x20` on one byte. */
  function Lower(b: byte): byte {
    if (b / 32) % 2 == 1 then b else b + 32
  }

  predicate IsHeaderChar(b: byte) {
    b == CR || b == LF || b == TAB || (b > 31 && b != 127)
  }

  /** The `tokens` table: 0 for a byte that may not occur in a header name, else the byte in lower case. */
  function Token(b: byte): byte {
    if 65 <= b <= 90 then b + 32
    else if 97 <= b <= 122 || IsNum(b) then b
    else if b in {33, 35, 36, 37, 38, 39, 42, 43, 45, 46, 94, 95, 96, 124, 126} then b
    else 0
  }

  /** The `unhex` table. It has 128 initialisers for 256 entries, so every byte above 127 reads as digit 0. */
  function Unhex(b: byte): int {
    if IsNum(b) then b - 48
    else if 65 <= b <= 70 then b - 55
    else if 97 <= b <= 102 then b - 87
    else if b >= 128 then 0
    else -1
  }

  /** A word of the parser indexed as a C string: the byte after the last one is NUL. */
  function CharAt(word: seq<byte>, i: nat): byte {
    if i < |word| then word[i] else 0
  }
}
