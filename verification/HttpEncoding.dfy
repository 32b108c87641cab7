/** The chunked encoding of a request body. */
module HttpEncoding {
  import opened HttpBytes

  const CRLF: seq<byte> := [CR, LF]
  const FIN: seq<byte> := [48, CR, LF, CR, LF]  // "0\r\n\r\n"

  /** sprintf "%X" of one digit. */
  function HexDigit(d: nat): byte
    requires d < 16
  {
    if d < 10 then 48 + d else 55 + d
  }

  /** sprintf "%X". */
  function Hex(n: nat): seq<byte> {
    if n < 16 then [HexDigit(n)] else Hex(n / 16) + [HexDigit(n % 16)]
  }

  function EncodeChunk(chunk: seq<byte>): seq<byte> {
    Hex(|chunk|) + CRLF + chunk + CRLF
  }

  function EncodeChunks(chunks: seq<seq<byte>>): seq<byte> {
    if chunks == [] then [] else EncodeChunk(chunks[0]) + EncodeChunks(chunks[1..])
  }

  function Encode(chunks: seq<seq<byte>>): seq<byte> {
    EncodeChunks(chunks) + FIN
  }

  /** size_buff has room for seven digits, CR LF and the terminator. */
  predicate Sizes(chunks: seq<seq<byte>>) {
    forall chunk :: chunk in chunks ==> 0 < |chunk| < 0x1000_0000
  }

  /** The chunks up to the first empty one, where the callback's size 0 ends the body. */
  function SentChunks(chunks: seq<seq<byte>>): (sent: seq<seq<byte>>)
    ensures sent <= chunks && [] !in sent
    ensures |sent| < |chunks| ==> chunks[|sent|] == []
  {
    if chunks == [] || chunks[0] == [] then [] else [chunks[0]] + SentChunks(chunks[1..])
  }

  /** What a chunked send puts on the wire are chunks the round trip is about. */
  lemma {:induction false} SentSizes(chunks: seq<seq<byte>>)
    requires forall chunk :: chunk in chunks ==> |chunk| < 0x1000_0000
    ensures Sizes(SentChunks(chunks))
    decreases |chunks|
  {
    if chunks != [] && chunks[0] != [] {
      SentSizes(chunks[1..]);
      assert forall chunk :: chunk in chunks[1..] ==> chunk in chunks;
    }
  }
}
