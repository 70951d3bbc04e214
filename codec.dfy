/**
 * The embedding codec: a face embedding (a float64 vector) is stored as the
 * lower-case hex text of its raw buffer and read back with bytes.fromhex
 * followed by a float64 view of the buffer.
 *
 * The float values themselves are never interpreted, so an embedding is an
 * opaque byte buffer whose length is a whole number of 8-byte elements.
 */
module EmbeddingCodec {

  type Byte = b: int | 0 <= b < 256

  /** Width in bytes of one float64 element. */
  const ElementWidth: nat := 8

  /** The raw buffer of a float64 vector. */
  type Embedding = b: seq<Byte> | |b| % 8 == 0

  datatype CodecError =
    | NonHexDigit(position: nat)          // bytes.fromhex: ValueError at that position
    | BufferNotWholeElements(size: nat)   // frombuffer: size is not a multiple of 8

  datatype Result<+T> = Ok(value: T) | Err(error: CodecError)

  /** The characters bytes.fromhex skips before a byte pair (ASCII whitespace). */
  predicate IsSpace(c: char) {
    c == ' ' || c == '\t' || c == '\n' || c == '\r' || c as int == 11 || c as int == 12
  }

  predicate IsHexDigit(c: char) {
    ('0' <= c <= '9') || ('a' <= c <= 'f') || ('A' <= c <= 'F')
  }

  function HexValue(c: char): (v: nat)
    requires IsHexDigit(c)
    ensures v < 16
  {
    if '0' <= c <= '9' then c as int - '0' as int
    else if 'a' <= c <= 'f' then c as int - 'a' as int + 10
    else c as int - 'A' as int + 10
  }

  /** The lower-case digit bytes.hex writes for a nibble. */
  function HexDigit(v: nat): (c: char)
    requires v < 16
    ensures IsHexDigit(c) && !IsSpace(c) && HexValue(c) == v
  {
    "0123456789abcdef"[v]
  }

  /** bytes.hex: two lower-case digits per byte, high nibble first. */
  function ToHex(b: seq<Byte>): (s: string)
    ensures |s| == 2 * |b|
    ensures forall k :: 0 <= k < |s| ==> IsHexDigit(s[k]) && !IsSpace(s[k])
  {
    if b == [] then ""
    else [HexDigit(b[0] / 16), HexDigit(b[0] % 16)] + ToHex(b[1..])
  }

  function ShiftError(e: CodecError, offset: nat): CodecError {
    match e
    case NonHexDigit(p) => NonHexDigit(p + offset)
    case BufferNotWholeElements(n) => e
  }

  /**
   * bytes.fromhex as CPython implements it: whitespace is skipped before each
   * byte pair (not between the two digits of a pair); a character that is
   * not a hex digit, or a missing second digit, fails with its position.
   */
  function FromHex(s: string): (r: Result<seq<Byte>>)
    decreases |s|
  {
    if s == [] then Ok([])
    else if IsSpace(s[0]) then
      match FromHex(s[1..])
      case Ok(rest) => Ok(rest)
      case Err(e) => Err(ShiftError(e, 1))
    else if !IsHexDigit(s[0]) then Err(NonHexDigit(0))
    else if |s| == 1 || !IsHexDigit(s[1]) then Err(NonHexDigit(1))
    else
      match FromHex(s[2..])
      case Ok(rest) => Ok([HexValue(s[0]) * 16 + HexValue(s[1])] + rest)
      case Err(e) => Err(ShiftError(e, 2))
  }

  /** embedding_to_hex: the hex text of the raw buffer, 16 characters per element. */
  function EmbeddingToHex(e: Embedding): (s: string)
    ensures |s| == 2 * ElementWidth * (|e| / ElementWidth)
    ensures |s| % 16 == 0
  {
    ToHex(e)
  }

  /** hex_to_embedding: bytes.fromhex, then a float64 view of the buffer. */
  function HexToEmbedding(s: string): (r: Result<Embedding>)
  {
    match FromHex(s)
    case Err(e) => Err(e)
    case Ok(b) => if |b| % ElementWidth != 0 then Err(BufferNotWholeElements(|b|)) else Ok(b)
  }

  // ---------------------------------------------------------------------------
  // Round trip

  lemma HexPairValue(x: Byte)
    ensures HexValue(HexDigit(x / 16)) * 16 + HexValue(HexDigit(x % 16)) == x
  {
  }

  lemma {:induction false} FromHexToHex(b: seq<Byte>)
    ensures FromHex(ToHex(b)) == Ok(b)
  {
    if b != [] {
      var s := ToHex(b);
      assert s[2..] == ToHex(b[1..]);
      FromHexToHex(b[1..]);
      HexPairValue(b[0]);
      assert [b[0]] + b[1..] == b;
    }
  }

  /** Reading back what embedding_to_hex wrote gives the same embedding. */
  lemma RoundTrip(e: Embedding)
    ensures HexToEmbedding(EmbeddingToHex(e)) == Ok(e)
  {
    FromHexToHex(e);
  }

  /** bytes.fromhex skips whitespace, so a decodable text need not have even length. */
  lemma LeadingSpaceIgnored(e: Embedding)
    ensures |[' '] + EmbeddingToHex(e)| % 2 == 1
    ensures HexToEmbedding([' '] + EmbeddingToHex(e)) == Ok(e)
  {
    var s := [' '] + EmbeddingToHex(e);
    assert s[1..] == EmbeddingToHex(e);
    FromHexToHex(e);
  }

  // ---------------------------------------------------------------------------
  // Failure conditions

  predicate NoSpace(s: string) {
    forall k :: 0 <= k < |s| ==> !IsSpace(s[k])
  }

  predicate AllHex(s: string) {
    forall k :: 0 <= k < |s| ==> IsHexDigit(s[k])
  }

  /** On whitespace-free text, fromhex succeeds exactly on even-length all-hex text, one byte per pair. */
  lemma {:induction false} FromHexPlain(s: string)
    requires NoSpace(s)
    ensures FromHex(s).Ok? <==> (|s| % 2 == 0 && AllHex(s))
    ensures FromHex(s).Ok? ==> |FromHex(s).value| == |s| / 2
  {
    if s != [] && IsHexDigit(s[0]) && |s| > 1 && IsHexDigit(s[1]) {
      FromHexPlain(s[2..]);
      if AllHex(s[2..]) {
        forall k | 0 <= k < |s| ensures IsHexDigit(s[k]) {
          if k >= 2 { assert s[k] == s[2..][k - 2]; }
        }
      }
      if AllHex(s) {
        forall k | 0 <= k < |s[2..]| ensures IsHexDigit(s[2..][k]) {
          assert s[2..][k] == s[k + 2];
        }
      }
    }
  }

  /**
   * hex_to_embedding on whitespace-free text succeeds if and only if every
   * character is a hex digit and the length is a whole number of 16-digit
   * elements; so odd length, a non-hex character or a byte count that is not
   * a multiple of 8 each make it fail.
   */
  lemma DecodeSucceedsIff(s: string)
    requires NoSpace(s)
    ensures HexToEmbedding(s).Ok? <==> (AllHex(s) && |s| % 16 == 0)
  {
    FromHexPlain(s);
    WholeElements(|s|);
  }

  lemma WholeElements(n: nat)
    ensures (n % 2 == 0 && (n / 2) % 8 == 0) <==> n % 16 == 0
  {
    var q, r := n / 16, n % 16;
    assert n == 16 * q + r;
    assert n / 2 == 8 * q + r / 2;
  }

  /** A character that is neither a hex digit nor whitespace makes decoding fail, wherever it is. */
  lemma {:induction false} NonHexCharacterFails(s: string, k: nat)
    requires k < |s| && !IsHexDigit(s[k]) && !IsSpace(s[k])
    ensures FromHex(s).Err? && HexToEmbedding(s).Err?
  {
    if IsSpace(s[0]) {
      assert s[1..][k - 1] == s[k];
      NonHexCharacterFails(s[1..], k - 1);
    } else if IsHexDigit(s[0]) && |s| > 1 && IsHexDigit(s[1]) {
      assert k >= 2;
      assert s[2..][k - 2] == s[k];
      NonHexCharacterFails(s[2..], k - 2);
    }
  }

  /** A buffer that is not a whole number of float64 elements is refused. */
  lemma PartialElementFails(s: string)
    requires FromHex(s).Ok? && |FromHex(s).value| % 8 != 0
    ensures HexToEmbedding(s) == Err(BufferNotWholeElements(|FromHex(s).value|))
  {
  }
}
