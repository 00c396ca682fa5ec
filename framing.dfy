/**
 * The byte-level layout of a stored configuration record on the EEPROM:
 * a two-byte little-endian length followed by that many payload bytes.
 * The length is the payload size cast with `as u16`, and a length field of
 * two erased bytes (0xFF 0xFF) means the device was never written.
 */
module Framing {

  /** An unsigned 8-bit value (`u8`). */
  newtype byte = b: int | 0 <= b < 256

  /** The value of an erased EEPROM cell. */
  const ERASED: byte := 0xFF

  /** Size in bytes of the length prefix. */
  const LENGTH_SIZE: nat := 2

  /** Number of values of a `u16`. */
  const U16_RANGE: nat := 0x1_0000

  /** The one length whose little-endian encoding is two erased bytes. */
  const BLANK_LENGTH: nat := 0xFFFF

  /** `n as u16`: keeps the low 16 bits of `n`, silently. */
  function AsU16(n: nat): (r: nat)
    ensures r < U16_RANGE
    ensures n < U16_RANGE ==> r == n
    ensures (n - r) % U16_RANGE == 0
  {
    n % U16_RANGE
  }

  /** `u16::from_le_bytes([lo, hi])`. */
  function FromLeBytes(lo: byte, hi: byte): (n: nat)
    ensures n < U16_RANGE
  {
    lo as int + 256 * hi as int
  }

  /** `u16::to_le_bytes(n)`: low byte first. */
  function ToLeBytes(n: nat): (r: seq<byte>)
    requires n < U16_RANGE
    ensures |r| == LENGTH_SIZE
    ensures FromLeBytes(r[0], r[1]) == n
  {
    [(n % 256) as byte, (n / 256) as byte]
  }

  /** Decoding two bytes and encoding the result gives the same two bytes back. */
  lemma {:induction false} LeBytesRoundTrip(lo: byte, hi: byte)
    ensures ToLeBytes(FromLeBytes(lo, hi)) == [lo, hi]
  {
    var n := FromLeBytes(lo, hi);
    assert n == hi as int * 256 + lo as int;
    assert n / 256 == hi as int && n % 256 == lo as int by {
      DivModUnique(n, hi as int, lo as int);
    }
  }

  /** Quotient and remainder by 256 are unique. */
  lemma DivModUnique(n: int, q: int, r: int)
    requires 0 <= r < 256 && n == q * 256 + r
    ensures n / 256 == q && n % 256 == r
  {
  }

  /** The blank test of the read path: both length bytes are erased. */
  predicate IsBlank(lo: byte, hi: byte)
  {
    lo == ERASED && hi == ERASED
  }

  /** A length field reads as blank exactly when it encodes the length 0xFFFF. */
  lemma BlankIsSentinelLength(lo: byte, hi: byte)
    ensures IsBlank(lo, hi) <==> FromLeBytes(lo, hi) == BLANK_LENGTH
  {
    if FromLeBytes(lo, hi) == BLANK_LENGTH {
      assert hi as int * 256 + lo as int == 255 * 256 + 255;
      DivModUnique(BLANK_LENGTH, hi as int, lo as int);
      DivModUnique(BLANK_LENGTH, 255, 255);
    }
  }

  /** The bytes the write path stores: the truncated length, then the payload. */
  function Frame(payload: seq<byte>): (f: seq<byte>)
    ensures |f| == LENGTH_SIZE + |payload|
    ensures FromLeBytes(f[0], f[1]) == AsU16(|payload|)
    ensures f[LENGTH_SIZE..] == payload
  {
    ToLeBytes(AsU16(|payload|)) + payload
  }

  /**
   * The length field of a frame is the blank sentinel exactly when the payload
   * size is 0xFFFF modulo 2^16: nothing on the write path keeps such a payload out.
   */
  lemma FrameBlankIffSentinelSize(payload: seq<byte>)
    ensures IsBlank(Frame(payload)[0], Frame(payload)[1]) <==> |payload| % U16_RANGE == BLANK_LENGTH
  {
    var f := Frame(payload);
    BlankIsSentinelLength(f[0], f[1]);
  }
}
