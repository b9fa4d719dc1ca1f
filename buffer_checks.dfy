/** The three buffer predicates of file.c: `is_ascii`, `is_latin1` and
    `is_utf8`. Each scans the whole 32-byte read buffer, skipping the bytes
    0x00 and 0x1A, and answers yes or no.

    Bytes are unsigned (`bv8`). Where the C type `char` is signed the
    comparisons in `is_ascii` and `is_latin1` see the values -128..127;
    `SignedChar` and the lemmas about it state what that changes. */
module BufferChecks {

  /** The size of `buffer` in `main` and of every `fread` request. */
  const BUFFER_SIZE: nat := 32

  /** Bytes every scan passes over without looking further. */
  predicate Skipped(b: bv8) {
    b == 0x00 || b == 0x1A
  }

  // ---------------------------------------------------------------- ASCII

  /** The byte values `is_ascii` lets through: the two skipped bytes, the
      control codes 0x07-0x0D, escape 0x1B and the printable 0x20-0x7E. */
  predicate AsciiByte(b: bv8) {
    Skipped(b) || 0x07 <= b <= 0x0D || b == 0x1B || 0x20 <= b <= 0x7E
  }

  /** `is_ascii(buffer)` returns 1. */
  predicate AsciiBuffer(buf: seq<bv8>)
    requires |buf| == BUFFER_SIZE
  {
    forall i :: 0 <= i < BUFFER_SIZE ==> AsciiByte(buf[i])
  }

  /** The scan of `is_ascii`, with its early `return 0`. */
  method IsAscii(buffer: array<bv8>) returns (r: bool)
    requires buffer.Length == BUFFER_SIZE
    ensures r == AsciiBuffer(buffer[..])
  {
    for i := 0 to BUFFER_SIZE
      invariant forall k :: 0 <= k < i ==> AsciiByte(buffer[k])
    {
      var b := buffer[i];
      if b == 0x00 || b == 0x1A {
        continue;
      }
      if (b < 0x07 || b > 0x0D) && (b < 0x20 || b > 0x7E) && b != 0x1B {
        assert !AsciiByte(buffer[..][i]);
        return false;
      }
    }
    return true;
  }

  /** A byte with the high bit set always fails `is_ascii`. */
  lemma HighByteIsNotAscii(buf: seq<bv8>, i: nat)
    requires |buf| == BUFFER_SIZE && i < BUFFER_SIZE && buf[i] >= 0x80
    ensures !AsciiBuffer(buf)
  {
  }

  // -------------------------------------------------------------- LATIN-1

  /** The bytes `is_latin1` rejects, read as unsigned: `b > 128 && b < 160`,
      that is 0x81-0x9F. The byte 0x80 is not among them. */
  predicate C1Byte(b: bv8) {
    0x81 <= b <= 0x9F
  }

  /** `is_latin1(buffer)` returns 1: either `is_ascii` accepts the buffer
      or no byte of it lies in 0x81-0x9F. */
  predicate Latin1Buffer(buf: seq<bv8>)
    requires |buf| == BUFFER_SIZE
  {
    AsciiBuffer(buf) || forall i :: 0 <= i < BUFFER_SIZE ==> !C1Byte(buf[i])
  }

  /** The scan of `is_latin1`: first `is_ascii`, then a scan for 129..159. */
  method IsLatin1(buffer: array<bv8>) returns (r: bool)
    requires buffer.Length == BUFFER_SIZE
    ensures r == Latin1Buffer(buffer[..])
  {
    var ascii := IsAscii(buffer);
    if ascii {
      return true;
    }
    for i := 0 to BUFFER_SIZE
      invariant forall k :: 0 <= k < i ==> !C1Byte(buffer[k])
    {
      var b := buffer[i];
      if b == 0x00 || b == 0x1A {
        continue;
      }
      if b > 128 && b < 160 {
        assert C1Byte(buffer[..][i]) && !AsciiByte(buffer[..][i]);
        return false;
      }
    }
    return true;
  }

  /** The ASCII test is redundant inside `is_latin1`: the answer is
      exactly "no byte in 0x81-0x9F", and every ASCII buffer passes. */
  lemma Latin1Exactly(buf: seq<bv8>)
    requires |buf| == BUFFER_SIZE
    ensures Latin1Buffer(buf) <==> forall i :: 0 <= i < BUFFER_SIZE ==> !C1Byte(buf[i])
    ensures AsciiBuffer(buf) ==> Latin1Buffer(buf)
  {
  }

  /** One byte in 0x81-0x9F makes both `is_ascii` and `is_latin1` fail. */
  lemma C1ByteRejected(buf: seq<bv8>, j: nat)
    requires |buf| == BUFFER_SIZE && j < BUFFER_SIZE && C1Byte(buf[j])
    ensures !AsciiBuffer(buf) && !Latin1Buffer(buf)
  {
    assert !AsciiByte(buf[j]);
  }

  /** The byte 0x80, and any low control code, does not make `is_latin1`
      fail: a buffer of 0x80 and 0x01 bytes passes it although neither
      byte is ASCII text or a printable Latin-1 character. */
  lemma Latin1AcceptsByte80AndControls()
    ensures Latin1Buffer(seq(BUFFER_SIZE, i => if i % 2 == 0 then 0x80 else 0x01))
    ensures !AsciiBuffer(seq(BUFFER_SIZE, i => if i % 2 == 0 then 0x80 else 0x01))
  {
    var buf: seq<bv8> := seq(BUFFER_SIZE, i => if i % 2 == 0 then 0x80 else 0x01);
    assert !AsciiByte(buf[0]);
  }

  // ------------------------------------------------------------ signed char

  /** The value a byte has as a signed `char`. */
  function SignedChar(b: bv8): (v: int)
    ensures -128 <= v < 128
    ensures v % 256 == b as int % 256
  {
    if b < 0x80 then b as int else b as int - 256
  }

  /** The rejection test of `is_ascii` evaluated on a signed `char`. */
  predicate AsciiRejectsSigned(b: bv8) {
    var c := SignedChar(b);
    c != 0 && c != 0x1A && (c < 0x07 || c > 0x0D) && (c < 0x20 || c > 0x7E) && c != 0x1B
  }

  /** With a signed `char`, `is_ascii` accepts and rejects the same bytes. */
  lemma AsciiSignednessIrrelevant(b: bv8)
    ensures AsciiRejectsSigned(b) <==> !AsciiByte(b)
  {
  }

  /** With a signed `char`, the test `b > 128 && b < 160` of `is_latin1`
      never holds, so `is_latin1` accepts every buffer. */
  lemma Latin1SignedAcceptsAll(b: bv8)
    ensures !(128 < SignedChar(b) < 160)
  {
  }

  // ---------------------------------------------------------------- UTF-8

  /** `buffer[j] & 0x80` for a neighbour of the byte being inspected. The
      C code also reads `buffer[32]`, `buffer[33]` and `buffer[34]`, past
      the end of the array; here such a neighbour counts as not having its
      high bit set. */
  predicate HighAt(buf: seq<bv8>, j: nat)
    requires |buf| == BUFFER_SIZE
  {
    j < BUFFER_SIZE && buf[j] >= 0x80
  }

  /** The condition under which `is_utf8` returns 1 at position `i`, with
      the masks read as thresholds: a byte of at least 0x40 followed by one
      high byte, at least 0x20 followed by two, or at least 0x10 followed
      by three. The disjunct `b & 0b00000000` never holds. */
  predicate LeadAt(buf: seq<bv8>, i: nat)
    requires |buf| == BUFFER_SIZE && i < BUFFER_SIZE
  {
    var b := buf[i];
    (b >= 0x40 && HighAt(buf, i + 1))
    || (b >= 0x20 && HighAt(buf, i + 1) && HighAt(buf, i + 2))
    || (b >= 0x10 && HighAt(buf, i + 1) && HighAt(buf, i + 2) && HighAt(buf, i + 3))
  }

  /** `is_utf8` returns 1 when its scan reaches position `i`. */
  predicate MatchAt(buf: seq<bv8>, i: nat)
    requires |buf| == BUFFER_SIZE && i < BUFFER_SIZE
  {
    !Skipped(buf[i]) && LeadAt(buf, i)
  }

  /** `is_utf8(buffer)` returns 1: some position matches. This is an
      existence test, not a check of the well-formed UTF-8 of section 3 of
      RFC 3629. */
  predicate Utf8Buffer(buf: seq<bv8>)
    requires |buf| == BUFFER_SIZE
  {
    exists i :: 0 <= i < BUFFER_SIZE && MatchAt(buf, i)
  }

  /** The scan of `is_utf8`, with the C bit masks and its early `return 1`. */
  method IsUtf8(buffer: array<bv8>) returns (r: bool)
    requires buffer.Length == BUFFER_SIZE
    ensures r == Utf8Buffer(buffer[..])
  {
    for i := 0 to BUFFER_SIZE
      invariant forall k :: 0 <= k < i ==> !MatchAt(buffer[..], k)
    {
      var b := buffer[i];
      if b == 0x00 || b == 0x1A {
        continue;
      }
      var high1 := i + 1 < BUFFER_SIZE && buffer[i + 1] & 0x80 != 0;
      var high2 := i + 2 < BUFFER_SIZE && buffer[i + 2] & 0x80 != 0;
      var high3 := i + 3 < BUFFER_SIZE && buffer[i + 3] & 0x80 != 0;
      if b & 0x00 != 0
        || (b & 0xC0 != 0 && high1)
        || (b & 0xE0 != 0 && high1 && high2)
        || (b & 0xF0 != 0 && high1 && high2 && high3)
      {
        assert MatchAt(buffer[..], i);
        return true;
      }
    }
    return false;
  }

  /** `is_utf8` only ever succeeds on a high byte: a buffer whose bytes
      are all below 0x80, pure ASCII among them, fails it. */
  lemma Utf8NeedsHighByte(buf: seq<bv8>)
    requires |buf| == BUFFER_SIZE
    ensures Utf8Buffer(buf) ==> exists j :: 0 < j < BUFFER_SIZE && buf[j] >= 0x80
  {
  }

  /** At the last position the C code reads `buffer[32]`, past the end of
      the array. Under this model's convention that such a neighbour does
      not have its high bit set, a byte in the last position never makes
      `is_utf8` succeed. */
  lemma Utf8IgnoresLastLead(buf: seq<bv8>)
    requires |buf| == BUFFER_SIZE
    ensures !LeadAt(buf, BUFFER_SIZE - 1)
  {
  }

  /** `is_utf8` accepts byte strings that are not UTF-8: an ASCII letter
      followed by a lone continuation byte 0x85 passes. */
  lemma Utf8AcceptsLoneContinuation(buf: seq<bv8>)
    requires |buf| == BUFFER_SIZE && buf[0] == 0x41 && buf[1] == 0x85
    ensures Utf8Buffer(buf)
  {
    assert MatchAt(buf, 0);
  }
}
