/** What `main` reports for a few small regular files, read through
    `FileReads`. The first contents of the buffer matter whenever a file is
    shorter than the buffer, so each scenario names them. */
module Scenarios {
  import opened Flags
  import opened BufferChecks
  import opened Detect

  /** A full buffer's worth of the byte `b`. */
  function Repeat(b: bv8): (r: seq<bv8>)
    ensures |r| == BUFFER_SIZE && forall i :: 0 <= i < BUFFER_SIZE ==> r[i] == b
  {
    seq(BUFFER_SIZE, _ => b)
  }

  /** A buffer that starts out filled with zero bytes. */
  function Zeroes(): (z: seq<bv8>)
    ensures |z| == BUFFER_SIZE && forall i :: 0 <= i < BUFFER_SIZE ==> z[i] == 0
  {
    Repeat(0)
  }

  /** A file of at most 32 bytes is one read followed by an empty one, and
      the only buffer inspected is the first contents with the file copied
      over their front. */
  lemma ShortFileSnapshots(init: seq<bv8>, content: seq<bv8>)
    requires |init| == BUFFER_SIZE && 0 < |content| <= BUFFER_SIZE
    ensures FileReads(content) == [content, []]
    ensures RunSnapshots(init, FileReads(content)) == [Overwrite(init, content)]
  {
    var chunks := FileReads(content);
    var buf := Overwrite(init, content);
    assert chunks[1..] == [[]];
    assert Overwrite(buf, []) == buf;
  }

  /** A file of at most 32 bytes is inspected once, as that one buffer, so
      its label follows from the three checks on it. */
  lemma ShortFile(init: seq<bv8>, content: seq<bv8>)
    requires |init| == BUFFER_SIZE && 0 < |content| <= BUFFER_SIZE
    ensures FileReads(content) == [content, []]
    ensures RunSnapshots(init, FileReads(content)) == [Overwrite(init, content)]
    ensures Resolve(Run(init, FileReads(content)).filetype) ==
      var buf := Overwrite(init, content);
      if AsciiBuffer(buf) then AsciiText
      else if Latin1Buffer(buf) then Latin1Text
      else if Utf8Buffer(buf) then Utf8Text
      else Data
  {
    ShortFileSnapshots(init, content);
    OneSnapshotLabel(init, FileReads(content), Overwrite(init, content));
  }

  /** A run that inspects a single buffer reports what the three checks
      say about that buffer. */
  lemma OneSnapshotLabel(init: seq<bv8>, chunks: seq<Chunk>, buf: seq<bv8>)
    requires |init| == BUFFER_SIZE && |buf| == BUFFER_SIZE
    requires ValidReads(chunks) && chunks[0] != []
    requires RunSnapshots(init, chunks) == [buf]
    ensures Resolve(Run(init, chunks).filetype) ==
      if AsciiBuffer(buf) then AsciiText
      else if Latin1Buffer(buf) then Latin1Text
      else if Utf8Buffer(buf) then Utf8Text
      else Data
  {
    RunLabel(init, chunks);
    assert [buf][0] == buf;
    assert Accepts(UTF8, buf) == Utf8Buffer(buf);
    assert AllAccept(ASCII, [buf]) == AsciiBuffer(buf);
    assert AllAccept(LATIN1, [buf]) == Latin1Buffer(buf);
    assert AllAccept(UTF8, [buf]) == Utf8Buffer(buf);
  }

  /** An empty file is reported as empty, whatever the buffer held. */
  lemma EmptyFile(init: seq<bv8>)
    requires |init| == BUFFER_SIZE
    ensures Run(init, FileReads([])).filetype == EMPTY
    ensures Resolve(Run(init, FileReads([])).filetype) == Empty
  {
  }

  /** A short file whose buffer `is_ascii` accepts is reported as ASCII. */
  lemma ShortFileAscii(init: seq<bv8>, content: seq<bv8>)
    requires |init| == BUFFER_SIZE && 0 < |content| <= BUFFER_SIZE
    requires AsciiBuffer(Overwrite(init, content))
    ensures Resolve(Run(init, FileReads(content)).filetype) == AsciiText
  {
    ShortFile(init, content);
  }

  /** A short file whose buffer holds a byte `is_ascii` rejects, at `i`,
      and none in 0x81-0x9F is reported as LATIN1. */
  lemma ShortFileLatin1(init: seq<bv8>, content: seq<bv8>, i: nat)
    requires |init| == BUFFER_SIZE && 0 < |content| <= BUFFER_SIZE && i < BUFFER_SIZE
    requires !AsciiByte(Overwrite(init, content)[i])
    requires forall k :: 0 <= k < BUFFER_SIZE ==> !C1Byte(Overwrite(init, content)[k])
    ensures Resolve(Run(init, FileReads(content)).filetype) == Latin1Text
  {
    ShortFile(init, content);
  }

  /** A short file whose buffer holds a byte in 0x81-0x9F, at `j`, and a
      position `k` where `is_utf8` succeeds is reported as UTF-8. */
  lemma ShortFileUtf8(init: seq<bv8>, content: seq<bv8>, j: nat, k: nat)
    requires |init| == BUFFER_SIZE && 0 < |content| <= BUFFER_SIZE
    requires j < BUFFER_SIZE && k < BUFFER_SIZE
    requires C1Byte(Overwrite(init, content)[j])
    requires MatchAt(Overwrite(init, content), k)
    ensures Resolve(Run(init, FileReads(content)).filetype) == Utf8Text
  {
    var buf := Overwrite(init, content);
    C1ByteRejected(buf, j);
    assert Utf8Buffer(buf);
    ShortFile(init, content);
  }

  /** "Hi\n" over a zeroed buffer is ASCII. */
  lemma HelloIsAscii()
    ensures Resolve(Run(Zeroes(), FileReads([0x48, 0x69, 0x0A])).filetype) == AsciiText
  {
    ShortFileAscii(Zeroes(), [0x48, 0x69, 0x0A]);
  }

  /** "Hi\n" over a buffer still holding 0x81 bytes is reported as UTF-8:
      the stale bytes fail `is_ascii` and `is_latin1` and pass `is_utf8`. */
  lemma HelloOverStaleBytesIsUtf8()
    ensures Resolve(Run(Repeat(0x81), FileReads([0x48, 0x69, 0x0A])).filetype) == Utf8Text
  {
    var buf := Overwrite(Repeat(0x81), [0x48, 0x69, 0x0A]);
    assert buf[3] == 0x81 && buf[4] == 0x81;
    ShortFileUtf8(Repeat(0x81), [0x48, 0x69, 0x0A], 3, 3);
  }

  /** The bytes 0x00 0x01 0x02 over a zeroed buffer are reported as LATIN1:
      0x01 fails `is_ascii`, but `is_latin1` only rejects 0x81-0x9F. */
  lemma ControlBytesAreLatin1()
    ensures Resolve(Run(Zeroes(), FileReads([0x00, 0x01, 0x02])).filetype) == Latin1Text
  {
    var buf := Overwrite(Zeroes(), [0x00, 0x01, 0x02]);
    assert buf[1] == 0x01;
    ShortFileLatin1(Zeroes(), [0x00, 0x01, 0x02], 1);
  }

  /** The UTF-8 encoding of U+00E9, C3 A9, over a zeroed buffer is reported
      as LATIN1: neither byte lies in 0x81-0x9F. */
  lemma EAcuteIsLatin1()
    ensures Resolve(Run(Zeroes(), FileReads([0xC3, 0xA9])).filetype) == Latin1Text
  {
    var buf := Overwrite(Zeroes(), [0xC3, 0xA9]);
    assert buf[0] == 0xC3;
    ShortFileLatin1(Zeroes(), [0xC3, 0xA9], 0);
  }

  /** The UTF-8 encoding of U+20AC, E2 82 AC, over a zeroed buffer is
      reported as UTF-8: 0x82 fails `is_latin1`, and E2 followed by a high
      byte passes `is_utf8`. */
  lemma EuroSignIsUtf8()
    ensures Resolve(Run(Zeroes(), FileReads([0xE2, 0x82, 0xAC])).filetype) == Utf8Text
  {
    var buf := Overwrite(Zeroes(), [0xE2, 0x82, 0xAC]);
    assert buf[0] == 0xE2 && buf[1] == 0x82;
    ShortFileUtf8(Zeroes(), [0xE2, 0x82, 0xAC], 1, 0);
  }

  /** A 64-byte file whose first half is 0x81 bytes and whose second half
      is the letter A is reported as ASCII, whatever the buffer held: the
      second read overwrites the whole first one before any check runs. */
  lemma BinaryFirstChunkIsIgnored(init: seq<bv8>)
    requires |init| == BUFFER_SIZE
    ensures Resolve(Run(init, FileReads(Repeat(0x81) + Repeat(0x41))).filetype) == AsciiText
  {
    var first, second := Repeat(0x81), Repeat(0x41);
    var content := first + second;
    assert content[..BUFFER_SIZE] == first && content[BUFFER_SIZE..] == second;
    var chunks := FileReads(content);
    assert FileReads(second) == [second, []];
    assert chunks == [first] + [second, []];
    RunLabel(init, chunks);
    var buf := Overwrite(init, first);
    assert Overwrite(buf, second) == second && Overwrite(second, []) == second;
    assert chunks[1..] == [second, []] && chunks[1..][1..] == [[]];
    assert Snapshots(second, [[]]) == [second];
    assert RunSnapshots(init, chunks) == [second] + [second];
    assert AsciiBuffer(second);
  }
}
