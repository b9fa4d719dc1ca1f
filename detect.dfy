/** The detection loop of `main` in file.c: read the file in 32-byte chunks
    into one buffer and, after every read but the first, clear the text
    flags whose buffer check fails, stopping early once only `DATA` is
    left.

    `fread` is not modelled as a call: a run is given the list of what the
    successive reads return (`ValidReads`), and `FileReads` is the list a
    regular file yields. The first contents of the buffer are
    indeterminate in C; here they are an arbitrary 32-byte parameter. */
module Detect {
  import opened Flags
  import opened BufferChecks

  /** The bytes one `fread(buffer, 1, 32, file)` call delivers. */
  type Chunk = seq<bv8>

  /** What successive reads can return: at most 32 bytes each, and the
      last read reports end of input by returning nothing. */
  predicate ValidReads(chunks: seq<Chunk>) {
    |chunks| > 0 && chunks[|chunks| - 1] == [] &&
    forall k :: 0 <= k < |chunks| ==> |chunks[k]| <= BUFFER_SIZE
  }

  /** All bytes of a list of chunks, in order. */
  function Concat(chunks: seq<Chunk>): (s: seq<bv8>)
  {
    if chunks == [] then [] else chunks[0] + Concat(chunks[1..])
  }

  /** The reads a regular file of `content` yields: full 32-byte chunks,
      then the remainder if it is not empty, then an empty read. */
  function FileReads(content: seq<bv8>): (chunks: seq<Chunk>)
    ensures ValidReads(chunks)
    ensures Concat(chunks) == content
    ensures forall k :: 0 <= k < |chunks| - 1 ==> chunks[k] != []
    ensures forall k :: 0 <= k < |chunks| - 2 ==> |chunks[k]| == BUFFER_SIZE
    decreases |content|
  {
    if |content| == 0 then [[]]
    else if |content| <= BUFFER_SIZE then [content, []]
    else
      var rest := FileReads(content[BUFFER_SIZE..]);
      FullChunkFirst(content[..BUFFER_SIZE], rest);
      [content[..BUFFER_SIZE]] + rest
  }

  /** Putting a full chunk in front of a file's reads keeps them the reads
      of a regular file. */
  lemma FullChunkFirst(head: Chunk, rest: seq<Chunk>)
    requires |head| == BUFFER_SIZE && ValidReads(rest)
    requires forall k :: 0 <= k < |rest| - 1 ==> rest[k] != []
    requires forall k :: 0 <= k < |rest| - 2 ==> |rest[k]| == BUFFER_SIZE
    ensures ValidReads([head] + rest)
    ensures Concat([head] + rest) == head + Concat(rest)
    ensures forall k :: 0 <= k < |rest| ==> ([head] + rest)[k] != []
    ensures forall k :: 0 <= k < |rest| - 1 ==> |([head] + rest)[k]| == BUFFER_SIZE
  {
    var all := [head] + rest;
    assert all[0] == head && all[1..] == rest;
    assert forall k :: 0 < k < |all| ==> all[k] == rest[k - 1];
  }

  /** The buffer after a read of `chunk`: its first `|chunk|` bytes are
      replaced and the others keep their old values. */
  function Overwrite(buf: seq<bv8>, chunk: Chunk): (r: seq<bv8>)
    requires |chunk| <= |buf|
    ensures |r| == |buf|
    ensures forall i :: 0 <= i < |chunk| ==> r[i] == chunk[i]
    ensures forall i :: |chunk| <= i < |buf| ==> r[i] == buf[i]
  {
    chunk + buf[|chunk|..]
  }

  /** The text flags whose check accepts `buf`. */
  function Passing(buf: seq<bv8>): FlagWord
    requires |buf| == BUFFER_SIZE
  {
    (if AsciiBuffer(buf) then ASCII else 0)
    | (if Latin1Buffer(buf) then LATIN1 else 0)
    | (if Utf8Buffer(buf) then UTF8 else 0)
  }

  /** Masking with `!TEXT | mask` only clears bits, and only text bits. */
  lemma ClearTextOnly(ft: FlagWord, mask: FlagWord)
    ensures Within(ft & (!TEXT | mask), ft)
    ensures (ft & (!TEXT | mask)) & !TEXT == ft & !TEXT
  {
  }

  /** The three guarded `filetype ^= X` statements run on one buffer. Each
      flips a flag only when it is set, so the result keeps every flag
      outside the text flags and keeps a text flag exactly when it was set
      and its check accepts the buffer. */
  function Check(ft: FlagWord, buf: seq<bv8>): (r: FlagWord)
    requires |buf| == BUFFER_SIZE
    ensures r == ft & (!TEXT | Passing(buf))
    ensures Within(r, ft) && r & !TEXT == ft & !TEXT
  {
    ClearTextOnly(ft, Passing(buf));
    var afterUtf8 := if Has(ft, UTF8) && !Utf8Buffer(buf) then ft ^ UTF8 else ft;
    var afterLatin1 := if Has(afterUtf8, LATIN1) && !Latin1Buffer(buf) then afterUtf8 ^ LATIN1 else afterUtf8;
    if Has(afterLatin1, ASCII) && !AsciiBuffer(buf) then afterLatin1 ^ ASCII else afterLatin1
  }

  /** The state the loop leaves behind. */
  datatype State = State(filetype: FlagWord, buffer: seq<bv8>)

  /** The loop entered with a non-empty last read: read the first of
      `rest`, check the buffer, and stop after an empty read or once only
      `DATA` is left. Flags are only ever cleared, and only text flags. */
  function Narrow(ft: FlagWord, buf: seq<bv8>, rest: seq<Chunk>): (s: State)
    requires |buf| == BUFFER_SIZE && ValidReads(rest)
    ensures |s.buffer| == BUFFER_SIZE
    ensures Within(s.filetype, ft)
    ensures s.filetype & !TEXT == ft & !TEXT
    decreases |rest|
  {
    var next := Overwrite(buf, rest[0]);
    var ft' := Check(ft, next);
    if ft' == DATA || |rest[0]| == 0 then State(ft', next)
    else Narrow(ft', next, rest[1..])
  }

  /** Lines 31-52 of `main` from the buffer's first contents `init`: an
      empty first read gives exactly `EMPTY`; otherwise `DATA` stays set
      and nothing outside the starting candidates is ever set. */
  function Run(init: seq<bv8>, chunks: seq<Chunk>): (s: State)
    requires |init| == BUFFER_SIZE && ValidReads(chunks)
    ensures |s.buffer| == BUFFER_SIZE
    ensures s.filetype == EMPTY <==> chunks[0] == []
    ensures chunks[0] != [] ==> Within(s.filetype, CANDIDATES) && Has(s.filetype, DATA)
    ensures Reachable(s.filetype)
  {
    var buf := Overwrite(init, chunks[0]);
    if |chunks[0]| == 0 then State(EMPTY, buf)
    else Narrow(CANDIDATES, buf, chunks[1..])
  }

  /** The listed buffers: those the loop inspects when it does not stop
      early at `DATA`, that is, the buffer after each read up to and
      including the first empty read. When the loop does stop early it
      inspects only a prefix of them, and `NarrowClosedForm` shows that its
      outcome is the same. */
  function Snapshots(buf: seq<bv8>, rest: seq<Chunk>): (snaps: seq<seq<bv8>>)
    requires |buf| == BUFFER_SIZE && ValidReads(rest)
    ensures |snaps| > 0
    ensures forall k :: 0 <= k < |snaps| ==> |snaps[k]| == BUFFER_SIZE
    decreases |rest|
  {
    var next := Overwrite(buf, rest[0]);
    if |rest[0]| == 0 then [next] else [next] + Snapshots(next, rest[1..])
  }

  /** The text flags whose check accepts every listed buffer from `buf`
      on. */
  function Survivors(buf: seq<bv8>, rest: seq<Chunk>): FlagWord
    requires |buf| == BUFFER_SIZE && ValidReads(rest)
    decreases |rest|
  {
    var next := Overwrite(buf, rest[0]);
    if |rest[0]| == 0 then Passing(next) else Passing(next) & Survivors(next, rest[1..])
  }

  /** One of the three flags the loop may clear. */
  predicate TextFlag(flag: FlagWord) {
    flag == ASCII || flag == LATIN1 || flag == UTF8
  }

  /** The check the text flag `flag` stands for accepts `buf`. */
  predicate Accepts(flag: FlagWord, buf: seq<bv8>)
    requires |buf| == BUFFER_SIZE
  {
    if flag == ASCII then AsciiBuffer(buf)
    else if flag == LATIN1 then Latin1Buffer(buf)
    else flag == UTF8 && Utf8Buffer(buf)
  }

  /** The check the text flag `flag` stands for accepts every buffer in
      `snaps`. */
  predicate AllAccept(flag: FlagWord, snaps: seq<seq<bv8>>)
    requires forall k :: 0 <= k < |snaps| ==> |snaps[k]| == BUFFER_SIZE
  {
    forall k :: 0 <= k < |snaps| ==> Accepts(flag, snaps[k])
  }

  /** `Passing` sets a text flag exactly when its check accepts `buf`. */
  lemma PassingBit(flag: FlagWord, buf: seq<bv8>)
    requires |buf| == BUFFER_SIZE && TextFlag(flag)
    ensures Has(Passing(buf), flag) == Accepts(flag, buf)
  {
  }

  /** A text flag is set in the meet of two flag words exactly when it is
      set in both. */
  lemma HasMeet(flag: FlagWord, a: FlagWord, b: FlagWord)
    requires TextFlag(flag)
    ensures Has(a & b, flag) == (Has(a, flag) && Has(b, flag))
  {
  }

  /** After a non-empty read, the listed buffers are the buffer just read
      followed by those listed for the later reads. */
  lemma SnapshotsCons(buf: seq<bv8>, rest: seq<Chunk>)
    requires |buf| == BUFFER_SIZE && ValidReads(rest) && rest[0] != []
    ensures ValidReads(rest[1..])
    ensures var snaps := Snapshots(buf, rest);
      var later := Snapshots(Overwrite(buf, rest[0]), rest[1..]);
      && |snaps| == |later| + 1
      && snaps[0] == Overwrite(buf, rest[0])
      && forall k :: 0 <= k < |later| ==> snaps[k + 1] == later[k]
  {
  }

  /** Every buffer of a non-empty list passes a check exactly when the
      first does and every later one does. */
  lemma AllSplit(flag: FlagWord, snaps: seq<seq<bv8>>, later: seq<seq<bv8>>)
    requires forall k :: 0 <= k < |snaps| ==> |snaps[k]| == BUFFER_SIZE
    requires forall k :: 0 <= k < |later| ==> |later[k]| == BUFFER_SIZE
    requires |snaps| == |later| + 1
    requires forall k :: 0 <= k < |later| ==> snaps[k + 1] == later[k]
    ensures AllAccept(flag, snaps) == (Accepts(flag, snaps[0]) && AllAccept(flag, later))
  {
    assert forall k :: 1 <= k < |snaps| ==> snaps[k] == later[k - 1];
  }

  /** A text flag survives exactly when every listed buffer passes the
      matching check. */
  lemma {:induction false} SurvivorsAll(flag: FlagWord, buf: seq<bv8>, rest: seq<Chunk>)
    requires |buf| == BUFFER_SIZE && ValidReads(rest) && TextFlag(flag)
    ensures Has(Survivors(buf, rest), flag) == AllAccept(flag, Snapshots(buf, rest))
    decreases |rest|
  {
    if |rest[0]| == 0 {
      SurvivorsLast(flag, buf, rest);
    } else {
      SurvivorsAll(flag, Overwrite(buf, rest[0]), rest[1..]);
      SurvivorsStep(flag, buf, rest);
      AllAcceptStep(flag, buf, rest);
    }
  }

  /** The case of `SurvivorsAll` where the read just made is empty. */
  lemma SurvivorsLast(flag: FlagWord, buf: seq<bv8>, rest: seq<Chunk>)
    requires |buf| == BUFFER_SIZE && ValidReads(rest) && TextFlag(flag) && rest[0] == []
    ensures Has(Survivors(buf, rest), flag) == AllAccept(flag, Snapshots(buf, rest))
  {
    var next := Overwrite(buf, rest[0]);
    PassingBit(flag, next);
    var snaps := Snapshots(buf, rest);
    assert |snaps| == 1 && snaps[0] == next;
  }

  /** After a non-empty read, a flag survives from here on exactly when the
      buffer just read passes and it survives the later buffers. */
  lemma SurvivorsStep(flag: FlagWord, buf: seq<bv8>, rest: seq<Chunk>)
    requires |buf| == BUFFER_SIZE && ValidReads(rest) && TextFlag(flag) && rest[0] != []
    ensures Has(Survivors(buf, rest), flag)
      == (Accepts(flag, Overwrite(buf, rest[0])) && Has(Survivors(Overwrite(buf, rest[0]), rest[1..]), flag))
  {
    var next := Overwrite(buf, rest[0]);
    PassingBit(flag, next);
    HasMeet(flag, Passing(next), Survivors(next, rest[1..]));
  }

  /** After a non-empty read, every listed buffer passes exactly when the
      buffer just read passes and every later one does. */
  lemma AllAcceptStep(flag: FlagWord, buf: seq<bv8>, rest: seq<Chunk>)
    requires |buf| == BUFFER_SIZE && ValidReads(rest) && rest[0] != []
    ensures AllAccept(flag, Snapshots(buf, rest))
      == (Accepts(flag, Overwrite(buf, rest[0])) && AllAccept(flag, Snapshots(Overwrite(buf, rest[0]), rest[1..])))
  {
    SnapshotsCons(buf, rest);
    AllSplit(flag, Snapshots(buf, rest), Snapshots(Overwrite(buf, rest[0]), rest[1..]));
  }

  /** The snapshots of a run whose first read is not empty. */
  function RunSnapshots(init: seq<bv8>, chunks: seq<Chunk>): (snaps: seq<seq<bv8>>)
    requires |init| == BUFFER_SIZE && ValidReads(chunks) && chunks[0] != []
    ensures forall k :: 0 <= k < |snaps| ==> |snaps[k]| == BUFFER_SIZE
  {
    Snapshots(Overwrite(init, chunks[0]), chunks[1..])
  }

  /** Clearing the flags that fail one buffer and then those that fail
      the rest is clearing those that fail any of them. */
  lemma ClearTwice(ft: FlagWord, first: FlagWord, rest: FlagWord)
    ensures (ft & (!TEXT | first)) & (!TEXT | rest) == ft & (!TEXT | (first & rest))
  {
  }

  /** Once only `DATA` is left, later clearing changes nothing. */
  lemma ClearAfterData(ft: FlagWord, first: FlagWord, rest: FlagWord)
    requires ft & (!TEXT | first) == DATA
    ensures ft & (!TEXT | (first & rest)) == DATA
  {
  }

  /** The loop's outcome does not depend on its early `break`: the flags
      it leaves are the starting flags minus every text flag whose check
      fails on some buffer the loop would inspect without the `break`. */
  lemma {:induction false} NarrowClosedForm(ft: FlagWord, buf: seq<bv8>, rest: seq<Chunk>)
    requires |buf| == BUFFER_SIZE && ValidReads(rest)
    ensures Narrow(ft, buf, rest).filetype == ft & (!TEXT | Survivors(buf, rest))
    decreases |rest|
  {
    var next := Overwrite(buf, rest[0]);
    if |rest[0]| == 0 {
      NarrowLastRead(ft, buf, rest);
    } else if Check(ft, next) == DATA {
      NarrowBreak(ft, buf, rest);
    } else {
      NarrowClosedForm(Check(ft, next), next, rest[1..]);
      NarrowContinue(ft, buf, rest);
    }
  }

  /** The case of `NarrowClosedForm` where the read just made is empty. */
  lemma NarrowLastRead(ft: FlagWord, buf: seq<bv8>, rest: seq<Chunk>)
    requires |buf| == BUFFER_SIZE && ValidReads(rest) && rest[0] == []
    ensures Narrow(ft, buf, rest).filetype == ft & (!TEXT | Survivors(buf, rest))
  {
  }

  /** The case of `NarrowClosedForm` where the loop breaks with `DATA`. */
  lemma NarrowBreak(ft: FlagWord, buf: seq<bv8>, rest: seq<Chunk>)
    requires |buf| == BUFFER_SIZE && ValidReads(rest) && rest[0] != []
    requires Check(ft, Overwrite(buf, rest[0])) == DATA
    ensures Narrow(ft, buf, rest).filetype == ft & (!TEXT | Survivors(buf, rest))
  {
    var next := Overwrite(buf, rest[0]);
    ClearAfterData(ft, Passing(next), Survivors(next, rest[1..]));
  }

  /** The case of `NarrowClosedForm` where the loop goes on, given the
      closed form for the iterations after this one. */
  lemma NarrowContinue(ft: FlagWord, buf: seq<bv8>, rest: seq<Chunk>)
    requires |buf| == BUFFER_SIZE && ValidReads(rest) && rest[0] != []
    requires Check(ft, Overwrite(buf, rest[0])) != DATA
    requires var next := Overwrite(buf, rest[0]);
      Narrow(Check(ft, next), next, rest[1..]).filetype
        == Check(ft, next) & (!TEXT | Survivors(next, rest[1..]))
    ensures Narrow(ft, buf, rest).filetype == ft & (!TEXT | Survivors(buf, rest))
  {
    var next := Overwrite(buf, rest[0]);
    ClearTwice(ft, Passing(next), Survivors(next, rest[1..]));
  }

  /** The label of the flags left from the starting candidates once the
      text flags outside `survivors` are cleared. */
  lemma ResolveSurvivors(survivors: FlagWord)
    ensures Resolve(CANDIDATES & (!TEXT | survivors)) ==
      if Has(survivors, ASCII) then AsciiText
      else if Has(survivors, LATIN1) then Latin1Text
      else if Has(survivors, UTF8) then Utf8Text
      else Data
  {
  }

  /** What `main` reports, in terms of the listed buffers: `Empty` for
      an empty first read, otherwise ASCII if every listed buffer passes
      `is_ascii`, else LATIN1 if every one passes `is_latin1`, else UTF-8
      if every one passes `is_utf8`, else `Data`. */
  lemma RunLabel(init: seq<bv8>, chunks: seq<Chunk>)
    requires |init| == BUFFER_SIZE && ValidReads(chunks)
    ensures chunks[0] == [] ==> Resolve(Run(init, chunks).filetype) == Empty
    ensures chunks[0] != [] ==>
      Resolve(Run(init, chunks).filetype) ==
        if AllAccept(ASCII, RunSnapshots(init, chunks)) then AsciiText
        else if AllAccept(LATIN1, RunSnapshots(init, chunks)) then Latin1Text
        else if AllAccept(UTF8, RunSnapshots(init, chunks)) then Utf8Text
        else Data
  {
    if chunks[0] != [] {
      var buf := Overwrite(init, chunks[0]);
      NarrowClosedForm(CANDIDATES, buf, chunks[1..]);
      SurvivorsAll(ASCII, buf, chunks[1..]);
      SurvivorsAll(LATIN1, buf, chunks[1..]);
      SurvivorsAll(UTF8, buf, chunks[1..]);
      ResolveSurvivors(Survivors(buf, chunks[1..]));
    }
  }

  /** The first read is never inspected on its own: when the second read
      fills the whole buffer, the outcome is the same whatever non-empty
      first chunk was read. */
  lemma FirstChunkOverwritten(init: seq<bv8>, chunks: seq<Chunk>, other: Chunk)
    requires |init| == BUFFER_SIZE && ValidReads(chunks)
    requires chunks[0] != [] && |chunks[1]| == BUFFER_SIZE
    requires 0 < |other| <= BUFFER_SIZE
    ensures ValidReads([other] + chunks[1..])
    ensures Run(init, chunks) == Run(init, [other] + chunks[1..])
  {
    var alt := [other] + chunks[1..];
    assert alt[1..] == chunks[1..];
    assert Overwrite(Overwrite(init, chunks[0]), chunks[1]) == chunks[1];
    assert Overwrite(Overwrite(init, other), chunks[1]) == chunks[1];
  }

  /** When the loop makes a non-empty read and does not stop early because
      only `DATA` is left, the final empty read leaves the buffer as it
      was, so the last buffer it inspects is inspected twice. */
  lemma {:induction false} LastBufferInspectedTwice(buf: seq<bv8>, rest: seq<Chunk>)
    requires |buf| == BUFFER_SIZE && ValidReads(rest) && rest[0] != []
    ensures var snaps := Snapshots(buf, rest);
      |snaps| >= 2 && snaps[|snaps| - 1] == snaps[|snaps| - 2]
    decreases |rest|
  {
    var next := Overwrite(buf, rest[0]);
    if rest[1] != [] {
      LastBufferInspectedTwice(next, rest[1..]);
    } else {
      assert rest[1..][0] == [];
      assert Snapshots(next, rest[1..]) == [Overwrite(next, [])];
    }
  }

  /** Every byte of every listed buffer comes from the buffer's first
      contents or from a read, so a property of all those bytes holds of
      every listed buffer. */
  lemma {:induction false} SnapshotsKeep(p: bv8 -> bool, buf: seq<bv8>, rest: seq<Chunk>)
    requires |buf| == BUFFER_SIZE && ValidReads(rest)
    requires forall i :: 0 <= i < BUFFER_SIZE ==> p(buf[i])
    requires forall k, i :: 0 <= k < |rest| && 0 <= i < |rest[k]| ==> p(rest[k][i])
    ensures forall k, i :: 0 <= k < |Snapshots(buf, rest)| && 0 <= i < BUFFER_SIZE ==> p(Snapshots(buf, rest)[k][i])
    decreases |rest|
  {
    var next := Overwrite(buf, rest[0]);
    assert forall i :: 0 <= i < BUFFER_SIZE ==> p(next[i]);
    if |rest[0]| != 0 {
      SnapshotsKeep(p, next, rest[1..]);
    }
  }

  /** When the buffer's first contents and every byte read are ASCII text
      bytes, and the file is not empty, `main` reports ASCII. */
  lemma AsciiInputReportsAscii(init: seq<bv8>, chunks: seq<Chunk>)
    requires |init| == BUFFER_SIZE && ValidReads(chunks) && chunks[0] != []
    requires forall i :: 0 <= i < BUFFER_SIZE ==> AsciiByte(init[i])
    requires forall k, i :: 0 <= k < |chunks| && 0 <= i < |chunks[k]| ==> AsciiByte(chunks[k][i])
    ensures Resolve(Run(init, chunks).filetype) == AsciiText
  {
    var buf := Overwrite(init, chunks[0]);
    SnapshotsKeep(AsciiByte, buf, chunks[1..]);
    RunLabel(init, chunks);
  }

  /** When no byte of the buffer's first contents and no byte read lies in
      0x81-0x9F, and the file is not empty, `main` reports ASCII or LATIN1. */
  lemma C1FreeInputReportsText(init: seq<bv8>, chunks: seq<Chunk>)
    requires |init| == BUFFER_SIZE && ValidReads(chunks) && chunks[0] != []
    requires forall i :: 0 <= i < BUFFER_SIZE ==> !C1Byte(init[i])
    requires forall k, i :: 0 <= k < |chunks| && 0 <= i < |chunks[k]| ==> !C1Byte(chunks[k][i])
    ensures Resolve(Run(init, chunks).filetype) in {AsciiText, Latin1Text}
  {
    var buf := Overwrite(init, chunks[0]);
    SnapshotsKeep(b => !C1Byte(b), buf, chunks[1..]);
    RunLabel(init, chunks);
  }

  /** The run of lines 31-52 on a 32-byte `buffer`: `fread` overwrites
      the front of the buffer, and each pass clears the flags whose check
      fails. Returns the final `filetype`; the buffer is left as the last
      read made it. */
  method DetectFiletype(buffer: array<bv8>, chunks: seq<Chunk>) returns (filetype: FlagWord)
    requires buffer.Length == BUFFER_SIZE && ValidReads(chunks)
    modifies buffer
    ensures Run(old(buffer[..]), chunks) == State(filetype, buffer[..])
  {
    ghost var init := buffer[..];
    var next := 0;
    var bytesRead := Fread(buffer, chunks[next]);
    next := next + 1;

    filetype := CANDIDATES;
    if bytesRead == 0 {
      filetype := EMPTY;
    }

    ghost var result := Run(init, chunks);
    while bytesRead > 0
      invariant 1 <= next <= |chunks|
      invariant bytesRead == |chunks[next - 1]|
      invariant bytesRead > 0 ==> next < |chunks|
      invariant bytesRead > 0 ==> result == Narrow(filetype, buffer[..], chunks[next..])
      invariant bytesRead == 0 ==> result == State(filetype, buffer[..])
      decreases |chunks| - next
    {
      ghost var rest := chunks[next..];
      bytesRead := Fread(buffer, chunks[next]);
      next := next + 1;
      assert bytesRead == |chunks[next - 1]|;
      assert rest[1..] == chunks[next..];

      ghost var before := filetype;
      filetype := CheckBuffer(filetype, buffer);
      assert Within(filetype, before) && filetype & !TEXT == before & !TEXT;

      if filetype == DATA {
        break;
      }
    }
  }

  /** Lines 43-48: the three guarded `filetype ^= X` statements, each
      calling its check only while its flag is still set. */
  method CheckBuffer(filetype: FlagWord, buffer: array<bv8>) returns (r: FlagWord)
    requires buffer.Length == BUFFER_SIZE
    ensures r == Check(filetype, buffer[..])
  {
    r := filetype;
    if Has(r, UTF8) {
      var ok := IsUtf8(buffer);
      if !ok {
        r := r ^ UTF8;
      }
    }
    if Has(r, LATIN1) {
      var ok := IsLatin1(buffer);
      if !ok {
        r := r ^ LATIN1;
      }
    }
    if Has(r, ASCII) {
      var ok := IsAscii(buffer);
      if !ok {
        r := r ^ ASCII;
      }
    }
  }

  /** One `fread` call: the chunk lands at the front of the buffer and its
      length is returned. */
  method Fread(buffer: array<bv8>, chunk: Chunk) returns (bytesRead: nat)
    requires buffer.Length == BUFFER_SIZE && |chunk| <= BUFFER_SIZE
    modifies buffer
    ensures bytesRead == |chunk|
    ensures buffer[..] == Overwrite(old(buffer[..]), chunk)
  {
    forall j | 0 <= j < |chunk| {
      buffer[j] := chunk[j];
    }
    bytesRead := |chunk|;
  }
}
