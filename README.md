# file-type guesser: a Dafny model

The program `file` in `file.c` reads a file in 32-byte chunks into a single
buffer. It keeps a bit-flag word `filetype` holding the candidates ASCII,
LATIN1 and UTF8, together with DATA and EMPTY. After every read but the
first it clears every text candidate whose buffer check fails, and it stops
reading early once only DATA is left. At the end it prints
`Empty`, `Data`, or `ASCII text` / `LATIN1 text` / `UTF-8 text`.

The model has four modules:

- `Flags` (flags.dfy): the `enum Filetype` bits and the label choice.
- `BufferChecks` (buffer_checks.dfy): the three buffer checks
  `is_ascii`, `is_latin1` and `is_utf8`. Each is a specification predicate
  plus a loop method with the C code's tests and early returns, proved equal
  to the predicate.
- `Detect` (detect.dfy): the loop of `main`.
  - `DetectFiletype` is an imperative method over a 32-element array.
    `Fread` copies each chunk into the front of the array, and
    `CheckBuffer` runs the three guarded `filetype ^= X` statements.
  - It is proved equal to the functional `Run`/`Narrow`.
  - `RunLabel` gives the printed label in closed form: the first of
    ASCII, LATIN1, UTF-8 whose check accepts every buffer the loop would
    inspect if it ran to end of input, else Data, and Empty for an empty
    first read. The proof of this
    closed form shows that the early `break` on `filetype == DATA`
    never changes the outcome.
- `Scenarios` (scenarios.dfy): concrete small files read through
  `FileReads`, the chunking a regular file produces.

What the code does, as modelled:

- `is_ascii` skips 0x00 and 0x1A (file.c:82-83), so it accepts them,
  NUL included.
- `is_latin1` rejects only 0x81-0x9F, since its test is `b > 128 && b < 160`
  (file.c:101). So 0x80 and the low control codes 0x01-0x06 and so on pass.
  With a signed `char` that test never holds, and `is_latin1` accepts
  everything.
- `is_utf8` is an existence test on bit masks (file.c:114-119):
  - A byte of at least 0x40 followed by a high byte passes. So does a byte
    of at least 0x20 followed by two high bytes, or one of at least 0x10
    followed by three. The skipped byte 0x1A is the exception: it never
    passes, whatever follows it.
  - It is not the well-formedness check of section 3 of RFC 3629: "A"
    followed by 0x85 passes, and pure ASCII fails.
  - No state is carried from one buffer to the next.
- A file of 1-32 bytes is inspected once: the second read is the empty one
  and leaves the buffer as the first read made it (`ShortFileSnapshots`).
- A file longer than 32 bytes is never inspected with only its first chunk
  in the buffer: the second read overwrites the front of it before any
  check runs, and when that read is a full chunk the first chunk has no
  effect on the outcome (`FirstChunkOverwritten`). In such a run, unless
  the loop has already stopped because only DATA is left, the final, empty
  read leaves the buffer unchanged, so the last buffer is inspected a
  second time (`LastBufferInspectedTwice`).
- Bytes past `bytes_read` keep their old values, including the
  indeterminate first contents of `buffer`. The label of a short file
  therefore depends on them: "Hi\n" is ASCII over a zeroed buffer, but
  UTF-8 over a buffer holding 0x81 bytes.
- The printed labels are `Empty`, `Data`, `ASCII text`, `LATIN1 text` and
  `UTF-8 text` (file.c:56-74).
- The bytes 00 01 02 over a zeroed buffer are reported as LATIN1
  (`ControlBytesAreLatin1`): 0x01 fails `is_ascii` but not `is_latin1`.

## Model

| member | source | states |
|---|---|---|
| `Flags.Resolve` | file.c:56-74 | exactly `EMPTY` gives Empty, exactly `DATA` gives Data, a text label names the lowest text flag that is set, and the bare "text" line appears exactly when no text flag is set |
| `Flags.ResolveReachable` | file.c:56-74 | on any flag word the loop can leave, the label is one of the five outcomes, and Data is reported exactly when every text flag is cleared |
| `BufferChecks.IsAscii` | file.c:78-89 | the scan returns true exactly when every byte is 0x00, 0x1A, 0x1B, in 0x07-0x0D or in 0x20-0x7E |
| `BufferChecks.HighByteIsNotAscii` | file.c:85-86 | any byte of 0x80 or above makes `is_ascii` fail |
| `BufferChecks.AsciiSignednessIrrelevant` | file.c:80-86 | read as a signed `char`, the rejection test rejects exactly the same bytes |
| `BufferChecks.IsLatin1` | file.c:91-105 | the scan returns true exactly when `is_ascii` accepts the buffer or no byte lies in 0x81-0x9F |
| `BufferChecks.Latin1Exactly` | file.c:91-105 | `is_latin1` accepts exactly the buffers without a byte in 0x81-0x9F, and accepts every buffer `is_ascii` accepts |
| `BufferChecks.C1ByteRejected` | file.c:85-102 | a single byte in 0x81-0x9F makes both `is_ascii` and `is_latin1` fail |
| `BufferChecks.Latin1AcceptsByte80AndControls` | file.c:101-102 | a buffer of 0x80 and 0x01 bytes fails `is_ascii` but passes `is_latin1` |
| `BufferChecks.Latin1SignedAcceptsAll` | file.c:96-102 | with a signed `char`, the test `b > 128 && b < 160` never holds |
| `BufferChecks.SignedChar` | file.c:80 | a byte read as a signed `char` lies in -128..127 and agrees with it modulo 256 |
| `BufferChecks.IsUtf8` | file.c:107-123 | the mask scan returns true exactly when some non-skipped position has a byte of at least 0x40, 0x20 or 0x10 followed by one, two or three high bytes |
| `BufferChecks.Utf8NeedsHighByte` | file.c:114-120 | `is_utf8` passes only if some byte after the first is 0x80 or above, so ASCII-only buffers fail it |
| `BufferChecks.Utf8IgnoresLastLead` | file.c:116-118 | under the convention that a neighbour past the end of the buffer has no high bit (the C code reads `buffer[32]` there), a byte in the last position never passes |
| `BufferChecks.Utf8AcceptsLoneContinuation` | file.c:114-120 | "A" followed by the lone continuation byte 0x85 passes `is_utf8` |
| `Detect.FileReads` | file.c:32 | a regular file's reads are valid, concatenate to the file, are non-empty until the last read, and are full 32-byte chunks except the last two |
| `Detect.Overwrite` | file.c:41 | a read replaces the first `bytes_read` bytes of the buffer and leaves the others as they were |
| `Detect.Fread` | file.c:41 | the array afterwards is the old array overwritten by the chunk, and the chunk length is returned |
| `Detect.Check` | file.c:43-48 | the three guarded XORs clear exactly the set text flags whose check fails and keep every other flag; one pass only clears flags, and never DATA or EMPTY |
| `Detect.CheckBuffer` | file.c:43-48 | the imperative statements, calling each check only while its flag is set, compute `Check` |
| `Detect.Narrow` | file.c:40-52 | the loop only clears flags, and only text flags: DATA is never cleared and EMPTY never set |
| `Detect.Run` | file.c:31-52 | the result is exactly EMPTY iff the first read is empty; otherwise DATA is set and only starting candidates remain |
| `Detect.DetectFiletype` | file.c:31-52 | the in-place loop over the 32-byte array leaves exactly the flags and buffer that `Run` gives; each pass only clears text flags, by the contract of `Check` |
| `Detect.Snapshots` | file.c:40-48 | the listed buffers, those the loop inspects when it does not stop early at DATA: one per read up to and including the first empty read, each of 32 bytes |
| `Detect.SurvivorsAll` | file.c:43-48 | a text flag survives a run exactly when its check accepts every listed buffer |
| `Detect.NarrowClosedForm` | file.c:40-52 | the loop leaves the starting flags minus each text flag that fails on some listed buffer, whether or not it stops early, so the early `break` does not change the outcome |
| `Detect.RunLabel` | file.c:31-74 | the printed label is Empty for an empty first read; otherwise ASCII, LATIN1 or UTF-8 for the first check accepting every listed buffer, else Data |
| `Detect.FirstChunkOverwritten` | file.c:32-41 | when the second read fills the buffer, the outcome does not depend on the first chunk |
| `Detect.LastBufferInspectedTwice` | file.c:40-48 | in a run whose loop makes at least one non-empty read (for a regular file, one longer than 32 bytes), and unless the loop has already stopped because only DATA is left, the final empty read leaves the buffer unchanged, so the last buffer is inspected twice |
| `Detect.SnapshotsKeep` | file.c:31-41 | every byte of every listed buffer comes from the buffer's first contents or from a read |
| `Detect.AsciiInputReportsAscii` | file.c:31-74 | when the first buffer contents and all bytes read are ASCII text bytes, a non-empty file is reported as ASCII |
| `Detect.C1FreeInputReportsText` | file.c:31-74 | when no byte of the first contents or of the file lies in 0x81-0x9F, a non-empty file is reported as ASCII or LATIN1 |
| `Scenarios.ShortFile` | file.c:31-74 | a file of 1-32 bytes is inspected as one buffer (the file over the old contents), and the label follows from the three checks on it |
| `Scenarios.ShortFileSnapshots` | file.c:32-48 | a file of 1-32 bytes is read as itself and then an empty read, and only the buffer after the first read is inspected |
| `Scenarios.OneSnapshotLabel` | file.c:43-74 | a run that inspects a single buffer reports the first of ASCII, LATIN1, UTF-8 whose check accepts it, else Data |
| `Scenarios.ShortFileAscii` | file.c:31-74 | a short file whose buffer passes `is_ascii` is reported as ASCII |
| `Scenarios.ShortFileLatin1` | file.c:31-74 | a short file whose buffer fails `is_ascii` and has no byte in 0x81-0x9F is reported as LATIN1 |
| `Scenarios.ShortFileUtf8` | file.c:31-74 | a short file whose buffer has a byte in 0x81-0x9F and passes `is_utf8` is reported as UTF-8 |
| `Scenarios.EmptyFile` | file.c:36-38 | an empty file gives exactly EMPTY and the Empty label, whatever the buffer held |
| `Scenarios.HelloIsAscii` | file.c:31-74 | "Hi\n" over a zeroed buffer is ASCII |
| `Scenarios.HelloOverStaleBytesIsUtf8` | file.c:31-74 | "Hi\n" over a buffer of stale 0x81 bytes is reported as UTF-8 |
| `Scenarios.ControlBytesAreLatin1` | file.c:31-74 | the bytes 00 01 02 over a zeroed buffer are reported as LATIN1 |
| `Scenarios.EAcuteIsLatin1` | file.c:31-74 | C3 A9 over a zeroed buffer is reported as LATIN1 |
| `Scenarios.EuroSignIsUtf8` | file.c:31-74 | E2 82 AC over a zeroed buffer is reported as UTF-8 |
| `Scenarios.BinaryFirstChunkIsIgnored` | file.c:32-52 | 32 bytes of 0x81 followed by 32 letters A is reported as ASCII, whatever the buffer held |

## Left out

- The argument-count check, `fopen`/`ferror`/`errno`/`strerror`, `printf` and `fclose` (file.c:18-29, 54, and the output text of 56-74). These are I/O. Only the label choice is modelled, as `Flags.Resolve`.
- `fread` is not modelled as a call. A run takes the list of what successive reads return: each at most 32 bytes, the last one empty. `FileReads` is the list for a regular file. Read errors and short reads on pipes are not modelled beyond what such a list allows.
- The indeterminate first contents of `buffer` are an arbitrary 32-byte parameter.
- An input that never ends is not modelled: every run ends with an empty read. On an endless stream whose buffers keep a text flag set, such as one of zero bytes, the loop of file.c:40-52 never stops.
- `is_utf8` reads `buffer[i+1..i+3]` past the end when `i` is 29 or more, which is undefined behaviour. The model treats a missing neighbour as not having its high bit set.
- The checks return `bool` rather than the C `int` 0/1.
- `filetype` is a byte (`bv8`) rather than the C enum's `int`; all its values are below 32.
- `filetype` is a global in C. The model holds it in the method's result, since only `main` uses it.
- The bytes are unsigned. The signed-`char` behaviour is stated only by the lemmas on `SignedChar`; no full signed-`char` variant of the run is modelled.
