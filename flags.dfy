/** The `enum Filetype` bit flags of file.c and the choice of the label that
    `main` reports once the candidate flags have been narrowed. */
module Flags {

  /** The flag word `filetype`. The C enum is an `int`, but every value it
      takes fits in the low five bits, so a byte holds it without loss. */
  type FlagWord = bv8

  const ASCII: FlagWord := 0x01
  const LATIN1: FlagWord := 0x02
  const UTF8: FlagWord := 0x04
  const DATA: FlagWord := 0x08
  const EMPTY: FlagWord := 0x10

  /** The three text candidates, the only flags the narrowing loop clears. */
  const TEXT: FlagWord := ASCII | LATIN1 | UTF8

  /** The value `filetype` starts from before the first read is inspected. */
  const CANDIDATES: FlagWord := ASCII | LATIN1 | UTF8 | DATA

  /** The C test `filetype & flag`. */
  predicate Has(ft: FlagWord, flag: FlagWord) {
    ft & flag != 0
  }

  /** Every flag set in `a` is also set in `b`. */
  predicate Within(a: FlagWord, b: FlagWord) {
    a & b == a
  }

  /** What `main` prints after the file name. `BareText` is the plain
      "text" line printed when none of the three text flags is set although
      `filetype` is neither `EMPTY` nor `DATA`. */
  datatype Label = Empty | Data | AsciiText | Latin1Text | Utf8Text | BareText

  /** The text flag a text label stands for (zero for the other labels). */
  function FlagOf(l: Label): FlagWord {
    match l
    case AsciiText => ASCII
    case Latin1Text => LATIN1
    case Utf8Text => UTF8
    case _ => 0
  }

  /** The label choice: `EMPTY` exactly, then `DATA` exactly, then the
      lowest text flag that is set. */
  function Resolve(ft: FlagWord): (l: Label)
    ensures l == Empty <==> ft == EMPTY
    ensures l == Data <==> ft == DATA
    ensures FlagOf(l) != 0 ==> Has(ft, FlagOf(l)) && ft & (FlagOf(l) - 1) == 0
    ensures FlagOf(l) != 0 || l == BareText <==> ft != EMPTY && ft != DATA
    ensures l == BareText <==> ft != EMPTY && ft != DATA && ft & TEXT == 0
  {
    if ft == EMPTY then Empty
    else if ft == DATA then Data
    else if Has(ft, ASCII) then AsciiText
    else if Has(ft, LATIN1) then Latin1Text
    else if Has(ft, UTF8) then Utf8Text
    else BareText
  }

  /** The flag words the narrowing loop can leave behind: `EMPTY` alone, or
      `DATA` together with any subset of the text flags. */
  predicate Reachable(ft: FlagWord) {
    ft == EMPTY || (Within(ft, CANDIDATES) && Has(ft, DATA))
  }

  /** On a reachable flag word the label is one of the five real outcomes,
      and `Data` is reported exactly when every text flag has been cleared. */
  lemma ResolveReachable(ft: FlagWord)
    requires Reachable(ft)
    ensures Resolve(ft) != BareText
    ensures ft != EMPTY ==> (Resolve(ft) == Data <==> ft & TEXT == 0)
  {
  }
}
