/** libspider/IniFile.cpp: when the loop of parse_config ends. */
module IniLoop {
  import opened CStrings
  import opened IniFiles
  import opened IniFormat
  import opened Options

  /** Where the loop stands: what the stream still holds, its flags, and what
      has been read. */
  datatype Reading = Reading(rest: string, failed: bool, eof: bool, st: State)

  /** istream::getline with the line buffer. A line that does not fit sets the
      failure flag, which nothing clears; from then on nothing is taken from
      the stream, and its end is never seen. */
  function GetLine(r: Reading): (string, Reading) {
    if r.failed then ("", r)
    else
      match StrChr(r.rest, '\n')
      case Some(k) =>
        if k < MAX_CONFIG_LINE_LENGTH then (r.rest[..k], r.(rest := r.rest[k+1..]))
        else (r.rest[..MAX_CONFIG_LINE_LENGTH-1], r.(rest := r.rest[MAX_CONFIG_LINE_LENGTH-1..], failed := true))
      case None =>
        if |r.rest| < MAX_CONFIG_LINE_LENGTH then (r.rest, r.(rest := "", eof := true))
        else (r.rest[..MAX_CONFIG_LINE_LENGTH-1], r.(rest := r.rest[MAX_CONFIG_LINE_LENGTH-1..], failed := true))
  }

  /** One round of the loop; none is left once the end has been seen. */
  function Round(r: Reading): Reading {
    if r.eof then r
    else
      var (line, s) := GetLine(r);
      if s.eof then s else s.(st := ReadLine(s.st, line))
  }

  function Rounds(r: Reading, n: nat): Reading
    decreases n
  {
    if n == 0 then r else Rounds(Round(r), n - 1)
  }

  /** A failed stream has no end. */
  lemma {:induction false} FailedForever(r: Reading, n: nat)
    requires r.failed && !r.eof
    ensures !Rounds(r, n).eof
    decreases n
  {
    if n > 0 {
      FailedForever(Round(r), n - 1);
    }
  }

  lemma {:induction false} EndStays(r: Reading, n: nat)
    requires r.eof
    ensures Rounds(r, n) == r
    decreases n
  {
    if n > 0 {
      EndStays(r, n - 1);
    }
  }

  /** With short lines only, some number of rounds sees the end. */
  lemma {:induction false} ShortEnds(text: string, st: State) returns (n: nat)
    requires ShortLines(text)
    ensures Rounds(Reading(text, false, false, st), n).eof
    decreases |text|
  {
    hide ReadLine, StrChr;
    var r := Reading(text, false, false, st);
    match StrChr(text, '\n')
    case None =>
      n := 1;
      assert Rounds(r, 1) == Rounds(Round(r), 0);
    case Some(k) =>
      var m := ShortEnds(text[k+1..], ReadLine(st, text[..k]));
      n := m + 1;
  }

  /** When the end is seen, all lines were short and have been read. */
  lemma {:induction false} EndedShort(text: string, st: State, n: nat)
    requires Rounds(Reading(text, false, false, st), n).eof
    ensures ShortLines(text) && Rounds(Reading(text, false, false, st), n).st == ReadText(st, text)
    decreases |text|, n
  {
    hide ReadLine, StrChr;
    var r := Reading(text, false, false, st);
    var next := Round(r);
    if next.failed {
      FailedForever(next, n - 1);
    } else {
      match StrChr(text, '\n')
      case None => EndStays(next, n - 1);
      case Some(k) => EndedShort(text[k+1..], ReadLine(st, text[..k]), n - 1);
    }
  }

  /** The loop ends exactly if every line fits into the buffer, and then the
      text has been read. */
  lemma LoopEnds(text: string)
    ensures (exists n :: Rounds(Reading(text, false, false, START), n).eof) <==> ShortLines(text)
    ensures forall n :: Rounds(Reading(text, false, false, START), n).eof ==>
              Rounds(Reading(text, false, false, START), n).st == ReadText(START, text)
  {
    if ShortLines(text) {
      var n := ShortEnds(text, START);
    }
    forall n | Rounds(Reading(text, false, false, START), n).eof
      ensures ShortLines(text) && Rounds(Reading(text, false, false, START), n).st == ReadText(START, text)
    {
      EndedShort(text, START, n);
    }
  }
}
