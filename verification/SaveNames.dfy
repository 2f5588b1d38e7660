/** libspider/Crawler.cpp: the names under which pages are saved. */
module SaveNames {
  import opened Options
  import opened Crawlers
  import opened CrawlerTheorems

  const TWO_32: nat := 0x1_0000_0000
  const TWO_64: nat := 0x1_0000_0000_0000_0000

  /** The sequence number as Run sees it: an unsigned counter, returned as an
      int and then stored in an unsigned long. */
  function FileNumber(fseq: nat): (m: nat)
    ensures m < TWO_64
  {
    var u := fseq % TWO_32;
    if u < 0x8000_0000 then u else TWO_64 - TWO_32 + u
  }

  function Digit(d: nat): char
    requires d < 10
  {
    '0' + d as char
  }

  function DigitValue(c: char): int {
    c as int - '0' as int
  }

  /** m in decimal; nothing for 0. */
  function Digits(m: nat): string {
    if m == 0 then "" else Digits(m / 10) + [Digit(m % 10)]
  }

  function Value(s: string): int {
    if s == "" then 0 else 10 * Value(s[..|s|-1]) + DigitValue(s[|s|-1])
  }

  function Zeros(n: nat): (r: string)
    ensures |r| == n
  {
    if n == 0 then "" else "0" + Zeros(n - 1)
  }

  function Padded(m: nat): string {
    if |Digits(m)| < 9 then Zeros(9 - |Digits(m)|) + Digits(m) else Digits(m)
  }

  function SaveName(m: nat): string {
    "f" + Padded(m) + ".html"
  }

  lemma {:induction false} DigitsValue(m: nat)
    ensures Value(Digits(m)) == m
  {
    if m > 0 {
      DigitsValue(m / 10);
      assert Digits(m)[..|Digits(m)|-1] == Digits(m / 10);
    }
  }

  lemma {:induction false} ZerosValue(n: nat, s: string)
    ensures Value(Zeros(n) + s) == Value(s)
    decreases n, |s|
  {
    if s == "" {
      if n > 0 {
        assert Zeros(n) == Zeros(n - 1) + "0" by { ZerosShift(n); }
        assert (Zeros(n) + s)[..n-1] == Zeros(n - 1) + "";
        ZerosValue(n - 1, "");
        assert Zeros(n) + s == Zeros(n);
      }
    } else {
      assert (Zeros(n) + s)[..|Zeros(n) + s|-1] == Zeros(n) + s[..|s|-1];
      ZerosValue(n, s[..|s|-1]);
    }
  }

  lemma {:induction false} ZerosShift(n: nat)
    requires n > 0
    ensures Zeros(n) == Zeros(n - 1) + "0"
  {
    if n > 1 {
      ZerosShift(n - 1);
    }
  }

  lemma {:induction false} DigitsLength(m: nat, k: nat, bound: nat)
    requires m < bound && bound == Power(k)
    ensures |Digits(m)| <= k
    decreases k
  {
    if m > 0 {
      DigitsLength(m / 10, k - 1, Power(k - 1));
    }
  }

  function Power(k: nat): nat {
    if k == 0 then 1 else 10 * Power(k - 1)
  }

  /** A name tells its number. */
  lemma NameTellsNumber(a: nat, b: nat)
    requires SaveName(a) == SaveName(b)
    ensures a == b
  {
    assert Padded(a) == SaveName(a)[1..|SaveName(a)|-5];
    assert Padded(b) == SaveName(b)[1..|SaveName(b)|-5];
    PaddedValue(a);
    PaddedValue(b);
  }

  lemma PaddedValue(m: nat)
    ensures Value(Padded(m)) == m
  {
    DigitsValue(m);
    if |Digits(m)| < 9 {
      ZerosValue(9 - |Digits(m)|, Digits(m));
    }
  }

  predicate AllDigits(s: string) {
    forall c :: c in s ==> '0' <= c <= '9'
  }

  lemma {:induction false} DigitsForm(m: nat)
    ensures AllDigits(Digits(m)) && (m > 0 ==> Digits(m) != "" && Digits(m)[0] != '0')
  {
    if m > 0 {
      DigitsForm(m / 10);
    }
  }

  lemma {:induction false} ZerosForm(n: nat)
    ensures AllDigits(Zeros(n))
  {
    if n > 0 {
      ZerosForm(n - 1);
    }
  }

  /** The name is "f", the number in decimal with at least nine digits and no
      more zeros than that takes, and ".html". */
  lemma NameForm(m: nat) returns (digits: string)
    ensures SaveName(m) == "f" + digits + ".html" && AllDigits(digits) && Value(digits) == m
    ensures |digits| >= 9 && (|digits| > 9 ==> digits[0] != '0')
  {
    hide Value;
    digits := Padded(m);
    PaddedValue(m);
    DigitsForm(m);
    if |Digits(m)| < 9 {
      ZerosForm(9 - |Digits(m)|);
    }
  }

  /** Two pages of a run are saved under the same name exactly if the counter
      has come round between them. */
  lemma NamesAgree(n: nat, url: nat, actions: seq<Action>, i: nat, j: nat)
    requires Execute(Start(n, url), actions).Some?
    requires var s := Execute(Start(n, url), actions).value; i < |s.numbers| && j < |s.numbers|
    ensures var s := Execute(Start(n, url), actions).value;
            SaveName(FileNumber(s.numbers[i])) == SaveName(FileNumber(s.numbers[j])) <==> i % TWO_32 == j % TWO_32
  {
    hide SaveName, Execute;
    RunKeeps(n, url, actions);
    var s := Execute(Start(n, url), actions).value;
    CountedNumbers(s, i);
    CountedNumbers(s, j);
    if SaveName(FileNumber(i)) == SaveName(FileNumber(j)) {
      NameTellsNumber(FileNumber(i), FileNumber(j));
    }
  }

  lemma CountedNumbers(s: State, i: nat)
    requires Invariant(s) && i < |s.numbers|
    ensures s.numbers[i] == i
  {
  }

  /** The loop that writes the digits of number backwards. */
  method WriteDigits(filename: array<char>, number: nat) returns (cp: nat)
    requires filename.Length == 25 && |Digits(number)| <= 20
    modifies filename
    ensures 4 <= cp <= 24 && filename[cp..24] == Digits(number)
  {
    var m := number;
    cp := 24;
    assert filename[cp..24] == "";
    while m > 0
      invariant cp <= 24 && 24 - cp + |Digits(m)| == |Digits(number)|
      invariant Digits(number) == Digits(m) + filename[cp..24]
    {
      ghost var tail := filename[cp..24];
      cp := cp - 1;
      filename[cp] := Digit(m % 10);
      assert filename[cp..24] == [Digit(m % 10)] + tail;
      m := m / 10;
    }
  }

  /** The loop that fills up with zeros. */
  method WriteZeros(filename: array<char>, start: nat) returns (cp: nat)
    requires filename.Length == 25 && 4 <= start <= 24
    modifies filename
    ensures 4 <= cp <= 24
    ensures filename[cp..24] == Zeros(if 24 - start < 9 then 9 - (24 - start) else 0) + old(filename[start..24])
  {
    cp := start;
    var len := 24 - cp;
    while len < 9
      invariant 4 <= cp <= start && len == 24 - cp
      invariant len <= 9 || cp == start
      invariant filename[cp..24] == Zeros(start - cp) + old(filename[start..24])
    {
      ghost var tail := filename[cp..24];
      len := len + 1;
      cp := cp - 1;
      filename[cp] := '0';
      assert filename[cp..24] == "0" + tail;
    }
  }

  method WriteMark(filename: array<char>, start: nat) returns (cp: nat)
    requires filename.Length == 25 && 4 <= start <= 24
    modifies filename
    ensures cp <= 24 && filename[cp..24] == "f" + old(filename[start..24])
  {
    ghost var tail := filename[start..24];
    cp := start - 1;
    filename[cp] := 'f';
    assert filename[cp..24] == "f" + tail;
  }

  /** The name that Run makes in a buffer of 25 characters. */
  method MakeName(number: nat) returns (savefile: string)
    requires number < TWO_64
    ensures savefile == SaveName(number)
  {
    hide Digits, Zeros;
    PowerFacts();
    DigitsLength(number, 20, Power(20));
    var filename := new char[25];
    var cp := WriteDigits(filename, number);
    cp := WriteZeros(filename, cp);
    cp := WriteMark(filename, cp);
    savefile := filename[cp..24] + ".html";
  }

  lemma PowerFacts()
    ensures Power(20) > TWO_64
  {
    assert Power(5) == 100000;
    assert Power(10) == 10_000_000_000;
    assert Power(15) == 1_000_000_000_000_000;
  }
}
