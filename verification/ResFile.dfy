// The text of a reservation file, as fprintf writes it and fscanf reads it back.
module ResFile {
  import opened Common
  import opened CText

  predicate IsDigit(c: char) { '0' <= c <= '9' }

  // ---------------------------------------------------------------------
  // Decimal numbers
  // ---------------------------------------------------------------------

  function DigitChar(d: nat): (c: char)
    requires d < 10
    ensures IsDigit(c) && c as int - '0' as int == d
  {
    "0123456789"[d]
  }

  function PrintNat(n: nat): (s: string)
    ensures s != [] && IsDigit(s[0])
  {
    if n < 10 then [DigitChar(n)] else PrintNat(n / 10) + [DigitChar(n % 10)]
  }

  function PrintInt(n: int): string {
    if n < 0 then "-" + PrintNat(-n) else PrintNat(n)
  }

  /** The number whose digits so far make up acc, and what follows it. */
  function DigitsFrom(s: string, acc: nat): (nat, string)
    decreases s
  {
    if s == [] || !IsDigit(s[0]) then (acc, s)
    else DigitsFrom(s[1..], 10 * acc + (s[0] as int - '0' as int))
  }

  /** A "%d" conversion: leading space, an optional sign, digits. */
  function ScanInt(s: string): Option<(int, string)> {
    var t := SkipSpace(s);
    var u := if t != [] && (t[0] == '-' || t[0] == '+') then t[1..] else t;
    if u == [] || !IsDigit(u[0]) then None
    else
      var (n, rest) := DigitsFrom(u, 0);
      Some((if t[0] == '-' then 0 - n else n, rest))
  }

  lemma {:induction false} DigitsOfPrint(n: nat, rest: string)
    ensures DigitsFrom(PrintNat(n) + rest, 0) == DigitsFrom(rest, n)
  {
    if n < 10 {
      assert (PrintNat(n) + rest)[1..] == rest;
    } else {
      var more := [DigitChar(n % 10)] + rest;
      assert PrintNat(n) + rest == PrintNat(n / 10) + more;
      DigitsOfPrint(n / 10, more);
      assert more[1..] == rest;
    }
  }

  lemma {:induction false} ScanDigits(u: string)
    requires u != [] && IsDigit(u[0])
    ensures ScanInt(u) == Some((DigitsFrom(u, 0).0, DigitsFrom(u, 0).1))
  {}

  lemma {:induction false} ScanMinus(u: string)
    requires u != [] && IsDigit(u[0])
    ensures ScanInt("-" + u) == Some((0 - DigitsFrom(u, 0).0, DigitsFrom(u, 0).1))
  {
    assert ("-" + u)[1..] == u;
    assert SkipSpace("-" + u) == "-" + u;
  }

  lemma {:induction false} DigitsEnd(n: nat, rest: string)
    requires rest == [] || !IsDigit(rest[0])
    ensures DigitsFrom(PrintNat(n) + rest, 0) == (n, rest)
  {
    DigitsOfPrint(n, rest);
  }

  /** Reading a printed number gives the number back, with what follows. */
  lemma {:induction false} ScanOfPrintInt(n: int, rest: string)
    requires rest == [] || !IsDigit(rest[0])
    ensures ScanInt(PrintInt(n) + rest) == Some((n, rest))
  {
    if n < 0 {
      DigitsEnd(-n, rest);
      ScanMinus(PrintNat(-n) + rest);
      assert PrintInt(n) + rest == "-" + (PrintNat(-n) + rest);
    } else {
      DigitsEnd(n, rest);
      ScanDigits(PrintNat(n) + rest);
    }
  }

  // ---------------------------------------------------------------------
  // Words
  // ---------------------------------------------------------------------

  const MAX_SIGNATURE := 511

  /** The first characters of s up to a space, at most max of them. */
  function TakeWord(s: string, max: nat): (w: string)
    ensures |w| <= max && forall i :: 0 <= i < |w| ==> !IsSpace(w[i])
    decreases max
  {
    if max == 0 || s == [] || IsSpace(s[0]) then [] else [s[0]] + TakeWord(s[1..], max - 1)
  }

  /** A "%511s" conversion. */
  function ScanWord(s: string): (w: string)
    ensures |w| <= MAX_SIGNATURE && forall i :: 0 <= i < |w| ==> !IsSpace(w[i])
  {
    TakeWord(SkipSpace(s), MAX_SIGNATURE)
  }

  predicate Plain(w: string) {
    |w| <= MAX_SIGNATURE && forall i :: 0 <= i < |w| ==> !IsSpace(w[i])
  }

  lemma {:induction false} TakePlainWord(w: string, rest: string, max: nat)
    requires |w| <= max && (forall i :: 0 <= i < |w| ==> !IsSpace(w[i])) && rest != [] && IsSpace(rest[0])
    ensures TakeWord(w + rest, max) == w
    decreases w
  {
    if w != [] {
      assert (w + rest)[1..] == w[1..] + rest;
      TakePlainWord(w[1..], rest, max - 1);
      assert w == [w[0]] + w[1..];
    }
  }

  /** A word is read back exactly when it has no space in it and fits the buffer. */
  lemma {:induction false} ScanWordIff(w: string)
    ensures ScanWord(" " + w + "\n") == w <==> Plain(w)
  {
    var s := " " + w + "\n";
    assert s[1..] == w + "\n";
    if Plain(w) {
      if w == [] {
        assert s[1..][1..] == [];
        assert SkipSpace(s) == SkipSpace(s[1..]) == SkipSpace(s[1..][1..]) == [];
      } else {
        assert SkipSpace(s) == w + "\n";
        TakePlainWord(w, "\n", MAX_SIGNATURE);
      }
    }
  }

  // ---------------------------------------------------------------------
  // The file
  // ---------------------------------------------------------------------

  /** The fields fscanf finds: how many, and their values. */
  datatype Fields = Fields(count: nat, owner: int, state: int, signature: string)

  function Scan(text: string): Fields {
    match ScanInt(text)
    case None => Fields(0, 0, 0, "")
    case Some((owner, rest)) =>
      match ScanInt(rest)
      case None => Fields(1, owner, 0, "")
      case Some((state, tail)) =>
        var w := ScanWord(tail);
        Fields(if w == "" then 2 else 3, owner, state, w)
  }

  function Print(owner: int, state: int, signature: string): string {
    var tail := " " + signature + "\n";
    PrintInt(owner) + (" " + PrintInt(state) + tail)
  }

  lemma {:induction false} ScanSecondInt(n: int, tail: string)
    requires tail != [] && !IsDigit(tail[0])
    ensures ScanInt(" " + PrintInt(n) + tail) == Some((n, tail))
  {
    ScanSkipsSpace(PrintInt(n) + tail);
    ScanOfPrintInt(n, tail);
    assert " " + (PrintInt(n) + tail) == " " + PrintInt(n) + tail;
  }

  lemma {:induction false} ScanParts(text: string, owner: int, rest: string, state: int, tail: string)
    requires ScanInt(text) == Some((owner, rest)) && ScanInt(rest) == Some((state, tail))
    ensures Scan(text) == Fields(if ScanWord(tail) == "" then 2 else 3, owner, state, ScanWord(tail))
  {}

  /** Reading a written file: owner and state always come back; so does the signature as one word. */
  lemma {:induction false} ScanOfPrint(owner: int, state: int, signature: string)
    ensures var w := ScanWord(" " + signature + "\n");
            Scan(Print(owner, state, signature)) == Fields(if w == "" then 2 else 3, owner, state, w)
  {
    var tail := " " + signature + "\n";
    var rest := " " + PrintInt(state) + tail;
    ScanOfPrintInt(owner, rest);
    ScanSecondInt(state, tail);
    ScanParts(PrintInt(owner) + rest, owner, rest, state, tail);
  }

  lemma {:induction false} ScanSkipsSpace(s: string)
    ensures ScanInt(" " + s) == ScanInt(s)
  {
    assert (" " + s)[1..] == s;
  }

  predicate Digitless(s: string) { forall i :: 0 <= i < |s| ==> !IsDigit(s[i]) }

  lemma {:induction false} SkippedDigitless(s: string)
    requires Digitless(s)
    ensures Digitless(SkipSpace(s))
    decreases s
  {
    if s != [] && IsSpace(s[0]) { SkippedDigitless(s[1..]); }
  }

  lemma {:induction false} NoDigitsNoInt(s: string)
    requires Digitless(s)
    ensures ScanInt(s) == None
  {
    SkippedDigitless(s);
  }

  /** A text without digits scans as nothing, and one with a single number as that number. */
  lemma {:induction false} ScanOfFew(n: int, rest: string)
    requires Digitless(rest)
    ensures Scan(rest).count == 0
    ensures Scan(PrintInt(n) + rest).count == 1
  {
    NoDigitsNoInt(rest);
    ScanOfPrintInt(n, rest);
  }

  /** A number may have blanks and either sign in front. */
  lemma {:induction false} ScanOfSigned(blanks: string, n: nat, rest: string)
    requires AllSpace(blanks) && (rest == [] || !IsDigit(rest[0]))
    ensures ScanInt(blanks + PrintInt(n) + rest) == Some((n, rest))
    ensures ScanInt(blanks + "+" + PrintNat(n) + rest) == Some((n, rest))
    ensures ScanInt(blanks + "-" + PrintNat(n) + rest) == Some((0 - n, rest))
  {
    DigitsEnd(n, rest);
    var digits := PrintNat(n) + rest;
    ScanBehind(blanks, digits);
    ScanDigits(digits);
    assert blanks + PrintInt(n) + rest == blanks + digits;
    SignedBehind(blanks, '+', n, rest);
    SignedBehind(blanks, '-', n, rest);
  }

  lemma {:induction false} ScanBehind(blanks: string, s: string)
    requires AllSpace(blanks)
    ensures ScanInt(blanks + s) == ScanInt(s)
  {
    SkipSpaceBefore(blanks, s);
  }

  lemma {:induction false} SignedBehind(blanks: string, sign: char, n: nat, rest: string)
    requires AllSpace(blanks) && (rest == [] || !IsDigit(rest[0])) && sign in "+-"
    ensures ScanInt(blanks + [sign] + PrintNat(n) + rest) == Some((if sign == '-' then 0 - n else n, rest))
  {
    var digits := PrintNat(n) + rest;
    DigitsEnd(n, rest);
    var s := [sign] + digits;
    assert s[1..] == digits;
    assert SkipSpace(s) == s;
    ScanBehind(blanks, s);
    assert blanks + [sign] + PrintNat(n) + rest == blanks + s;
  }
}
