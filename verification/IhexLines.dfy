// What the lines of an Intel HEX file do, wherever they stand in it.
module IhexLines {
  import opened Common
  import opened CText
  import opened Ihex

  // ---------------------------------------------------------------------
  // A file is read line by line
  // ---------------------------------------------------------------------

  /** The text is empty, or its last line is complete. */
  predicate Ended(text: string) { text == "" || text[|text| - 1] == '\n' }

  lemma {:induction false} FgetsBefore(a: string, b: string, max: nat)
    requires a != "" && Ended(a) && max > 0
    ensures Fgets(a + b, max) == (Fgets(a, max).0, Fgets(a, max).1 + b) && Ended(Fgets(a, max).1)
  {
    var (x, y) := Until(a, "\n");
    assert a + b == x + (y + b);
    UntilAt(x, y + b, "\n");
    var n := if |x| + 1 <= max then |x| + 1 else max;
    assert (a + b)[..n] == a[..n] && (a + b)[n..] == a[n..] + b;
  }

  lemma {:induction false} GetsUnfold(text: string)
    requires text != ""
    ensures var (got, rest) := Fgets(text, LINE_BUFFER - 1); Gets(text) == [Until(got, "\n").0] + Gets(rest)
  {}

  /** What comes after complete lines is read as if it stood alone. */
  lemma {:induction false} GetsConcat(a: string, b: string)
    requires Ended(a)
    ensures Gets(a + b) == Gets(a) + Gets(b)
    decreases |a|
  {
    if a == "" {
      assert a + b == b;
    } else {
      FgetsBefore(a, b, LINE_BUFFER - 1);
      var (got, rest) := Fgets(a, LINE_BUFFER - 1);
      GetsConcat(rest, b);
      GetsUnfold(a);
      GetsUnfold(a + b);
      Regroup([Until(got, "\n").0], Gets(rest), Gets(b));
    }
  }

  /** Later lines only matter if the earlier ones do not end the file. */
  lemma {:induction false} ScanConcat(xs: seq<string>, ys: seq<string>)
    ensures Scan(xs + ys) == if Scan(xs).1 == AtEndOfInput then (Scan(xs).0 + Scan(ys).0, Scan(ys).1) else Scan(xs)
  {
    if xs == [] {
      assert xs + ys == ys;
      assert [] + Scan(ys).0 == Scan(ys).0;
    } else {
      assert (xs + ys)[1..] == xs[1..] + ys;
      ScanConcat(xs[1..], ys);
      if ParseLine(xs[0]).Data? { Regroup([ParseLine(xs[0]).record], Scan(xs[1..]).0, Scan(ys).0); }
    }
  }

  /** What a file holds when a line that fits the line buffer stands behind some complete lines. */
  lemma {:induction false} LineBehind(before: string, line: string, after: string)
    requires Ended(before) && Avoids(line, "\n") && |line| <= 510
    ensures Gets(before + line + "\n" + after) == Gets(before) + ([line] + Gets(after))
  {
    assert before + line + "\n" + after == before + (line + "\n" + after);
    GetsConcat(before, line + "\n" + after);
    GetsLine(line, after);
  }

  /** A comment line that fits the line buffer is as good as absent, anywhere in a file. */
  lemma {:induction false} CommentIgnored(before: string, comment: string, after: string)
    requires Ended(before) && comment != "" && comment[0] == '#' && Avoids(comment, "\n") && |comment| <= 510
    ensures Scan(Gets(before + comment + "\n" + after)) == Scan(Gets(before + after))
  {
    LineBehind(before, comment, after);
    GetsConcat(before, after);
    ScanConcat(Gets(before), [comment] + Gets(after));
    ScanConcat(Gets(before), Gets(after));
    assert ([comment] + Gets(after))[1..] == Gets(after);
  }

  // ---------------------------------------------------------------------
  // Lines that end a file
  // ---------------------------------------------------------------------

  /** The line ends the file, unless it has ended before: the records before it are taken. */
  ghost predicate EndsFile(before: string, line: string, after: string, ending: Ending) {
    var earlier := Scan(Gets(before));
    Scan(Gets(before + line + "\n" + after)) == if earlier.1 == AtEndOfInput then (earlier.0, ending) else earlier
  }

  lemma {:induction false} EndingLine(before: string, line: string, after: string, ending: Ending)
    requires Ended(before) && Avoids(line, "\n") && |line| <= 510
    requires ParseLine(line) == if ending.BadLine? then Malformed(ending.code) else EndRecord
    requires ending != AtEndOfInput
    ensures EndsFile(before, line, after, ending)
  {
    LineBehind(before, line, after);
    ScanConcat(Gets(before), [line] + Gets(after));
    assert Scan(Gets(before)).0 + [] == Scan(Gets(before)).0;
  }

  /** A record of any type: its declared length, address and type, and whatever follows. */
  function RecordLine(len: Byte, addr: Addr16, kind: Byte, tail: string): string {
    ":" + Print8(len) + Print16(addr) + Print8(kind) + tail
  }

  lemma {:induction false} RecordLineParts(len: Byte, addr: Addr16, kind: Byte, tail: string)
    requires Avoids(tail, "\n")
    ensures var s := RecordLine(len, addr, kind, tail);
            && |s| == 9 + |tail| && s[0] == ':' && Avoids(s, "\n")
            && Field(s, 1, 3) == Print8(len) && Field(s, 3, 7) == Print16(addr) && Field(s, 7, 9) == Print8(kind)
  {
    var s := RecordLine(len, addr, kind, tail);
    DigitIsNoNewline(len);
    DigitIsNoNewline(addr / 256);
    DigitIsNoNewline(addr % 256);
    DigitIsNoNewline(kind);
    assert s[1..3] == Print8(len) && s[3..7] == Print16(addr) && s[7..9] == Print8(kind);
  }

  /** A record of another type than data and end of file is refused with -3, whatever its length, address and
      contents. */
  lemma {:induction false} UnsupportedRefused(before: string, len: Byte, addr: Addr16, kind: Byte, tail: string, after: string)
    requires Ended(before) && Avoids(tail, "\n") && |tail| <= 501 && kind != 0 && kind != 1
    ensures EndsFile(before, RecordLine(len, addr, kind, tail), after, BadLine(-3))
  {
    RecordLineParts(len, addr, kind, tail);
    Hex8OfPrint8(kind);
    EndingLine(before, RecordLine(len, addr, kind, tail), after, BadLine(-3));
  }

  /** An end record ends the file, whatever its length, address and contents. */
  lemma {:induction false} EndRecordEnds(before: string, len: Byte, addr: Addr16, tail: string, after: string)
    requires Ended(before) && Avoids(tail, "\n") && |tail| <= 501
    ensures EndsFile(before, RecordLine(len, addr, 1, tail), after, AtEndRecord)
  {
    RecordLineParts(len, addr, 1, tail);
    Hex8OfPrint8(1);
    EndingLine(before, RecordLine(len, addr, 1, tail), after, AtEndRecord);
  }

  /** A data record that is shorter than it declares, checksum included, is refused with -4. */
  lemma {:induction false} ShortRecordRefused(before: string, len: Byte, addr: Addr16, tail: string, after: string)
    requires Ended(before) && Avoids(tail, "\n") && |tail| <= 501 && |tail| < 2 * len + 2
    ensures EndsFile(before, RecordLine(len, addr, 0, tail), after, BadLine(-4))
  {
    RecordLineParts(len, addr, 0, tail);
    Hex8OfPrint8(len);
    Hex8OfPrint8(0);
    EndingLine(before, RecordLine(len, addr, 0, tail), after, BadLine(-4));
  }

  /** A line that is neither a comment nor a record, an empty one for example, is refused with -2. */
  lemma {:induction false} StrangeLineRefused(before: string, line: string, after: string)
    requires Ended(before) && Avoids(line, "\n") && |line| <= 510 && (line == "" || (line[0] != '#' && line[0] != ':'))
    ensures EndsFile(before, line, after, BadLine(-2))
  {
    EndingLine(before, line, after, BadLine(-2));
  }

  // ---------------------------------------------------------------------
  // Digits
  // ---------------------------------------------------------------------

  /** The digits of a record may be in either case. */
  lemma {:induction false} CaseIgnored(s: string)
    ensures ParseLine(Lower(s)) == ParseLine(s)
  {
    FieldCase(s, 1, 3);
    FieldCase(s, 3, 7);
    FieldCase(s, 7, 9);
    forall i: nat | 11 + 2 * i <= |s| ensures Hex8(Lower(s)[9 + 2 * i..11 + 2 * i]) == Hex8(s[9 + 2 * i..11 + 2 * i]) {
      assert Lower(s)[9 + 2 * i..11 + 2 * i] == Lower(s[9 + 2 * i..11 + 2 * i]);
      HexCase(s[9 + 2 * i..11 + 2 * i], 0);
    }
  }

  lemma {:induction false} FieldCase(s: string, lo: nat, hi: nat)
    requires lo <= hi
    ensures HexFrom(Field(Lower(s), lo, hi), 0) == HexFrom(Field(s, lo, hi), 0)
  {
    assert Field(Lower(s), lo, hi) == Lower(Field(s, lo, hi));
    HexCase(Field(s, lo, hi), 0);
  }

  lemma {:induction false} HexCase(s: string, acc: nat)
    ensures HexFrom(Lower(s), acc) == HexFrom(s, acc)
    decreases s
  {
    if s != "" {
      assert Lower(s)[1..] == Lower(s[1..]);
      assert HexDigit(LowerChar(s[0])) == HexDigit(s[0]);
      if HexDigit(s[0]) != 16 { HexCase(s[1..], 16 * acc + HexDigit(s[0])); }
    }
  }

  /** The first character that is not a digit ends a number. */
  lemma {:induction false} DigitsEndAt(digits: string, rest: string, acc: nat)
    requires rest == "" || rest[0] !in "0123456789abcdefABCDEF"
    ensures HexFrom(digits + rest, acc) == HexFrom(digits, acc)
    decreases digits
  {
    if digits == "" {
      assert digits + rest == rest;
    } else {
      assert (digits + rest)[1..] == digits[1..] + rest;
      if HexDigit(digits[0]) != 16 { DigitsEndAt(digits[1..], rest, 16 * acc + HexDigit(digits[0])); }
    }
  }
}
