// What the value formats of iniparser_line make of a line: quoted values, values before a comment, and empty ones.
module IniValues {
  import opened Common
  import opened CText
  import opened Ini
  import opened IniRoundTrip

  /** A value as it is stored: without blanks at its ends, and empty if it is an empty pair of quotes. */
  function Stored(v: string): string {
    var s := Strip(v);
    if s == "\"\"" || s == "''" then "" else s
  }

  /** A line that sets the name: blanks around the equals sign, then the value text. */
  function Setting(name: string, a: string, b: string, value: string): string { name + a + "=" + b + value }

  /** The line fits the line buffer and does not go on behind a backslash. */
  predicate Alone(line: string) {
    && Avoids(line, "\n") && |line| + 1 < ASCIILINESZ
    && DropSpace(line) != "" && DropSpace(line)[|DropSpace(line)| - 1] != '\\'
  }

  lemma {:induction false} DropSpaceBehind(head: string, tail: string)
    requires head != "" && !IsSpace(head[|head| - 1])
    ensures DropSpace(head + tail) == head + DropSpace(tail)
    decreases |tail|
  {
    if tail == "" {
      assert head + tail == head;
    } else if IsSpace(tail[|tail| - 1]) {
      assert (head + tail)[..|head + tail| - 1] == head + tail[..|tail| - 1];
      DropSpaceBehind(head, tail[..|tail| - 1]);
    }
  }

  lemma {:induction false} KeyEqualsSetting(name: string, a: string, b: string, value: string)
    requires PlainName(name) && AllSpace(a) && AllSpace(b) && Avoids(a, "=")
    requires value != "" && !IsSpace(value[0])
    ensures KeyEquals(Setting(name, a, b, value)) == Some((name + a, value))
  {
    var rest := "=" + (b + value);
    assert Setting(name, a, b, value) == (name + a) + rest;
    UntilAt(name + a, rest, "=");
    assert rest[1..] == b + value;
    SkipSpaceBefore(b, value);
  }

  lemma {:induction false} NameOfSetting(name: string, a: string)
    requires PlainName(name) && |name| <= ASCIILINESZ && AllSpace(a)
    ensures StrLwc(Strip(name + a)) == name
  {
    DropSpaceAfter(name, a);
    StrLwcPlain(name);
  }

  /** A line that sets a name enters what ValueOf makes of the text behind the equals sign, blanks at its end
      dropped. */
  lemma {:induction false} LoadSetting(p: Progress, name: string, a: string, b: string, value: string, rest: string)
    requires p.prefix == "" && PlainName(name) && AllSpace(a) && AllSpace(b) && Avoids(a, "=")
    requires value != "" && !IsSpace(value[0]) && Alone(Setting(name, a, b, value))
    ensures Load(p, Setting(name, a, b, value) + "\n" + rest)
         == Load(Progress("", p.section, p.dict[p.section + ":" + name := Some(ValueOf(DropSpace(value)))], 0), rest)
  {
    LoadLine(p, Setting(name, a, b, value), rest);
    ReadSetting(p, name, a, b, value);
  }

  lemma {:induction false} ReadSetting(p: Progress, name: string, a: string, b: string, value: string)
    requires p.prefix == "" && PlainName(name) && AllSpace(a) && AllSpace(b) && Avoids(a, "=")
    requires value != "" && !IsSpace(value[0]) && Alone(Setting(name, a, b, value))
    ensures ReadOne(p, Setting(name, a, b, value) + "\n")
         == Some(Progress("", p.section, p.dict[p.section + ":" + name := Some(ValueOf(DropSpace(value)))], 0))
  {
    BodyOfSetting(name, a, b, value);
    ParseSetting(name, a, b, DropSpace(value), p.section);
    ReadLine(p, Setting(name, a, b, value), Setting(name, a, b, DropSpace(value)), ValueLine(name, ValueOf(DropSpace(value))));
  }

  lemma {:induction false} ParseSetting(name: string, a: string, b: string, value: string, section: string)
    requires PlainName(name) && |name| <= ASCIILINESZ && AllSpace(a) && AllSpace(b) && Avoids(a, "=")
    requires value != "" && !IsSpace(value[0]) && Trim(Setting(name, a, b, value))
    ensures ParseLine(Setting(name, a, b, value), section) == ValueLine(name, ValueOf(value))
  {
    KeyEqualsSetting(name, a, b, value);
    NameOfSetting(name, a);
    ParseValueLine(Setting(name, a, b, value), section, name + a, value);
  }

  lemma {:induction false} BodyOfSetting(name: string, a: string, b: string, value: string)
    requires PlainName(name) && value != "" && !IsSpace(value[0])
    ensures DropSpace(value) != "" && DropSpace(value)[0] == value[0]
    ensures var body := Setting(name, a, b, DropSpace(value));
            DropSpace(Setting(name, a, b, value)) == body && DropSpace(Setting(name, a, b, value) + "\n") == body
            && Trim(body) && body[0] == name[0]
  {
    var head := name + a + "=" + b + [value[0]];
    assert Setting(name, a, b, value) == head + value[1..];
    DropSpaceBehind(head, value[1..]);
    DropSpaceBehind([value[0]], value[1..]);
    assert [value[0]] + value[1..] == value;
    assert head + DropSpace(value[1..]) == Setting(name, a, b, DropSpace(value));
    DropSpaceAfter(Setting(name, a, b, value), "\n");
  }

  /** A quoted value is what stands between the quotes, comment characters, the other quote and equals signs
      included, without the blanks at its ends; what follows the closing quote does not matter. */
  lemma {:induction false} QuotedValue(v: string, q: char, tail: string)
    requires q in "\"'" && v != "" && Avoids(v, [q])
    ensures ValueOf([q] + v + [q] + tail) == Stored(v)
  {
    var text := [q] + v + [q] + tail;
    assert text[1..] == v + ([q] + tail);
    UntilAt(v, [q] + tail, [q]);
  }

  /** Loading a quoted value. */
  lemma {:induction false} LoadQuoted(p: Progress, name: string, a: string, b: string, v: string, q: char, tail: string,
                                      rest: string)
    requires p.prefix == "" && PlainName(name) && AllSpace(a) && AllSpace(b) && Avoids(a, "=")
    requires q in "\"'" && v != "" && Avoids(v, [q]) && Alone(Setting(name, a, b, [q] + v + [q] + tail))
    ensures Load(p, Setting(name, a, b, [q] + v + [q] + tail) + "\n" + rest)
         == Load(Progress("", p.section, p.dict[p.section + ":" + name := Some(Stored(v))], 0), rest)
  {
    var value := [q] + v + [q] + tail;
    LoadSetting(p, name, a, b, value, rest);
    DropSpaceBehind([q] + v + [q], tail);
    QuotedValue(v, q, DropSpace(tail));
  }

  /** The text opens no quotation: it starts with no quote, or with an empty pair, or is just a quote. */
  predicate Unquoted(text: string) {
    text != "" ==> text[0] !in "\"'" || |text| == 1 || text[1] == text[0]
  }

  /** A value without a quotation ends before the first comment character. */
  lemma {:induction false} CommentedValue(v: string, tail: string)
    requires Unquoted(v + tail) && Avoids(v, ";#") && (tail == "" || tail[0] in ";#")
    ensures ValueOf(v + tail) == Stored(v)
  {
    UntilAt(v, tail, ";#");
    var text := v + tail;
    if text != "" {
      assert text[0] == '"' ==> Quoted(text, '"') == "";
      assert text[0] == '\'' ==> Quoted(text, '\'') == "";
    }
  }

  /** A quotation that is not closed goes to the end of the line. */
  lemma {:induction false} UnclosedValue(v: string, q: char)
    requires q in "\"'" && v != "" && Avoids(v, [q])
    ensures ValueOf([q] + v) == Stored(v)
  {
    assert ([q] + v)[1..] == v + "";
    UntilAt(v, "", [q]);
  }

  /** Loading a value that is not quoted, with or without a comment behind it. */
  lemma {:induction false} LoadCommented(p: Progress, name: string, a: string, b: string, v: string, tail: string, rest: string)
    requires p.prefix == "" && PlainName(name) && AllSpace(a) && AllSpace(b) && Avoids(a, "=")
    requires v != "" && !IsSpace(v[0]) && Unquoted(v + tail) && Avoids(v, ";#") && (tail == "" || tail[0] in ";#")
    requires Alone(Setting(name, a, b, v + tail))
    ensures Load(p, Setting(name, a, b, v + tail) + "\n" + rest)
         == Load(Progress("", p.section, p.dict[p.section + ":" + name := Some(Stored(v))], 0), rest)
  {
    LoadSetting(p, name, a, b, v + tail, rest);
    KeptValue(v, tail);
  }

  /** Dropping the blanks at the end of the line first makes no difference. */
  lemma {:induction false} KeptValue(v: string, tail: string)
    requires v != "" && !IsSpace(v[0]) && Unquoted(v + tail) && Avoids(v, ";#") && (tail == "" || tail[0] in ";#")
    ensures ValueOf(DropSpace(v + tail)) == Stored(v)
  {
    if tail == "" {
      assert v + tail == v;
      KeptPlainValue(v);
    } else {
      CommentTail(v, tail);
      CommentedValue(v, DropSpace(tail));
    }
  }

  lemma {:induction false} KeptPlainValue(v: string)
    requires v != "" && !IsSpace(v[0]) && Unquoted(v) && Avoids(v, ";#")
    ensures ValueOf(DropSpace(v)) == Stored(v)
  {
    DropSpaceBehind([v[0]], v[1..]);
    assert [v[0]] + v[1..] == v;
    assert DropSpace(v) + "" == DropSpace(v);
    CommentedValue(DropSpace(v), "");
    StripTwice(v);
  }

  lemma {:induction false} CommentTail(v: string, tail: string)
    requires tail != "" && tail[0] in ";#"
    ensures DropSpace(v + tail) == v + DropSpace(tail) && DropSpace(tail) != "" && DropSpace(tail)[0] == tail[0]
  {
    var head := v + [tail[0]];
    assert v + tail == head + tail[1..] && tail == [tail[0]] + tail[1..];
    DropSpaceBehind(head, tail[1..]);
    DropSpaceBehind([tail[0]], tail[1..]);
  }

  lemma {:induction false} StripTwice(v: string)
    requires v != "" && !IsSpace(v[0])
    ensures Strip(DropSpace(v)) == Strip(v)
  {}

  /** Loading a line with nothing but a comment behind the equals sign: the name gets the empty value. */
  lemma {:induction false} LoadNothing(p: Progress, name: string, a: string, b: string, tail: string, rest: string)
    requires p.prefix == "" && PlainName(name) && AllSpace(a) && AllSpace(b) && Avoids(a, "=")
    requires tail != "" && tail[0] in ";#" && Alone(Setting(name, a, b, tail))
    ensures Load(p, Setting(name, a, b, tail) + "\n" + rest)
         == Load(Progress("", p.section, p.dict[p.section + ":" + name := Some("")], 0), rest)
  {
    LoadSetting(p, name, a, b, tail, rest);
    CommentTail("", tail);
    assert "" + tail == tail && "" + DropSpace(tail) == DropSpace(tail);
    CommentedValue("", DropSpace(tail));
  }

  /** A line without a key before the equals sign is bad. */
  lemma {:induction false} NoKeyIsBad(line: string, section: string)
    requires line != "" && Trim(line) && line[0] == '='
    ensures ParseLine(line, section) == BadLine
  {
    StripTrim(line);
    assert "" + line == line;
    UntilAt("", line, "=");
  }
}
