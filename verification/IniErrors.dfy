// Which files iniparser_load refuses: its error count is overwritten by every line that sets an entry.
module IniErrors {
  import opened Common
  import opened CText
  import opened Ini
  import opened IniRoundTrip

  /** What the reading loop meets: a complete line, or one without a newline or without room for it. */
  datatype Seen = Complete(line: Line) | Broken

  /** Where the reader stands after a line. */
  function SectionAfter(parsed: Line, section: string): string {
    if parsed.SectionLine? then parsed.name else section
  }

  /** The lines of a text in order, continued lines joined, up to the first broken one. It depends on
      where the reader stands, but not on the dictionary or the error count. */
  function Reading(prefix: string, section: string, text: string): seq<Seen>
    requires HasRoom(prefix)
    decreases |text|
  {
    if text == "" then []
    else
      var (got, rest) := Fgets(text, ASCIILINESZ - 1 - |prefix|);
      var line := prefix + got;
      if |line| == 1 then Reading(prefix, section, rest)
      else if line[|line| - 1] != '\n' then [Broken]
      else
        var body := DropSpace(line);
        if body != "" && body[|body| - 1] == '\\' then Reading(body[..|body| - 1], section, rest)
        else
          var parsed := ParseLine(body, section);
          [Complete(parsed)] + Reading("", SectionAfter(parsed, section), rest)
  }

  predicate Sets(x: Seen) { x.Complete? && (x.line.SectionLine? || x.line.ValueLine?) }

  predicate Bad(x: Seen) { x == Complete(BadLine) }

  /** Some bad line has no line behind it that sets an entry. */
  ghost predicate BadAtEnd(seen: seq<Seen>) {
    exists i :: 0 <= i < |seen| && Bad(seen[i]) && NoneSets(seen[i + 1..])
  }

  predicate NoneSets(seen: seq<Seen>) { forall j :: 0 <= j < |seen| ==> !Sets(seen[j]) }

  /** The entries of the lines that set one, in order. */
  function Entered(dict: map<string, Option<string>>, section: string, seen: seq<Seen>): map<string, Option<string>>
    decreases |seen|
  {
    if seen == [] then dict
    else
      match seen[0]
      case Complete(SectionLine(name)) => Entered(dict[name := None], name, seen[1..])
      case Complete(ValueLine(key, value)) => Entered(dict[section + ":" + key := Some(value)], section, seen[1..])
      case _ => Entered(dict, section, seen[1..])
  }

  lemma {:induction false} NoneSetsHead(x: Seen, seen: seq<Seen>)
    ensures NoneSets([x] + seen) <==> !Sets(x) && NoneSets(seen)
  {
    assert ([x] + seen)[1..] == seen;
    if NoneSets([x] + seen) {
      assert !Sets(([x] + seen)[0]);
      forall j | 0 <= j < |seen| ensures !Sets(seen[j]) { assert ([x] + seen)[j + 1] == seen[j]; }
    }
  }

  lemma {:induction false} BadAtEndHead(x: Seen, seen: seq<Seen>)
    ensures BadAtEnd([x] + seen) <==> (Bad(x) && NoneSets(seen)) || BadAtEnd(seen)
  {
    var all := [x] + seen;
    assert all[1..] == seen;
    if BadAtEnd(all) {
      var i :| 0 <= i < |all| && Bad(all[i]) && NoneSets(all[i + 1..]);
      if i > 0 { assert all[i + 1..] == seen[i..] && Bad(seen[i - 1]); }
    }
    if BadAtEnd(seen) {
      var i :| 0 <= i < |seen| && Bad(seen[i]) && NoneSets(seen[i + 1..]);
      assert all[i + 2..] == seen[i + 1..] && Bad(all[i + 1]);
    }
    if Bad(x) && NoneSets(seen) { assert Bad(all[0]); }
  }

  lemma {:induction false} BrokenHead(x: Seen, seen: seq<Seen>)
    ensures Broken in [x] + seen <==> x == Broken || Broken in seen
  {}

  /** Whether a reader that already counts errors, or does not, refuses what it meets. */
  ghost predicate Refused(errs: nat, seen: seq<Seen>) {
    Broken in seen || BadAtEnd(seen) || (errs > 0 && NoneSets(seen))
  }

  lemma {:induction false} RefusedHead(p: Progress, line: Line, seen: seq<Seen>)
    ensures Refused(p.errs, [Complete(line)] + seen) <==> Refused(Take(p, line).errs, seen)
  {
    var x := Complete(line);
    NoneSetsHead(x, seen);
    BadAtEndHead(x, seen);
    BrokenHead(x, seen);
  }

  lemma {:induction false} EnteredHead(p: Progress, line: Line, seen: seq<Seen>)
    ensures var q := Take(p, line);
            Entered(p.dict, p.section, [Complete(line)] + seen) == Entered(q.dict, q.section, seen)
  {
    assert ([Complete(line)] + seen)[1..] == seen;
  }

  /** What the loader returns for what it meets, from a state. */
  ghost function Result(p: Progress, seen: seq<Seen>): Option<map<string, Option<string>>> {
    if Refused(p.errs, seen) then None else Some(Entered(p.dict, p.section, seen))
  }

  lemma {:induction false} ResultHead(p: Progress, line: Line, seen: seq<Seen>)
    ensures Result(p, [Complete(line)] + seen) == Result(Take(p, line), seen)
  {
    RefusedHead(p, line, seen);
    EnteredHead(p, line, seen);
  }

  lemma {:induction false} ResultBroken(p: Progress)
    ensures Result(p, [Broken]) == None
  {
    assert Broken in [Broken];
  }

  lemma {:induction false} ResultEmpty(p: Progress)
    ensures Result(p, []) == if p.errs == 0 then Some(p.dict) else None
  {}

  /** The first line of a text: it is skipped, or broken, or complete. */
  lemma {:induction false} LoadSkips(p: Progress, text: string)
    requires HasRoom(p.prefix) && text != "" && |p.prefix + Fgets(text, ASCIILINESZ - 1 - |p.prefix|).0| == 1
    ensures var rest := Fgets(text, ASCIILINESZ - 1 - |p.prefix|).1;
            Load(p, text) == Load(p, rest) && Reading(p.prefix, p.section, text) == Reading(p.prefix, p.section, rest)
  {}

  lemma {:induction false} LoadBreaks(p: Progress, text: string, line: string)
    requires HasRoom(p.prefix) && text != "" && line == p.prefix + Fgets(text, ASCIILINESZ - 1 - |p.prefix|).0
    requires |line| != 1 && line[|line| - 1] != '\n'
    ensures Load(p, text) == None && Reading(p.prefix, p.section, text) == [Broken]
  {}

  lemma {:induction false} LoadCompletes(p: Progress, text: string, line: string)
    requires HasRoom(p.prefix) && text != "" && line == p.prefix + Fgets(text, ASCIILINESZ - 1 - |p.prefix|).0
    requires |line| != 1 && line[|line| - 1] == '\n'
    ensures |DropSpace(line)| <= ASCIILINESZ - 2
    ensures Load(p, text) == Load(Completed(p, DropSpace(line)), Fgets(text, ASCIILINESZ - 1 - |p.prefix|).1)
  {}

  lemma {:induction false} ReadingCompletes(prefix: string, section: string, text: string, line: string)
    requires HasRoom(prefix) && text != "" && line == prefix + Fgets(text, ASCIILINESZ - 1 - |prefix|).0
    requires |line| != 1 && line[|line| - 1] == '\n'
    ensures |DropSpace(line)| <= ASCIILINESZ - 2
    ensures var rest, body := Fgets(text, ASCIILINESZ - 1 - |prefix|).1, DropSpace(line);
            Reading(prefix, section, text)
            == if body != "" && body[|body| - 1] == '\\' then Reading(body[..|body| - 1], section, rest)
               else [Complete(ParseLine(body, section))] + Reading("", SectionAfter(ParseLine(body, section), section), rest)
  {}

  /** The loader from any state. */
  lemma {:induction false} LoadFrom(p: Progress, text: string)
    requires HasRoom(p.prefix)
    ensures Load(p, text) == Result(p, Reading(p.prefix, p.section, text))
    decreases |text|
  {
    if text == "" {
      ResultEmpty(p);
    } else {
      var (got, rest) := Fgets(text, ASCIILINESZ - 1 - |p.prefix|);
      var line := p.prefix + got;
      if |line| == 1 {
        LoadSkips(p, text);
        LoadFrom(p, rest);
      } else if line[|line| - 1] != '\n' {
        LoadBreaks(p, text, line);
        ResultBroken(p);
      } else {
        var body := DropSpace(line);
        LoadCompletes(p, text, line);
        ReadingCompletes(p.prefix, p.section, text, line);
        var q := Completed(p, body);
        LoadFrom(q, rest);
        CompletedResult(p, body, Reading(q.prefix, q.section, rest));
      }
    }
  }

  /** A complete line is taken, or continued. */
  lemma {:induction false} CompletedResult(p: Progress, body: string, after: seq<Seen>)
    requires |body| <= ASCIILINESZ - 2
    ensures var q := Completed(p, body);
            if body != "" && body[|body| - 1] == '\\' then q == p.(prefix := body[..|body| - 1])
            else q.prefix == "" && q.section == SectionAfter(ParseLine(body, p.section), p.section)
                 && Result(p, [Complete(ParseLine(body, p.section))] + after) == Result(q, after)
    ensures body != "" && body[|body| - 1] == '\\' ==> Result(p, after) == Result(Completed(p, body), after)
  {
    if !(body != "" && body[|body| - 1] == '\\') {
      ResultHead(p.(prefix := ""), ParseLine(body, p.section), after);
      PrefixUnused(p, [Complete(ParseLine(body, p.section))] + after);
    } else {
      PrefixUnused(p, after);
    }
  }

  lemma {:induction false} PrefixUnused(p: Progress, seen: seq<Seen>)
    ensures forall prefix :: Result(p.(prefix := prefix), seen) == Result(p, seen)
  {}

  /** For every text: iniparser_load returns NULL if and only if some line is broken, or some bad line
      comes after the last line that sets an entry; otherwise every entry is there. */
  lemma {:induction false} LoadRefusesIff(text: string)
    ensures var seen := Reading("", "", text);
            && (Load(START, text).None? <==> Broken in seen || BadAtEnd(seen))
            && (Load(START, text).Some? ==> Load(START, text).value == Entered(map[], "", seen))
  {
    LoadFrom(START, text);
  }

  /** A line that is neither blank nor a comment nor a section, and has no equals sign, is bad. */
  lemma {:induction false} NoEqualsIsBad(line: string, section: string)
    requires line != "" && Trim(line) && line[0] !in "#;[" && Avoids(line, "=")
    ensures ParseLine(line, section) == BadLine
  {
    StripTrim(line);
    UntilAt(line, "", "=");
    assert line + "" == line;
  }

  /** A line of its own that is bad: it fits the line buffer, does not go on, and is none of the others. */
  predicate IsBad(line: string, section: string) {
    var body := DropSpace(line + "\n");
    && Avoids(line, "\n") && 0 < |line| < ASCIILINESZ - 1
    && (body != "" ==> body[|body| - 1] != '\\') && ParseLine(body, section) == BadLine
  }

  lemma {:induction false} TakeBadLine(p: Progress)
    requires p.prefix == ""
    ensures Take(p, BadLine) == p.(errs := p.errs + 1)
  {}

  lemma {:induction false} LoadBadLine(p: Progress, line: string, rest: string)
    requires p.prefix == "" && IsBad(line, p.section)
    ensures Load(p, line + "\n" + rest) == Load(p.(errs := p.errs + 1), rest)
  {
    LoadLine(p, line, rest);
    ReadLine(p, line, DropSpace(line + "\n"), BadLine);
    TakeBadLine(p);
  }

  /** A line that sets an entry anywhere behind it makes any bad line as good as absent, in any text. */
  lemma {:induction false} BadLineForgiven(p: Progress, bad: string, rest: string)
    requires p.prefix == "" && IsBad(bad, p.section) && !NoneSets(Reading("", p.section, rest))
    ensures Load(p, bad + "\n" + rest) == Load(p, rest)
  {
    LoadBadLine(p, bad, rest);
    LoadFrom(p.(errs := p.errs + 1), rest);
    LoadFrom(p, rest);
  }

  /** With no such line behind it, the text does not load, whatever came before. */
  lemma {:induction false} BadLineRemembered(p: Progress, bad: string, rest: string)
    requires p.prefix == "" && IsBad(bad, p.section) && NoneSets(Reading("", p.section, rest))
    ensures Load(p, bad + "\n" + rest) == None
  {
    LoadBadLine(p, bad, rest);
    LoadFrom(p.(errs := p.errs + 1), rest);
  }

  lemma {:induction false} LoadEnd(p: Progress)
    requires HasRoom(p.prefix)
    ensures Load(p, "") == if p.errs == 0 then Some(p.dict) else None
  {}

  lemma {:induction false} JunkIsBad()
    ensures IsBad("junk", "") && PlainSection("s")
  {
    DropSpaceAfter("junk", "\n");
    NoEqualsIsBad("junk", "");
  }

  lemma {:induction false} BadThenSection(p: Progress, bad: string, section: string)
    requires p.prefix == "" && IsBad(bad, p.section) && PlainSection(section)
    ensures Load(p, bad + "\n" + (Bracketed(section) + "\n" + "")) == Some(p.dict[section := None])
  {
    LoadBadLine(p, bad, Bracketed(section) + "\n" + "");
    LoadSection(p.(errs := p.errs + 1), section, "");
    LoadEnd(Progress("", section, p.dict[section := None], 0));
  }

  /** A text that loads although its first line is bad: "junk", then "[s]". */
  lemma {:induction false} JunkLoads()
    ensures IsBad("junk", "")
    ensures Load(START, "junk" + "\n" + (Bracketed("s") + "\n" + "")) == Some(map["s" := None])
  {
    JunkIsBad();
    BadThenSection(START, "junk", "s");
  }
}
