// The INI reader and writer of iniparser.c on top of the dictionary.
module Ini {
  import opened Common
  import opened CText
  import opened Dictionary

  const ASCIILINESZ := 1024

  // ---------------------------------------------------------------------
  // One line
  // ---------------------------------------------------------------------

  datatype Line = EmptyLine | CommentLine | SectionLine(name: string) | ValueLine(key: string, value: string) | BadLine

  /** strlwc: lower case, cut to the size of its buffer. */
  function StrLwc(s: string): string {
    Lower(if |s| <= ASCIILINESZ then s else s[..ASCIILINESZ])
  }

  /** "%[^=] = ": a key, the equals sign, and what follows the space behind it. */
  function KeyEquals(line: string): Option<(string, string)> {
    var (key, rest) := Until(line, "=");
    if key == "" || rest == "" then None else Some((key, SkipSpace(rest[1..])))
  }

  /** A value in the given quotes: what stands between the first one and the next. */
  function Quoted(rest: string, quote: char): string {
    if rest == "" || rest[0] != quote then "" else Until(rest[1..], [quote]).0
  }

  /** The value behind "key =", by the first of the formats that matches: double quotes, single
      quotes, anything up to a comment, and otherwise nothing. */
  function ValueOf(rest: string): string {
    var double, single, plain := Quoted(rest, '"'), Quoted(rest, '\''), Until(rest, ";#").0;
    var value := Strip(if double != "" then double else if single != "" then single else plain);
    if value == "\"\"" || value == "''" then "" else value
  }

  /** iniparser_line; a section line without a name keeps the old section. */
  function ParseLine(input: string, section: string): Line {
    var line := Strip(input);
    if line == "" then EmptyLine
    else if line[0] == '#' || line[0] == ';' then CommentLine
    else if line[0] == '[' && line[|line| - 1] == ']' then
      var name := Until(line[1..], "]").0;
      SectionLine(StrLwc(Strip(if name == "" then section else name)))
    else
      match KeyEquals(line)
      case None => BadLine
      case Some((key, rest)) => ValueLine(StrLwc(Strip(key)), ValueOf(rest))
  }

  // ---------------------------------------------------------------------
  // Reading a file
  // ---------------------------------------------------------------------

  /** Space left of the line buffer behind a continued line. */
  predicate HasRoom(prefix: string) { |prefix| <= ASCIILINESZ - 3 }

  datatype Progress = Progress(prefix: string, section: string, dict: map<string, Option<string>>, errs: nat)

  /** What a complete line does; a line that sets something clears the error count. */
  function Take(p: Progress, line: Line): Progress {
    match line
    case EmptyLine => p.(prefix := "")
    case CommentLine => p.(prefix := "")
    case SectionLine(name) => Progress("", name, p.dict[name := None], 0)
    case ValueLine(key, value) => Progress("", p.section, p.dict[p.section + ":" + key := Some(value)], 0)
    case BadLine => p.(prefix := "", errs := p.errs + 1)
  }

  /** The reader after a line that ended in a newline: it goes on behind a backslash. */
  function Completed(p: Progress, body: string): (q: Progress)
    requires |body| <= ASCIILINESZ - 2
    ensures HasRoom(q.prefix)
  {
    if body != "" && body[|body| - 1] == '\\' then p.(prefix := body[..|body| - 1])
    else Take(p.(prefix := ""), ParseLine(body, p.section))
  }

  /** One round of the reading loop; None when the line does not end in a newline. */
  function ReadOne(p: Progress, got: string): (r: Option<Progress>)
    requires HasRoom(p.prefix) && 0 < |got| <= ASCIILINESZ - 1 - |p.prefix|
    ensures r.Some? ==> HasRoom(r.value.prefix)
  {
    var line := p.prefix + got;
    if |line| == 1 then Some(p)
    else if line[|line| - 1] != '\n' then None
    else
      Some(Completed(p, DropSpace(line)))
  }

  /** The whole reading loop; None when iniparser_load returns NULL. */
  function Load(p: Progress, text: string): Option<map<string, Option<string>>>
    requires HasRoom(p.prefix)
    decreases |text|
  {
    if text == "" then if p.errs == 0 then Some(p.dict) else None
    else
      var (got, rest) := Fgets(text, ASCIILINESZ - 1 - |p.prefix|);
      var next := ReadOne(p, got);
      if next.None? then None else Load(next.value, rest)
  }

  const START := Progress("", "", map[], 0)

  // ---------------------------------------------------------------------
  // Writing a file
  // ---------------------------------------------------------------------

  predicate IsSection(key: string) { ':' !in key }

  /** The section names, in slot order. */
  function Sections(slots: seq<Slot>): seq<string> {
    if slots == [] then []
    else if slots[0].Entry? && IsSection(slots[0].key) then [slots[0].key] + Sections(slots[1..])
    else Sections(slots[1..])
  }

  function Spaces(n: nat): (s: string)
    ensures |s| == n && AllSpace(s)
  {
    seq(n, i requires 0 <= i < n => ' ')
  }

  /** "%-30s". */
  function Padded(s: string): string { s + Spaces(if |s| < 30 then 30 - |s| else 0) }

  function Text(val: Option<string>): string { if val.None? then "" else val.value }

  function KeyLine(name: string, val: Option<string>): string { Padded(name) + " = " + Text(val) }

  predicate InSection(s: Slot, section: string) { s.Entry? && section + ":" <= s.key }

  /** The lines for the keys of one section. */
  function KeyLines(slots: seq<Slot>, section: string): string {
    if slots == [] then ""
    else if InSection(slots[0], section) then
      KeyLine(slots[0].key[|section| + 1..], slots[0].val) + "\n" + KeyLines(slots[1..], section)
    else KeyLines(slots[1..], section)
  }

  function Bracketed(section: string): string { "[" + section + "]" }

  function SectionBlocks(sections: seq<string>, slots: seq<Slot>): string {
    if sections == [] then ""
    else "\n" + (Bracketed(sections[0]) + "\n" + (KeyLines(slots, sections[0]) + SectionBlocks(sections[1..], slots)))
  }

  /** The keys of a dictionary without sections, as they are; printf shows a null value as "(null)". */
  function BareLines(slots: seq<Slot>): string {
    if slots == [] then ""
    else if slots[0].Entry? then
      slots[0].key + " = " + (if slots[0].val.None? then "(null)" else slots[0].val.value) + "\n" + BareLines(slots[1..])
    else BareLines(slots[1..])
  }

  /** iniparser_dump_ini. */
  function Dump(slots: seq<Slot>): string {
    var sections := Sections(slots);
    if sections == [] then BareLines(slots) else SectionBlocks(sections, slots) + "\n"
  }
}
