// The routines of iniparser.c, over the slot table and character by character.
module IniProgram {
  import opened Common
  import opened CText
  import opened Dictionary
  import opened Ini
  import opened IniRoundTrip

  method StrLwcOf(s: string) returns (l: string)
    ensures l == StrLwc(s)
  {
    l := "";
    var i := 0;
    while i < |s| && i < ASCIILINESZ
      invariant 0 <= i <= |s| && i <= ASCIILINESZ && l == Lower(s[..i])
    {
      l := l + [LowerChar(s[i])];
      i := i + 1;
    }
    assert i == |s| ==> s[..i] == s;
  }

  method StrStrip(s: string) returns (l: string)
    ensures l == Strip(s)
  {
    var from := 0;
    while from < |s| && IsSpace(s[from])
      invariant from <= |s| && SkipSpace(s) == SkipSpace(s[from..])
    {
      assert s[from..][1..] == s[from + 1..];
      from := from + 1;
    }
    l := s[from..];
    assert SkipSpace(s) == l;
    var last := |l|;
    assert l[..last] == l;
    while last > 0
      invariant 0 <= last <= |l| && DropSpace(l) == DropSpace(l[..last])
    {
      if !IsSpace(l[last - 1]) { break; }
      assert l[..last][..last - 1] == l[..last - 1];
      last := last - 1;
    }
    l := l[..last];
  }

  method GetNSec(d: Table) returns (n: nat)
    requires d.Valid()
    ensures n == |Sections(d.Slots())|
  {
    n := 0;
    var i := 0;
    ghost var slots := d.Slots();
    assert slots[0..] == slots;
    while i < d.size
      invariant i <= d.size && n + |Sections(slots[i..])| == |Sections(slots)|
    {
      assert slots[i..][0] == slots[i] && slots[i..][1..] == slots[i + 1..];
      if d.key[i].Some? && ':' !in d.key[i].value {
        n := n + 1;
      }
      i := i + 1;
    }
  }

  /** The n-th section name, counting from 0. */
  method GetSecName(d: Table, n: int) returns (name: Option<string>)
    requires d.Valid()
    ensures name == if 0 <= n < |Sections(d.Slots())| then Some(Sections(d.Slots())[n]) else None
  {
    if n < 0 { return None; }
    var found := 0;
    var i := 0;
    ghost var slots := d.Slots();
    assert slots[0..] == slots;
    while i < d.size
      invariant i <= d.size && found <= n && found <= |Sections(slots)|
      invariant Sections(slots)[found..] == Sections(slots[i..])
    {
      assert slots[i..][0] == slots[i] && slots[i..][1..] == slots[i + 1..];
      if d.key[i].Some? && ':' !in d.key[i].value {
        assert Sections(slots)[found..][0] == d.key[i].value;
        assert Sections(slots)[found..][1..] == Sections(slots)[found + 1..];
        found := found + 1;
        if found > n { return d.key[i]; }
      }
      i := i + 1;
    }
    return None;
  }

  /** Both loops of iniparser_dump_ini. */
  method DumpIni(d: Table) returns (out: string)
    requires d.Valid()
    ensures out == Dump(d.Slots())
  {
    ghost var slots := d.Slots();
    var nsec := GetNSec(d);
    if nsec < 1 {
      out := DumpBare(d);
      return;
    }
    out := "";
    var i := 0;
    ghost var secs := Sections(slots);
    assert secs[0..] == secs;
    while i < nsec
      invariant 0 <= i <= nsec && d.Valid() && d.Slots() == slots
      invariant out + SectionBlocks(secs[i..], slots) == SectionBlocks(secs, slots)
    {
      out := DumpSection(d, i, out);
      i := i + 1;
    }
    assert secs[i..] == [];
    out := out + "\n";
  }

  /** The block of section i behind what has been written. */
  method DumpSection(d: Table, i: nat, out0: string) returns (out: string)
    requires d.Valid() && i < |Sections(d.Slots())|
    ensures var secs, slots := Sections(d.Slots()), d.Slots();
            out + SectionBlocks(secs[i + 1..], slots) == out0 + SectionBlocks(secs[i..], slots)
  {
    ghost var slots, secs := d.Slots(), Sections(d.Slots());
    var name := GetSecName(d, i);
    assert secs[i..][0] == name.value && secs[i..][1..] == secs[i + 1..];
    var keys := DumpKeys(d, name.value);
    JoinBlock(out0, Bracketed(name.value) + "\n", keys, SectionBlocks(secs[i + 1..], slots));
    out := out0 + "\n" + (Bracketed(name.value) + "\n") + keys;
  }

  lemma {:induction false} JoinBlock(out: string, a: string, b: string, rest: string)
    ensures out + "\n" + a + b + rest == out + ("\n" + (a + (b + rest)))
  {}

  method DumpKeys(d: Table, section: string) returns (out: string)
    requires d.Valid()
    ensures out == KeyLines(d.Slots(), section)
  {
    out := "";
    var j := 0;
    ghost var slots := d.Slots();
    assert slots[0..] == slots;
    while j < d.size
      invariant j <= d.size && out + KeyLines(slots[j..], section) == KeyLines(slots, section)
    {
      assert slots[j..][0] == slots[j] && slots[j..][1..] == slots[j + 1..];
      if d.key[j].Some? && section + ":" <= d.key[j].value {
        var line := KeyLine(d.key[j].value[|section| + 1..], d.val[j]) + "\n";
        assert out + (line + KeyLines(slots[j + 1..], section)) == (out + line) + KeyLines(slots[j + 1..], section);
        out := out + line;
      }
      j := j + 1;
    }
    assert slots[j..] == [];
  }

  method DumpBare(d: Table) returns (out: string)
    requires d.Valid()
    ensures out == BareLines(d.Slots())
  {
    out := "";
    var i := 0;
    ghost var slots := d.Slots();
    assert slots[0..] == slots;
    while i < d.size
      invariant i <= d.size && out + BareLines(slots[i..]) == BareLines(slots)
    {
      assert slots[i..][0] == slots[i] && slots[i..][1..] == slots[i + 1..];
      if d.key[i].Some? {
        var line := d.key[i].value + " = " + (if d.val[i].None? then "(null)" else d.val[i].value) + "\n";
        assert out + (line + BareLines(slots[i + 1..])) == (out + line) + BareLines(slots[i + 1..]);
        out := out + line;
      }
      i := i + 1;
    }
    assert slots[i..] == [];
  }

  /** iniparser_line. */
  method IniLine(input: string, section: string) returns (r: Line)
    ensures r == ParseLine(input, section)
  {
    var line := StrStrip(input);
    if |line| < 1 { return EmptyLine; }
    if line[0] == '#' || line[0] == ';' { return CommentLine; }
    if line[0] == '[' && line[|line| - 1] == ']' {
      var name := Until(line[1..], "]").0;
      if name == "" { name := section; }
      name := StrStrip(name);
      name := StrLwcOf(name);
      return SectionLine(name);
    }
    var found := KeyEquals(line);
    if found.None? { return BadLine; }
    var key := StrStrip(found.value.0);
    key := StrLwcOf(key);
    r := ValueLine(key, ValueOf(found.value.1));
  }

  /** What one complete line does to the table, the section and the error count. */
  method TakeLine(dict: Table, section: string, errs: nat, body: string) returns (section': string, errs': nat)
    requires dict.Valid()
    modifies dict, dict.val, dict.key, dict.hash
    ensures dict.Valid()
    ensures (dict.val == old(dict.val) || fresh(dict.val)) && (dict.key == old(dict.key) || fresh(dict.key))
    ensures dict.hash == old(dict.hash) || fresh(dict.hash)
    ensures Progress("", section', dict.Contents(), errs')
         == Take(Progress("", section, old(dict.Contents()), errs), ParseLine(body, section))
  {
    section', errs' := section, errs;
    var rc := 0;
    var parsed := IniLine(body, section);
    match parsed {
      case EmptyLine =>
      case CommentLine =>
      case SectionLine(name) =>
        section' := name;
        rc := dict.Set(Some(section'), None);
        errs' := rc;
      case ValueLine(key, value) =>
        rc := dict.Set(Some(section + ":" + key), Some(value));
        errs' := rc;
      case BadLine => errs' := errs + 1;
    }
  }

  lemma {:induction false} LoadRound(p: Progress, text: string, got: string, rest: string)
    requires HasRoom(p.prefix) && text != "" && Fgets(text, ASCIILINESZ - 1 - |p.prefix|) == (got, rest)
    ensures var line := p.prefix + got;
            Load(p, text) ==
            if |line| == 1 then Load(p, rest)
            else if line[|line| - 1] != '\n' then None
            else Load(Completed(p, DropSpace(line)), rest)
  {}

  /** iniparser_load: null when a line does not end properly, or when errors are pending at the end. */
  method LoadIni(text: string) returns (d: Table?)
    ensures d == null <==> Load(START, text).None?
    ensures d != null ==> fresh(d) && d.Valid() && d.Contents() == Load(START, text).value
  {
    var dict := new Table(0);
    var prefix, section := "", "";
    var errs: nat := 0;
    var rest := text;
    while rest != ""
      invariant dict.Valid() && fresh(dict) && fresh(dict.val) && fresh(dict.key) && fresh(dict.hash)
      invariant HasRoom(prefix)
      invariant Load(START, text) == Load(Progress(prefix, section, dict.Contents(), errs), rest)
      decreases |rest|
    {
      var (got, tail) := Fgets(rest, ASCIILINESZ - 1 - |prefix|);
      LoadRound(Progress(prefix, section, dict.Contents(), errs), rest, got, tail);
      rest := tail;
      var line := prefix + got;
      if |line| != 1 {
        if line[|line| - 1] != '\n' { return null; }
        var body := DropSpace(line);
        if body != "" && body[|body| - 1] == '\\' {
          prefix := body[..|body| - 1];
        } else {
          prefix := "";
          section, errs := TakeLine(dict, section, errs, body);
        }
      }
    }
    d := if errs != 0 then null else dict;
  }

  /** Dump a table, load the text: the loaded table holds the same map, sections without a value and
      keys with one. */
  method DumpAndLoad(d: Table) returns (e: Table?)
    requires d.Valid() && Writable(d.Slots())
    ensures e != null && fresh(e) && e.Valid() && e.Contents() == Reloaded(d.Contents())
  {
    LoadOfDump(d.Slots());
    var text := DumpIni(d);
    e := LoadIni(text);
  }
}
