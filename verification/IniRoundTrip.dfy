// Loading what iniparser_dump_ini writes gives the dictionary back.
module IniRoundTrip {
  import opened Common
  import opened CText
  import opened Dictionary
  import opened Ini

  // ---------------------------------------------------------------------
  // What can be written and read back
  // ---------------------------------------------------------------------

  predicate PlainSection(s: string) {
    s != "" && Trim(s) && IsLower(s) && Avoids(s, "]\n:") && |s| + 3 < ASCIILINESZ
  }

  predicate PlainName(s: string) {
    s != "" && Trim(s) && IsLower(s) && Avoids(s, "=\n") && s[0] !in "#;["
  }

  /** The values the parser takes as they are: no blanks at the ends, no comment character, not just an
      empty pair of quotes, and no opening quote with something to quote behind it. */
  predicate Verbatim(v: string) {
    && Trim(v) && Avoids(v, ";#") && v != "\"\"" && v != "''"
    && !(|v| >= 2 && v[0] in "\"'" && v[1] != v[0])
  }

  /** They also have to stay on their line. */
  predicate PlainValue(v: string) {
    Verbatim(v) && Avoids(v, "\n") && (v != "" ==> v[|v| - 1] != '\\')
  }

  predicate PlainKey(name: string, val: Option<string>) {
    PlainName(name) && PlainValue(Text(val)) && |KeyLine(name, val)| + 1 < ASCIILINESZ
  }

  // ---------------------------------------------------------------------
  // One line
  // ---------------------------------------------------------------------

  lemma {:induction false} StrLwcPlain(s: string)
    requires IsLower(s) && |s| <= ASCIILINESZ
    ensures StrLwc(s) == s
  {
    LowerOfLower(s);
  }

  lemma {:induction false} ParseSectionLine(s: string, section: string)
    requires PlainSection(s)
    ensures ParseLine(Bracketed(s), section) == SectionLine(s)
  {
    var line := Bracketed(s);
    StripTrim(line);
    assert line[1..] == s + "]";
    UntilAt(s, "]", "]");
    StripTrim(s);
    StrLwcPlain(s);
  }

  /** The key line as the reader sees it, without the space an empty value leaves at the end. */
  function Body(name: string, v: string): string {
    (Padded(name) + " ") + ("=" + if v == "" then "" else " " + v)
  }

  lemma {:induction false} BodyOfKeyLine(name: string, val: Option<string>)
    requires PlainKey(name, val)
    ensures DropSpace(KeyLine(name, val) + "\n") == Body(name, Text(val))
    ensures Trim(Body(name, Text(val))) && Body(name, Text(val))[0] == name[0]
  {
    var v := Text(val);
    var body, tail := Body(name, v), if v == "" then " \n" else "\n";
    assert KeyLine(name, val) + "\n" == body + tail;
    assert body[|body| - 1] == if v == "" then '=' else v[|v| - 1];
    DropSpaceAfter(body, tail);
  }

  lemma {:induction false} KeyEqualsBody(name: string, v: string)
    requires PlainName(name) && Trim(v)
    ensures KeyEquals(Body(name, v)) == Some((Padded(name) + " ", v))
  {
    var key, rest := Padded(name) + " ", "=" + if v == "" then "" else " " + v;
    UntilAt(key, rest, "=");
    if v != "" {
      assert rest[1..] == " " + v;
      SkipSpaceBefore(" ", v);
    }
  }

  lemma {:induction false} StripShortens(s: string)
    ensures |Strip(s)| <= |s| && (|Strip(s)| == |s| <==> Trim(s))
    ensures forall c :: c in Strip(s) ==> c in s
  {
    SkipSpaceInside(s);
    var t := SkipSpace(s);
    assert DropSpace(t) <= t;
    if |Strip(s)| == |s| { assert t == s; }
  }

  lemma {:induction false} SkipSpaceInside(s: string)
    ensures forall c :: c in SkipSpace(s) ==> c in s
    ensures |SkipSpace(s)| == |s| ==> SkipSpace(s) == s
    decreases |s|
  {
    if s != [] && IsSpace(s[0]) { SkipSpaceInside(s[1..]); }
  }

  /** A quoted value loses its quotes. */
  lemma {:induction false} QuotedChanges(v: string)
    requires |v| >= 2 && v[0] in "\"'" && v[1] != v[0]
    ensures v[0] !in ValueOf(v)
  {
    var q := v[0];
    var inner := Until(v[1..], [q]).0;
    assert inner != "";
    StripShortens(inner);
    assert q !in inner;
    assert Quoted(v, q) == inner;
    if q == '\'' { assert Quoted(v, '"') == ""; }
  }

  /** Without a quoted value, the value is what stands before the first comment character. */
  lemma {:induction false} UnquotedValue(v: string)
    requires !(|v| >= 2 && v[0] in "\"'" && v[1] != v[0])
    ensures var value := Strip(Until(v, ";#").0);
            ValueOf(v) == if value == "\"\"" || value == "''" then "" else value
  {
    if v != "" {
      assert v[0] == '"' ==> Quoted(v, '"') == "";
      assert v[0] == '\'' ==> Quoted(v, '\'') == "";
    }
  }

  /** Exactly the verbatim values are parsed as themselves. */
  lemma {:induction false} ValueKeptIff(v: string)
    ensures ValueOf(v) == v <==> Verbatim(v)
  {
    if |v| >= 2 && v[0] in "\"'" && v[1] != v[0] {
      QuotedChanges(v);
    } else {
      UnquotedValue(v);
      var plain := Until(v, ";#");
      StripShortens(plain.0);
      if Avoids(v, ";#") {
        UntilAt(v, "", ";#");
        assert v + "" == v;
        if Trim(v) { StripTrim(v); }
      } else {
        assert plain.1 != "";
      }
    }
  }

  lemma {:induction false} NameOfPadded(name: string)
    requires PlainName(name) && |name| <= ASCIILINESZ
    ensures StrLwc(Strip(Padded(name) + " ")) == name
  {
    var pad := Spaces(if |name| < 30 then 30 - |name| else 0) + " ";
    assert Padded(name) + " " == name + pad;
    DropSpaceAfter(name, pad);
    StrLwcPlain(name);
  }

  lemma {:induction false} ParseValueLine(line: string, section: string, key: string, v: string)
    requires line != "" && Trim(line) && line[0] !in "#;[" && KeyEquals(line) == Some((key, v))
    ensures ParseLine(line, section) == ValueLine(StrLwc(Strip(key)), ValueOf(v))
  {
    StripTrim(line);
  }

  lemma {:induction false} ParseKeyLine(name: string, val: Option<string>, section: string)
    requires PlainKey(name, val)
    ensures ParseLine(DropSpace(KeyLine(name, val) + "\n"), section) == ValueLine(name, Text(val))
  {
    BodyOfKeyLine(name, val);
    KeyEqualsBody(name, Text(val));
    ParseValueLine(Body(name, Text(val)), section, Padded(name) + " ", Text(val));
    ValueKeptIff(Text(val));
    NameOfPadded(name);
  }

  // ---------------------------------------------------------------------
  // One round of the reading loop
  // ---------------------------------------------------------------------

  lemma {:induction false} LoadLine(p: Progress, line: string, rest: string)
    requires p.prefix == "" && Avoids(line, "\n") && |line| + 1 < ASCIILINESZ
    ensures Load(p, line + "\n" + rest) == var next := ReadOne(p, line + "\n");
                                           if next.None? then None else Load(next.value, rest)
  {
    FgetsLine(line, rest, ASCIILINESZ - 1);
  }

  lemma {:induction false} LoadBlank(p: Progress, rest: string)
    requires p.prefix == ""
    ensures Load(p, "\n" + rest) == Load(p, rest)
  {
    LoadLine(p, "", rest);
    assert "" + "\n" + rest == "\n" + rest;
  }

  lemma {:induction false} ReadLine(p: Progress, line: string, body: string, parsed: Line)
    requires p.prefix == "" && 0 < |line| && |line| + 1 < ASCIILINESZ
    requires DropSpace(line + "\n") == body && (body != "" ==> body[|body| - 1] != '\\')
    requires ParseLine(body, p.section) == parsed
    ensures ReadOne(p, line + "\n") == Some(Take(p, parsed))
  {
    assert "" + (line + "\n") == line + "\n";
  }

  lemma {:induction false} ReadSection(p: Progress, s: string)
    requires p.prefix == "" && PlainSection(s)
    ensures ReadOne(p, Bracketed(s) + "\n") == Some(Progress("", s, p.dict[s := None], 0))
  {
    var line := Bracketed(s);
    DropSpaceAfter(line, "\n");
    ParseSectionLine(s, p.section);
    ReadLine(p, line, line, SectionLine(s));
  }

  lemma {:induction false} ReadKey(p: Progress, name: string, val: Option<string>)
    requires p.prefix == "" && PlainKey(name, val)
    ensures ReadOne(p, KeyLine(name, val) + "\n")
         == Some(Progress("", p.section, p.dict[p.section + ":" + name := Some(Text(val))], 0))
  {
    BodyOfKeyLine(name, val);
    BodyEnd(name, Text(val));
    ParseKeyLine(name, val, p.section);
    ReadLine(p, KeyLine(name, val), Body(name, Text(val)), ValueLine(name, Text(val)));
  }

  lemma {:induction false} BodyEnd(name: string, v: string)
    requires PlainValue(v)
    ensures Body(name, v) != "" && Body(name, v)[|Body(name, v)| - 1] != '\\'
  {}

  lemma {:induction false} KeyLineOneLine(name: string, val: Option<string>)
    requires PlainKey(name, val)
    ensures Avoids(KeyLine(name, val), "\n")
  {}

  lemma {:induction false} LoadSection(p: Progress, s: string, rest: string)
    requires p.prefix == "" && PlainSection(s)
    ensures Load(p, Bracketed(s) + "\n" + rest) == Load(Progress("", s, p.dict[s := None], 0), rest)
  {
    LoadLine(p, Bracketed(s), rest);
    ReadSection(p, s);
  }

  lemma {:induction false} LoadKey(p: Progress, name: string, val: Option<string>, rest: string)
    requires p.prefix == "" && PlainKey(name, val)
    ensures Load(p, KeyLine(name, val) + "\n" + rest)
         == Load(Progress("", p.section, p.dict[p.section + ":" + name := Some(Text(val))], 0), rest)
  {
    KeyLineOneLine(name, val);
    LoadLine(p, KeyLine(name, val), rest);
    ReadKey(p, name, val);
  }

  // ---------------------------------------------------------------------
  // All the lines of a dump
  // ---------------------------------------------------------------------

  /** What loading makes of an entry: sections have no value, keys always have one. */
  function Loaded(key: string, val: Option<string>): Option<string> {
    if IsSection(key) then None else Some(Text(val))
  }

  /** The part of a key behind its section's name and colon. */
  function NameIn(section: string, key: string): string
    requires section + ":" <= key
  {
    key[|section| + 1..]
  }

  predicate PlainKeys(slots: seq<Slot>, section: string) {
    forall i :: 0 <= i < |slots| && InSection(slots[i], section) ==>
                  PlainKey(NameIn(section, slots[i].key), slots[i].val)
  }

  /** The map after the keys of one section have been read. */
  function WithKeys(m: map<string, Option<string>>, slots: seq<Slot>, section: string): map<string, Option<string>>
    decreases slots
  {
    if slots == [] then m
    else if InSection(slots[0], section) then
      WithKeys(m[slots[0].key := Some(Text(slots[0].val))], slots[1..], section)
    else WithKeys(m, slots[1..], section)
  }

  function WithSections(m: map<string, Option<string>>, sections: seq<string>, slots: seq<Slot>)
    : map<string, Option<string>>
    decreases sections
  {
    if sections == [] then m
    else WithSections(WithKeys(m[sections[0] := None], slots, sections[0]), sections[1..], slots)
  }

  lemma {:induction false} LoadKeyLines(p: Progress, slots: seq<Slot>, rest: string)
    requires p.prefix == "" && p.errs == 0 && PlainKeys(slots, p.section)
    ensures Load(p, KeyLines(slots, p.section) + rest)
         == Load(p.(dict := WithKeys(p.dict, slots, p.section)), rest)
    decreases slots
  {
    if slots == [] {
      assert "" + rest == rest;
    } else {
      var more := KeyLines(slots[1..], p.section) + rest;
      assert PlainKeys(slots[1..], p.section);
      if InSection(slots[0], p.section) {
        var name := NameIn(p.section, slots[0].key);
        assert p.section + ":" + name == slots[0].key;
        var line := KeyLine(name, slots[0].val) + "\n";
        assert KeyLines(slots, p.section) + rest == line + more;
        LoadKey(p, name, slots[0].val, more);
        LoadKeyLines(p.(dict := p.dict[slots[0].key := Some(Text(slots[0].val))]), slots[1..], rest);
      } else {
        LoadKeyLines(p, slots[1..], rest);
      }
    }
  }

  /** The reader after one block of the file. */
  function AfterBlock(p: Progress, s: string, slots: seq<Slot>): Progress {
    Progress("", s, WithKeys(p.dict[s := None], slots, s), 0)
  }

  lemma {:induction false} LoadBlock(p: Progress, s: string, slots: seq<Slot>, more: string)
    requires p.prefix == "" && PlainSection(s) && PlainKeys(slots, s)
    ensures Load(p, "\n" + (Bracketed(s) + "\n" + (KeyLines(slots, s) + more))) == Load(AfterBlock(p, s, slots), more)
  {
    var keys := KeyLines(slots, s) + more;
    LoadBlank(p, Bracketed(s) + "\n" + keys);
    LoadSection(p, s, keys);
    LoadKeyLines(Progress("", s, p.dict[s := None], 0), slots, more);
  }

  lemma {:induction false} LoadBlocks(p: Progress, sections: seq<string>, slots: seq<Slot>)
    requires p.prefix == "" && p.errs == 0
    requires forall i :: 0 <= i < |sections| ==> PlainSection(sections[i]) && PlainKeys(slots, sections[i])
    ensures Load(p, SectionBlocks(sections, slots) + "\n") == Some(WithSections(p.dict, sections, slots))
    decreases sections
  {
    if sections == [] {
      LoadBlank(p, "");
      assert SectionBlocks(sections, slots) + "\n" == "\n" + "";
    } else {
      var s, more := sections[0], SectionBlocks(sections[1..], slots) + "\n";
      BlocksHead(Bracketed(s) + "\n", KeyLines(slots, s), SectionBlocks(sections[1..], slots), "\n");
      assert SectionBlocks(sections, slots) + "\n" == "\n" + (Bracketed(s) + "\n" + (KeyLines(slots, s) + more));
      LoadBlock(p, s, slots, more);
      LoadBlocks(AfterBlock(p, s, slots), sections[1..], slots);
    }
  }

  lemma {:induction false} BlocksHead(a: string, b: string, c: string, d: string)
    ensures "\n" + (a + (b + c)) + d == "\n" + (a + (b + (c + d)))
  {}

  // ---------------------------------------------------------------------
  // The map that comes back
  // ---------------------------------------------------------------------

  /** Everything in m is what loading makes of the same entry of d. */
  ghost predicate Agrees(m: map<string, Option<string>>, d: map<string, Option<string>>) {
    forall k :: k in m ==> k in d && m[k] == Loaded(k, d[k])
  }

  ghost predicate Drawn(slots: seq<Slot>, d: map<string, Option<string>>) {
    forall i :: 0 <= i < |slots| && slots[i].Entry? ==> slots[i].key in d && d[slots[i].key] == slots[i].val
  }

  lemma {:induction false} KeysAgree(m: map<string, Option<string>>, slots: seq<Slot>, section: string,
                                     d: map<string, Option<string>>)
    requires Agrees(m, d) && Drawn(slots, d)
    ensures Agrees(WithKeys(m, slots, section), d) && m.Keys <= WithKeys(m, slots, section).Keys
    ensures forall i :: 0 <= i < |slots| && InSection(slots[i], section) ==> slots[i].key in WithKeys(m, slots, section)
    decreases slots
  {
    if slots != [] {
      var s := slots[0];
      assert Drawn(slots[1..], d) by {
        assert forall i :: 0 <= i < |slots| - 1 ==> slots[1..][i] == slots[i + 1];
      }
      if InSection(s, section) {
        assert s.key[|section|] == (section + ":")[|section|] == ':';
        assert s.key in d && d[s.key] == s.val;
        KeysAgree(m[s.key := Some(Text(s.val))], slots[1..], section, d);
      } else {
        KeysAgree(m, slots[1..], section, d);
      }
      forall i | 0 <= i < |slots| && InSection(slots[i], section)
        ensures slots[i].key in WithKeys(m, slots, section)
      {
        if i > 0 {
          assert slots[1..][i - 1] == slots[i];
        }
      }
    }
  }

  lemma {:induction false} SectionsAgree(m: map<string, Option<string>>, sections: seq<string>, slots: seq<Slot>,
                                         d: map<string, Option<string>>)
    requires Agrees(m, d) && Drawn(slots, d)
    requires forall i :: 0 <= i < |sections| ==> sections[i] in d && IsSection(sections[i])
    ensures Agrees(WithSections(m, sections, slots), d) && m.Keys <= WithSections(m, sections, slots).Keys
    ensures forall i :: 0 <= i < |sections| ==> sections[i] in WithSections(m, sections, slots)
    ensures forall i, j :: 0 <= i < |sections| && 0 <= j < |slots| && InSection(slots[j], sections[i]) ==>
              slots[j].key in WithSections(m, sections, slots)
    decreases sections
  {
    if sections != [] {
      var s := sections[0];
      var m1 := WithKeys(m[s := None], slots, s);
      KeysAgree(m[s := None], slots, s, d);
      SectionsAgree(m1, sections[1..], slots, d);
      assert s in m[s := None];
      forall i | 0 <= i < |sections|
        ensures i == 0 || sections[i] == sections[1..][i - 1]
      {
      }
    }
  }

  lemma {:induction false} SectionsAre(slots: seq<Slot>, s: string)
    ensures s in Sections(slots) <==> IsSection(s) && exists i :: 0 <= i < |slots| && Has(slots[i], s)
    decreases slots
  {
    if slots != [] {
      SectionsAre(slots[1..], s);
      assert forall i :: 0 <= i < |slots| - 1 ==> slots[1..][i] == slots[i + 1];
      if exists i :: 0 <= i < |slots| && Has(slots[i], s) {
        var i :| 0 <= i < |slots| && Has(slots[i], s);
        if i > 0 {
          assert Has(slots[1..][i - 1], s);
        }
      }
      if exists i :: 0 <= i < |slots| - 1 && Has(slots[1..][i], s) {
        var i :| 0 <= i < |slots| - 1 && Has(slots[1..][i], s);
        assert Has(slots[i + 1], s);
      }
    }
  }

  /** The section a key belongs to: what stands before its first colon. */
  function SectionOf(key: string): string { Until(key, ":").0 }

  /** The entry can be written: a plain section, or a plain key of a section that is there too. */
  ghost predicate PlainEntry(s: Slot, slots: seq<Slot>) {
    s.Entry? ==>
      if IsSection(s.key) then PlainSection(s.key)
      else
        && (exists j :: 0 <= j < |slots| && Has(slots[j], SectionOf(s.key)))
        && PlainKey(s.key[|SectionOf(s.key)| + 1..], s.val)
  }

  ghost predicate Writable(slots: seq<Slot>) {
    && Distinct(slots)
    && forall i :: 0 <= i < |slots| ==> PlainEntry(slots[i], slots)
  }

  lemma {:induction false} SectionOfIn(key: string, section: string)
    requires IsSection(section)
    ensures section + ":" <= key <==> !IsSection(key) && SectionOf(key) == section
  {
    if section + ":" <= key {
      var rest := ":" + key[|section| + 1..];
      assert key == section + rest;
      UntilAt(section, rest, ":");
      assert key[|section|] == ':';
    }
    if !IsSection(key) && SectionOf(key) == section {
      var (a, b) := Until(key, ":");
      assert key == a + b && b != [] && b[0] == ':';
      assert (section + ":") == key[..|section| + 1];
    }
  }

  /** Sections lose their value, keys without one get the empty value. */
  ghost function Reloaded(d: map<string, Option<string>>): map<string, Option<string>> {
    map k | k in d :: Loaded(k, d[k])
  }

  lemma {:induction false} SlotsDrawn(slots: seq<Slot>)
    requires Distinct(slots)
    ensures Drawn(slots, MapOf(slots))
  {
    forall i | 0 <= i < |slots| && slots[i].Entry?
      ensures slots[i].key in MapOf(slots) && MapOf(slots)[slots[i].key] == slots[i].val
    {
      MapOfSlots(slots, slots[i].key);
      assert Has(slots[i], slots[i].key);
    }
  }

  lemma {:induction false} WritableSections(slots: seq<Slot>, s: string)
    requires Writable(slots) && s in Sections(slots)
    ensures IsSection(s) && PlainSection(s) && PlainKeys(slots, s) && s in MapOf(slots)
  {
    SectionsAre(slots, s);
    var i :| 0 <= i < |slots| && Has(slots[i], s);
    assert PlainEntry(slots[i], slots);
    SlotsDrawn(slots);
    assert slots[i].key in MapOf(slots);
    forall j | 0 <= j < |slots| && InSection(slots[j], s)
      ensures PlainKey(NameIn(s, slots[j].key), slots[j].val)
    {
      SectionOfIn(slots[j].key, s);
      assert PlainEntry(slots[j], slots);
    }
  }

  lemma {:induction false} EverythingLoaded(slots: seq<Slot>, m: map<string, Option<string>>, k: string)
    requires Writable(slots) && k in MapOf(slots)
    requires forall i :: 0 <= i < |Sections(slots)| ==> Sections(slots)[i] in m
    requires forall i, j :: 0 <= i < |Sections(slots)| && 0 <= j < |slots| && InSection(slots[j], Sections(slots)[i])
               ==> slots[j].key in m
    ensures k in m
  {
    MapOfSlots(slots, k);
    var j :| 0 <= j < |slots| && Has(slots[j], k);
    assert PlainEntry(slots[j], slots);
    if IsSection(k) {
      SectionsAre(slots, k);
    } else {
      var s := SectionOf(k);
      SectionsAre(slots, s);
      SectionHasNoColon(k);
      SectionOfIn(k, s);
      assert InSection(slots[j], s);
    }
  }

  lemma {:induction false} SectionHasNoColon(key: string)
    ensures IsSection(SectionOf(key))
  {}

  lemma {:induction false} WritableHasSection(slots: seq<Slot>, i: nat)
    requires Writable(slots) && i < |slots| && slots[i].Entry?
    ensures Sections(slots) != []
  {
    assert PlainEntry(slots[i], slots);
    var k := slots[i].key;
    SectionHasNoColon(k);
    SectionsAre(slots, if IsSection(k) then k else SectionOf(k));
    if IsSection(k) {
      assert Has(slots[i], k);
    }
  }

  lemma {:induction false} LoadOfEmpty(slots: seq<Slot>)
    requires forall i :: 0 <= i < |slots| ==> slots[i].Vacant?
    ensures BareLines(slots) == "" && MapOf(slots) == map[] && Sections(slots) == []
    decreases slots
  {
    EmptySlots(slots);
    if slots != [] {
      LoadOfEmpty(slots[1..]);
    }
  }

  /** Print and parse: loading the file that dumping a writable dictionary produces gives the same
      map back, except that sections have no value and keys without one have the empty value. */
  lemma {:induction false} LoadOfDump(slots: seq<Slot>)
    requires Writable(slots)
    ensures Load(START, Dump(slots)) == Some(Reloaded(MapOf(slots)))
  {
    if forall i :: 0 <= i < |slots| ==> slots[i].Vacant? {
      LoadOfEmpty(slots);
    } else {
      var i :| 0 <= i < |slots| && slots[i].Entry?;
      WritableHasSection(slots, i);
      LoadOfSections(slots);
    }
  }

  lemma {:induction false} LoadOfSections(slots: seq<Slot>)
    requires Writable(slots) && Sections(slots) != []
    ensures Load(START, Dump(slots)) == Some(Reloaded(MapOf(slots)))
  {
    var sections, d := Sections(slots), MapOf(slots);
    SlotsDrawn(slots);
    forall i | 0 <= i < |sections|
      ensures IsSection(sections[i]) && PlainSection(sections[i]) && PlainKeys(slots, sections[i]) && sections[i] in d
    {
      WritableSections(slots, sections[i]);
    }
    LoadBlocks(START, sections, slots);
    SectionsAgree(map[], sections, slots, d);
    var m := WithSections(map[], sections, slots);
    forall k | k in d
      ensures k in m
    {
      EverythingLoaded(slots, m, k);
    }
    assert m == Reloaded(d);
  }

  /** Whatever value holds a comment character comes back shorter, cut there or, if it is quoted, without its
      quotes. */
  lemma {:induction false} CommentCutsValue(v: string)
    requires !Avoids(v, ";#")
    ensures |ValueOf(v)| < |v|
    ensures !(|v| >= 2 && v[0] in "\"'" && v[1] != v[0]) ==> |ValueOf(v)| <= |Until(v, ";#").0|
  {
    var plain := Until(v, ";#");
    assert |plain.0| < |v|;
    if |v| >= 2 && v[0] in "\"'" && v[1] != v[0] {
      var inner := Until(v[1..], [v[0]]).0;
      assert inner != "" && |inner| <= |v| - 1;
      StripShortens(inner);
      if v[0] == '\'' { assert Quoted(v, '"') == ""; }
    } else {
      UnquotedValue(v);
      StripShortens(plain.0);
    }
  }
}
