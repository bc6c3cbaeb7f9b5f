// The C library's notions of space, case and line that the text formats here rely on.
module CText {

  predicate IsSpace(c: char) { c == ' ' || 9 <= c as int <= 13 }

  /** The space characters of the C locale: blank, tab, newline, vertical tab, form feed, carriage return. */
  lemma {:induction false} SpacesAre(c: char)
    ensures IsSpace(c) <==> c in " \t\n\r" || c as int == 11 || c as int == 12
  {}

  function SkipSpace(s: string): (t: string)
    ensures t == [] || !IsSpace(t[0])
    ensures |t| <= |s|
    decreases s
  {
    if s == [] || !IsSpace(s[0]) then s else SkipSpace(s[1..])
  }

  /** s without the space at its end. */
  function DropSpace(s: string): (t: string)
    ensures t == [] || !IsSpace(t[|t| - 1])
    ensures t <= s
    decreases s
  {
    if s == [] || !IsSpace(s[|s| - 1]) then s else DropSpace(s[..|s| - 1])
  }

  function Strip(s: string): string { DropSpace(SkipSpace(s)) }

  /** No space at either end. */
  predicate Trim(s: string) { s == [] || (!IsSpace(s[0]) && !IsSpace(s[|s| - 1])) }

  lemma {:induction false} StripTrim(s: string)
    requires Trim(s)
    ensures Strip(s) == s
  {}

  predicate AllSpace(s: string) { forall i :: 0 <= i < |s| ==> IsSpace(s[i]) }

  lemma {:induction false} DropSpaceAfter(s: string, tail: string)
    requires AllSpace(tail)
    ensures DropSpace(s + tail) == DropSpace(s)
    decreases |tail|
  {
    if tail == [] {
      assert s + tail == s;
    } else {
      assert (s + tail)[..|s + tail| - 1] == s + tail[..|tail| - 1];
      DropSpaceAfter(s, tail[..|tail| - 1]);
    }
  }

  lemma {:induction false} SkipSpaceBefore(head: string, s: string)
    requires AllSpace(head)
    ensures SkipSpace(head + s) == SkipSpace(s)
    decreases |head|
  {
    if head == [] {
      assert head + s == s;
    } else {
      assert (head + s)[1..] == head[1..] + s;
      SkipSpaceBefore(head[1..], s);
    }
  }

  function LowerChar(c: char): char {
    if 'A' <= c <= 'Z' then (c as int - 'A' as int + 'a' as int) as char else c
  }

  function Lower(s: string): (t: string)
    ensures |t| == |s| && forall i :: 0 <= i < |s| ==> t[i] == LowerChar(s[i])
  {
    seq(|s|, i requires 0 <= i < |s| => LowerChar(s[i]))
  }

  predicate IsLower(s: string) { forall i :: 0 <= i < |s| ==> !('A' <= s[i] <= 'Z') }

  lemma {:induction false} LowerOfLower(s: string)
    ensures IsLower(s) ==> Lower(s) == s
    ensures IsLower(Lower(s))
  {}

  /** s up to the first character in `stop`, and the rest. */
  function Until(s: string, stop: string): (r: (string, string))
    ensures r.0 + r.1 == s
    ensures forall i :: 0 <= i < |r.0| ==> r.0[i] !in stop
    ensures r.1 == [] || r.1[0] in stop
    decreases s
  {
    if s == [] || s[0] in stop then ([], s)
    else
      var (a, b) := Until(s[1..], stop);
      ([s[0]] + a, b)
  }

  predicate Avoids(s: string, stop: string) { forall i :: 0 <= i < |s| ==> s[i] !in stop }

  lemma {:induction false} UntilAt(s: string, rest: string, stop: string)
    requires Avoids(s, stop) && (rest == [] || rest[0] in stop)
    ensures Until(s + rest, stop) == (s, rest)
    decreases s
  {
    if s == [] {
      assert s + rest == rest;
    } else {
      assert (s + rest)[1..] == s[1..] + rest;
      UntilAt(s[1..], rest, stop);
      assert s == [s[0]] + s[1..];
    }
  }

  /** What fgets takes: up to and with the next newline, at most max characters. */
  function Fgets(text: string, max: nat): (r: (string, string))
    requires text != "" && max > 0
    ensures r.0 != "" && r.0 + r.1 == text && |r.0| <= max
  {
    var (a, b) := Until(text, "\n");
    var n := if b == "" then |a| else |a| + 1;
    if n <= max then (text[..n], text[n..]) else (text[..max], text[max..])
  }

  lemma {:induction false} FgetsLine(line: string, rest: string, max: nat)
    requires Avoids(line, "\n") && |line| + 1 <= max
    ensures Fgets(line + "\n" + rest, max) == (line + "\n", rest)
  {
    assert line + "\n" + rest == line + ("\n" + rest);
    UntilAt(line, "\n" + rest, "\n");
  }
}
