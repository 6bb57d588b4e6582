/** The text of a checksum file: one `digest  name` line for each file, read back with Python's line splitting. */
module Checksums {
  import opened Options

  datatype Sum = Sum(digest: string, name: string)

  predicate IsHex(c: char) {
    '0' <= c <= '9' || 'a' <= c <= 'f'
  }

  predicate IsDigest(s: string) {
    |s| == 64 && forall i :: 0 <= i < |s| ==> IsHex(s[i])
  }

  predicate IsAlnum(c: char) {
    'A' <= c <= 'Z' || 'a' <= c <= 'z' || '0' <= c <= '9'
  }

  /** The file names that a release may contain. */
  predicate IsSafe(name: string) {
    |name| > 0 && IsAlnum(name[0]) &&
    forall i :: 0 < i < |name| ==>
      IsAlnum(name[i]) || name[i] == '_' || name[i] == '.' || name[i] == '+' || name[i] == '-'
  }

  /** The characters that `str.splitlines` breaks at. */
  predicate IsBreak(c: char) {
    c == '\n' || c == '\r' || c == '\U{000B}' || c == '\U{000C}' || c == '\U{001C}' || c == '\U{001D}' ||
      c == '\U{001E}' ||
    c == '\U{0085}' || c == '\U{2028}' || c == '\U{2029}'
  }

  function FirstBreak(s: string): (k: nat)
    ensures k <= |s| && (k < |s| ==> IsBreak(s[k])) && forall i :: 0 <= i < k ==> !IsBreak(s[i])
  {
    if s == "" || IsBreak(s[0]) then 0 else 1 + FirstBreak(s[1..])
  }

  function SplitLines(s: string): seq<string> {
    if s == "" then []
    else
      var k := FirstBreak(s);
      if k == |s| then [s]
      else
        var next := if s[k] == '\r' && k + 1 < |s| && s[k + 1] == '\n' then k + 2 else k + 1;
        [s[..k]] + SplitLines(s[next..])
  }

  /** A line of 64 hexadecimal digits, two spaces and a name that is not empty. */
  function ParseLine(line: string): Option<Sum> {
    if |line| > 66 && IsDigest(line[..64]) && line[64] == ' ' && line[65] == ' '
    then Some(Sum(line[..64], line[66..])) else None
  }

  function ParseAll(lines: seq<string>): Option<seq<Sum>> {
    if lines == [] then Some([])
    else
      var first, rest := ParseLine(lines[0]), ParseAll(lines[1..]);
      if first.None? || rest.None? then None else Some([first.value] + rest.value)
  }

  function RenderLine(s: Sum): string {
    s.digest + "  " + s.name + "\n"
  }

  function Render(sums: seq<Sum>): string {
    if sums == [] then "" else RenderLine(sums[0]) + Render(sums[1..])
  }

  function Parse(text: string): Option<seq<Sum>> {
    ParseAll(SplitLines(text))
  }

  ghost predicate WellFormed(sums: seq<Sum>) {
    forall i :: 0 <= i < |sums| ==> IsDigest(sums[i].digest) && IsSafe(sums[i].name)
  }

  lemma FirstBreakAt(s: string, k: nat)
    requires k < |s| && IsBreak(s[k]) && forall i :: 0 <= i < k ==> !IsBreak(s[i])
    ensures FirstBreak(s) == k
  {
  }

  /** A rendered line is one line of the text, and the rest of the text is split by itself. */
  lemma SplitRendered(s: Sum, more: string)
    requires IsDigest(s.digest) && IsSafe(s.name)
    ensures SplitLines(RenderLine(s) + more) == [s.digest + "  " + s.name] + SplitLines(more)
  {
    var line := s.digest + "  " + s.name;
    var text := RenderLine(s) + more;
    assert text == line + "\n" + more;
    LineHasNoBreak(s);
    FirstBreakAt(text, |line|);
    assert text[..|line|] == line && text[|line| + 1..] == more;
  }

  lemma ParsedLine(s: Sum)
    requires IsDigest(s.digest) && IsSafe(s.name)
    ensures ParseLine(s.digest + "  " + s.name) == Some(s)
  {
    var line := s.digest + "  " + s.name;
    assert line[..64] == s.digest && line[66..] == s.name;
  }

  /** Writing sums and reading them back is the identity. */
  lemma {:induction false} ParseRendered(sums: seq<Sum>)
    requires WellFormed(sums)
    ensures Parse(Render(sums)) == Some(sums)
  {
    if sums != [] {
      var s, rest := sums[0], sums[1..];
      ParseRendered(rest);
      SplitRendered(s, Render(rest));
      ParsedLine(s);
      var lines := SplitLines(Render(rest));
      assert ([s.digest + "  " + s.name] + lines)[1..] == lines;
      assert sums == [s] + rest;
    }
  }

  lemma LineHasNoBreak(s: Sum)
    requires IsDigest(s.digest) && IsSafe(s.name)
    ensures var line := s.digest + "  " + s.name; forall i :: 0 <= i < |line| ==> !IsBreak(line[i])
  {
    var line := s.digest + "  " + s.name;
    forall i | 0 <= i < |line| ensures !IsBreak(line[i]) {
      if i < 64 {
        assert line[i] == s.digest[i] && IsHex(s.digest[i]);
      } else if i < 66 {
        assert line[i] == ' ';
      } else {
        assert line[i] == s.name[i - 66];
      }
    }
  }
}
