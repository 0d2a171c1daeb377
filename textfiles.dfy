/** How `File.WriteAllLines` frames a list of lines into the text of a file and how
    `File.ReadAllLines` cuts the text of a file back into lines. */
module TextFiles {

  /** The values `Environment.NewLine` takes: CR LF on Windows, LF elsewhere.
      `WriteAllLines` ends every line with it. */
  predicate IsNewLine(nl: string) {
    nl == "\r\n" || nl == "\n"
  }

  /** The characters at which `ReadAllLines` ends a line. */
  predicate IsLineBreak(c: char) {
    c == '\r' || c == '\n'
  }

  /** No line break inside: a line `ReadAllLines` can give back whole. */
  predicate IsSingleLine(s: string) {
    forall k :: 0 <= k < |s| ==> !IsLineBreak(s[k])
  }

  /** The text `File.WriteAllLines(path, lines)` stores: every line followed by the newline. */
  function WriteLines(lines: seq<string>, nl: string): (text: string)
    ensures |lines| == 0 ==> text == []
  {
    if lines == [] then [] else lines[0] + nl + WriteLines(lines[1..], nl)
  }

  /** Where the first line of `s` ends: the first line break, or the end of `s`. */
  function LineEnd(s: string): (k: nat)
    ensures k <= |s|
    ensures forall j :: 0 <= j < k ==> !IsLineBreak(s[j])
    ensures k < |s| ==> IsLineBreak(s[k])
  {
    if s == [] || IsLineBreak(s[0]) then 0 else 1 + LineEnd(s[1..])
  }

  /** Where the second line of `s` starts: after the line break, CR LF counting as one. */
  function NextLineStart(s: string): (k: nat)
    ensures LineEnd(s) <= k <= |s|
    ensures s != [] ==> 0 < k
  {
    var e := LineEnd(s);
    if e == |s| then e
    else if s[e] == '\r' && e + 1 < |s| && s[e + 1] == '\n' then e + 2
    else e + 1
  }

  /** What `File.ReadAllLines` returns for a file holding `text`: the text cut at every
      CR, LF or CR LF; a break at the very end opens no further line, so the empty
      text has no lines at all. */
  function ReadLines(text: string): (lines: seq<string>)
    ensures forall k :: 0 <= k < |lines| ==> IsSingleLine(lines[k])
    ensures (text == []) == (lines == [])
    decreases |text|
  {
    if text == [] then []
    else [text[..LineEnd(text)]] + ReadLines(text[NextLineStart(text)..])
  }

  /** The first line of `line + nl + rest` is `line`, and the rest starts after `nl`. */
  lemma FirstLine(line: string, nl: string, rest: string)
    requires IsNewLine(nl) && IsSingleLine(line)
    ensures LineEnd(line + nl + rest) == |line|
    ensures NextLineStart(line + nl + rest) == |line| + |nl|
  {
    var s := line + nl + rest;
    assert s[|line|] == nl[0];
    if nl == "\r\n" {
      assert s[|line| + 1] == '\n';
    }
  }

  /** Reading back what was written gives the same lines, provided no line holds a
      line break. */
  lemma {:induction false} ReadWriteLines(lines: seq<string>, nl: string)
    requires IsNewLine(nl)
    requires forall k :: 0 <= k < |lines| ==> IsSingleLine(lines[k])
    ensures ReadLines(WriteLines(lines, nl)) == lines
  {
    if lines != [] {
      ReadWriteFirst(lines, nl);
      ReadWriteLines(lines[1..], nl);
    }
  }

  /** Reading back written lines gives the first line, then what the rest reads back as. */
  lemma ReadWriteFirst(lines: seq<string>, nl: string)
    requires IsNewLine(nl) && lines != [] && IsSingleLine(lines[0])
    ensures ReadLines(WriteLines(lines, nl)) == [lines[0]] + ReadLines(WriteLines(lines[1..], nl))
  {
    ReadFirstLine(lines[0], nl, WriteLines(lines[1..], nl));
  }

  /** `ReadLines` gives a line written with its newline, then the lines after it. */
  lemma ReadFirstLine(line: string, nl: string, rest: string)
    requires IsNewLine(nl) && IsSingleLine(line)
    ensures ReadLines(line + nl + rest) == [line] + ReadLines(rest)
  {
    var text := line + nl + rest;
    FirstLine(line, nl, rest);
    assert text[..|line|] == line;
    assert text[|line| + |nl|..] == rest;
  }

  /** A line that holds a line break does not survive the trip: `["A\n"]` comes back
      as the two lines `A` and the empty string. */
  lemma BrokenLineSplits()
    ensures ReadLines(WriteLines(["A\n"], "\n")) == ["A", ""]
  {
    var text := WriteLines(["A\n"], "\n");
    assert text == "A\n\n";
    assert LineEnd(text) == 1 && NextLineStart(text) == 2;
    assert text[..1] == "A";
    var tail := text[2..];
    assert tail == "\n";
    assert LineEnd(tail) == 0 && NextLineStart(tail) == 1;
    assert tail[..0] == "" && tail[1..] == [];
    assert ReadLines(tail) == [""];
  }
}
