/** What the `rawHeaders` text says (src/command/http.rs, lines 999-1003): a reader that splits it into
    lines and each line at the first ": " gets the headers back. */
module HeaderText {
  import opened Utf8
  import Sums
  import opened HeaderTruncation
  import opened HeaderTheorems

  const NEWLINE: byte := 0x0A
  const COLON: byte := 0x3A
  const SPACE: byte := 0x20

  // ---- The reader ----

  /** The pieces between newlines, at least one. */
  function SplitLines(text: seq<byte>): (r: seq<seq<byte>>)
    ensures r != []
  {
    if text == [] then [[]]
    else
      var rest := SplitLines(text[1..]);
      if text[0] == NEWLINE then [[]] + rest else [[text[0]] + rest[0]] + rest[1..]
  }

  /** The position of the first ": ", or the length. */
  function Separator(line: seq<byte>): (i: nat)
    ensures i <= |line|
    ensures i < |line| ==> i + 1 < |line| && line[i] == COLON && line[i + 1] == SPACE
  {
    if |line| < 2 then |line|
    else if line[0] == COLON && line[1] == SPACE then 0
    else
      var i := Separator(line[1..]);
      i + 1
  }

  function ReadLine(line: seq<byte>): Header {
    var i := Separator(line);
    if i < |line| then Header(line[..i], line[i + 2..]) else Header(line, [])
  }

  function ReadLines(lines: seq<seq<byte>>): (hs: seq<Header>)
    ensures |hs| == |lines|
  {
    seq(|lines|, i requires 0 <= i < |lines| => ReadLine(lines[i]))
  }

  function ReadHeaders(text: seq<byte>): seq<Header> {
    if text == [] then [] else ReadLines(SplitLines(text))
  }

  // ---- Reading back ----

  /** As header names and values are on the wire: no colon in a name, no newline in either. */
  predicate Readable(h: Header) { COLON !in h.name && NEWLINE !in h.name && NEWLINE !in h.value }

  predicate AllReadable(hs: seq<Header>) { forall i :: 0 <= i < |hs| ==> Readable(hs[i]) }

  lemma {:induction false} SplitOneLine(line: seq<byte>)
    requires NEWLINE !in line
    ensures SplitLines(line) == [line]
  {
    if line != [] {
      SplitOneLine(line[1..]);
      assert [line[0]] + line[1..] == line;
    }
  }

  lemma {:induction false} SplitFirstLine(line: seq<byte>, rest: seq<byte>)
    requires NEWLINE !in line
    ensures SplitLines(line + [NEWLINE] + rest) == [line] + SplitLines(rest)
  {
    var text := line + [NEWLINE] + rest;
    if line == [] {
      assert text[1..] == rest;
    } else {
      SplitFirstLine(line[1..], rest);
      assert text[1..] == line[1..] + [NEWLINE] + rest;
      assert [line[0]] + line[1..] == line;
    }
  }

  lemma {:induction false} SeparatorAfterName(name: seq<byte>, value: seq<byte>)
    requires COLON !in name
    ensures Separator(name + [COLON, SPACE] + value) == |name|
  {
    var line := name + [COLON, SPACE] + value;
    if name != [] {
      SeparatorAfterName(name[1..], value);
      assert line[1..] == name[1..] + [COLON, SPACE] + value;
      assert line[0] == name[0];
    }
  }

  lemma {:induction false} Punctuation()
    ensures Ascii(": ") == [COLON, SPACE] && Ascii("\n") == [NEWLINE]
  {
  }

  lemma {:induction false} LineReadsBack(h: Header)
    requires Readable(h)
    ensures ReadLine(Line(h)) == h && NEWLINE !in Line(h)
  {
    Punctuation();
    SeparatorAfterName(h.name, h.value);
    assert Line(h)[..|h.name|] == h.name;
    assert Line(h)[|h.name| + 2..] == h.value;
  }

  lemma {:induction false} JoinSplits(hs: seq<Header>)
    requires hs != [] && AllReadable(hs)
    ensures |SplitLines(Join(hs))| == |hs|
    ensures ReadLines(SplitLines(Join(hs))) == hs
  {
    LineReadsBack(hs[0]);
    if |hs| == 1 {
      SplitOneLine(Line(hs[0]));
    } else {
      Punctuation();
      JoinSplits(hs[1..]);
      SplitFirstLine(Line(hs[0]), Join(hs[1..]));
      var text, rest := Join(hs), SplitLines(Join(hs[1..]));
      assert text == Line(hs[0]) + [NEWLINE] + Join(hs[1..]);
      assert ReadLines([Line(hs[0])] + rest) == [ReadLine(Line(hs[0]))] + ReadLines(rest);
    }
  }

  /** The text is the headers: reading it gives every name and value, in order. */
  lemma {:induction false} TextReadsBack(hs: seq<Header>)
    requires AllReadable(hs)
    ensures ReadHeaders(Join(hs)) == hs
  {
    JoinedSizeIsTextLength(hs);
    if hs != [] {
      JoinSplits(hs);
      TextIsNotEmpty(hs);
    }
  }

  lemma {:induction false} TextIsNotEmpty(hs: seq<Header>)
    requires hs != []
    ensures Join(hs) != []
  {
    Punctuation();
  }

  /** The marker consists of printable characters, so cutting keeps headers readable. */
  lemma {:induction false} MarkIsDots()
    ensures TRUNCATION_MARK == [0x2E, 0x2E, 0x2E, 0x5B, 0x74, 0x72, 0x75, 0x6E, 0x63, 0x61, 0x74, 0x65, 0x64, 0x5D]
  {
  }

  /** Hence what is sent after truncating is read as the truncated headers, for every outcome. */
  lemma {:induction false} TruncatedTextReadsBack(hs: seq<Header>, checked: bool, r: Outcome)
    requires AllReadable(hs) && Truncation(hs, checked, r) && r.Done?
    ensures AllReadable(r.headers) && ReadHeaders(Join(r.headers)) == r.headers
  {
    ResultOnlyCuts(hs, checked, r);
    var S: set<nat>, c: nat :| CutBack(hs, S, c, r.headers);
    CutIsReadable(hs, S, c, r.headers);
    TextReadsBack(r.headers);
  }

  lemma {:induction false} CutIsReadable(hs: seq<Header>, S: set<nat>, c: nat, out: seq<Header>)
    requires AllReadable(hs) && CutBack(hs, S, c, out)
    ensures AllReadable(out)
  {
    var kept := Sums.Pick(S, hs);
    MarkIsDots();
    PickedFrom(S, hs);
    assert OnlyCut(kept, out, c);
    hide Keeps;
    hide IsCapFor;
    forall i | 0 <= i < |out|
      ensures Readable(out[i])
    {
      assert kept[i] in hs;
      assert CutTo(kept[i].value, out[i].value, c);
      CutValueIsReadable(kept[i].value, out[i].value, c);
    }
  }

  lemma {:induction false} CutValueIsReadable(v: seq<byte>, out: seq<byte>, c: nat)
    requires NEWLINE !in v && CutTo(v, out, c)
    ensures NEWLINE !in out
  {
    MarkIsDots();
  }
}
