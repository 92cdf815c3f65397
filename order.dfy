/** `AdventureDoc.get_order`: the ORDER manifest is read with `readlines` and
    every line is `strip`ped, so there is one entry per line, in file order,
    and a blank line becomes an empty entry. */
module Order {

  const Newline: char := '\n'

  /** The characters Python 2's `str.strip()` removes. */
  predicate IsSpace(c: char) {
    c == ' ' || c == '\t' || c == '\n' || c == '\r' || c == '\U{B}' || c == '\U{C}'
  }

  /** `str.lstrip()`: drop leading whitespace. */
  function LStrip(s: string): string {
    if s != [] && IsSpace(s[0]) then LStrip(s[1..]) else s
  }

  /** `lstrip` keeps a suffix that does not begin with whitespace, and cuts only
      whitespace. */
  lemma {:induction false} LStripSpec(s: string)
    ensures |LStrip(s)| <= |s| && LStrip(s) == s[|s| - |LStrip(s)|..]
    ensures LStrip(s) == [] || !IsSpace(LStrip(s)[0])
    ensures forall k :: 0 <= k < |s| - |LStrip(s)| ==> IsSpace(s[k])
  {
    if s != [] && IsSpace(s[0]) {
      LStripSpec(s[1..]);
      forall k | 1 <= k < |s| - |LStrip(s)|
        ensures IsSpace(s[k])
      {
        assert s[k] == s[1..][k - 1];
      }
    }
  }

  /** `str.rstrip()`: drop trailing whitespace. */
  function RStrip(s: string): string {
    if s != [] && IsSpace(s[|s| - 1]) then RStrip(s[..|s| - 1]) else s
  }

  /** `rstrip` keeps a prefix that does not end with whitespace, and cuts only
      whitespace. */
  lemma {:induction false} RStripSpec(s: string)
    ensures |RStrip(s)| <= |s| && RStrip(s) == s[..|RStrip(s)|]
    ensures RStrip(s) == [] || !IsSpace(RStrip(s)[|RStrip(s)| - 1])
    ensures forall k :: |RStrip(s)| <= k < |s| ==> IsSpace(s[k])
  {
    if s != [] && IsSpace(s[|s| - 1]) {
      var t := s[..|s| - 1];
      RStripSpec(t);
      assert RStrip(s) == RStrip(t);
      assert t[..|RStrip(t)|] == s[..|RStrip(t)|];
      forall k | |RStrip(s)| <= k < |s| - 1
        ensures IsSpace(s[k])
      {
        assert s[k] == t[k];
      }
    }
  }

  /** `str.strip()`. */
  function Strip(s: string): string {
    RStrip(LStrip(s))
  }

  /** `strip` keeps the infix of `s` left once only whitespace has been cut
      from either end. */
  lemma StripSpec(s: string)
    ensures exists lo, hi :: 0 <= lo <= hi <= |s| && Strip(s) == s[lo..hi] &&
              (forall k :: 0 <= k < lo ==> IsSpace(s[k])) &&
              (forall k :: hi <= k < |s| ==> IsSpace(s[k]))
  {
    var l := LStrip(s);
    var r := RStrip(l);
    LStripSpec(s);
    RStripSpec(l);
    var lo := |s| - |l|;
    var hi := lo + |r|;
    assert l == s[lo..];
    assert r == s[lo..hi];
    forall k | hi <= k < |s|
      ensures IsSpace(s[k])
    {
      assert s[k] == l[k - lo];
    }
    assert Strip(s) == s[lo..hi];
  }

  /** What `strip` keeps neither begins nor ends with whitespace. */
  lemma StripTrimmed(s: string)
    ensures Strip(s) == [] || (!IsSpace(Strip(s)[0]) && !IsSpace(Strip(s)[|Strip(s)| - 1]))
  {
    var l := LStrip(s);
    var r := RStrip(l);
    LStripSpec(s);
    RStripSpec(l);
    if r != [] {
      assert r == l[..|r|];
      assert r[0] == l[0];
    }
  }

  /** Concatenation of a sequence of lines. */
  function Concat(lines: seq<string>): string {
    if lines == [] then [] else lines[0] + Concat(lines[1..])
  }

  /** Index of the first occurrence of `c` in `s`, or -1 (Python's `find`). */
  function IndexOf(s: string, c: char): (r: int)
    ensures -1 <= r < |s|
  {
    if s == [] then -1
    else if s[0] == c then 0
    else
      var r := IndexOf(s[1..], c);
      if r == -1 then -1 else r + 1
  }

  /** `find` gives -1 exactly when `c` is absent, and otherwise the first
      position holding it. */
  lemma {:induction false} IndexOfSpec(s: string, c: char)
    ensures IndexOf(s, c) == -1 <==> c !in s
    ensures IndexOf(s, c) >= 0 ==> s[IndexOf(s, c)] == c && c !in s[..IndexOf(s, c)]
  {
    if s != [] && s[0] != c {
      IndexOfSpec(s[1..], c);
      assert s == [s[0]] + s[1..];
      var r := IndexOf(s[1..], c);
      if r >= 0 {
        assert s[..r + 1] == [s[0]] + s[1..][..r];
      }
    }
  }

  /** A line as `readlines` yields it: non-empty, and a newline can only be its
      last character. */
  predicate IsLine(line: string) {
    line != [] && Newline !in line[..|line| - 1]
  }

  /** A piece of text whose last character is a newline. */
  predicate EndsWithNewline(line: string) {
    line != [] && line[|line| - 1] == Newline
  }

  /** `file.readlines()`: the text cut after every newline. */
  function ReadLines(text: string): seq<string>
    decreases |text|
  {
    var i := IndexOf(text, Newline);
    if text == [] then []
    else if i == -1 then [text]
    else [text[..i + 1]] + ReadLines(text[i + 1..])
  }

  /** The lines of `readlines` put back together are the text; each is a
      line, and all but the last end with a newline (the last keeps none when
      the text does not end with one). */
  lemma ReadLinesSpec(text: string)
    ensures Concat(ReadLines(text)) == text
    ensures forall k :: 0 <= k < |ReadLines(text)| ==> IsLine(ReadLines(text)[k])
    ensures forall k :: 0 <= k < |ReadLines(text)| - 1 ==> EndsWithNewline(ReadLines(text)[k])
  {
    ReadLinesConcat(text);
    ReadLinesShape(text);
  }

  /** `readlines` loses and adds nothing. */
  lemma {:induction false} ReadLinesConcat(text: string)
    ensures Concat(ReadLines(text)) == text
    decreases |text|
  {
    var i := IndexOf(text, Newline);
    if text != [] {
      if i == -1 {
        assert ReadLines(text) == [text];
        assert Concat([text]) == text + Concat([]);
      } else {
        var line := text[..i + 1];
        var rest := ReadLines(text[i + 1..]);
        ReadLinesConcat(text[i + 1..]);
        assert ReadLines(text) == [line] + rest;
        assert ([line] + rest)[1..] == rest;
        assert text == line + text[i + 1..];
      }
    }
  }

  /** Each piece `readlines` yields is a line, and only the last may lack a newline. */
  lemma {:induction false} ReadLinesShape(text: string)
    ensures forall k :: 0 <= k < |ReadLines(text)| ==> IsLine(ReadLines(text)[k])
    ensures forall k :: 0 <= k < |ReadLines(text)| - 1 ==> EndsWithNewline(ReadLines(text)[k])
    decreases |text|
  {
    var i := IndexOf(text, Newline);
    IndexOfSpec(text, Newline);
    if text != [] {
      if i == -1 {
        assert ReadLines(text) == [text];
        assert text[..|text| - 1] <= text;
      } else {
        var line := text[..i + 1];
        var rest := ReadLines(text[i + 1..]);
        ReadLinesShape(text[i + 1..]);
        var lines := [line] + rest;
        assert ReadLines(text) == lines;
        assert line[..|line| - 1] == text[..i];
        assert IsLine(line) && EndsWithNewline(line);
        forall k | 0 < k < |lines|
          ensures lines[k] == rest[k - 1]
        {
        }
      }
    }
  }

  /** `get_order`, given the text of the ORDER file. */
  function GetOrder(text: string): seq<string> {
    StripAll(ReadLines(text))
  }

  /** One entry per line of the text, each that line stripped, so no entry
      holds a newline. */
  lemma GetOrderSpec(text: string)
    ensures |GetOrder(text)| == |ReadLines(text)|
    ensures forall k :: 0 <= k < |GetOrder(text)| ==>
              GetOrder(text)[k] == Strip(ReadLines(text)[k]) && Newline !in GetOrder(text)[k]
  {
    var lines := ReadLines(text);
    ReadLinesSpec(text);
    StripAllSpec(lines);
    forall k | 0 <= k < |lines|
      ensures Newline !in Strip(lines[k])
    {
      StrippedLineHasNoNewline(lines[k]);
    }
  }

  /** Stripping a line removes its only possible newline, the last character. */
  lemma StrippedLineHasNoNewline(line: string)
    requires IsLine(line)
    ensures Newline !in Strip(line)
  {
    var r := Strip(line);
    StripSpec(line);
    var lo, hi :| 0 <= lo <= hi <= |line| && r == line[lo..hi] &&
                  (forall k :: 0 <= k < lo ==> IsSpace(line[k])) &&
                  (forall k :: hi <= k < |line| ==> IsSpace(line[k]));
    StripTrimmed(line);
  }

  /** Lines joined with a newline after each one, as an ORDER file is written. */
  function JoinLines(lines: seq<string>): string {
    if lines == [] then [] else lines[0] + [Newline] + JoinLines(lines[1..])
  }

  /** A line terminated by a newline contributes exactly its stripped self as
      the next entry, ahead of the entries of the rest of the file. */
  lemma GetOrderLine(line: string, rest: string)
    requires Newline !in line
    ensures GetOrder(line + [Newline] + rest) == [Strip(line)] + GetOrder(rest)
  {
    var text := line + [Newline] + rest;
    assert text[|line|] == Newline;
    IndexOfSpec(text, Newline);
    assert text[..|line|] == line;
    assert IndexOf(text, Newline) == |line|;
    assert text[..|line| + 1] == line + [Newline];
    assert text[|line| + 1..] == rest;
    assert ReadLines(text) == [line + [Newline]] + ReadLines(rest);
    StripTrailingNewline(line);
  }

  /** A last line without a newline is one more entry. */
  lemma GetOrderLastLine(line: string)
    requires line != [] && Newline !in line
    ensures GetOrder(line) == [Strip(line)]
  {
    IndexOfSpec(line, Newline);
    assert IndexOf(line, Newline) == -1;
    assert ReadLines(line) == [line];
    assert [line][1..] == [];
    assert StripAll([line]) == [Strip(line)] + StripAll([]);
  }

  /** The newline that ends a line never reaches its entry. */
  lemma StripTrailingNewline(line: string)
    requires Newline !in line
    ensures Strip(line + [Newline]) == Strip(line)
  {
    LStripAppend(line, [Newline]);
    assert LStrip([Newline]) == [];
    if LStrip(line) != [] {
      var l := LStrip(line);
      assert (l + [Newline])[..|l|] == l;
      assert RStrip(l + [Newline]) == RStrip(l);
    }
  }

  /** Left-stripping a concatenation: once a non-space is met, the rest is kept. */
  lemma {:induction false} LStripAppend(s: string, t: string)
    ensures LStrip(s + t) == if LStrip(s) == [] then LStrip(t) else LStrip(s) + t
  {
    if s != [] {
      assert (s + t)[0] == s[0];
      assert (s + t)[1..] == s[1..] + t;
      if IsSpace(s[0]) {
        LStripAppend(s[1..], t);
      }
    } else {
      assert s + t == t;
    }
  }

  /** Every line stripped, in order. */
  function StripAll(lines: seq<string>): seq<string> {
    if lines == [] then [] else [Strip(lines[0])] + StripAll(lines[1..])
  }

  /** `StripAll` strips each line in place. */
  lemma {:induction false} StripAllSpec(lines: seq<string>)
    ensures |StripAll(lines)| == |lines|
    ensures forall k :: 0 <= k < |lines| ==> StripAll(lines)[k] == Strip(lines[k])
  {
    if lines != [] {
      StripAllSpec(lines[1..]);
      var entries := StripAll(lines);
      assert entries == [Strip(lines[0])] + StripAll(lines[1..]);
      forall k | 1 <= k < |lines|
        ensures entries[k] == Strip(lines[k])
      {
        assert lines[1..][k - 1] == lines[k];
      }
    }
  }

  /** One entry per line, in order, each the stripped line; a blank line gives
      an empty entry rather than being dropped, and a last line without a
      newline still counts. */
  lemma {:induction false} GetOrderOfLines(lines: seq<string>, last: string)
    requires forall k :: 0 <= k < |lines| ==> Newline !in lines[k]
    requires Newline !in last
    ensures GetOrder(JoinLines(lines) + last)
            == StripAll(lines) + (if last == [] then [] else [Strip(last)])
  {
    if lines == [] {
      assert JoinLines(lines) + last == last;
      if last != [] { GetOrderLastLine(last); }
    } else {
      var lastEntry := if last == [] then [] else [Strip(last)];
      assert forall k :: 0 <= k < |lines| - 1 ==> lines[1..][k] == lines[k + 1];
      GetOrderOfLines(lines[1..], last);
      GetOrderFirstLine(lines, last);
      var first, others := [Strip(lines[0])], StripAll(lines[1..]);
      calc {
        GetOrder(JoinLines(lines) + last);
        first + (others + lastEntry);
        (first + others) + lastEntry;
        { assert StripAll(lines) == first + others; }
        StripAll(lines) + lastEntry;
      }
    }
  }

  /** The first line of a joined file is its first entry. */
  lemma GetOrderFirstLine(lines: seq<string>, last: string)
    requires lines != [] && Newline !in lines[0]
    ensures GetOrder(JoinLines(lines) + last) == [Strip(lines[0])] + GetOrder(JoinLines(lines[1..]) + last)
  {
    var tail := JoinLines(lines[1..]) + last;
    assert JoinLines(lines) + last == lines[0] + [Newline] + tail;
    GetOrderLine(lines[0], tail);
  }

  /** A line of whitespace only is an empty entry. */
  lemma BlankLineIsEmptyEntry(line: string)
    requires forall k :: 0 <= k < |line| ==> IsSpace(line[k])
    ensures Strip(line) == []
  {
    StripSpec(line);
    StripTrimmed(line);
    var r := Strip(line);
    var lo, hi :| 0 <= lo <= hi <= |line| && r == line[lo..hi];
  }
}
