/** Text files as Python reads and writes them: `readlines`, `writelines` and the `in` test. */
module Text {

  predicate OccursAt(hay: string, needle: string, i: nat)
    requires i <= |hay|
  {
    needle <= hay[i..]
  }

  /** `needle in hay`. */
  predicate Contains(hay: string, needle: string) {
    exists i | 0 <= i <= |hay| :: OccursAt(hay, needle, i)
  }

  /** It asks whether the needle stands anywhere at all in the text. */
  lemma ContainsSplits(hay: string, needle: string)
    ensures Contains(hay, needle) <==> exists a, b :: hay == a + needle + b
  {
    if Contains(hay, needle) {
      var i :| 0 <= i <= |hay| && OccursAt(hay, needle, i);
      assert hay == hay[..i] + needle + hay[i + |needle|..];
    }
    if a, b :| hay == a + needle + b {
      assert hay[|a|..] == needle + b;
      assert OccursAt(hay, needle, |a|);
    }
  }

  /** `writelines`: the strings one after the other. */
  function Concat(parts: seq<string>): string {
    if parts == [] then "" else parts[0] + Concat(parts[1..])
  }

  /** The length of the first line, its newline included. */
  function LineLength(text: string): (k: nat)
    ensures k <= |text| && (text != "" ==> k > 0)
    ensures text != "" ==> '\n' !in text[..k - 1]
    ensures k < |text| ==> text[k - 1] == '\n'
  {
    if text == "" then 0
    else if text[0] == '\n' then 1
    else
      var k := LineLength(text[1..]);
      assert k > 0 ==> text[..k] == [text[0]] + text[1..][..k - 1];
      1 + k
  }

  /** `readlines`: the lines, each with its newline; only the last may lack one. */
  function SplitLines(text: string): seq<string> {
    if text == "" then [] else [text[..LineLength(text)]] + SplitLines(text[LineLength(text)..])
  }

  /** A line that ends in its only newline. */
  predicate Terminated(line: string) {
    line != "" && line[|line| - 1] == '\n' && '\n' !in line[..|line| - 1]
  }

  /** What `readlines` can return: terminated lines, then perhaps one without a newline. */
  predicate AreLines(lines: seq<string>) {
    && (forall i | 0 <= i < |lines| - 1 :: Terminated(lines[i]))
    && (lines != [] ==> var last := lines[|lines| - 1]; last != "" && '\n' !in last[..|last| - 1])
  }

  lemma {:induction false} ConcatAppend(a: seq<string>, b: seq<string>)
    ensures Concat(a + b) == Concat(a) + Concat(b)
  {
    if a == [] {
      assert a + b == b;
    } else {
      ConcatAppend(a[1..], b);
      assert (a + b)[1..] == a[1..] + b && (a + b)[0] == a[0];
      assert a[0] + (Concat(a[1..]) + Concat(b)) == a[0] + Concat(a[1..]) + Concat(b);
    }
  }

  /** Reading a file and writing its lines back changes nothing, and what is read are lines. */
  lemma {:induction false} ConcatSplitLines(text: string)
    ensures Concat(SplitLines(text)) == text
    ensures AreLines(SplitLines(text))
  {
    hide AreLines, Terminated;
    if text == "" {
      NoLines();
    } else {
      var k := LineLength(text);
      ConcatSplitLines(text[k..]);
      var head, rest := text[..k], SplitLines(text[k..]);
      assert SplitLines(text) == [head] + rest;
      assert head + text[k..] == text;
      FirstLine(text, rest);
    }
  }

  lemma NoLines()
    ensures AreLines([])
  {}

  lemma FirstLine(text: string, rest: seq<string>)
    requires text != "" && AreLines(rest) && (LineLength(text) == |text| ==> rest == [])
    ensures AreLines([text[..LineLength(text)]] + rest)
  {
    var k := LineLength(text);
    var head := text[..k];
    assert head[..k - 1] == text[..k - 1];
    if k < |text| {
      assert Terminated(head);
      AreLinesAppend([head], rest);
    } else {
      assert [head] + rest == [head];
    }
  }

  lemma {:induction false} LineLengthOf(line: string, rest: string)
    requires line != "" && '\n' !in line[..|line| - 1]
    requires line[|line| - 1] == '\n' || rest == ""
    ensures LineLength(line + rest) == |line|
  {
    var text := line + rest;
    if line[0] != '\n' && |line| > 1 {
      assert text[1..] == line[1..] + rest;
      assert forall i | 0 <= i < |line| - 2 :: line[1..][i] == line[..|line| - 1][i + 1];
      LineLengthOf(line[1..], rest);
    }
  }

  /** Writing lines and reading the file again gives the same lines: none is merged or cut. */
  lemma {:induction false} SplitLinesConcat(lines: seq<string>)
    requires AreLines(lines)
    ensures SplitLines(Concat(lines)) == lines
  {
    if lines != [] {
      var text := Concat(lines);
      var rest := Concat(lines[1..]);
      assert |lines| == 1 ==> rest == "";
      assert |lines| > 1 ==> Terminated(lines[0]);
      LineLengthOf(lines[0], rest);
      assert text[..|lines[0]|] == lines[0] && text[|lines[0]|..] == rest;
      SplitLinesConcat(lines[1..]);
    }
  }

  lemma AreLinesAppend(a: seq<string>, b: seq<string>)
    requires AreLines(b) && (forall line <- a :: Terminated(line))
    ensures AreLines(a + b)
  {
    var all := a + b;
    forall i | 0 <= i < |all| - 1 ensures Terminated(all[i]) {
      if i < |a| { assert all[i] == a[i]; } else { assert all[i] == b[i - |a|]; }
    }
    if b == [] && a != [] { assert Terminated(a[|a| - 1]); }
  }

  // ---- ways to see that a text does not occur ----

  lemma OccursChar(hay: string, needle: string, i: nat, j: nat)
    requires i <= |hay| && OccursAt(hay, needle, i) && j < |needle|
    ensures i + j < |hay| && hay[i + j] == needle[j]
  {}

  /** A character of the needle is missing from the text. */
  lemma MissingChar(hay: string, needle: string, j: nat)
    requires j < |needle| && needle[j] !in hay
    ensures !Contains(hay, needle)
  {
    forall i | 0 <= i <= |hay| ensures !OccursAt(hay, needle, i) {
      if OccursAt(hay, needle, i) { OccursChar(hay, needle, i, j); }
    }
  }

  /** Wherever the text has the needle's character j, it lacks one of the needle's two characters
      before it. */
  lemma MissingTriple(hay: string, needle: string, j: nat)
    requires 2 <= j < |needle|
    requires forall p | 2 <= p < |hay| ::
               hay[p] == needle[j] ==> hay[p - 1] != needle[j - 1] || hay[p - 2] != needle[j - 2]
    ensures !Contains(hay, needle)
  {
    forall i | 0 <= i <= |hay| ensures !OccursAt(hay, needle, i) {
      if OccursAt(hay, needle, i) {
        OccursChar(hay, needle, i, j);
        OccursChar(hay, needle, i, j - 1);
        OccursChar(hay, needle, i, j - 2);
      }
    }
  }

  // ---- texts that avoid some characters ----

  predicate Lacks(text: string, bad: set<char>) {
    forall i | 0 <= i < |text| :: text[i] !in bad
  }

  predicate AllLack(pieces: seq<string>, bad: set<char>) {
    forall i | 0 <= i < |pieces| :: Lacks(pieces[i], bad)
  }

  lemma {:induction false} ConcatLacks(pieces: seq<string>, bad: set<char>)
    requires AllLack(pieces, bad)
    ensures Lacks(Concat(pieces), bad)
  {
    if pieces != [] {
      assert Lacks(pieces[0], bad);
      assert forall i | 0 <= i < |pieces[1..]| :: pieces[1..][i] == pieces[i + 1];
      ConcatLacks(pieces[1..], bad);
    }
  }

  lemma AllLackAppend(a: seq<string>, b: seq<string>, bad: set<char>)
    requires AllLack(a, bad) && AllLack(b, bad)
    ensures AllLack(a + b, bad)
  {
    hide Lacks;
  }
}
