/** A reader for the part of C that generated data headers use, after sections 6.4 and 6.4.4.1 of ISO C11:
    white space, comments, directives, identifiers, integer constants, plain string literals and
    punctuators. Escape sequences, hexadecimal constants and suffixes are not read (the answer is None). */
module CSyntax {
  import opened Text
  import opened Wrappers

  // ---- integer constants ----

  function DigitChar(d: nat): char
    requires d < 10
  {
    ('0' as int + d) as char
  }

  /** Python's "%d" of a non-negative number. */
  function Decimal(n: nat): (s: string)
    ensures s != "" && IsDigit(s[0]) && (s[0] == '0' ==> n == 0)
  {
    if n < 10 then [DigitChar(n)] else Decimal(n / 10) + [DigitChar(n % 10)]
  }

  predicate IsDigit(c: char) { '0' <= c <= '9' }

  predicate IsLetter(c: char) { 'a' <= c <= 'z' || 'A' <= c <= 'Z' || c == '_' }

  predicate IsWordChar(c: char) { IsLetter(c) || IsDigit(c) }

  /** Digits below `base`, most significant first. */
  function ReadDigits(s: string, base: nat): Option<nat> {
    if s == "" then Some(0)
    else
      var high :- ReadDigits(s[..|s| - 1], base);
      var c := s[|s| - 1];
      if IsDigit(c) && c as int - '0' as int < base then Some(high * base + (c as int - '0' as int)) else None
  }

  /** A constant that starts with 0 is octal, any other is decimal (section 6.4.4.1 of ISO C11). */
  function IntegerConstant(s: string): Option<nat> {
    if s == "" then None else ReadDigits(s, if s[0] == '0' then 8 else 10)
  }

  lemma {:induction false} ReadDecimal(n: nat)
    ensures ReadDigits(Decimal(n), 10) == Some(n)
    ensures forall c <- Decimal(n) :: IsDigit(c)
  {
    var s := Decimal(n);
    assert s[..|s| - 1] == if n < 10 then "" else Decimal(n / 10);
    if n >= 10 { ReadDecimal(n / 10); }
  }

  /** What "%d" prints reads back as the number: it has no leading zero, so it is never taken for octal,
      except for 0 itself, whose octal value is 0 too. */
  lemma DecimalRoundTrip(n: nat)
    ensures IntegerConstant(Decimal(n)) == Some(n)
  {
    ReadDecimal(n);
    if n == 0 {
      assert Decimal(0)[..0] == "";
      assert ReadDigits(Decimal(0)[..0], 8) == Some(0);
    }
  }

  /** A leading zero makes a constant octal. */
  lemma OctalExample()
    ensures IntegerConstant("10") == Some(10) && IntegerConstant("010") == Some(8) && IntegerConstant("09") == None
  {
    assert "10"[..1] == "1" && "1"[..0] == "" && "010"[..2] == "01" && "01"[..1] == "0" && "09"[..1] == "0";
    assert ReadDigits("", 10) == Some(0) && ReadDigits("", 8) == Some(0);
    assert ReadDigits("1", 10) == Some(1) && ReadDigits("0", 8) == Some(0);
    assert ReadDigits("01", 8) == Some(1);
  }

  // ---- tokens ----

  datatype Token = Ident(name: string) | Number(value: nat) | Str(text: string) | Punct(mark: char)

  predicate IsIdentifier(s: string) { s != "" && IsLetter(s[0]) && forall c <- s :: IsWordChar(c) }

  predicate IsPunct(c: char) { c in {'{', '}', '[', ']', '=', ',', ';', '*'} }

  predicate IsSpace(c: char) { c == ' ' || c == '\n' || c == '\t' }

  /** The length of the longest prefix of letters, digits and underscores. */
  function WordLength(s: string): (k: nat)
    ensures k <= |s| && (s != "" && IsWordChar(s[0]) ==> k > 0)
  {
    if s != "" && IsWordChar(s[0]) then 1 + WordLength(s[1..]) else 0
  }

  /** The length of a comment's body and closing mark, if it is closed. */
  function CommentLength(s: string): (k: Option<nat>)
    ensures k.Some? ==> k.value <= |s|
  {
    if |s| < 2 then None
    else if s[0] == '*' && s[1] == '/' then Some(2)
    else
      var k :- CommentLength(s[1..]);
      Some(1 + k)
  }

  /** The text starts with a trigraph sequence (section 5.2.1.1 of ISO C11), which a compiler replaces. */
  predicate StartsTrigraph(s: string) {
    |s| >= 3 && s[0] == '?' && s[1] == '?' && s[2] in {'=', '(', '/', ')', '\'', '<', '!', '>', '-'}
  }

  /** The length of a string literal's text up to the closing quote, if there is one on the line and no
      escape or trigraph before it. */
  function StringLength(s: string): (k: Option<nat>)
    ensures k.Some? ==> k.value < |s| && PlainText(s[..k.value])
  {
    if s == "" || s[0] == '\n' || s[0] == '\\' || StartsTrigraph(s) then None
    else if s[0] == '"' then Some(0)
    else
      var k :- StringLength(s[1..]);
      PlainCons(s, k);
      Some(1 + k)
  }

  lemma PlainCons(s: string, k: nat)
    requires s != "" && s[0] !in {'"', '\\', '\n'} && !StartsTrigraph(s)
    requires k < |s| && PlainText(s[1..][..k])
    ensures PlainText(s[..k + 1])
  {
    hide StartsTrigraph;
    var t, u := s[..k + 1], s[1..][..k];
    assert u == t[1..];
    forall i | 0 <= i < |t| ensures t[i] !in {'"', '\\', '\n'} {
      if i > 0 { assert t[i] == u[i - 1]; }
    }
    TrigraphPrefix(s, k + 1);
    assert t[0..] == t;
    forall i | 0 <= i <= |t| ensures !StartsTrigraph(t[i..]) {
      if i > 0 { assert t[i..] == u[i - 1..]; }
    }
  }

  lemma TrigraphPrefix(s: string, k: nat)
    requires k <= |s| && !StartsTrigraph(s)
    ensures !StartsTrigraph(s[..k])
  {}

  /** Text that stands for itself between quotes. */
  predicate PlainText(s: string) {
    && Lacks(s, {'"', '\\', '\n'})
    && forall i | 0 <= i <= |s| :: !StartsTrigraph(s[i..])
  }

  /** Names of ordinary characters are plain. */
  lemma OrdinaryIsPlain(s: string)
    requires forall c <- s :: c != '"' && c != '\\' && c != '\n' && c != '?'
    ensures PlainText(s)
  {
    forall i | 0 <= i < |s| ensures s[i] !in {'"', '\\', '\n'} {
      assert s[i] in s;
    }
    forall i | 0 <= i <= |s| ensures !StartsTrigraph(s[i..]) {
      if |s[i..]| >= 3 { assert s[i..][0] == s[i] && s[i] in s; }
    }
  }

  /** The tokens of a text; directives and comments leave none. */
  function Lex(s: string): (tokens: Option<seq<Token>>)
    decreases |s|
  {
    if s == "" then Some([])
    else if IsSpace(s[0]) then Lex(s[1..])
    else if s[0] == '#' then Lex(s[LineLength(s)..])
    else if |s| > 1 && s[0] == '/' && s[1] == '*' then
      var k :- CommentLength(s[2..]);
      Lex(s[2 + k..])
    else if s[0] == '"' then
      var k :- StringLength(s[1..]);
      var rest :- Lex(s[2 + k..]);
      Some([Str(s[1..][..k])] + rest)
    else if IsDigit(s[0]) then
      var k := WordLength(s);
      var n :- IntegerConstant(s[..k]);
      var rest :- Lex(s[k..]);
      Some([Number(n)] + rest)
    else if IsLetter(s[0]) then
      var k := WordLength(s);
      var rest :- Lex(s[k..]);
      Some([Ident(s[..k])] + rest)
    else if IsPunct(s[0]) then
      var rest :- Lex(s[1..]);
      Some([Punct(s[0])] + rest)
    else None
  }

  // ---- spelling ----

  /** A stretch of source text that reads as at most one token. */
  datatype Piece =
    | Space(text: string) | Comment(text: string) | Directive(text: string)
    | Word(text: string) | Constant(value: nat) | Quoted(text: string) | Mark(mark: char)
  {
    function Spell(): string {
      match this
      case Space(t) => t
      case Comment(t) => "/*" + t + "*/"
      case Directive(t) => "#" + t + "\n"
      case Word(t) => t
      case Constant(n) => Decimal(n)
      case Quoted(t) => "\"" + t + "\""
      case Mark(c) => [c]
    }

    function Meaning(): seq<Token> {
      match this
      case Word(t) => [Ident(t)]
      case Constant(n) => [Number(n)]
      case Quoted(t) => [Str(t)]
      case Mark(c) => [Punct(c)]
      case _ => []
    }

    /** The text of the piece cannot be taken for anything else. */
    predicate Valid() {
      match this
      case Space(t) => t != "" && forall c <- t :: IsSpace(c)
      case Comment(t) => ClosesOnce(t)
      case Directive(t) => '\n' !in t
      case Word(t) => IsIdentifier(t)
      case Constant(_) => true
      case Quoted(t) => PlainText(t)
      case Mark(c) => IsPunct(c)
    }

    predicate IsWord() { Word? || Constant? }
  }

  /** A comment body in which no '*' comes before a '/', the closing mark's own '/' included. */
  predicate ClosesOnce(t: string) {
    && (forall i | 0 <= i < |t| - 1 :: t[i] == '*' ==> t[i + 1] != '/')
    && (t != "" ==> t[|t| - 1] != '*')
  }

  function SpellAll(pieces: seq<Piece>): string {
    if pieces == [] then "" else pieces[0].Spell() + SpellAll(pieces[1..])
  }

  function MeaningAll(pieces: seq<Piece>): seq<Token> {
    if pieces == [] then [] else pieces[0].Meaning() + MeaningAll(pieces[1..])
  }

  /** Valid pieces, with no word or constant right before another. */
  predicate Spaced(pieces: seq<Piece>) {
    && (forall p <- pieces :: p.Valid())
    && (forall i | 0 <= i < |pieces| - 1 :: pieces[i].IsWord() ==> !pieces[i + 1].IsWord())
  }

  function Prepend(a: seq<Token>, b: Option<seq<Token>>): Option<seq<Token>> {
    if b.None? then None else Some(a + b.value)
  }

  lemma {:induction false} WordLengthOf(word: string, rest: string)
    requires forall c <- word :: IsWordChar(c)
    requires rest == "" || !IsWordChar(rest[0])
    ensures WordLength(word + rest) == |word|
  {
    if word == "" {
      assert word + rest == rest;
    } else {
      assert (word + rest)[1..] == word[1..] + rest;
      WordLengthOf(word[1..], rest);
    }
  }

  lemma {:induction false} CommentLengthOf(t: string, rest: string)
    requires ClosesOnce(t)
    ensures CommentLength(t + "*/" + rest) == Some(|t| + 2)
  {
    var s := t + "*/" + rest;
    if t != "" {
      assert s[1..] == t[1..] + "*/" + rest;
      assert t[1..] != "" ==> t[1..][|t| - 2] == t[|t| - 1];
      CommentLengthOf(t[1..], rest);
    }
  }

  lemma PlainTail(t: string)
    requires t != "" && PlainText(t)
    ensures PlainText(t[1..]) && t[0] !in {'"', '\\', '\n'}
    ensures forall rest :: !StartsTrigraph(t + "\"" + rest)
  {
    var u := t[1..];
    assert forall i | 0 <= i < |u| :: u[i] == t[i + 1];
    forall i | 0 <= i <= |u| ensures !StartsTrigraph(u[i..]) {
      assert u[i..] == t[i + 1..];
    }
    assert t[0..] == t;
  }

  lemma {:induction false} StringLengthOf(t: string, rest: string)
    requires PlainText(t)
    ensures StringLength(t + "\"" + rest) == Some(|t|)
  {
    hide PlainText, StartsTrigraph;
    var s := t + "\"" + rest;
    if t == "" {
      QuoteNoTrigraph(s);
    } else {
      assert s[1..] == t[1..] + "\"" + rest;
      PlainTail(t);
      StringLengthOf(t[1..], rest);
    }
  }

  lemma QuoteNoTrigraph(s: string)
    requires s != "" && s[0] == '"'
    ensures !StartsTrigraph(s)
  {}

  lemma {:induction false} LexSpaces(t: string, rest: string)
    requires forall c <- t :: IsSpace(c)
    ensures Lex(t + rest) == Lex(rest)
  {
    if t == "" {
      assert t + rest == rest;
    } else {
      assert (t + rest)[1..] == t[1..] + rest;
      LexSpaces(t[1..], rest);
    }
  }

  lemma LexComment(t: string, rest: string)
    requires ClosesOnce(t)
    ensures Lex("/*" + t + "*/" + rest) == Lex(rest)
  {
    var s := "/*" + t + "*/" + rest;
    CommentLengthOf(t, rest);
    assert s[2..] == t + "*/" + rest;
    assert s[2 + (|t| + 2)..] == rest;
  }

  lemma LexDirective(t: string, rest: string)
    requires '\n' !in t
    ensures Lex("#" + t + "\n" + rest) == Lex(rest)
  {
    var line := "#" + t + "\n";
    assert line[..|line| - 1] == "#" + t;
    LineLengthOf(line, rest);
    assert (line + rest)[|line|..] == rest;
  }

  lemma LexQuoted(t: string, rest: string)
    requires PlainText(t)
    ensures Lex("\"" + t + "\"" + rest) == Prepend([Str(t)], Lex(rest))
  {
    var s := "\"" + t + "\"" + rest;
    StringLengthOf(t, rest);
    assert s[1..] == t + "\"" + rest;
    assert s[1..][..|t|] == t && s[2 + |t|..] == rest;
  }

  lemma LexWord(t: string, rest: string)
    requires IsIdentifier(t)
    requires rest == "" || !IsWordChar(rest[0])
    ensures Lex(t + rest) == Prepend([Ident(t)], Lex(rest))
  {
    var s := t + rest;
    WordLengthOf(t, rest);
    assert s[0] == t[0] && s[..|t|] == t && s[|t|..] == rest;
  }

  lemma LexConstant(n: nat, rest: string)
    requires rest == "" || !IsWordChar(rest[0])
    ensures Lex(Decimal(n) + rest) == Prepend([Number(n)], Lex(rest))
  {
    var t := Decimal(n);
    var s := t + rest;
    ReadDecimal(n);
    DecimalRoundTrip(n);
    WordLengthOf(t, rest);
    assert s[0] == t[0] && s[..|t|] == t && s[|t|..] == rest;
  }

  lemma LexMark(c: char, rest: string)
    requires IsPunct(c)
    ensures Lex([c] + rest) == Prepend([Punct(c)], Lex(rest))
  {
    var s := [c] + rest;
    assert s[0] == c && s[1..] == rest;
    assert !IsSpace(c) && !IsDigit(c) && !IsLetter(c);
  }

  lemma LexPiece(p: Piece, rest: string)
    requires p.Valid()
    requires p.IsWord() && rest != "" ==> !IsWordChar(rest[0])
    ensures Lex(p.Spell() + rest) == Prepend(p.Meaning(), Lex(rest))
  {
    hide Lex;
    PrependNothing(Lex(rest));
    match p
    case Space(t) => LexSpaces(t, rest);
    case Comment(t) => LexComment(t, rest);
    case Directive(t) => LexDirective(t, rest);
    case Word(t) => LexWord(t, rest);
    case Constant(n) => LexConstant(n, rest);
    case Quoted(t) => LexQuoted(t, rest);
    case Mark(c) => LexMark(c, rest);
  }

  lemma PrependNothing(b: Option<seq<Token>>)
    ensures Prepend([], b) == b
  {
    if b.Some? { assert [] + b.value == b.value; }
  }

  lemma SpellStart(p: Piece, rest: string)
    requires p.Valid() && !p.IsWord()
    ensures var s := p.Spell() + rest; s != "" && !IsWordChar(s[0])
  {
    if p.Space? { assert p.text[0] in p.text; }
  }

  /** Reading the spelling of well-spaced pieces gives their tokens. */
  lemma {:induction false} LexSpelling(pieces: seq<Piece>)
    requires Spaced(pieces)
    ensures Lex(SpellAll(pieces)) == Some(MeaningAll(pieces))
  {
    hide Lex;
    if pieces == [] {
      LexNothing();
    } else {
      var p, rest := pieces[0], pieces[1..];
      assert p.Valid() by { assert p in pieces; }
      SpacedTail(pieces);
      LexSpelling(rest);
      if rest != [] && p.IsWord() {
        assert !pieces[0 + 1].IsWord();
        SpellStart(rest[0], SpellAll(rest[1..]));
      }
      LexPiece(p, SpellAll(rest));
    }
  }

  lemma LexNothing()
    ensures Lex("") == Some([])
  {}

  lemma SpacedTail(pieces: seq<Piece>)
    requires pieces != [] && Spaced(pieces)
    ensures Spaced(pieces[1..])
  {
    var rest := pieces[1..];
    forall i | 0 <= i < |rest| - 1 && rest[i].IsWord() ensures !rest[i + 1].IsWord() {
      assert pieces[i + 1].IsWord();
    }
  }

  /** A string token never holds a quote, a backslash or a newline. */
  lemma {:induction false} LexStringsArePlain(s: string)
    ensures Lex(s).Some? ==> forall t <- Lex(s).value :: t.Str? ==> PlainText(t.text)
    decreases |s|
  {
    hide PlainText, IntegerConstant;
    if s == "" {
    } else if IsSpace(s[0]) {
      LexStringsArePlain(s[1..]);
    } else if s[0] == '#' {
      LexStringsArePlain(s[LineLength(s)..]);
    } else if |s| > 1 && s[0] == '/' && s[1] == '*' {
      var k := CommentLength(s[2..]);
      if k.Some? { LexStringsArePlain(s[2 + k.value..]); }
    } else if s[0] == '"' {
      var k := StringLength(s[1..]);
      if k.Some? { LexStringsArePlain(s[2 + k.value..]); }
    } else if IsWordChar(s[0]) {
      LexStringsArePlain(s[WordLength(s)..]);
    } else if IsPunct(s[0]) {
      LexStringsArePlain(s[1..]);
    }
  }

  // ---- composing spellings ----

  lemma {:induction false} SpellAllAppend(a: seq<Piece>, b: seq<Piece>)
    ensures SpellAll(a + b) == SpellAll(a) + SpellAll(b)
    ensures MeaningAll(a + b) == MeaningAll(a) + MeaningAll(b)
  {
    hide Piece.Spell, Piece.Meaning;
    if a == [] {
      assert a + b == b;
    } else {
      SpellAllAppend(a[1..], b);
      assert (a + b)[1..] == a[1..] + b && (a + b)[0] == a[0];
    }
  }

  /** Well-spaced pieces that may be followed by anything. */
  predicate Closed(pieces: seq<Piece>) {
    Spaced(pieces) && (pieces != [] ==> !pieces[|pieces| - 1].IsWord())
  }

  lemma ClosedAppend(a: seq<Piece>, b: seq<Piece>)
    requires Closed(a) && Closed(b)
    ensures Closed(a + b)
  {
    var all := a + b;
    forall i | 0 <= i < |all| - 1 && all[i].IsWord() ensures !all[i + 1].IsWord() {
      if i + 1 < |a| { assert a[i].IsWord(); } else if i >= |a| { assert b[i - |a|].IsWord(); }
    }
  }

  lemma SpellCons(p: Piece, rest: seq<Piece>)
    ensures SpellAll([p] + rest) == p.Spell() + SpellAll(rest)
    ensures MeaningAll([p] + rest) == p.Meaning() + MeaningAll(rest)
  {
    hide Piece.Spell, Piece.Meaning;
    assert ([p] + rest)[1..] == rest;
  }

  lemma SpellTwo(a: Piece, b: Piece)
    ensures SpellAll([a, b]) == a.Spell() + b.Spell()
    ensures MeaningAll([a, b]) == a.Meaning() + b.Meaning()
  {
    hide Piece.Spell, Piece.Meaning;
    assert [a, b] == [a] + ([b] + []);
    SpellCons(a, [b] + []);
    SpellCons(b, []);
    assert SpellAll([]) == "" && MeaningAll([]) == [];
  }

  lemma SpellThree(a: Piece, b: Piece, c: Piece)
    ensures SpellAll([a, b, c]) == a.Spell() + b.Spell() + c.Spell()
    ensures MeaningAll([a, b, c]) == a.Meaning() + b.Meaning() + c.Meaning()
  {
    hide Piece.Spell, Piece.Meaning;
    assert [a, b, c] == [a] + [b, c];
    SpellCons(a, [b, c]);
    SpellTwo(b, c);
  }

  lemma ClosedGroup(a: Piece, b: Piece, c: Piece)
    requires a.Valid() && b.Valid() && c.Valid() && !b.IsWord() && !c.IsWord()
    ensures Closed([a, b, c]) && Closed([b, c]) && Closed([c])
  {
    hide Piece.Valid, Piece.IsWord;
  }

  /** Words, each with a space after it. */
  function Words(words: seq<string>): seq<Piece> {
    if words == [] then [] else [Word(words[0]), Space(" ")] + Words(words[1..])
  }

  lemma {:induction false} WordsClosed(words: seq<string>)
    requires forall w <- words :: IsIdentifier(w)
    ensures Closed(Words(words))
    ensures forall p <- Words(words) :: p == Space(" ") || (p.Word? && p.text in words)
  {
    hide Closed, IsIdentifier;
    if words == [] {
      NoPieces();
    } else {
      WordsClosed(words[1..]);
      assert words[0] in words;
      OneWordClosed(words[0]);
      ClosedAppend([Word(words[0]), Space(" ")], Words(words[1..]));
    }
  }

  lemma OneWordClosed(w: string)
    requires IsIdentifier(w)
    ensures Closed([Word(w), Space(" ")])
  {
    hide IsIdentifier;
  }

  lemma NoPieces()
    ensures SpellAll([]) == "" && MeaningAll([]) == [] && Closed([])
  {}

  /** No piece spells the given word. */
  predicate Avoids(pieces: seq<Piece>, word: string) {
    forall p <- pieces :: p != Word(word)
  }

  lemma {:induction false} MeaningAvoids(pieces: seq<Piece>, word: string)
    requires Avoids(pieces, word)
    ensures Ident(word) !in MeaningAll(pieces)
  {
    if pieces != [] {
      assert pieces[0] in pieces && forall p <- pieces[1..] :: p in pieces;
      MeaningAvoids(pieces[1..], word);
    }
  }
}
