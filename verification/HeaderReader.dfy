/** Reading the generated header back as C initializers (section 6.7.9 of ISO C11), as the icon runtime's
    compiler does, and looking an application's icon up in it. */
module HeaderReader {
  import opened Text
  import opened MachineWords
  import opened CSyntax
  import opened Wrappers
  import opened IconPack
  import opened IconHeader

  datatype Header = Header(blob: seq<byte>, icons: seq<Icon>)

  // ---- the reader ----

  /** What follows `name[] = {` in a translation unit. */
  function AfterDeclarator(ts: seq<Token>, name: string): (r: Option<seq<Token>>)
    ensures r.Some? ==> forall t <- r.value :: t in ts
  {
    if |ts| < 5 then None
    else if ts[..5] == [Ident(name), Punct('['), Punct(']'), Punct('='), Punct('{')] then Some(ts[5..])
    else AfterDeclarator(ts[1..], name)
  }

  /** The list of an `unsigned char` array: at least one constant, reduced to a byte; a last comma may
      precede the closing brace. */
  function ReadBytes(ts: seq<Token>): (r: Option<(seq<byte>, seq<Token>)>)
    ensures r.Some? ==> r.value.0 != [] && forall t <- r.value.1 :: t in ts
  {
    if |ts| < 2 || !ts[0].Number? then None
    else
      var b := ts[0].value % 256;
      if ts[1] == Punct('}') then Some(([b], ts[2..]))
      else if ts[1] != Punct(',') then None
      else if |ts| > 2 && ts[2] == Punct('}') then Some(([b], ts[3..]))
      else
        var more :- ReadBytes(ts[2..]);
        Some(([b] + more.0, more.1))
  }

  /** One `{ "name", off, len }`, its numbers reduced to `uint32_t`. */
  function ReadEntry(ts: seq<Token>): (r: Option<Icon>)
    requires |ts| >= 7
    ensures r.Some? ==> Str(r.value.name) in ts && r.value.off < WORD && r.value.len < WORD
  {
    if && ts[0] == Punct('{') && ts[1].Str? && ts[2] == Punct(',') && ts[3].Number?
       && ts[4] == Punct(',') && ts[5].Number? && ts[6] == Punct('}')
    then
      assert ts[1] == Str(ts[1].text);
      Some(Icon(ts[1].text, ts[3].value % WORD, ts[5].value % WORD))
    else None
  }

  /** The list of the index: at least one entry; a last comma may precede the closing brace. */
  function ReadIcons(ts: seq<Token>): (r: Option<(seq<Icon>, seq<Token>)>)
    ensures r.Some? ==>
              && r.value.0 != []
              && forall icon <- r.value.0 :: Str(icon.name) in ts && icon.off < WORD && icon.len < WORD
  {
    if |ts| < 8 then None
    else
      var icon :- ReadEntry(ts);
      if ts[7] == Punct('}') then Some(([icon], ts[8..]))
      else if ts[7] != Punct(',') then None
      else if |ts| > 8 && ts[8] == Punct('}') then Some(([icon], ts[9..]))
      else
        var more :- ReadIcons(ts[8..]);
        Some(([icon] + more.0, more.1))
  }

  predicate EndsDeclaration(ts: seq<Token>) {
    ts != [] && ts[0] == Punct(';')
  }

  /** The two tables of a header file. */
  function ReadHeader(text: string): Option<Header> {
    var ts :- Lex(text);
    var list :- AfterDeclarator(ts, "nz_blob");
    var (blob, rest) :- ReadBytes(list);
    if !EndsDeclaration(rest) then None
    else
      var table :- AfterDeclarator(rest, "nz_icons");
      var (icons, end) :- ReadIcons(table);
      if !EndsDeclaration(end) then None else Some(Header(blob, icons))
  }

  /** The runtime's lookup: the bytes of the first entry with the name. */
  function LookUp(blob: seq<byte>, icons: seq<Icon>, name: string): Option<seq<byte>> {
    if icons == [] then None
    else if icons[0].name == name then
      if icons[0].off + icons[0].len <= |blob| then Some(Slice(blob, icons[0])) else None
    else LookUp(blob, icons[1..], name)
  }

  // ---- what reading can never give ----

  /** Whatever is read has at least one byte and one entry, plain names, and 32-bit numbers. */
  lemma ReadHeaderShape(text: string)
    ensures ReadHeader(text).Some? ==>
              var h := ReadHeader(text).value;
              h.blob != [] && h.icons != [] && Readable(h.icons)
  {
    hide Lex, PlainText, AfterDeclarator, ReadBytes, ReadIcons;
    LexStringsArePlain(text);
    if ReadHeader(text).Some? {
      var ts := Lex(text).value;
      assert forall icon <- ReadHeader(text).value.icons :: Str(icon.name) in ts;
    }
  }

  /** Entries a header can carry: names without quote, backslash, newline or trigraph, numbers below 2^32. */
  predicate Readable(icons: seq<Icon>) {
    forall icon <- icons :: PlainText(icon.name) && icon.off < WORD && icon.len < WORD
  }

  // ---- the printed header as tokens ----

  function ByteTokens(blob: seq<byte>): seq<Token> {
    if blob == [] then [] else [Number(blob[0]), Punct(',')] + ByteTokens(blob[1..])
  }

  function EntryTokens(icon: Icon): seq<Token> {
    [Punct('{'), Str(icon.name), Punct(','), Number(icon.off), Punct(','), Number(icon.len), Punct('}'), Punct(',')]
  }

  function IconTokens(icons: seq<Icon>): seq<Token> {
    if icons == [] then [] else EntryTokens(icons[0]) + IconTokens(icons[1..])
  }

  lemma {:induction false} ByteTokensAppend(a: seq<byte>, b: byte)
    ensures ByteTokens(a + [b]) == ByteTokens(a) + [Number(b), Punct(',')]
  {
    if a == [] {
      assert ByteTokens([b][1..]) == [];
      assert a + [b] == [b];
    } else {
      assert (a + [b])[1..] == a[1..] + [b];
      ByteTokensAppend(a[1..], b);
    }
  }

  lemma {:induction false} IconTokensAppend(a: seq<Icon>, icon: Icon)
    ensures IconTokens(a + [icon]) == IconTokens(a) + EntryTokens(icon)
  {
    hide EntryTokens;
    if a == [] {
      assert a + [icon] == [icon];
      assert IconTokens([icon]) == EntryTokens(icon) + IconTokens([]);
    } else {
      assert (a + [icon])[1..] == a[1..] + [icon];
      IconTokensAppend(a[1..], icon);
    }
  }

  lemma RowMeaning(i: nat, b: byte)
    ensures MeaningAll(Row(i, b)) == [Number(b), Punct(',')] && Closed(Row(i, b))
  {
    hide MeaningAll, SpellAll, Closed;
    SpellTwo(Constant(b), Mark(','));
    SpellThree(Space("\n    "), Constant(b), Mark(','));
    PairClosed(b);
    if i % 20 == 0 {
      assert Row(i, b) == [Space("\n    ")] + [Constant(b), Mark(',')];
      assert Row(i, b) == [Space("\n    "), Constant(b), Mark(',')];
      ClosedGroup(Space(" "), Space(" "), Space("\n    "));
      ClosedAppend([Space("\n    ")], [Constant(b), Mark(',')]);
    } else {
      assert Row(i, b) == [Constant(b), Mark(',')];
    }
  }

  lemma PairClosed(b: byte)
    ensures Closed([Constant(b), Mark(',')])
  {}

  lemma {:induction false} BlobRowsMeaning(blob: seq<byte>)
    ensures MeaningAll(BlobRows(blob)) == ByteTokens(blob) && Closed(BlobRows(blob))
  {
    hide Closed, MeaningAll, Row, BlobRows, ByteTokens;
    if blob == [] {
      NoPieces();
      NoBytes();
    } else {
      var init, last := blob[..|blob| - 1], blob[|blob| - 1];
      assert blob == init + [last];
      BlobRowsMeaning(init);
      BlobRowsMeaningStep(init, last);
    }
  }

  lemma BlobRowsMeaningStep(init: seq<byte>, last: byte)
    requires MeaningAll(BlobRows(init)) == ByteTokens(init) && Closed(BlobRows(init))
    ensures MeaningAll(BlobRows(init + [last])) == ByteTokens(init + [last]) && Closed(BlobRows(init + [last]))
  {
    hide Closed, MeaningAll, SpellAll, Row, BlobRows, ByteTokens;
    var rows, row := BlobRows(init), Row(|init|, last);
    RowMeaning(|init|, last);
    BlobRowsStep(init, last);
    SpellAllAppend(rows, row);
    ClosedAppend(rows, row);
    ByteTokensAppend(init, last);
  }

  lemma NoBytes()
    ensures BlobRows([]) == [] && ByteTokens([]) == []
  {}

  lemma BlobRowsStep(init: seq<byte>, last: byte)
    ensures BlobRows(init + [last]) == BlobRows(init) + Row(|init|, last)
  {
    hide Row;
    assert (init + [last])[..|init|] == init;
  }

  lemma EntryMeaning(icon: Icon)
    requires PlainText(icon.name)
    ensures MeaningAll(Entry(icon)) == EntryTokens(icon) && Closed(Entry(icon))
  {
    hide MeaningAll, SpellAll, PlainText, Closed, Piece.Spell;
    var g1, g2 := [Space("    "), Mark('{'), Space(" ")], [Quoted(icon.name), Mark(','), Space(" ")];
    var g3, g4 := [Constant(icon.off), Mark(','), Space(" ")], [Constant(icon.len), Space(" "), Mark('}')];
    var g5 := [Mark(','), Space("\n")];
    SpellAllAppend(g1 + g2 + g3 + g4, g5);
    SpellAllAppend(g1 + g2 + g3, g4);
    SpellAllAppend(g1 + g2, g3);
    SpellAllAppend(g1, g2);
    SpellThree(Space("    "), Mark('{'), Space(" "));
    SpellThree(Quoted(icon.name), Mark(','), Space(" "));
    SpellThree(Constant(icon.off), Mark(','), Space(" "));
    SpellThree(Constant(icon.len), Space(" "), Mark('}'));
    SpellTwo(Mark(','), Space("\n"));
    EntryClosed(icon);
  }

  lemma EntryClosed(icon: Icon)
    requires PlainText(icon.name)
    ensures Closed(Entry(icon))
  {
    hide PlainText, Closed;
    var g1, g2 := [Space("    "), Mark('{'), Space(" ")], [Quoted(icon.name), Mark(','), Space(" ")];
    var g3, g4 := [Constant(icon.off), Mark(','), Space(" ")], [Constant(icon.len), Space(" "), Mark('}')];
    var g5 := [Mark(','), Space("\n")];
    ClosedGroup(Space("    "), Mark('{'), Space(" "));
    ClosedGroup(Quoted(icon.name), Mark(','), Space(" "));
    ClosedGroup(Constant(icon.off), Mark(','), Space(" "));
    ClosedGroup(Constant(icon.len), Space(" "), Mark('}'));
    ClosedGroup(Space(" "), Mark(','), Space("\n"));
    ClosedAppend(g1, g2);
    ClosedAppend(g1 + g2, g3);
    ClosedAppend(g1 + g2 + g3, g4);
    ClosedAppend(g1 + g2 + g3 + g4, g5);
  }

  lemma {:induction false} EntriesMeaning(icons: seq<Icon>)
    requires forall icon <- icons :: PlainText(icon.name)
    ensures MeaningAll(Entries(icons)) == IconTokens(icons) && Closed(Entries(icons))
  {
    hide Closed, MeaningAll, Entry, EntryTokens, PlainText, Entries, IconTokens;
    if icons == [] {
      NoPieces();
      NoEntries();
    } else {
      var i := |icons| - 1;
      assert icons[i] in icons && forall icon <- icons[..i] :: icon in icons;
      EntriesMeaning(icons[..i]);
      EntryMeaning(icons[i]);
      EntriesStep(icons);
      SpellAllAppend(Entries(icons[..i]), Entry(icons[i]));
      ClosedAppend(Entries(icons[..i]), Entry(icons[i]));
      assert icons[..i] + [icons[i]] == icons;
      IconTokensAppend(icons[..i], icons[i]);
    }
  }

  lemma NoEntries()
    ensures Entries([]) == [] && IconTokens([]) == []
  {}

  lemma EntriesStep(icons: seq<Icon>)
    requires icons != []
    ensures var i := |icons| - 1; Entries(icons) == Entries(icons[..i]) + Entry(icons[i])
  {
    hide Entry;
  }

  // ---- the fixed parts ----

  lemma CommentStartLacks()
    ensures AllLack([" Nordzy icon", " theme subset", " (https://", "github.com/", "MolassesLover/", "Nordzy-icon)\n "],
                    {'*'})
  {}

  lemma CommentEndLacks()
    ensures AllLack([" GPL-3.0 \U{2014}", " rendered at ", Decimal(SIZE), "px, packed by", " tools/", "pack_icons.py "],
                    {'*'})
  {
    hide Decimal;
    SizeLacks();
  }

  lemma SizeLacks()
    ensures Lacks(Decimal(SIZE), {'*'})
  {
    hide Decimal;
    ReadDecimal(SIZE);
    var d := Decimal(SIZE);
    forall i | 0 <= i < |d| ensures d[i] !in {'*'} {
      assert d[i] in d;
    }
  }

  lemma CommentCloses()
    ensures ClosesOnce(CommentText())
  {
    hide AllLack;
    var a := [" Nordzy icon", " theme subset", " (https://", "github.com/", "MolassesLover/", "Nordzy-icon)\n "];
    var b := [" GPL-3.0 \U{2014}", " rendered at ", Decimal(SIZE), "px, packed by", " tools/", "pack_icons.py "];
    CommentStartLacks();
    CommentEndLacks();
    ConcatLacks(a, {'*'});
    ConcatLacks(b, {'*'});
    assert Concat(b)[0] == b[0][0] == ' ';
    OneStar(Concat(a), Concat(b));
  }

  lemma OneStar(a: string, b: string)
    requires Lacks(a, {'*'}) && Lacks(b, {'*'}) && b != "" && b[0] != '/'
    ensures ClosesOnce(a + "*" + b)
  {
    var t := a + "*" + b;
    assert forall i | 0 <= i < |a| :: t[i] == a[i];
    assert forall i | |a| < i < |t| :: t[i] == b[i - |a| - 1];
  }

  /** Well-spaced pieces that declare neither table. */
  predicate Prelude(pieces: seq<Piece>) {
    Closed(pieces) && Avoids(pieces, "nz_blob") && Avoids(pieces, "nz_icons")
  }

  lemma PreludeAppend(a: seq<Piece>, b: seq<Piece>)
    requires Prelude(a) && Prelude(b)
    ensures Prelude(a + b)
  {
    hide Closed;
    ClosedAppend(a, b);
  }

  lemma OpeningIsPrelude()
    ensures Prelude(Opening())
  {
    hide ClosesOnce, Prelude, CommentText;
    CommentCloses();
    DirectivesArePrelude();
    PreludeAppend([Comment(CommentText()), Space("\n")],
                  [Directive("ifndef " + GUARD), Directive("define " + GUARD), Space("\n")]);
    PreludeAppend([Comment(CommentText()), Space("\n")]
                  + [Directive("ifndef " + GUARD), Directive("define " + GUARD), Space("\n")],
                  [Directive("include <stdint.h>"), Space("\n")]);
  }

  lemma DirectivesValid()
    ensures Directive("ifndef " + GUARD).Valid() && Directive("define " + GUARD).Valid()
    ensures Directive("include <stdint.h>").Valid()
  {
    hide GUARD;
    GuardIsOneLine();
    assert '\n' !in "include <stdint.h>";
    assert '\n' !in "ifndef " && '\n' !in "define ";
  }

  lemma GuardIsOneLine()
    ensures '\n' !in GUARD
  {}

  lemma BlanksValid()
    ensures Space(" ").Valid() && Space("\n").Valid() && Space("\n\n").Valid()
  {}

  lemma DirectivesArePrelude()
    requires ClosesOnce(CommentText())
    ensures Prelude([Comment(CommentText()), Space("\n")])
    ensures Prelude([Directive("ifndef " + GUARD), Directive("define " + GUARD), Space("\n")])
    ensures Prelude([Directive("include <stdint.h>"), Space("\n")])
  {
    hide Closed, Piece.Valid, CommentText, GUARD;
    DirectivesValid();
    BlanksValid();
    CommentValid();
    ClosedGroup(Space(" "), Comment(CommentText()), Space("\n"));
    ClosedGroup(Directive("ifndef " + GUARD), Directive("define " + GUARD), Space("\n"));
    ClosedGroup(Space(" "), Directive("include <stdint.h>"), Space("\n"));
  }

  lemma CommentValid()
    requires ClosesOnce(CommentText())
    ensures Comment(CommentText()).Valid()
  {
    hide ClosesOnce, CommentText;
  }

  lemma WordsArePrelude(words: seq<string>)
    requires forall w <- words :: IsIdentifier(w)
    requires "nz_blob" !in words && "nz_icons" !in words
    ensures Prelude(Words(words))
  {
    hide IsIdentifier, Closed;
    WordsClosed(words);
  }

  lemma MarkedIsPrelude(word: string, mark: char, blank: string)
    requires IsIdentifier(word) && IsPunct(mark) && Space(blank).Valid()
    requires word != "nz_blob" && word != "nz_icons"
    ensures Prelude(Marked(word, mark, blank))
  {
    hide IsIdentifier, Closed, IsPunct;
    ClosedGroup(Word(word), Mark(mark), Space(blank));
  }

  lemma TypeWords()
    ensures IsIdentifier("typedef") && IsIdentifier("struct") && IsIdentifier("const") && IsIdentifier("uint32_t")
    ensures IsIdentifier("char") && IsIdentifier("name") && IsIdentifier("off") && IsIdentifier("len")
    ensures IsIdentifier("nz_icon_t")
  {}

  lemma TableWords()
    ensures IsIdentifier("static") && IsIdentifier("unsigned") && IsIdentifier("nz_blob") && IsIdentifier("nz_icons")
  {}

  lemma BracesArePrelude()
    ensures Prelude([Mark('{'), Space(" ")]) && Prelude([Mark('}'), Space(" ")])
  {
    hide Closed;
    BlanksValid();
    ClosedGroup(Space(" "), Mark('{'), Space(" "));
    ClosedGroup(Space(" "), Mark('}'), Space(" "));
  }

  lemma IconTypeIsPrelude()
    ensures Prelude(IconType())
  {
    hide IsIdentifier, Prelude, Words, Marked, Piece.Valid;
    TypeWords();
    BlanksValid();
    BracesArePrelude();
    WordsArePrelude(["typedef", "struct"]);
    WordsArePrelude(["const"]);
    WordsArePrelude(["uint32_t"]);
    MarkedIsPrelude("char", '*', " ");
    MarkedIsPrelude("name", ';', " ");
    MarkedIsPrelude("off", ',', " ");
    MarkedIsPrelude("len", ';', " ");
    MarkedIsPrelude("nz_icon_t", ';', "\n\n");
    var p := Words(["typedef", "struct"]) + [Mark('{'), Space(" ")];
    PreludeAppend(Words(["typedef", "struct"]), [Mark('{'), Space(" ")]);
    PreludeAppend(p, Words(["const"]));
    PreludeAppend(p + Words(["const"]), Marked("char", '*', " "));
    p := p + Words(["const"]) + Marked("char", '*', " ");
    PreludeAppend(p, Marked("name", ';', " "));
    PreludeAppend(p + Marked("name", ';', " "), Words(["uint32_t"]));
    p := p + Marked("name", ';', " ") + Words(["uint32_t"]);
    PreludeAppend(p, Marked("off", ',', " "));
    PreludeAppend(p + Marked("off", ',', " "), Marked("len", ';', " "));
    p := p + Marked("off", ',', " ") + Marked("len", ';', " ");
    PreludeAppend(p, [Mark('}'), Space(" ")]);
    PreludeAppend(p + [Mark('}'), Space(" ")], Marked("nz_icon_t", ';', "\n\n"));
  }

  lemma TableTypesArePrelude()
    ensures Prelude(BlobType()) && Prelude(IndexType())
  {
    hide IsIdentifier, Prelude, Words;
    TypeWords();
    TableWords();
    WordsArePrelude(["static", "const", "unsigned", "char"]);
    WordsArePrelude(["static", "const", "nz_icon_t"]);
  }

  function DeclaratorTokens(name: string): seq<Token> {
    [Ident(name), Punct('['), Punct(']'), Punct('='), Punct('{')]
  }

  lemma DeclaratorMeaning(name: string)
    requires IsIdentifier(name)
    ensures MeaningAll(Declarator(name)) == DeclaratorTokens(name) && Closed(Declarator(name))
  {
    hide MeaningAll, SpellAll, IsIdentifier, Closed;
    var g1, g2, g3 := [Word(name), Mark('['), Mark(']')], [Space(" "), Mark('='), Space(" ")], [Mark('{')];
    assert Declarator(name) == g1 + g2 + g3;
    BlanksValid();
    SpellAllAppend(g1 + g2, g3);
    SpellAllAppend(g1, g2);
    SpellThree(Word(name), Mark('['), Mark(']'));
    SpellThree(Space(" "), Mark('='), Space(" "));
    OneMark('{');
    ClosedGroup(Word(name), Mark('['), Mark(']'));
    ClosedGroup(Space(" "), Mark('='), Space(" "));
    ClosedGroup(Space(" "), Space(" "), Mark('{'));
    ClosedAppend(g1, g2);
    ClosedAppend(g1 + g2, g3);
  }

  lemma OneMark(c: char)
    ensures MeaningAll([Mark(c)]) == [Punct(c)]
  {
    assert [Mark(c)] == [Mark(c)] + [];
    SpellCons(Mark(c), []);
  }

  lemma BlobClosingMeaning()
    ensures MeaningAll(BlobClosing()) == [Punct('}'), Punct(';')] && Closed(BlobClosing())
  {
    hide MeaningAll, SpellAll, Closed;
    assert BlobClosing() == [Space("\n"), Mark('}'), Mark(';')] + [Space("\n\n")];
    BlanksValid();
    SpellAllAppend([Space("\n"), Mark('}'), Mark(';')], [Space("\n\n")]);
    SpellThree(Space("\n"), Mark('}'), Mark(';'));
    BlankMeaning("\n\n");
    ClosedGroup(Space("\n"), Mark('}'), Mark(';'));
    ClosedGroup(Space("\n"), Space("\n"), Space("\n\n"));
    ClosedAppend([Space("\n"), Mark('}'), Mark(';')], [Space("\n\n")]);
  }

  lemma BlankMeaning(t: string)
    ensures MeaningAll([Space(t)]) == []
  {}

  lemma ClosingMeaning()
    ensures MeaningAll(Closing()) == [Punct('}'), Punct(';')] && Closed(Closing())
  {
    hide MeaningAll, SpellAll, Closed;
    var end := Directive("endif");
    assert Closing() == [Mark('}'), Mark(';'), Space("\n\n")] + [end];
    BlanksValid();
    SpellAllAppend([Mark('}'), Mark(';'), Space("\n\n")], [end]);
    SpellThree(Mark('}'), Mark(';'), Space("\n\n"));
    SpellCons(end, []);
    NoPieces();
    assert [end] + [] == [end];
    ClosedGroup(Mark('}'), Mark(';'), Space("\n\n"));
    ClosedGroup(Space("\n"), Space("\n"), end);
    ClosedAppend([Mark('}'), Mark(';'), Space("\n\n")], [end]);
  }

  // ---- parsing the tokens ----

  lemma {:induction false} AfterDeclaratorFinds(pre: seq<Token>, name: string, rest: seq<Token>)
    requires Ident(name) !in pre
    ensures AfterDeclarator(pre + DeclaratorTokens(name) + rest, name) == Some(rest)
  {
    var ts := pre + DeclaratorTokens(name) + rest;
    if pre == [] {
      assert ts[..5] == DeclaratorTokens(name) && ts[5..] == rest;
    } else {
      assert ts[0] == pre[0] && ts[..5][0] == ts[0];
      assert ts[1..] == pre[1..] + DeclaratorTokens(name) + rest;
      AfterDeclaratorFinds(pre[1..], name, rest);
    }
  }

  lemma ReadBytesStep(b: byte, more: seq<Token>)
    requires more != []
    ensures var r := ReadBytes([Number(b), Punct(',')] + more);
            && (more[0] == Punct('}') ==> r == Some(([b], more[1..])))
            && (more[0] != Punct('}') && ReadBytes(more).Some? ==>
                  r == Some(([b] + ReadBytes(more).value.0, ReadBytes(more).value.1)))
  {
    var ts := [Number(b), Punct(',')] + more;
    assert ts[2..] == more && ts[2] == more[0] && ts[3..] == more[1..];
    assert b % 256 == b;
  }

  lemma {:induction false} ReadBytesFinds(blob: seq<byte>, rest: seq<Token>)
    requires blob != []
    ensures ReadBytes(ByteTokens(blob) + [Punct('}')] + rest) == Some((blob, rest))
  {
    hide ReadBytes;
    var more := ByteTokens(blob[1..]) + [Punct('}')] + rest;
    assert ByteTokens(blob) + [Punct('}')] + rest == [Number(blob[0]), Punct(',')] + more;
    ReadBytesStep(blob[0], more);
    if |blob| == 1 {
      assert ByteTokens(blob[1..]) == [];
      assert more[0] == Punct('}') && more[1..] == rest && [blob[0]] == blob;
    } else {
      ReadBytesFinds(blob[1..], rest);
      assert more[0] == Number(blob[1]) && [blob[0]] + blob[1..] == blob;
    }
  }

  lemma ReadIconsStep(icon: Icon, more: seq<Token>)
    requires icon.off < WORD && icon.len < WORD && more != []
    ensures var r := ReadIcons(EntryTokens(icon) + more);
            && (more[0] == Punct('}') ==> r == Some(([icon], more[1..])))
            && (more[0] != Punct('}') && ReadIcons(more).Some? ==>
                  r == Some(([icon] + ReadIcons(more).value.0, ReadIcons(more).value.1)))
  {
    var ts := EntryTokens(icon) + more;
    assert ts[8..] == more && ts[8] == more[0] && ts[9..] == more[1..];
    assert icon.off % WORD == icon.off && icon.len % WORD == icon.len;
    assert ReadEntry(ts) == Some(icon);
  }

  lemma {:induction false} ReadIconsFinds(icons: seq<Icon>, rest: seq<Token>)
    requires icons != [] && forall icon <- icons :: icon.off < WORD && icon.len < WORD
    ensures ReadIcons(IconTokens(icons) + [Punct('}')] + rest) == Some((icons, rest))
  {
    hide ReadIcons, EntryTokens;
    var more := IconTokens(icons[1..]) + [Punct('}')] + rest;
    assert IconTokens(icons) + [Punct('}')] + rest == EntryTokens(icons[0]) + more;
    assert icons[0] in icons;
    ReadIconsStep(icons[0], more);
    if |icons| == 1 {
      assert IconTokens(icons[1..]) == [];
      assert more[0] == Punct('}') && more[1..] == rest && [icons[0]] == icons;
    } else {
      assert forall icon <- icons[1..] :: icon in icons;
      ReadIconsFinds(icons[1..], rest);
      EntryStart(icons[1]);
      assert more[0] == Punct('{') && [icons[0]] + icons[1..] == icons;
    }
  }

  lemma EntryStart(icon: Icon)
    ensures |EntryTokens(icon)| == 8 && EntryTokens(icon)[0] == Punct('{')
  {}

  // ---- the round trip ----

  lemma BlobPartMeaning(blob: seq<byte>) returns (pre: seq<Token>)
    ensures MeaningAll(BlobPart(blob)) == pre + DeclaratorTokens("nz_blob") + ByteTokens(blob)
    ensures Ident("nz_blob") !in pre
    ensures Closed(BlobPart(blob))
  {
    hide MeaningAll, Closed, Opening, IconType, BlobType, Declarator, BlobRows, IsIdentifier;
    var p := Opening() + IconType() + BlobType();
    OpeningIsPrelude();
    IconTypeIsPrelude();
    TableTypesArePrelude();
    PreludeAppend(Opening(), IconType());
    PreludeAppend(Opening() + IconType(), BlobType());
    TableWords();
    DeclaratorMeaning("nz_blob");
    BlobRowsMeaning(blob);
    MeaningAvoids(p, "nz_blob");
    pre := MeaningAll(p);
    SpellAllAppend(p, Declarator("nz_blob"));
    SpellAllAppend(p + Declarator("nz_blob"), BlobRows(blob));
    ClosedAppend(p, Declarator("nz_blob"));
    ClosedAppend(p + Declarator("nz_blob"), BlobRows(blob));
  }

  lemma IndexStartMeaning() returns (pre: seq<Token>)
    ensures MeaningAll(IndexStart()) == [Punct('}'), Punct(';')] + pre + DeclaratorTokens("nz_icons")
    ensures Ident("nz_icons") !in pre
    ensures Closed(IndexStart())
  {
    hide MeaningAll, Closed, BlobClosing, IndexType, Declarator, IsIdentifier;
    BlobClosingMeaning();
    TableTypesArePrelude();
    TableWords();
    DeclaratorMeaning("nz_icons");
    MeaningAvoids(IndexType(), "nz_icons");
    BlankMeaning("\n");
    BlanksValid();
    ClosedGroup(Space("\n"), Space("\n"), Space("\n"));
    pre := MeaningAll(IndexType());
    SpellAllAppend(BlobClosing(), IndexType());
    SpellAllAppend(BlobClosing() + IndexType(), Declarator("nz_icons"));
    SpellAllAppend(BlobClosing() + IndexType() + Declarator("nz_icons"), [Space("\n")]);
    ClosedAppend(BlobClosing(), IndexType());
    ClosedAppend(BlobClosing() + IndexType(), Declarator("nz_icons"));
    ClosedAppend(BlobClosing() + IndexType() + Declarator("nz_icons"), [Space("\n")]);
  }

  /** The tokens a compiler sees in the printed header. */
  lemma HeaderTokens(blob: seq<byte>, icons: seq<Icon>) returns (pre: seq<Token>, mid: seq<Token>)
    requires forall icon <- icons :: PlainText(icon.name)
    ensures Lex(HeaderText(blob, icons)) ==
            Some(pre + DeclaratorTokens("nz_blob") + ByteTokens(blob) + [Punct('}')] +
                 ([Punct(';')] + mid + DeclaratorTokens("nz_icons") + IconTokens(icons) + [Punct('}')] + [Punct(';')]))
    ensures Ident("nz_blob") !in pre && Ident("nz_icons") !in mid
  {
    hide MeaningAll, Closed, BlobPart, IndexStart, Entries, Closing, Lex, SpellAll, PlainText;
    pre := BlobPartMeaning(blob);
    mid := IndexStartMeaning();
    EntriesMeaning(icons);
    ClosingMeaning();
    SpellAllAppend(BlobPart(blob), IndexStart());
    SpellAllAppend(BlobPart(blob) + IndexStart(), Entries(icons));
    SpellAllAppend(BlobPart(blob) + IndexStart() + Entries(icons), Closing());
    ClosedAppend(BlobPart(blob), IndexStart());
    ClosedAppend(BlobPart(blob) + IndexStart(), Entries(icons));
    ClosedAppend(BlobPart(blob) + IndexStart() + Entries(icons), Closing());
    LexClosed(HeaderPieces(blob, icons));
    var a := pre + DeclaratorTokens("nz_blob") + ByteTokens(blob);
    Regroup(a, mid, DeclaratorTokens("nz_icons"), IconTokens(icons));
  }

  lemma LexClosed(pieces: seq<Piece>)
    requires Closed(pieces)
    ensures Lex(SpellAll(pieces)) == Some(MeaningAll(pieces))
  {
    hide Lex, SpellAll, MeaningAll;
    LexSpelling(pieces);
  }

  lemma Regroup(a: seq<Token>, mid: seq<Token>, d: seq<Token>, icons: seq<Token>)
    ensures a + ([Punct('}'), Punct(';')] + mid + d) + icons + [Punct('}'), Punct(';')] ==
            a + [Punct('}')] + ([Punct(';')] + mid + d + icons + [Punct('}')] + [Punct(';')])
  {
    var b := mid + d + icons;
    assert [Punct('}'), Punct(';')] == [Punct('}')] + [Punct(';')];
    assert [Punct('}'), Punct(';')] + mid + d + icons == [Punct('}')] + ([Punct(';')] + mid + d + icons);
    assert a + ([Punct('}'), Punct(';')] + mid + d) + icons == a + ([Punct('}'), Punct(';')] + mid + d + icons);
  }

  /** The printed header reads back as exactly what was printed if and only if there is at least one byte
      and one entry, every name is plain, and every offset and length fits 32 bits. */
  lemma HeaderRoundTrip(blob: seq<byte>, icons: seq<Icon>)
    ensures ReadHeader(HeaderText(blob, icons)) == Some(Header(blob, icons))
            <==> blob != [] && icons != [] && Readable(icons)
  {
    hide Lex, HeaderText, AfterDeclarator, ReadBytes, ReadIcons, PlainText, ByteTokens, IconTokens, DeclaratorTokens;
    ReadHeaderShape(HeaderText(blob, icons));
    if blob != [] && icons != [] && Readable(icons) {
      var pre, mid := HeaderTokens(blob, icons);
      var rest := [Punct(';')] + mid + DeclaratorTokens("nz_icons") + IconTokens(icons) + [Punct('}')] + [Punct(';')];
      var bytes := ByteTokens(blob) + [Punct('}')] + rest;
      assert pre + DeclaratorTokens("nz_blob") + ByteTokens(blob) + [Punct('}')] + rest
             == pre + DeclaratorTokens("nz_blob") + bytes;
      AfterDeclaratorFinds(pre, "nz_blob", bytes);
      ReadBytesFinds(blob, rest);
      var table := IconTokens(icons) + [Punct('}')] + [Punct(';')];
      assert rest == ([Punct(';')] + mid) + DeclaratorTokens("nz_icons") + table;
      AfterDeclaratorFinds([Punct(';')] + mid, "nz_icons", table);
      ReadIconsFinds(icons, [Punct(';')]);
    }
  }
}
