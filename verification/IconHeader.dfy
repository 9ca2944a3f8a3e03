/** tools/pack_icons.py, the printing half: the generated C header, and what a C reader gets back from it. */
module IconHeader {
  import opened Text
  import opened MachineWords
  import opened CSyntax
  import opened IconPack

  const SIZE := 48
  const GUARD := "NORDZY_ICONS_H"

  // ---- printing ----

  /** The generated file's opening comment. */
  function CommentText(): string {
    Concat([" Nordzy icon", " theme subset", " (https://", "github.com/", "MolassesLover/", "Nordzy-icon)\n "])
    + "*"
    + Concat([" GPL-3.0 \U{2014}", " rendered at ", Decimal(SIZE), "px, packed by", " tools/", "pack_icons.py "])
  }

  function Opening(): seq<Piece> {
    [Comment(CommentText()), Space("\n")]
    + [Directive("ifndef " + GUARD), Directive("define " + GUARD), Space("\n")]
    + [Directive("include <stdint.h>"), Space("\n")]
  }

  /** A word, a mark and a blank. */
  function Marked(word: string, mark: char, blank: string): seq<Piece> {
    [Word(word), Mark(mark), Space(blank)]
  }

  function IconType(): seq<Piece> {
    Words(["typedef", "struct"]) + [Mark('{'), Space(" ")]
    + Words(["const"]) + Marked("char", '*', " ") + Marked("name", ';', " ")
    + Words(["uint32_t"]) + Marked("off", ',', " ") + Marked("len", ';', " ")
    + [Mark('}'), Space(" ")] + Marked("nz_icon_t", ';', "\n\n")
  }

  function BlobType(): seq<Piece> {
    Words(["static", "const", "unsigned", "char"])
  }

  function Declarator(name: string): seq<Piece> {
    [Word(name), Mark('['), Mark(']'), Space(" "), Mark('='), Space(" "), Mark('{')]
  }

  /** Byte i of the blob and its comma, on a new line every twenty bytes. */
  function Row(i: nat, b: byte): seq<Piece> {
    (if i % 20 == 0 then [Space("\n    ")] else []) + [Constant(b), Mark(',')]
  }

  /** The blob's bytes, each with its comma, twenty to a row. */
  function BlobRows(blob: seq<byte>): seq<Piece> {
    if blob == [] then []
    else
      var i := |blob| - 1;
      BlobRows(blob[..i]) + Row(i, blob[i])
  }

  function BlobClosing(): seq<Piece> {
    [Space("\n"), Mark('}'), Mark(';'), Space("\n\n")]
  }

  function IndexType(): seq<Piece> {
    Words(["static", "const", "nz_icon_t"])
  }

  /** One initializer of the index. */
  function Entry(icon: Icon): seq<Piece> {
    [Space("    "), Mark('{'), Space(" ")]
    + [Quoted(icon.name), Mark(','), Space(" ")]
    + [Constant(icon.off), Mark(','), Space(" ")]
    + [Constant(icon.len), Space(" "), Mark('}')]
    + [Mark(','), Space("\n")]
  }

  function Entries(icons: seq<Icon>): seq<Piece> {
    if icons == [] then [] else Entries(icons[..|icons| - 1]) + Entry(icons[|icons| - 1])
  }

  function Closing(): seq<Piece> {
    [Mark('}'), Mark(';'), Space("\n\n"), Directive("endif")]
  }

  function BlobPart(blob: seq<byte>): seq<Piece> {
    Opening() + IconType() + BlobType() + Declarator("nz_blob") + BlobRows(blob)
  }

  function IndexStart(): seq<Piece> {
    BlobClosing() + IndexType() + Declarator("nz_icons") + [Space("\n")]
  }

  function HeaderPieces(blob: seq<byte>, icons: seq<Icon>): seq<Piece> {
    BlobPart(blob) + IndexStart() + Entries(icons) + Closing()
  }

  /** The generated file. */
  function HeaderText(blob: seq<byte>, icons: seq<Icon>): string {
    SpellAll(HeaderPieces(blob, icons))
  }

  // ---- the fixed texts, as they are written ----

  function OpeningText(): string {
    "/*" + CommentText() + "*/\n"
    + ("#ifndef " + GUARD + "\n" + "#define " + GUARD + "\n" + "\n")
    + ("#include " + "<stdint.h>" + "\n\n")
  }

  function IconTypeText(): string {
    "typedef struct " + "{ " + "const " + "char* " + "name; " + "uint32_t " + "off, " + "len; " + "} "
    + "nz_icon_t;\n\n"
  }

  function BlobStartText(): string {
    "static const " + "unsigned char " + "nz_blob" + "[] = {"
  }

  function IndexStartText(): string {
    "\n};\n\n" + ("static const " + "nz_icon_t " + "nz_icons" + "[] = {" + "\n")
  }

  function ClosingText(): string {
    "};\n\n" + "#endif\n"
  }

  /** The printing loops of `main`. */
  method Print(blob: seq<byte>, icons: seq<Icon>) returns (text: string)
    ensures text == HeaderText(blob, icons)
  {
    hide SpellAll, HeaderText, BlobPart, IndexStart, Entries, Decimal, EntryText;
    hide OpeningText, IconTypeText, BlobStartText, IndexStartText, ClosingText;
    text := OpeningText();
    text := text + IconTypeText();
    text := text + BlobStartText();
    PrintStart();
    var i := 0;
    while i < |blob|
      invariant 0 <= i <= |blob|
      invariant text == SpellAll(BlobPart(blob[..i]))
    {
      var b := blob[i];
      BlobStep(blob, i);
      if i % 20 == 0 {
        text := text + "\n    ";
      }
      text := text + (Decimal(b) + ",");
      i := i + 1;
    }
    assert blob[..|blob|] == blob;
    text := text + IndexStartText();
    ghost var before := BlobPart(blob) + IndexStart();
    PrintMiddle(blob);
    i := 0;
    while i < |icons|
      invariant 0 <= i <= |icons|
      invariant text == SpellAll(before + Entries(icons[..i]))
    {
      var icon := icons[i];
      EntryStep(before, icons, i);
      text := text + EntryText(icon);
      i := i + 1;
    }
    assert icons[..|icons|] == icons;
    text := text + ClosingText();
    PrintEnd(blob, icons);
  }

  lemma PrintStart()
    ensures SpellAll(BlobPart([])) == OpeningText() + IconTypeText() + BlobStartText()
  {
    hide SpellAll, Opening, IconType, BlobType, Declarator, BlobPart, OpeningText, IconTypeText, BlobStartText;
    StartPieces();
    OpeningSpelling();
    IconTypeSpelling();
    BlobStartSpelling();
    SpellAllAppend(Opening(), IconType());
    SpellAllAppend(Opening() + IconType(), BlobType() + Declarator("nz_blob"));
  }

  lemma StartPieces()
    ensures BlobPart([]) == Opening() + IconType() + (BlobType() + Declarator("nz_blob"))
  {
    hide Opening, IconType, BlobType, Declarator;
    JoinPieces(Opening() + IconType(), BlobType(), Declarator("nz_blob"));
  }

  lemma JoinPieces(a: seq<Piece>, b: seq<Piece>, c: seq<Piece>)
    ensures a + b + c + [] == a + (b + c)
  {}

  lemma PrintMiddle(blob: seq<byte>)
    ensures SpellAll(BlobPart(blob) + IndexStart() + Entries([])) == SpellAll(BlobPart(blob)) + IndexStartText()
  {
    hide SpellAll, BlobPart, IndexStart, IndexStartText;
    IndexStartSpelling();
    SpellAllAppend(BlobPart(blob), IndexStart());
    assert BlobPart(blob) + IndexStart() + Entries([]) == BlobPart(blob) + IndexStart();
  }

  lemma PrintEnd(blob: seq<byte>, icons: seq<Icon>)
    ensures HeaderText(blob, icons) == SpellAll(BlobPart(blob) + IndexStart() + Entries(icons)) + ClosingText()
  {
    hide SpellAll, BlobPart, IndexStart, Entries, Closing, ClosingText;
    ClosingSpelling();
    SpellAllAppend(BlobPart(blob) + IndexStart() + Entries(icons), Closing());
  }

  // ---- the pieces spell the texts written ----

  lemma OpeningSpelling()
    ensures SpellAll(Opening()) == OpeningText()
  {
    hide SpellAll, CommentText, GUARD;
    var g1 := [Comment(CommentText()), Space("\n")];
    var g2 := [Directive("ifndef " + GUARD), Directive("define " + GUARD), Space("\n")];
    var g3 := [Directive("include <stdint.h>"), Space("\n")];
    SpellAllAppend(g1 + g2, g3);
    SpellAllAppend(g1, g2);
    CommentSpelling(CommentText());
    GuardSpelling(GUARD);
    IncludeSpelling();
  }

  lemma CommentSpelling(t: string)
    ensures SpellAll([Comment(t), Space("\n")]) == "/*" + t + "*/\n"
  {
    hide SpellAll;
    SpellTwo(Comment(t), Space("\n"));
    assert "*/" + "\n" == "*/\n";
    assert "/*" + t + "*/" + "\n" == "/*" + t + ("*/" + "\n");
  }

  lemma GuardSpelling(guard: string)
    ensures SpellAll([Directive("ifndef " + guard), Directive("define " + guard), Space("\n")])
            == "#ifndef " + guard + "\n" + "#define " + guard + "\n" + "\n"
  {
    hide SpellAll;
    SpellThree(Directive("ifndef " + guard), Directive("define " + guard), Space("\n"));
    assert "#" + ("ifndef " + guard) == "#ifndef " + guard;
    assert "#" + ("define " + guard) == "#define " + guard;
    var a, b := "#ifndef " + guard + "\n", "#define " + guard;
    assert a + (b + "\n") + "\n" == a + "#define " + guard + "\n" + "\n";
  }

  lemma IncludeSpelling()
    ensures SpellAll([Directive("include <stdint.h>"), Space("\n")]) == "#include " + "<stdint.h>" + "\n\n"
  {
    hide SpellAll;
    SpellTwo(Directive("include <stdint.h>"), Space("\n"));
    IncludeText();
    JoinInclude("<stdint.h>");
  }

  lemma IncludeText()
    ensures "include <stdint.h>" == "include " + "<stdint.h>"
  {}

  lemma JoinInclude(name: string)
    ensures "#" + ("include " + name) + "\n" + "\n" == "#include " + name + "\n\n"
  {
    assert "#" + ("include " + name) == "#include " + name;
    assert "\n" + "\n" == "\n\n";
    assert "#include " + name + "\n" + "\n" == "#include " + name + ("\n" + "\n");
  }

  lemma IconTypeSpelling()
    ensures SpellAll(IconType()) == IconTypeText()
  {
    hide SpellAll, Words, Marked;
    var g1, g2 := Words(["typedef", "struct"]), [Mark('{'), Space(" ")];
    var g3, g4, g5 := Words(["const"]), Marked("char", '*', " "), Marked("name", ';', " ");
    var g6, g7, g8 := Words(["uint32_t"]), Marked("off", ',', " "), Marked("len", ';', " ");
    var g9, g10 := [Mark('}'), Space(" ")], Marked("nz_icon_t", ';', "\n\n");
    SpellAllAppend(g1 + g2 + g3 + g4 + g5 + g6 + g7 + g8 + g9, g10);
    SpellAllAppend(g1 + g2 + g3 + g4 + g5 + g6 + g7 + g8, g9);
    SpellAllAppend(g1 + g2 + g3 + g4 + g5 + g6 + g7, g8);
    SpellAllAppend(g1 + g2 + g3 + g4 + g5 + g6, g7);
    SpellAllAppend(g1 + g2 + g3 + g4 + g5, g6);
    SpellAllAppend(g1 + g2 + g3 + g4, g5);
    SpellAllAppend(g1 + g2 + g3, g4);
    SpellAllAppend(g1 + g2, g3);
    SpellAllAppend(g1, g2);
    IconTypeGroups();
  }

  lemma IconTypeGroups()
    ensures SpellAll(Words(["typedef", "struct"])) == "typedef struct "
    ensures SpellAll([Mark('{'), Space(" ")]) == "{ " && SpellAll([Mark('}'), Space(" ")]) == "} "
    ensures SpellAll(Words(["const"])) == "const " && SpellAll(Words(["uint32_t"])) == "uint32_t "
    ensures SpellAll(Marked("char", '*', " ")) == "char* " && SpellAll(Marked("name", ';', " ")) == "name; "
    ensures SpellAll(Marked("off", ',', " ")) == "off, " && SpellAll(Marked("len", ';', " ")) == "len; "
    ensures SpellAll(Marked("nz_icon_t", ';', "\n\n")) == "nz_icon_t;\n\n"
  {
    hide SpellAll, Words, Marked;
    IconTypeWords();
    IconTypeMarks();
    NameSpelling();
  }

  lemma IconTypeWords()
    ensures SpellAll(Words(["typedef", "struct"])) == "typedef struct "
    ensures SpellAll([Mark('{'), Space(" ")]) == "{ " && SpellAll([Mark('}'), Space(" ")]) == "} "
    ensures SpellAll(Words(["const"])) == "const " && SpellAll(Words(["uint32_t"])) == "uint32_t "
  {
    hide SpellAll, Words;
    TypedefSpelling();
    OneWordSpelling("const");
    OneWordSpelling("uint32_t");
    SpellTwo(Mark('{'), Space(" "));
    SpellTwo(Mark('}'), Space(" "));
  }

  lemma TypedefSpelling()
    ensures SpellAll(Words(["typedef", "struct"])) == "typedef struct "
  {
    hide SpellAll, Words;
    OneWordSpelling("typedef");
    WordsSpelling(["typedef"], "struct");
    assert ["typedef"] + ["struct"] == ["typedef", "struct"];
    assert "typedef" + " " + "struct" + " " == "typedef struct ";
  }

  lemma IconTypeMarks()
    ensures SpellAll(Marked("char", '*', " ")) == "char* " && SpellAll(Marked("name", ';', " ")) == "name; "
    ensures SpellAll(Marked("off", ',', " ")) == "off, " && SpellAll(Marked("len", ';', " ")) == "len; "
  {
    hide SpellAll, Piece.Spell;
    PointerSpelling();
    FieldSpelling();
  }

  lemma FieldSpelling()
    ensures SpellAll(Marked("off", ',', " ")) == "off, " && SpellAll(Marked("len", ';', " ")) == "len; "
  {
    hide SpellAll;
    SpellThree(Word("off"), Mark(','), Space(" "));
    SpellThree(Word("len"), Mark(';'), Space(" "));
  }

  lemma PointerSpelling()
    ensures SpellAll(Marked("char", '*', " ")) == "char* " && SpellAll(Marked("name", ';', " ")) == "name; "
  {
    hide SpellAll;
    SpellThree(Word("char"), Mark('*'), Space(" "));
    SpellThree(Word("name"), Mark(';'), Space(" "));
  }

  lemma NameSpelling()
    ensures SpellAll(Marked("nz_icon_t", ';', "\n\n")) == "nz_icon_t;\n\n"
  {
    hide SpellAll;
    SpellThree(Word("nz_icon_t"), Mark(';'), Space("\n\n"));
  }

  lemma WordsSpelling(words: seq<string>, last: string)
    ensures SpellAll(Words(words + [last])) == SpellAll(Words(words)) + last + " "
    ensures SpellAll(Words([])) == ""
  {
    hide SpellAll;
    var end := [Word(last), Space(" ")];
    WordsAppend(words, last);
    SpellAllAppend(Words(words), end);
    SpellTwo(Word(last), Space(" "));
    assert SpellAll(Words(words)) + (last + " ") == SpellAll(Words(words)) + last + " ";
    NoPieces();
  }

  lemma OneWordSpelling(word: string)
    ensures SpellAll(Words([word])) == word + " "
  {
    hide SpellAll, Words;
    WordsSpelling([], word);
    assert [] + [word] == [word];
  }

  lemma {:induction false} WordsAppend(words: seq<string>, last: string)
    ensures Words(words + [last]) == Words(words) + [Word(last), Space(" ")]
  {
    if words == [] {
      assert [last][1..] == [] && [] + [last] == [last];
      assert Words([last]) == [Word(last), Space(" ")] + Words([]);
    } else {
      assert (words + [last])[1..] == words[1..] + [last];
      WordsAppend(words[1..], last);
    }
  }

  lemma DeclaratorSpelling(name: string)
    ensures SpellAll(Declarator(name)) == name + "[] = {"
  {
    hide SpellAll;
    var g1, g2 := [Word(name), Mark('['), Mark(']')], [Space(" "), Mark('='), Space(" ")];
    assert Declarator(name) == g1 + g2 + [Mark('{')];
    SpellAllAppend(g1 + g2, [Mark('{')]);
    SpellAllAppend(g1, g2);
    SpellThree(Word(name), Mark('['), Mark(']'));
    EqualsSpelling();
    LastSpelling(Mark('{'));
    JoinDeclarator(name);
  }

  lemma EqualsSpelling()
    ensures SpellAll([Space(" "), Mark('='), Space(" ")]) == " = "
  {
    hide SpellAll;
    SpellThree(Space(" "), Mark('='), Space(" "));
  }

  lemma JoinDeclarator(name: string)
    ensures name + "[" + "]" + " = " + "{" == name + "[] = {"
  {
    assert name + "[" + "]" + " = " + "{" == name + ("[" + "]" + " = " + "{");
    assert "[" + "]" + " = " + "{" == "[] = {";
  }

  lemma LastSpelling(p: Piece)
    ensures SpellAll([p]) == p.Spell()
  {
    hide Piece.Spell;
    SpellCons(p, []);
    assert [p] + [] == [p];
    NoPieces();
  }

  lemma BlobStartSpelling()
    ensures SpellAll(BlobType() + Declarator("nz_blob")) == BlobStartText()
  {
    hide SpellAll, Words, Declarator;
    SpellAllAppend(BlobType(), Declarator("nz_blob"));
    DeclaratorSpelling("nz_blob");
    StaticSpelling();
    WordsSpelling(["static", "const"], "unsigned");
    WordsSpelling(["static", "const", "unsigned"], "char");
    assert ["static", "const"] + ["unsigned"] == ["static", "const", "unsigned"];
    assert ["static", "const", "unsigned"] + ["char"] == ["static", "const", "unsigned", "char"];
    JoinBlobStart("static const ", "nz_blob", "[] = {");
  }

  lemma JoinBlobStart(start: string, name: string, end: string)
    ensures start + "unsigned" + " " + "char" + " " + (name + end) == start + "unsigned char " + name + end
  {
    assert "unsigned" + " " + "char" + " " == "unsigned char ";
    assert start + "unsigned" + " " + "char" + " " == start + ("unsigned" + " " + "char" + " ");
  }

  lemma StaticSpelling()
    ensures SpellAll(Words(["static", "const"])) == "static const "
  {
    hide SpellAll, Words;
    OneWordSpelling("static");
    WordsSpelling(["static"], "const");
    assert ["static"] + ["const"] == ["static", "const"];
  }

  lemma IndexStartSpelling()
    ensures SpellAll(IndexStart()) == IndexStartText()
  {
    hide SpellAll, Words, Declarator, BlobClosing;
    SpellAllAppend(BlobClosing() + IndexType() + Declarator("nz_icons"), [Space("\n")]);
    SpellAllAppend(BlobClosing() + IndexType(), Declarator("nz_icons"));
    SpellAllAppend(BlobClosing(), IndexType());
    BlobClosingSpelling();
    IndexTypeSpelling();
    DeclaratorSpelling("nz_icons");
    LastSpelling(Space("\n"));
    JoinIndexStart("\n};\n\n", "static const ", "nz_icon_t ", "nz_icons");
  }

  lemma JoinIndexStart(a: string, b: string, c: string, name: string)
    ensures a + (b + c) + (name + "[] = {") + "\n" == a + (b + c + name + "[] = {" + "\n")
  {}

  lemma BlobClosingSpelling()
    ensures SpellAll(BlobClosing()) == "\n};\n\n"
  {
    hide SpellAll;
    assert BlobClosing() == [Space("\n")] + [Mark('}'), Mark(';'), Space("\n\n")];
    SpellCons(Space("\n"), [Mark('}'), Mark(';'), Space("\n\n")]);
    EndSpelling();
    assert ['\n'] + "};\n\n" == "\n};\n\n";
  }

  lemma EndSpelling()
    ensures SpellAll([Mark('}'), Mark(';'), Space("\n\n")]) == "};\n\n"
  {
    hide SpellAll;
    SpellThree(Mark('}'), Mark(';'), Space("\n\n"));
  }

  lemma IndexTypeSpelling()
    ensures SpellAll(IndexType()) == "static const " + "nz_icon_t "
  {
    hide SpellAll;
    StaticSpelling();
    WordsSpelling(["static", "const"], "nz_icon_t");
    assert ["static", "const"] + ["nz_icon_t"] == ["static", "const", "nz_icon_t"];
    assert "static const " + "nz_icon_t" + " " == "static const " + ("nz_icon_t" + " ");
  }

  lemma ClosingSpelling()
    ensures SpellAll(Closing()) == ClosingText()
  {
    hide SpellAll;
    assert Closing() == [Mark('}'), Mark(';'), Space("\n\n")] + [Directive("endif")];
    SpellAllAppend([Mark('}'), Mark(';'), Space("\n\n")], [Directive("endif")]);
    EndSpelling();
    LastSpelling(Directive("endif"));
  }

  // ---- the loops ----

  /** '    { "%s", %d, %d },\n' */
  function EntryText(icon: Icon): string {
    "    { " + ("\"" + icon.name + "\", ") + Decimal(icon.off) + ", " + Decimal(icon.len) + " },\n"
  }

  lemma BlobStep(blob: seq<byte>, i: nat)
    requires i < |blob|
    ensures var before := SpellAll(BlobPart(blob[..i]));
            SpellAll(BlobPart(blob[..i + 1]))
            == (if i % 20 == 0 then before + "\n    " else before) + (Decimal(blob[i]) + ",")
  {
    hide SpellAll, Opening, IconType, BlobType, Declarator, Decimal, Row;
    assert blob[..i + 1][..i] == blob[..i];
    assert BlobPart(blob[..i + 1]) == BlobPart(blob[..i]) + Row(i, blob[i]);
    SpellAllAppend(BlobPart(blob[..i]), Row(i, blob[i]));
    RowSpelling(i, blob[i]);
  }

  lemma RowSpelling(i: nat, b: byte)
    ensures SpellAll(Row(i, b)) == (if i % 20 == 0 then "\n    " else "") + (Decimal(b) + ",")
  {
    hide SpellAll, Decimal;
    SpellAllAppend(if i % 20 == 0 then [Space("\n    ")] else [], [Constant(b), Mark(',')]);
    SpellRow(i);
    SpellNumber(b);
  }

  lemma SpellRow(i: nat)
    ensures SpellAll([Space("\n    ")]) == "\n    " && SpellAll([]) == ""
  {}

  lemma SpellNumber(b: byte)
    ensures SpellAll([Constant(b), Mark(',')]) == Decimal(b) + ","
  {
    hide Decimal;
    SpellTwo(Constant(b), Mark(','));
  }

  lemma EntryStep(before: seq<Piece>, icons: seq<Icon>, i: nat)
    requires i < |icons|
    ensures SpellAll(before + Entries(icons[..i + 1])) == SpellAll(before + Entries(icons[..i])) + EntryText(icons[i])
  {
    hide SpellAll, Entry, EntryText;
    assert icons[..i + 1][..i] == icons[..i];
    assert before + Entries(icons[..i + 1]) == before + Entries(icons[..i]) + Entry(icons[i]);
    SpellAllAppend(before + Entries(icons[..i]), Entry(icons[i]));
    EntrySpelling(icons[i]);
  }

  lemma EntrySpelling(icon: Icon)
    ensures SpellAll(Entry(icon)) == EntryText(icon)
  {
    hide SpellAll, Decimal;
    var g1, g2 := [Space("    "), Mark('{'), Space(" ")], [Quoted(icon.name), Mark(','), Space(" ")];
    var g3, g4 := [Constant(icon.off), Mark(','), Space(" ")], [Constant(icon.len), Space(" "), Mark('}')];
    var g5 := [Mark(','), Space("\n")];
    SpellAllAppend(g1 + g2 + g3 + g4, g5);
    SpellAllAppend(g1 + g2 + g3, g4);
    SpellAllAppend(g1 + g2, g3);
    SpellAllAppend(g1, g2);
    EntryGroups(icon);
    JoinGroups("    { ", "\"" + icon.name + "\", ", Decimal(icon.off), Decimal(icon.len));
  }

  lemma EntryGroups(icon: Icon)
    ensures SpellAll([Space("    "), Mark('{'), Space(" ")]) == "    { "
    ensures SpellAll([Quoted(icon.name), Mark(','), Space(" ")]) == "\"" + icon.name + "\", "
    ensures SpellAll([Constant(icon.off), Mark(','), Space(" ")]) == Decimal(icon.off) + ", "
    ensures SpellAll([Constant(icon.len), Space(" "), Mark('}')]) == Decimal(icon.len) + " }"
    ensures SpellAll([Mark(','), Space("\n")]) == ",\n"
  {
    hide SpellAll, MeaningAll, Decimal;
    SpellThree(Space("    "), Mark('{'), Space(" "));
    SpellThree(Quoted(icon.name), Mark(','), Space(" "));
    SpellThree(Constant(icon.off), Mark(','), Space(" "));
    SpellThree(Constant(icon.len), Space(" "), Mark('}'));
    SpellTwo(Mark(','), Space("\n"));
  }

  lemma JoinGroups(open: string, name: string, off: string, len: string)
    ensures open + name + (off + ", ") + (len + " }") + ",\n" == open + name + off + ", " + len + " },\n"
  {}

  // ---- the layout of the printed tables ----

  /** Bytes in C as they are listed in a row. */
  function Listed(row: seq<byte>): string {
    if row == [] then "" else Listed(row[..|row| - 1]) + (Decimal(row[|row| - 1]) + ",")
  }

  /** Up to twenty bytes stand in one row. */
  lemma {:induction false} OneRow(row: seq<byte>)
    requires 0 < |row| <= 20
    ensures SpellAll(BlobRows(row)) == "\n    " + Listed(row)
  {
    hide SpellAll, Row, Decimal;
    var init, last := row[..|row| - 1], row[|row| - 1];
    assert row == init + [last];
    MoreRows(init, last);
    RowSpelling(|init|, last);
    if init == [] { NoRows(); } else { OneRow(init); }
  }

  /** After every twenty bytes a new row begins. */
  lemma {:induction false} RowsOfTwenty(a: seq<byte>, b: seq<byte>)
    requires |a| % 20 == 0
    ensures SpellAll(BlobRows(a + b)) == SpellAll(BlobRows(a)) + SpellAll(BlobRows(b))
  {
    hide SpellAll, Row, BlobRows;
    if b == [] {
      assert a + b == a;
      NoRows();
    } else {
      var init, last := b[..|b| - 1], b[|b| - 1];
      RowsOfTwenty(a, init);
      SameRow(|a|, |init|, last);
      MoreRows(a + init, last);
      MoreRows(init, last);
      assert b == init + [last];
      assert a + b == a + init + [last];
    }
  }

  lemma MoreRows(init: seq<byte>, last: byte)
    ensures SpellAll(BlobRows(init + [last])) == SpellAll(BlobRows(init)) + SpellAll(Row(|init|, last))
  {
    hide SpellAll, Row;
    assert (init + [last])[..|init|] == init;
    SpellAllAppend(BlobRows(init), Row(|init|, last));
  }

  lemma NoRows()
    ensures SpellAll(BlobRows([])) == ""
  {}

  lemma SameRow(n: nat, i: nat, b: byte)
    requires n % 20 == 0
    ensures Row(n + i, b) == Row(i, b)
  {
    assert (n + i) % 20 == i % 20;
  }

  /** A whole generated file: three bytes, two entries. */
  lemma HeaderExample()
    ensures HeaderText([137, 80, 7], [Icon("Terminal", 0, 2), Icon("Clock", 2, 1)]) ==
            OpeningText() + IconTypeText() + BlobStartText() + "\n    137,80,7," + IndexStartText()
            + "    { \"Terminal\", 0, 2 },\n" + "    { \"Clock\", 2, 1 },\n" + ClosingText()
  {
    hide SpellAll, HeaderText, BlobPart, IndexStart, Entries, Decimal, EntryText, BlobRows, Listed;
    hide OpeningText, IconTypeText, BlobStartText, IndexStartText, ClosingText;
    var blob: seq<byte>, icons := [137, 80, 7], [Icon("Terminal", 0, 2), Icon("Clock", 2, 1)];
    var before := BlobPart(blob) + IndexStart();
    ExampleBlob();
    PrintMiddle(blob);
    EntryStep(before, icons, 0);
    EntryStep(before, icons, 1);
    assert icons[..0] == [] && icons[..2] == icons;
    ExampleEntries();
    PrintEnd(blob, icons);
  }

  lemma ExampleBlob()
    ensures SpellAll(BlobPart([137, 80, 7])) == OpeningText() + IconTypeText() + BlobStartText() + "\n    137,80,7,"
  {
    hide SpellAll, BlobPart, BlobRows, OpeningText, IconTypeText, BlobStartText;
    PrintStart();
    BlobPartSpelling([137, 80, 7]);
    OneRow([137, 80, 7]);
    ExampleList();
  }

  lemma BlobPartSpelling(blob: seq<byte>)
    ensures SpellAll(BlobPart(blob)) == SpellAll(BlobPart([])) + SpellAll(BlobRows(blob))
  {
    hide SpellAll, Opening, IconType, BlobType, Declarator;
    SpellAllAppend(Opening() + IconType() + BlobType() + Declarator("nz_blob"), BlobRows(blob));
    assert BlobPart([]) == Opening() + IconType() + BlobType() + Declarator("nz_blob");
  }

  lemma ExampleList()
    ensures "\n    " + Listed([137, 80, 7]) == "\n    137,80,7,"
  {
    hide Decimal, Listed;
    ExampleNumbers();
    ListedMore([], 137);
    ListedMore([137], 80);
    ListedMore([137, 80], 7);
    assert [] + [137] == [137] && [137] + [80] == [137, 80] && [137, 80] + [7] == [137, 80, 7];
    assert "137," + "80," + "7," == "137,80,7,";
  }

  lemma ListedMore(row: seq<byte>, b: byte)
    ensures Listed(row + [b]) == Listed(row) + (Decimal(b) + ",") && Listed([]) == ""
  {
    hide Decimal;
    assert (row + [b])[..|row|] == row;
  }

  lemma ExampleNumbers()
    ensures Decimal(137) == "137" && Decimal(80) == "80" && Decimal(7) == "7"
    ensures Decimal(0) == "0" && Decimal(1) == "1" && Decimal(2) == "2"
  {
    assert Decimal(1) == "1" && Decimal(8) == "8";
    assert Decimal(13) == "1" + "3";
  }

  lemma ExampleEntries()
    ensures EntryText(Icon("Terminal", 0, 2)) == "    { \"Terminal\", 0, 2 },\n"
    ensures EntryText(Icon("Clock", 2, 1)) == "    { \"Clock\", 2, 1 },\n"
  {
    hide Decimal;
    ExampleNumbers();
  }
}
