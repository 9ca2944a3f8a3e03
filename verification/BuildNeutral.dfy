/** No rule of patch_build.py touches a line the script inserts, and its canonical glob line comes back
    to the glob rule: proved on the texts themselves. */
module BuildNeutral {
  import opened Text
  import opened PatchBuild
  import opened BuildTexts

  predicate HasTriple(line: string, x: char, y: char, z: char) {
    exists p | 2 <= p < |line| :: line[p] == z && line[p - 1] == y && line[p - 2] == x
  }

  /** Enough to see that no needle occurs in a line: of each needle it lacks a character, or three
      characters in a row. */
  predicate Clean(line: string) {
    && Terminated(line)
    && ('*' !in line || 'y' !in line)
    && ('#' !in line || 'S' !in line)
    && ('S' !in line || ';' !in line || 's' !in line || !HasTriple(line, '$', 'S', 'R'))
    && '\\' !in line
    && 'J' !in line
    && ('|' !in line || !HasTriple(line, ' ', ' ', '|'))
  }

  lemma CleanAvoidsFirstNeedles(line: string)
    requires Clean(line)
    ensures !Contains(line, TINYGL_LOOP) && !Contains(line, APPS_MARKER)
  {
    assert TINYGL_LOOP[29] == '*' && TINYGL_LOOP[25] == 'y';
    assert APPS_MARKER[4] == '#' && APPS_MARKER[6] == 'S';
    MissingChar(line, TINYGL_LOOP, if '*' !in line then 29 else 25);
    MissingChar(line, APPS_MARKER, if '#' !in line then 4 else 6);
  }

  lemma CleanAvoidsSourceLoop(line: string)
    requires Clean(line)
    ensures !Contains(line, SOURCE_LOOP)
  {
    var n := SOURCE_LOOP;
    assert n[4] == 's' && n[9] == '$' && n[10] == 'S' && n[11] == 'R' && n[14] == ';';
    if 'S' !in line || ';' !in line || 's' !in line {
      MissingChar(line, n, if 'S' !in line then 10 else if ';' !in line then 14 else 4);
    } else {
      MissingTriple(line, n, 11);
    }
  }

  lemma CleanAvoidsCallTail(line: string)
    requires Clean(line)
    ensures !Contains(line, OLD_CALL_TAIL)
  {
    var n := OLD_CALL_TAIL;
    assert n[14] == ' ' && n[15] == ' ' && n[16] == '|';
    if '|' !in line {
      MissingChar(line, n, 16);
    } else {
      MissingTriple(line, n, 16);
    }
  }

  lemma CleanAvoidsLastNeedles(line: string)
    requires Clean(line)
    ensures !Contains(line, OLD_CALL) && !Contains(line, OBJECT_APPEND)
    ensures !Contains(line, LINK_CALL) && !Contains(line, LIBRARY_GLOB)
  {
    assert OLD_CALL[61] == '\\' && OBJECT_APPEND[14] == 'J' && LINK_CALL[55] == '\\' && LIBRARY_GLOB[33] == '\\';
    MissingChar(line, OLD_CALL, 61);
    MissingChar(line, OBJECT_APPEND, 14);
    MissingChar(line, LINK_CALL, 55);
    MissingChar(line, LIBRARY_GLOB, 33);
  }

  lemma CleanIsNeutral(line: string, inFolders: bool)
    requires Clean(line)
    ensures BranchOf(Script(), line, inFolders) == Other
  {
    hide Contains, Clean, LibraryBlock, CompileBlock;
    hide TINYGL_LOOP, APPS_MARKER, SOURCE_LOOP, OLD_CALL, OLD_CALL_TAIL, OBJECT_APPEND, LINK_CALL, LIBRARY_GLOB;
    CleanAvoidsFirstNeedles(line);
    CleanAvoidsSourceLoop(line);
    CleanAvoidsCallTail(line);
    CleanAvoidsLastNeedles(line);
  }

  /** The characters that settle most lines: '*' and 'S' can be swapped for others. */
  const COMMON := {'\\', 'J', '|', '\n'}

  lemma PlainLine(pieces: seq<string>, bad: set<char>)
    requires COMMON <= bad && AllLack(pieces, bad)
    requires '*' in bad || 'y' in bad
    requires '#' in bad || 'S' in bad
    requires 'S' in bad || ';' in bad || 's' in bad
    ensures Clean(Line(pieces))
  {
    hide HasTriple;
    ConcatLacks(pieces, bad);
    var text, line := Concat(pieces), Line(pieces);
    assert line[..|line| - 1] == text;
    assert forall c <- line :: c in text || c == '\n';
    assert forall c <- text :: c !in bad;
  }

  const PLAIN := COMMON + {'*', 'S'}
  const LISTED := COMMON + {'*', '#', ';'}
  const LOOPED := COMMON + {'*', '#', 's'}
  const GLOBBED := COMMON + {'y', 'S'}

  lemma PlainPieces()
    ensures AllLack(["    # FreeType"], PLAIN) && AllLack(["    # ImGui"], PLAIN)
    ensures AllLack(["        fi"], PLAIN) && AllLack(["    done"], PLAIN)
    ensures AllLack(["            else"], PLAIN) && AllLack(["            fi"], PLAIN)
    ensures AllLack([], PLAIN)
  {}

  lemma FreeTypeBaseSourcesLack()
    ensures AllLack(FreeTypeBaseSources(), LISTED)
  {}

  lemma FreeTypeFontSourcesLack()
    ensures AllLack(FreeTypeFontSources(), LISTED)
  {}

  lemma FreeTypeRasterSourcesLack()
    ensures AllLack(FreeTypeRasterSources(), LISTED)
  {}

  lemma FreeTypeLoopLack()
    ensures AllLack(FreeTypeLoop(), LOOPED)
  {}

  lemma FreeTypeTestLack()
    ensures AllLack(FreeTypeTest(), PLAIN)
  {}

  lemma FreeTypeBaseLack()
    ensures AllLack(FreeTypeBase(), PLAIN)
  {}

  lemma FreeTypeEchoLack()
    ensures AllLack(FreeTypeEcho(), PLAIN)
  {}

  lemma FreeTypeCompileFlagsLack()
    ensures AllLack(FreeTypeCompileFlags(), LISTED)
  {}

  lemma FreeTypeCompileFilesLack()
    ensures AllLack(FreeTypeCompileFiles(), LISTED)
  {}

  lemma ImGuiLoopLack()
    ensures AllLack(ImGuiLoop(), GLOBBED)
  {}

  lemma ImGuiTestLack()
    ensures AllLack(ImGuiTest(), PLAIN)
  {}

  lemma ImGuiBaseLack()
    ensures AllLack(ImGuiBase(), PLAIN)
  {}

  lemma ImGuiEchoLack()
    ensures AllLack(ImGuiEcho(), PLAIN)
  {}

  lemma ImGuiCompileFlagsLack()
    ensures AllLack(ImGuiCompileFlags(), LISTED)
  {}

  lemma ImGuiCompileFilesLack()
    ensures AllLack(ImGuiCompileFiles(), LISTED)
  {}

  lemma CppTestLack()
    ensures AllLack(CppTest(), GLOBBED)
  {}

  lemma CppEchoLack()
    ensures AllLack(CppEcho(), PLAIN)
  {}

  lemma LongLibraryLines()
    ensures Clean(Line(FreeTypeBaseSources() + FreeTypeFontSources() + FreeTypeRasterSources()))
    ensures Clean(Line(FreeTypeCompileFlags() + FreeTypeCompileFiles()))
    ensures Clean(Line(ImGuiCompileFlags() + ImGuiCompileFiles()))
  {
    hide AllLack, Clean, Line, FreeTypeBaseSources, FreeTypeFontSources, FreeTypeRasterSources;
    hide FreeTypeCompileFlags, FreeTypeCompileFiles, ImGuiCompileFlags, ImGuiCompileFiles;
    FreeTypeBaseSourcesLack();
    FreeTypeFontSourcesLack();
    FreeTypeRasterSourcesLack();
    AllLackAppend(FreeTypeBaseSources(), FreeTypeFontSources(), LISTED);
    AllLackAppend(FreeTypeBaseSources() + FreeTypeFontSources(), FreeTypeRasterSources(), LISTED);
    PlainLine(FreeTypeBaseSources() + FreeTypeFontSources() + FreeTypeRasterSources(), LISTED);
    FreeTypeCompileFlagsLack();
    FreeTypeCompileFilesLack();
    AllLackAppend(FreeTypeCompileFlags(), FreeTypeCompileFiles(), LISTED);
    PlainLine(FreeTypeCompileFlags() + FreeTypeCompileFiles(), LISTED);
    ImGuiCompileFlagsLack();
    ImGuiCompileFilesLack();
    AllLackAppend(ImGuiCompileFlags(), ImGuiCompileFiles(), LISTED);
    PlainLine(ImGuiCompileFlags() + ImGuiCompileFiles(), LISTED);
  }

  lemma ShortLibraryLines()
    ensures Clean(Line(FreeTypeLoop())) && Clean(Line(FreeTypeTest()))
    ensures Clean(Line(FreeTypeBase())) && Clean(Line(FreeTypeEcho()))
    ensures Clean(Line(ImGuiLoop())) && Clean(Line(ImGuiTest()))
    ensures Clean(Line(ImGuiBase())) && Clean(Line(ImGuiEcho()))
  {
    hide AllLack, Clean, Line, FreeTypeLoop, FreeTypeTest, FreeTypeBase, FreeTypeEcho;
    hide ImGuiLoop, ImGuiTest, ImGuiBase, ImGuiEcho;
    FreeTypeLoopLack();
    PlainLine(FreeTypeLoop(), LOOPED);
    FreeTypeTestLack();
    PlainLine(FreeTypeTest(), PLAIN);
    FreeTypeBaseLack();
    PlainLine(FreeTypeBase(), PLAIN);
    FreeTypeEchoLack();
    PlainLine(FreeTypeEcho(), PLAIN);
    ImGuiLoopLack();
    PlainLine(ImGuiLoop(), GLOBBED);
    ImGuiTestLack();
    PlainLine(ImGuiTest(), PLAIN);
    ImGuiBaseLack();
    PlainLine(ImGuiBase(), PLAIN);
    ImGuiEchoLack();
    PlainLine(ImGuiEcho(), PLAIN);
  }

  lemma TinyLines()
    ensures Clean(Line([])) && Clean(Line(["    # FreeType"])) && Clean(Line(["    # ImGui"]))
    ensures Clean(Line(["        fi"])) && Clean(Line(["    done"]))
    ensures Clean(Line(["            else"])) && Clean(Line(["            fi"]))
  {
    hide AllLack, Clean, Line;
    PlainPieces();
    PlainLine([], PLAIN);
    PlainLine(["    # FreeType"], PLAIN);
    PlainLine(["    # ImGui"], PLAIN);
    PlainLine(["        fi"], PLAIN);
    PlainLine(["    done"], PLAIN);
    PlainLine(["            else"], PLAIN);
    PlainLine(["            fi"], PLAIN);
  }

  lemma LibraryBlockClean()
    ensures forall line <- LibraryBlock() :: Clean(line)
    ensures |LibraryBlock()| == 20
  {
    hide Clean, Line, FreeTypeBaseSources, FreeTypeFontSources, FreeTypeRasterSources, FreeTypeLoop, FreeTypeTest;
    hide FreeTypeBase, FreeTypeEcho, FreeTypeCompileFlags, FreeTypeCompileFiles;
    hide ImGuiLoop, ImGuiTest, ImGuiBase, ImGuiEcho, ImGuiCompileFlags, ImGuiCompileFiles;
    LongLibraryLines();
    ShortLibraryLines();
    TinyLines();
  }

  // ---- the two new compile calls, whose text is closest to what the rules look for ----

  const CALL := COMMON + {'*', '#', 'R'}

  lemma CallPiecesLack()
    ensures AllLack(CompileArguments(), CALL)
  {}

  lemma CallFlagsLack()
    ensures AllLack(CppCompileFlags(), CALL) && AllLack(CCompileFlags(), CALL)
  {}

  lemma FailurePiecesLack()
    ensures AllLack(FailureOpening(), CALL) && AllLack(FailureEnding(), CALL)
  {}

  /** The only '|' of such a line stand in `" ||` and its only 'R' in `ER`, so neither the tail's two
      spaces before a bar nor the loop's `$SR` occurs. */
  lemma BarsAndTag(a: string, b: string, c: string)
    requires Lacks(a, CALL) && Lacks(b, CALL) && Lacks(c, CALL)
    ensures Clean(a + "\" ||" + b + "ER" + c + "\n")
  {
    var line := a + "\" ||" + b + "ER" + c + "\n";
    var i, j := |a|, |a| + 4 + |b|;
    assert line[i] == '\"' && line[i + 1] == ' ' && line[i + 2] == '|' && line[i + 3] == '|';
    assert line[j] == 'E' && line[j + 1] == 'R';
    assert line[|line| - 1] == '\n';
    forall p | 0 <= p < |line| - 1 && !(i <= p < i + 4) && p != j && p != j + 1 ensures line[p] !in CALL {
      BarsAndTagRest(a, b, c, p);
    }
    CleanAround(line, i, j);
  }

  lemma CleanAround(line: string, i: nat, j: nat)
    requires i + 4 <= j && j + 2 < |line| && line[|line| - 1] == '\n'
    requires line[i] == '\"' && line[i + 1] == ' ' && line[i + 2] == '|' && line[i + 3] == '|'
    requires line[j] == 'E' && line[j + 1] == 'R'
    requires forall p | 0 <= p < |line| - 1 && !(i <= p < i + 4) && p != j && p != j + 1 :: line[p] !in CALL
    ensures Clean(line)
  {
    assert forall p | 0 <= p < |line| :: line[p] == '|' ==> p == i + 2 || p == i + 3;
    assert forall p | 0 <= p < |line| :: line[p] == 'R' ==> p == j + 1;
    assert forall p | 0 <= p < |line| - 1 :: line[p] != '\n';
  }

  lemma BarsAndTagRest(a: string, b: string, c: string, p: nat)
    requires Lacks(a, CALL) && Lacks(b, CALL) && Lacks(c, CALL)
    requires p < |a| + |b| + |c| + 6 && !(|a| <= p < |a| + 4) && !(|a| + 4 + |b| <= p < |a| + |b| + 6)
    ensures (a + "\" ||" + b + "ER" + c + "\n")[p] !in CALL
  {
    hide CALL;
    var line := a + "\" ||" + b + "ER" + c + "\n";
    if p < |a| {
      assert line[p] == a[p];
    } else if p < |a| + 4 + |b| {
      assert line[p] == b[p - |a| - 4];
    } else {
      assert line[p] == c[p - |a| - |b| - 6];
    }
  }

  lemma GuardedCallClean(flags: seq<string>)
    requires AllLack(flags, CALL)
    ensures Clean(GuardedCall(flags))
  {
    hide AllLack, Clean, Concat, CompileArguments, FailureOpening, FailureEnding, CALL;
    CallPiecesLack();
    FailurePiecesLack();
    AllLackAppend(flags, CompileArguments(), CALL);
    ConcatLacks(flags + CompileArguments(), CALL);
    ConcatLacks(FailureOpening(), CALL);
    ConcatLacks(FailureEnding(), CALL);
    BarsAndTag(Concat(flags + CompileArguments()), Concat(FailureOpening()), Concat(FailureEnding()));
  }

  lemma CompileBlockClean()
    ensures forall line <- CompileBlock() :: Clean(line)
    ensures |CompileBlock()| == 7
  {
    hide AllLack, Clean, Line, GuardedCall, CppTest, CppEcho, CppCompileFlags, CCompileFlags;
    TinyLines();
    CppTestLack();
    PlainLine(CppTest(), GLOBBED);
    CppEchoLack();
    PlainLine(CppEcho(), PLAIN);
    CallFlagsLack();
    GuardedCallClean(CppCompileFlags());
    GuardedCallClean(CCompileFlags());
  }

  lemma GlobLineIsCanonical(inFolders: bool)
    ensures BranchOf(Script(), LIBRARY_GLOB_LINE, inFolders) == LibraryGlob
    ensures Terminated(LIBRARY_GLOB_LINE)
  {
    hide LibraryBlock, CompileBlock, Contains;
    hide TINYGL_LOOP, APPS_MARKER, SOURCE_LOOP, OLD_CALL, OLD_CALL_TAIL, OBJECT_APPEND, LINK_CALL;
    hide LIBRARY_GLOB, LIBRARY_GLOB_LINE;
    GlobLineAvoids();
    GlobLineFound();
    GlobLineTerminated();
  }

  lemma GlobLineTerminated()
    ensures Terminated(LIBRARY_GLOB_LINE)
  {
    assert '\n' !in "            bin/" && '\n' !in "obj/user/" && '\n' !in "lib/*.o \\";
    assert LIBRARY_GLOB_LINE[..|LIBRARY_GLOB_LINE| - 1] == LIBRARY_GLOB;
  }

  lemma GlobLineFound()
    ensures Contains(LIBRARY_GLOB_LINE, LIBRARY_GLOB)
  {
    assert OccursAt(LIBRARY_GLOB_LINE, LIBRARY_GLOB, 0);
  }

  lemma GlobLineLacks()
    ensures Lacks(LIBRARY_GLOB_LINE, {'f', '#', '$', '|', 'J'})
  {
    GlobPiecesLack();
    assert forall c <- LIBRARY_GLOB_LINE ::
      c in "            bin/" || c in "obj/user/" || c in "lib/*.o \\" || c in "\n";
  }

  lemma GlobPiecesLack()
    ensures Lacks("            bin/", {'f', '#', '$', '|', 'J'}) && Lacks("obj/user/", {'f', '#', '$', '|', 'J'})
    ensures Lacks("lib/*.o \\", {'f', '#', '$', '|', 'J'}) && Lacks("\n", {'f', '#', '$', '|', 'J'})
  {}

  lemma NeedleChars()
    ensures |TINYGL_LOOP| > 0 && TINYGL_LOOP[0] == 'f' && |APPS_MARKER| > 4 && APPS_MARKER[4] == '#'
    ensures |SOURCE_LOOP| > 0 && SOURCE_LOOP[0] == 'f' && |OLD_CALL| > 55 && OLD_CALL[55] == '$'
    ensures |OLD_CALL_TAIL| > 16 && OLD_CALL_TAIL[16] == '|' && |OBJECT_APPEND| > 14 && OBJECT_APPEND[14] == 'J'
    ensures |LINK_CALL| > 52 && LINK_CALL[52] == 'J'
  {}

  lemma GlobLineAvoids()
    ensures !Contains(LIBRARY_GLOB_LINE, TINYGL_LOOP) && !Contains(LIBRARY_GLOB_LINE, APPS_MARKER)
    ensures !Contains(LIBRARY_GLOB_LINE, SOURCE_LOOP) && !Contains(LIBRARY_GLOB_LINE, OLD_CALL)
    ensures !Contains(LIBRARY_GLOB_LINE, OLD_CALL_TAIL) && !Contains(LIBRARY_GLOB_LINE, OBJECT_APPEND)
    ensures !Contains(LIBRARY_GLOB_LINE, LINK_CALL)
  {
    hide Contains, TINYGL_LOOP, APPS_MARKER, SOURCE_LOOP, OLD_CALL, OLD_CALL_TAIL;
    hide OBJECT_APPEND, LINK_CALL, LIBRARY_GLOB_LINE;
    var line := LIBRARY_GLOB_LINE;
    GlobLineLacks();
    NeedleChars();
    MissingChar(line, TINYGL_LOOP, 0);
    MissingChar(line, APPS_MARKER, 4);
    MissingChar(line, SOURCE_LOOP, 0);
    MissingChar(line, OLD_CALL, 55);
    MissingChar(line, OLD_CALL_TAIL, 16);
    MissingChar(line, OBJECT_APPEND, 14);
    MissingChar(line, LINK_CALL, 52);
  }

  /** The script's own texts meet the hypothesis of the general results: nothing it inserts is touched by
      any of its rules, inside a folder loop or outside. */
  lemma ScriptIsNeutral()
    ensures Neutral(Script())
    ensures |Script().libraryBlock| == 20 && |Script().compileBlock| == 7
  {
    hide Clean, BranchOf, LibraryBlock, CompileBlock;
    LibraryBlockClean();
    CompileBlockClean();
    forall line, inFolders | line in LibraryBlock() || line in CompileBlock()
      ensures BranchOf(Script(), line, inFolders) == Other
    {
      CleanIsNeutral(line, inFolders);
    }
    forall inFolders ensures BranchOf(Script(), LIBRARY_GLOB_LINE, inFolders) == LibraryGlob {
      GlobLineIsCanonical(inFolders);
    }
    GlobLineIsCanonical(false);
    assert forall line :: Clean(line) ==> Terminated(line) by { CleanTerminated(); }
  }

  lemma CleanTerminated()
    ensures forall line :: Clean(line) ==> Terminated(line)
  {}
}
