/** patch_build.py on one concrete file that meets every rule, in both modes and with the needles of
    neighbouring rules in one line: the exact text it writes. */
module BuildRun {
  import opened Text
  import opened PatchBuild
  import opened BuildTexts
  import opened BuildNeutral

  // ---- what the needles lack ----

  lemma TinyglLacks()
    ensures forall c <- TINYGL_LOOP :: c !in {'\n'}
  {}

  lemma MarkerLacks()
    ensures forall c <- APPS_MARKER :: c !in {'*', '\n', '|'}
  {}

  lemma SourceLoopLacks()
    ensures forall c <- SOURCE_LOOP :: c !in {'*', '#', '\n'}
  {}

  lemma OldCallStart()
    ensures forall c <- "            $UCC" + " $UCFLAGS" + " $inc_flags" :: c !in {'*', '#', ';', 'D', 'R', '\n'}
  {}

  lemma OldCallEnd()
    ensures forall c <- " $FLAGS \"$src\"" + " -o \"$obj\" \\" :: c !in {'*', '#', ';', 'D', 'R', '\n'}
  {}

  lemma OldCallLacks()
    ensures forall c <- OLD_CALL :: c !in {'*', '#', ';', 'D', 'R', '\n'}
  {
    OldCallStart();
    OldCallEnd();
    var start, end := "            $UCC" + " $UCFLAGS" + " $inc_flags", " $FLAGS \"$src\"" + " -o \"$obj\" \\";
    assert forall c <- OLD_CALL :: c in start || c in end;
  }

  lemma TailStart()
    ensures forall c <- "                || {" + " echo \"[FOLDER]" :: c !in {'*', '#', '\\', '\n'}
  {}

  lemma TailEnd()
    ensures forall c <- " build failed on" + " $src\"; return 1; }" :: c !in {'*', '#', '\\', '\n'}
  {}

  lemma TailLacks()
    ensures forall c <- OLD_CALL_TAIL :: c !in {'*', '#', '\\', '\n'}
  {
    TailStart();
    TailEnd();
    var start, end := "                || {" + " echo \"[FOLDER]", " build failed on" + " $src\"; return 1; }";
    assert forall c <- OLD_CALL_TAIL :: c in start || c in end;
  }

  lemma AppendLacks()
    ensures forall c <- OBJECT_APPEND :: c !in {'*', '#', ';', '\\', 'C', '|', 'D', 'y', 'R', '\n'}
  {}

  lemma LinkCallStart()
    ensures forall c <- "        $LD" + " $ULDFLAGS -o" + " \"bin/userapp/" ::
              c !in {'*', '#', ';', 'C', '|', 'y', '\n'}
  {}

  lemma LinkCallEnd()
    ensures forall c <- "$NAME.elf\"" + " $OBJS \\" :: c !in {'*', '#', ';', 'C', '|', 'y', '\n'}
  {}

  lemma LinkCallLacks()
    ensures forall c <- LINK_CALL :: c !in {'*', '#', ';', 'C', '|', 'y', '\n'}
  {
    LinkCallStart();
    LinkCallEnd();
    var start, end := "        $LD" + " $ULDFLAGS -o" + " \"bin/userapp/", "$NAME.elf\"" + " $OBJS \\";
    assert forall c <- LINK_CALL :: c in start || c in end;
  }

  lemma GlobLacks()
    ensures forall c <- LIBRARY_GLOB :: c !in {'y', '#', ';', 'f', '$', 'D', '\n'}
  {}

  lemma NeedleChars()
    ensures '*' in TINYGL_LOOP && 'y' in TINYGL_LOOP && 'f' in TINYGL_LOOP && '#' in APPS_MARKER
    ensures ';' in SOURCE_LOOP && '\\' in OLD_CALL && 'C' in OLD_CALL && '|' in OLD_CALL_TAIL
    ensures 'D' in LINK_CALL && '\\' in LINK_CALL && '*' in LIBRARY_GLOB && '\\' in LIBRARY_GLOB
  {
    assert "tinygl/*.c; do"[3] == 'y' && "tinygl/*.c; do"[7] == '*' && "for f in src/"[0] == 'f';
    assert "    # Single-"[4] == '#' && "for s in $SRCS; do"[14] == ';' && "                || {"[16] == '|';
    assert " -o \"$obj\" \\"[11] == '\\' && "            $UCC"[14] == 'C';
    assert "        $LD"[10] == 'D' && " $OBJS \\"[7] == '\\';
    assert "lib/*.o \\"[4] == '*' && "lib/*.o \\"[8] == '\\';
  }

  lemma Found(a: string, needle: string, b: string)
    ensures Contains(a + needle + b, needle)
  {
    hide Contains;
    ContainsSplits(a + needle + b, needle);
  }

  lemma Without(line: string, needle: string, c: char)
    requires c in needle && c !in line
    ensures !Contains(line, needle)
  {
    var j :| 0 <= j < |needle| && needle[j] == c;
    MissingChar(line, needle, j);
  }

  /** Every 'R' comes right after an 'E', so there is no `$SR`. */
  predicate TagsOnly(s: string) {
    forall p | 0 <= p < |s| && s[p] == 'R' :: p > 0 && s[p - 1] == 'E'
  }

  lemma TagsOnlyAppend(a: string, b: string)
    requires TagsOnly(a) && TagsOnly(b)
    ensures TagsOnly(a + b)
  {
    var s := a + b;
    forall p | 0 <= p < |s| && s[p] == 'R' ensures p > 0 && s[p - 1] == 'E' {
      if p >= |a| { assert b[p - |a|] == 'R' && b[p - |a| - 1] == 'E'; }
    }
  }

  lemma TailTags()
    ensures TagsOnly(OLD_CALL_TAIL) && TagsOnly(OLD_CALL) && TagsOnly(OBJECT_APPEND) && TagsOnly("\n") && TagsOnly("")
  {
    hide OLD_CALL, OBJECT_APPEND;
    OldCallLacks();
    AppendLacks();
    NoTags(OLD_CALL);
    NoTags(OBJECT_APPEND);
    TagsOnlyAppend("                || {", " echo \"[FOLDER]");
    TagsOnlyAppend("                || {" + " echo \"[FOLDER]", " build failed on");
    TagsOnlyAppend("                || {" + " echo \"[FOLDER]" + " build failed on", " $src\"; return 1; }");
  }

  lemma NoTags(s: string)
    requires 'R' !in s
    ensures TagsOnly(s)
  {}

  lemma NoLoopIn(a: string, b: string)
    requires TagsOnly(a) && TagsOnly(b)
    ensures !Contains(a + b + "\n", SOURCE_LOOP)
  {
    var line := a + b + "\n";
    TagsOnlyAppend(a, b);
    TagsOnlyAppend(a + b, "\n");
    assert SOURCE_LOOP[10] == 'S' && SOURCE_LOOP[11] == 'R';
    MissingTriple(line, SOURCE_LOOP, 11);
  }

  // ---- the branch of each line ----

  lemma TinyglBeforeMarker()
    ensures BranchOf(Script(), APPS_MARKER + TINYGL_LOOP + "\n", false) == TinyglLoop
  {
    hide Contains, LibraryBlock, CompileBlock;
    hide TINYGL_LOOP, APPS_MARKER, SOURCE_LOOP, OLD_CALL, OLD_CALL_TAIL;
    hide OBJECT_APPEND, LINK_CALL, LIBRARY_GLOB;
    var line := APPS_MARKER + TINYGL_LOOP + "\n";
    MarkerLacks();
    TinyglLacks();
    NeedleChars();
    Found(APPS_MARKER, TINYGL_LOOP, "\n");
    assert line == APPS_MARKER + TINYGL_LOOP + ("\n");
  }

  lemma MarkerBeforeLoop()
    ensures BranchOf(Script(), SOURCE_LOOP + APPS_MARKER + "\n", false) == AppsMarker
  {
    hide Contains, LibraryBlock, CompileBlock;
    hide TINYGL_LOOP, APPS_MARKER, SOURCE_LOOP, OLD_CALL, OLD_CALL_TAIL;
    hide OBJECT_APPEND, LINK_CALL, LIBRARY_GLOB;
    var line := SOURCE_LOOP + APPS_MARKER + "\n";
    SourceLoopLacks();
    MarkerLacks();
    NeedleChars();
    Found(SOURCE_LOOP, APPS_MARKER, "\n");
    assert line == SOURCE_LOOP + APPS_MARKER + ("\n");
    Without(line, TINYGL_LOOP, '*');
  }

  lemma CallOutsideLoop()
    ensures BranchOf(Script(), OLD_CALL + "\n", false) == Other
  {
    hide Contains, LibraryBlock, CompileBlock;
    hide TINYGL_LOOP, APPS_MARKER, SOURCE_LOOP, OLD_CALL, OLD_CALL_TAIL;
    hide OBJECT_APPEND, LINK_CALL, LIBRARY_GLOB;
    var line := OLD_CALL + "\n";
    OldCallLacks();
    NeedleChars();
    Without(line, TINYGL_LOOP, '*');
    Without(line, APPS_MARKER, '#');
    Without(line, SOURCE_LOOP, ';');
    Without(line, LINK_CALL, 'D');
    Without(line, LIBRARY_GLOB, '*');
  }

  lemma LoopIndented()
    ensures BranchOf(Script(), "        " + SOURCE_LOOP + "\n", false) == SourceLoop
  {
    hide Contains, LibraryBlock, CompileBlock;
    hide TINYGL_LOOP, APPS_MARKER, SOURCE_LOOP, OLD_CALL, OLD_CALL_TAIL;
    hide OBJECT_APPEND, LINK_CALL, LIBRARY_GLOB;
    var line := "        " + SOURCE_LOOP + "\n";
    SourceLoopLacks();
    NeedleChars();
    Found("        ", SOURCE_LOOP, "\n");
    assert line == "        " + SOURCE_LOOP + ("\n");
    Without(line, TINYGL_LOOP, '*');
    Without(line, APPS_MARKER, '#');
  }

  lemma LoopBeforeCall()
    ensures BranchOf(Script(), OLD_CALL + SOURCE_LOOP + "\n", true) == SourceLoop
  {
    hide Contains, LibraryBlock, CompileBlock;
    hide TINYGL_LOOP, APPS_MARKER, SOURCE_LOOP, OLD_CALL, OLD_CALL_TAIL;
    hide OBJECT_APPEND, LINK_CALL, LIBRARY_GLOB;
    var line := OLD_CALL + SOURCE_LOOP + "\n";
    OldCallLacks();
    SourceLoopLacks();
    NeedleChars();
    Found(OLD_CALL, SOURCE_LOOP, "\n");
    assert line == OLD_CALL + SOURCE_LOOP + ("\n");
    Without(line, TINYGL_LOOP, '*');
    Without(line, APPS_MARKER, '#');
  }

  lemma CallBeforeTail()
    ensures BranchOf(Script(), OLD_CALL_TAIL + OLD_CALL + "\n", true) == OldCall
  {
    hide Contains, LibraryBlock, CompileBlock;
    hide TINYGL_LOOP, APPS_MARKER, SOURCE_LOOP, OLD_CALL, OLD_CALL_TAIL;
    hide OBJECT_APPEND, LINK_CALL, LIBRARY_GLOB;
    var line := OLD_CALL_TAIL + OLD_CALL + "\n";
    TailLacks();
    OldCallLacks();
    NeedleChars();
    Found(OLD_CALL_TAIL, OLD_CALL, "\n");
    assert line == OLD_CALL_TAIL + OLD_CALL + ("\n");
    Without(line, TINYGL_LOOP, '*');
    Without(line, APPS_MARKER, '#');
    TailTags();
    NoLoopIn(OLD_CALL_TAIL, OLD_CALL);
  }

  lemma TailBeforeAppend()
    ensures BranchOf(Script(), OBJECT_APPEND + OLD_CALL_TAIL + "\n", true) == OldCallTail
  {
    hide Contains, LibraryBlock, CompileBlock;
    hide TINYGL_LOOP, APPS_MARKER, SOURCE_LOOP, OLD_CALL, OLD_CALL_TAIL;
    hide OBJECT_APPEND, LINK_CALL, LIBRARY_GLOB;
    var line := OBJECT_APPEND + OLD_CALL_TAIL + "\n";
    AppendLacks();
    TailLacks();
    NeedleChars();
    Found(OBJECT_APPEND, OLD_CALL_TAIL, "\n");
    assert line == OBJECT_APPEND + OLD_CALL_TAIL + ("\n");
    Without(line, TINYGL_LOOP, '*');
    Without(line, APPS_MARKER, '#');
    TailTags();
    NoLoopIn(OBJECT_APPEND, OLD_CALL_TAIL);
    Without(line, OLD_CALL, '\\');
  }

  lemma AppendBeforeLink()
    ensures BranchOf(Script(), LINK_CALL + OBJECT_APPEND + "\n", true) == ObjectAppend
  {
    hide Contains, LibraryBlock, CompileBlock;
    hide TINYGL_LOOP, APPS_MARKER, SOURCE_LOOP, OLD_CALL, OLD_CALL_TAIL;
    hide OBJECT_APPEND, LINK_CALL, LIBRARY_GLOB;
    var line := LINK_CALL + OBJECT_APPEND + "\n";
    LinkCallLacks();
    AppendLacks();
    NeedleChars();
    Found(LINK_CALL, OBJECT_APPEND, "\n");
    assert line == LINK_CALL + OBJECT_APPEND + ("\n");
    Without(line, TINYGL_LOOP, '*');
    Without(line, APPS_MARKER, '#');
    Without(line, SOURCE_LOOP, ';');
    Without(line, OLD_CALL, 'C');
    Without(line, OLD_CALL_TAIL, '|');
  }

  lemma TailOutsideLoop()
    ensures BranchOf(Script(), OLD_CALL_TAIL + "\n", false) == Other
  {
    hide Contains, LibraryBlock, CompileBlock;
    hide TINYGL_LOOP, APPS_MARKER, SOURCE_LOOP, OLD_CALL, OLD_CALL_TAIL;
    hide OBJECT_APPEND, LINK_CALL, LIBRARY_GLOB;
    var line := OLD_CALL_TAIL + "\n";
    TailLacks();
    NeedleChars();
    Without(line, TINYGL_LOOP, '*');
    Without(line, APPS_MARKER, '#');
    TailTags();
    NoLoopIn(OLD_CALL_TAIL, "");
    assert line == OLD_CALL_TAIL + "" + "\n";
    Without(line, LINK_CALL, '\\');
    Without(line, LIBRARY_GLOB, '\\');
  }

  lemma LinkBeforeGlob()
    ensures BranchOf(Script(), LIBRARY_GLOB + LINK_CALL + "\n", false) == LinkCall
  {
    hide Contains, LibraryBlock, CompileBlock;
    hide TINYGL_LOOP, APPS_MARKER, SOURCE_LOOP, OLD_CALL, OLD_CALL_TAIL;
    hide OBJECT_APPEND, LINK_CALL, LIBRARY_GLOB;
    var line := LIBRARY_GLOB + LINK_CALL + "\n";
    GlobLacks();
    LinkCallLacks();
    NeedleChars();
    Found(LIBRARY_GLOB, LINK_CALL, "\n");
    assert line == LIBRARY_GLOB + LINK_CALL + ("\n");
    Without(line, TINYGL_LOOP, 'y');
    Without(line, APPS_MARKER, '#');
    Without(line, SOURCE_LOOP, ';');
  }

  lemma GlobAnywhere()
    ensures BranchOf(Script(), "x" + LIBRARY_GLOB + " z" + "\n", false) == LibraryGlob
  {
    hide Contains, LibraryBlock, CompileBlock;
    hide TINYGL_LOOP, APPS_MARKER, SOURCE_LOOP, OLD_CALL, OLD_CALL_TAIL;
    hide OBJECT_APPEND, LINK_CALL, LIBRARY_GLOB;
    var line := "x" + LIBRARY_GLOB + " z" + "\n";
    GlobLacks();
    NeedleChars();
    Found("x", LIBRARY_GLOB, " z" + "\n");
    assert line == "x" + LIBRARY_GLOB + (" z" + "\n");
    Without(line, TINYGL_LOOP, 'f');
    Without(line, APPS_MARKER, '#');
    Without(line, SOURCE_LOOP, ';');
    Without(line, LINK_CALL, 'D');
  }

  lemma AppendOutsideLoop()
    ensures BranchOf(Script(), OBJECT_APPEND + LIBRARY_GLOB + "\n", false) == LibraryGlob
  {
    hide Contains, LibraryBlock, CompileBlock;
    hide TINYGL_LOOP, APPS_MARKER, SOURCE_LOOP, OLD_CALL, OLD_CALL_TAIL;
    hide OBJECT_APPEND, LINK_CALL, LIBRARY_GLOB;
    var line := OBJECT_APPEND + LIBRARY_GLOB + "\n";
    AppendLacks();
    GlobLacks();
    NeedleChars();
    Found(OBJECT_APPEND, LIBRARY_GLOB, "\n");
    assert line == OBJECT_APPEND + LIBRARY_GLOB + ("\n");
    Without(line, TINYGL_LOOP, 'y');
    Without(line, APPS_MARKER, '#');
    Without(line, SOURCE_LOOP, ';');
    Without(line, LINK_CALL, 'D');
  }

  // ---- the run ----

  function BeforeLoop(): seq<string> {
    [APPS_MARKER + TINYGL_LOOP + "\n", SOURCE_LOOP + APPS_MARKER + "\n", OLD_CALL + "\n",
     "        " + SOURCE_LOOP + "\n"]
  }

  function InLoop(): seq<string> {
    [OLD_CALL + SOURCE_LOOP + "\n", OLD_CALL_TAIL + OLD_CALL + "\n", OBJECT_APPEND + OLD_CALL_TAIL + "\n",
     LINK_CALL + OBJECT_APPEND + "\n"]
  }

  function AfterLoop(): seq<string> {
    [OLD_CALL + "\n", OLD_CALL_TAIL + "\n", LIBRARY_GLOB + LINK_CALL + "\n",
     "x" + LIBRARY_GLOB + " z" + "\n"]
  }

  /** What a line leaves. */
  predicate Leaves(r: Rules, line: string, inFolders: bool, out: seq<string>, next: bool) {
    LinesFor(r, line, inFolders, 1) == out && NextFlag(r, line, inFolders) == next
  }

  lemma LineThen(r: Rules, line: string, rest: seq<string>, inFolders: bool)
    ensures OutLines(r, [line] + rest, inFolders, 1) ==
            LinesFor(r, line, inFolders, 1) + OutLines(r, rest, NextFlag(r, line, inFolders), 1)
    ensures FlagAfter(r, [line] + rest, inFolders) == FlagAfter(r, rest, NextFlag(r, line, inFolders))
  {
    hide LinesFor, NextFlag, BranchOf;
    assert ([line] + rest)[1..] == rest;
  }

  lemma NothingLeft(r: Rules, inFolders: bool)
    ensures OutLines(r, [], inFolders, 1) == [] && FlagAfter(r, [], inFolders) == inFolders
  {}

  lemma FourLines(r: Rules, lines: seq<string>, f: seq<bool>, outs: seq<seq<string>>)
    requires |lines| == 4 && |f| == 5 && |outs| == 4
    requires forall i | 0 <= i < 4 :: Leaves(r, lines[i], f[i], outs[i], f[i + 1])
    ensures OutLines(r, lines, f[0], 1) == outs[0] + (outs[1] + (outs[2] + outs[3]))
    ensures FlagAfter(r, lines, f[0]) == f[4]
  {
    hide LinesFor, NextFlag, BranchOf, OutLines, FlagAfter;
    assert Leaves(r, lines[0], f[0], outs[0], f[1]) && Leaves(r, lines[1], f[1], outs[1], f[2]);
    assert Leaves(r, lines[2], f[2], outs[2], f[3]) && Leaves(r, lines[3], f[3], outs[3], f[4]);
    NothingLeft(r, f[4]);
    LineThen(r, lines[3], [], f[3]);
    LineThen(r, lines[2], [lines[3]] + [], f[2]);
    LineThen(r, lines[1], [lines[2]] + ([lines[3]] + []), f[1]);
    LineThen(r, lines[0], [lines[1]] + ([lines[2]] + ([lines[3]] + [])), f[0]);
    assert lines == [lines[0]] + ([lines[1]] + ([lines[2]] + ([lines[3]] + [])));
    assert outs[3] + [] == outs[3];
  }

  lemma BeforeLoopRun()
    ensures OutLines(Script(), BeforeLoop(), false, 1) ==
            BeforeLoop()[..1] + (LibraryBlock() + BeforeLoop()[1..])
    ensures FlagAfter(Script(), BeforeLoop(), false)
  {
    hide BranchOf, LibraryBlock, CompileBlock;
    hide TINYGL_LOOP, APPS_MARKER, SOURCE_LOOP, OLD_CALL, OLD_CALL_TAIL, OBJECT_APPEND, LINK_CALL, LIBRARY_GLOB;
    var l, block := BeforeLoop(), LibraryBlock();
    TinyglBeforeMarker();
    MarkerBeforeLoop();
    CallOutsideLoop();
    LoopIndented();
    assert Copies(block, 1) == block + [];
    FourLines(Script(), l, [false, false, false, false, true], [[l[0]], block + [l[1]], [l[2]], [l[3]]]);
  }

  lemma InLoopRun()
    ensures OutLines(Script(), InLoop(), true, 1) == InLoop()[..1] + (CompileBlock() + InLoop()[3..])
    ensures !FlagAfter(Script(), InLoop(), true)
  {
    hide BranchOf, LibraryBlock, CompileBlock;
    hide TINYGL_LOOP, APPS_MARKER, SOURCE_LOOP, OLD_CALL, OLD_CALL_TAIL, OBJECT_APPEND, LINK_CALL, LIBRARY_GLOB;
    var l := InLoop();
    LoopBeforeCall();
    CallBeforeTail();
    TailBeforeAppend();
    AppendBeforeLink();
    FourLines(Script(), l, [true, true, true, true, false], [[l[0]], CompileBlock(), [], [l[3]]]);
  }

  lemma AfterLoopRun()
    ensures OutLines(Script(), AfterLoop(), false, 1) == AfterLoop()[..3] + [LIBRARY_GLOB + "\n"]
    ensures !FlagAfter(Script(), AfterLoop(), false)
  {
    hide BranchOf, LibraryBlock, CompileBlock;
    hide TINYGL_LOOP, APPS_MARKER, SOURCE_LOOP, OLD_CALL, OLD_CALL_TAIL, OBJECT_APPEND, LINK_CALL, LIBRARY_GLOB;
    var l := AfterLoop();
    CallOutsideLoop();
    TailOutsideLoop();
    LinkBeforeGlob();
    GlobAnywhere();
    FourLines(Script(), l, [false, false, false, false, false], [[l[0]], [l[1]], [l[2]], [LIBRARY_GLOB + "\n"]]);
  }

  lemma LastLineRun()
    ensures OutLines(Script(), [OBJECT_APPEND + LIBRARY_GLOB + "\n"], false, 1) == [LIBRARY_GLOB + "\n"]
  {
    hide BranchOf, LibraryBlock, CompileBlock, OBJECT_APPEND, LIBRARY_GLOB;
    AppendOutsideLoop();
    var line := OBJECT_APPEND + LIBRARY_GLOB + "\n";
    assert OutLines(Script(), [line], false, 1) == LinesFor(Script(), line, false, 1) + [];
  }

  /** The exact text the script writes for a file that meets every rule. Before a folder loop: a marker in a
      TinyGL loop line is passed over, one in a source loop line gets the block and hides the loop, an old
      call is kept, an indented loop is entered. In the loop: another loop line is kept, an old call becomes
      the new steps, its tail goes, an object list in a link line ends the loop. After it: call and tail are
      kept, a glob in a link line too, any other glob becomes canonical, in an object list as well. */
  lemma ExactRun()
    ensures PatchText(Script(), Concat(BeforeLoop() + InLoop() + AfterLoop()
                                       + [OBJECT_APPEND + LIBRARY_GLOB + "\n"])) ==
            Concat(BeforeLoop()[..1] + (LibraryBlock() + BeforeLoop()[1..])
                   + (InLoop()[..1] + (CompileBlock() + InLoop()[3..]))
                   + (AfterLoop()[..3] + [LIBRARY_GLOB + "\n"]) + [LIBRARY_GLOB + "\n"])
  {
    hide *;
    var last := [OBJECT_APPEND + LIBRARY_GLOB + "\n"];
    var r, lines := Script(), BeforeLoop() + InLoop() + AfterLoop() + last;
    LinesOfRun();
    SplitLinesConcat(lines);
    PatchOfLines(r, lines);
    OutLinesAppend(r, BeforeLoop() + InLoop() + AfterLoop(), last, false, 1);
    OutLinesAppend(r, BeforeLoop() + InLoop(), AfterLoop(), false, 1);
    OutLinesAppend(r, BeforeLoop(), InLoop(), false, 1);
    BeforeLoopRun();
    InLoopRun();
    AfterLoopRun();
    LastLineRun();
  }

  lemma PatchOfLines(r: Rules, lines: seq<string>)
    requires SplitLines(Concat(lines)) == lines
    ensures PatchText(r, Concat(lines)) == Concat(OutLines(r, lines, false, 1))
  {
    hide OutLines, NewLines, SplitLines, Concat;
    NewLinesText(r, lines, false);
  }

  lemma LinesOfRun()
    ensures AreLines(BeforeLoop() + InLoop() + AfterLoop() + [OBJECT_APPEND + LIBRARY_GLOB + "\n"])
  {
    hide AreLines, Terminated, BeforeLoop, InLoop, AfterLoop, OBJECT_APPEND, LIBRARY_GLOB;
    var last := [OBJECT_APPEND + LIBRARY_GLOB + "\n"];
    BeforeTerminated();
    InTerminated();
    AfterTerminated();
    NoLines();
    AreLinesAppend(BeforeLoop() + InLoop() + AfterLoop() + last, []);
    assert BeforeLoop() + InLoop() + AfterLoop() + last + [] == BeforeLoop() + InLoop() + AfterLoop() + last;
  }

  lemma NoBreaks()
    ensures '\n' !in TINYGL_LOOP && '\n' !in APPS_MARKER && '\n' !in SOURCE_LOOP && '\n' !in OLD_CALL
    ensures '\n' !in OLD_CALL_TAIL && '\n' !in OBJECT_APPEND && '\n' !in LINK_CALL && '\n' !in LIBRARY_GLOB
  {
    hide TINYGL_LOOP, APPS_MARKER, SOURCE_LOOP, OLD_CALL, OLD_CALL_TAIL, OBJECT_APPEND, LINK_CALL, LIBRARY_GLOB;
    TinyglLacks();
    MarkerLacks();
    SourceLoopLacks();
    OldCallLacks();
    TailLacks();
    AppendLacks();
    LinkCallLacks();
    GlobLacks();
  }

  lemma BeforeTerminated()
    ensures forall line <- BeforeLoop() :: Terminated(line)
  {
    hide TINYGL_LOOP, APPS_MARKER, SOURCE_LOOP, OLD_CALL, OLD_CALL_TAIL, OBJECT_APPEND, LINK_CALL, LIBRARY_GLOB;
    hide Terminated;
    NoBreaks();
    Ended(APPS_MARKER + TINYGL_LOOP);
    Ended(SOURCE_LOOP + APPS_MARKER);
    Ended(OLD_CALL);
    Ended("        " + SOURCE_LOOP);
  }

  lemma InTerminated()
    ensures forall line <- InLoop() :: Terminated(line)
  {
    hide TINYGL_LOOP, APPS_MARKER, SOURCE_LOOP, OLD_CALL, OLD_CALL_TAIL, OBJECT_APPEND, LINK_CALL, LIBRARY_GLOB;
    hide Terminated;
    NoBreaks();
    Ended(OLD_CALL + SOURCE_LOOP);
    Ended(OLD_CALL_TAIL + OLD_CALL);
    Ended(OBJECT_APPEND + OLD_CALL_TAIL);
    Ended(LINK_CALL + OBJECT_APPEND);
  }

  lemma AfterTerminated()
    ensures forall line <- AfterLoop() :: Terminated(line)
    ensures Terminated(OBJECT_APPEND + LIBRARY_GLOB + "\n")
  {
    hide TINYGL_LOOP, APPS_MARKER, SOURCE_LOOP, OLD_CALL, OLD_CALL_TAIL, OBJECT_APPEND, LINK_CALL, LIBRARY_GLOB;
    hide Terminated;
    NoBreaks();
    Ended(OLD_CALL);
    Ended(OLD_CALL_TAIL);
    Ended(LIBRARY_GLOB + LINK_CALL);
    Ended("x" + LIBRARY_GLOB + " z");
    Ended(OBJECT_APPEND + LIBRARY_GLOB);
  }

  lemma Ended(text: string)
    requires '\n' !in text
    ensures Terminated(text + "\n")
  {
    assert (text + "\n")[..|text|] == text;
  }
}
