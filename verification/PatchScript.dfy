/** patch_build.py with its own texts: what one run and any number of runs do to any build script. */
module PatchScript {
  import opened Text
  import opened PatchBuild
  import opened Rerun
  import opened BuildTexts
  import opened BuildNeutral

  /** Any number of runs, k >= 1, equal one run that puts k copies of the FreeType and ImGui block before
      each marker line and differs in nothing else. */
  lemma RunAgain(text: string, k: nat)
    requires k >= 1
    ensures PatchTimes(Script(), text, k) == PatchWithCopies(Script(), text, k)
    ensures SplitLines(PatchTimes(Script(), text, k)) == OutLines(Script(), SplitLines(text), false, k)
  {
    hide *;
    ScriptIsNeutral();
    PatchTimesIsCopies(Script(), text, k);
  }

  /** After the output of the first i lines of a file, a second run is in the mode the first run was in
      after those lines. */
  lemma ModesAgree(text: string, i: nat)
    requires i <= |SplitLines(text)|
    ensures var lines := SplitLines(text)[..i];
            FlagAfter(Script(), OutLines(Script(), lines, false, 1), false) == FlagAfter(Script(), lines, false)
  {
    hide *;
    ScriptIsNeutral();
    OutLinesAgain(Script(), SplitLines(text)[..i], false, 1);
  }

  /** The script can be run twice without harm exactly on files without a marker line. */
  lemma RunTwice(text: string)
    ensures PatchText(Script(), PatchText(Script(), text)) == PatchText(Script(), text)
            <==> Count(Script(), SplitLines(text), false, AppsMarker) == 0
  {
    hide PatchText, Script, SplitLines, Count, Neutral;
    ScriptIsNeutral();
    SecondRun(Script(), text);
    OneRun(Script(), text);
    assert PatchTimes(Script(), text, 2) == PatchText(Script(), PatchTimes(Script(), text, 1));
  }

  /** A run leaves a file as it is exactly when no line is a marker, an old call or its tail, and every
      library glob is already canonical. */
  lemma RunChangesNothing(text: string)
    ensures PatchText(Script(), text) == text <==> Settled(Script(), SplitLines(text), false)
  {
    hide *;
    ScriptIsNeutral();
    PatchFixpoint(Script(), text);
  }

  /** The line count of the patched file: 20 more per marker, 6 more per old call, 1 less per tail. */
  lemma RunLineCount(text: string)
    ensures var lines := SplitLines(text);
            |SplitLines(PatchText(Script(), text))| ==
            |lines| + 20 * Count(Script(), lines, false, AppsMarker) + 6 * Count(Script(), lines, false, OldCall)
            - Count(Script(), lines, false, OldCallTail)
  {
    hide *;
    ScriptIsNeutral();
    PatchTextLines(Script(), text);
    LineAccounting(Script(), SplitLines(text), false, 1);
  }

  /** No line of a patched file is an old compile call, or the tail of one, inside a folder loop. */
  lemma RunLeavesNoOldCall(text: string)
    ensures var out := SplitLines(PatchText(Script(), text));
            forall i | 0 <= i < |out| ::
              !BranchAt(Script(), out, i).OldCall? && !BranchAt(Script(), out, i).OldCallTail?
  {
    hide PatchText, Script, SplitLines, Count, Neutral, OutLines;
    ScriptIsNeutral();
    PatchTextLines(Script(), text);
    var lines, out := SplitLines(text), SplitLines(PatchText(Script(), text));
    NoOldCallSurvives(Script(), lines, false, 1, OldCall);
    NoOldCallSurvives(Script(), lines, false, 1, OldCallTail);
    forall i | 0 <= i < |out| ensures !BranchAt(Script(), out, i).OldCall? && !BranchAt(Script(), out, i).OldCallTail? {
      CountZero(Script(), out, false, OldCall, i);
      CountZero(Script(), out, false, OldCallTail, i);
    }
  }

  /** No rule replaces or drops the line. Outside a folder loop, that is every line but a library glob. */
  predicate Stays(lines: seq<string>, i: nat)
    requires i < |lines|
  {
    var b := BranchAt(Script(), lines, i);
    !b.OldCall? && !b.OldCallTail? && !b.LibraryGlob?
  }

  /** Where line i, if it stays, stands in the patched file. */
  function NewPlace(lines: seq<string>, i: nat): int
    requires i < |lines|
  {
    OutputEnd(Script(), lines, false, 1, i + 1) - 1
  }

  /** Lines that stay do so in order: any two input lines i < j stand at increasing places of the output. */
  lemma RunKeepsLines(text: string, i: nat, j: nat)
    requires i < j < |SplitLines(text)|
    ensures var lines, out := SplitLines(text), SplitLines(PatchText(Script(), text));
            Stays(lines, i) && Stays(lines, j) ==>
              && 0 <= NewPlace(lines, i) < NewPlace(lines, j) < |out|
              && out[NewPlace(lines, i)] == lines[i] && out[NewPlace(lines, j)] == lines[j]
  {
    hide PatchText, Script, SplitLines, Neutral, OutLines, BranchOf, FlagAfter, OutputEnd;
    var lines := SplitLines(text);
    if Stays(lines, i) && Stays(lines, j) {
      ScriptIsNeutral();
      PatchTextLines(Script(), text);
      KeptLine(Script(), lines, false, 1, i);
      KeptLine(Script(), lines, false, 1, j);
      OutputEndMonotone(Script(), lines, false, 1, i + 1, j);
    }
  }

  /** A file of one marker line: the second run inserts the block a second time. */
  lemma MarkerFileExample()
    ensures var text := APPS_MARKER + "\n"; PatchText(Script(), PatchText(Script(), text)) != PatchText(Script(), text)
  {
    hide PatchText, Script, APPS_MARKER, Contains, SplitLines;
    var text := APPS_MARKER + "\n";
    MarkerLineFacts();
    SplitLinesConcat([text]);
    assert [text][1..] == [] && Concat([text]) == text + Concat([]) == text;
    MarkerBranch(text);
    assert Count(Script(), [text], false, AppsMarker)
           == 1 + Count(Script(), [text][1..], NextFlag(Script(), text, false), AppsMarker);
    RunTwice(text);
  }

  lemma MarkerLacks()
    ensures Lacks(APPS_MARKER, {'*', '\n'})
  {}

  lemma MarkerLineFacts()
    ensures Terminated(APPS_MARKER + "\n") && '*' !in APPS_MARKER + "\n"
  {
    hide APPS_MARKER;
    MarkerLacks();
    var line := APPS_MARKER + "\n";
    assert line[..|line| - 1] == APPS_MARKER;
  }

  lemma MarkerBranch(text: string)
    requires text == APPS_MARKER + "\n"
    ensures BranchOf(Script(), text, false) == AppsMarker
  {
    hide LibraryBlock, CompileBlock, SOURCE_LOOP, OLD_CALL, OLD_CALL_TAIL;
    hide OBJECT_APPEND, LINK_CALL, LIBRARY_GLOB, APPS_MARKER;
    MarkerLineFacts();
    assert OccursAt(text, APPS_MARKER, 0);
    assert TINYGL_LOOP[29] == '*';
    MissingChar(text, TINYGL_LOOP, 29);
  }
}
