/** What running patch_build.py again, on its own output, does: for all rule texts that are neutral in
    the sense of PatchBuild.Neutral. */
module Rerun {
  import opened Text
  import opened PatchBuild

  /** The file after k runs of the script. */
  function PatchTimes(r: Rules, text: string, k: nat): string {
    if k == 0 then text else PatchText(r, PatchTimes(r, text, k - 1))
  }

  /** One pass that inserts k copies of the library block at each marker, as a text. */
  function PatchWithCopies(r: Rules, text: string, k: nat): string {
    Concat(OutLines(r, SplitLines(text), false, k))
  }

  lemma {:induction false} UntouchedLines(r: Rules, lines: seq<string>, inFolders: bool, k: nat)
    requires forall line, flag :: line in lines ==> BranchOf(r, line, flag) == Other
    ensures OutLines(r, lines, inFolders, k) == lines
    ensures FlagAfter(r, lines, inFolders) == inFolders
  {
    hide BranchOf;
    if lines != [] {
      assert lines[0] in lines;
      assert forall line <- lines[1..] :: line in lines;
      UntouchedLines(r, lines[1..], inFolders, k);
    }
  }

  lemma LastLine(r: Rules, before: seq<string>, line: string, inFolders: bool, k: nat)
    requires forall l, flag :: l in before ==> BranchOf(r, l, flag) == Other
    ensures OutLines(r, before + [line], inFolders, k) == before + LinesFor(r, line, inFolders, k)
    ensures FlagAfter(r, before + [line], inFolders) == NextFlag(r, line, inFolders)
  {
    hide BranchOf, LinesFor;
    OutLinesAppend(r, before, [line], inFolders, k);
    UntouchedLines(r, before, inFolders, k);
    assert OutLines(r, [line], inFolders, k) == LinesFor(r, line, inFolders, k) + [];
  }

  lemma {:induction false} CopiesShift(block: seq<string>, k: nat)
    ensures Copies(block, k) + block == Copies(block, k + 1)
  {
    if k == 0 {
      assert [] + block == block + [];
    } else {
      CopiesShift(block, k - 1);
      assert block + Copies(block, k - 1) + block == block + (Copies(block, k - 1) + block);
    }
  }

  /** A pass over what one line became, under the flag the line itself saw, adds one more copy of the
      block if the line is a marker and nothing otherwise, and leaves the flag the line left. */
  lemma LineAgain(r: Rules, line: string, inFolders: bool, k: nat)
    requires Neutral(r)
    ensures OutLines(r, LinesFor(r, line, inFolders, k), inFolders, 1) == LinesFor(r, line, inFolders, k + 1)
    ensures FlagAfter(r, LinesFor(r, line, inFolders, k), inFolders) == NextFlag(r, line, inFolders)
  {
    hide BranchOf;
    CopiesOf(r.libraryBlock, k);
    match BranchOf(r, line, inFolders)
    case AppsMarker =>
      LastLine(r, Copies(r.libraryBlock, k), line, inFolders, 1);
      CopiesShift(r.libraryBlock, k);
      assert Copies(r.libraryBlock, 1) == r.libraryBlock;
      assert Copies(r.libraryBlock, k) + (r.libraryBlock + [line])
             == Copies(r.libraryBlock, k) + r.libraryBlock + [line];
    case OldCall =>
      UntouchedLines(r, r.compileBlock, inFolders, 1);
    case OldCallTail =>
    case LibraryGlob =>
      LastLine(r, [], r.libraryGlobLine, inFolders, 1);
      assert [] + [r.libraryGlobLine] == [r.libraryGlobLine];
    case _ =>
      LastLine(r, [], line, inFolders, 1);
      assert [] + [line] == [line];
  }

  /** The mode flag agrees: after the output of any part of the file a second run has the flag the
      first had after that part. The second run's output is the first's with one more copy of the
      library block at each marker. */
  lemma {:induction false} OutLinesAgain(r: Rules, lines: seq<string>, inFolders: bool, k: nat)
    requires Neutral(r)
    ensures OutLines(r, OutLines(r, lines, inFolders, k), inFolders, 1) == OutLines(r, lines, inFolders, k + 1)
    ensures FlagAfter(r, OutLines(r, lines, inFolders, k), inFolders) == FlagAfter(r, lines, inFolders)
  {
    hide BranchOf, LinesFor, NextFlag;
    if lines != [] {
      var flag := NextFlag(r, lines[0], inFolders);
      var head, tail := LinesFor(r, lines[0], inFolders, k), OutLines(r, lines[1..], flag, k);
      LineAgain(r, lines[0], inFolders, k);
      OutLinesAgain(r, lines[1..], flag, k);
      OutLinesAppend(r, head, tail, inFolders, 1);
    }
  }

  /** k runs equal one run that inserts k copies of the library block at each marker and is otherwise
      the same. */
  lemma {:induction false} PatchTimesIsCopies(r: Rules, text: string, k: nat)
    requires Neutral(r) && k >= 1
    ensures PatchTimes(r, text, k) == PatchWithCopies(r, text, k)
    ensures SplitLines(PatchTimes(r, text, k)) == OutLines(r, SplitLines(text), false, k)
  {
    hide SplitLines, NewLines, OutLines;
    var lines := SplitLines(text);
    ConcatSplitLines(text);
    OutLinesAreLines(r, lines, false, k);
    if k == 1 {
      PatchTextLines(r, text);
      ConcatSplitLines(PatchText(r, text));
      assert PatchTimes(r, text, 0) == text;
    } else {
      PatchTimesIsCopies(r, text, k - 1);
      var before := PatchTimes(r, text, k - 1);
      PatchTextLines(r, before);
      ConcatSplitLines(PatchText(r, before));
      OutLinesAgain(r, lines, false, k - 1);
    }
  }

  /** What the mode flag means: it is set exactly when some source loop was entered and no object list was
      appended to since. */
  lemma {:induction false} ModeIsOpenLoop(r: Rules, lines: seq<string>)
    ensures FlagAfter(r, lines, false) <==>
            exists i | 0 <= i < |lines| ::
              BranchAt(r, lines, i).SourceLoop? && forall j | i < j < |lines| :: !BranchAt(r, lines, j).ObjectAppend?
  {
    hide BranchOf, OutLines;
    if lines != [] {
      var n := |lines| - 1;
      var init, last := lines[..n], lines[n];
      assert lines == init + [last] && lines[..n] == init;
      OutLinesAppend(r, init, [last], false, 1);
      assert FlagAfter(r, [last], FlagAfter(r, init, false)) == NextFlag(r, last, FlagAfter(r, init, false));
      ModeIsOpenLoop(r, init);
      forall i | 0 <= i < n ensures BranchAt(r, init, i) == BranchAt(r, lines, i) {
        assert init[..i] == lines[..i];
      }
      if FlagAfter(r, lines, false) && !BranchAt(r, lines, n).SourceLoop? {
        var i :| && 0 <= i < n && BranchAt(r, init, i).SourceLoop?
                 && forall j | i < j < n :: !BranchAt(r, init, j).ObjectAppend?;
        assert BranchAt(r, lines, i).SourceLoop?;
      }
      if i :| && 0 <= i < |lines| && BranchAt(r, lines, i).SourceLoop?
              && forall j | i < j < |lines| :: !BranchAt(r, lines, j).ObjectAppend?
      {
        if i < n {
          assert !BranchAt(r, lines, n).ObjectAppend?;
          assert BranchAt(r, init, i).SourceLoop?;
          assert forall j | i < j < n :: !BranchAt(r, init, j).ObjectAppend? by {
            assert forall j | i < j < n :: BranchAt(r, init, j) == BranchAt(r, lines, j);
          }
        }
      }
    }
  }

  // ---- counting lines ----

  lemma LineSize(r: Rules, line: string, inFolders: bool, k: nat)
    ensures var b := BranchOf(r, line, inFolders);
            |LinesFor(r, line, inFolders, k)| ==
            1 + (if b.AppsMarker? then k * |r.libraryBlock| else 0) + (if b.OldCall? then |r.compileBlock| - 1 else 0)
            - (if b.OldCallTail? then 1 else 0)
  {
    hide BranchOf;
    CopiesOf(r.libraryBlock, k);
  }

  /** Every input line gives one output line, plus the block at a marker, plus the rest of the compile
      block at an old call, and none at the old call's tail. */
  lemma {:induction false} LineAccounting(r: Rules, lines: seq<string>, inFolders: bool, k: nat)
    ensures |OutLines(r, lines, inFolders, k)| ==
            |lines| + k * |r.libraryBlock| * Count(r, lines, inFolders, AppsMarker)
            + (|r.compileBlock| - 1) * Count(r, lines, inFolders, OldCall)
            - Count(r, lines, inFolders, OldCallTail)
  {
    hide BranchOf, LinesFor;
    if lines != [] {
      var flag := NextFlag(r, lines[0], inFolders);
      LineSize(r, lines[0], inFolders, k);
      LineAccounting(r, lines[1..], flag, k);
      Distribute(k * |r.libraryBlock|, Count(r, lines[1..], flag, AppsMarker));
      Distribute(|r.compileBlock| - 1, Count(r, lines[1..], flag, OldCall));
    }
  }

  lemma Distribute(m: int, n: int)
    ensures m * (1 + n) == m + m * n && m * (0 + n) == m * n
  {}

  // ---- what a run leaves behind ----

  lemma {:induction false} CountAppend(r: Rules, xs: seq<string>, ys: seq<string>, inFolders: bool, b: Branch)
    ensures Count(r, xs + ys, inFolders, b) == Count(r, xs, inFolders, b) + Count(r, ys, FlagAfter(r, xs, inFolders), b)
  {
    hide BranchOf;
    if xs == [] {
      assert xs + ys == ys;
    } else {
      assert (xs + ys)[1..] == xs[1..] + ys;
      CountAppend(r, xs[1..], ys, NextFlag(r, xs[0], inFolders), b);
    }
  }

  lemma {:induction false} UntouchedCount(r: Rules, lines: seq<string>, inFolders: bool, b: Branch)
    requires forall line, flag :: line in lines ==> BranchOf(r, line, flag) == Other
    ensures b != Other ==> Count(r, lines, inFolders, b) == 0
  {
    hide BranchOf;
    if lines != [] {
      assert lines[0] in lines;
      assert forall line <- lines[1..] :: line in lines;
      UntouchedCount(r, lines[1..], inFolders, b);
    }
  }

  lemma LineLeavesNoCall(r: Rules, line: string, inFolders: bool, k: nat, b: Branch)
    requires Neutral(r) && (b == OldCall || b == OldCallTail)
    ensures Count(r, LinesFor(r, line, inFolders, k), inFolders, b) == 0
  {
    hide BranchOf;
    CopiesOf(r.libraryBlock, k);
    var out := LinesFor(r, line, inFolders, k);
    match BranchOf(r, line, inFolders)
    case AppsMarker =>
      var copies := Copies(r.libraryBlock, k);
      CountAppend(r, copies, [line], inFolders, b);
      UntouchedCount(r, copies, inFolders, b);
      UntouchedLines(r, copies, inFolders, 1);
      assert Count(r, [line], inFolders, b) == 0 + Count(r, [], NextFlag(r, line, inFolders), b);
    case OldCall =>
      UntouchedCount(r, r.compileBlock, inFolders, b);
    case OldCallTail =>
    case _ =>
      assert Count(r, out, inFolders, b) == 0 + Count(r, [], NextFlag(r, out[0], inFolders), b);
  }

  /** In a script's output, read with the same mode flag, no line is an old compile call or its tail. */
  lemma {:induction false} NoOldCallSurvives(r: Rules, lines: seq<string>, inFolders: bool, k: nat, b: Branch)
    requires Neutral(r) && (b == OldCall || b == OldCallTail)
    ensures Count(r, OutLines(r, lines, inFolders, k), inFolders, b) == 0
  {
    hide BranchOf, LinesFor, NextFlag;
    if lines != [] {
      var flag := NextFlag(r, lines[0], inFolders);
      LineLeavesNoCall(r, lines[0], inFolders, k, b);
      LineAgain(r, lines[0], inFolders, k);
      NoOldCallSurvives(r, lines[1..], flag, k, b);
      CountAppend(r, LinesFor(r, lines[0], inFolders, k), OutLines(r, lines[1..], flag, k), inFolders, b);
    }
  }

  lemma {:induction false} CountZero(r: Rules, lines: seq<string>, inFolders: bool, b: Branch, i: nat)
    requires i < |lines| && Count(r, lines, inFolders, b) == 0
    ensures BranchOf(r, lines[i], FlagAfter(r, lines[..i], inFolders)) != b
  {
    hide BranchOf;
    if i > 0 {
      CountZero(r, lines[1..], NextFlag(r, lines[0], inFolders), b, i - 1);
      assert lines[..i][1..] == lines[1..][..i - 1];
    }
  }

  /** Where the output of the first i lines ends. */
  function OutputEnd(r: Rules, lines: seq<string>, inFolders: bool, k: nat, i: nat): nat
    requires i <= |lines|
  {
    |OutLines(r, lines[..i], inFolders, k)|
  }

  lemma OutputEndStep(r: Rules, lines: seq<string>, inFolders: bool, k: nat, i: nat)
    requires i < |lines|
    ensures var before := OutLines(r, lines[..i], inFolders, k);
            var here := LinesFor(r, lines[i], FlagAfter(r, lines[..i], inFolders), k);
            && OutLines(r, lines[..i + 1], inFolders, k) == before + here
            && before + here <= OutLines(r, lines, inFolders, k)
  {
    hide BranchOf, LinesFor, NextFlag, FlagAfter;
    assert lines[..i + 1] == lines[..i] + [lines[i]];
    assert lines == lines[..i + 1] + lines[i + 1..];
    OutLinesAppend(r, lines[..i], [lines[i]], inFolders, k);
    OutLinesAppend(r, lines[..i + 1], lines[i + 1..], inFolders, k);
    var flag := FlagAfter(r, lines[..i], inFolders);
    assert OutLines(r, [lines[i]], flag, k) == LinesFor(r, lines[i], flag, k) + [];
  }

  /** A line no rule replaces or drops stands in the output, as the last line its own input line gave;
      outside a folder loop that is every line but a library glob. */
  lemma KeptLine(r: Rules, lines: seq<string>, inFolders: bool, k: nat, i: nat)
    requires i < |lines|
    requires var flag := FlagAfter(r, lines[..i], inFolders);
             var b := BranchOf(r, lines[i], flag);
             !b.LibraryGlob? && (flag ==> !b.OldCall? && !b.OldCallTail?)
    ensures var out, p := OutLines(r, lines, inFolders, k), OutputEnd(r, lines, inFolders, k, i + 1);
            OutputEnd(r, lines, inFolders, k, i) < p <= |out| && out[p - 1] == lines[i]
  {
    hide OutLines, FlagAfter, Contains;
    OutputEndStep(r, lines, inFolders, k, i);
  }

  lemma {:induction false} OutputEndMonotone(r: Rules, lines: seq<string>, inFolders: bool, k: nat, i: nat, j: nat)
    requires i <= j <= |lines|
    ensures OutputEnd(r, lines, inFolders, k, i) <= OutputEnd(r, lines, inFolders, k, j)
    decreases j - i
  {
    hide OutLines, FlagAfter, LinesFor;
    if i < j {
      OutputEndStep(r, lines, inFolders, k, i);
      OutputEndMonotone(r, lines, inFolders, k, i + 1, j);
    }
  }

  // ---- which files a run leaves alone ----

  /** No rule inserts, replaces or drops anything in these lines, and every glob line is canonical. */
  predicate Settled(r: Rules, lines: seq<string>, inFolders: bool) {
    lines == [] ||
    var b := BranchOf(r, lines[0], inFolders);
    && !b.AppsMarker? && !b.OldCall? && !b.OldCallTail?
    && (b.LibraryGlob? ==> lines[0] == r.libraryGlobLine)
    && Settled(r, lines[1..], NextFlag(r, lines[0], inFolders))
  }

  lemma {:induction false} SettledIsKept(r: Rules, lines: seq<string>, inFolders: bool)
    requires Settled(r, lines, inFolders)
    ensures OutLines(r, lines, inFolders, 1) == lines
  {
    hide BranchOf;
    if lines != [] {
      SettledIsKept(r, lines[1..], NextFlag(r, lines[0], inFolders));
    }
  }

  lemma {:induction false} KeptIsSettled(r: Rules, lines: seq<string>, inFolders: bool)
    requires OutLines(r, lines, inFolders, 1) == lines
    requires Count(r, lines, inFolders, AppsMarker) == 0
    requires Count(r, lines, inFolders, OldCall) == 0 && Count(r, lines, inFolders, OldCallTail) == 0
    ensures Settled(r, lines, inFolders)
  {
    hide BranchOf;
    if lines != [] {
      var here := LinesFor(r, lines[0], inFolders, 1);
      assert |here| == 1;
      assert lines == here + OutLines(r, lines[1..], NextFlag(r, lines[0], inFolders), 1);
      KeptIsSettled(r, lines[1..], NextFlag(r, lines[0], inFolders));
    }
  }

  /** A run changes nothing exactly when the file is settled. */
  lemma PatchFixpoint(r: Rules, text: string)
    requires Neutral(r)
    ensures PatchText(r, text) == text <==> Settled(r, SplitLines(text), false)
  {
    hide BranchOf, Neutral, SplitLines, OutLines, NewLines;
    var lines := SplitLines(text);
    PatchTextLines(r, text);
    ConcatSplitLines(text);
    NewLinesText(r, lines, false);
    if Settled(r, lines, false) {
      SettledIsKept(r, lines, false);
    }
    if PatchText(r, text) == text {
      NoOldCallSurvives(r, lines, false, 1, OldCall);
      NoOldCallSurvives(r, lines, false, 1, OldCallTail);
      LineAccounting(r, lines, false, 1);
      NoMarkers(r, Count(r, lines, false, AppsMarker));
      KeptIsSettled(r, lines, false);
    }
  }

  lemma NoMarkers(r: Rules, n: nat)
    requires Neutral(r)
    ensures |r.libraryBlock| * n == 0 ==> n == 0
  {
    hide BranchOf;
  }

  /** A second run changes nothing exactly when the file has no marker line; it never undoes or redoes
      any other rule. */
  lemma SecondRun(r: Rules, text: string)
    requires Neutral(r)
    ensures PatchTimes(r, text, 2) == PatchText(r, text) <==> Count(r, SplitLines(text), false, AppsMarker) == 0
  {
    hide BranchOf, Neutral, SplitLines, OutLines, NewLines, Count, PatchTimes;
    var lines := SplitLines(text);
    PatchTimesIsCopies(r, text, 2);
    PatchTimesIsCopies(r, text, 1);
    OneRun(r, text);
    MarkersGrow(r, lines);
    if Count(r, lines, false, AppsMarker) == 0 { CopiesUnused(r, lines, false, 1, 2); }
  }

  lemma OneRun(r: Rules, text: string)
    ensures PatchTimes(r, text, 1) == PatchText(r, text)
  {
    hide PatchText;
    assert PatchTimes(r, text, 1) == PatchText(r, PatchTimes(r, text, 0));
  }

  lemma MarkersGrow(r: Rules, lines: seq<string>)
    requires Neutral(r)
    ensures OutLines(r, lines, false, 1) == OutLines(r, lines, false, 2) ==> Count(r, lines, false, AppsMarker) == 0
  {
    hide BranchOf, Neutral, OutLines, Count;
    var n := Count(r, lines, false, AppsMarker);
    LineAccounting(r, lines, false, 1);
    LineAccounting(r, lines, false, 2);
    assert 2 * |r.libraryBlock| * n == |r.libraryBlock| * n + |r.libraryBlock| * n;
    NoMarkers(r, n);
  }

  lemma {:induction false} CopiesUnused(r: Rules, lines: seq<string>, inFolders: bool, j: nat, k: nat)
    requires Count(r, lines, inFolders, AppsMarker) == 0
    ensures OutLines(r, lines, inFolders, j) == OutLines(r, lines, inFolders, k)
  {
    hide BranchOf;
    if lines != [] {
      CopiesUnused(r, lines[1..], NextFlag(r, lines[0], inFolders), j, k);
    }
  }
}
