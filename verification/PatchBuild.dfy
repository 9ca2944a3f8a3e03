/** patch_build.py: a pass over the lines of a build script under one mode flag and eight prioritised
    substring rules. The texts the rules look for and insert are a parameter here; BuildTexts.dfy
    gives the script's own. */
module PatchBuild {
  import opened Text

  /** The needles, in the order they are tried, then the replacement texts (the two inserted blocks as
      the lines they are made of). */
  datatype Rules = Rules(
    tinyglLoop: string, appsMarker: string, sourceLoop: string, oldCall: string, oldCallTail: string,
    objectAppend: string, linkCall: string, libraryGlob: string,
    libraryBlock: seq<string>, compileBlock: seq<string>, libraryGlobLine: string)

  /** Which branch of the loop body a line takes. */
  datatype Branch =
    | TinyglLoop | AppsMarker | SourceLoop | OldCall | OldCallTail | ObjectAppend | LinkCall | LibraryGlob | Other

  function BranchOf(r: Rules, line: string, inFolders: bool): Branch {
    if Contains(line, r.tinyglLoop) then TinyglLoop
    else if Contains(line, r.appsMarker) then AppsMarker
    else if Contains(line, r.sourceLoop) then SourceLoop
    else if inFolders && Contains(line, r.oldCall) then OldCall
    else if inFolders && Contains(line, r.oldCallTail) then OldCallTail
    else if inFolders && Contains(line, r.objectAppend) then ObjectAppend
    else if Contains(line, r.linkCall) then LinkCall
    else if Contains(line, r.libraryGlob) then LibraryGlob
    else Other
  }

  /** The rules as a list: a needle, whether it is looked for inside folder loops only, and the branch. */
  datatype Rule = Rule(needle: string, loopOnly: bool, branch: Branch)

  function RuleList(r: Rules): seq<Rule> {
    [Rule(r.tinyglLoop, false, TinyglLoop), Rule(r.appsMarker, false, AppsMarker),
     Rule(r.sourceLoop, false, SourceLoop),
     Rule(r.oldCall, true, OldCall), Rule(r.oldCallTail, true, OldCallTail), Rule(r.objectAppend, true, ObjectAppend),
     Rule(r.linkCall, false, LinkCall), Rule(r.libraryGlob, false, LibraryGlob)]
  }

  predicate Applies(rule: Rule, line: string, inFolders: bool) {
    Contains(line, rule.needle) && (rule.loopOnly ==> inFolders)
  }

  /** Priority: a line takes the branch of the first rule that applies. */
  lemma BranchIsFirstRule(r: Rules, line: string, inFolders: bool, i: nat)
    requires i < |RuleList(r)| && Applies(RuleList(r)[i], line, inFolders)
    requires forall j | 0 <= j < i :: !Applies(RuleList(r)[j], line, inFolders)
    ensures BranchOf(r, line, inFolders) == RuleList(r)[i].branch
  {
    hide Contains;
    var rules := RuleList(r);
    assert i > 0 ==> !Applies(rules[0], line, inFolders);
    assert i > 1 ==> !Applies(rules[1], line, inFolders);
    assert i > 2 ==> !Applies(rules[2], line, inFolders);
    assert i > 3 ==> !Applies(rules[3], line, inFolders);
    assert i > 4 ==> !Applies(rules[4], line, inFolders);
    assert i > 5 ==> !Applies(rules[5], line, inFolders);
    assert i > 6 ==> !Applies(rules[6], line, inFolders);
  }

  /** A line no rule applies to is only copied. */
  lemma BranchWithoutRule(r: Rules, line: string, inFolders: bool)
    requires forall j | 0 <= j < |RuleList(r)| :: !Applies(RuleList(r)[j], line, inFolders)
    ensures BranchOf(r, line, inFolders) == Other
  {
    hide Contains;
    var rules := RuleList(r);
    assert !Applies(rules[0], line, inFolders) && !Applies(rules[1], line, inFolders);
    assert !Applies(rules[2], line, inFolders) && !Applies(rules[3], line, inFolders);
    assert !Applies(rules[4], line, inFolders) && !Applies(rules[5], line, inFolders);
    assert !Applies(rules[6], line, inFolders) && !Applies(rules[7], line, inFolders);
  }

  function NextFlag(r: Rules, line: string, inFolders: bool): bool {
    var b := BranchOf(r, line, inFolders);
    if b.SourceLoop? then true else if b.ObjectAppend? then false else inFolders
  }

  /** What one line appends to `new_lines`; an inserted block is one multi-line item. */
  function ItemsFor(r: Rules, line: string, inFolders: bool): seq<string> {
    match BranchOf(r, line, inFolders)
    case AppsMarker => [Concat(r.libraryBlock), line]
    case OldCall => [Concat(r.compileBlock)]
    case OldCallTail => []
    case LibraryGlob => [r.libraryGlobLine]
    case _ => [line]
  }

  /** `new_lines` after the loop, started with the given flag. */
  function NewLines(r: Rules, lines: seq<string>, inFolders: bool): seq<string> {
    if lines == [] then []
    else ItemsFor(r, lines[0], inFolders) + NewLines(r, lines[1..], NextFlag(r, lines[0], inFolders))
  }

  /** The file after one run of the script. */
  function PatchText(r: Rules, text: string): string {
    Concat(NewLines(r, SplitLines(text), false))
  }

  lemma NewLinesStep(r: Rules, lines: seq<string>, i: nat, inFolders: bool, done: seq<string>)
    requires i < |lines|
    ensures done + NewLines(r, lines[i..], inFolders) ==
            done + ItemsFor(r, lines[i], inFolders) + NewLines(r, lines[i + 1..], NextFlag(r, lines[i], inFolders))
  {
    hide BranchOf;
    assert lines[i..][0] == lines[i] && lines[i..][1..] == lines[i + 1..];
  }

  lemma NewLinesEnds(r: Rules, lines: seq<string>, inFolders: bool)
    ensures [] + NewLines(r, lines[0..], inFolders) == NewLines(r, lines, inFolders)
    ensures NewLines(r, lines[|lines|..], inFolders) == []
  {
    assert lines[0..] == lines;
  }

  /** The script: read the lines, run the loop, write the new lines. */
  method Patch(r: Rules, text: string) returns (patched: string)
    ensures patched == PatchText(r, text)
  {
    hide Contains, Concat, SplitLines, NewLines;
    var lines := SplitLines(text);
    var newLines: seq<string> := [];
    var inFolders := false;
    var i := 0;
    NewLinesEnds(r, lines, false);
    while i < |lines|
      invariant 0 <= i <= |lines|
      invariant NewLines(r, lines, false) == newLines + NewLines(r, lines[i..], inFolders)
    {
      var line := lines[i];
      ghost var before, items := newLines, ItemsFor(r, line, inFolders);
      NewLinesStep(r, lines, i, inFolders, newLines);
      if Contains(line, r.tinyglLoop) {
        newLines := newLines + [line];
      } else if Contains(line, r.appsMarker) {
        newLines := newLines + [Concat(r.libraryBlock)];
        newLines := newLines + [line];
      } else if Contains(line, r.sourceLoop) {
        newLines := newLines + [line];
        inFolders := true;
      } else if inFolders && Contains(line, r.oldCall) {
        newLines := newLines + [Concat(r.compileBlock)];
      } else if inFolders && Contains(line, r.oldCallTail) {
      } else if inFolders && Contains(line, r.objectAppend) {
        inFolders := false;
        newLines := newLines + [line];
      } else if Contains(line, r.linkCall) {
        newLines := newLines + [line];
      } else if Contains(line, r.libraryGlob) {
        newLines := newLines + [r.libraryGlobLine];
      } else {
        newLines := newLines + [line];
      }
      assert newLines == before + items;
      i := i + 1;
    }
    NewLinesEnds(r, lines, inFolders);
    assert newLines + [] == newLines;
    patched := Concat(newLines);
  }

  // ---- the same pass, line by line ----

  function Copies(block: seq<string>, k: nat): seq<string> {
    if k == 0 then [] else block + Copies(block, k - 1)
  }

  /** The lines one line turns into, with k copies of the library block before a marker line. */
  function LinesFor(r: Rules, line: string, inFolders: bool, k: nat): seq<string> {
    match BranchOf(r, line, inFolders)
    case AppsMarker => Copies(r.libraryBlock, k) + [line]
    case OldCall => r.compileBlock
    case OldCallTail => []
    case LibraryGlob => [r.libraryGlobLine]
    case _ => [line]
  }

  /** A pass that puts k copies of the library block before each marker line. */
  function OutLines(r: Rules, lines: seq<string>, inFolders: bool, k: nat): seq<string> {
    if lines == [] then []
    else LinesFor(r, lines[0], inFolders, k) + OutLines(r, lines[1..], NextFlag(r, lines[0], inFolders), k)
  }

  /** The flag the loop is left with. */
  function FlagAfter(r: Rules, lines: seq<string>, inFolders: bool): bool {
    if lines == [] then inFolders else FlagAfter(r, lines[1..], NextFlag(r, lines[0], inFolders))
  }

  /** How many lines of a pass take the given branch. */
  function Count(r: Rules, lines: seq<string>, inFolders: bool, b: Branch): nat {
    if lines == [] then 0
    else
      (if BranchOf(r, lines[0], inFolders) == b then 1 else 0)
      + Count(r, lines[1..], NextFlag(r, lines[0], inFolders), b)
  }

  /** The branch line i takes in a run over all the lines. */
  function BranchAt(r: Rules, lines: seq<string>, i: nat): Branch
    requires i < |lines|
  {
    BranchOf(r, lines[i], FlagAfter(r, lines[..i], false))
  }

  /** What the texts must satisfy: inserted lines are whole lines no rule touches, in either mode, and
      the canonical glob line is a whole line that comes back to the glob rule, in either mode. */
  ghost predicate Neutral(r: Rules) {
    && (forall line <- r.libraryBlock :: Terminated(line))
    && (forall line <- r.compileBlock :: Terminated(line))
    && (forall line, inFolders ::
          line in r.libraryBlock || line in r.compileBlock ==> BranchOf(r, line, inFolders) == Other)
    && Terminated(r.libraryGlobLine)
    && (forall inFolders :: BranchOf(r, r.libraryGlobLine, inFolders) == LibraryGlob)
    && r.libraryBlock != []
  }

  /** Patching a file in two parts, the second started with the flag the first leaves, is patching it
      whole. */
  lemma {:induction false} OutLinesAppend(r: Rules, xs: seq<string>, ys: seq<string>, inFolders: bool, k: nat)
    ensures OutLines(r, xs + ys, inFolders, k) ==
            OutLines(r, xs, inFolders, k) + OutLines(r, ys, FlagAfter(r, xs, inFolders), k)
    ensures FlagAfter(r, xs + ys, inFolders) == FlagAfter(r, ys, FlagAfter(r, xs, inFolders))
  {
    hide BranchOf, LinesFor;
    if xs == [] {
      assert xs + ys == ys;
    } else {
      assert (xs + ys)[1..] == xs[1..] + ys;
      OutLinesAppend(r, xs[1..], ys, NextFlag(r, xs[0], inFolders), k);
    }
  }

  // ---- reading back what was written ----

  lemma {:induction false} NewLinesText(r: Rules, lines: seq<string>, inFolders: bool)
    ensures Concat(NewLines(r, lines, inFolders)) == Concat(OutLines(r, lines, inFolders, 1))
  {
    hide BranchOf;
    if lines != [] {
      var flag := NextFlag(r, lines[0], inFolders);
      var items, out := ItemsFor(r, lines[0], inFolders), LinesFor(r, lines[0], inFolders, 1);
      NewLinesText(r, lines[1..], flag);
      ItemText(r, lines[0], inFolders);
      ConcatAppend(items, NewLines(r, lines[1..], flag));
      ConcatAppend(out, OutLines(r, lines[1..], flag, 1));
    }
  }

  lemma ItemText(r: Rules, line: string, inFolders: bool)
    ensures Concat(ItemsFor(r, line, inFolders)) == Concat(LinesFor(r, line, inFolders, 1))
  {
    hide BranchOf;
    assert Copies(r.libraryBlock, 1) == r.libraryBlock;
    ConcatAppend(r.libraryBlock, [line]);
    assert Concat([line]) == line;
    assert Concat([Concat(r.libraryBlock), line]) == Concat(r.libraryBlock) + Concat([line]);
    assert Concat([Concat(r.compileBlock)]) == Concat(r.compileBlock);
  }

  lemma {:induction false} CopiesOf(block: seq<string>, k: nat)
    ensures forall line <- Copies(block, k) :: line in block
    ensures |Copies(block, k)| == k * |block|
  {
    if k > 0 { CopiesOf(block, k - 1); }
  }

  lemma LinesForTerminated(r: Rules, line: string, inFolders: bool, k: nat)
    requires Neutral(r) && Terminated(line)
    ensures forall l <- LinesFor(r, line, inFolders, k) :: Terminated(l)
  {
    hide BranchOf, Terminated;
    CopiesOf(r.libraryBlock, k);
    assert forall l <- Copies(r.libraryBlock, k) :: l in r.libraryBlock;
  }

  /** A pass over lines writes lines. */
  lemma {:induction false} OutLinesAreLines(r: Rules, lines: seq<string>, inFolders: bool, k: nat)
    requires Neutral(r) && AreLines(lines)
    ensures AreLines(OutLines(r, lines, inFolders, k))
  {
    hide BranchOf, Terminated;
    if |lines| == 1 {
      CopiesOf(r.libraryBlock, k);
      LastLineIsLine(r, lines, inFolders, k);
    } else if lines != [] {
      assert Terminated(lines[0]);
      TailAreLines(lines);
      OutLinesAreLines(r, lines[1..], NextFlag(r, lines[0], inFolders), k);
      LinesForTerminated(r, lines[0], inFolders, k);
      AreLinesAppend(LinesFor(r, lines[0], inFolders, k), OutLines(r, lines[1..], NextFlag(r, lines[0], inFolders), k));
    }
  }

  lemma TailAreLines(lines: seq<string>)
    requires lines != [] && AreLines(lines)
    ensures AreLines(lines[1..])
  {
    hide Terminated;
    var tail := lines[1..];
    assert forall i | 0 <= i < |tail| - 1 :: tail[i] == lines[i + 1];
  }

  lemma LastLineIsLine(r: Rules, lines: seq<string>, inFolders: bool, k: nat)
    requires Neutral(r) && AreLines(lines) && |lines| == 1
    ensures AreLines(OutLines(r, lines, inFolders, k))
  {
    hide BranchOf;
    var line := lines[0];
    var out := LinesFor(r, line, inFolders, k);
    assert OutLines(r, lines, inFolders, k) == out;
    CopiesOf(r.libraryBlock, k);
    assert [line] == lines;
    AreLinesAppend(Copies(r.libraryBlock, k), [line]);
    AreLinesAppend(r.compileBlock, []);
    assert r.compileBlock + [] == r.compileBlock;
  }

  /** Write/read agreement: the lines a second run reads are exactly the lines of the items the first
      run wrote, with none merged or cut. */
  lemma PatchTextLines(r: Rules, text: string)
    requires Neutral(r)
    ensures SplitLines(PatchText(r, text)) == OutLines(r, SplitLines(text), false, 1)
  {
    hide SplitLines, OutLines, NewLines;
    ConcatSplitLines(text);
    NewLinesText(r, SplitLines(text), false);
    OutLinesAreLines(r, SplitLines(text), false, 1);
    SplitLinesConcat(OutLines(r, SplitLines(text), false, 1));
  }
}
