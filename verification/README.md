# EigenOS: build patching, icon packing, colour shading and the persistent root

This project models four self-contained pieces of EigenOS and proves what they do over all inputs and
over whole runs. `dafny verify dfyconfig.toml` checks all of it.

**The build patcher** (`patch_build.py`) passes over `build.sh` line by line under one mode flag and eight
prioritised substring rules, and writes the file back. `PatchBuild.dfy` has the pass as a loop and as a
function, for any rule texts; `Rerun.dfy` what repeated runs do; `BuildTexts.dfy` the script's own texts;
`BuildNeutral.dfy` the proof, on those texts, that no rule touches an inserted line; `PatchScript.dfy` the
results for the script itself; `BuildRun.dfy` one exact run. The main result: any number of runs equals one run with that many copies of
the FreeType/ImGui block at each marker line and no other difference. So the script is not idempotent: a
second run is harmless exactly on files without a marker line.

**The icon packer** (`tools/pack_icons.py`) chooses a file for each application, lays the icons end to end,
and prints blob and index as a C header. `IconPack.dfy` has the choice and the packing, `IconHeader.dfy` the
printing, `CSyntax.dfy` a lexer for the C involved, `HeaderReader.dfy` a reader of the two tables and the
runtime's lookup, `IconRun.dfy` the end-to-end results. The main result: the printed header reads back as
exactly the printed tables if and only if both are non-empty, all names are plain (no quote, backslash,
newline or trigraph) and all numbers fit 32 bits; and then looking an application up gives exactly the bytes the packer took for it.

**The colour helpers** (`include/apps/theme.h`) pack channels into a word and blend them in fixed point.
`MachineWords.dfy` defines C's unsigned words bit by bit, `Theme.dfy` the helpers, `Blend.dfy` single and
repeated blending, `Shading.dfy` shading and saturation. The main results: packed blending is channel
blending with no carry exactly when no channel leaves its byte; repeated rounding never drifts up, and down
by less than min(n, 256/t); repeated lightening stops at max(c, 255 - 255 div t), so white is not reached.

**The persistent root** (`src/filesystem/persist.c`) saves the file table to two disk slots in turn, header
last. `Snapshot.dfy` has the table as bytes and back, `Checksum.dfy` and `ChecksumTrailer.dfy` the checksum,
`SlotStore.dfy` the slots and the loader, `CrashSafety.dfy` single saves and runs of changes, saves cut after
any write, and restarts, `LastSave.dfy` runs in which failed saves are tried again, `Persist.dfy` the
sector-by-sector routine. The main results: with power cuts alone, a restart always finds exactly the last completed save; over every other
run, with failed saves tried again and numbers wrapping or falling back, it does if and only if the cut saves
aimed at that save's slot have left its bytes as they were and the loader does not prefer the other slot;
damage to up to four bytes in a row never passes the checksum; and a saved table is rebuilt faithfully if and
only if it holds no external file with a size.

Where code and comments disagree, the code is modelled:

- the header comment of `persist.c` promises that a torn write never destroys the last good snapshot:
  `CrashSafety.TornWriteAfterFailedSave` says exactly when it does, and `LastSave.LosingRunExample` is a run in
  which it does;
- `persist.h` promises to load the newest valid snapshot: `CrashSafety.LoadMisses` says exactly when a valid
  one is passed over for a broken one, and `LastSave.ForgettingRunExample` is a run in which it is;
- `filesystem.c` says external files are recorded as metadata only: `Snapshot.BootModuleExample` shows what the
  loader makes of them, and `Snapshot.ShiftedFilesExample` what becomes of the files after them.

Long texts are spelled as concatenations of short pieces; the pieces joined are the source's texts.

## Model

| member | source | states |
|---|---|---|
| PatchBuild.Patch | patch_build.py:3-71 | The script as a loop over lines with a mode flag yields the text `PatchText` of its input |
| PatchBuild.BranchIsFirstRule | patch_build.py:9-68 | A line takes the branch of the first rule, in the script's order, whose needle it contains and whose mode fits |
| PatchBuild.BranchWithoutRule | patch_build.py:68 | A line no rule applies to is only copied |
| PatchBuild.OutLinesAppend | patch_build.py:6-68 | Patching a file in two parts, the second started with the flag the first leaves, is patching it whole |
| PatchBuild.OutLinesAreLines | patch_build.py:9-71 | A pass over lines writes lines: only the last can lack a newline |
| PatchBuild.PatchTextLines | patch_build.py:3-71 | The next run reads exactly the lines of the items this run wrote, multi-line blocks included; none is merged or cut |
| Text.ConcatSplitLines | patch_build.py:3-4 | Reading lines and writing them back is the identity on any file |
| Text.SplitLinesConcat | patch_build.py:70-71 | Writing lines and reading them back is the identity on any list of lines |
| Text.ContainsSplits | patch_build.py:9-64 | The `in` test asks whether the needle stands anywhere in the line: the line is some text, the needle, some text |
| BuildNeutral.ScriptIsNeutral | patch_build.py:10-66 | None of the 27 inserted lines matches any of the eight rules in either mode, the canonical glob line always matches the glob rule, and the blocks have 20 and 7 lines |
| BuildNeutral.GlobLineIsCanonical | patch_build.py:64-66 | The rewritten glob line is taken by the glob rule again, whatever the mode |
| Rerun.LineAgain | patch_build.py:9-68 | A second pass over what one line became adds a block copy for a marker, changes nothing otherwise, and leaves the same mode |
| Rerun.OutLinesAgain | patch_build.py:9-68 | The same for any list of lines: one more copy per marker, nothing else, and the modes agree |
| Rerun.PatchTimesIsCopies | patch_build.py:9-71 | For any neutral rule texts and k >= 1, k runs equal one run with k block copies at each marker |
| Rerun.ModeIsOpenLoop | patch_build.py:39-59 | The flag is set exactly when a source loop was entered and no object list was appended to since |
| Rerun.NoOldCallSurvives | patch_build.py:44-55 | Output read with the same flag has no line taken by the old-call or call-tail rule |
| Rerun.KeptLine | patch_build.py:9-68 | A line not replaced or dropped is the last line its own input line gives to the output; outside a folder loop only glob lines are excepted |
| Rerun.LineAccounting | patch_build.py:9-71 | The exact line count of a pass in terms of the markers, old calls and call tails it meets |
| Rerun.PatchFixpoint | patch_build.py:9-71 | A run changes nothing if and only if the file is settled, for any neutral rule texts |
| Rerun.SecondRun | patch_build.py:14-37 | A second run changes nothing if and only if no line is a marker, for any neutral rule texts |
| PatchScript.RunAgain | patch_build.py:9-71 | For every file and k >= 1, k runs equal one run with k block copies at each marker and no other change |
| PatchScript.ModesAgree | patch_build.py:7-59 | After corresponding parts of the file the first and second run are in the same mode |
| PatchScript.RunTwice | patch_build.py:14-37 | A second run changes nothing if and only if the file has no line taken by the marker rule |
| PatchScript.MarkerFileExample | patch_build.py:14-37 | A file of one marker line is changed again by the second run |
| PatchScript.RunChangesNothing | patch_build.py:9-71 | A run leaves a file as it is if and only if no line is a marker, an old call or its tail and every glob line is canonical |
| PatchScript.RunLineCount | patch_build.py:9-71 | Line count grows by 20 per marker and 6 per old call and falls by 1 per call tail |
| PatchScript.RunLeavesNoOldCall | patch_build.py:44-55 | No line of a patched file is, in its mode, an old compile call or its tail |
| PatchScript.RunKeepsLines | patch_build.py:9-68 | Lines not replaced or dropped stand in the patched file, in their order |
| BuildRun.ExactRun | patch_build.py:1-71 | The exact text written for a file whose thirteen lines meet every rule, in and out of a folder loop, with needles of neighbouring rules in one line and needles in the middle of lines |
| CSyntax.DecimalRoundTrip | tools/pack_icons.py:112-118 | What "%d" prints reads back as the same number as a C constant: never as octal by a leading zero |
| CSyntax.OrdinaryIsPlain | tools/pack_icons.py:118 | Names without quote, backslash, newline and question mark are plain |
| CSyntax.LexSpelling | tools/pack_icons.py:105-119 | Well-spaced source pieces read back as exactly their tokens, comments and directives leaving none |
| IconPack.FindSvgIsFirst | tools/pack_icons.py:74-80 | `find_svg` gives the first candidate, in order, that resolves to a file, and none only if there is none |
| IconPack.RelativeCandidate | tools/pack_icons.py:74-102 | A relative candidate, as the first of any list, is the .svg of that name in the theme directory: rendered if it is a file, with a failed or too short rendering not used, and passed over if not |
| IconPack.AbsoluteCandidate | tools/pack_icons.py:74-102 | An absolute candidate not ending in .png is the .svg at that place, with the same outcome |
| IconPack.PngCandidate | tools/pack_icons.py:74-102 | An absolute .png is taken as the file is, or passed over |
| IconPack.FindSvgAppend | tools/pack_icons.py:74-80 | Appending candidates never changes a successful lookup, and a failed one goes on with them |
| IconPack.ResolveDispatch | tools/pack_icons.py:74-100 | A resolved path is never empty and ends in .png exactly for an absolute .png candidate, which it then is |
| IconPack.IconBytesDispatch | tools/pack_icons.py:82-102 | The loop takes the raw file when the candidate found is an absolute .png, the rendering otherwise |
| IconPack.Pack | tools/pack_icons.py:90-104 | The packing loop yields the blob, index and missing list of the applications found |
| IconPack.PackMore | tools/pack_icons.py:90-104 | Later appends keep the blob and index so far as prefixes, so no earlier slice changes |
| IconPack.IndexTiles | tools/pack_icons.py:90-104 | Entries start at 0, each begins where the one before ends, the last ends at the blob's end, and each points at its own icon's bytes |
| IconPack.TotalIsBlobLength | tools/pack_icons.py:120-121 | The printed total of lengths equals the printed blob length |
| IconPack.MapPartition | tools/pack_icons.py:93-104 | Each application goes to one list, at the place its predecessors leave free, so both lists keep map order |
| IconHeader.Print | tools/pack_icons.py:105-119 | The fixed texts and the printing loops, rows of twenty and one initializer per entry, yield the text `HeaderText` that is read back |
| IconHeader.OneRow | tools/pack_icons.py:112-114 | Up to twenty bytes stand in one indented row, each followed by a comma |
| IconHeader.RowsOfTwenty | tools/pack_icons.py:112-114 | After every twenty bytes the rows start again |
| IconHeader.HeaderExample | tools/pack_icons.py:105-119 | The whole text of a header of three bytes and two entries |
| IconHeader.OpeningSpelling | tools/pack_icons.py:106-109 | The pieces the header is read from spell the opening texts |
| IconHeader.IconTypeSpelling | tools/pack_icons.py:110 | The same for the entry type |
| IconHeader.BlobStartSpelling | tools/pack_icons.py:111 | The same for the start of the blob |
| IconHeader.IndexStartSpelling | tools/pack_icons.py:115-116 | The same for the end of the blob and the start of the index |
| IconHeader.ClosingSpelling | tools/pack_icons.py:119 | The same for the end of the file |
| HeaderReader.ReadHeaderShape | tools/pack_icons.py:111-119 | Whatever C text is read, the tables are non-empty, names plain and numbers below 2^32 |
| HeaderReader.HeaderTokens | tools/pack_icons.py:105-119 | The token sequence a compiler sees in the printed header |
| HeaderReader.HeaderRoundTrip | tools/pack_icons.py:105-119 | The printed header reads back as exactly the printed tables if and only if both are non-empty, names are plain and numbers fit 32 bits |
| IconRun.Generate | tools/pack_icons.py:89-119 | Packing then printing yields the header of the icons found, and the missing list |
| IconRun.PackedLookUp | src/gui/icon_theme.c:127-139 | Looking any mapped name up in the index gives what the loop took for it, or nothing if it took nothing |
| IconRun.EveryIconRecovered | tools/pack_icons.py:89-119 | End to end: the header read as C and looked up by name gives exactly the application's bytes |
| IconRun.EntriesOrMissing | tools/pack_icons.py:93-104 | A key is in the entries if and only if its first existing candidate yields bytes, and in the missing list otherwise |
| MachineWords.OrDisjoint | include/apps/theme.h:217 | `|` of words without common bits adds them, with no carry |
| MachineWords.AndMask | include/apps/theme.h:313-315 | Masking with 2^k - 1 is the remainder by 2^k |
| MachineWords.BitwiseOperators | include/apps/theme.h:217 | Bit k of or, and and exclusive or depends on bit k of the operands as it should |
| MachineWords.ShlModulo | include/apps/theme.h:217 | A left shift multiplies modulo 2^32 |
| Theme.ChannelsArithmetic | include/apps/theme.h:313-315 | The channel readers give the three low bytes, high to low |
| Theme.PackUnpack | include/apps/theme.h:309-315 | Packed channels read back as they were if and only if each fits a byte |
| Theme.PackWord | include/apps/theme.h:309-311 | Packing any ints is the or of each, shifted modulo 2^32 |
| Theme.PackCarry | include/apps/theme.h:217 | A blue channel above its byte is or'ed into green, and keeps its low byte |
| Theme.UnpackPack | include/apps/theme.h:309-315 | Packing the channels of a word gives its low 24 bits |
| Blend.LerpChannelMean | include/apps/theme.h:214-216 | A channel blend is the weighted mean rounded down, lies between its ends, and meets them at weights 0 and 256 |
| Blend.LerpChannelFloor | include/apps/theme.h:214-216 | With any weight the channel blend is the weighted mean rounded down |
| Blend.FdLerpChannels | include/apps/theme.h:211-218 | For every weight, the packed blend is the channel blend if and only if no channel leaves the byte range |
| Blend.FdLerpWeights | include/apps/theme.h:211-218 | A weight blends every pair of colours channel by channel if and only if it lies in 0..256 |
| Blend.FdLerpInRange | include/apps/theme.h:211-218 | For weights 0..256 it always is, with the top byte clear |
| Blend.FdLerpEnds | include/apps/theme.h:211-218 | Weights 0 and 256 give the two colours on the low 24 bits |
| Blend.FdLerpSymmetric | include/apps/theme.h:211-218 | Swapping colours and complementing the weight gives the same word, rounding included |
| Blend.DriftBound | include/apps/theme.h:214-216 | After n blends a channel is at most the exact value, and below it by less than n and than 256/t |
| Blend.FdLerpDrift | include/apps/theme.h:211-218 | The drift bound for each channel of the packed colour |
| Shading.PtShadeMonotone | include/apps/theme.h:318-320 | Shading is monotone in the colour and in the amount over -255..255, across the sign change |
| Shading.ShadeDuality | include/apps/theme.h:214-216 | Lightening x mirrors darkening 255 - x exactly when (255 - x) * t is a multiple of 256, and is one lower otherwise |
| Shading.PtShadeDuality | include/apps/theme.h:318-320 | The same for each channel of packed colours |
| Shading.LightenLimit | include/apps/theme.h:214-216 | A channel lightened again and again climbs by at least one per step up to the ceiling and never past it |
| Shading.DarkenLimit | include/apps/theme.h:214-216 | A channel darkened again and again loses at least one per step until it is zero |
| Shading.PtShadeLightLimit | include/apps/theme.h:318-320 | Repeated lightening rests from step 254 on at max(c, 255 - 255 div t) in every channel |
| Shading.PtShadeDarkLimit | include/apps/theme.h:318-320 | Repeated darkening is black after as many steps as the brightest channel counts |
| Shading.LightenSaturates | include/apps/theme.h:87-92 | Lightening clamps at 255 if and only if the sum fits an int |
| Shading.SaturateExactly | include/apps/theme.h:81-92 | Both channel operations for every amount an int can hold, wrapping included |
| Shading.FdDarkenChannels | include/apps/theme.h:81-86 | Darkening clamps each channel at 0 for every non-negative int |
| Shading.FdLightenChannels | include/apps/theme.h:87-92 | Lightening clamps each channel at 255 |
| Shading.DarkenAllIsOne | include/apps/theme.h:81-86 | Any run of darkenings equals one by their sum |
| Shading.LightenAllIsOne | include/apps/theme.h:87-92 | Any run of lightenings equals one by their sum |
| Shading.DarkenLightenAdjoint | include/apps/theme.h:81-92 | A darkened colour is below d if and only if the colour is below d lightened |
| Snapshot.RecRoundTrip | src/filesystem/persist.c:62-71 | A node's packed record reads back as it was |
| Snapshot.BuildSnapshot | src/filesystem/persist.c:80-121 | The build loop yields the image of the table |
| Snapshot.ImageRecord | src/filesystem/persist.c:62-121 | The 86 bytes of each slot's record, zeros for a free slot |
| Snapshot.BodyPlaces | src/filesystem/persist.c:80-121 | The image is as long as the records and the sizes of the files with bytes and capacity of their own, and holds the bytes of each where those before it end |
| Snapshot.RestoreTable | src/filesystem/persist.c:217-251 | The rebuilding loops yield the restored table of the image |
| Snapshot.RestoredFields | src/filesystem/persist.c:217-251 | Every field of every node comes back; a file's bytes are taken from behind those of all files before it, whether saved or not |
| Snapshot.HeldFileBack | src/filesystem/persist.c:80-251 | A file with bytes and capacity of its own comes back with those bytes if and only if they stand where the loader looks |
| Snapshot.OffsetShift | src/filesystem/persist.c:236-241 | The loader looks for a body as many bytes too far as the external files before it measure |
| Snapshot.SnapshotRoundTrip | src/filesystem/persist.c:80-251 | Every node is restored as it should be kept if and only if every file with a size has bytes and capacity of its own |
| Snapshot.BootModuleExample | src/filesystem/persist.c:217-251 | A table with the root, /user and one boot module is not restored as kept: the module's node gets bytes the snapshot kept none of |
| Snapshot.RestoredStoredExactly | src/filesystem/persist.c:232-250 | A stored file comes back as it was if and only if the bytes where the loader looks, too far by the external sizes before it, are its own |
| Snapshot.ShiftedFilesExample | src/filesystem/persist.c:232-250 | After a module of three bytes one file comes back with the next one's bytes, and that one with bytes past the image |
| Checksum.Crc32Buf | src/filesystem/persist.c:41-49 | The loops over bytes and bits yield the checksum |
| Checksum.CrcFromInjective | src/filesystem/persist.c:41-49 | Two states that differ stay different over the same bytes |
| Checksum.BurstDetected | src/filesystem/persist.c:41-49 | Images that differ in up to four bytes in a row have different checksums |
| ChecksumTrailer.TrailerResidue | src/filesystem/persist.c:41-49 | Four bytes after any text give the standard residue 0x2144DF1C if and only if they are the text's checksum |
| ChecksumTrailer.EmptyChecksum | src/filesystem/persist.c:41-49 | The checksum of nothing is 0 |
| SlotStore.HdrRoundTrip | src/filesystem/persist.c:51-60 | A slot header reads back as it was |
| SlotStore.EncodedHdr | src/filesystem/persist.c:51-60 | The place of every header field in its sector, the rest zeros |
| SlotStore.LoadSlots | src/filesystem/persist.c:192-211 | The two-slot loop yields the slot and number of `Load` |
| LastSave.LoadSlotExactly | src/filesystem/persist.c:156-190 | A slot loads as a number and image if and only if the header passes every check and they are the header's and the sectors behind it |
| CrashSafety.NumberAfterRestart | src/filesystem/persist.c:192-211 | The number after a restart is the largest in a slot that loads, or 0, and nothing is to be saved |
| CrashSafety.OtherSlotKept | src/filesystem/persist.c:123-150 | However far a save gets, the other slot's header and content stay |
| CrashSafety.CompleteSlotLoads | src/filesystem/persist.c:123-190 | A slot written to the end loads as the image and number written |
| CrashSafety.SectorsOfSync | src/filesystem/persist.c:123-150 | Every sector of the disk after a save cut anywhere: padded image sectors, the header last, in the slot of the number's parity |
| CrashSafety.WrittenHeader | src/filesystem/persist.c:136-148 | The header's fields, the count of used nodes among them |
| CrashSafety.RefusedSync | src/filesystem/persist.c:264-275 | A save does nothing if and only if the table is clean or the image exceeds a slot |
| CrashSafety.SavedOnce | src/filesystem/persist.c:264-290 | After a completed save, saving again does nothing |
| CrashSafety.DirtyMark | src/filesystem/persist.c:192-290 | Over every run the mark is set if and only if a change came after the last completed save or restart, or it was set at first and there was none |
| CrashSafety.LoadMisses | src/filesystem/persist.c:196-211 | A loadable slot is missed if and only if it is the first and the second claims a larger number but does not load |
| CrashSafety.SafeLoads | src/filesystem/persist.c:192-211 | From a safe disk a restart finds the last completed save and its number |
| CrashSafety.CompleteSync | src/filesystem/persist.c:264-290 | Whatever the disk holds, a completed save is what the next restart finds if and only if the loader does not prefer the other slot: a loadable slot 0 with a larger number, or any header in slot 1 with a larger number |
| CrashSafety.CompleteSyncFromSafe | src/filesystem/persist.c:264-290 | From a safe state that is every save but one whose number wraps to zero below a number in slot 1 |
| CrashSafety.CompleteSyncHolds | src/filesystem/persist.c:264-290 | Whatever bytes the disk holds, a completed save with a larger number than the other slot's is held by it |
| CrashSafety.CutSyncElsewhere | src/filesystem/persist.c:277-280 | A cut save aimed at the other slot leaves the last completed save in place |
| CrashSafety.CutSyncOnSaved | src/filesystem/persist.c:277-280 | A cut save aimed at the last save's slot keeps it if and only if the sectors to be written hold its bytes already |
| CrashSafety.CutSync | src/filesystem/persist.c:264-290 | A save cut after k writes loses the last completed save if and only if it is aimed at its slot and one of the first k sectors of the new image differs from it there |
| CrashSafety.TornWriteAfterFailedSave | src/filesystem/persist.c:264-290 | After a failed save, a second one cut after k writes keeps the last good snapshot if and only if those k sectors hold its bytes already |
| CrashSafety.RunKeepsLastSave | src/filesystem/persist.c:192-290 | Over every run without a save right after a failed one, the disk loads as the last completed save |
| CrashSafety.PowerCutsAreCareful | src/filesystem/persist.c:192-290 | If every cut save is followed by a restart, no save is ever attempted out of step with the last completed one |
| CrashSafety.PowerCutsAreSafe | src/filesystem/persist.c:192-290 | With the power cut at any write of any save, the disk loads as the last completed save |
| CrashSafety.RestartRestoresTable | src/filesystem/persist.c:192-290 | After such a run the table of the last completed save is rebuilt, if it held no external file with a size |
| LastSave.LastSaveLoads | src/filesystem/persist.c:192-290 | Over every run from a disk with the last save in its slot and each slot's number of its own parity (a blank disk, say), a restart finds the last completed save if and only if the cut saves aimed at its slot since have left its bytes as they were and the loader does not prefer the other slot |
| LastSave.SteadySaveLoads | src/filesystem/persist.c:192-290 | If every save that completes gets the larger number of the two slots, the bytes alone decide |
| LastSave.BurstRejected | src/filesystem/persist.c:163-183 | A slot does not load when up to four bytes in a row of its body differ from what its header announces |
| LastSave.LosingRunExample | src/filesystem/persist.c:264-290 | A run of five events from a blank disk that loses its only completed save |
| LastSave.ForgettingRunExample | src/filesystem/persist.c:192-290 | A run of eleven events from a blank disk, with no number wrapping, after which the last completed save is whole in slot 0 and a restart finds nothing, because broken slot 1 has a larger number |
| Persist.Store.WriteSlot | src/filesystem/persist.c:123-150 | Writing sector by sector to a device that stops after a number of writes leaves the disk of that many writes, and succeeds only past the header |
| Persist.Store.Sync | src/filesystem/persist.c:264-290 | The save routine takes disk, number and dirty mark to the next state of the run model |
| Persist.Store.Restart | src/filesystem/persist.c:192-216 | Loading at boot takes the variables to the restarted state |

## Left out

- Carriage returns, text encodings and file errors in the two Python scripts; files are texts and an existence test, file contents and rsvg-convert are parameters.
- The meaning of the shell code the build patcher rewrites or inserts.
- The packer's constant map and the entries of the shipped header: data. Distinct and plain names are hypotheses that map meets.
- C escape sequences and trigraphs in strings, hexadecimal constants, suffixes and declarations beyond the two tables: the reader answers that it cannot read them.
- Theme colour tokens and palettes: data only.
- Blend.FdLerpChannels: weights beyond about 8 million, whose signed product overflows in C, are taken in unbounded integers.
- Shading.FdLightenChannels: amounts within 255 of the largest int are excluded; Shading.LightenSaturates says per channel where the clamp fails.
- Shading.FdDarkenChannels: for negative amounts Shading.SaturateExactly and Theme.PackCarry give the channels and the packing, but no packed statement is made.
- Shading.LightenSaturates: wrapping on the conversion back to int is modelled as two's complement, which C leaves to the implementation.
- The sector writes of a save are taken to be atomic and to reach the disk in order; read errors and memory exhaustion are not modelled.
- Changes to the file table while a save is running, and the table operations themselves (src/filesystem/filesystem.c).
- CrashSafety.NumberAfterRestart: the image of the table after a restart is not stated; it is not read before the next change.
- Bytes past the end of a loaded image: a body reaching there is marked as lying outside, not given a value.
- SlotStore.HdrRoundTrip: payload sizes are below 2^32, as every image that fits a slot is.
- The rest of the kernel, the window system, drivers and ported software.
