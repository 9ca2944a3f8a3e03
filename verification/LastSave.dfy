/** src/filesystem/persist.c over runs in which saves also fail while the machine stays up: when the last
    completed save can still be loaded, exactly. */
module LastSave {
  import opened MachineWords
  import opened Wrappers
  import opened Snapshot
  import opened Checksum
  import opened SlotStore
  import opened CrashSafety

  /** The event is a save that completes. */
  predicate Completes(w: World, e: Event) {
    e.Sync? && w.dirty && Fits(w.image) && e.k > Sectors(w.image)
  }

  /** The event is a cut save aimed at the slot of the last completed save. */
  predicate CutsSaved(w: World, e: Event) {
    Cut(w, e) && w.saved.Some? && (w.seqNo + 1) % 2 == w.saved.value.seqNo % 2
  }

  /** What stands in the place of the last completed save after one more event: the save itself when it has
      just completed, and its bytes overwritten sector by sector by every cut save aimed at its slot. */
  function NextBytes(w: World, e: Event, bytes: seq<byte>): seq<byte> {
    if Completes(w, e) then w.image else if CutsSaved(w, e) then Overlay(bytes, w.image, e.k) else bytes
  }

  function SavedBytes(w: World, events: seq<Event>): seq<byte>
    requires |w.image| >= REC_REGION && forall e <- events :: Possible(e)
  {
    if events == [] then if w.saved.Some? then w.saved.value.image else []
    else
      var init, last := events[..|events| - 1], events[|events| - 1];
      NextBytes(Run(w, init), last, SavedBytes(w, init))
  }

  /** The bytes are those of the last completed save. */
  predicate Intact(w: World, bytes: seq<byte>) {
    w.saved.Some? ==> bytes == w.saved.value.image
  }

  /** Every save that completes gets the larger number of the two slots. Cut saves and restarts may come
      anywhere, numbers may wrap or fall back. */
  predicate Steady(w: World, events: seq<Event>)
    requires |w.image| >= REC_REGION && forall e <- events :: Possible(e)
  {
    events == [] ||
    var init, last := events[..|events| - 1], events[|events| - 1];
    Steady(w, init) && (Completes(Run(w, init), last) ==> NextIsNewest(Run(w, init)))
  }

  /** A header that announces the given save. */
  predicate Announces(h: Hdr, s: Saved) {
    && h.magic == MAGIC && h.version == VERSION && h.recBytes == REC_REGION && h.seqNo == s.seqNo
    && AnnouncedLength(h) == |s.image| && 0 < |s.image| <= SLOT_SECT * SECTOR - SECTOR && h.crc == Crc32(s.image)
  }

  /** The disk has the last completed save's header, and the given bytes in the place of its image. */
  predicate Laid(d: Disk, saved: Option<Saved>, bytes: seq<byte>) {
    match saved
    case None => !HasMagic(d, 0) && !HasMagic(d, 1)
    case Some(s) =>
      var slot := s.seqNo % 2;
      && |s.image| >= REC_REGION
      && Announces(SlotHdr(d, slot), s)
      && ReadBody(d, Base(slot) + 1, |s.image|) == bytes
  }

  /** The other slot has nothing newer than the save. */
  predicate Newest(d: Disk, saved: Option<Saved>) {
    saved.Some? ==>
      var slot := saved.value.seqNo % 2;
      HasMagic(d, 1 - slot) ==> SlotHdr(d, 1 - slot).seqNo < saved.value.seqNo
  }

  /** Each slot holds a number of its own parity, as every save writes it. */
  predicate Numbered(d: Disk) {
    forall slot | 0 <= slot < 2 :: HasMagic(d, slot) ==> SlotHdr(d, slot).seqNo % 2 == slot
  }

  lemma AnnouncedSlotLoads(d: Disk, slot: nat, s: Saved)
    requires Announces(SlotHdr(d, slot), s)
    ensures LoadSlot(d, slot) == Some(s) <==> ReadBody(d, Base(slot) + 1, |s.image|) == s.image
    ensures LoadSlot(d, slot).Some? ==> LoadSlot(d, slot).value.seqNo == s.seqNo
  {
    hide Crc32, DecodeHdr, ReadBody, AnnouncedLength;
  }

  lemma LoadedSlotAnnounces(d: Disk, slot: nat, s: Saved)
    requires LoadSlot(d, slot) == Some(s)
    ensures Announces(SlotHdr(d, slot), s) && ReadBody(d, Base(slot) + 1, |s.image|) == s.image
  {
    hide Crc32, DecodeHdr;
    LoadedSlotMeans(d, slot, s);
  }

  /** What a slot loads as, exactly: the sectors behind its header, as many bytes of them as the header says,
      under all the checks a header must pass. */
  lemma LoadSlotExactly(d: Disk, slot: nat, s: Saved)
    ensures var h, n := DecodeHdr(d(4096 + slot * 65536)), |s.image|;
            LoadSlot(d, slot) == Some(s) <==>
              && h.magic == [69, 71, 78, 68, 83, 75, 48, 50] && h.version == 1 && h.recBytes == 256 * 86
              && h.seqNo == s.seqNo && h.crc == Crc32(s.image)
              && n == (h.recBytes + h.payload) % 0x1_0000_0000_0000_0000 && 0 < n <= 65535 * 512
              && forall j | 0 <= j < n :: s.image[j] == d(4097 + slot * 65536 + j / 512)[j % 512]
  {
    hide Crc32, DecodeHdr, ReadBody;
    var lba, n := Base(slot) + 1, |s.image|;
    forall j | 0 <= j < n ensures ReadBody(d, lba, n)[j] == d(lba + j / 512)[j % 512] {
      ReadBodyAt(d, lba, n, j);
    }
    if forall j | 0 <= j < n :: s.image[j] == d(lba + j / 512)[j % 512] {
      assert ReadBody(d, lba, n) == s.image;
    }
  }

  lemma {:induction false} ReadBodyAt(d: Disk, lba: nat, n: nat, j: nat)
    requires j < n
    ensures ReadBody(d, lba, n)[j] == d(lba + j / 512)[j % 512]
    decreases n
  {
    if n > SECTOR && j >= SECTOR {
      ReadBodyAt(d, lba + 1, n - SECTOR, j - SECTOR);
      assert j / 512 == (j - 512) / 512 + 1 && j % 512 == (j - 512) % 512;
    }
  }

  /** With the header in place and nothing newer, loading finds the save exactly when its bytes are intact. */
  lemma NewestLoads(d: Disk, saved: Option<Saved>, bytes: seq<byte>)
    requires Laid(d, saved, bytes) && Newest(d, saved)
    ensures Load(d) == saved <==> (saved.Some? ==> bytes == saved.value.image)
  {
    hide LoadSlot, SlotHdr, ReadBody, Crc32, AnnouncedLength;
    if saved.Some? {
      AnnouncedSlotLoads(d, saved.value.seqNo % 2, saved.value);
    }
    LoadedSlotHeader(d, 0);
    LoadedSlotHeader(d, 1);
  }

  /** In general it must also be preferred to the other slot. */
  lemma LaidLoads(d: Disk, saved: Option<Saved>, bytes: seq<byte>)
    requires Laid(d, saved, bytes) && Numbered(d)
    ensures Load(d) == saved <==> (saved.Some? ==> bytes == saved.value.image && Preferred(d, saved.value))
  {
    hide LoadSlot, SlotHdr, ReadBody, Crc32, AnnouncedLength;
    if saved.Some? {
      AnnouncedSlotLoads(d, saved.value.seqNo % 2, saved.value);
    }
    LoadedSlotHeader(d, 0);
    LoadedSlotHeader(d, 1);
  }

  lemma InSlotIsLaid(d: Disk, saved: Option<Saved>)
    requires InSlot(d, saved)
    ensures Laid(d, saved, if saved.Some? then saved.value.image else [])
  {
    hide LoadSlot, SlotHdr, ReadBody, Announces;
    if saved.Some? { LoadedSlotAnnounces(d, saved.value.seqNo % 2, saved.value); }
  }

  /** The last completed save is in its slot; the other slot may hold anything. */
  predicate InSlot(d: Disk, saved: Option<Saved>) {
    match saved
    case None => !HasMagic(d, 0) && !HasMagic(d, 1)
    case Some(s) => |s.image| >= REC_REGION && LoadSlot(d, s.seqNo % 2) == saved
  }

  lemma CutStaysLaid(w: World, k: nat, bytes: seq<byte>)
    requires |w.image| >= REC_REGION && Laid(w.disk, w.saved, bytes) && Cut(w, Sync(k))
    ensures Laid(SyncStep(w, k).disk, w.saved, NextBytes(w, Sync(k), bytes))
  {
    hide SlotHdr, ReadBody, SlotWritten, Announces, Overlay, Base, Fits, Crc32;
    var n := ToUint32(w.seqNo + 1);
    CutHeaders(w, k);
    if w.saved.Some? {
      CutBody(w.disk, n % 2, w.image, n, k, w.saved.value);
    }
  }

  /** A cut save leaves both headers. */
  lemma CutHeaders(w: World, k: nat)
    requires |w.image| >= REC_REGION && Cut(w, Sync(k))
    ensures var e := SyncStep(w, k).disk; SlotHdr(e, 0) == SlotHdr(w.disk, 0) && SlotHdr(e, 1) == SlotHdr(w.disk, 1)
  {
    hide SlotHdr, SlotWritten;
    var n := ToUint32(w.seqNo + 1);
    OtherSlotKept(w.disk, n % 2, w.image, n, k);
    HeaderKept(w.disk, n % 2, w.image, n, k);
  }

  /** The body of a slot after a cut save: overwritten if the save was aimed at it, as it was otherwise. */
  lemma CutBody(d: Disk, slot: nat, image: seq<byte>, seqNo: uint32, k: nat, s: Saved)
    requires slot < 2 && |image| >= REC_REGION && Fits(image) && k <= Sectors(image)
    requires Announces(SlotHdr(d, s.seqNo % 2), s)
    ensures var lba := Base(s.seqNo % 2) + 1;
            ReadBody(SlotWritten(d, slot, image, seqNo, k), lba, |s.image|) ==
            if slot == s.seqNo % 2 then Overlay(ReadBody(d, lba, |s.image|), image, k) else ReadBody(d, lba, |s.image|)
  {
    hide SlotHdr, ReadBody, BodyWritten, Overlay, Base, AnnouncedLength, Crc32;
    if slot == s.seqNo % 2 {
      BodyOverlay(d, slot, image, k, |s.image|);
    } else {
      OtherBodyKept(d, slot, image, seqNo, k, s);
    }
  }

  /** A save aimed at one slot leaves the body in the other. */
  lemma OtherBodyKept(d: Disk, slot: nat, image: seq<byte>, seqNo: uint32, k: nat, s: Saved)
    requires slot < 2 && |image| >= REC_REGION && Fits(image) && |s.image| <= SLOT_SECT * SECTOR - SECTOR
    ensures ReadBody(SlotWritten(d, slot, image, seqNo, k), Base(1 - slot) + 1, |s.image|) ==
            ReadBody(d, Base(1 - slot) + 1, |s.image|)
  {
    hide ReadBody, EncodeHdr, HeaderOf, Chunk;
    var e := SlotWritten(d, slot, image, seqNo, k);
    var j := if k <= Sectors(image) then k else Sectors(image);
    forall lba | Base(1 - slot) < lba < Base(1 - slot + 1) ensures e(lba) == d(lba) {
      BodyWrittenAt(d, slot, image, j, lba);
    }
    ReadBodySame(e, d, Base(1 - slot) + 1, |s.image|);
  }

  /** A completed save leaves its own header and the other slot's. */
  lemma CompleteHeaders(w: World, k: nat)
    requires |w.image| >= REC_REGION && Completes(w, Sync(k))
    ensures var n, e := ToUint32(w.seqNo + 1), SyncStep(w, k).disk;
            && SlotHdr(e, n % 2).seqNo == n && SlotHdr(e, 1 - n % 2) == SlotHdr(w.disk, 1 - n % 2)
            && LoadSlot(e, n % 2) == SyncStep(w, k).saved
  {
    hide SlotHdr, SlotWritten, LoadSlot;
    var n := ToUint32(w.seqNo + 1);
    CompleteSlotLoads(w.disk, n % 2, w.image, n, k);
    OtherSlotKept(w.disk, n % 2, w.image, n, k);
  }

  lemma StepStaysLaid(w: World, e: Event, bytes: seq<byte>)
    requires |w.image| >= REC_REGION && Possible(e) && Laid(w.disk, w.saved, bytes)
    ensures Laid(Step(w, e).disk, Step(w, e).saved, NextBytes(w, e, bytes))
  {
    hide Laid, SlotWritten, Load, SeqAfterLoad, Overlay, LoadSlot;
    if Completes(w, e) {
      CompleteHeaders(w, e.k);
      InSlotIsLaid(Step(w, e).disk, Step(w, e).saved);
    } else if Cut(w, e) {
      CutStaysLaid(w, e.k, bytes);
    }
  }

  lemma StepStaysNumbered(w: World, e: Event)
    requires |w.image| >= REC_REGION && Possible(e) && Numbered(w.disk)
    ensures Numbered(Step(w, e).disk)
  {
    hide SlotHdr, SlotWritten, Load, SeqAfterLoad;
    if Completes(w, e) {
      CompleteHeaders(w, e.k);
    } else if Cut(w, e) {
      CutHeaders(w, e.k);
    }
  }

  lemma StepStaysNewest(w: World, e: Event)
    requires |w.image| >= REC_REGION && Possible(e) && Newest(w.disk, w.saved)
    requires Completes(w, e) ==> NextIsNewest(w)
    ensures Newest(Step(w, e).disk, Step(w, e).saved)
  {
    hide SlotHdr, SlotWritten, Load, SeqAfterLoad;
    if Completes(w, e) {
      CompleteHeaders(w, e.k);
    } else if Cut(w, e) {
      CutHeaders(w, e.k);
    }
  }

  lemma {:induction false} RunStaysLaid(w: World, events: seq<Event>)
    requires |w.image| >= REC_REGION && InSlot(w.disk, w.saved) && (forall e <- events :: Possible(e))
    ensures Laid(Run(w, events).disk, Run(w, events).saved, SavedBytes(w, events))
    ensures Numbered(w.disk) ==> Numbered(Run(w, events).disk)
    ensures Newest(w.disk, w.saved) && Steady(w, events) ==> Newest(Run(w, events).disk, Run(w, events).saved)
  {
    hide Laid, InSlot, Numbered, Newest, NextIsNewest, Step, NextBytes, Completes;
    if events == [] {
      InSlotIsLaid(w.disk, w.saved);
    } else {
      var init, last := events[..|events| - 1], events[|events| - 1];
      RunStaysLaid(w, init);
      StepStaysLaid(Run(w, init), last, SavedBytes(w, init));
      if Numbered(w.disk) { StepStaysNumbered(Run(w, init), last); }
      if Newest(w.disk, w.saved) && Steady(w, events) { StepStaysNewest(Run(w, init), last); }
    }
  }

  /** Over whole runs, exactly: after any changes, completed and failed saves and restarts, numbers wrapping
      or falling back included, a restart finds the last completed save if and only if the sectors the cut
      saves aimed at its slot have written since leave its bytes as they were, and the loader does not
      prefer the other slot. */
  lemma LastSaveLoads(w: World, events: seq<Event>)
    requires |w.image| >= REC_REGION && InSlot(w.disk, w.saved) && Numbered(w.disk)
    requires forall e <- events :: Possible(e)
    ensures var v := Run(w, events);
            Load(v.disk) == v.saved
            <==> Intact(v, SavedBytes(w, events)) && (v.saved.Some? ==> Preferred(v.disk, v.saved.value))
  {
    hide Laid, InSlot, Numbered, Load, Run, SavedBytes, Preferred;
    RunStaysLaid(w, events);
    LaidLoads(Run(w, events).disk, Run(w, events).saved, SavedBytes(w, events));
  }

  /** If every save that completes gets the larger number of the two slots, the bytes alone decide. */
  lemma SteadySaveLoads(w: World, events: seq<Event>)
    requires |w.image| >= REC_REGION && Holds(w.disk, w.saved) && (forall e <- events :: Possible(e))
    requires Steady(w, events)
    ensures Load(Run(w, events).disk) == Run(w, events).saved <==> Intact(Run(w, events), SavedBytes(w, events))
  {
    hide Laid, InSlot, Newest, Holds, Load, Run, Steady, SavedBytes;
    HeldIsInSlot(w.disk, w.saved);
    RunStaysLaid(w, events);
    NewestLoads(Run(w, events).disk, Run(w, events).saved, SavedBytes(w, events));
  }

  lemma HeldIsInSlot(d: Disk, saved: Option<Saved>)
    requires Holds(d, saved)
    ensures InSlot(d, saved) && Newest(d, saved)
  {
    hide LoadSlot, SlotHdr;
  }

  // ---- a run that loses the last good snapshot ----

  const ZEROS: seq<byte> := seq(22016, _ => 0)
  const ONES: seq<byte> := seq(22016, _ => 1)

  /** A first save completes; the table changes; the next save fails at once; the one after it is cut after
      one sector. */
  const LOSING_RUN: seq<Event> := [Change(ZEROS), Sync(100), Change(ONES), Sync(0), Sync(1)]

  /** From a blank disk that run ends with a disk that does not load as its only completed save. */
  lemma LosingRunExample(w: World)
    requires |w.image| >= REC_REGION && w.seqNo == 0 && w.saved == None && !HasMagic(w.disk, 0) && !HasMagic(w.disk, 1)
    ensures Run(w, LOSING_RUN).saved == Some(Saved(1, ZEROS))
    ensures Load(Run(w, LOSING_RUN).disk) != Run(w, LOSING_RUN).saved
  {
    hide Load, Holds, SlotWritten, HasMagic, SectorsAgree, ZEROS, ONES;
    ExampleImages();
    BlankIsSafe(w);
    var w1 := Step(w, Change(ZEROS));
    CompleteSyncFromSafe(w1, 100);
    var w3 := Step(Step(w1, Sync(100)), Change(ONES));
    TornWriteAfterFailedSave(w3, 0, 1);
    LosingRunUnfolds(w);
  }

  lemma ExampleImages()
    ensures |ZEROS| == REC_REGION && |ONES| == REC_REGION && Sectors(ZEROS) == 43 && Sectors(ONES) == 43
    ensures Fits(ZEROS) && Fits(ONES) && !SectorsAgree(ZEROS, ONES, 1)
  {
    var c := Chunk(ONES, 0)[..SECTOR];
    assert c[0] == 1 && ZEROS[0..SECTOR][0] == 0;
    assert !SectorAgrees(ZEROS, ONES, 0);
  }

  lemma RunStep(w: World, events: seq<Event>, e: Event)
    requires |w.image| >= REC_REGION && (forall f <- events :: Possible(f)) && Possible(e)
    ensures Run(w, events + [e]) == Step(Run(w, events), e)
  {
    hide Step;
    assert (events + [e])[..|events + [e]| - 1] == events;
  }

  lemma LosingRunUnfolds(w: World)
    requires |w.image| >= REC_REGION && |ZEROS| == REC_REGION && |ONES| == REC_REGION
    ensures Run(w, LOSING_RUN) ==
            Step(Step(Step(Step(Step(w, Change(ZEROS)), Sync(100)), Change(ONES)), Sync(0)), Sync(1))
  {
    hide Step, Run, ZEROS, ONES;
    RunFour(w, Change(ZEROS), Sync(100), Change(ONES), Sync(0));
    RunStep(w, [Change(ZEROS), Sync(100), Change(ONES), Sync(0)], Sync(1));
    assert LOSING_RUN == [Change(ZEROS), Sync(100), Change(ONES), Sync(0)] + [Sync(1)];
  }

  lemma RunNothing(w: World)
    requires |w.image| >= REC_REGION
    ensures Run(w, []) == w
  {}

  // ---- a run that forgets a save which is on the disk ----

  /** A slot does not load when up to four bytes in a row of its body differ from what its header announces. */
  lemma BurstRejected(d: Disk, slot: nat, s: Saved, a: seq<byte>, x: seq<byte>, y: seq<byte>, z: seq<byte>)
    requires Announces(SlotHdr(d, slot), s) && s.image == a + x + z
    requires |x| == |y| <= 4 && x != y && ReadBody(d, Base(slot) + 1, |s.image|) == a + y + z
    ensures LoadSlot(d, slot) == None
  {
    hide Crc32, DecodeHdr, ReadBody, AnnouncedLength;
    BurstDetected(a, x, y, z);
  }

  const SPOILT: seq<byte> := [1] + seq(22015, _ => 0)

  /** Two saves fail, the third completes as number 3 in slot 1. */
  const FILL: seq<Event> := [Change(ZEROS), Sync(0), Sync(0), Sync(100)]

  /** The next one fails; the one after it spoils a byte of that slot. */
  const SPOIL: seq<Event> := [Change(SPOILT), Sync(0), Sync(1)]

  /** After a restart the numbers start again: one save fails, the next completes as number 2 in slot 0. */
  const SAVE_AGAIN: seq<Event> := [Restart, Change(ZEROS), Sync(0), Sync(100)]

  lemma SpoiltImages()
    ensures |ZEROS| == REC_REGION && |SPOILT| == REC_REGION && Sectors(ZEROS) == 43 && Sectors(SPOILT) == 43
    ensures Fits(ZEROS) && Fits(SPOILT) && Overlay(ZEROS, SPOILT, 1) == SPOILT
  {
    var zeros := seq(22015, _ => 0);
    assert ZEROS == [0] + zeros;
    assert Chunk(SPOILT, 0) == SPOILT[..SECTOR];
    assert ZEROS[SECTOR..] == SPOILT[SECTOR..];
    assert Overlay(ZEROS, SPOILT, 0) == ZEROS;
    assert Replaced(ZEROS, 0, Chunk(SPOILT, 0)) == Chunk(SPOILT, 0) + ZEROS[SECTOR..] by {
      assert ZEROS[..0] == [];
    }
  }

  /** A save that fails at once only takes a number. */
  lemma FailAtOnce(w: World)
    requires |w.image| >= REC_REGION && w.dirty && Fits(w.image)
    ensures SyncStep(w, 0) == w.(seqNo := ToUint32(w.seqNo + 1))
  {}

  lemma Filled(w: World)
    requires |w.image| >= REC_REGION && w.seqNo == 0 && !HasMagic(w.disk, 0)
    requires |ZEROS| == REC_REGION
    ensures var v := Run(w, FILL);
            && v.seqNo == 3 && !HasMagic(v.disk, 0) && v.image == ZEROS
            && v.saved == Some(Saved(3, ZEROS)) && LoadSlot(v.disk, 1) == v.saved
  {
    hide HasMagic, SlotWritten, SlotHdr, LoadSlot, ZEROS, Run;
    SpoiltImages();
    RunFour(w, Change(ZEROS), Sync(0), Sync(0), Sync(100));
    var v := Step(w, Change(ZEROS));
    FailAtOnce(v);
    FailAtOnce(v.(seqNo := 1));
    CompleteHeaders(v.(seqNo := 2), 100);
    SameMagic(w.disk, SyncStep(v.(seqNo := 2), 100).disk, 0);
  }

  lemma SameMagic(d: Disk, e: Disk, slot: nat)
    requires SlotHdr(e, slot) == SlotHdr(d, slot)
    ensures HasMagic(e, slot) == HasMagic(d, slot)
  {
    hide SlotHdr;
  }

  lemma Spoiled(w: World)
    requires |w.image| >= REC_REGION && w.seqNo == 3 && !HasMagic(w.disk, 0)
    requires |ZEROS| == REC_REGION && |SPOILT| == REC_REGION
    requires w.saved == Some(Saved(3, ZEROS)) && LoadSlot(w.disk, 1) == w.saved
    ensures var v := Run(w, SPOIL);
            && !HasMagic(v.disk, 0) && HasMagic(v.disk, 1)
            && SlotHdr(v.disk, 1).seqNo == 3 && LoadSlot(v.disk, 1) == None
  {
    hide HasMagic, SlotWritten, SlotHdr, LoadSlot, ReadBody, Overlay, Base, Announces, ZEROS, SPOILT, Run;
    SpoiltImages();
    RunThree(w, Change(SPOILT), Sync(0), Sync(1));
    var v := Step(w, Change(SPOILT));
    FailAtOnce(v);
    var u := v.(seqNo := 4);
    CutHeaders(u, 1);
    SameMagic(w.disk, SyncStep(u, 1).disk, 0);
    SameMagic(w.disk, SyncStep(u, 1).disk, 1);
    LoadedSlotHeader(w.disk, 1);
    LoadedSlotAnnounces(w.disk, 1, Saved(3, ZEROS));
    CutBody(w.disk, 1, SPOILT, 5, 1, Saved(3, ZEROS));
    SpoiltBody(SyncStep(u, 1).disk);
  }

  lemma SpoiltBody(d: Disk)
    requires Announces(SlotHdr(d, 1), Saved(3, ZEROS)) && ReadBody(d, Base(1) + 1, |ZEROS|) == SPOILT
    ensures LoadSlot(d, 1) == None
  {
    hide Announces, SlotHdr, ReadBody, LoadSlot, Base;
    var zeros := seq(22015, _ => 0);
    assert ZEROS == [] + [0] + zeros && SPOILT == [] + [1] + zeros;
    BurstRejected(d, 1, Saved(3, ZEROS), [], [0], [1], zeros);
  }

  lemma SavedAgain(w: World)
    requires |w.image| >= REC_REGION && |ZEROS| == REC_REGION
    requires !HasMagic(w.disk, 0) && HasMagic(w.disk, 1)
    requires SlotHdr(w.disk, 1).seqNo == 3 && LoadSlot(w.disk, 1) == None
    ensures var v := Run(w, SAVE_AGAIN);
            && v.saved == Some(Saved(2, ZEROS)) && LoadSlot(v.disk, 0) == v.saved
            && Load(v.disk) == None
  {
    hide HasMagic, SlotWritten, SlotHdr, LoadSlot, Load, SeqAfterLoad, ZEROS, Run;
    SpoiltImages();
    RunFour(w, Restart, Change(ZEROS), Sync(0), Sync(100));
    NothingLoads(w.disk);
    var v := Step(Step(w, Restart), Change(ZEROS));
    FailAtOnce(v);
    var e := SyncStep(v.(seqNo := 1), 100).disk;
    CompleteHeaders(v.(seqNo := 1), 100);
    OtherSlotKept(w.disk, 0, ZEROS, 2, 100);
    SameMagic(w.disk, e, 1);
    HiddenByBroken(e);
  }

  lemma NothingLoads(d: Disk)
    requires !HasMagic(d, 0) && LoadSlot(d, 1) == None
    ensures Load(d) == None && SeqAfterLoad(d) == 0
  {}

  lemma HiddenByBroken(d: Disk)
    requires LoadSlot(d, 0).Some? && LoadSlot(d, 0).value.seqNo < SlotHdr(d, 1).seqNo
    requires HasMagic(d, 1) && LoadSlot(d, 1) == None
    ensures Load(d) == None
  {
    hide LoadSlot, SlotHdr;
  }

  /** From a blank disk that run ends with the last completed save whole in slot 0, and a restart finds
      nothing: the broken slot 1 has the larger number. */
  lemma ForgettingRunExample(w: World)
    requires |w.image| >= REC_REGION && w.seqNo == 0 && w.saved == None && !HasMagic(w.disk, 0) && !HasMagic(w.disk, 1)
    ensures var v := Run(w, FILL + SPOIL + SAVE_AGAIN);
            && v.saved == Some(Saved(2, ZEROS)) && LoadSlot(v.disk, 0) == v.saved
            && Load(v.disk) == None
  {
    hide HasMagic, SlotHdr, LoadSlot, Load, Run, FILL, SPOIL, SAVE_AGAIN;
    SpoiltImages();
    RunsPossible();
    RunAppend(w, FILL, SPOIL);
    RunAppend(w, FILL + SPOIL, SAVE_AGAIN);
    Filled(w);
    Spoiled(Run(w, FILL));
    SavedAgain(Run(w, FILL + SPOIL));
  }

  lemma RunsPossible()
    ensures forall e <- FILL :: Possible(e)
    ensures forall e <- SPOIL :: Possible(e)
    ensures forall e <- SAVE_AGAIN :: Possible(e)
  {
    hide ZEROS, SPOILT;
    SpoiltImages();
  }

  lemma {:induction false} RunAppend(w: World, a: seq<Event>, b: seq<Event>)
    requires |w.image| >= REC_REGION && (forall e <- a :: Possible(e)) && (forall e <- b :: Possible(e))
    ensures Run(w, a + b) == Run(Run(w, a), b)
  {
    hide Step;
    if b == [] {
      assert a + b == a;
    } else {
      assert (a + b)[..|a + b| - 1] == a + b[..|b| - 1];
      RunAppend(w, a, b[..|b| - 1]);
    }
  }

  lemma RunTwo(w: World, e: Event, f: Event)
    requires |w.image| >= REC_REGION && Possible(e) && Possible(f)
    ensures Run(w, [e, f]) == Step(Step(w, e), f)
  {
    hide Step, Run;
    RunNothing(w);
    RunStep(w, [], e);
    assert [] + [e] == [e] && [e] + [f] == [e, f];
    RunStep(w, [e], f);
  }

  lemma RunThree(w: World, e: Event, f: Event, g: Event)
    requires |w.image| >= REC_REGION && Possible(e) && Possible(f) && Possible(g)
    ensures Run(w, [e, f, g]) == Step(Step(Step(w, e), f), g)
  {
    hide Step, Run;
    RunTwo(w, e, f);
    RunStep(w, [e, f], g);
    assert [e, f] + [g] == [e, f, g];
  }

  lemma RunFour(w: World, e: Event, f: Event, g: Event, h: Event)
    requires |w.image| >= REC_REGION && Possible(e) && Possible(f) && Possible(g) && Possible(h)
    ensures Run(w, [e, f, g, h]) == Step(Step(Step(Step(w, e), f), g), h)
  {
    hide Step, Run;
    RunThree(w, e, f, g);
    RunStep(w, [e, f, g], h);
    assert [e, f, g] + [h] == [e, f, g, h];
  }
}
