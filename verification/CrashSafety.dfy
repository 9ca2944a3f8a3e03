/** src/filesystem/persist.c over whole runs: what a restart finds after saves that complete, saves that are
    cut short, and restarts, in any order. */
module CrashSafety {
  import opened MachineWords
  import opened Wrappers
  import opened Snapshot
  import opened Checksum
  import opened SlotStore

  // ---- one slot ----

  /** The two disks agree on a slot's sectors. */
  ghost predicate SameSlot(d: Disk, e: Disk, slot: nat) {
    forall lba | Base(slot) <= lba < Base(slot + 1) :: d(lba) == e(lba)
  }

  lemma {:induction false} ReadBodySame(d: Disk, e: Disk, lba: nat, n: nat)
    requires forall l | lba <= l < lba + (n + SECTOR - 1) / SECTOR :: d(l) == e(l)
    ensures ReadBody(d, lba, n) == ReadBody(e, lba, n)
    decreases n
  {
    if n > SECTOR { ReadBodySame(d, e, lba + 1, n - SECTOR); }
  }

  lemma LoadSlotSame(d: Disk, e: Disk, slot: nat)
    requires SameSlot(d, e, slot)
    ensures LoadSlot(d, slot) == LoadSlot(e, slot) && SlotHdr(d, slot) == SlotHdr(e, slot)
  {
    hide DecodeHdr, Crc32, ReadBody, AnnouncedLength;
    assert d(Base(slot)) == e(Base(slot));
    var total := AnnouncedLength(SlotHdr(d, slot));
    if 0 < total <= SLOT_SECT * SECTOR - SECTOR {
      ReadBodySame(d, e, Base(slot) + 1, total);
    }
  }

  /** A body write touches its own sector only. */
  lemma {:induction false} BodyWrittenAt(d: Disk, slot: nat, image: seq<byte>, k: nat, lba: nat)
    requires k <= Sectors(image)
    ensures BodyWritten(d, slot, image, k)(lba) ==
            if Base(slot) < lba <= Base(slot) + k then Chunk(image, lba - Base(slot) - 1) else d(lba)
  {
    hide Chunk;
    if k > 0 { BodyWrittenAt(d, slot, image, k - 1, lba); }
  }

  /** Whatever a save writes, the other slot keeps its sectors, and so what it loads. */
  lemma OtherSlotKept(d: Disk, slot: nat, image: seq<byte>, seqNo: uint32, k: nat)
    requires slot < 2 && |image| >= REC_REGION && Fits(image)
    ensures var e := SlotWritten(d, slot, image, seqNo, k);
            LoadSlot(e, 1 - slot) == LoadSlot(d, 1 - slot) && SlotHdr(e, 1 - slot) == SlotHdr(d, 1 - slot)
  {
    hide LoadSlot, SlotHdr, EncodeHdr, HeaderOf, Chunk;
    var e := SlotWritten(d, slot, image, seqNo, k);
    var j := if k <= Sectors(image) then k else Sectors(image);
    forall lba | Base(1 - slot) <= lba < Base(1 - slot + 1) ensures e(lba) == d(lba) {
      BodyWrittenAt(d, slot, image, j, lba);
    }
    LoadSlotSame(e, d, 1 - slot);
  }

  /** Until the header is written, the slot keeps the header it had. */
  lemma HeaderKept(d: Disk, slot: nat, image: seq<byte>, seqNo: uint32, k: nat)
    requires |image| >= REC_REGION && k <= Sectors(image)
    ensures SlotHdr(SlotWritten(d, slot, image, seqNo, k), slot) == SlotHdr(d, slot)
  {
    hide DecodeHdr, Chunk;
    BodyWrittenAt(d, slot, image, k, Base(slot));
  }

  lemma {:induction false} ReadWritten(d: Disk, slot: nat, image: seq<byte>, j: nat)
    requires j * SECTOR <= |image|
    requires forall i | 0 <= i < Sectors(image) :: d(Base(slot) + 1 + i) == Chunk(image, i)
    ensures ReadBody(d, Base(slot) + 1 + j, |image| - j * SECTOR) == image[j * SECTOR..]
    decreases |image| - j * SECTOR
  {
    var n := |image| - j * SECTOR;
    if n == 0 {
      assert image[j * SECTOR..] == [];
    } else {
      assert j < Sectors(image);
      assert d(Base(slot) + 1 + j) == Chunk(image, j);
      if n > SECTOR {
        ReadWritten(d, slot, image, j + 1);
        assert image[j * SECTOR..] == image[j * SECTOR..][..SECTOR] + image[(j + 1) * SECTOR..];
      }
    }
  }

  lemma {:induction false} UsedRecordsBound(image: seq<byte>, i: nat)
    requires |image| >= REC_REGION && i <= MAX_FILES
    ensures UsedRecords(image, i) <= i
  {
    hide RecAt;
    if i > 0 { UsedRecordsBound(image, i - 1); }
  }

  lemma FittingSize(image: seq<byte>)
    requires Fits(image) && |image| >= REC_REGION
    ensures 0 < |image| <= SLOT_SECT * SECTOR - SECTOR < WORD
  {}

  lemma HeaderReadsBack(image: seq<byte>, seqNo: uint32)
    requires Fits(image) && |image| >= REC_REGION
    ensures |HeaderOf(image, seqNo).magic| == 8
    ensures DecodeHdr(EncodeHdr(HeaderOf(image, seqNo))) == HeaderOf(image, seqNo)
  {
    hide Crc32, UsedRecords, EncodeHdr, DecodeHdr;
    FittingSize(image);
    UsedRecordsBound(image, MAX_FILES);
    HdrRoundTrip(HeaderOf(image, seqNo));
  }

  /** A slot written to the end loads as the image and number written. */
  lemma CompleteSlotLoads(d: Disk, slot: nat, image: seq<byte>, seqNo: uint32, k: nat)
    requires Fits(image) && |image| >= REC_REGION && k > Sectors(image)
    ensures LoadSlot(SlotWritten(d, slot, image, seqNo, k), slot) == Some(Saved(seqNo, image))
    ensures SlotHdr(SlotWritten(d, slot, image, seqNo, k), slot) == HeaderOf(image, seqNo)
  {
    hide DecodeHdr, EncodeHdr, Crc32, UsedRecords, Chunk, ReadBody, BodyWritten;
    var e := SlotWritten(d, slot, image, seqNo, k);
    HeaderReadsBack(image, seqNo);
    FittingSize(image);
    forall i | 0 <= i < Sectors(image) ensures e(Base(slot) + 1 + i) == Chunk(image, i) {
      BodyWrittenAt(d, slot, image, Sectors(image), Base(slot) + 1 + i);
    }
    ReadWritten(e, slot, image, 0);
    assert image[0..] == image;
    assert (REC_REGION + (|image| - REC_REGION)) % (WORD * WORD) == |image|;
  }

  // ---- what a cut save leaves in a slot ----

  /** Bytes with sector j replaced, as far as they reach. */
  function Replaced(was: seq<byte>, j: nat, c: Sector): (r: seq<byte>)
    ensures |r| == |was|
  {
    if j * SECTOR >= |was| then was
    else if (j + 1) * SECTOR <= |was| then was[..j * SECTOR] + c + was[(j + 1) * SECTOR..]
    else was[..j * SECTOR] + c[..|was| - j * SECTOR]
  }

  /** Bytes after the first k sectors of an image are written over them. */
  function Overlay(was: seq<byte>, image: seq<byte>, k: nat): (r: seq<byte>)
    requires k <= Sectors(image)
    ensures |r| == |was|
  {
    if k == 0 then was else Replaced(Overlay(was, image, k - 1), k - 1, Chunk(image, k - 1))
  }

  /** Sector j of the image holds what the old bytes have there. */
  predicate SectorAgrees(was: seq<byte>, image: seq<byte>, j: nat)
    requires j < Sectors(image)
  {
    var end := if (j + 1) * SECTOR <= |was| then (j + 1) * SECTOR else |was|;
    j * SECTOR < |was| ==> Chunk(image, j)[..end - j * SECTOR] == was[j * SECTOR..end]
  }

  /** The first k sectors of the image hold what the old bytes have there. */
  predicate SectorsAgree(was: seq<byte>, image: seq<byte>, k: nat)
    requires k <= Sectors(image)
  {
    forall j | 0 <= j < k :: SectorAgrees(was, image, j)
  }

  lemma {:induction false} ReadBodyPut(d: Disk, lba: nat, n: nat, j: nat, c: Sector)
    ensures ReadBody(Put(d, lba + j, c), lba, n) == Replaced(ReadBody(d, lba, n), j, c)
    decreases n
  {
    hide Replaced;
    var e := Put(d, lba + j, c);
    if n <= SECTOR {
      ReplacedLast(d, e, lba, n, j, c);
    } else if j == 0 {
      ReadBodySame(d, e, lba + 1, n - SECTOR);
      ReplacedFirst(d(lba), ReadBody(d, lba + 1, n - SECTOR), c);
    } else {
      ReadBodyPut(d, lba + 1, n - SECTOR, j - 1, c);
      ReplacedLater(d(lba), ReadBody(d, lba + 1, n - SECTOR), j, c);
    }
  }

  lemma ReplacedLast(d: Disk, e: Disk, lba: nat, n: nat, j: nat, c: Sector)
    requires n <= SECTOR && e(lba) == if j == 0 then c else d(lba)
    ensures ReadBody(e, lba, n) == Replaced(ReadBody(d, lba, n), j, c)
  {}

  lemma ReplacedFirst(first: Sector, rest: seq<byte>, c: Sector)
    ensures Replaced(first + rest, 0, c) == c + rest
  {}

  lemma ReplacedLater(first: Sector, rest: seq<byte>, j: nat, c: Sector)
    requires j > 0
    ensures Replaced(first + rest, j, c) == first + Replaced(rest, j - 1, c)
  {
    var was, i, n := first + rest, (j - 1) * SECTOR, |rest|;
    if i < n {
      assert was[..i + SECTOR] == first + rest[..i];
      if i + SECTOR <= n {
        assert was[i + SECTOR + SECTOR..] == rest[i + SECTOR..];
        SeqAssociates(first, rest[..i], c, rest[i + SECTOR..]);
      } else {
        SeqAssociates(first, rest[..i], c[..n - i], []);
      }
    }
  }

  lemma SeqAssociates(a: seq<byte>, b: seq<byte>, c: seq<byte>, d: seq<byte>)
    ensures (a + b) + c + d == a + (b + c + d)
  {}

  lemma {:induction false} BodyOverlay(d: Disk, slot: nat, image: seq<byte>, k: nat, n: nat)
    requires k <= Sectors(image)
    ensures ReadBody(BodyWritten(d, slot, image, k), Base(slot) + 1, n)
            == Overlay(ReadBody(d, Base(slot) + 1, n), image, k)
  {
    hide ReadBody, Chunk, Replaced, Put;
    if k > 0 {
      BodyOverlay(d, slot, image, k - 1, n);
      ReadBodyPut(BodyWritten(d, slot, image, k - 1), Base(slot) + 1, n, k - 1, Chunk(image, k - 1));
    }
  }

  lemma ReplacedAgrees(was: seq<byte>, image: seq<byte>, j: nat)
    requires j < Sectors(image)
    ensures SectorAgrees(Replaced(was, j, Chunk(image, j)), image, j)
    ensures SectorAgrees(was, image, j) ==> Replaced(was, j, Chunk(image, j)) == was
  {
    hide Chunk;
    var c, at, n := Chunk(image, j), j * SECTOR, |was|;
    if at < n {
      var end := if at + SECTOR <= n then at + SECTOR else n;
      CutOut(was, at, end, c);
      assert Replaced(was, j, c) == was[..at] + c[..end - at] + was[end..];
    }
  }

  lemma CutOut(was: seq<byte>, at: nat, end: nat, c: seq<byte>)
    requires at <= end <= |was| && end - at <= |c|
    ensures var r := was[..at] + c[..end - at] + was[end..];
            |r| == |was| && r[at..end] == c[..end - at] && (c[..end - at] == was[at..end] ==> r == was)
  {
    assert was == was[..at] + was[at..end] + was[end..];
  }

  lemma ReplacedElsewhere(was: seq<byte>, image: seq<byte>, i: nat, j: nat, c: Sector)
    requires i < j && i < Sectors(image)
    ensures SectorAgrees(Replaced(was, j, c), image, i) == SectorAgrees(was, image, i)
  {
    hide Chunk;
    var r := Replaced(was, j, c);
    var end := if (i + 1) * SECTOR <= |was| then (i + 1) * SECTOR else |was|;
    if i * SECTOR < |was| { assert r[i * SECTOR..end] == was[i * SECTOR..end]; }
  }

  /** What was written over the old bytes stands there. */
  lemma {:induction false} OverlayHolds(was: seq<byte>, image: seq<byte>, k: nat, j: nat)
    requires j < k <= Sectors(image)
    ensures SectorAgrees(Overlay(was, image, k), image, j)
  {
    hide Chunk, Replaced, SectorAgrees;
    var before := Overlay(was, image, k - 1);
    if j == k - 1 {
      ReplacedAgrees(before, image, j);
    } else {
      OverlayHolds(was, image, k - 1, j);
      ReplacedElsewhere(before, image, j, k - 1, Chunk(image, k - 1));
    }
  }

  /** Writing sectors changes nothing exactly when they hold what is there. */
  lemma {:induction false} OverlayUnchanged(was: seq<byte>, image: seq<byte>, k: nat)
    requires k <= Sectors(image)
    ensures Overlay(was, image, k) == was <==> SectorsAgree(was, image, k)
  {
    hide Chunk, Replaced, SectorAgrees;
    if SectorsAgree(was, image, k) && k > 0 {
      OverlayUnchanged(was, image, k - 1);
      ReplacedAgrees(was, image, k - 1);
    }
    if Overlay(was, image, k) == was {
      forall j | 0 <= j < k ensures SectorAgrees(was, image, j) {
        OverlayHolds(was, image, k, j);
      }
    }
  }

  // ---- runs ----

  /** The machine: the disk, the persistence layer's variables, the image the file table would give now, and
      (for the statements only) the last save that completed. */
  datatype World = World(disk: Disk, seqNo: uint32, dirty: bool, image: seq<byte>, saved: Option<Saved>)

  /** The file table changes; a save is attempted, of which the device completes at most k writes; the
      machine restarts (after a power cut or otherwise). */
  datatype Event = Change(image: seq<byte>) | Sync(k: nat) | Restart

  /** `persist_sync`. The number is advanced before the writes and stays so if they fail. */
  function SyncStep(w: World, k: nat): World
    requires |w.image| >= REC_REGION
  {
    if !w.dirty || !Fits(w.image) then w
    else
      var n := ToUint32(w.seqNo + 1);
      var disk := SlotWritten(w.disk, n % 2, w.image, n, k);
      if k > Sectors(w.image) then World(disk, n, false, w.image, Some(Saved(n, w.image)))
      else World(disk, n, true, w.image, w.saved)
  }

  /** After a restart nothing is left but the disk and what loading it gives; a fresh tree is empty. With the
      mark cleared, no save reads the image before the next change sets it. */
  function RestartStep(w: World): World {
    var best := Load(w.disk);
    var image := if best.Some? && |best.value.image| >= REC_REGION then best.value.image else seq(REC_REGION, _ => 0);
    World(w.disk, SeqAfterLoad(w.disk) % WORD, false, image, w.saved)
  }

  predicate Possible(e: Event) {
    e.Change? ==> |e.image| >= REC_REGION
  }

  function Step(w: World, e: Event): (v: World)
    requires |w.image| >= REC_REGION && Possible(e)
    ensures |v.image| >= REC_REGION
  {
    match e
    case Change(image) => w.(image := image, dirty := true)
    case Sync(k) => SyncStep(w, k)
    case Restart => RestartStep(w)
  }

  // ---- what single steps do ----

  /** A save is refused exactly when nothing changed or the image is larger than a slot's body. */
  lemma RefusedSync(w: World, k: nat)
    requires |w.image| >= REC_REGION
    ensures SyncStep(w, k) == w <==> !w.dirty || |w.image| > 65535 * 512
  {
    hide SlotWritten;
    if w.dirty && Fits(w.image) {
      assert ToUint32(w.seqNo + 1) != w.seqNo;
    }
  }

  /** What a save writes, sector by sector: the image padded with zeros behind the first sector of slot 0 or 1,
      by the number's parity, and last that first sector. */
  lemma SectorsOfSync(w: World, k: nat, lba: nat)
    requires |w.image| >= REC_REGION && w.dirty && |w.image| <= 65535 * 512
    ensures var n := (w.seqNo + 1) % 0x1_0000_0000;
            var base, count, padded := 4096 + n % 2 * 65536, (|w.image| + 511) / 512, w.image + seq(512, _ => 0);
            && SyncStep(w, k).seqNo == n
            && SyncStep(w, k).disk(lba) ==
               if base < lba <= base + k && lba <= base + count then padded[(lba - base - 1) * 512..(lba - base) * 512]
               else if lba == base && k > count then EncodeHdr(HeaderOf(w.image, n))
               else w.disk(lba)
  {
    hide Chunk, EncodeHdr, HeaderOf, BodyWritten;
    var n := ToUint32(w.seqNo + 1);
    var base, count := 4096 + n % 2 * 65536, (|w.image| + 511) / 512;
    BodyWrittenAt(w.disk, n % 2, w.image, if k <= count then k else count, lba);
    if base < lba <= base + k && lba <= base + count {
      PaddedChunk(w.image, lba - base - 1);
    }
  }

  lemma PaddedChunk(image: seq<byte>, j: nat)
    requires j < Sectors(image)
    ensures (j + 1) * 512 <= |image| + 512
    ensures Chunk(image, j) == (image + seq(512, _ => 0))[j * 512..(j + 1) * 512]
  {}

  /** The header's fields. */
  lemma WrittenHeader(t: Table, seqNo: uint32)
    requires WellFormed(t) && |Image(t)| <= 65535 * 512
    ensures |Image(t)| >= REC_REGION
    ensures var h := DecodeHdr(EncodeHdr(HeaderOf(Image(t), seqNo)));
            && h.magic == [69, 71, 78, 68, 83, 75, 48, 50] && h.version == 1 && h.seqNo == seqNo
            && h.nodes == |set i | 0 <= i < 256 && t[i].Node?| && h.recBytes == 256 * 86
            && h.payload == HeldSizes(t) && h.crc == Crc32(Image(t))
  {
    hide Crc32, EncodeHdr, DecodeHdr, Image, UsedRecords;
    RecAtImage(t, 0);
    HeaderReadsBack(Image(t), seqNo);
    NodeCount(t, MAX_FILES);
    BodyPlaces(t);
  }

  lemma {:induction false} NodeCount(t: Table, n: nat)
    requires WellFormed(t) && n <= MAX_FILES
    ensures |Image(t)| >= REC_REGION
    ensures UsedRecords(Image(t), n) == |set i | 0 <= i < n && t[i].Node?|
  {
    hide RecAt, Image;
    RecAtImage(t, 0);
    var nodes := set i | 0 <= i < n && t[i].Node?;
    if n == 0 {
      assert nodes == {};
    } else {
      NodeCount(t, n - 1);
      RecAtImage(t, n - 1);
      OneMoreNode(t, n - 1);
    }
  }

  lemma OneMoreNode(t: Table, n: nat)
    requires n < MAX_FILES
    ensures |set i | 0 <= i < n + 1 && t[i].Node?| == |set i | 0 <= i < n && t[i].Node?| + if t[n].Node? then 1 else 0
  {
    var before := set i | 0 <= i < n && t[i].Node?;
    assert (set i | 0 <= i < n + 1 && t[i].Node?) == if t[n].Node? then before + {n} else before;
  }

  /** A save that completes leaves nothing to do: until the next change, saving again does nothing. */
  lemma SavedOnce(w: World, k: nat, j: nat)
    requires |w.image| >= REC_REGION && w.dirty && |w.image| <= 65535 * 512 && k > (|w.image| + 511) / 512
    ensures !SyncStep(w, k).dirty
    ensures SyncStep(SyncStep(w, k), j) == SyncStep(w, k)
  {
    hide SlotWritten;
  }

  /** After a restart the number is the largest of those in slots that load, whichever of them is restored;
      nothing is to be saved. */
  lemma NumberAfterRestart(w: World)
    ensures var a, b, v := LoadSlot(w.disk, 0), LoadSlot(w.disk, 1), RestartStep(w);
            && !v.dirty && v.disk == w.disk
            && v.seqNo == (if a.Some? && (b.None? || b.value.seqNo <= a.value.seqNo) then a.value.seqNo
                           else if b.Some? then b.value.seqNo else 0) % 0x1_0000_0000
  {
    hide LoadSlot, SlotHdr;
    LoadedSlotHeader(w.disk, 0);
    LoadedSlotHeader(w.disk, 1);
  }

  /** The disk loads as exactly the given save, and the other slot, if it holds a header at all, an older
      number; or, with no save, neither slot holds a header. */
  predicate Holds(d: Disk, saved: Option<Saved>) {
    match saved
    case None => !HasMagic(d, 0) && !HasMagic(d, 1)
    case Some(s) =>
      && |s.image| >= REC_REGION
      && LoadSlot(d, s.seqNo % 2) == saved
      && (HasMagic(d, 1 - s.seqNo % 2) ==> SlotHdr(d, 1 - s.seqNo % 2).seqNo < s.seqNo)
  }

  /** The disk holds the last completed save, and the number has not fallen behind it. */
  predicate Safe(w: World) {
    && |w.image| >= REC_REGION
    && Holds(w.disk, w.saved)
    && (w.saved.Some? ==> w.saved.value.seqNo <= w.seqNo)
  }

  /** No save attempt has failed since the last completed save or restart. */
  predicate InStep(w: World) {
    w.saved.Some? ==> w.seqNo == w.saved.value.seqNo
  }

  lemma LoadedSlotHeader(d: Disk, slot: nat)
    ensures LoadSlot(d, slot).Some? ==> HasMagic(d, slot) && SlotHdr(d, slot).seqNo == LoadSlot(d, slot).value.seqNo
    ensures LoadSlot(d, slot).Some? ==>
              |LoadSlot(d, slot).value.image| >= REC_REGION || SlotHdr(d, slot).payload >= WORD
  {
    hide ReadBody, Crc32, DecodeHdr;
  }

  /** A restart from a disk that holds a save finds it and takes up its number. */
  lemma HeldLoads(d: Disk, saved: Option<Saved>)
    requires Holds(d, saved)
    ensures Load(d) == saved
    ensures SeqAfterLoad(d) == if saved.Some? then saved.value.seqNo else 0
  {
    hide LoadSlot, SlotHdr;
    LoadedSlotHeader(d, 0);
    LoadedSlotHeader(d, 1);
  }

  /** So does a restart from a safe state. */
  lemma SafeLoads(w: World)
    requires Safe(w)
    ensures Load(w.disk) == w.saved
    ensures SeqAfterLoad(w.disk) == if w.saved.Some? then w.saved.value.seqNo else 0
  {
    hide Holds, Load, SeqAfterLoad;
    HeldLoads(w.disk, w.saved);
  }

  /** The loader does not prefer the other slot to the one this save belongs in: a loadable slot 0 with a
      larger number hides slot 1, and any header in slot 1 with a larger number hides slot 0. */
  predicate Preferred(d: Disk, s: Saved) {
    if s.seqNo % 2 == 1 then
      LoadSlot(d, 0).None? || LoadSlot(d, 0).value.seqNo < s.seqNo || LoadSlot(d, 0) == Some(s)
    else
      !HasMagic(d, 1) || SlotHdr(d, 1).seqNo <= s.seqNo
  }

  /** Completed saves, exactly: whatever the disk holds, a save that completes is what the next restart finds
      if and only if the loader does not prefer the other slot. */
  lemma CompleteSync(w: World, k: nat)
    requires |w.image| >= REC_REGION && w.dirty && Fits(w.image) && k > Sectors(w.image)
    ensures var n := (w.seqNo + 1) % 0x1_0000_0000;
            && (Load(SyncStep(w, k).disk) == SyncStep(w, k).saved <==> Preferred(w.disk, Saved(n, w.image)))
            && SyncStep(w, k).saved == Some(Saved(n, w.image))
            && (Preferred(w.disk, Saved(n, w.image)) <==>
                  if n % 2 == 0 then !HasMagic(w.disk, 1) || SlotHdr(w.disk, 1).seqNo <= n
                  else LoadSlot(w.disk, 0).None? || LoadSlot(w.disk, 0).value.seqNo < n
                       || LoadSlot(w.disk, 0) == Some(Saved(n, w.image)))
  {
    hide LoadSlot, SlotHdr, SlotWritten;
    var n, e := ToUint32(w.seqNo + 1), SyncStep(w, k).disk;
    CompleteSlotLoads(w.disk, n % 2, w.image, n, k);
    OtherSlotKept(w.disk, n % 2, w.image, n, k);
    LoadedSlotHeader(e, 0);
    LoadedSlotHeader(e, 1);
  }

  /** The other slot holds no header, or one with a smaller number than the next save gets. */
  predicate NextIsNewest(w: World) {
    var n := ToUint32(w.seqNo + 1);
    HasMagic(w.disk, 1 - n % 2) ==> SlotHdr(w.disk, 1 - n % 2).seqNo < n
  }

  /** A save that completes with the larger number of the two is held by the disk. */
  lemma CompleteSyncHolds(w: World, k: nat)
    requires |w.image| >= REC_REGION && NextIsNewest(w)
    requires w.dirty && Fits(w.image) && k > Sectors(w.image)
    ensures Holds(SyncStep(w, k).disk, SyncStep(w, k).saved)
  {
    hide LoadSlot, SlotHdr, SlotWritten, HeaderOf;
    var n := ToUint32(w.seqNo + 1);
    CompleteSlotLoads(w.disk, n % 2, w.image, n, k);
    OtherSlotKept(w.disk, n % 2, w.image, n, k);
  }

  lemma SafeNextIsNewest(w: World)
    requires Safe(w) && w.seqNo < WORD - 1
    ensures NextIsNewest(w)
  {
    hide LoadSlot, SlotHdr;
    LoadedSlotHeader(w.disk, 0);
    LoadedSlotHeader(w.disk, 1);
  }

  /** From a safe state that is every save, except one whose number wraps to zero below a number in slot 1. */
  lemma CompleteSyncFromSafe(w: World, k: nat)
    requires Safe(w) && w.dirty && Fits(w.image) && k > Sectors(w.image)
    ensures w.seqNo < WORD - 1 ==> Safe(SyncStep(w, k)) && InStep(SyncStep(w, k))
    ensures Load(SyncStep(w, k).disk) == SyncStep(w, k).saved
            <==> w.seqNo < WORD - 1 || !HasMagic(w.disk, 1) || SlotHdr(w.disk, 1).seqNo == 0
  {
    hide LoadSlot, SlotHdr, SlotWritten, Holds, Load;
    if w.seqNo < WORD - 1 {
      SafeNextIsNewest(w);
      CompleteSyncHolds(w, k);
      HeldLoads(SyncStep(w, k).disk, SyncStep(w, k).saved);
    } else {
      CompleteSync(w, k);
    }
  }

  /** A save that is cut short leaves the last completed save in place if it was aimed at the other slot. */
  lemma CutSyncElsewhere(w: World, k: nat)
    requires |w.image| >= REC_REGION && Holds(w.disk, w.saved)
    requires w.dirty && Fits(w.image) && k <= Sectors(w.image)
    requires w.saved.Some? ==> (w.seqNo + 1) % 2 != w.saved.value.seqNo % 2
    ensures Holds(SyncStep(w, k).disk, w.saved)
  {
    hide LoadSlot, SlotHdr, SlotWritten;
    var n := ToUint32(w.seqNo + 1);
    OtherSlotKept(w.disk, n % 2, w.image, n, k);
    HeaderKept(w.disk, n % 2, w.image, n, k);
  }

  lemma LoadedSlotMeans(d: Disk, slot: nat, s: Saved)
    requires LoadSlot(d, slot) == Some(s)
    ensures AnnouncedLength(SlotHdr(d, slot)) == |s.image| && ReadBody(d, Base(slot) + 1, |s.image|) == s.image
    ensures Crc32(s.image) == SlotHdr(d, slot).crc && SlotHdr(d, slot).seqNo == s.seqNo
  {
    hide Crc32, DecodeHdr;
  }

  lemma LoadSlotByBody(d: Disk, e: Disk, slot: nat, s: Saved)
    requires LoadSlot(d, slot) == Some(s) && SlotHdr(e, slot) == SlotHdr(d, slot)
    ensures LoadSlot(e, slot) == Some(s) <==> ReadBody(e, Base(slot) + 1, |s.image|) == s.image
    ensures LoadSlot(e, slot).Some? ==> LoadSlot(e, slot).value.seqNo == s.seqNo
  {
    hide Crc32, DecodeHdr;
    LoadedSlotMeans(d, slot, s);
  }

  /** A save that is cut short while aimed at the slot of the last completed save keeps that save exactly
      when the sectors it writes hold that save's bytes already, whatever the checksum says. */
  lemma CutSyncOnSaved(w: World, k: nat)
    requires |w.image| >= REC_REGION && Holds(w.disk, w.saved) && w.saved.Some?
    requires w.dirty && Fits(w.image) && k <= Sectors(w.image)
    requires (w.seqNo + 1) % 2 == w.saved.value.seqNo % 2
    ensures Load(SyncStep(w, k).disk) == w.saved <==> SectorsAgree(w.saved.value.image, w.image, k)
    ensures SectorsAgree(w.saved.value.image, w.image, k) ==> Holds(SyncStep(w, k).disk, w.saved)
  {
    hide LoadSlot, SlotHdr, SlotWritten, SectorsAgree, Load;
    var s, e := w.saved.value, SyncStep(w, k).disk;
    var slot, n := s.seqNo % 2, ToUint32(w.seqNo + 1);
    assert e == SlotWritten(w.disk, slot, w.image, n, k);
    CutSlotLoads(w.disk, slot, w.image, n, k, s);
    OtherSlotKept(w.disk, slot, w.image, n, k);
    CutOnSavedLoads(w.disk, e, s);
  }

  /** The slot a cut save was aimed at still loads as it did exactly when the sectors written agree. */
  lemma CutSlotLoads(d: Disk, slot: nat, image: seq<byte>, seqNo: uint32, k: nat, s: Saved)
    requires |image| >= REC_REGION && Fits(image) && k <= Sectors(image) && LoadSlot(d, slot) == Some(s)
    ensures var e := SlotWritten(d, slot, image, seqNo, k);
            && (LoadSlot(e, slot) == Some(s) <==> SectorsAgree(s.image, image, k))
            && SlotHdr(e, slot) == SlotHdr(d, slot)
  {
    hide LoadSlot, SlotHdr, ReadBody, BodyWritten, SectorsAgree, Overlay, Base, AnnouncedLength;
    HeaderKept(d, slot, image, seqNo, k);
    LoadedSlotMeans(d, slot, s);
    LoadSlotByBody(d, SlotWritten(d, slot, image, seqNo, k), slot, s);
    BodyOverlay(d, slot, image, k, |s.image|);
    OverlayUnchanged(s.image, image, k);
  }

  lemma CutOnSavedLoads(d: Disk, e: Disk, s: Saved)
    requires Holds(d, Some(s))
    requires SlotHdr(e, 0) == SlotHdr(d, 0) && SlotHdr(e, 1) == SlotHdr(d, 1)
    ensures Load(e) == Some(s) <==> LoadSlot(e, s.seqNo % 2) == Some(s)
    ensures LoadSlot(e, s.seqNo % 2) == Some(s) ==> Holds(e, Some(s))
  {
    hide LoadSlot, SlotHdr;
    LoadedSlotHeader(d, s.seqNo % 2);
    LoadedSlotHeader(e, 0);
    LoadedSlotHeader(e, 1);
  }

  /** A save cut after k writes would damage the last completed save: it is aimed at that save's slot, and
      one of the sectors it gets to holds other bytes. */
  predicate Damages(w: World, k: nat)
    requires k <= Sectors(w.image)
  {
    && w.saved.Some?
    && (w.seqNo + 1) % 2 == w.saved.value.seqNo % 2
    && !SectorsAgree(w.saved.value.image, w.image, k)
  }

  /** Cut saves, exactly: from a disk that holds the last completed save, a save cut after k writes loses it
      if and only if it damages it. */
  lemma CutSync(w: World, k: nat)
    requires |w.image| >= REC_REGION && Holds(w.disk, w.saved)
    requires w.dirty && Fits(w.image) && k <= Sectors(w.image)
    ensures Load(SyncStep(w, k).disk) == w.saved <==> !Damages(w, k)
    ensures !Damages(w, k) ==> Holds(SyncStep(w, k).disk, w.saved)
  {
    hide Load, Holds, SyncStep, SectorsAgree;
    if w.saved.Some? && (w.seqNo + 1) % 2 == w.saved.value.seqNo % 2 {
      CutSyncOnSaved(w, k);
    } else {
      CutSyncElsewhere(w, k);
      HeldLoads(SyncStep(w, k).disk, w.saved);
    }
  }

  /** The promise that a torn write never destroys the last good snapshot fails after a failed save: the
      next attempt goes to the very slot of the last good one. Cut after k writes, it keeps that save if and
      only if all k sectors hold that save's bytes already. */
  lemma TornWriteAfterFailedSave(w: World, j: nat, k: nat)
    requires |w.image| >= REC_REGION && Holds(w.disk, w.saved) && InStep(w) && w.saved.Some?
    requires w.dirty && Fits(w.image) && j <= Sectors(w.image) && k <= Sectors(w.image)
    ensures Load(SyncStep(w, j).disk) == w.saved
    ensures Load(SyncStep(SyncStep(w, j), k).disk) == w.saved <==> SectorsAgree(w.saved.value.image, w.image, k)
  {
    hide LoadSlot, SlotHdr, SlotWritten, Load, ReadBody, SectorsAgree, Holds;
    CutSyncElsewhere(w, j);
    HeldLoads(SyncStep(w, j).disk, w.saved);
    CutSyncOnSaved(SyncStep(w, j), k);
  }

  /** The machine after a run of events. */
  function Run(w: World, events: seq<Event>): (v: World)
    requires |w.image| >= REC_REGION && forall e <- events :: Possible(e)
    ensures |v.image| >= REC_REGION
  {
    if events == [] then w else Step(Run(w, events[..|events| - 1]), events[|events| - 1])
  }

  /** No save is attempted between a failed save and the next restart: after a cut, the power was off. */
  predicate Careful(w: World, events: seq<Event>)
    requires |w.image| >= REC_REGION && forall e <- events :: Possible(e)
  {
    events == [] ||
    var init, last := events[..|events| - 1], events[|events| - 1];
    Careful(w, init) && (last.Sync? ==> InStep(Run(w, init)))
  }

  lemma StepKeepsSafe(w: World, e: Event)
    requires Safe(w) && Possible(e) && w.seqNo < WORD - 1 && (e.Sync? ==> InStep(w))
    ensures Safe(Step(w, e)) && Step(w, e).seqNo <= w.seqNo + 1
    ensures e.Restart? ==> InStep(Step(w, e))
  {
    hide LoadSlot, SlotHdr, SlotWritten, Load, SeqAfterLoad;
    match e
    case Change(_) =>
    case Sync(k) =>
      if w.dirty && Fits(w.image) {
        if k > Sectors(w.image) {
          CompleteSyncFromSafe(w, k);
        } else {
          CutSyncElsewhere(w, k);
        }
      }
    case Restart =>
      HeldLoads(w.disk, w.saved);
  }

  /** Crash safety: from a safe machine, over every run of changes, saves cut anywhere or complete, and
      restarts, in which no save follows a failed one without a restart, the disk always loads as exactly
      the last save that completed. */
  lemma {:induction false} RunKeepsLastSave(w: World, events: seq<Event>)
    requires |w.image| >= REC_REGION && Safe(w) && (forall e <- events :: Possible(e))
    requires w.seqNo + |events| < WORD && Careful(w, events)
    ensures Safe(Run(w, events)) && Run(w, events).seqNo <= w.seqNo + |events|
    ensures Load(Run(w, events).disk) == Run(w, events).saved
  {
    hide Safe, Load, Step, InStep;
    if events != [] {
      var init := events[..|events| - 1];
      RunKeepsLastSave(w, init);
      StepKeepsSafe(Run(w, init), events[|events| - 1]);
    }
    SafeLoads(Run(w, events));
  }

  /** The event leaves nothing to save: a restart, or a save that completes. */
  predicate Settles(w: World, e: Event)
    requires |w.image| >= REC_REGION
  {
    e.Restart? || (e.Sync? && w.dirty && |w.image| <= 65535 * 512 && e.k > (|w.image| + 511) / 512)
  }

  predicate SettledAt(w: World, events: seq<Event>, j: nat)
    requires |w.image| >= REC_REGION && j < |events| && forall e <- events :: Possible(e)
  {
    Settles(Run(w, events[..j]), events[j])
  }

  /** Over every run, the dirty mark is set exactly when a change came after the last completed save or
      restart, or none of these came at all and it was set from the start. */
  lemma {:induction false} DirtyMark(w: World, events: seq<Event>)
    requires |w.image| >= REC_REGION && forall e <- events :: Possible(e)
    ensures Run(w, events).dirty <==>
            || (w.dirty && forall j | 0 <= j < |events| :: !SettledAt(w, events, j))
            || exists i | 0 <= i < |events| ::
                 events[i].Change? && forall j | i < j < |events| :: !SettledAt(w, events, j)
  {
    hide Step, Run, Settles, SettledAt;
    if events == [] {
      RunEmpty(w);
    } else {
      var n := |events| - 1;
      var init, last := events[..n], events[n];
      DirtyMark(w, init);
      LastEvent(w, events);
      MarkAfter(Run(w, init), last);
      SettledLast(w, events);
      forall j | 0 <= j < n ensures SettledAt(w, init, j) == SettledAt(w, events, j) {
        SettledBefore(w, events, j);
      }
      if i :| 0 <= i < n && init[i].Change? && forall j | i < j < n :: !SettledAt(w, init, j) {
        assert events[i].Change?;
      }
      if i :| 0 <= i < n && events[i].Change? && forall j | i < j < n :: !SettledAt(w, events, j) {
        assert init[i].Change?;
      }
    }
  }

  lemma SettledLast(w: World, events: seq<Event>)
    requires |w.image| >= REC_REGION && events != [] && forall e <- events :: Possible(e)
    ensures var n := |events| - 1; SettledAt(w, events, n) == Settles(Run(w, events[..n]), events[n])
  {}

  lemma SettledBefore(w: World, events: seq<Event>, j: nat)
    requires |w.image| >= REC_REGION && j < |events| - 1 && forall e <- events :: Possible(e)
    ensures SettledAt(w, events[..|events| - 1], j) == SettledAt(w, events, j)
  {
    assert events[..|events| - 1][..j] == events[..j];
  }

  lemma RunEmpty(w: World)
    requires |w.image| >= REC_REGION
    ensures Run(w, []) == w
  {}

  lemma LastEvent(w: World, events: seq<Event>)
    requires |w.image| >= REC_REGION && events != [] && forall e <- events :: Possible(e)
    ensures Run(w, events) == Step(Run(w, events[..|events| - 1]), events[|events| - 1])
  {
    hide Step;
  }

  lemma MarkAfter(w: World, e: Event)
    requires |w.image| >= REC_REGION && Possible(e)
    ensures Step(w, e).dirty <==> e.Change? || (w.dirty && !Settles(w, e))
  {
    hide Load, SeqAfterLoad, SlotWritten;
  }

  /** The event is a save that does not complete. */
  predicate Cut(w: World, e: Event) {
    e.Sync? && w.dirty && Fits(w.image) && e.k <= Sectors(w.image)
  }

  /** Saves are cut by power failures alone: what follows a cut save is a restart. */
  predicate PowerCutsOnly(w: World, events: seq<Event>)
    requires |w.image| >= REC_REGION && forall e <- events :: Possible(e)
  {
    events == [] ||
    var init, last := events[..|events| - 1], events[|events| - 1];
    PowerCutsOnly(w, init) && (EndsInCut(w, init) ==> last.Restart?)
  }

  predicate EndsInCut(w: World, events: seq<Event>)
    requires |w.image| >= REC_REGION && forall e <- events :: Possible(e)
  {
    events != [] && Cut(Run(w, events[..|events| - 1]), events[|events| - 1])
  }

  lemma StepStaysInStep(w: World, e: Event)
    requires Safe(w) && InStep(w) && Possible(e) && w.seqNo < WORD - 1 && !Cut(w, e)
    ensures InStep(Step(w, e))
  {
    hide LoadSlot, SlotHdr, SlotWritten, Load, SeqAfterLoad;
    if e.Sync? {
      if w.dirty && Fits(w.image) { CompleteSyncFromSafe(w, e.k); }
    } else {
      StepKeepsSafe(w, e);
    }
  }

  lemma {:induction false} PowerCutsAreCareful(w: World, events: seq<Event>)
    requires |w.image| >= REC_REGION && Safe(w) && InStep(w) && (forall e <- events :: Possible(e))
    requires w.seqNo + |events| < WORD && PowerCutsOnly(w, events)
    ensures Careful(w, events) && (EndsInCut(w, events) || InStep(Run(w, events)))
  {
    hide Safe, Step, InStep, Cut;
    if events != [] {
      var init, last := events[..|events| - 1], events[|events| - 1];
      PowerCutsAreCareful(w, init);
      RunKeepsLastSave(w, init);
      if EndsInCut(w, init) {
        StepKeepsSafe(Run(w, init), last);
      } else if !Cut(Run(w, init), last) {
        StepStaysInStep(Run(w, init), last);
      }
    }
  }

  /** Power cuts alone never cost the last good snapshot: over every run of changes, saves and restarts,
      with the power cut at any write of any save, the disk loads as exactly the last completed save. */
  lemma PowerCutsAreSafe(w: World, events: seq<Event>)
    requires |w.image| >= REC_REGION && Safe(w) && InStep(w) && (forall e <- events :: Possible(e))
    requires w.seqNo + |events| < WORD && PowerCutsOnly(w, events)
    ensures Load(Run(w, events).disk) == Run(w, events).saved
  {
    hide Safe, Load, Run, Careful, InStep, PowerCutsOnly, EndsInCut;
    PowerCutsAreCareful(w, events);
    RunKeepsLastSave(w, events);
  }

  /** A blank disk is safe to start from. */
  lemma BlankIsSafe(w: World)
    requires |w.image| >= REC_REGION && w.saved == None && !HasMagic(w.disk, 0) && !HasMagic(w.disk, 1)
    ensures Safe(w) && InStep(w)
  {
    hide HasMagic;
  }

  /** A loadable slot is missed exactly when it is the first and the second has the magic and a larger
      number but does not load; then neither is restored. */
  lemma LoadMisses(d: Disk)
    ensures Load(d).None? && (LoadSlot(d, 0).Some? || LoadSlot(d, 1).Some?) <==>
            && LoadSlot(d, 0).Some? && LoadSlot(d, 1).None?
            && HasMagic(d, 1) && SlotHdr(d, 1).seqNo > LoadSlot(d, 0).value.seqNo
  {
    hide LoadSlot, SlotHdr;
    LoadedSlotHeader(d, 0);
    LoadedSlotHeader(d, 1);
  }

  /** End to end: after a careful run, a restart rebuilds the file table of the last completed save, if that
      table held no external file with a size. */
  lemma RestartRestoresTable(w: World, events: seq<Event>, t: Table)
    requires |w.image| >= REC_REGION && Safe(w) && (forall e <- events :: Possible(e))
    requires w.seqNo + |events| < WORD && Careful(w, events)
    requires WellFormed(t)
    requires forall i | 0 <= i < MAX_FILES && t[i].Node? && !t[i].isDir && t[i].size > 0 ::
               t[i].capacity > 0 && t[i].body.Held?
    requires Run(w, events).saved.Some? && Run(w, events).saved.value.image == Image(t)
    ensures var best := Load(Run(w, events).disk);
            && best.Some? && |best.value.image| >= REC_REGION
            && forall i | 0 <= i < MAX_FILES :: t[i].WellFormed() && Restored(best.value.image)[i] == Kept(t[i])
  {
    hide Safe, Load, Run, Careful, Image, Restored, Kept, Node.WellFormed;
    RunKeepsLastSave(w, events);
    SnapshotRoundTrip(t);
  }
}
