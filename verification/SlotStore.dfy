/** src/filesystem/persist.c, the disk: two slots written in turn, each a body protected by a header that is
    written last. Every sector write may be the last one the device completes. */
module SlotStore {
  import opened MachineWords
  import opened Wrappers
  import opened Snapshot
  import opened Checksum

  const SECTOR: nat := 512
  const BASE_LBA: nat := 4096
  const SLOT_SECT: nat := 65536
  const VERSION: nat := 1
  const MAGIC: seq<byte> := [69, 71, 78, 68, 83, 75, 48, 50]

  type Sector = s: seq<byte> | |s| == 512 witness seq(512, _ => 0)

  /** The disk, by sector number. */
  type Disk = nat -> Sector

  function Put(d: Disk, lba: nat, s: Sector): Disk {
    (l: nat) => if l == lba then s else d(l)
  }

  // ---- headers ----

  datatype Hdr = Hdr(magic: seq<byte>, version: nat, seqNo: nat, nodes: nat, recBytes: nat, payload: nat, crc: nat)

  /** The packed header in an otherwise zero sector. */
  function EncodeHdr(h: Hdr): Sector
    requires |h.magic| == 8
  {
    h.magic + Bytes(h.version, 4) + Bytes(h.seqNo, 4) + Bytes(h.nodes, 4) + Bytes(h.recBytes, 4) + Bytes(h.payload, 8)
    + Bytes(h.crc, 4) + seq(476, _ => 0)
  }

  function DecodeHdr(s: Sector): Hdr {
    Hdr(s[..8], Number(s[8..12]), Number(s[12..16]), Number(s[16..20]),
        Number(s[20..24]), Number(s[24..32]), Number(s[32..36]))
  }

  lemma EncodedHdr(h: Hdr)
    requires |h.magic| == 8
    ensures var s := EncodeHdr(h);
            && s[..8] == h.magic && s[8..12] == Bytes(h.version, 4)
            && s[12..16] == Bytes(h.seqNo, 4) && s[16..20] == Bytes(h.nodes, 4)
            && s[20..24] == Bytes(h.recBytes, 4) && s[24..32] == Bytes(h.payload, 8) && s[32..36] == Bytes(h.crc, 4)
            && s[36..] == seq(476, _ => 0)
  {
    hide Bytes;
  }

  lemma HdrRoundTrip(h: Hdr)
    requires |h.magic| == 8 && h.version < WORD && h.seqNo < WORD && h.nodes < WORD && h.recBytes < WORD && h.crc < WORD
    requires h.payload < WORD
    ensures DecodeHdr(EncodeHdr(h)) == h
  {
    hide Bytes, Number, EncodeHdr, Pow256;
    EncodedHdr(h);
    WordBytes(h.version);
    WordBytes(h.seqNo);
    WordBytes(h.nodes);
    WordBytes(h.recBytes);
    WordBytes(h.crc);
    LongBytes(h.payload);
  }

  lemma LongBytes(n: uint32)
    ensures Number(Bytes(n, 8)) == n
  {
    assert Pow256(2) == 0x1_0000 && Pow256(4) == WORD && Pow256(6) == 0x1_0000 * WORD;
    NumberOfBytes(n, 8);
  }

  // ---- writing a slot ----

  /** The first sector of slot 0 or 1. */
  function Base(slot: nat): nat {
    BASE_LBA + slot * SLOT_SECT
  }

  /** How many sectors an image takes. */
  function Sectors(image: seq<byte>): nat {
    (|image| + SECTOR - 1) / SECTOR
  }

  predicate Fits(image: seq<byte>) {
    Sectors(image) + 1 <= SLOT_SECT
  }

  /** Sector j of an image, padded with zeros. */
  function Chunk(image: seq<byte>, j: nat): Sector
    requires j * SECTOR <= |image|
  {
    var rest := image[j * SECTOR..];
    if |rest| >= SECTOR then rest[..SECTOR] else rest + seq(SECTOR - |rest|, _ => 0)
  }

  /** The disk after the first k body sectors of an image are written to a slot. */
  function BodyWritten(d: Disk, slot: nat, image: seq<byte>, k: nat): Disk
    requires k <= Sectors(image)
  {
    if k == 0 then d else Put(BodyWritten(d, slot, image, k - 1), Base(slot) + k, Chunk(image, k - 1))
  }

  function UsedRecords(image: seq<byte>, i: nat): nat
    requires |image| >= REC_REGION && i <= MAX_FILES
  {
    if i == 0 then 0 else UsedRecords(image, i - 1) + if RecAt(image, i - 1).used then 1 else 0
  }

  function HeaderOf(image: seq<byte>, seqNo: uint32): Hdr
    requires |image| >= REC_REGION
  {
    Hdr(MAGIC, VERSION, seqNo, UsedRecords(image, MAX_FILES), REC_REGION, |image| - REC_REGION, Crc32(image))
  }

  /** The disk after the first k writes of `write_slot`: the body's sectors in order, then the header. */
  function SlotWritten(d: Disk, slot: nat, image: seq<byte>, seqNo: uint32, k: nat): Disk
    requires |image| >= REC_REGION
  {
    if k <= Sectors(image) then BodyWritten(d, slot, image, k)
    else Put(BodyWritten(d, slot, image, Sectors(image)), Base(slot), EncodeHdr(HeaderOf(image, seqNo)))
  }

  // ---- reading a slot ----

  function ReadBody(d: Disk, lba: nat, n: nat): (body: seq<byte>)
    ensures |body| == n
    decreases n
  {
    if n == 0 then []
    else if n <= SECTOR then d(lba)[..n]
    else d(lba) + ReadBody(d, lba + 1, n - SECTOR)
  }

  datatype Saved = Saved(seqNo: nat, image: seq<byte>)

  function SlotHdr(d: Disk, slot: nat): Hdr { DecodeHdr(d(Base(slot))) }

  predicate HasMagic(d: Disk, slot: nat) { SlotHdr(d, slot).magic == MAGIC }

  /** The body length a header announces, in 64-bit arithmetic. */
  function AnnouncedLength(h: Hdr): nat {
    (h.recBytes + h.payload) % (WORD * WORD)
  }

  /** `load_slot`. */
  function LoadSlot(d: Disk, slot: nat): Option<Saved> {
    var h := SlotHdr(d, slot);
    var total := AnnouncedLength(h);
    if h.magic != MAGIC || h.version != VERSION || h.recBytes != REC_REGION then None
    else if total == 0 || total > SLOT_SECT * SECTOR - SECTOR then None
    else
      var body := ReadBody(d, Base(slot) + 1, total);
      if Crc32(body) != h.crc then None else Some(Saved(h.seqNo, body))
  }

  function FirstLoad(d: Disk): Option<Saved> {
    if HasMagic(d, 0) then LoadSlot(d, 0) else None
  }

  /** The second slot is tried if it has the magic and, when the first one loaded, a larger number. */
  predicate TriesSecond(d: Disk) {
    HasMagic(d, 1) && (FirstLoad(d).Some? ==> SlotHdr(d, 1).seqNo > FirstLoad(d).value.seqNo)
  }

  /** What `persist_load` restores. A second slot that is tried replaces the first even if it fails. */
  function Load(d: Disk): Option<Saved> {
    if TriesSecond(d) then LoadSlot(d, 1) else FirstLoad(d)
  }

  /** The sequence number `persist_load` leaves behind: that of the last slot it could load. */
  function SeqAfterLoad(d: Disk): nat {
    if TriesSecond(d) && LoadSlot(d, 1).Some? then LoadSlot(d, 1).value.seqNo
    else if FirstLoad(d).Some? then FirstLoad(d).value.seqNo
    else 0
  }

  /** The loop of `persist_load` over the two slots. */
  method LoadSlots(d: Disk) returns (best: Option<Saved>, seqNo: nat)
    ensures best == Load(d) && seqNo == SeqAfterLoad(d)
  {
    hide LoadSlot, SlotHdr;
    best, seqNo := None, 0;
    for s := 0 to 2
      invariant s == 1 ==> best == FirstLoad(d) && seqNo == if best.Some? then best.value.seqNo else 0
      invariant s == 2 ==> best == Load(d) && seqNo == SeqAfterLoad(d)
      invariant s == 0 ==> best == None && seqNo == 0
    {
      if !HasMagic(d, s) { continue; }
      if best.Some? && SlotHdr(d, s).seqNo <= best.value.seqNo { continue; }
      best := LoadSlot(d, s);
      if best.Some? { seqNo := best.value.seqNo; }
    }
  }
}
