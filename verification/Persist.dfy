/** src/filesystem/persist.c as it runs: the layer's variables, and its save routine writing sector by sector
    to a device that may stop after any number of writes. */
module Persist {
  import opened MachineWords
  import opened Wrappers
  import opened Snapshot
  import opened SlotStore
  import opened CrashSafety

  class Store {
    var disk: Disk
    var seqNo: uint32
    var dirty: bool

    /** `write_slot`, on a device that completes at most `limit` writes. */
    method WriteSlot(slot: nat, image: seq<byte>, limit: nat) returns (ok: bool)
      requires |image| >= REC_REGION && Fits(image)
      modifies this`disk
      ensures disk == SlotWritten(old(disk), slot, image, seqNo, limit)
      ensures ok <==> limit > Sectors(image)
    {
      hide HeaderOf, EncodeHdr, Put, Chunk;
      var left, off, lba := |image|, 0, Base(slot) + 1;
      ghost var k := 0;
      while left > 0
        invariant left >= 0 && off + left == |image| && k <= Sectors(image) && k <= limit && lba == Base(slot) + 1 + k
        invariant left > 0 ==> off == k * SECTOR
        invariant left == 0 ==> k == Sectors(image)
        invariant disk == BodyWritten(old(disk), slot, image, k)
      {
        var chunk := if left > SECTOR then SECTOR else left;
        SectorCount(image, k, left);
        if lba - (Base(slot) + 1) == limit {
          return false;
        }
        ChunkBytes(image, off, chunk, k);
        disk := Put(disk, lba, image[off..off + chunk] + seq(SECTOR - chunk, _ => 0));
        k := k + 1;
        off, left, lba := off + chunk, left - chunk, lba + 1;
      }
      if lba - (Base(slot) + 1) == limit {
        return false;
      }
      HeaderReadsBack(image, seqNo);
      disk := Put(disk, Base(slot), EncodeHdr(HeaderOf(image, seqNo)));
      ok := true;
    }

    lemma SectorCount(image: seq<byte>, k: nat, left: nat)
      requires left > 0 && k * SECTOR + left == |image|
      ensures k < Sectors(image)
      ensures left <= SECTOR ==> k + 1 == Sectors(image)
      ensures left > SECTOR ==> k + 1 < Sectors(image)
    {}

    lemma ChunkBytes(image: seq<byte>, off: nat, chunk: nat, k: nat)
      requires off == k * SECTOR && 0 < chunk <= SECTOR && off + chunk <= |image|
      requires chunk < SECTOR ==> off + chunk == |image|
      ensures image[off..off + chunk] + seq(SECTOR - chunk, _ => 0) == Chunk(image, k)
    {}

    /** `persist_sync`, of the image the file table gives. */
    method Sync(image: seq<byte>, limit: nat)
      requires |image| >= REC_REGION
      modifies this
      ensures var v := SyncStep(World(old(disk), old(seqNo), old(dirty), image, None), limit);
              disk == v.disk && seqNo == v.seqNo && dirty == v.dirty
      ensures dirty <==> old(dirty) && (|image| > 65535 * 512 || limit <= (|image| + 511) / 512)
    {
      hide SlotWritten;
      if !dirty || !Fits(image) {
        return;
      }
      seqNo := ToUint32(seqNo + 1);
      var ok := WriteSlot(seqNo % 2, image, limit);
      if ok {
        dirty := false;
      }
    }

    /** `persist_load`, up to the table it rebuilds from the image found. */
    method Restart() returns (best: Option<Saved>)
      modifies this
      ensures best == Load(old(disk))
      ensures forall image, saved ::
                var v := RestartStep(World(old(disk), old(seqNo), old(dirty), image, saved));
                disk == v.disk && seqNo == v.seqNo && dirty == v.dirty
    {
      var n;
      best, n := LoadSlots(disk);
      seqNo := ToUint32(n);
      dirty := false;
    }
  }
}
