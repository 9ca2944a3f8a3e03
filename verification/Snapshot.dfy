/** src/filesystem/persist.c, the image: the file table as bytes (fixed-size records, then the bodies of the
    files end to end) and the table rebuilt from such bytes. */
module Snapshot {
  import opened MachineWords

  const MAX_FILES: nat := 256
  const NAME_SIZE: nat := 64
  const REC_SIZE: nat := 86
  const REC_REGION: nat := 22016

  // ---- little-endian numbers ----

  function Pow256(k: nat): nat {
    if k == 0 then 1 else 256 * Pow256(k - 1)
  }

  /** The k low bytes of a number, least significant first. */
  function Bytes(n: nat, k: nat): (s: seq<byte>)
    ensures |s| == k
  {
    if k == 0 then [] else [n % 256] + Bytes(n / 256, k - 1)
  }

  function Number(s: seq<byte>): nat {
    if s == [] then 0 else s[0] + 256 * Number(s[1..])
  }

  lemma {:induction false} NumberOfBytes(n: nat, k: nat)
    requires n < Pow256(k)
    ensures Number(Bytes(n, k)) == n
  {
    if k > 0 { NumberOfBytes(n / 256, k - 1); }
  }

  lemma WordBytes(n: uint32)
    ensures Number(Bytes(n, 4)) == n
  {
    assert Pow256(2) == 0x1_0000 && Pow256(4) == WORD;
    NumberOfBytes(n, 4);
  }

  // ---- the file table ----

  /** What a node's data pointer leads to: nothing, bytes, or memory that is no part of the image. */
  datatype Body = Absent | Held(data: seq<byte>) | Outside

  /** One slot of the table. A file with a size but no capacity of its own is external: it aliases memory
      the file system does not own. */
  datatype Node =
    | Free
    | Node(name: seq<byte>, parent: int, isDir: bool, flags: byte, size: nat, body: Body, capacity: nat,
           ctime: uint32, mtime: uint32)
  {
    predicate IsFile() { Node? && !isDir }

    /** The snapshot copies this file's body. */
    predicate Stored() { IsFile() && body.Held? && size > 0 && capacity > 0 }

    predicate External() { IsFile() && size > 0 && !Stored() }

    /** What the declarations of `file_t` and the file system's own operations guarantee. */
    predicate WellFormed() {
      Node? ==>
        && |name| < NAME_SIZE && (forall b <- name :: b != 0)
        && -0x8000_0000 <= parent < 0x8000_0000 && size < 0x8000_0000
        && (body.Held? ==> size <= |body.data|)
    }
  }

  type Table = t: seq<Node> | |t| == 256 witness seq(256, i => Free)

  predicate WellFormed(t: seq<Node>) {
    forall i | 0 <= i < |t| :: t[i].WellFormed()
  }

  // ---- records ----

  datatype Rec = Rec(used: bool, name: seq<byte>, parent: int, isDir: bool, flags: byte, size: nat,
                     ctime: uint32, mtime: uint32)

  const UNUSED := Rec(false, [], 0, false, 0, 0, 0, 0)

  function RecOf(n: Node): Rec {
    if n.Free? then UNUSED else Rec(true, n.name, n.parent, n.isDir, n.flags, n.size, n.ctime, n.mtime)
  }

  /** The packed record: used, name[64], parent, type, flags, size, ctime, mtime. */
  function EncodeRec(r: Rec): seq<byte>
    requires |r.name| <= NAME_SIZE
  {
    [if r.used then 1 else 0] + (r.name + seq(NAME_SIZE - |r.name|, _ => 0))
    + Bytes(ToUint32(r.parent), 4) + [if r.isDir then 1 else 0]
    + Bytes(r.flags, 4) + Bytes(r.size, 4) + Bytes(r.ctime, 4) + Bytes(r.mtime, 4)
  }

  /** A C string: the bytes before the first zero. */
  function CString(s: seq<byte>): seq<byte> {
    if s == [] || s[0] == 0 then [] else [s[0]] + CString(s[1..])
  }

  function DecodeRec(s: seq<byte>): Rec
    requires |s| == REC_SIZE
  {
    Rec(s[0] != 0, CString(s[1..64]), ToInt32(Number(s[65..69]) % WORD), s[69] == 1, Number(s[70..74]) % 256,
        Number(s[74..78]), Number(s[78..82]) % WORD, Number(s[82..86]) % WORD)
  }

  lemma {:induction false} CStringPadded(name: seq<byte>, k: nat)
    requires forall b <- name :: b != 0
    ensures CString(name + seq(k, _ => 0)) == name
  {
    var s := name + seq(k, _ => 0);
    if name == [] {
      assert s == seq(k, _ => 0);
    } else {
      assert name[0] in name && forall b <- name[1..] :: b in name;
      assert s[1..] == name[1..] + seq(k, _ => 0);
      CStringPadded(name[1..], k);
    }
  }

  lemma EncodedFields(r: Rec)
    requires |r.name| <= NAME_SIZE
    ensures var s := EncodeRec(r);
            && |s| == REC_SIZE && s[0] == (if r.used then 1 else 0)
            && s[1..65] == r.name + seq(NAME_SIZE - |r.name|, _ => 0)
            && s[65..69] == Bytes(ToUint32(r.parent), 4) && s[69] == (if r.isDir then 1 else 0)
            && s[70..74] == Bytes(r.flags, 4) && s[74..78] == Bytes(r.size, 4)
            && s[78..82] == Bytes(r.ctime, 4) && s[82..86] == Bytes(r.mtime, 4)
  {
    hide Bytes;
  }

  predicate Encodable(r: Rec) {
    && |r.name| < NAME_SIZE && (forall b <- r.name :: b != 0)
    && -0x8000_0000 <= r.parent < 0x8000_0000 && r.size < 0x8000_0000
  }

  /** A record reads back as it was written. */
  lemma RecRoundTrip(r: Rec)
    requires Encodable(r)
    ensures |EncodeRec(r)| == REC_SIZE && DecodeRec(EncodeRec(r)) == r
  {
    hide Bytes, Number, EncodeRec;
    EncodedFields(r);
    CStringPadded(r.name, NAME_SIZE - 1 - |r.name|);
    assert EncodeRec(r)[1..64] == EncodeRec(r)[1..65][..63] == r.name + seq(NAME_SIZE - 1 - |r.name|, _ => 0);
    WordBytes(ToUint32(r.parent));
    WordBytes(r.flags);
    WordBytes(r.size);
    WordBytes(r.ctime);
    WordBytes(r.mtime);
  }

  // ---- the image ----

  /** The records of the table's slots, in order. */
  function Records(t: seq<Node>): seq<byte>
    requires WellFormed(t)
  {
    if t == [] then [] else Records(t[..|t| - 1]) + EncodeRec(RecOf(t[|t| - 1]))
  }

  /** The bodies of the stored files, in slot order. */
  function Payload(t: seq<Node>): seq<byte>
    requires WellFormed(t)
  {
    if t == [] then []
    else
      var last := t[|t| - 1];
      Payload(t[..|t| - 1]) + if last.Stored() then last.body.data[..last.size] else []
  }

  /** `build_snapshot`. */
  function Image(t: Table): seq<byte>
    requires WellFormed(t)
  {
    Records(t) + Payload(t)
  }

  function RecAt(image: seq<byte>, i: nat): Rec
    requires |image| >= REC_REGION && i < MAX_FILES
  {
    DecodeRec(image[i * REC_SIZE..(i + 1) * REC_SIZE])
  }

  /** Where the loader looks for the body of slot i: after the records, past the sizes of all file records
      before it. */
  function ReadOffset(image: seq<byte>, i: nat): nat
    requires |image| >= REC_REGION && i <= MAX_FILES
  {
    if i == 0 then REC_REGION
    else
      var r := RecAt(image, i - 1);
      ReadOffset(image, i - 1) + if r.used && !r.isDir then r.size else 0
  }

  /** The node the loader rebuilds in slot i. */
  function RestoredNode(image: seq<byte>, i: nat): Node
    requires |image| >= REC_REGION && i < MAX_FILES
  {
    var r := RecAt(image, i);
    if !r.used then Free
    else if !r.isDir && r.size > 0 then
      var off := ReadOffset(image, i);
      Node(r.name, r.parent, r.isDir, r.flags, r.size,
           if off + r.size <= |image| then Held(image[off..off + r.size]) else Outside, r.size, r.ctime, r.mtime)
    else Node(r.name, r.parent, r.isDir, r.flags, r.size, Absent, 0, r.ctime, r.mtime)
  }

  /** The table rebuilt by `persist_load`. */
  function Restored(image: seq<byte>): Table
    requires |image| >= REC_REGION
  {
    seq(256, i requires 0 <= i < 256 => RestoredNode(image, i))
  }

  /** What a snapshot is meant to keep of a node: everything, with external files as metadata only. */
  function Kept(n: Node): Node
    requires n.WellFormed()
  {
    if n.Stored() then n.(body := Held(n.body.data[..n.size]), capacity := n.size)
    else if n.Free? then Free
    else n.(body := Absent, capacity := 0)
  }

  lemma {:induction false} RecordsLength(t: seq<Node>)
    requires WellFormed(t)
    ensures |Records(t)| == REC_SIZE * |t|
  {
    hide EncodeRec, Node.WellFormed;
    if t != [] {
      assert t[|t| - 1].WellFormed();
      RecordsLength(t[..|t| - 1]);
      RecordLength(t[|t| - 1]);
    }
  }

  lemma RecordLength(n: Node)
    requires n.WellFormed()
    ensures |EncodeRec(RecOf(n))| == REC_SIZE && DecodeRec(EncodeRec(RecOf(n))) == RecOf(n)
  {
    hide EncodeRec, DecodeRec;
    RecRoundTrip(RecOf(n));
  }

  /** Slot i's record stands at its place among the records, and reads back. */
  lemma {:induction false} RecordAt(t: seq<Node>, i: nat)
    requires WellFormed(t) && i < |t|
    ensures |Records(t)| == REC_SIZE * |t|
    ensures Records(t)[i * REC_SIZE..(i + 1) * REC_SIZE] == EncodeRec(RecOf(t[i]))
  {
    hide EncodeRec, Node.WellFormed;
    RecordsLength(t);
    var n := |t| - 1;
    RecordsLength(t[..n]);
    assert t[n].WellFormed() && t[i].WellFormed();
    RecordLength(t[n]);
    if i < n {
      RecordAt(t[..n], i);
      assert (i + 1) * REC_SIZE <= n * REC_SIZE;
      assert Records(t)[i * REC_SIZE..(i + 1) * REC_SIZE] == Records(t[..n])[i * REC_SIZE..(i + 1) * REC_SIZE];
    }
  }

  lemma RecAtImage(t: Table, i: nat)
    requires WellFormed(t) && i < MAX_FILES
    ensures |Image(t)| == REC_REGION + |Payload(t)|
    ensures RecAt(Image(t), i) == RecOf(t[i])
  {
    hide EncodeRec, DecodeRec, Node.WellFormed, Records, Payload;
    RecordAt(t, i);
    assert t[i].WellFormed();
    RecordLength(t[i]);
    assert (i + 1) * REC_SIZE <= REC_REGION;
    assert Image(t)[i * REC_SIZE..(i + 1) * REC_SIZE] == Records(t)[i * REC_SIZE..(i + 1) * REC_SIZE];
  }

  /** The sizes of the external files among these slots. */
  function ExternalBytes(t: seq<Node>): nat {
    if t == [] then 0 else ExternalBytes(t[..|t| - 1]) + if t[|t| - 1].External() then t[|t| - 1].size else 0
  }

  /** The loader looks for slot i's body exactly as many bytes too far as the external files before it
      measure. */
  lemma {:induction false} OffsetShift(t: Table, i: nat)
    requires WellFormed(t) && i <= MAX_FILES
    ensures |Image(t)| >= REC_REGION
    ensures ReadOffset(Image(t), i) == REC_REGION + |Payload(t[..i])| + ExternalBytes(t[..i])
  {
    hide RecAt, Image;
    RecAtImage(t, 0);
    if i > 0 {
      OffsetShift(t, i - 1);
      RecAtImage(t, i - 1);
      assert t[i - 1].WellFormed();
      assert t[..i][..i - 1] == t[..i - 1];
    }
  }

  lemma {:induction false} PayloadAt(t: seq<Node>, i: nat)
    requires WellFormed(t) && i < |t| && t[i].Stored()
    ensures var off := |Payload(t[..i])|;
            && t[i].WellFormed() && off + t[i].size <= |Payload(t)|
            && Payload(t)[off..off + t[i].size] == t[i].body.data[..t[i].size]
  {
    var n := |t| - 1;
    assert t[i].WellFormed() && t[n].WellFormed();
    if i < n {
      PayloadAt(t[..n], i);
      assert t[..n][..i] == t[..i];
      PrefixSlice(Payload(t[..n]), Payload(t), |Payload(t[..i])|, t[i].size);
    }
  }

  lemma PrefixSlice(a: seq<byte>, b: seq<byte>, off: nat, n: nat)
    requires a <= b && off + n <= |a|
    ensures b[off..off + n] == a[off..off + n]
  {}

  lemma {:induction false} NoExternalBytes(t: seq<Node>, i: nat)
    requires i <= |t| && forall j | 0 <= j < |t| :: !t[j].External()
    ensures ExternalBytes(t[..i]) == 0
  {
    if i > 0 {
      assert t[..i][..i - 1] == t[..i - 1];
      NoExternalBytes(t, i - 1);
    }
  }

  // ---- what a snapshot holds and gives back, in terms of the table's fields ----

  /** The sizes of the files with bytes and capacity of their own. */
  function HeldSizes(t: seq<Node>): nat {
    if t == [] then 0
    else
      var n := t[|t| - 1];
      HeldSizes(t[..|t| - 1])
      + if n.Node? && !n.isDir && n.body.Held? && n.size > 0 && n.capacity > 0 then n.size else 0
  }

  /** The sizes of all files, as their records give them. */
  function FileSizes(t: seq<Node>): nat {
    if t == [] then 0
    else
      var n := t[|t| - 1];
      FileSizes(t[..|t| - 1]) + if n.Node? && !n.isDir then n.size else 0
  }

  lemma {:induction false} PayloadSize(t: seq<Node>)
    requires WellFormed(t)
    ensures |Payload(t)| == HeldSizes(t) && FileSizes(t) == HeldSizes(t) + ExternalBytes(t)
  {
    if t != [] {
      assert t[|t| - 1].WellFormed();
      PayloadSize(t[..|t| - 1]);
    }
  }

  /** The image is the records and the bytes of every file that has bytes and capacity of its own, however
      large the capacity: each at the place the files before it leave. */
  lemma BodyPlaces(t: Table)
    requires WellFormed(t)
    ensures |Image(t)| == REC_REGION + HeldSizes(t)
    ensures forall i | && 0 <= i < MAX_FILES && t[i].Node? && !t[i].isDir
                       && t[i].body.Held? && t[i].size > 0 && t[i].capacity > 0 ::
              var at := REC_REGION + HeldSizes(t[..i]);
              && at + t[i].size <= |Image(t)| && t[i].size <= |t[i].body.data|
              && Image(t)[at..at + t[i].size] == t[i].body.data[..t[i].size]
  {
    hide Payload, Records, HeldSizes;
    RecAtImage(t, 0);
    RecordsLength(t);
    PayloadSize(t);
    forall i | && 0 <= i < MAX_FILES && t[i].Node? && !t[i].isDir
               && t[i].body.Held? && t[i].size > 0 && t[i].capacity > 0
      ensures var at := REC_REGION + HeldSizes(t[..i]);
              && at + t[i].size <= |Image(t)| && t[i].size <= |t[i].body.data|
              && Image(t)[at..at + t[i].size] == t[i].body.data[..t[i].size]
    {
      PayloadSize(t[..i]);
      PayloadAt(t, i);
      TailSlice(Records(t), Payload(t), HeldSizes(t[..i]), t[i].size);
    }
  }

  /** The record of slot i in the image, byte by byte: all zeros for a free slot; otherwise the used mark, the
      name padded with zeros, and the numbers, least significant byte first. */
  lemma ImageRecord(t: Table, i: nat)
    requires WellFormed(t) && i < MAX_FILES
    ensures |Image(t)| >= REC_REGION && (i + 1) * 86 <= REC_REGION
    ensures var n, s := t[i], Image(t)[i * 86..(i + 1) * 86];
            if n.Free? then s == seq(86, _ => 0)
            else
              && s[0] == 1 && |n.name| < 64 && s[1..65] == n.name + seq(64 - |n.name|, _ => 0)
              && Number(s[65..69]) == n.parent % 0x1_0000_0000 && s[69] == (if n.isDir then 1 else 0)
              && Number(s[70..74]) == n.flags && Number(s[74..78]) == n.size
              && Number(s[78..82]) == n.ctime && Number(s[82..86]) == n.mtime
  {
    hide EncodeRec, Bytes, Number, Records, Payload;
    assert t[i].WellFormed();
    RecordAt(t, i);
    RecAtImage(t, i);
    var r, s := RecOf(t[i]), Image(t)[i * 86..(i + 1) * 86];
    assert s == Records(t)[i * REC_SIZE..(i + 1) * REC_SIZE] == EncodeRec(r);
    EncodedFields(r);
    if t[i].Free? {
      ZeroRecord();
    } else {
      WordBytes(ToUint32(r.parent));
      WordBytes(r.flags);
      WordBytes(r.size);
      WordBytes(r.ctime);
      WordBytes(r.mtime);
    }
  }

  lemma ZeroRecord()
    ensures EncodeRec(UNUSED) == seq(86, _ => 0)
  {
    hide Bytes;
    ZeroBytes(4);
  }

  lemma {:induction false} ZeroBytes(k: nat)
    ensures Bytes(0, k) == seq(k, _ => 0)
  {
    if k > 0 {
      ZeroBytes(k - 1);
      assert [0] + seq(k - 1, _ => 0) == seq(k, _ => 0);
    }
  }

  /** Every node's fields come back; the bytes of a file are looked for behind those of all files before it,
      whether the snapshot has them or not. */
  lemma RestoredFields(t: Table, i: nat)
    requires WellFormed(t) && i < MAX_FILES
    ensures |Image(t)| >= REC_REGION
    ensures var n, r := t[i], Restored(Image(t))[i];
            if n.Free? then r.Free?
            else
              && r.Node? && r.name == n.name && r.parent == n.parent && r.isDir == n.isDir && r.flags == n.flags
              && r.size == n.size && r.ctime == n.ctime && r.mtime == n.mtime
              && var at := REC_REGION + FileSizes(t[..i]);
                 if n.isDir || n.size == 0 then r.body == Absent && r.capacity == 0
                 else
                   && r.capacity == n.size
                   && r.body == if at + n.size <= |Image(t)| then Held(Image(t)[at..at + n.size]) else Outside
  {
    hide RecAt, Image, ReadOffset;
    assert t[i].WellFormed();
    RecAtImage(t, i);
    OffsetShift(t, i);
    PayloadSize(t[..i]);
  }

  /** A file with bytes and capacity of its own comes back with exactly those bytes if and only if they stand
      where the loader looks. */
  lemma HeldFileBack(t: Table, i: nat)
    requires WellFormed(t) && i < MAX_FILES
    requires t[i].Node? && !t[i].isDir && t[i].body.Held? && t[i].size > 0 && t[i].capacity > 0
    ensures |Image(t)| >= REC_REGION && t[i].size <= |t[i].body.data|
    ensures var at, data := REC_REGION + FileSizes(t[..i]), t[i].body.data[..t[i].size];
            Restored(Image(t))[i].Node? &&
            (Restored(Image(t))[i].body == Held(data)
             <==> at + t[i].size <= |Image(t)| && Image(t)[at..at + t[i].size] == data)
  {
    hide Image, Restored, FileSizes;
    assert t[i].WellFormed();
    RestoredFields(t, i);
  }

  /** A stored file comes back as it was exactly when the bytes where the loader looks are its own: the
      place is as many bytes too far as the external files before it measure. */
  lemma RestoredStoredExactly(t: Table, i: nat)
    requires WellFormed(t) && i < MAX_FILES && t[i].Stored()
    ensures |Image(t)| >= REC_REGION && t[i].WellFormed()
    ensures var at := |Payload(t[..i])| + ExternalBytes(t[..i]);
            RestoredNode(Image(t), i) == Kept(t[i])
            <==> at + t[i].size <= |Payload(t)| && Payload(t)[at..at + t[i].size] == t[i].body.data[..t[i].size]
  {
    hide RecAt, Payload, Records, ReadOffset, ExternalBytes;
    assert t[i].WellFormed();
    RecAtImage(t, i);
    OffsetShift(t, i);
    RecordsLength(t);
    var at := |Payload(t[..i])| + ExternalBytes(t[..i]);
    if at + t[i].size <= |Payload(t)| {
      TailSlice(Records(t), Payload(t), at, t[i].size);
    }
  }

  lemma TailSlice(a: seq<byte>, b: seq<byte>, at: nat, n: nat)
    requires at + n <= |b|
    ensures (a + b)[|a| + at..|a| + at + n] == b[at..at + n]
  {}

  /** A stored file is restored with the body the snapshot took, if no external file with a size comes
      before it. */
  lemma RestoredStored(t: Table, i: nat)
    requires WellFormed(t) && i < MAX_FILES && t[i].Stored()
    requires ExternalBytes(t[..i]) == 0
    ensures |Image(t)| >= REC_REGION && t[i].WellFormed() && RestoredNode(Image(t), i) == Kept(t[i])
  {
    hide Payload, Image, RestoredNode, Kept;
    RestoredStoredExactly(t, i);
    PayloadAt(t, i);
  }

  /** Any other node is restored as it should be kept exactly when it is not external: an external file is
      given a body it should be left without. */
  lemma RestoredOther(t: Table, i: nat)
    requires WellFormed(t) && i < MAX_FILES && !t[i].Stored()
    ensures |Image(t)| >= REC_REGION && t[i].WellFormed()
    ensures RestoredNode(Image(t), i) == Kept(t[i]) <==> !t[i].External()
  {
    hide RecAt, Image, ReadOffset;
    assert t[i].WellFormed();
    RecAtImage(t, i);
  }

  /** Saving and loading the file table is faithful if and only if it holds no external file with a size: one
      without bytes or capacity of its own. (The kernel's own boot modules in /user are such files.) */
  lemma SnapshotRoundTrip(t: Table)
    requires WellFormed(t)
    ensures |Image(t)| >= REC_REGION
    ensures (forall i | 0 <= i < MAX_FILES :: t[i].WellFormed() && Restored(Image(t))[i] == Kept(t[i]))
            <==> (forall i | 0 <= i < MAX_FILES && t[i].Node? && !t[i].isDir && t[i].size > 0 ::
                    t[i].capacity > 0 && t[i].body.Held?)
  {
    hide Image, RestoredNode, Kept, Node.WellFormed, Node.External, Node.Stored, ExternalBytes;
    RecAtImage(t, 0);
    forall i | 0 <= i < MAX_FILES
      ensures t[i].External() <==>
                t[i].Node? && !t[i].isDir && t[i].size > 0 && (t[i].capacity == 0 || !t[i].body.Held?)
    {
      ExternalMeans(t[i]);
    }
    forall i | 0 <= i < MAX_FILES ensures t[i].WellFormed() {}
    if forall i | 0 <= i < MAX_FILES :: !t[i].External() {
      forall i | 0 <= i < MAX_FILES ensures Restored(Image(t))[i] == Kept(t[i]) {
        NoExternalBytes(t, i);
        if t[i].Stored() { RestoredStored(t, i); } else { RestoredOther(t, i); }
      }
    }
    if i :| 0 <= i < MAX_FILES && t[i].External() {
      ExternalNotStored(t[i]);
      RestoredOther(t, i);
    }
  }

  lemma ExternalMeans(n: Node)
    ensures n.External() <==> n.Node? && !n.isDir && n.size > 0 && (n.capacity == 0 || !n.body.Held?)
  {}

  lemma ExternalNotStored(n: Node)
    requires n.External()
    ensures !n.Stored()
  {}

  /** A table with the root directory, /user in it, and one boot module in that. */
  function BootTable(): Table {
    seq(256, i =>
      if i == 0 then Node([47], 0, true, 0, 0, Absent, 0, 0, 0)
      else if i == 1 then Node([117, 115, 101, 114], 0, true, 0, 0, Absent, 0, 0, 0)
      else if i == 2 then Node([109], 1, false, 13, 3, Held([1, 2, 3]), 0, 0, 0)
      else Free)
  }

  /** The loader hands the boot module's node bytes of its own, or runs past the image, where the snapshot
      kept none. */
  lemma BootModuleExample()
    ensures WellFormed(BootTable()) && |Image(BootTable())| >= REC_REGION && BootTable()[2].WellFormed()
    ensures Restored(Image(BootTable()))[2] != Kept(BootTable()[2])
  {
    hide Image, RestoredNode;
    RestoredOther(BootTable(), 2);
  }

  /** The same table with two more files after the module. */
  function ShiftedTable(): Table {
    BootTable()[3 := Node([97], 1, false, 0, 3, Held([4, 5, 6]), 3, 0, 0)]
               [4 := Node([98], 1, false, 0, 3, Held([7, 8, 9]), 3, 0, 0)]
  }

  /** The first comes back with the bytes of the second, and the second with bytes past the image. */
  lemma ShiftedFilesExample()
    ensures WellFormed(ShiftedTable()) && |Image(ShiftedTable())| >= REC_REGION
    ensures Restored(Image(ShiftedTable()))[3].Node? && Restored(Image(ShiftedTable()))[4].Node?
    ensures Restored(Image(ShiftedTable()))[3].body == Held([7, 8, 9])
    ensures Restored(Image(ShiftedTable()))[4].body == Outside
  {
    hide RecAt, ReadOffset, Records, Payload, ExternalBytes;
    var t := ShiftedTable();
    ShiftedPayload();
    RecAtImage(t, 3);
    RecAtImage(t, 4);
    OffsetShift(t, 3);
    OffsetShift(t, 4);
    RecordsLength(t);
    TailSlice(Records(t), [4, 5, 6, 7, 8, 9], 3, 3);
  }

  lemma ShiftedPayload()
    ensures WellFormed(ShiftedTable()) && Payload(ShiftedTable()) == [4, 5, 6, 7, 8, 9]
    ensures Payload(ShiftedTable()[..3]) == [] && Payload(ShiftedTable()[..4]) == [4, 5, 6]
    ensures ExternalBytes(ShiftedTable()[..3]) == 3 && ExternalBytes(ShiftedTable()[..4]) == 3
  {
    hide Payload, ExternalBytes, ShiftedTable;
    var t := ShiftedTable();
    ShiftedNodes();
    NoBodies(t, 5, 256);
    assert t[..256] == t;
    ShiftedStart(t);
  }

  lemma ShiftedNodes()
    ensures WellFormed(ShiftedTable()) && forall k | 5 <= k < 256 :: ShiftedTable()[k] == Free
  {}

  lemma ShiftedStart(t: seq<Node>)
    requires WellFormed(t) && t == ShiftedTable()
    ensures Payload(t[..3]) == [] && Payload(t[..4]) == [4, 5, 6] && Payload(t[..5]) == [4, 5, 6, 7, 8, 9]
    ensures ExternalBytes(t[..3]) == 3 && ExternalBytes(t[..4]) == 3
  {
    assert t[..0] == [] && t[..1][..0] == t[..0] && t[..2][..1] == t[..1] && t[..3][..2] == t[..2];
    assert t[..4][..3] == t[..3] && t[..5][..4] == t[..4];
    NoBodies(t, 0, 2);
  }

  /** Slots that are neither stored nor external add nothing. */
  lemma {:induction false} NoBodies(t: seq<Node>, i: nat, j: nat)
    requires WellFormed(t) && i <= j <= |t|
    requires forall k | i <= k < j :: !t[k].Stored() && !t[k].External()
    ensures Payload(t[..j]) == Payload(t[..i]) && ExternalBytes(t[..j]) == ExternalBytes(t[..i])
  {
    if i < j {
      NoBodies(t, i, j - 1);
      assert t[..j][..j - 1] == t[..j - 1];
    }
  }

  /** `build_snapshot`: the records and the bodies are laid down in one pass over the table. */
  method BuildSnapshot(t: Table) returns (image: seq<byte>)
    requires WellFormed(t)
    ensures image == Image(t)
  {
    hide EncodeRec;
    var records: seq<byte>, payload: seq<byte> := [], [];
    for i := 0 to MAX_FILES
      invariant records == Records(t[..i])
      invariant payload == Payload(t[..i])
    {
      assert t[i].WellFormed();
      assert t[..i + 1][..i] == t[..i];
      records := records + EncodeRec(RecOf(t[i]));
      if t[i].IsFile() && t[i].body.Held? && t[i].size > 0 && t[i].capacity > 0 {
        payload := payload + t[i].body.data[..t[i].size];
      }
    }
    assert t[..MAX_FILES] == t;
    image := records + payload;
  }

  /** The rebuilding loop of `persist_load`: for each slot the sizes before it are added up afresh. */
  method RestoreTable(image: seq<byte>) returns (t: Table)
    requires |image| >= REC_REGION
    ensures t == Restored(image)
  {
    hide RecAt;
    var nodes: seq<Node> := [];
    for i := 0 to MAX_FILES
      invariant |nodes| == i
      invariant forall j | 0 <= j < i :: nodes[j] == RestoredNode(image, j)
    {
      var r := RecAt(image, i);
      var node := Free;
      if r.used {
        node := Node(r.name, r.parent, r.isDir, r.flags, r.size, Absent, 0, r.ctime, r.mtime);
        if !r.isDir && r.size > 0 {
          var off := REC_REGION;
          for j := 0 to i
            invariant off == ReadOffset(image, j)
          {
            var before := RecAt(image, j);
            if before.used && !before.isDir {
              off := off + before.size;
            }
          }
          var body := if off + r.size <= |image| then Held(image[off..off + r.size]) else Outside;
          node := node.(body := body, capacity := r.size);
        }
      }
      nodes := nodes + [node];
    }
    t := nodes;
  }
}
