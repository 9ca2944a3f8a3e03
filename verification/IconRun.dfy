/** tools/pack_icons.py end to end: from the map of applications to the header, and from the header back to
    each application's bytes. */
module IconRun {
  import opened MachineWords
  import opened CSyntax
  import opened Wrappers
  import opened IconPack
  import opened IconHeader
  import opened HeaderReader

  /** `main`: pack, then print. */
  method Generate(m: Machine, apps: seq<App>) returns (text: string, missing: seq<string>)
    ensures text == Generated(m, apps) && missing == Missing(m, apps)
  {
    hide HeaderText, Index, Blob, Missing, Found;
    var blob, entries;
    blob, entries, missing := Pack(m, apps);
    text := Print(blob, entries);
  }

  function Generated(m: Machine, apps: seq<App>): string {
    HeaderText(Blob(Found(m, apps)), Index(Found(m, apps)))
  }

  predicate PlainNames(apps: seq<App>) {
    forall app <- apps :: PlainText(app.name)
  }

  lemma {:induction false} FoundDistinct(m: Machine, apps: seq<App>, j: nat, k: nat)
    requires DistinctNames(apps) && j < k < |Found(m, apps)|
    ensures Found(m, apps)[j].0 != Found(m, apps)[k].0
  {
    hide IconBytes;
    var n := |apps| - 1;
    var init := apps[..n];
    if k < |Found(m, init)| {
      FoundDistinct(m, init, j, k);
    } else {
      FoundNames(m, init, j);
      assert Found(m, apps)[j] == Found(m, init)[j] && Found(m, apps)[k].0 == apps[n].name;
    }
  }

  /** Looking up entry k of an index with distinct names gives icon k. */
  lemma {:induction false} LookUpAt(blob: seq<byte>, icons: seq<Icon>, k: nat)
    requires k < |icons| && icons[k].off + icons[k].len <= |blob|
    requires forall j | 0 <= j < k :: icons[j].name != icons[k].name
    ensures LookUp(blob, icons, icons[k].name) == Some(Slice(blob, icons[k]))
  {
    hide Slice;
    if k > 0 {
      assert icons[1..][k - 1] == icons[k];
      assert forall j | 0 <= j < k - 1 :: icons[1..][j] == icons[j + 1];
      LookUpAt(blob, icons[1..], k - 1);
    }
  }

  lemma {:induction false} LookUpMissing(blob: seq<byte>, icons: seq<Icon>, name: string)
    requires forall icon <- icons :: icon.name != name
    ensures LookUp(blob, icons, name) == None
  {
    if icons != [] {
      assert icons[0] in icons && forall icon <- icons[1..] :: icon in icons;
      LookUpMissing(blob, icons[1..], name);
    }
  }

  /** What the packing loop took for an application is what the index and blob give back for its name, and
      nothing is given back for the others. */
  lemma PackedLookUp(m: Machine, apps: seq<App>, i: nat)
    requires DistinctNames(apps) && i < |apps|
    ensures LookUp(Blob(Found(m, apps)), Index(Found(m, apps)), apps[i].name) == IconBytes(m, apps[i].candidates)
  {
    hide IconBytes, Found, Index, Blob, Slice;
    var found := Found(m, apps);
    var icons := Index(found);
    IndexTiles(found);
    MapPartition(m, apps, i);
    if IconBytes(m, apps[i].candidates).Some? {
      var k := |Found(m, apps[..i])|;
      forall j | 0 <= j < k ensures icons[j].name != icons[k].name {
        FoundDistinct(m, apps, j, k);
      }
      LookUpAt(Blob(found), icons, k);
    } else {
      forall icon <- icons ensures icon.name != apps[i].name {
        var k :| 0 <= k < |icons| && icons[k] == icon;
        FoundNames(m, apps, k);
      }
      LookUpMissing(Blob(found), icons, apps[i].name);
    }
  }

  /** An index over a blob of fewer than 2^32 bytes is readable. */
  lemma IndexReadable(m: Machine, apps: seq<App>)
    requires PlainNames(apps) && |Blob(Found(m, apps))| < WORD
    ensures Readable(Index(Found(m, apps)))
  {
    hide IconBytes, Found, Index, Blob, Slice, PlainText;
    var found := Found(m, apps);
    IndexTiles(found);
    forall icon <- Index(found) ensures PlainText(icon.name) && icon.off < WORD && icon.len < WORD {
      var k :| 0 <= k < |Index(found)| && Index(found)[k] == icon;
      FoundNames(m, apps, k);
    }
  }

  /** End to end: compile the generated header and look an application up, and what comes back is exactly
      the bytes the packing loop took for it, or nothing if it took none. */
  lemma EveryIconRecovered(m: Machine, apps: seq<App>, i: nat)
    requires DistinctNames(apps) && PlainNames(apps) && i < |apps|
    requires 0 < |Blob(Found(m, apps))| < WORD
    ensures var h := ReadHeader(Generated(m, apps));
            h.Some? && LookUp(h.value.blob, h.value.icons, apps[i].name) == IconBytes(m, apps[i].candidates)
  {
    hide IconBytes, Found, Index, Blob, ReadHeader, HeaderText, PlainNames, Readable, LookUp;
    var found := Found(m, apps);
    IndexReadable(m, apps);
    IndexTiles(found);
    NonemptyFound(m, apps);
    HeaderRoundTrip(Blob(found), Index(found));
    PackedLookUp(m, apps, i);
  }

  lemma NonemptyFound(m: Machine, apps: seq<App>)
    ensures Blob(Found(m, apps)) != [] ==> Found(m, apps) != []
  {
    hide Found;
  }

  /** A key is in exactly one of the two lists the script makes, by whether the loop got bytes for it. */
  lemma EntriesOrMissing(m: Machine, apps: seq<App>, i: nat)
    requires DistinctNames(apps) && i < |apps|
    ensures (exists icon <- Index(Found(m, apps)) :: icon.name == apps[i].name)
            <==> IconBytes(m, apps[i].candidates).Some?
    ensures apps[i].name in Missing(m, apps) <==> IconBytes(m, apps[i].candidates).None?
  {
    hide IconBytes, Found, Missing, Index, Blob, Slice;
    var found := Found(m, apps);
    var icons := Index(found);
    IndexTiles(found);
    MapPartition(m, apps, i);
    if IconBytes(m, apps[i].candidates).Some? {
      assert icons[|Found(m, apps[..i])|].name == apps[i].name;
    }
    if icon :| icon in icons && icon.name == apps[i].name {
      var k :| 0 <= k < |icons| && icons[k] == icon;
      FoundNames(m, apps, k);
    }
    if apps[i].name in Missing(m, apps) {
      MissingNames(m, apps, apps[i].name);
    }
  }

  lemma {:induction false} MissingNames(m: Machine, apps: seq<App>, name: string)
    requires name in Missing(m, apps)
    ensures exists i | 0 <= i < |apps| :: apps[i].name == name && IconBytes(m, apps[i].candidates).None?
  {
    hide IconBytes;
    var n := |apps| - 1;
    if name in Missing(m, apps[..n]) {
      MissingNames(m, apps[..n], name);
      var i :| 0 <= i < n && apps[..n][i].name == name && IconBytes(m, apps[..n][i].candidates).None?;
      assert apps[i] == apps[..n][i];
    } else {
      assert apps[n].name == name;
    }
  }
}
