/** tools/pack_icons.py, the packing half: choose an icon file for each application, and lay the icons end
    to end in one blob under an index of offsets. */
module IconPack {
  import opened MachineWords
  import opened Wrappers

  const THEME := "/tmp/opencode/nz/Nordzy-dark"

  /** What the script asks of the machine: which paths are files, what a file holds, and the exit code and
      output of rsvg-convert on a file. */
  datatype Machine = Machine(isFile: string -> bool, contents: string -> seq<byte>, rsvg: string -> (int, seq<byte>))

  /** One line of the map: an application name and its candidate icon paths. */
  datatype App = App(name: string, candidates: seq<string>)

  /** One index entry. */
  datatype Icon = Icon(name: string, off: nat, len: nat)

  predicate EndsWith(s: string, suffix: string) {
    |suffix| <= |s| && s[|s| - |suffix|..] == suffix
  }

  // ---- choosing the file ----

  /** The path a candidate stands for. */
  function Resolve(c: string): string {
    if "/" <= c && EndsWith(c, ".png") then c
    else if "/" <= c then c + ".svg"
    else THEME + "/" + (c + ".svg")
  }

  /** `find_svg`: the first candidate whose path is a file. */
  function FindSvg(m: Machine, candidates: seq<string>): Option<string> {
    if candidates == [] then None
    else if m.isFile(Resolve(candidates[0])) then Some(Resolve(candidates[0]))
    else FindSvg(m, candidates[1..])
  }

  /** `render`: a conversion that fails, or is shorter than a PNG signature, gives nothing. */
  function Render(m: Machine, svg: string): Option<seq<byte>> {
    var (code, out) := m.rsvg(svg);
    if code != 0 || |out| < 8 then None else Some(out)
  }

  /** The bytes the packing loop takes for an application, if any. */
  function IconBytes(m: Machine, candidates: seq<string>): Option<seq<byte>> {
    var src :- FindSvg(m, candidates);
    if src == "" then None
    else if EndsWith(src, ".png") then Some(m.contents(src))
    else Render(m, src)
  }

  /** A relative candidate is an .svg of the theme, to be rendered; what a failed conversion leaves, or one
      shorter than a PNG signature, is not used. */
  lemma RelativeCandidate(m: Machine, c: string, rest: seq<string>)
    requires c == "" || c[0] != '/'
    ensures var path := "/tmp/opencode/nz/" + "Nordzy-dark/" + c + ".svg";
            if m.isFile(path) then
              && FindSvg(m, [c] + rest) == Some(path)
              && IconBytes(m, [c] + rest) ==
                 if m.rsvg(path).0 == 0 && |m.rsvg(path).1| >= 8 then Some(m.rsvg(path).1) else None
            else
              FindSvg(m, [c] + rest) == FindSvg(m, rest) && IconBytes(m, [c] + rest) == IconBytes(m, rest)
  {
    hide Render, EndsWith, THEME;
    ResolvedRelative(c);
    ResolveDispatch(c);
    FirstCandidate(m, c, rest);
    RenderedOutput(m, Resolve(c));
  }

  /** An absolute candidate that does not end in .png is an .svg at that place. */
  lemma AbsoluteCandidate(m: Machine, c: string, rest: seq<string>)
    requires c != "" && c[0] == '/' && (|c| < 4 || c[|c| - 4..] != ".png")
    ensures var path := c + ".svg";
            if m.isFile(path) then
              && FindSvg(m, [c] + rest) == Some(path)
              && IconBytes(m, [c] + rest) ==
                 if m.rsvg(path).0 == 0 && |m.rsvg(path).1| >= 8 then Some(m.rsvg(path).1) else None
            else
              FindSvg(m, [c] + rest) == FindSvg(m, rest) && IconBytes(m, [c] + rest) == IconBytes(m, rest)
  {
    hide Render, THEME;
    assert "/" <= c;
    ResolveDispatch(c);
    FirstCandidate(m, c, rest);
    RenderedOutput(m, Resolve(c));
  }

  /** An absolute .png is taken as the file is. */
  lemma PngCandidate(m: Machine, d: string, rest: seq<string>)
    ensures var path := "/" + d + ".png";
            if m.isFile(path) then
              FindSvg(m, [path] + rest) == Some(path) && IconBytes(m, [path] + rest) == Some(m.contents(path))
            else
              FindSvg(m, [path] + rest) == FindSvg(m, rest) && IconBytes(m, [path] + rest) == IconBytes(m, rest)
  {
    hide Render, THEME;
    var path := "/" + d + ".png";
    assert "/" <= path && EndsWith(path, ".png");
    FirstCandidate(m, path, rest);
  }

  lemma ResolvedRelative(c: string)
    requires c == "" || c[0] != '/'
    ensures Resolve(c) == "/tmp/opencode/nz/" + "Nordzy-dark/" + c + ".svg"
  {
    hide EndsWith;
    ThemeFolder();
    assert THEME + "/" + (c + ".svg") == THEME + "/" + c + ".svg";
  }

  lemma ThemeFolder()
    ensures THEME + "/" == "/tmp/opencode/nz/" + "Nordzy-dark/"
  {}

  lemma FirstCandidate(m: Machine, c: string, rest: seq<string>)
    ensures FindSvg(m, [c] + rest) == if m.isFile(Resolve(c)) then Some(Resolve(c)) else FindSvg(m, rest)
  {
    hide Resolve;
    assert ([c] + rest)[1..] == rest;
  }

  lemma RenderedOutput(m: Machine, path: string)
    ensures Render(m, path) == if m.rsvg(path).0 == 0 && |m.rsvg(path).1| >= 8 then Some(m.rsvg(path).1) else None
  {}

  /** `find_svg` answers with the first candidate that resolves to a file, and with none only if there is
      no such candidate. */
  lemma {:induction false} FindSvgIsFirst(m: Machine, candidates: seq<string>)
    ensures FindSvg(m, candidates).None? <==> forall c <- candidates :: !m.isFile(Resolve(c))
    ensures FindSvg(m, candidates).Some? ==>
              exists i | 0 <= i < |candidates| ::
                && FindSvg(m, candidates).value == Resolve(candidates[i]) && m.isFile(Resolve(candidates[i]))
                && forall j | 0 <= j < i :: !m.isFile(Resolve(candidates[j]))
  {
    hide Resolve;
    if candidates != [] && !m.isFile(Resolve(candidates[0])) {
      var rest := candidates[1..];
      FindSvgIsFirst(m, rest);
      assert forall c <- candidates :: c == candidates[0] || c in rest;
      assert forall c <- rest :: c in candidates;
      if FindSvg(m, rest).Some? {
        var i :| 0 <= i < |rest| && FindSvg(m, rest).value == Resolve(rest[i]) && m.isFile(Resolve(rest[i]))
                 && forall j | 0 <= j < i :: !m.isFile(Resolve(rest[j]));
        assert candidates[i + 1] == rest[i];
        assert forall j | 0 <= j < i + 1 :: j == 0 || candidates[j] == rest[j - 1];
      }
    }
  }

  /** Further candidates never change a successful search. */
  lemma {:induction false} FindSvgAppend(m: Machine, a: seq<string>, b: seq<string>)
    ensures FindSvg(m, a + b) == if FindSvg(m, a).Some? then FindSvg(m, a) else FindSvg(m, b)
  {
    if a == [] {
      assert a + b == b;
    } else {
      assert (a + b)[1..] == a[1..] + b;
      FindSvgAppend(m, a[1..], b);
    }
  }

  lemma {:induction false} EndsWithAppend(s: string, t: string, suffix: string)
    requires |suffix| <= |t|
    ensures EndsWith(s + t, suffix) == EndsWith(t, suffix)
  {
    assert (s + t)[|s + t| - |suffix|..] == t[|t| - |suffix|..];
  }

  /** A resolved path is never empty, and ends in .png exactly when the candidate was an absolute .png
      path: `main` copies the file as it is for those, and renders every other. */
  lemma ResolveDispatch(c: string)
    ensures Resolve(c) != ""
    ensures EndsWith(Resolve(c), ".png") <==> "/" <= c && EndsWith(c, ".png")
    ensures EndsWith(Resolve(c), ".png") ==> Resolve(c) == c
  {
    hide EndsWith, THEME;
    SvgIsNotPng(c);
    EndsWithAppend(THEME + "/", c + ".svg", ".png");
    NoEmptyPng();
  }

  lemma SvgIsNotPng(c: string)
    ensures !EndsWith(c + ".svg", ".png")
  {
    var s := c + ".svg";
    assert s[|s| - 3] == 's' && ".png"[1] == 'p';
    assert s[|s| - 4..][1] == s[|s| - 3];
  }

  lemma NoEmptyPng()
    ensures !EndsWith("", ".png")
  {}

  /** What the packing loop does with an application: the raw file for the first candidate found if that
      was an absolute .png path, the rendering otherwise. */
  lemma IconBytesDispatch(m: Machine, candidates: seq<string>)
    ensures FindSvg(m, candidates).None? ==> IconBytes(m, candidates).None?
    ensures FindSvg(m, candidates).Some? ==>
              exists c <- candidates ::
                && FindSvg(m, candidates).value == Resolve(c)
                && IconBytes(m, candidates) ==
                   if "/" <= c && EndsWith(c, ".png") then Some(m.contents(c)) else Render(m, Resolve(c))
  {
    hide Resolve, EndsWith, Render;
    FindSvgIsFirst(m, candidates);
    if FindSvg(m, candidates).Some? {
      var i :| 0 <= i < |candidates| && FindSvg(m, candidates).value == Resolve(candidates[i]);
      ResolveDispatch(candidates[i]);
      assert candidates[i] in candidates;
    }
  }

  // ---- packing ----

  /** The applications with an icon, in map order, with the icon's bytes. */
  function Found(m: Machine, apps: seq<App>): seq<(string, seq<byte>)> {
    if apps == [] then []
    else
      var rest := Found(m, apps[..|apps| - 1]);
      var app := apps[|apps| - 1];
      match IconBytes(m, app.candidates)
      case Some(png) => rest + [(app.name, png)]
      case None => rest
  }

  /** The applications without one, in map order. */
  function Missing(m: Machine, apps: seq<App>): seq<string> {
    if apps == [] then []
    else
      var rest := Missing(m, apps[..|apps| - 1]);
      var app := apps[|apps| - 1];
      if IconBytes(m, app.candidates).Some? then rest else rest + [app.name]
  }

  /** All icons end to end. */
  function Blob(found: seq<(string, seq<byte>)>): seq<byte> {
    if found == [] then [] else Blob(found[..|found| - 1]) + found[|found| - 1].1
  }

  /** The index of that blob. */
  function Index(found: seq<(string, seq<byte>)>): seq<Icon> {
    if found == [] then []
    else
      var init, last := found[..|found| - 1], found[|found| - 1];
      Index(init) + [Icon(last.0, |Blob(init)|, |last.1|)]
  }

  function TotalLength(icons: seq<Icon>): nat {
    if icons == [] then 0 else TotalLength(icons[..|icons| - 1]) + icons[|icons| - 1].len
  }

  /** The packing loop of `main`. */
  method Pack(m: Machine, apps: seq<App>) returns (blob: seq<byte>, entries: seq<Icon>, missing: seq<string>)
    ensures blob == Blob(Found(m, apps))
    ensures entries == Index(Found(m, apps))
    ensures missing == Missing(m, apps)
  {
    hide IconBytes, FindSvg, Resolve, EndsWith;
    blob, entries, missing := [], [], [];
    var i := 0;
    while i < |apps|
      invariant 0 <= i <= |apps|
      invariant blob == Blob(Found(m, apps[..i]))
      invariant entries == Index(Found(m, apps[..i]))
      invariant missing == Missing(m, apps[..i])
    {
      var app := apps[i];
      assert apps[..i + 1][..i] == apps[..i];
      ghost var before := Found(m, apps[..i]);
      i := i + 1;
      IconBytesCases(m, app.candidates);
      var src := FindSvg(m, app.candidates);
      if src.None? || src.value == "" {
        missing := missing + [app.name];
        continue;
      }
      var png: Option<seq<byte>>;
      if EndsWith(src.value, ".png") {
        png := Some(m.contents(src.value));
      } else {
        png := Render(m, src.value);
      }
      if png.None? {
        missing := missing + [app.name];
        continue;
      }
      assert Found(m, apps[..i]) == before + [(app.name, png.value)];
      assert (before + [(app.name, png.value)])[..|before|] == before;
      entries := entries + [Icon(app.name, |blob|, |png.value|)];
      blob := blob + png.value;
    }
    assert apps[..|apps|] == apps;
  }

  lemma IconBytesCases(m: Machine, candidates: seq<string>)
    ensures var src := FindSvg(m, candidates);
            IconBytes(m, candidates) ==
            if src.None? || src.value == "" then None
            else if EndsWith(src.value, ".png") then Some(m.contents(src.value)) else Render(m, src.value)
  {}

  /** The bytes an index entry points at. */
  function Slice(blob: seq<byte>, icon: Icon): seq<byte>
    requires icon.off + icon.len <= |blob|
  {
    blob[icon.off..icon.off + icon.len]
  }

  /** Packing more icons leaves the blob and the index so far as prefixes, so no earlier slice changes. */
  lemma {:induction false} PackMore(a: seq<(string, seq<byte>)>, b: seq<(string, seq<byte>)>)
    ensures Blob(a) <= Blob(a + b)
    ensures Index(a) <= Index(a + b) && |Index(a)| == |a|
  {
    if b == [] {
      assert a + b == a;
      if a != [] { PackMore(a[..|a| - 1], []); }
    } else {
      var init := b[..|b| - 1];
      assert (a + b)[..|a + b| - 1] == a + init;
      PackMore(a, init);
    }
  }

  /** Entry i names icon i, and starts where the blob of the icons before it ends. */
  lemma {:induction false} IndexAt(found: seq<(string, seq<byte>)>, i: nat)
    requires i < |found|
    ensures |Index(found)| == |found|
    ensures Index(found)[i] == Icon(found[i].0, |Blob(found[..i])|, |found[i].1|)
    ensures Blob(found[..i + 1]) == Blob(found[..i]) + found[i].1
    ensures Blob(found[..i + 1]) <= Blob(found)
  {
    hide Index, Blob;
    IndexLast(found);
    if i == |found| - 1 {
      assert found[..i + 1] == found;
    } else {
      var init := found[..|found| - 1];
      IndexAt(init, i);
      assert init[..i] == found[..i] && init[..i + 1] == found[..i + 1] && init[i] == found[i];
    }
  }

  lemma IndexLast(found: seq<(string, seq<byte>)>)
    requires found != []
    ensures var i := |found| - 1;
            var init, last := found[..i], found[i];
            && |Index(init)| == i
            && Index(found) == Index(init) + [Icon(last.0, |Blob(init)|, |last.1|)]
            && Blob(found) == Blob(init) + last.1
  {
    PackMore(found[..|found| - 1], []);
  }

  /** The entries tile the blob: they start at 0, each begins where the one before ends, the last ends at
      the end of the blob, and each points at exactly its own icon's bytes. */
  lemma IndexTiles(found: seq<(string, seq<byte>)>)
    ensures |Index(found)| == |found|
    ensures found != [] ==> Index(found)[0].off == 0
    ensures found != [] ==> var last := Index(found)[|found| - 1]; last.off + last.len == |Blob(found)|
    ensures forall i | 0 <= i < |found| - 1 :: Index(found)[i + 1].off == Index(found)[i].off + Index(found)[i].len
    ensures forall i | 0 <= i < |found| ::
              var icon := Index(found)[i];
              icon.name == found[i].0 && icon.off + icon.len <= |Blob(found)| && Slice(Blob(found), icon) == found[i].1
  {
    hide Index, Blob;
    PackMore(found, []);
    if found != [] {
      EmptyBlob();
      assert found[..0] == [];
      assert found[..|found| - 1 + 1] == found;
      IndexAt(found, 0);
      IndexAt(found, |found| - 1);
    }
    forall i | 0 <= i < |found| - 1 ensures Index(found)[i + 1].off == Index(found)[i].off + Index(found)[i].len {
      IndexAt(found, i);
      IndexAt(found, i + 1);
    }
    forall i | 0 <= i < |found|
      ensures var icon := Index(found)[i];
              icon.name == found[i].0 && icon.off + icon.len <= |Blob(found)| && Slice(Blob(found), icon) == found[i].1
    {
      IndexAt(found, i);
      SliceOfPrefix(Blob(found), Blob(found[..i]), found[i].1, found[i].0);
    }
  }

  lemma EmptyBlob()
    ensures Blob([]) == []
  {}

  lemma SliceOfPrefix(blob: seq<byte>, before: seq<byte>, png: seq<byte>, name: string)
    requires before + png <= blob
    ensures Slice(blob, Icon(name, |before|, |png|)) == png
  {
    assert blob[..|before| + |png|] == before + png;
    assert blob[|before|..|before| + |png|] == blob[..|before| + |png|][|before|..];
  }

  /** The two totals the script prints agree. */
  lemma {:induction false} TotalIsBlobLength(found: seq<(string, seq<byte>)>)
    ensures TotalLength(Index(found)) == |Blob(found)|
  {
    if found != [] {
      var init := found[..|found| - 1];
      TotalIsBlobLength(init);
      assert Index(found)[..|Index(found)| - 1] == Index(init);
    }
  }

  /** Every application goes to exactly one list, at the place its predecessors leave free: to the entries
      if the loop got bytes for it, to the missing otherwise. */
  lemma {:induction false} MapPartition(m: Machine, apps: seq<App>, i: nat)
    requires i < |apps|
    ensures var f, g := |Found(m, apps[..i])|, |Missing(m, apps[..i])|;
            && f + g == i
            && match IconBytes(m, apps[i].candidates) {
                 case Some(png) => f < |Found(m, apps)| && Found(m, apps)[f] == (apps[i].name, png)
                 case None => g < |Missing(m, apps)| && Missing(m, apps)[g] == apps[i].name
               }
    ensures |Found(m, apps)| + |Missing(m, apps)| == |apps|
  {
    hide IconBytes;
    var init := apps[..|apps| - 1];
    if i == |apps| - 1 {
      if i > 0 { MapPartition(m, init, i - 1); }
    } else {
      MapPartition(m, init, i);
      assert init[..i] == apps[..i];
    }
  }

  /** The map is a Python dictionary: its keys are distinct. */
  predicate DistinctNames(apps: seq<App>) {
    forall i, j | 0 <= i < j < |apps| :: apps[i].name != apps[j].name
  }

  lemma {:induction false} FoundNames(m: Machine, apps: seq<App>, k: nat)
    requires k < |Found(m, apps)|
    ensures exists i | 0 <= i < |apps| ::
              && Found(m, apps)[k].0 == apps[i].name
              && IconBytes(m, apps[i].candidates) == Some(Found(m, apps)[k].1)
  {
    hide IconBytes;
    var n := |apps| - 1;
    if k < |Found(m, apps[..n])| {
      FoundNames(m, apps[..n], k);
      var i :| && 0 <= i < n && Found(m, apps[..n])[k].0 == apps[..n][i].name
               && IconBytes(m, apps[..n][i].candidates) == Some(Found(m, apps[..n])[k].1);
      assert apps[i] == apps[..n][i];
    } else {
      assert Found(m, apps)[k] == (apps[n].name, IconBytes(m, apps[n].candidates).value);
    }
  }
}
