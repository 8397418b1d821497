/** Merging single-program checkpoints into one multi-program checkpoint. */
module CheckpointAggregator {
  import opened Arithmetic
  import opened Bits
  import opened Options
  import opened Text

  const PAGE: nat := 4096

  function Bytes(pages: nat): nat {
    pages * 4096
  }

  /** A section of a checkpoint's configuration; the physical address entry is the one that is relocated. */
  datatype Section = Section(name: string, paddr: Option<nat>, entries: map<string, string>)

  /** The parts of a checkpoint that are merged. */
  datatype Checkpoint = Checkpoint(sections: seq<Section>, curTick: int, pagePtr: nat, store: seq<byte>)

  // ---- Renaming of cpu sections ----

  predicate StartsWithCpu(s: string) {
    |s| >= 3 && s[0] == 'c' && s[1] == 'p' && s[2] == 'u'
  }

  predicate HasCpu(s: string) {
    s != "" && (StartsWithCpu(s) || HasCpu(s[1..]))
  }

  /** re.sub("cpu", "cpu" + tag, s) */
  function Rename(s: string, tag: string): string {
    if s == "" then ""
    else if StartsWithCpu(s) then "cpu" + tag + Rename(s[3..], tag)
    else [s[0]] + Rename(s[1..], tag)
  }

  function Zeros(n: nat): (s: string)
    ensures |s| == n && AllDigits(s)
  {
    if n == 0 then "" else "0" + Zeros(n - 1)
  }

  /** str(i).zfill(width) */
  function Zfill(i: nat, width: nat): (s: string)
    ensures AllDigits(s)
  {
    var d := Decimal(i);
    if |d| >= width then d else Zeros(width - |d|) + d
  }

  /** The number given to the cpus of checkpoint i of n. */
  function CpuTag(i: nat, n: nat): string
    requires i < n
  {
    Zfill(i, |Decimal(n - 1)|)
  }

  /** Undoes Rename for tags of a known width. */
  function Unrename(u: string, width: nat): string {
    if u == "" then ""
    else if StartsWithCpu(u) && |u| >= 3 + width then "cpu" + Unrename(u[3 + width..], width)
    else [u[0]] + Unrename(u[1..], width)
  }

  /** The tag behind the first "cpu". */
  function FirstTag(u: string, width: nat): string {
    if u == "" then ""
    else if StartsWithCpu(u) && |u| >= 3 + width then u[3..3 + width]
    else FirstTag(u[1..], width)
  }

  /** Renaming creates no new "cpu". */
  lemma RenameKeepsStart(s: string, tag: string)
    ensures StartsWithCpu(Rename(s, tag)) <==> StartsWithCpu(s)
    ensures s != "" ==> Rename(s, tag) != "" && Rename(s, tag)[0] == s[0]
  {
    if s != "" && !StartsWithCpu(s) && |s| > 1 {
      var t := s[1..];
      assert Rename(t, tag) != "" && Rename(t, tag)[0] == t[0];
      if !StartsWithCpu(t) && |t| > 1 {
        assert Rename(t, tag) == [t[0]] + Rename(t[1..], tag);
        assert Rename(t[1..], tag) != "" && Rename(t[1..], tag)[0] == t[1..][0];
      }
    }
  }

  lemma {:induction false} UnrenameRename(s: string, tag: string)
    ensures Unrename(Rename(s, tag), |tag|) == s
    ensures HasCpu(s) ==> FirstTag(Rename(s, tag), |tag|) == tag
    ensures HasCpu(Rename(s, tag)) <==> HasCpu(s)
  {
    RenameKeepsStart(s, tag);
    var u, w := Rename(s, tag), |tag|;
    if s == "" {
    } else if StartsWithCpu(s) {
      UnrenameRename(s[3..], tag);
      assert u[3..3 + w] == tag && u[3 + w..] == Rename(s[3..], tag);
      assert s == "cpu" + s[3..];
    } else {
      UnrenameRename(s[1..], tag);
      assert u[1..] == Rename(s[1..], tag);
      assert s == [s[0]] + s[1..];
    }
  }

  lemma {:induction false} CpuInside(p: string, q: string)
    ensures HasCpu(p + "cpu" + q)
  {
    var s := p + "cpu" + q;
    if p != "" {
      CpuInside(p[1..], q);
      assert s[1..] == p[1..] + "cpu" + q;
    }
  }

  lemma {:induction false} CpuFound(s: string) returns (p: string, q: string)
    requires HasCpu(s)
    ensures s == p + "cpu" + q
  {
    if StartsWithCpu(s) {
      p, q := "", s[3..];
      assert s[..3] == "cpu";
    } else {
      p, q := CpuFound(s[1..]);
      p := [s[0]] + p;
    }
  }

  /** A section is a cpu section if "cpu" occurs in its name. */
  lemma HasCpuExactly(s: string)
    ensures HasCpu(s) <==> exists p: string, q: string :: s == p + "cpu" + q
  {
    if HasCpu(s) {
      var p, q := CpuFound(s);
    }
    if p: string, q: string :| s == p + "cpu" + q {
      CpuInside(p, q);
    }
  }

  /** The number goes right behind the first "cpu", and on from there. */
  lemma {:induction false} RenameFirst(p: string, q: string, tag: string)
    requires forall k | 0 <= k < |p| :: !StartsWithCpu((p + "cpu" + q)[k..])
    ensures Rename(p + "cpu" + q, tag) == p + "cpu" + tag + Rename(q, tag)
  {
    var s := p + "cpu" + q;
    if p == "" {
      assert s[3..] == q;
    } else {
      var p' := p[1..];
      assert s[0..] == s && !StartsWithCpu(s[0..]);
      assert s[1..] == p' + "cpu" + q;
      forall k | 0 <= k < |p'| ensures !StartsWithCpu((p' + "cpu" + q)[k..]) {
        assert (p' + "cpu" + q)[k..] == s[k + 1..];
      }
      RenameFirst(p', q, tag);
    }
  }

  lemma {:induction false} RenameNothing(s: string, tag: string)
    requires !HasCpu(s)
    ensures Rename(s, tag) == s
  {
    if s != "" {
      RenameNothing(s[1..], tag);
    }
  }

  lemma {:induction false} NumeralZeros(n: nat, s: string)
    requires AllDigits(s)
    ensures AllDigits(Zeros(n) + s) && Numeral(Zeros(n) + s) == Numeral(s)
  {
    var t := Zeros(n) + s;
    if s != "" {
      assert t[..|t| - 1] == Zeros(n) + s[..|s| - 1];
      NumeralZeros(n, s[..|s| - 1]);
    } else {
      assert t == Zeros(n);
      AllZeros(n);
    }
  }

  lemma {:induction false} AllZeros(n: nat)
    ensures Numeral(Zeros(n)) == 0
  {
    if n > 0 {
      AllZeros(n - 1);
      assert Zeros(n)[..n - 1] == Zeros(n - 1) && Zeros(n)[n - 1] == '0' by {
        ZerosAt(n);
        ZerosAt(n - 1);
      }
    }
  }

  lemma {:induction false} ZerosAt(n: nat)
    ensures forall i | 0 <= i < n :: Zeros(n)[i] == '0'
  {
    if n > 0 {
      ZerosAt(n - 1);
    }
  }

  lemma {:induction false} DecimalMonotone(a: nat, b: nat)
    requires a <= b
    ensures |Decimal(a)| <= |Decimal(b)|
  {
    if b >= 10 && a >= 10 {
      DecimalMonotone(a / 10, b / 10);
    }
  }

  /** All checkpoints get tags of one width, and different checkpoints different tags. */
  lemma TagsDiffer(i: nat, j: nat, n: nat)
    requires i < n && j < n
    ensures |CpuTag(i, n)| == |Decimal(n - 1)|
    ensures CpuTag(i, n) == CpuTag(j, n) ==> i == j
  {
    DecimalMonotone(i, n - 1);
    DecimalMonotone(j, n - 1);
    TagNumber(i, n);
    TagNumber(j, n);
  }

  lemma TagNumber(i: nat, n: nat)
    requires i < n
    ensures Numeral(CpuTag(i, n)) == i
  {
    ParseDecimal(i);
    var w, d := |Decimal(n - 1)|, Decimal(i);
    if |d| < w {
      NumeralZeros(w - |d|, d);
    }
  }

  /** Renamed cpu sections of different checkpoints, or of different names, never collide; and none
      collides with a section copied under its own name. */
  lemma RenamedSectionsDiffer(s: string, i: nat, t: string, j: nat, n: nat)
    requires i < n && j < n && HasCpu(s)
    ensures HasCpu(t) && Rename(s, CpuTag(i, n)) == Rename(t, CpuTag(j, n)) ==> i == j && s == t
    ensures !HasCpu(t) ==> Rename(s, CpuTag(i, n)) != t
  {
    TagsDiffer(i, j, n);
    TagsDiffer(j, i, n);
    UnrenameRename(s, CpuTag(i, n));
    UnrenameRename(t, CpuTag(j, n));
  }

  // ---- Memory ----

  /** Pages of the checkpoints before the i-th. */
  function PagesBefore(cpts: seq<Checkpoint>, i: nat): nat
    requires i <= |cpts|
  {
    if i == 0 then 0 else PagesBefore(cpts, i - 1) + cpts[i - 1].pagePtr
  }

  /** What the page loop copies from one store: the announced pages, or less if the store is shorter. */
  function Copied(c: Checkpoint): seq<byte> {
    if |c.store| < Bytes(c.pagePtr) then c.store else c.store[..Bytes(c.pagePtr)]
  }

  function Merged(cpts: seq<Checkpoint>, i: nat): seq<byte>
    requires i <= |cpts|
  {
    if i == 0 then [] else Merged(cpts, i - 1) + Copied(cpts[i - 1])
  }

  /** A store holds all the pages its checkpoint announces. */
  predicate Full(c: Checkpoint) {
    |c.store| >= Bytes(c.pagePtr)
  }

  /** The page-by-page copy of one store. */
  method CopyPages(image0: seq<byte>, c: Checkpoint) returns (image: seq<byte>)
    ensures image == image0 + Copied(c)
  {
    image := image0;
    var at, x := 0, 0;
    while x < c.pagePtr
      invariant 0 <= x <= c.pagePtr
      invariant at == if |c.store| < Bytes(x) then |c.store| else Bytes(x)
      invariant image == image0 + c.store[..at]
    {
      var end := if at + PAGE < |c.store| then at + PAGE else |c.store|;
      assert c.store[..end] == c.store[..at] + c.store[at..end];
      image := image + c.store[at..end];
      at := end;
      x := x + 1;
    }
    assert at == |Copied(c)| && c.store[..at] == Copied(c);
  }

  /** A physical address of checkpoint i in the merged memory. */
  function RelocatedPaddr(cpts: seq<Checkpoint>, i: nat, paddr: Option<nat>): Option<nat>
    requires i < |cpts|
  {
    if paddr.Some? then Some(paddr.value + Bytes(PagesBefore(cpts, i))) else None
  }

  /** Every byte copied from checkpoint i is in the merged image, behind the bytes of the earlier
      checkpoints; that is its relocated address exactly when every earlier store holds all its pages. */
  lemma RelocationPreservesMemory(cpts: seq<Checkpoint>, i: nat, a: nat)
    requires i < |cpts| && a < |Copied(cpts[i])|
    ensures var at := |Merged(cpts, i)| + a;
            && at < |Merged(cpts, |cpts|)| && Merged(cpts, |cpts|)[at] == cpts[i].store[a]
            && (RelocatedPaddr(cpts, i, Some(a)) == Some(at) <==> forall k | 0 <= k < i :: Full(cpts[k]))
  {
    AlignedExactlyWhenFull(cpts, i);
    CopiedByteKept(cpts, i, |cpts|, a);
  }

  /** The bytes of checkpoint i stay where they were appended. */
  lemma {:induction false} CopiedByteKept(cpts: seq<Checkpoint>, i: nat, n: nat, a: nat)
    requires i < n <= |cpts| && a < |Copied(cpts[i])|
    ensures var at := |Merged(cpts, i)| + a; at < |Merged(cpts, n)| && Merged(cpts, n)[at] == Copied(cpts[i])[a]
  {
    if n == i + 1 {
      JoinedAt(Merged(cpts, i), Copied(cpts[i]), a);
    } else {
      CopiedByteKept(cpts, i, n - 1, a);
      JoinedBefore(Merged(cpts, n - 1), Copied(cpts[n - 1]), |Merged(cpts, i)| + a);
    }
  }

  lemma JoinedAt(s: seq<byte>, t: seq<byte>, k: nat)
    requires k < |t|
    ensures |s| + k < |s + t| && (s + t)[|s| + k] == t[k]
  {
  }

  lemma JoinedBefore(s: seq<byte>, t: seq<byte>, k: nat)
    requires k < |s|
    ensures k < |s + t| && (s + t)[k] == s[k]
  {
  }

  /** A store without its one announced page: the next checkpoint's first byte is a page away from its
      relocated address. */
  lemma ShortStoreMisplaces()
    ensures var cpts := [Checkpoint([], 0, 1, []), Checkpoint([], 0, 1, [7])];
            |Merged(cpts, 1)| == 0 && RelocatedPaddr(cpts, 1, Some(0)) == Some(4096)
  {
    var cpts := [Checkpoint([], 0, 1, []), Checkpoint([], 0, 1, [7])];
    assert Merged(cpts, 0) == [] && PagesBefore(cpts, 0) == 0;
  }

  lemma {:induction false} PagesMonotone(cpts: seq<Checkpoint>, i: nat, j: nat)
    requires i <= j <= |cpts|
    ensures PagesBefore(cpts, i) <= PagesBefore(cpts, j)
  {
    if i < j {
      PagesMonotone(cpts, i, j - 1);
    }
  }

  /** Different checkpoints occupy different parts of the image. */
  lemma RegionsDisjoint(cpts: seq<Checkpoint>, i: nat, a: nat, j: nat, b: nat)
    requires i < j < |cpts| && a < Bytes(cpts[i].pagePtr) && b < Bytes(cpts[j].pagePtr)
    ensures a + Bytes(PagesBefore(cpts, i)) < b + Bytes(PagesBefore(cpts, j))
  {
    PagesMonotone(cpts, i + 1, j);
  }

  lemma {:induction false} MergedNotLonger(cpts: seq<Checkpoint>, i: nat)
    requires i <= |cpts|
    ensures |Merged(cpts, i)| <= Bytes(PagesBefore(cpts, i))
    ensures |Merged(cpts, i)| == Bytes(PagesBefore(cpts, i)) <==> forall k | 0 <= k < i :: Full(cpts[k])
  {
    if i > 0 {
      MergedNotLonger(cpts, i - 1);
      CopiedLength(cpts[i - 1]);
    }
  }

  lemma CopiedLength(c: Checkpoint)
    ensures |Copied(c)| <= Bytes(c.pagePtr)
    ensures |Copied(c)| == Bytes(c.pagePtr) <==> Full(c)
  {
  }

  /** The copy of checkpoint i starts where its relocated addresses say it does exactly when all stores
      before it are full: one short store moves everything behind it. */
  lemma AlignedExactlyWhenFull(cpts: seq<Checkpoint>, i: nat)
    requires i < |cpts|
    ensures |Merged(cpts, i)| == Bytes(PagesBefore(cpts, i)) <==> forall k | 0 <= k < i :: Full(cpts[k])
  {
    MergedNotLonger(cpts, i);
  }

  // ---- The whole merge ----

  predicate NamesFdMap(s: string) {
    |s| >= 17 && s[|s| - 17..|s| - 9] == "workload" && s[|s| - 8..] == "FdMap256"
  }

  /** The name ends in "workload", any one character, and "FdMap256". */
  lemma NamesFdMapExactly(s: string)
    ensures NamesFdMap(s) <==> exists p: string, c: char :: s == p + "workload" + [c] + "FdMap256"
  {
    if NamesFdMap(s) {
      var p, c := s[..|s| - 17], s[|s| - 9];
      assert s == p + s[|s| - 17..|s| - 9] + [c] + s[|s| - 8..];
    }
    if p: string, c: char :| s == p + "workload" + [c] + "FdMap256" {
      assert s[|s| - 17..|s| - 9] == "workload" && s[|s| - 8..] == "FdMap256";
    }
  }

  /** A cpu section of checkpoint i as it is written out. */
  function Relocated(cpts: seq<Checkpoint>, i: nat, sec: Section): Section
    requires i < |cpts|
  {
    Section(Rename(sec.name, CpuTag(i, |cpts|)),
            RelocatedPaddr(cpts, i, sec.paddr),
            if NamesFdMap(sec.name) then sec.entries["M5_pid" := Decimal(i)] else sec.entries)
  }

  /** The sections written for the first k sections of checkpoint i: its cpu sections, relocated, and for
      the last checkpoint also the sections shared by all. */
  function WrittenFor(cpts: seq<Checkpoint>, i: nat, k: nat): seq<Section>
    requires i < |cpts| && k <= |cpts[i].sections|
  {
    if k == 0 then [] else WrittenFor(cpts, i, k - 1) + WrittenOne(cpts, i, cpts[i].sections[k - 1])
  }

  function WrittenOne(cpts: seq<Checkpoint>, i: nat, sec: Section): seq<Section>
    requires i < |cpts|
  {
    if HasCpu(sec.name) then [Relocated(cpts, i, sec)]
    else if sec.name == "system" || sec.name == "Globals" then []
    else if i == |cpts| - 1 then [sec]
    else []
  }

  function Written(cpts: seq<Checkpoint>, i: nat): seq<Section>
    requires i <= |cpts|
  {
    if i == 0 then [] else Written(cpts, i - 1) + WrittenFor(cpts, i - 1, |cpts[i - 1].sections|)
  }

  lemma GlobalsIsNoCpu()
    ensures !HasCpu("Globals")
  {
    var s := "Globals";
    assert s[1..] == "lobals" && s[1..][1..] == "obals" && "obals"[1..] == "bals" && "bals"[1..] == "als";
    assert "als"[1..] == "ls" && "ls"[1..] == "s" && "s"[1..] == "";
    assert !HasCpu("als");
    assert !HasCpu("obals");
  }

  /** One of the first k sections is the global one, which records the tick. */
  predicate GlobalsAmong(sections: seq<Section>, k: nat)
    requires k <= |sections|
  {
    k > 0 && (sections[k - 1].name == "Globals" || GlobalsAmong(sections, k - 1))
  }

  predicate HasGlobals(c: Checkpoint) {
    GlobalsAmong(c.sections, |c.sections|)
  }

  lemma {:induction false} HasGlobalsExactly(sections: seq<Section>, k: nat)
    requires k <= |sections|
    ensures GlobalsAmong(sections, k) <==> exists m :: 0 <= m < k && sections[m].name == "Globals"
  {
    if k > 0 {
      HasGlobalsExactly(sections, k - 1);
    }
  }

  /** tick is the latest of 0 and the ticks that the checkpoints record. */
  ghost predicate LatestTick(cpts: seq<Checkpoint>, n: nat, tick: int)
    requires n <= |cpts|
  {
    && (forall j | 0 <= j < n && HasGlobals(cpts[j]) :: cpts[j].curTick <= tick)
    && (tick == 0 || exists j :: 0 <= j < n && HasGlobals(cpts[j]) && cpts[j].curTick == tick) && tick >= 0
  }

  /** The tick to keep after a checkpoint. */
  ghost function TickAfter(c: Checkpoint, tick: int): int {
    if HasGlobals(c) && c.curTick > tick then c.curTick else tick
  }

  lemma LatestTickGrows(cpts: seq<Checkpoint>, i: nat, tick: int)
    requires i < |cpts| && LatestTick(cpts, i, tick)
    ensures LatestTick(cpts, i + 1, TickAfter(cpts[i], tick))
  {
  }

  /** The merged checkpoint. */
  datatype Aggregate = Aggregate(sections: seq<Section>, image: seq<byte>, pagePtr: nat, rangeSize: nat, nextPid: nat,
                                 curTick: int)

  /** The padding loop: whole pages of the digit '0' until the memory size is reached. */
  method Pad(image0: seq<byte>, pages0: nat, memorySize: int) returns (image: seq<byte>, pages: nat)
    ensures Bytes(pages) == if memorySize <= Bytes(pages0) then Bytes(pages0) else RoundUp(memorySize)
    ensures image0 <= image && |image| - |image0| == Bytes(pages - pages0)
    ensures forall k | |image0| <= k < |image| :: image[k] == '0' as int
  {
    image, pages := image0, pages0;
    var fileSize := Bytes(pages);
    while fileSize < memorySize
      invariant fileSize == Bytes(pages) && pages0 <= pages
      invariant pages > pages0 ==> fileSize < memorySize + PAGE
      invariant image0 <= image && |image| - |image0| == Bytes(pages - pages0)
      invariant forall k | |image0| <= k < |image| :: image[k] == '0' as int
    {
      var dummy: seq<byte> := seq(PAGE, _ => '0' as int);
      image := image + dummy;
      fileSize := fileSize + PAGE;
      pages := pages + 1;
    }
    if memorySize > Bytes(pages0) {
      RoundUpUnique(memorySize, pages);
    }
  }

  function RoundUp(n: nat): nat {
    Bytes((n + PAGE - 1) / PAGE)
  }

  lemma RoundUpUnique(n: nat, pages: nat)
    requires n <= Bytes(pages) < n + PAGE
    ensures RoundUp(n) == Bytes(pages)
  {
    DivModUnique(n + PAGE - 1, PAGE, pages, n + PAGE - 1 - Bytes(pages));
  }

  method WriteCpuSection(cpts: seq<Checkpoint>, i: nat, pagePtr: nat, sec: Section) returns (out: Section)
    requires i < |cpts| && pagePtr == PagesBefore(cpts, i)
    ensures out == Relocated(cpts, i, sec)
  {
    out := Section(Rename(sec.name, CpuTag(i, |cpts|)), sec.paddr, sec.entries);
    if sec.paddr.Some? {
      out := out.(paddr := Some(sec.paddr.value + Bytes(pagePtr)));
    }
    if NamesFdMap(sec.name) {
      out := out.(entries := out.entries["M5_pid" := Decimal(i)]);
    }
  }

  /** The loop over the sections of checkpoint i. */
  method WriteSections(cpts: seq<Checkpoint>, i: nat, pagePtr: nat, tick0: int)
    returns (written: seq<Section>, tick: int)
    requires i < |cpts| && pagePtr == PagesBefore(cpts, i)
    ensures written == WrittenFor(cpts, i, |cpts[i].sections|)
    ensures tick == TickAfter(cpts[i], tick0)
  {
    var c := cpts[i];
    written, tick := [], tick0;
    for k := 0 to |c.sections|
      invariant written == WrittenFor(cpts, i, k)
      invariant tick == if GlobalsAmong(c.sections, k) && c.curTick > tick0 then c.curTick else tick0
    {
      var one, tick' := WriteSection(cpts, i, pagePtr, c.sections[k], tick);
      written, tick := written + one, tick';
    }
  }

  /** One pass of that loop. */
  method WriteSection(cpts: seq<Checkpoint>, i: nat, pagePtr: nat, sec: Section, tick0: int)
    returns (one: seq<Section>, tick: int)
    requires i < |cpts| && pagePtr == PagesBefore(cpts, i)
    ensures one == WrittenOne(cpts, i, sec)
    ensures tick == if sec.name == "Globals" && cpts[i].curTick > tick0 then cpts[i].curTick else tick0
  {
    one, tick := [], tick0;
    GlobalsIsNoCpu();
    if HasCpu(sec.name) {
      var out := WriteCpuSection(cpts, i, pagePtr, sec);
      one := [out];
    } else if sec.name == "system" {
    } else if sec.name == "Globals" {
      if cpts[i].curTick > tick {
        tick := cpts[i].curTick;
      }
    } else if i == |cpts| - 1 {
      one := [sec];
    }
  }

  // ---- No section is written twice ----

  ghost predicate NamesDiffer(s: seq<Section>) {
    forall k, m | 0 <= k < m < |s| :: s[k].name != s[m].name
  }

  /** Sections k of checkpoint i and m of checkpoint j are written under different names. */
  lemma WrittenDiffer(cpts: seq<Checkpoint>, i: nat, sec: Section, j: nat, other: Section, x: Section, y: Section)
    requires i <= j < |cpts| && (i == j ==> sec.name != other.name)
    requires x in WrittenOne(cpts, i, sec) && y in WrittenOne(cpts, j, other)
    ensures x.name != y.name
  {
    if HasCpu(sec.name) {
      RenamedSectionsDiffer(sec.name, i, other.name, j, |cpts|);
    } else if HasCpu(other.name) {
      RenamedSectionsDiffer(other.name, j, sec.name, i, |cpts|);
    }
  }

  lemma {:induction false} WrittenForSource(cpts: seq<Checkpoint>, i: nat, k: nat, x: Section) returns (m: nat)
    requires i < |cpts| && k <= |cpts[i].sections| && x in WrittenFor(cpts, i, k)
    ensures m < k && x in WrittenOne(cpts, i, cpts[i].sections[m])
  {
    if x in WrittenOne(cpts, i, cpts[i].sections[k - 1]) {
      m := k - 1;
    } else {
      m := WrittenForSource(cpts, i, k - 1, x);
    }
  }

  lemma {:induction false} WrittenSource(cpts: seq<Checkpoint>, n: nat, x: Section) returns (i: nat, m: nat)
    requires n <= |cpts| && x in Written(cpts, n)
    ensures i < n && m < |cpts[i].sections| && x in WrittenOne(cpts, i, cpts[i].sections[m])
  {
    if x in WrittenFor(cpts, n - 1, |cpts[n - 1].sections|) {
      i := n - 1;
      m := WrittenForSource(cpts, i, |cpts[i].sections|, x);
    } else {
      i, m := WrittenSource(cpts, n - 1, x);
    }
  }

  lemma {:induction false} WrittenForDistinct(cpts: seq<Checkpoint>, i: nat, k: nat)
    requires i < |cpts| && k <= |cpts[i].sections| && NamesDiffer(cpts[i].sections)
    ensures NamesDiffer(WrittenFor(cpts, i, k))
  {
    if k > 0 {
      WrittenForDistinct(cpts, i, k - 1);
      var s, last := WrittenFor(cpts, i, k - 1), cpts[i].sections[k - 1];
      forall x, y | x in s && y in WrittenOne(cpts, i, last) ensures x.name != y.name {
        var m := WrittenForSource(cpts, i, k - 1, x);
        WrittenDiffer(cpts, i, cpts[i].sections[m], i, last, x, y);
      }
      NamesDifferAppend(s, WrittenOne(cpts, i, last));
    }
  }

  lemma NamesDifferAppend(s: seq<Section>, t: seq<Section>)
    requires NamesDiffer(s) && NamesDiffer(t) && forall x, y | x in s && y in t :: x.name != y.name
    ensures NamesDiffer(s + t)
  {
    var u := s + t;
    forall k, m | 0 <= k < m < |u| ensures u[k].name != u[m].name {
      if k < |s| <= m {
        assert s[k] in s && t[m - |s|] in t;
      }
    }
  }

  /** If no checkpoint repeats a section, the merged configuration does not either. */
  lemma {:induction false} WrittenDistinct(cpts: seq<Checkpoint>, n: nat)
    requires n <= |cpts| && forall i | 0 <= i < |cpts| :: NamesDiffer(cpts[i].sections)
    ensures NamesDiffer(Written(cpts, n))
  {
    if n > 0 {
      WrittenDistinct(cpts, n - 1);
      var s, t := Written(cpts, n - 1), WrittenFor(cpts, n - 1, |cpts[n - 1].sections|);
      WrittenForDistinct(cpts, n - 1, |cpts[n - 1].sections|);
      forall x, y | x in s && y in t ensures x.name != y.name {
        var i, m := WrittenSource(cpts, n - 1, x);
        var m' := WrittenForSource(cpts, n - 1, |cpts[n - 1].sections|, y);
        WrittenDiffer(cpts, i, cpts[i].sections[m], n - 1, cpts[n - 1].sections[m'], x, y);
      }
      NamesDifferAppend(s, t);
    }
  }

  // ---- What the merged configuration says ----

  /** An address of checkpoint i points to the same byte as before, if all earlier stores are full. */
  ghost predicate AddressCarried(cpts: seq<Checkpoint>, i: nat, paddr: Option<nat>, to: Option<nat>, image: seq<byte>)
    requires i < |cpts|
  {
    && (to.Some? <==> paddr.Some?)
    && (paddr.Some? && paddr.value < |Copied(cpts[i])| && (forall k | 0 <= k < i :: Full(cpts[k])) ==>
          to.value < |image| && image[to.value] == cpts[i].store[paddr.value])
  }

  /** All entries are kept, except that a file descriptor map gets the checkpoint's number as process id. */
  ghost predicate EntriesCarried(i: nat, sec: Section, out: Section) {
    && (forall key | key != "M5_pid" :: Entry(out, key) == Entry(sec, key))
    && Entry(out, "M5_pid") == if NamesFdMap(sec.name) then Some(Decimal(i)) else Entry(sec, "M5_pid")
  }

  /** What becomes of a cpu section of checkpoint i. */
  ghost predicate Carried(cpts: seq<Checkpoint>, i: nat, sec: Section, out: Section, image: seq<byte>)
    requires i < |cpts|
  {
    && out.name == Rename(sec.name, CpuTag(i, |cpts|))
    && AddressCarried(cpts, i, sec.paddr, out.paddr, image)
    && EntriesCarried(i, sec, out)
  }

  function Entry(sec: Section, key: string): Option<string> {
    if key in sec.entries then Some(sec.entries[key]) else None
  }

  /** Some written section is what became of this one. */
  ghost predicate IsCarried(cpts: seq<Checkpoint>, i: nat, sec: Section, written: seq<Section>, image: seq<byte>)
    requires i < |cpts|
  {
    exists out :: out in written && Carried(cpts, i, sec, out, image)
  }

  /** A section that all checkpoints have in common. */
  predicate Shared(sec: Section) {
    !HasCpu(sec.name) && sec.name != "system" && sec.name != "Globals"
  }

  /** Where a written section comes from: a cpu section of some checkpoint, or the last one's shared ones. */
  ghost predicate HasSource(cpts: seq<Checkpoint>, out: Section, image: seq<byte>) {
    || (cpts != [] && out in cpts[|cpts| - 1].sections && Shared(out))
    || exists i, m :: 0 <= i < |cpts| && 0 <= m < |cpts[i].sections| && FromCpu(cpts, i, m, out, image)
  }

  ghost predicate FromCpu(cpts: seq<Checkpoint>, i: nat, m: nat, out: Section, image: seq<byte>)
    requires i < |cpts| && m < |cpts[i].sections|
  {
    HasCpu(cpts[i].sections[m].name) && Carried(cpts, i, cpts[i].sections[m], out, image)
  }

  /** Every cpu section of every checkpoint is carried over, the last checkpoint's shared sections are copied,
      and nothing else is written. */
  ghost predicate ConfigurationMerged(cpts: seq<Checkpoint>, written: seq<Section>, image: seq<byte>) {
    && (forall i, m | 0 <= i < |cpts| && 0 <= m < |cpts[i].sections| && HasCpu(cpts[i].sections[m].name) ::
          IsCarried(cpts, i, cpts[i].sections[m], written, image))
    && (cpts != [] ==> forall sec | sec in cpts[|cpts| - 1].sections && Shared(sec) :: sec in written)
    && (forall out | out in written :: HasSource(cpts, out, image))
  }

  lemma AddressFollows(cpts: seq<Checkpoint>, i: nat, a: nat, image: seq<byte>)
    requires i < |cpts| && a < |Copied(cpts[i])| && Merged(cpts, |cpts|) <= image
    requires forall k | 0 <= k < i :: Full(cpts[k])
    ensures var at := a + Bytes(PagesBefore(cpts, i)); at < |image| && image[at] == cpts[i].store[a]
  {
    RelocationPreservesMemory(cpts, i, a);
  }

  lemma PaddrIsCarried(cpts: seq<Checkpoint>, i: nat, paddr: Option<nat>, image: seq<byte>)
    requires i < |cpts| && Merged(cpts, |cpts|) <= image
    ensures AddressCarried(cpts, i, paddr, RelocatedPaddr(cpts, i, paddr), image)
  {
    if paddr.Some? && paddr.value < |Copied(cpts[i])| && forall k | 0 <= k < i :: Full(cpts[k]) {
      AddressFollows(cpts, i, paddr.value, image);
    }
  }

  lemma EntriesAreCarried(cpts: seq<Checkpoint>, i: nat, sec: Section)
    requires i < |cpts|
    ensures EntriesCarried(i, sec, Relocated(cpts, i, sec))
  {
    var out := Relocated(cpts, i, sec);
    assert NamesFdMap(sec.name) ==> out.entries == sec.entries["M5_pid" := Decimal(i)];
  }

  lemma RelocatedIsCarried(cpts: seq<Checkpoint>, i: nat, sec: Section, image: seq<byte>)
    requires i < |cpts| && Merged(cpts, |cpts|) <= image
    ensures Carried(cpts, i, sec, Relocated(cpts, i, sec), image)
  {
    PaddrIsCarried(cpts, i, sec.paddr, image);
    EntriesAreCarried(cpts, i, sec);
  }

  lemma {:induction false} WrittenForHas(cpts: seq<Checkpoint>, i: nat, k: nat, m: nat, out: Section)
    requires i < |cpts| && m < k <= |cpts[i].sections| && out in WrittenOne(cpts, i, cpts[i].sections[m])
    ensures out in WrittenFor(cpts, i, k)
  {
    if m < k - 1 {
      WrittenForHas(cpts, i, k - 1, m, out);
    }
  }

  lemma {:induction false} WrittenHas(cpts: seq<Checkpoint>, n: nat, i: nat, m: nat, out: Section)
    requires i < n <= |cpts| && m < |cpts[i].sections| && out in WrittenOne(cpts, i, cpts[i].sections[m])
    ensures out in Written(cpts, n)
  {
    if i < n - 1 {
      WrittenHas(cpts, n - 1, i, m, out);
    } else {
      WrittenForHas(cpts, i, |cpts[i].sections|, m, out);
    }
  }

  lemma CpuSectionWritten(cpts: seq<Checkpoint>, i: nat, m: nat, image: seq<byte>)
    requires i < |cpts| && m < |cpts[i].sections| && HasCpu(cpts[i].sections[m].name) && Merged(cpts, |cpts|) <= image
    ensures IsCarried(cpts, i, cpts[i].sections[m], Written(cpts, |cpts|), image)
  {
    RelocatedIsCarried(cpts, i, cpts[i].sections[m], image);
    WrittenHas(cpts, |cpts|, i, m, Relocated(cpts, i, cpts[i].sections[m]));
  }

  lemma SharedSectionWritten(cpts: seq<Checkpoint>, sec: Section)
    requires cpts != [] && sec in cpts[|cpts| - 1].sections && Shared(sec)
    ensures sec in Written(cpts, |cpts|)
  {
    var last := |cpts| - 1;
    var m :| 0 <= m < |cpts[last].sections| && cpts[last].sections[m] == sec;
    WrittenHas(cpts, |cpts|, last, m, sec);
  }

  lemma WrittenIsMerged(cpts: seq<Checkpoint>, image: seq<byte>)
    requires Merged(cpts, |cpts|) <= image
    ensures ConfigurationMerged(cpts, Written(cpts, |cpts|), image)
  {
    var written := Written(cpts, |cpts|);
    forall i, m | 0 <= i < |cpts| && 0 <= m < |cpts[i].sections| && HasCpu(cpts[i].sections[m].name)
      ensures IsCarried(cpts, i, cpts[i].sections[m], written, image)
    {
      CpuSectionWritten(cpts, i, m, image);
    }
    if cpts != [] {
      forall sec | sec in cpts[|cpts| - 1].sections && Shared(sec) ensures sec in written {
        SharedSectionWritten(cpts, sec);
      }
    }
    forall out | out in written ensures HasSource(cpts, out, image) {
      var i, m := WrittenSource(cpts, |cpts|, out);
      SourceOf(cpts, i, m, out, image);
    }
  }

  lemma SourceOf(cpts: seq<Checkpoint>, i: nat, m: nat, out: Section, image: seq<byte>)
    requires i < |cpts| && m < |cpts[i].sections| && out in WrittenOne(cpts, i, cpts[i].sections[m])
    requires Merged(cpts, |cpts|) <= image
    ensures HasSource(cpts, out, image)
  {
    RelocatedIsCarried(cpts, i, cpts[i].sections[m], image);
    if HasCpu(cpts[i].sections[m].name) {
      assert FromCpu(cpts, i, m, out, image);
    }
  }

  /** What the loop over the checkpoints has collected from the first i. */
  ghost predicate Collected(cpts: seq<Checkpoint>, i: nat, sections: seq<Section>, image: seq<byte>, pagePtr: nat,
                            tick: int)
    requires i <= |cpts|
  {
    && sections == Written(cpts, i) && image == Merged(cpts, i)
    && pagePtr == PagesBefore(cpts, i) && LatestTick(cpts, i, tick)
  }

  /** The loop over the checkpoints: sections written, pages copied, the latest tick kept. */
  method MergeAll(cpts: seq<Checkpoint>) returns (sections: seq<Section>, image: seq<byte>, pagePtr: nat, maxTick: int)
    ensures Collected(cpts, |cpts|, sections, image, pagePtr, maxTick)
  {
    pagePtr, maxTick, image, sections := 0, 0, [], [];
    for i := 0 to |cpts|
      invariant Collected(cpts, i, sections, image, pagePtr, maxTick)
    {
      sections, image, pagePtr, maxTick := MergeOne(cpts, i, sections, image, pagePtr, maxTick);
    }
  }

  /** One pass of that loop. */
  method MergeOne(cpts: seq<Checkpoint>, i: nat, sections0: seq<Section>, image0: seq<byte>, pagePtr0: nat, tick0: int)
    returns (sections: seq<Section>, image: seq<byte>, pagePtr: nat, tick: int)
    requires i < |cpts| && Collected(cpts, i, sections0, image0, pagePtr0, tick0)
    ensures Collected(cpts, i + 1, sections, image, pagePtr, tick)
  {
    var written;
    written, tick := WriteSections(cpts, i, pagePtr0, tick0);
    LatestTickGrows(cpts, i, tick0);
    sections := sections0 + written;
    pagePtr := pagePtr0 + cpts[i].pagePtr;
    image := CopyPages(image0, cpts[i]);
  }

  /** aggregate(); None stands for the failure when there is no checkpoint at all. */
  method AggregateAll(cpts: seq<Checkpoint>, memorySize: int) returns (r: Option<Aggregate>)
    ensures r.None? <==> cpts == []
    ensures r.Some? ==> ConfigurationMerged(cpts, r.value.sections, r.value.image)
    ensures r.Some? && (forall i | 0 <= i < |cpts| :: NamesDiffer(cpts[i].sections)) ==> NamesDiffer(r.value.sections)
    ensures r.Some? ==>
              && r.value.sections == Written(cpts, |cpts|)
              && r.value.pagePtr == PagesBefore(cpts, |cpts|) && r.value.nextPid == |cpts|
              && LatestTick(cpts, |cpts|, r.value.curTick)
              && Merged(cpts, |cpts|) <= r.value.image
              && (forall k | |Merged(cpts, |cpts|)| <= k < |r.value.image| :: r.value.image[k] == '0' as int)
              && r.value.rangeSize
                   == (if memorySize <= Bytes(r.value.pagePtr) then Bytes(r.value.pagePtr) else RoundUp(memorySize))
              && (|r.value.image| == r.value.rangeSize <==> forall k | 0 <= k < |cpts| :: Full(cpts[k]))
  {
    if cpts == [] {
      return None;
    }
    var sections, image, pagePtr, maxTick := MergeAll(cpts);
    MergedNotLonger(cpts, |cpts|);
    if forall i | 0 <= i < |cpts| :: NamesDiffer(cpts[i].sections) {
      WrittenDistinct(cpts, |cpts|);
    }
    var padded, pages := Pad(image, pagePtr, memorySize);
    WrittenIsMerged(cpts, padded);
    return Some(Aggregate(sections, padded, pagePtr, Bytes(pages), |cpts|, maxTick));
  }
}
