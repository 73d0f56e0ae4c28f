/**
 Whole runs of the memory manager: page faults, allocations, frees and device mappings in any
 order. Every usable frame is at all times exactly one of free, held by a client, or mapped
 by one demand page, and no two present pages share a frame.
 */
module MemoryRuns {
  import opened Words
  import opened Wrappers
  import opened Paging
  import opened Frames
  import opened MemoryMap
  import opened PagingSetup
  import M = Machine

  /** Page table, free frames, frames handed to clients, pages filled on demand. */
  datatype Sys = Sys(pt: seq<Word>, free: set<nat>, held: set<nat>, demand: set<nat>)

  datatype Event =
    | Fault(page: nat)
    | Alloc
    | Free(frame: nat)
    | MapDevice(phyPage: nat, vpage: nat, flags: nat)

  ghost predicate Injective(pt: seq<Word>) {
    forall u, v :: 0 <= u < v < |pt| && Entry(pt[u]).Some? ==> Entry(pt[u]) != Entry(pt[v])
  }

  /** The boot mappings that stay: all but the two temporary ones. */
  function KernelFrame(v: nat): (r: Option<nat>)
    ensures r.Some? ==> r.value < 0x800
  {
    if v == 0x8 || v == 0x10 then None else BootFrame(v)
  }

  ghost predicate KernelPagesIntact(s: Sys)
    requires |s.pt| == PAGES
  {
    forall v :: 0 <= v < PAGES && KernelFrame(v).Some? ==>
      s.pt[v] == KernelFrame(v).value * 0x1000 + 7 && v !in s.demand
  }

  /** What happened to usable frame f. */
  ghost predicate MappedOnDemand(s: Sys, f: nat) {
    exists v :: v in s.demand && v < |s.pt| && Entry(s.pt[v]) == Some(f)
  }

  ghost predicate Inv(s: Sys, usable: set<nat>) {
    && |s.pt| == PAGES
    && Injective(s.pt)
    && KernelPagesIntact(s)
    && (forall f :: f in usable ==> f >= 0x800)
    && s.free <= usable && s.held <= usable && s.free !! s.held
    && (forall f :: f in s.held ==> f < PAGES)
    && (forall v :: v in s.demand ==>
         v < PAGES && s.pt[v] % 0x1000 == 7 && Entry(s.pt[v]).value in usable - s.free - s.held)
    && (forall v :: 0 <= v < PAGES && v !in s.demand && Entry(s.pt[v]).Some? ==> Entry(s.pt[v]).value !in usable)
    && (forall f :: f in usable && f !in s.free && f !in s.held ==> MappedOnDemand(s, f))
  }

  ghost function Step(s: Sys, e: Event): Sys
    requires |s.pt| == PAGES
    requires e.Fault? ==> e.page < PAGES
    requires e.MapDevice? ==> e.vpage < PAGES && e.flags < 0x100
  {
    match e
    case Fault(v) =>
      Sys(s.pt[v := M.MappedEntry(AllocAddress(s.free) / 0x1000, 7)], AfterAlloc(s.free), s.held, s.demand + {v})
    case Alloc =>
      s.(free := AfterAlloc(s.free), held := s.held + (if s.free == {} then {} else {Lowest(s.free).value}))
    case Free(f) =>
      s.(free := s.free + {f}, held := s.held - {f})
    case MapDevice(p, v, flags) =>
      s.(pt := s.pt[v := M.MappedEntry(p, flags)])
  }

  /** Some frame is free, and the lowest one lies below 4 GiB, where its 32-bit address is right. */
  ghost predicate FrameAvailable(free: set<nat>) {
    free != {} && Lowest(free).value < PAGES
  }

  /** A fault hits a page that is not present while a frame is available; so does an allocation,
      unless none is free; a client frees what it holds; a device window lies outside RAM and the
      other windows, on pages of its own. */
  ghost predicate Enabled(s: Sys, usable: set<nat>, e: Event)
    requires |s.pt| == PAGES
  {
    match e
    case Fault(v) => v < PAGES && Entry(s.pt[v]) == None && FrameAvailable(s.free)
    case Alloc => s.free == {} || FrameAvailable(s.free)
    case Free(f) => f in s.held
    case MapDevice(p, v, flags) =>
      && v < PAGES && flags < 0x100 && p < 0x1_0000_0000
      && KernelFrame(v) == None && v !in s.demand && !M.WindowPage(v)
      && p % PAGES !in usable
      && forall u :: 0 <= u < PAGES && u != v ==> Entry(s.pt[u]) != Some(p % PAGES)
  }

  ghost predicate EnabledRun(s: Sys, usable: set<nat>, es: seq<Event>)
    requires |s.pt| == PAGES
    decreases |es|
  {
    es == [] || (Enabled(s, usable, es[0]) && EnabledRun(Step(s, es[0]), usable, es[1..]))
  }

  ghost function Run(s: Sys, usable: set<nat>, es: seq<Event>): (r: Sys)
    requires |s.pt| == PAGES && EnabledRun(s, usable, es)
    ensures |r.pt| == PAGES
    decreases |es|
  {
    if es == [] then s else Run(Step(s, es[0]), usable, es[1..])
  }

  // ---------------------------------------------------------------- one step

  /** The frame a fault maps: above 4 GiB its number is cut off. */
  lemma FaultEntry(free: set<nat>)
    ensures Entry(M.MappedEntry(AllocAddress(free) / 0x1000, 7)) ==
      Some(if free == {} then 0 else Lowest(free).value % PAGES)
  {
    if free != {} { CutFrame(Lowest(free).value); }
    M.MappedEntryFrame(AllocAddress(free) / 0x1000, 7);
  }

  lemma CutFrame(f: nat)
    ensures f * 0x1000 % 0x1_0000_0000 / 0x1000 == f % 0x10_0000 < 0x10_0000
  {
    assert f * 0x1000 % 0x1_0000_0000 == f % 0x10_0000 * 0x1000;
  }

  /** A free frame is mapped nowhere. */
  lemma FreeFrameUnmapped(s: Sys, usable: set<nat>, f: nat)
    requires Inv(s, usable) && f in s.free
    ensures Unmapped(s.pt, f)
  {
  }

  /** After a fault every usable frame is still accounted for. */
  lemma FaultMapsFrame(s: Sys, s': Sys, usable: set<nat>, v: nat, f: nat)
    requires Inv(s, usable) && v < PAGES && Entry(s.pt[v]) == None
    requires |s'.pt| == PAGES && s'.pt == s.pt[v := s'.pt[v]] && Entry(s'.pt[v]) == Some(f)
    requires s'.demand == s.demand + {v} && s'.free == s.free - {f} && s'.held == s.held
    ensures forall g :: g in usable && g !in s'.free && g !in s'.held ==> MappedOnDemand(s', g)
  {
    forall g | g in usable && g !in s'.free && g !in s'.held ensures MappedOnDemand(s', g) {
      if g == f {
        assert v in s'.demand;
      } else {
        var u :| u in s.demand && u < |s.pt| && Entry(s.pt[u]) == Some(g);
        assert u in s'.demand && s'.pt[u] == s.pt[u];
      }
    }
  }

  lemma FaultKeepsInv(s: Sys, usable: set<nat>, v: nat)
    requires Inv(s, usable) && Enabled(s, usable, Fault(v))
    ensures Inv(Step(s, Fault(v)), usable)
  {
    var s' := Step(s, Fault(v));
    var f := Lowest(s.free).value;
    FaultEntry(s.free);
    FreeFrameUnmapped(s, usable, f);
    FreshFrameExactly(s.pt, v, s'.pt[v], f);
    FaultMapsFrame(s, s', usable, v, f);
  }

  lemma StepKeepsInv(s: Sys, usable: set<nat>, e: Event)
    requires Inv(s, usable) && Enabled(s, usable, e)
    ensures Inv(Step(s, e), usable)
  {
    match e
    case Fault(v) => FaultKeepsInv(s, usable, v);
    case Alloc => DemandUnchanged(s, Step(s, e));
    case Free(f) => DemandUnchanged(s, Step(s, e));
    case MapDevice(p, v, flags) => DeviceKeepsInv(s, usable, p, v, flags);
  }

  lemma DemandUnchanged(s: Sys, s': Sys)
    requires s.pt == s'.pt && s.demand == s'.demand
    ensures forall f :: MappedOnDemand(s, f) <==> MappedOnDemand(s', f)
  {
  }

  /** A new mapping of a frame that no other page shows. */
  lemma StaysInjective(pt: seq<Word>, v: nat, w: Word)
    requires Injective(pt) && v < |pt|
    requires forall u :: 0 <= u < |pt| && u != v ==> Entry(w) == None || Entry(pt[u]) != Entry(w)
    ensures Injective(pt[v := w])
  {
  }

  lemma DemandPagesKept(s: Sys, s': Sys, usable: set<nat>, v: nat)
    requires Inv(s, usable) && v < PAGES && v !in s.demand
    requires |s'.pt| == PAGES && s'.pt == s.pt[v := s'.pt[v]]
    requires s'.demand == s.demand && s'.free == s.free && s'.held == s.held
    ensures forall g :: g in usable && g !in s'.free && g !in s'.held ==> MappedOnDemand(s', g)
  {
    forall g | g in usable && g !in s'.free && g !in s'.held ensures MappedOnDemand(s', g) {
      var u :| u in s.demand && u < |s.pt| && Entry(s.pt[u]) == Some(g);
      assert u in s'.demand && s'.pt[u] == s.pt[u];
    }
  }

  lemma DeviceKeepsInv(s: Sys, usable: set<nat>, p: nat, v: nat, flags: nat)
    requires Inv(s, usable) && Enabled(s, usable, MapDevice(p, v, flags))
    ensures Inv(Step(s, MapDevice(p, v, flags)), usable)
  {
    var s' := Step(s, MapDevice(p, v, flags));
    M.MappedEntryFrame(p, flags);
    StaysInjective(s.pt, v, s'.pt[v]);
    DemandPagesKept(s, s', usable, v);
  }

  /** No page shows frame f. */
  ghost predicate Unmapped(pt: seq<Word>, f: nat) {
    forall u :: 0 <= u < |pt| ==> Entry(pt[u]) != Some(f)
  }

  /** A fault without a free frame maps frame 0, the bottom of the kernel stack, a second time;
      one that gets a frame from 4 GiB on maps the low frame of the same number modulo 2^20.
      Injectivity survives exactly when that frame was not mapped yet. */
  lemma FaultInjectiveExactly(s: Sys, usable: set<nat>, v: nat)
    requires Inv(s, usable) && v < PAGES && Entry(s.pt[v]) == None
    ensures Injective(Step(s, Fault(v)).pt) <==>
      s.free != {} && (FrameAvailable(s.free) || Unmapped(s.pt, Lowest(s.free).value % PAGES))
  {
    var pt' := Step(s, Fault(v)).pt;
    FaultEntry(s.free);
    if FrameAvailable(s.free) {
      FaultKeepsInv(s, usable, v);
    } else if s.free != {} {
      FreshFrameExactly(s.pt, v, pt'[v], Lowest(s.free).value % PAGES);
    } else {
      assert KernelFrame(0xffbf8) == Some(0);
      assert s.pt[0xffbf8] == 7;
      assert Entry(pt'[0xffbf8]) == Some(0) == Entry(pt'[v]);
      assert v < 0xffbf8 || 0xffbf8 < v;
    }
  }

  /** Mapping one more page keeps a table injective exactly when its frame was not mapped. */
  lemma FreshFrameExactly(pt: seq<Word>, v: nat, w: Word, f: nat)
    requires Injective(pt) && v < |pt| && Entry(pt[v]) == None && Entry(w) == Some(f)
    ensures Injective(pt[v := w]) <==> Unmapped(pt, f)
  {
    var pt' := pt[v := w];
    assert Entry(pt'[v]) == Some(f);
    if !Unmapped(pt, f) {
      var u :| 0 <= u < |pt| && Entry(pt[u]) == Some(f);
      assert Entry(pt'[u]) == Entry(pt'[v]);
      assert u < v || v < u;
    }
  }

  /** The whole invariant survives a fault exactly when a frame is available. */
  lemma FaultInvExactly(s: Sys, usable: set<nat>, v: nat)
    requires Inv(s, usable) && v < PAGES && Entry(s.pt[v]) == None
    ensures Inv(Step(s, Fault(v)), usable) <==> FrameAvailable(s.free)
  {
    var s' := Step(s, Fault(v));
    if FrameAvailable(s.free) {
      FaultKeepsInv(s, usable, v);
    } else if s.free == {} {
      FaultInjectiveExactly(s, usable, v);
    } else {
      assert !MappedOnDemand(s', Lowest(s.free).value);
    }
  }

  // ---------------------------------------------------------------- whole runs

  /** Safety over whole runs. */
  lemma {:induction false} RunKeepsInv(s: Sys, usable: set<nat>, es: seq<Event>)
    requires Inv(s, usable) && EnabledRun(s, usable, es)
    ensures Inv(Run(s, usable, es), usable)
    decreases |es|
  {
    if es != [] {
      StepKeepsInv(s, usable, es[0]);
      RunKeepsInv(Step(s, es[0]), usable, es[1..]);
    }
  }

  /** The frames of the given demand pages. */
  ghost function FramesOf(pt: seq<Word>, pages: set<nat>): set<nat>
    requires forall v :: v in pages ==> v < |pt| && Entry(pt[v]).Some?
  {
    set v | v in pages :: Entry(pt[v]).value
  }

  lemma {:induction false} FramesOfCount(pt: seq<Word>, pages: set<nat>)
    requires Injective(pt)
    requires forall v :: v in pages ==> v < |pt| && Entry(pt[v]).Some?
    ensures |FramesOf(pt, pages)| == |pages|
    decreases |pages|
  {
    if pages != {} {
      var v :| v in pages;
      FramesOfCount(pt, pages - {v});
      var f := Entry(pt[v]).value;
      var others := FramesOf(pt, pages - {v});
      assert f !in others by {
        forall u | u in pages - {v} ensures Entry(pt[u]).value != f {
          if u < v { assert Entry(pt[u]) != Entry(pt[v]); } else { assert Entry(pt[v]) != Entry(pt[u]); }
        }
      }
      assert FramesOf(pt, pages) == others + {f};
    }
  }

  /** Conservation at any one time: the usable frames are the free, the held and the mapped. */
  lemma FramesPartition(s: Sys, usable: set<nat>)
    requires Inv(s, usable)
    ensures usable == s.free + s.held + FramesOf(s.pt, s.demand)
    ensures |usable| == |s.free| + |s.held| + |s.demand|
  {
    var mapped := FramesOf(s.pt, s.demand);
    FramesOfCount(s.pt, s.demand);
    forall f | f in usable ensures f in s.free + s.held + mapped {
      if f !in s.free && f !in s.held {
        var v :| v in s.demand && v < |s.pt| && Entry(s.pt[v]) == Some(f);
      }
    }
    assert (s.free + s.held) !! mapped;
    assert |s.free + s.held| == |s.free| + |s.held|;
    assert |(s.free + s.held) + mapped| == |s.free + s.held| + |mapped|;
  }

  /** Conservation over runs: free plus outstanding frames is constant. */
  lemma RunConserves(s: Sys, usable: set<nat>, es: seq<Event>)
    requires Inv(s, usable) && EnabledRun(s, usable, es)
    ensures var s' := Run(s, usable, es);
      |s'.free| + |s'.held| + |s'.demand| == |s.free| + |s.held| + |s.demand|
  {
    RunKeepsInv(s, usable, es);
    FramesPartition(s, usable);
    FramesPartition(Run(s, usable, es), usable);
  }

  /** Stack, kernel, IDT, page-table and bitmap frames: whatever runs, the page that maps one
      is its boot page, and none of them is handed out. */
  lemma KernelFramesPrivate(s: Sys, usable: set<nat>, es: seq<Event>, v: nat, u: nat)
    requires Inv(s, usable) && EnabledRun(s, usable, es)
    requires v < PAGES && KernelFrame(v).Some?
    ensures Entry(Run(s, usable, es).pt[v]) == KernelFrame(v)
    ensures KernelFrame(v).value !in Run(s, usable, es).free + Run(s, usable, es).held
    ensures u < PAGES && Entry(Run(s, usable, es).pt[u]) == KernelFrame(v) ==> u == v
  {
    RunKeepsInv(s, usable, es);
    EntryOfFrame(KernelFrame(v).value);
  }

  /** In numbers: what the kernel's own pages show after any run. */
  lemma KernelPagesFixed(s: Sys, usable: set<nat>, es: seq<Event>)
    requires Inv(s, usable) && EnabledRun(s, usable, es)
    ensures var pt := Run(s, usable, es).pt;
      && (forall v :: 0xc0000 <= v < 0xc0010 ==> Entry(pt[v]) == Some(v - 0xc0000 + 0x20)) // kernel
      && Entry(pt[0xc0010]) == Some(0x10) // descriptor tables
      && Entry(pt[0xc0011]) == Some(0x7) // mode information
      && Entry(pt[0xc0012]) == Some(0xe) // memory map
      && (forall v :: 0xc0600 <= v < 0xc0800 ==> Entry(pt[v]) == Some(v - 0xc0600 + 0x600)) // bitmap
      && (forall v :: 0xffbf8 <= v < 0xffbff ==> Entry(pt[v]) == Some(v - 0xffbf8)) // stack
      && (forall v :: 0xffbff <= v < 0x10_0000 ==> Entry(pt[v]) == Some(v - 0xffbff + 0x1ff)) // page table
  {
    RunKeepsInv(s, usable, es);
    var pt := Run(s, usable, es).pt;
    forall v | 0 <= v < PAGES && KernelFrame(v).Some? ensures Entry(pt[v]) == KernelFrame(v) {
      EntryOfFrame(KernelFrame(v).value);
    }
  }

  /** Demand-mapped frames lie above the first 8 MiB, are not free, and are not shared. */
  lemma DemandFramesPrivate(s: Sys, usable: set<nat>, es: seq<Event>, v: nat, u: nat)
    requires Inv(s, usable) && EnabledRun(s, usable, es)
    requires v in Run(s, usable, es).demand
    ensures v < PAGES && Run(s, usable, es).pt[v] % 0x1000 == 7 && Entry(Run(s, usable, es).pt[v]).Some?
    ensures 0x800 <= Entry(Run(s, usable, es).pt[v]).value < PAGES
    ensures Entry(Run(s, usable, es).pt[v]).value !in Run(s, usable, es).free + Run(s, usable, es).held
    ensures u < PAGES && Entry(Run(s, usable, es).pt[u]) == Entry(Run(s, usable, es).pt[v]) ==> u == v
  {
    RunKeepsInv(s, usable, es);
  }

  // ---------------------------------------------------------------- the kernel runs like this

  /** Executes events on the kernel; its table and free set go where the model's go. */
  method Execute(k: M.Kernel, ghost s: Sys, ghost usable: set<nat>, es: seq<Event>)
    requires k.Valid() && k.PageTable() == s.pt && k.FreeSet() == s.free
    requires Inv(s, usable) && EnabledRun(s, usable, es)
    requires forall f :: f in usable ==> f < 32 * k.bitmapSize
    modifies k.mem, k`tlb
    ensures k.Valid()
    ensures k.PageTable() == Run(s, usable, es).pt && k.FreeSet() == Run(s, usable, es).free
    decreases |es|
  {
    if es == [] {
      return;
    }
    StepKeepsInv(s, usable, es[0]);
    ExecuteOne(k, s, usable, es[0]);
    Execute(k, Step(s, es[0]), usable, es[1..]);
  }

  method ExecuteOne(k: M.Kernel, ghost s: Sys, ghost usable: set<nat>, e: Event)
    requires k.Valid() && k.PageTable() == s.pt && k.FreeSet() == s.free
    requires Inv(s, usable) && Enabled(s, usable, e)
    requires forall f :: f in usable ==> f < 32 * k.bitmapSize
    modifies k.mem, k`tlb
    ensures k.Valid()
    ensures k.PageTable() == Step(s, e).pt && k.FreeSet() == Step(s, e).free
  {
    match e
    case Fault(v) =>
      WalkIsFlat(k.mem[..], v);
      PageNumber(0, v);
      k.PageFault(0x1000 * v, 0);
    case Alloc =>
      ghost var m0: Memory := k.mem[..];
      var addr := k.Alloc4kPhys();
      M.OnlyBitmapKeepsTable(m0, k.mem[..]);
    case Free(f) =>
      ReturnFrame(k, f);
    case MapDevice(p, v, flags) =>
      k.PageMmap(p, v, flags);
  }

  /** A client gives frame f back. */
  method ReturnFrame(k: M.Kernel, f: nat)
    requires k.Valid() && f < 32 * k.bitmapSize && f < PAGES
    modifies k.mem, k`tlb
    ensures k.Valid() && k.PageTable() == old(k.PageTable()) && k.FreeSet() == old(k.FreeSet()) + {f}
  {
    ghost var m0: Memory := k.mem[..];
    PageNumber(0, f);
    k.Free4kPhys(0x1000 * f);
    M.OnlyBitmapKeepsTable(m0, k.mem[..]);
  }

  /** From the loader's first store to a running kernel: the invariant holds at the start. */
  method StartKernel(mem: array<Word>, physBasePtr: Word, regions: seq<Region>) returns (k: M.Kernel)
    requires mem.Length == PHYS_WORDS
    requires forall i :: 0 <= i < |regions| ==> Acceptable(regions[i])
    requires forall i: nat :: i < 0x800 ==>
      (VideoFrame(physBasePtr, i) >= 0x800 && !Marked(regions, VideoFrame(physBasePtr, i)))
    modifies mem
    ensures fresh(k) && k.mem == mem && k.Valid()
    ensures forall p :: p in k.FreeSet() <==> Marked(regions, p)
    ensures Inv(Sys(k.PageTable(), k.FreeSet(), {}, {}), k.FreeSet())
    ensures forall f :: f in k.FreeSet() ==> f < 32 * k.bitmapSize
  {
    SetUpPaging(mem);
    BootTableServesKernel(mem[..]);
    k := new M.Kernel(mem);
    ghost var boot := k.PageTable();
    k.MapVideoMemory(physBasePtr);
    ghost var withVideo := k.PageTable();
    k.MmInit(regions);
    StartInv(boot, withVideo, k.PageTable(), physBasePtr, k.FreeSet());
  }

  /** The frame behind page i of video memory. */
  function VideoFrame(physBasePtr: Word, i: nat): nat {
    (physBasePtr / 0x1000 + i) % PAGES
  }

  lemma StartInv(boot: seq<Word>, withVideo: seq<Word>, pt: seq<Word>, physBasePtr: Word, free: set<nat>)
    requires IsBootTable(boot) && withVideo == M.VideoMapped(boot, physBasePtr / 0x1000, 0x800)
    requires pt == withVideo[0x8 := 0][0x10 := 0]
    requires forall f :: f in free ==> f >= 0x800
    requires forall i: nat :: i < 0x800 ==> VideoFrame(physBasePtr, i) >= 0x800 && VideoFrame(physBasePtr, i) !in free
    ensures Inv(Sys(pt, free, {}, {}), free)
  {
    forall v | 0 <= v < PAGES
      ensures Entry(pt[v]) == StartFrame(physBasePtr, v)
      ensures KernelFrame(v).Some? ==> pt[v] == KernelFrame(v).value * 0x1000 + 7
    {
      if 0xc1000 <= v < 0xc1800 {
        M.MappedEntryFrame(physBasePtr / 0x1000 + (v - 0xc1000), 7);
      } else if v != 0x8 && v != 0x10 && BootFrame(v).Some? {
        EntryOfFrame(BootFrame(v).value);
      }
    }
    forall u, v | 0 <= u < v < PAGES && Entry(pt[u]).Some? ensures Entry(pt[u]) != Entry(pt[v]) {
      StartFramesDiffer(physBasePtr, u, v);
    }
  }

  function StartFrame(physBasePtr: Word, v: nat): Option<nat> {
    if 0xc1000 <= v < 0xc1800 then Some(VideoFrame(physBasePtr, v - 0xc1000)) else KernelFrame(v)
  }

  lemma StartFramesDiffer(physBasePtr: Word, u: nat, v: nat)
    requires forall i: nat :: i < 0x800 ==> VideoFrame(physBasePtr, i) >= 0x800
    requires u < v < PAGES && StartFrame(physBasePtr, u).Some?
    ensures StartFrame(physBasePtr, u) != StartFrame(physBasePtr, v)
  {
  }
}
