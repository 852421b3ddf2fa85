/**
 Whole runs of page_map, pmm_alloc_frame and pmm_free_frame, with the calls that find no
 frame for a page table, the calls that halt the kernel and those that lose a page table.
 */
module PagingRuns {
  import opened Words
  import Frames
  import opened AddressSpace

  /** A call: map a page, take a frame, or give back a frame that was taken. */
  datatype Op = Map(r: Request) | Take | Give(frame: nat)

  /**
   The kernel runs, has halted in the page fault handler, has cleared a frame that was not its
   page table, or no longer finds one of its own tables.  Nothing is said of what it does then.
   */
  datatype Status = Running | Halted | Astray(frame: nat) | Lost

  /** Page tables and bitmap, the frames taken and not given back, and the status. */
  datatype Kernel = Kernel(s: State, owned: set<nat>, status: Status)

  /** What stays fixed: the number of frames, the kernel's own directory, all directories. */
  datatype Setting = Setting(total: nat, kd: nat, dirs: set<nat>)

  ghost predicate Allowed(k: Kernel, z: Setting, op: Op) {
    match op
    case Map(r) => r.pd in z.dirs && Proper(r)
    case Take => true
    case Give(f) => f in k.owned
  }

  ghost function MapCall(k: Kernel, z: Setting, r: Request): Kernel
    requires Proper(r)
  {
    match OutcomeOf(k.s, z.total, z.kd, r)
    case Works =>
      var s' := Mapped(k.s, z.total, r);
      var lost := CanMap(k.s, z.total, r) && Redirects(s'.mem, z.kd, z.dirs, r);
      Kernel(s', k.owned, if lost then Lost else Running)
    case Halts => Kernel(k.s.(used := k.s.used + {Frames.LowestFree(k.s.used, z.total)}), k.owned, Halted)
    case Strays(g) => Kernel(Strayed(k.s, z.total, r, g), k.owned, Astray(g))
  }

  ghost function Step(k: Kernel, z: Setting, op: Op): Kernel {
    var t := Frames.LowestFree(k.s.used, z.total);
    if k.status != Running then k
    else match op
      case Map(r) => if Proper(r) then MapCall(k, z, r) else k
      case Take => if t < z.total then Kernel(k.s.(used := k.s.used + {t}), k.owned + {t}, Running) else k
      case Give(f) => Kernel(k.s.(used := k.s.used - {f}), k.owned - {f}, Running)
  }

  ghost function Run(k: Kernel, z: Setting, ops: seq<Op>): Kernel
    decreases |ops|
  {
    if ops == [] then k else Run(Step(k, z, ops[0]), z, ops[1..])
  }

  ghost predicate RunAllowed(k: Kernel, z: Setting, ops: seq<Op>)
    decreases |ops|
  {
    ops == [] || (Allowed(k, z, ops[0]) && RunAllowed(Step(k, z, ops[0]), z, ops[1..]))
  }

  /** No directory and no page table is among the frames that may be given back. */
  ghost predicate OwnedApart(k: Kernel, z: Setting) {
    forall f :: f in k.owned ==> f in k.s.used && f < z.total && !Structure(k.s.mem, z.dirs, f)
  }

  /** Tables are separate until the kernel has strayed, and found by the kernel while it runs. */
  ghost predicate Inv(k: Kernel, z: Setting) {
    && (!k.status.Astray? ==> Sound(k.s, z.total, z.dirs))
    && (k.status == Running ==> Window(k.s.mem, z.kd, z.dirs, z.total) && OwnedApart(k, z))
  }

  // ---------------------------------------------------------------- single steps

  /** A larger set of frames in use keeps every structure. */
  lemma UseMore(s: State, total: nat, dirs: set<nat>, f: nat)
    requires Sound(s, total, dirs)
    ensures Sound(s.(used := s.used + {f}), total, dirs)
  {
  }

  lemma UseLess(s: State, total: nat, dirs: set<nat>, f: nat)
    requires Sound(s, total, dirs) && !Structure(s.mem, dirs, f)
    ensures Sound(s.(used := s.used - {f}), total, dirs)
  {
  }

  /** A frame that is free is no directory and no page table. */
  lemma FreeIsNoStructure(s: State, total: nat, dirs: set<nat>, f: nat)
    requires Sound(s, total, dirs) && f !in s.used
    ensures !Structure(s.mem, dirs, f)
  {
  }

  lemma MappedUsed(s: State, total: nat, r: Request)
    requires Proper(r)
    ensures s.used <= Mapped(s, total, r).used <= s.used + {Frames.LowestFree(s.used, total)}
    ensures CanMap(s, total, r) && !HasTable(s.mem, r.pd, r.page / ENTRIES) ==> Frames.LowestFree(s.used, total) < total
  {
  }

  /** A frame in use that is no structure stays none when a page is mapped. */
  lemma StaysApart(s: State, total: nat, dirs: set<nat>, r: Request, f: nat)
    requires Sound(s, total, dirs) && r.pd in dirs && Proper(r) && f in s.used && !Structure(s.mem, dirs, f)
    ensures !Structure(Mapped(s, total, r).mem, dirs, f)
  {
    hide Sound, IsTable, Mapped, HasTable;
    if IsTable(Mapped(s, total, r).mem, dirs, f) {
      MappedTables(s, total, dirs, r, f);
    }
  }

  lemma MapKeeps(k: Kernel, z: Setting, r: Request)
    requires Inv(k, z) && Allowed(k, z, Map(r)) && k.status == Running
    ensures Inv(MapCall(k, z, r), z)
  {
    hide Sound, Window, Structure, Mapped, OutcomeOf, Redirects, Strayed;
    MappedTranslates(k.s, z.total, z.dirs, r);
    MappedUsed(k.s, z.total, r);
    UseMore(k.s, z.total, z.dirs, Frames.LowestFree(k.s.used, z.total));
    if OutcomeOf(k.s, z.total, z.kd, r) == Works {
      WindowKeptIff(k.s, z.total, z.dirs, z.kd, r);
      forall f | f in k.owned ensures !Structure(Mapped(k.s, z.total, r).mem, z.dirs, f) {
        StaysApart(k.s, z.total, z.dirs, r, f);
      }
    }
  }

  lemma StepKeeps(k: Kernel, z: Setting, op: Op)
    requires Inv(k, z) && Allowed(k, z, op)
    ensures Inv(Step(k, z, op), z)
  {
    hide Sound, Window, Structure, MapCall;
    if k.status == Running {
      var t := Frames.LowestFree(k.s.used, z.total);
      match op
      case Map(r) => MapKeeps(k, z, r);
      case Take =>
        UseMore(k.s, z.total, z.dirs, t);
        if t < z.total { FreeIsNoStructure(k.s, z.total, z.dirs, t); }
      case Give(f) => UseLess(k.s, z.total, z.dirs, f);
    }
  }

  // ---------------------------------------------------------------- translation over runs

  /** The call takes effect: the kernel runs, and the table exists or a frame it finds is left for it. */
  ghost predicate GoesThrough(k: Kernel, z: Setting, r: Request) {
    k.status == Running && CanMap(k.s, z.total, r) && OutcomeOf(k.s, z.total, z.kd, r) == Works
  }

  /** What a run makes of the translation `cur` of page p in directory d: the last request that takes effect wins. */
  ghost function Wanted(cur: Option<nat>, k: Kernel, z: Setting, ops: seq<Op>, d: nat, p: nat): Option<nat>
    decreases |ops|
  {
    if ops == [] then cur
    else
      var op := ops[0];
      var hit := op.Map? && op.r.pd == d && op.r.page == p && GoesThrough(k, z, op.r);
      Wanted(if hit then Some(op.r.frame) else cur, Step(k, z, op), z, ops[1..], d, p)
  }

  lemma StepTranslates(k: Kernel, z: Setting, op: Op, d: nat, p: nat)
    requires Inv(k, z) && Allowed(k, z, op) && d in z.dirs && !Step(k, z, op).status.Astray?
    ensures Translate(Step(k, z, op).s.mem, d, p) ==
            if op.Map? && op.r.pd == d && op.r.page == p && GoesThrough(k, z, op.r) then Some(op.r.frame)
            else Translate(k.s.mem, d, p)
  {
    hide Translate, Window, Sound, Mapped, OutcomeOf, CanMap, Structure, Redirects, Strayed;
    if op.Map? && k.status == Running {
      MappedTranslates(k.s, z.total, z.dirs, op.r);
    }
  }

  lemma {:induction false} StaysAstray(k: Kernel, z: Setting, ops: seq<Op>)
    requires k.status != Running
    ensures Run(k, z, ops) == k
    decreases |ops|
  {
    if ops != [] {
      StaysAstray(k, z, ops[1..]);
    }
  }

  /**
   Over any run of the three calls, on any directories and whether or not frames run out, the
   page tables are the finite map that the requests which took effect describe, until a call
   strays.
   */
  lemma {:induction false} RunTranslates(k: Kernel, z: Setting, ops: seq<Op>, d: nat, p: nat)
    requires Inv(k, z) && RunAllowed(k, z, ops) && d in z.dirs
    ensures Inv(Run(k, z, ops), z)
    ensures !Run(k, z, ops).status.Astray? ==>
              Translate(Run(k, z, ops).s.mem, d, p) == Wanted(Translate(k.s.mem, d, p), k, z, ops, d, p)
    decreases |ops|
  {
    hide Inv, Allowed, Step, Translate, GoesThrough;
    if ops != [] {
      var k' := Step(k, z, ops[0]);
      StepKeeps(k, z, ops[0]);
      if k'.status.Astray? {
        StaysAstray(k', z, ops[1..]);
      } else {
        StepTranslates(k, z, ops[0], d, p);
      }
      RunTranslates(k', z, ops[1..], d, p);
    }
  }

  // ---------------------------------------------------------------- when the kernel halts

  /** In the kernel's directory exactly the pages below `reach` are present, each as itself. */
  ghost predicate Boundary(m: Memory, z: Setting, reach: nat) {
    forall f: nat :: f < z.total ==> Translate(m, z.kd, f) == if f < reach then Some(f) else None
  }

  /** In the kernel's directory the pages below `reach` are present. */
  ghost predicate PresentBelow(m: Memory, z: Setting, reach: nat) {
    forall f: nat :: f < z.total && f < reach ==> Translate(m, z.kd, f) != None
  }

  lemma StepPresent(k: Kernel, z: Setting, op: Op, reach: nat)
    requires Inv(k, z) && Allowed(k, z, op) && k.status == Running && PresentBelow(k.s.mem, z, reach)
    requires Step(k, z, op).status == Running
    ensures PresentBelow(Step(k, z, op).s.mem, z, reach)
  {
    hide Translate, Step, Sound, Structure;
    assert z.kd in z.dirs;
    forall f: nat | f < z.total && f < reach ensures Translate(Step(k, z, op).s.mem, z.kd, f) != None {
      StepTranslates(k, z, op, z.kd, f);
      assert Translate(k.s.mem, z.kd, f) != None;
    }
  }

  /** The frames from `reach` upwards are all in use, and none of them can be given back. */
  ghost predicate OutOfReachInUse(k: Kernel, z: Setting, reach: nat) {
    forall f: nat :: reach <= f < z.total ==> f in k.s.used && f !in k.owned
  }

  lemma StepSafe(k: Kernel, z: Setting, op: Op, reach: nat)
    requires Inv(k, z) && Allowed(k, z, op) && k.status == Running
    requires PresentBelow(k.s.mem, z, reach) && OutOfReachInUse(k, z, reach)
    ensures Step(k, z, op).status != Halted
    ensures Step(k, z, op).status == Running ==> OutOfReachInUse(Step(k, z, op), z, reach)
  {
    hide Sound, Window, Structure, Mapped, HasTable, Translate, Redirects, Strayed;
    var t := Frames.LowestFree(k.s.used, z.total);
    assert t < z.total ==> t < reach;
    if op.Map? {
      MappedUsed(k.s, z.total, op.r);
    }
  }

  /** If every frame without a page of its own is in use for good, no run halts the kernel. */
  lemma {:induction false} NeverHalts(k: Kernel, z: Setting, ops: seq<Op>, reach: nat)
    requires Inv(k, z) && RunAllowed(k, z, ops) && k.status == Running
    requires PresentBelow(k.s.mem, z, reach) && OutOfReachInUse(k, z, reach)
    ensures Run(k, z, ops).status != Halted
    decreases |ops|
  {
    hide Inv, Allowed, Step, PresentBelow, OutOfReachInUse;
    if ops != [] {
      var k' := Step(k, z, ops[0]);
      StepKeeps(k, z, ops[0]);
      StepSafe(k, z, ops[0], reach);
      if k'.status == Running {
        StepPresent(k, z, ops[0], reach);
        NeverHalts(k', z, ops[1..], reach);
      } else {
        StaysAstray(k', z, ops[1..]);
      }
    }
  }

  /** A run of the modelled calls that leaves the kernel halted. */
  ghost predicate HaltingRun(k: Kernel, z: Setting, ops: seq<Op>) {
    RunAllowed(k, z, ops) && Run(k, z, ops).status == Halted
  }

  lemma RunOne(k: Kernel, z: Setting, op: Op, ops: seq<Op>)
    ensures Run(k, z, [op] + ops) == Run(Step(k, z, op), z, ops)
    ensures RunAllowed(k, z, [op] + ops) <==> Allowed(k, z, op) && RunAllowed(Step(k, z, op), z, ops)
    ensures Run(k, z, []) == k && RunAllowed(k, z, [])
  {
    hide Allowed, Step;
    assert ([op] + ops)[1..] == ops && ([op] + ops)[0] == op;
  }

  /** Taking a frame raises the lowest free one. */
  lemma TakeRaises(used: set<nat>, total: nat)
    requires Frames.LowestFree(used, total) < total
    ensures Frames.LowestFree(used + {Frames.LowestFree(used, total)}, total) > Frames.LowestFree(used, total)
  {
  }

  /**
   Taking the free frames below p, then mapping a page without table, gives the page table
   frame p; what that call does is what the page of p is worth.
   */
  lemma {:induction false} TakeUpTo(k: Kernel, z: Setting, p: nat, r: Request) returns (ops: seq<Op>)
    requires Inv(k, z) && k.status == Running && p < z.total && p !in k.s.used
    requires Allowed(k, z, Map(r)) && !HasTable(k.s.mem, r.pd, r.page / ENTRIES)
    ensures RunAllowed(k, z, ops) && forall op :: op in ops ==> op == Take || op == Map(r)
    ensures match Translate(k.s.mem, z.kd, p)
            case None => Run(k, z, ops).status == Halted
            case Some(g) => g != p ==> Run(k, z, ops).status == Astray(g)
    decreases z.total - Frames.LowestFree(k.s.used, z.total)
  {
    hide Inv, HasTable, Translate, Strayed, Mapped, Redirects, RunAllowed, Run;
    var t := Frames.LowestFree(k.s.used, z.total);
    if t == p {
      ops := [Map(r)];
      assert ops == [Map(r)] + [];
      RunOne(k, z, Map(r), []);
      RunOne(Step(k, z, Map(r)), z, Map(r), []);
    } else {
      StepKeeps(k, z, Take);
      TakeRaises(k.s.used, z.total);
      var rest := TakeUpTo(Step(k, z, Take), z, p, r);
      RunOne(k, z, Take, rest);
      ops := [Take] + rest;
    }
  }

  /**
   Before any frame has been taken: some run halts the kernel exactly when a frame without a
   page of its own is free.
   */
  lemma HaltPossibleIff(k: Kernel, z: Setting, reach: nat, r: Request)
    requires Inv(k, z) && k.status == Running && k.owned == {} && Boundary(k.s.mem, z, reach)
    requires Allowed(k, z, Map(r)) && !HasTable(k.s.mem, r.pd, r.page / ENTRIES)
    ensures (exists ops :: HaltingRun(k, z, ops)) <==> exists f: nat :: reach <= f < z.total && f !in k.s.used
  {
    hide Inv, HasTable, Allowed, Run, RunAllowed, Translate;
    if f: nat :| reach <= f < z.total && f !in k.s.used {
      var ops := TakeUpTo(k, z, f, r);
      assert HaltingRun(k, z, ops);
    } else {
      forall ops ensures !HaltingRun(k, z, ops) {
        if RunAllowed(k, z, ops) {
          NeverHalts(k, z, ops, reach);
        }
      }
    }
  }

  // ---------------------------------------------------------------- requests for the kernel's own directory

  /** Frame p is in use for good: neither a page table or directory nor a frame that may be given back. */
  ghost predicate Fixed(k: Kernel, z: Setting, p: nat) {
    p in k.s.used && p !in k.owned && !Structure(k.s.mem, z.dirs, p)
  }

  /** A request that gives no kernel page of memory that may change hands another frame. */
  ghost predicate Careful(k: Kernel, z: Setting, op: Op) {
    op.Map? && op.r.pd == z.kd ==> op.r.page == op.r.frame || op.r.page >= z.total || Fixed(k, z, op.r.page)
  }

  ghost predicate CarefulRun(k: Kernel, z: Setting, ops: seq<Op>)
    decreases |ops|
  {
    ops == [] ||
    (Allowed(k, z, ops[0]) && Careful(k, z, ops[0]) && CarefulRun(Step(k, z, ops[0]), z, ops[1..]))
  }

  /** In the kernel's directory each page of memory means itself or nothing, except for frames in use for good. */
  ghost predicate Clean(k: Kernel, z: Setting) {
    forall p: nat :: p < z.total && !Fixed(k, z, p) ==>
      Translate(k.s.mem, z.kd, p) == None || Translate(k.s.mem, z.kd, p) == Some(p)
  }

  lemma FixedStays(k: Kernel, z: Setting, op: Op, p: nat)
    requires Inv(k, z) && Allowed(k, z, op) && Fixed(k, z, p) && !Step(k, z, op).status.Astray?
    ensures Fixed(Step(k, z, op), z, p)
  {
    hide Sound, Window, Structure, Mapped, OutcomeOf, Redirects, Strayed, CanMap;
    if k.status == Running && op.Map? {
      MappedUsed(k.s, z.total, op.r);
      StaysApart(k.s, z.total, z.dirs, op.r, p);
    }
  }

  /** On clean tables a careful call neither strays nor loses a table. */
  lemma CarefulWorks(k: Kernel, z: Setting, op: Op)
    requires Inv(k, z) && Allowed(k, z, op) && Careful(k, z, op) && Clean(k, z) && k.status == Running
    ensures Step(k, z, op).status == Running || Step(k, z, op).status == Halted
  {
    hide Sound, Mapped, HasTable, Translate, Strayed, IsTable;
    if op.Map? {
      var t := Frames.LowestFree(k.s.used, z.total);
      assert t < z.total ==> !Fixed(k, z, t);
      if OutcomeOf(k.s, z.total, z.kd, op.r) == Works && op.r.pd == z.kd && op.r.page != op.r.frame {
        NotRedirected(k, z, op.r);
      }
    }
  }

  lemma NotRedirected(k: Kernel, z: Setting, r: Request)
    requires Inv(k, z) && Allowed(k, z, Map(r)) && k.status == Running
    requires r.page >= z.total || Fixed(k, z, r.page)
    ensures !Structure(Mapped(k.s, z.total, r).mem, z.dirs, r.page)
  {
    hide Sound, Mapped, IsTable, HasTable;
    if r.page >= z.total {
      assert !Structure(k.s.mem, z.dirs, r.page);
      if IsTable(Mapped(k.s, z.total, r).mem, z.dirs, r.page) {
        MappedTables(k.s, z.total, z.dirs, r, r.page);
      }
    } else {
      StaysApart(k.s, z.total, z.dirs, r, r.page);
    }
  }

  lemma CleanStays(k: Kernel, z: Setting, op: Op)
    requires Inv(k, z) && Allowed(k, z, op) && Careful(k, z, op) && Clean(k, z) && k.status == Running
    requires Step(k, z, op).status == Running
    ensures Clean(Step(k, z, op), z)
  {
    hide Sound, Structure, Translate, Fixed, Step;
    var k' := Step(k, z, op);
    assert z.kd in z.dirs;
    forall p: nat | p < z.total && !Fixed(k', z, p)
      ensures Translate(k'.s.mem, z.kd, p) == None || Translate(k'.s.mem, z.kd, p) == Some(p)
    {
      StepTranslates(k, z, op, z.kd, p);
      if Fixed(k, z, p) { FixedStays(k, z, op, p); }
    }
  }

  /** On clean tables no run of careful calls strays or loses a table. */
  lemma {:induction false} CarefulRunWorks(k: Kernel, z: Setting, ops: seq<Op>)
    requires Inv(k, z) && Clean(k, z) && CarefulRun(k, z, ops) && k.status == Running
    ensures Run(k, z, ops).status == Running || Run(k, z, ops).status == Halted
    decreases |ops|
  {
    hide Inv, Clean, Careful, Allowed, Step;
    if ops != [] {
      var k' := Step(k, z, ops[0]);
      StepKeeps(k, z, ops[0]);
      CarefulWorks(k, z, ops[0]);
      if k'.status == Running {
        CleanStays(k, z, ops[0]);
        CarefulRunWorks(k', z, ops[1..]);
      } else {
        StaysAstray(k', z, ops[1..]);
      }
    }
  }

  /** A careful run that ends with the kernel astray or one of its tables lost. */
  ghost predicate FailingRun(k: Kernel, z: Setting, ops: seq<Op>) {
    CarefulRun(k, z, ops) && (Run(k, z, ops).status.Astray? || Run(k, z, ops).status == Lost)
  }

  lemma {:induction false} QuietIsCareful(k: Kernel, z: Setting, ops: seq<Op>)
    requires RunAllowed(k, z, ops)
    requires forall op :: op in ops && op.Map? && op.r.pd == z.kd ==> op.r.page == op.r.frame || op.r.page >= z.total
    ensures CarefulRun(k, z, ops)
    decreases |ops|
  {
    hide Allowed, Step, Fixed;
    if ops != [] {
      assert ops[0] in ops && forall op :: op in ops[1..] ==> op in ops;
      QuietIsCareful(Step(k, z, ops[0]), z, ops[1..]);
    }
  }

  /** A free frame whose page means another frame is one careful run away from going astray. */
  lemma FreeForeignFails(k: Kernel, z: Setting, p: nat, r: Request) returns (ops: seq<Op>)
    requires Inv(k, z) && k.status == Running && p < z.total && p !in k.s.used
    requires Translate(k.s.mem, z.kd, p).Some? && Translate(k.s.mem, z.kd, p) != Some(p)
    requires Allowed(k, z, Map(r)) && !HasTable(k.s.mem, r.pd, r.page / ENTRIES)
    requires r.page == r.frame || r.page >= z.total
    ensures FailingRun(k, z, ops)
  {
    hide Inv, HasTable, Allowed, Run, RunAllowed, Translate, CarefulRun;
    ops := TakeUpTo(k, z, p, r);
    QuietIsCareful(k, z, ops);
  }

  lemma OwnedForeignFails(k: Kernel, z: Setting, p: nat, r: Request) returns (ops: seq<Op>)
    requires Inv(k, z) && k.status == Running && p in k.owned
    requires Translate(k.s.mem, z.kd, p).Some? && Translate(k.s.mem, z.kd, p) != Some(p)
    requires Allowed(k, z, Map(r)) && !HasTable(k.s.mem, r.pd, r.page / ENTRIES)
    requires r.page == r.frame || r.page >= z.total
    ensures FailingRun(k, z, ops)
  {
    hide Sound, Window, HasTable, Translate, CarefulRun, Run, Structure;
    StepKeeps(k, z, Give(p));
    var rest := FreeForeignFails(Step(k, z, Give(p)), z, p, r);
    ops := [Give(p)] + rest;
    RunOne(k, z, Give(p), rest);
    CarefulOne(k, z, Give(p), rest);
  }

  lemma CarefulOne(k: Kernel, z: Setting, op: Op, ops: seq<Op>)
    requires Allowed(k, z, op) && Careful(k, z, op) && CarefulRun(Step(k, z, op), z, ops)
    ensures CarefulRun(k, z, [op] + ops)
  {
    hide Allowed, Step, Careful;
    assert ([op] + ops)[1..] == ops && ([op] + ops)[0] == op;
  }

  /**
   Giving a kernel page of memory another frame is harmless exactly when that frame is in use
   for good: otherwise some later run of careful calls strays or has lost a table already.
   `more` is any request whose table is missing.
   */
  lemma RemapHarmlessIff(k: Kernel, z: Setting, r: Request, more: Request)
    requires Inv(k, z) && Clean(k, z) && k.status == Running
    requires Allowed(k, z, Map(r)) && r.pd == z.kd && r.page < z.total && r.page != r.frame && GoesThrough(k, z, r)
    requires Allowed(k, z, Map(more)) && (more.page == more.frame || more.page >= z.total)
    requires !HasTable(Step(k, z, Map(r)).s.mem, more.pd, more.page / ENTRIES)
    ensures (forall ops :: !FailingRun(Step(k, z, Map(r)), z, ops)) <==> Fixed(k, z, r.page)
  {
    hide Inv, Clean, HasTable, Translate, CarefulRun, Run, Fixed, Step, GoesThrough;
    var k' := Step(k, z, Map(r));
    StepKeeps(k, z, Map(r));
    if Fixed(k, z, r.page) {
      FixedRemap(k, z, r);
      forall ops ensures !FailingRun(k', z, ops) {
        if CarefulRun(k', z, ops) { CarefulRunWorks(k', z, ops); }
      }
    } else {
      var ops := LooseRemap(k, z, r, more);
      assert FailingRun(k', z, ops);
    }
  }

  lemma FixedRemap(k: Kernel, z: Setting, r: Request)
    requires Inv(k, z) && Clean(k, z) && k.status == Running && Fixed(k, z, r.page)
    requires Allowed(k, z, Map(r)) && r.pd == z.kd && GoesThrough(k, z, r)
    ensures Step(k, z, Map(r)).status == Running && Clean(Step(k, z, Map(r)), z)
  {
    hide Inv, Clean, Fixed, OutcomeOf, Redirects, Mapped, Structure;
    CarefulWorks(k, z, Map(r));
    CleanStays(k, z, Map(r));
  }

  lemma LooseRemap(k: Kernel, z: Setting, r: Request, more: Request) returns (ops: seq<Op>)
    requires Inv(k, z) && k.status == Running && !Fixed(k, z, r.page)
    requires Allowed(k, z, Map(r)) && r.pd == z.kd && r.page < z.total && r.page != r.frame && GoesThrough(k, z, r)
    requires Allowed(k, z, Map(more)) && (more.page == more.frame || more.page >= z.total)
    requires !HasTable(Step(k, z, Map(r)).s.mem, more.pd, more.page / ENTRIES)
    ensures FailingRun(Step(k, z, Map(r)), z, ops)
  {
    hide Sound, Window, HasTable, Translate, Mapped, OutcomeOf, CanMap, Redirects, IsTable;
    var k' := Step(k, z, Map(r));
    StepKeeps(k, z, Map(r));
    StepTranslates(k, z, Map(r), z.kd, r.page);
    MappedUsed(k.s, z.total, r);
    if k'.status == Lost {
      ops := [];
    } else if r.page in k.owned {
      ops := OwnedForeignFails(k', z, r.page, more);
    } else {
      NotLostMeansFree(k, z, r);
      ops := FreeForeignFails(k', z, r.page, more);
    }
  }

  /** If the redirected page is no table afterwards, and its frame was neither fixed nor owned, the frame is free. */
  lemma NotLostMeansFree(k: Kernel, z: Setting, r: Request)
    requires Inv(k, z) && k.status == Running && !Fixed(k, z, r.page) && r.page !in k.owned
    requires Allowed(k, z, Map(r)) && r.pd == z.kd && r.page < z.total && r.page != r.frame && GoesThrough(k, z, r)
    requires Step(k, z, Map(r)).status == Running
    ensures r.page !in Step(k, z, Map(r)).s.used
  {
    hide Sound, Window, Translate;
    KeptTables(k.s, z.total, z.dirs, r, r.page);
  }
}
