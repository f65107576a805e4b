/** The execute/dispatch loop. The executor and the host environment are an arbitrary source of
    turns: each may change registers and guest memory as it likes before handing back. */
module RunLoop {
  import opened Words
  import opened Regions
  import opened FlatMemory
  import opened StubTable
  import opened Image
  import opened Loader
  import opened Relocation
  import opened StackLayout
  import opened LoadLayout
  import opened Imports
  import Dyld = BindStream

  type Registers = s: seq<u64> | |s| == 29 witness seq(29, i => 0)

  datatype Cpu = Cpu(x: Registers, fp: u64, lr: u64, sp: u64, pc: u64, nzcv: u64, tpidr: u64)

  datatype Event =
    | Syscall(imm: nat)
    | TrampolineCall(addr: u64)
    | Breakpoint(imm: nat)
    | Exited(code: int)
    | Fault(pc: u64)

  /** What servicing a call or a system call does to the guest, decided outside the loop. */
  datatype Reply = Reply(cpu: Cpu, regions: RegionMap, handled: bool, exit: Option<int>)

  /** One turn: the state in which the executor stops, why it stops, and the outside's reply. */
  datatype Turn = Turn(cpu: Cpu, regions: RegionMap, event: Event, reply: Reply)

  datatype Tables = Tables(trampolines: map<u64, string>, symbolStubs: map<string, u64>, lazyBinds: LazyTable)

  datatype State = State(cpu: Cpu, regions: RegionMap, exit: Option<int>)

  datatype Stop = ProcessExit(code: int) | MachineFault(pc: u64)

  const STUB_BINDER: string := "dyld_stub_binder"

  // ---- the loop as a transition function -----------------------------------------------------------------

  /** How the stub binder ends. */
  datatype BinderOutcome = UnreadableStack | NoLazyBind | UnresolvedSymbol | Bound(symbol: string, slot: u64, stub: u64)

  function BinderOutcomeOf(s: State, t: Tables): (b: BinderOutcome) {
    match ReadU64(s.regions, s.cpu.sp)
    case Err(_) => UnreadableStack
    case Ok(v) =>
      var offset := v % 0x1_0000_0000;
      if offset !in t.lazyBinds then NoLazyBind
      else
        var (symbol, slot) := t.lazyBinds[offset];
        if symbol !in t.symbolStubs then UnresolvedSymbol
        else Bound(symbol, slot, t.symbolStubs[symbol])
  }

  function Patched(rs: RegionMap, slot: u64, stub: u64): (rs': RegionMap) {
    match WriteU64(rs, slot, stub)
    case Ok(rs') => rs'
    case Err(_) => rs
  }

  /** `dyld_stub_binder`: on every failure return to the caller; otherwise patch the slot, pop
      the helper's frame and continue at the stub. */
  function Bind(s: State, t: Tables): (s': State) {
    match BinderOutcomeOf(s, t)
    case Bound(_, slot, stub) =>
      s.(regions := Patched(s.regions, slot, stub), cpu := s.cpu.(sp := Wrap(s.cpu.sp + 16), pc := stub))
    case _ => s.(cpu := s.cpu.(pc := s.cpu.lr))
  }

  /** `service_trampoline`. */
  function Service(s: State, t: Tables, addr: u64, reply: Reply): (s': State) {
    if addr !in t.trampolines then s.(cpu := s.cpu.(pc := s.cpu.lr))
    else if t.trampolines[addr] == STUB_BINDER then Bind(s, t)
    else
      var cpu := if reply.handled then reply.cpu else reply.cpu.(x := reply.cpu.x[0 := 0]);
      s.(cpu := cpu.(pc := cpu.lr), regions := reply.regions)
  }

  /** The state after a turn, and whether the loop ends with it. */
  function Take(s: State, t: Tables, turn: Turn): (r: (State, Option<Stop>)) {
    var here := s.(cpu := turn.cpu, regions := turn.regions);
    match turn.event
    case Syscall(_) =>
      var after := State(turn.reply.cpu, turn.reply.regions,
                         if turn.reply.exit.Some? then turn.reply.exit else s.exit);
      (after, if after.exit.Some? then Some(ProcessExit(after.exit.value)) else None)
    case TrampolineCall(addr) => (Service(here, t, addr, turn.reply), None)
    case Exited(code) => (here, Some(ProcessExit(code)))
    case Breakpoint(_) => (here, Some(ProcessExit(128 + 5)))
    case Fault(pc) => (here, Some(MachineFault(pc)))
  }

  /** The whole run; a script that ends is a fault. */
  function RunAll(s: State, t: Tables, turns: seq<Turn>): (r: (State, Stop))
    decreases |turns|
  {
    if turns == [] then (s, MachineFault(s.cpu.pc))
    else
      var (next, stop) := Take(s, t, turns[0]);
      if stop.Some? then (next, stop.value) else RunAll(next, t, turns[1..])
  }

  // ---- the machine object ------------------------------------------------------------------------------------

  class Machine {
    var cpu: Cpu
    var regions: RegionMap
    var exit: Option<int>
    const trampolines: map<u64, string>
    const symbolStubs: map<string, u64>
    const lazyBinds: LazyTable

    function View(): State
      reads this
    {
      State(cpu, regions, exit)
    }

    function TablesView(): Tables {
      Tables(trampolines, symbolStubs, lazyBinds)
    }

    constructor (cpu: Cpu, regions: RegionMap, t: Tables)
      ensures View() == State(cpu, regions, None) && TablesView() == t
    {
      this.cpu, this.regions, exit := cpu, regions, None;
      trampolines, symbolStubs, lazyBinds := t.trampolines, t.symbolStubs, t.lazyBinds;
    }

    method DyldStubBinder()
      modifies this
      ensures View() == Bind(old(View()), TablesView())
    {
      hide ReadU64, WriteU64;
      var word := ReadU64(regions, cpu.sp);
      if word.Err? {
        cpu := cpu.(pc := cpu.lr);
        return;
      }
      var lazyOffset := word.value % 0x1_0000_0000;
      if lazyOffset !in lazyBinds {
        cpu := cpu.(pc := cpu.lr);
        return;
      }
      var (symbol, slot) := lazyBinds[lazyOffset];
      if symbol !in symbolStubs {
        cpu := cpu.(pc := cpu.lr);
        return;
      }
      var resolved := symbolStubs[symbol];
      var written := WriteU64(regions, slot, resolved);
      if written.Ok? {
        regions := written.value;
      }
      cpu := cpu.(sp := Wrap(cpu.sp + 16), pc := resolved);
    }

    method ServiceTrampoline(addr: u64, reply: Reply)
      modifies this
      ensures View() == Service(old(View()), TablesView(), addr, reply)
    {
      if addr !in trampolines {
        cpu := cpu.(pc := cpu.lr);
        return;
      }
      if trampolines[addr] == STUB_BINDER {
        DyldStubBinder();
        return;
      }
      cpu, regions := reply.cpu, reply.regions;
      if !reply.handled {
        cpu := cpu.(x := cpu.x[0 := 0]);
      }
      cpu := cpu.(pc := cpu.lr);
    }

    /** `run`. */
    method Run(turns: seq<Turn>) returns (stop: Stop)
      modifies this
      ensures (View(), stop) == RunAll(old(View()), TablesView(), turns)
    {
      hide Service;
      var i := 0;
      assert turns[0..] == turns;
      while i < |turns|
        invariant 0 <= i <= |turns|
        invariant RunAll(View(), TablesView(), turns[i..]) == RunAll(old(View()), TablesView(), turns)
      {
        var turn := turns[i];
        assert turns[i..][1..] == turns[i + 1..];
        i := i + 1;
        cpu, regions := turn.cpu, turn.regions;
        match turn.event {
          case Syscall(_) =>
            cpu, regions := turn.reply.cpu, turn.reply.regions;
            if turn.reply.exit.Some? { exit := turn.reply.exit; }
            if exit.Some? { return ProcessExit(exit.value); }
          case TrampolineCall(addr) => ServiceTrampoline(addr, turn.reply);
          case Exited(code) => return ProcessExit(code);
          case Breakpoint(_) => return ProcessExit(128 + 5);
          case Fault(pc) => return MachineFault(pc);
        }
      }
      assert turns[i..] == [];
      stop := MachineFault(cpu.pc);
    }
  }

  // ---- what the binder does -----------------------------------------------------------------------------------------

  /** The offset on the stack names a lazy bind whose symbol has a stub. */
  ghost predicate CanBind(s: State, t: Tables) {
    && InOneRegion(s.regions, s.cpu.sp, 8, READ)
    && var o := Word(s.regions, s.cpu.sp) % 0x1_0000_0000;
       o in t.lazyBinds && t.lazyBinds[o].0 in t.symbolStubs
  }

  /** When the offset on the stack names a lazy bind whose symbol has a stub, the binder pops two words and continues
      at the stub. The slot, if it can be written, holds the stub afterwards, and no other byte changes. */
  lemma {:induction false} BinderPatches(s: State, t: Tables)
    requires Ordered(s.regions) && CanBind(s, t)
    ensures var o, s' := Word(s.regions, s.cpu.sp) % 0x1_0000_0000, Bind(s, t);
            var (symbol, slot) := t.lazyBinds[o];
            && s'.cpu == s.cpu.(sp := (s.cpu.sp + 16) % 0x1_0000_0000_0000_0000, pc := t.symbolStubs[symbol])
            && s'.exit == s.exit && Ordered(s'.regions) && SameFrame(s.regions, s'.regions)
            && (InOneRegion(s.regions, slot, 8, WRITE) ==> Word(s'.regions, slot) == t.symbolStubs[symbol])
            && (forall a: int :: !(slot <= a < slot + 8) ==> ByteAt(s'.regions, a) == ByteAt(s.regions, a))
            && (!InOneRegion(s.regions, slot, 8, WRITE) ==> s'.regions == s.regions)
  {
    hide Ordered, InOneRegion, Word, ByteAt, ReadU64, WriteU64, SameFrame;
    CanRead(s.regions, s.cpu.sp);
    var (symbol, slot) := t.lazyBinds[Word(s.regions, s.cpu.sp) % 0x1_0000_0000];
    CanWrite(s.regions, slot, t.symbolStubs[symbol]);
    SameFrameSelf(s.regions);
    if WriteU64(s.regions, slot, t.symbolStubs[symbol]).Ok? {
      StoreWord(s.regions, slot, t.symbolStubs[symbol]);
    }
  }

  /** On each failure (an unreadable stack, an unknown offset, a symbol without a stub) it returns to its caller and
      touches nothing else. */
  lemma {:induction false} BinderGivesUp(s: State, t: Tables)
    requires Ordered(s.regions) && !CanBind(s, t)
    ensures Bind(s, t) == s.(cpu := s.cpu.(pc := s.cpu.lr))
  {
    hide Ordered, InOneRegion, Word, ReadU64;
    CanRead(s.regions, s.cpu.sp);
  }

  /** An address that is no stub returns to the caller, the binder's stub binds, and any other stub is the
      environment's, which returns to the caller with 0 if it does not know the call. */
  lemma {:induction false} ServiceIs(s: State, t: Tables, addr: u64, reply: Reply)
    ensures addr !in t.trampolines ==> Service(s, t, addr, reply) == s.(cpu := s.cpu.(pc := s.cpu.lr))
    ensures addr in t.trampolines && t.trampolines[addr] == "dyld_stub_binder" ==>
              Service(s, t, addr, reply) == Bind(s, t)
    ensures addr in t.trampolines && t.trampolines[addr] != "dyld_stub_binder" ==>
              var s' := Service(s, t, addr, reply);
              && s'.regions == reply.regions && s'.exit == s.exit && s'.cpu.pc == reply.cpu.lr
              && s'.cpu == reply.cpu.(pc := reply.cpu.lr, x := s'.cpu.x)
              && s'.cpu.x == if reply.handled then reply.cpu.x else [0] + reply.cpu.x[1..]
  {
    hide Bind;
  }

  // ---- what a run returns -------------------------------------------------------------------------------------------

  /** The exit code that stands after the first `n` turns: the last one a system call asked for. */
  function Pending(exit: Option<int>, turns: seq<Turn>, n: nat): (code: Option<int>)
    requires n <= |turns|
  {
    if n == 0 then exit
    else if turns[n - 1].event.Syscall? && turns[n - 1].reply.exit.Some? then turns[n - 1].reply.exit
    else Pending(exit, turns, n - 1)
  }

  /** A run ends after a system call once an exit is pending, and at an exit, a breakpoint or a fault. */
  predicate EndsAt(exit: Option<int>, turns: seq<Turn>, i: nat)
    requires i < |turns|
  {
    match turns[i].event
    case Syscall(_) => Pending(exit, turns, i + 1).Some?
    case TrampolineCall(_) => false
    case _ => true
  }

  lemma {:induction false} PendingShifts(exit: Option<int>, turns: seq<Turn>, n: nat)
    requires n < |turns|
    ensures Pending(exit, turns, n + 1) == Pending(Pending(exit, turns, 1), turns[1..], n)
    decreases n
  {
    if n > 0 {
      PendingShifts(exit, turns, n - 1);
      assert turns[1..][n - 1] == turns[n];
    }
  }

  lemma {:induction false} EndsShifts(exit: Option<int>, turns: seq<Turn>, i: nat)
    requires i + 1 < |turns|
    ensures EndsAt(exit, turns, i + 1) <==> EndsAt(Pending(exit, turns, 1), turns[1..], i)
  {
    hide Pending;
    PendingShifts(exit, turns, i + 1);
    assert turns[1..][i] == turns[i + 1];
  }

  /** One turn that does not end the run leaves what it says and its exit pending. */
  lemma {:induction false} TurnGoesOn(s: State, t: Tables, turns: seq<Turn>)
    requires turns != [] && !EndsAt(s.exit, turns, 0)
    ensures Take(s, t, turns[0]).1.None? && Take(s, t, turns[0]).0.exit == Pending(s.exit, turns, 1)
  {
    hide BinderOutcomeOf, Patched;
    assert Pending(s.exit, turns, 0) == s.exit;
  }

  lemma {:induction false} TurnEnds(s: State, t: Tables, turns: seq<Turn>)
    requires turns != [] && EndsAt(s.exit, turns, 0)
    ensures Take(s, t, turns[0]) == (StateAt(turns[0], Pending(s.exit, turns, 1)), Some(StopAt(s.exit, turns, 0)))
  {
    hide BinderOutcomeOf, Patched;
    assert Pending(s.exit, turns, 0) == s.exit;
  }

  /** What the machine is left as by a turn that ends the run. */
  function StateAt(turn: Turn, exit: Option<int>): State {
    if turn.event.Syscall? then State(turn.reply.cpu, turn.reply.regions, exit) else State(turn.cpu, turn.regions, exit)
  }

  /** What a run that ends at turn `i` returns. */
  function StopAt(exit: Option<int>, turns: seq<Turn>, i: nat): Stop
    requires i < |turns| && EndsAt(exit, turns, i)
  {
    match turns[i].event
    case Syscall(_) => ProcessExit(Pending(exit, turns, i + 1).value)
    case Exited(code) => ProcessExit(code)
    case Breakpoint(_) => ProcessExit(133)
    case Fault(pc) => MachineFault(pc)
  }

  /** The first turn that ends the run decides what it returns and the state it leaves; what comes after does not
      matter. */
  lemma {:induction false} RunReturns(s: State, t: Tables, turns: seq<Turn>, i: nat)
    requires i < |turns| && EndsAt(s.exit, turns, i) && forall k :: 0 <= k < i ==> !EndsAt(s.exit, turns, k)
    ensures RunAll(s, t, turns)
            == (StateAt(turns[i], Pending(s.exit, turns, i + 1)), StopAt(s.exit, turns, i))
    decreases i
  {
    hide Take, Pending, StateAt;
    if i == 0 {
      TurnEnds(s, t, turns);
    } else {
      TurnGoesOn(s, t, turns);
      var next, rest := Take(s, t, turns[0]).0, turns[1..];
      EndsShifts(s.exit, turns, i - 1);
      PendingShifts(s.exit, turns, i);
      forall k | 0 <= k < i - 1
        ensures !EndsAt(next.exit, rest, k)
      {
        EndsShifts(s.exit, turns, k);
      }
      RunReturns(next, t, rest, i - 1);
    }
  }

  /** If no turn ends the run every turn is taken, and the script ends in a fault at the pc the last one left. */
  lemma {:induction false} RunTakesAll(s: State, t: Tables, turns: seq<Turn>)
    requires forall k :: 0 <= k < |turns| ==> !EndsAt(s.exit, turns, k)
    ensures var (end, stop) := RunAll(s, t, turns);
            && stop == MachineFault(end.cpu.pc)
            && (turns == [] ==> end == s)
            && (turns != [] ==>
                  var last, exit := turns[|turns| - 1], Pending(s.exit, turns, |turns|);
                  end == if last.event.TrampolineCall?
                         then Service(State(last.cpu, last.regions, exit), t, last.event.addr, last.reply)
                         else StateAt(last, exit))
    decreases |turns|
  {
    hide Pending, Service;
    if turns != [] {
      hide Take;
      TurnGoesOn(s, t, turns);
      var next, rest := Take(s, t, turns[0]).0, turns[1..];
      forall k | 0 <= k < |rest|
        ensures !EndsAt(next.exit, rest, k)
      {
        EndsShifts(s.exit, turns, k);
      }
      RunTakesAll(next, t, rest);
      if rest == [] {
        LastTurn(s, t, turns);
      } else {
        PendingShifts(s.exit, turns, |turns| - 1);
      }
    }
  }

  lemma {:induction false} LastTurn(s: State, t: Tables, turns: seq<Turn>)
    requires |turns| == 1 && !EndsAt(s.exit, turns, 0)
    ensures var last, exit := turns[0], Pending(s.exit, turns, 1);
            Take(s, t, last).0
            == if last.event.TrampolineCall?
               then Service(State(last.cpu, last.regions, exit), t, last.event.addr, last.reply)
               else StateAt(last, exit)
  {
    hide Service;
    assert Pending(s.exit, turns, 0) == s.exit;
  }

  // ---- what a loaded machine's tables promise -----------------------------------------------------------------

  function TablesOf(p: Process): Tables {
    Tables(p.trampolines, p.symbolStubs, p.lazyBinds)
  }

  /** Every lazy symbol has a stub, and every stub names its symbol. */
  ghost predicate Sound(t: Tables) {
    && (forall o :: o in t.lazyBinds ==> t.lazyBinds[o].0 in t.symbolStubs)
    && (forall s :: s in t.symbolStubs ==>
          t.symbolStubs[s] in t.trampolines && t.trampolines[t.symbolStubs[s]] == s)
  }

  /** The image's lazy entries name imported symbols: `Imports.LazyImported` of its two parsed streams. */
  ghost predicate LazyNamesImported(image: MachOImage, bytes: Buffer) {
    && BindRecords(image, bytes).Ok? && LazyRecords(image, bytes).Ok?
    && LazyImported(image.segments, LazyRecords(image, bytes).value, BindRecords(image, bytes).value)
  }

  /** The tables of a loaded process are sound exactly when every lazy entry the table keeps names an imported
      symbol; with room for the stubs, their names never clash. */
  lemma {:induction false} LoadedTablesAreSound(rs: RegionMap, image: MachOImage, bytes: Buffer, cfg: Layout)
    requires Ordered(rs) && Load(rs, image, bytes, cfg).Ok?
    requires StubsFit(cfg, |Load(rs, image, bytes, cfg).value.linked.records|)
    ensures Sound(TablesOf(Load(rs, image, bytes, cfg).value.process)) <==> LazyNamesImported(image, bytes)
  {
    hide Ordered, Link, Finish, StackFrame, LazyTableOf, LazyRecords, BindRecords, StubBytes, BoundSoFar, StubsFit,
         LazyImported;
    LinkBinds(rs, image, bytes, cfg);
    BoundIsBijective(Load(rs, image, bytes, cfg).value.linked, cfg);
    LazyBindingTotalIff(rs, image, bytes, cfg);
  }

  lemma {:induction false} BoundIsBijective(l: Linked, cfg: Layout)
    requires BoundSoFar(l.rebased, l.bound, l.records, l.placed.bases, |l.records|, cfg.trampolineBase, cfg.trampolineStride)
    ensures Bijective(l.bound.stubs)
  {
  }

  /** The outcomes of the binder over a run, one per stop at the binder's stub. */
  function Outcomes(s: State, t: Tables, turns: seq<Turn>): (r: seq<BinderOutcome>)
    decreases |turns|
  {
    if turns == [] then []
    else
      var turn := turns[0];
      var here := s.(cpu := turn.cpu, regions := turn.regions);
      var now := if turn.event.TrampolineCall? && turn.event.addr in t.trampolines
                    && t.trampolines[turn.event.addr] == STUB_BINDER
                 then [BinderOutcomeOf(here, t)] else [];
      var (next, stop) := Take(s, t, turn);
      if stop.Some? then now else now + Outcomes(next, t, turns[1..])
  }

  /** The symbol the loop offers the environment when it stops at `addr`. */
  function Named(t: Tables, addr: u64): Option<string> {
    if addr in t.trampolines then Some(t.trampolines[addr]) else None
  }

  /** What the binder may answer a machine with sound tables. */
  ghost predicate Resolves(t: Tables, b: BinderOutcome) {
    b != UnresolvedSymbol && (b.Bound? ==> Named(t, b.stub) == Some(b.symbol))
  }

  lemma {:induction false} SoundTablesResolve(s: State, t: Tables, turns: seq<Turn>)
    requires Sound(t)
    ensures forall b :: b in Outcomes(s, t, turns) ==> Resolves(t, b)
    decreases |turns|
  {
    hide ReadU64, Take;
    if turns != [] {
      SoundTablesResolve(Take(s, t, turns[0]).0, t, turns[1..]);
    }
  }

  /** Safety over whole runs of a loaded machine: whatever state it starts from and whatever the guest and
      the environment do, its binder never meets an unresolved symbol, and every stub it jumps to is the
      one at which the loop offers the environment the symbol that was asked for. */
  lemma {:induction false} BinderAlwaysResolves(rs: RegionMap, image: MachOImage, bytes: Buffer, cfg: Layout,
                                                s: State, turns: seq<Turn>)
    requires Ordered(rs) && Load(rs, image, bytes, cfg).Ok? && LazyNamesImported(image, bytes)
    requires StubsFit(cfg, |Load(rs, image, bytes, cfg).value.linked.records|)
    ensures var t := TablesOf(Load(rs, image, bytes, cfg).value.process);
            forall b :: b in Outcomes(s, t, turns) ==> Resolves(t, b)
  {
    hide Ordered, Load, LazyNamesImported, StubsFit, Outcomes, Resolves, Sound;
    LoadedTablesAreSound(rs, image, bytes, cfg);
    SoundTablesResolve(s, TablesOf(Load(rs, image, bytes, cfg).value.process), turns);
  }

  /** A stop at the binder's stub with nothing but `offset` on the stack. */
  function AskFor(binder: u64, offset: nat): (turn: Turn)
    requires offset < 0x1_0000_0000
  {
    var cpu := Cpu(seq(29, i => 0), 0, 0, PAGE_SIZE, 0, 0, 0);
    var rs := map[PAGE_SIZE := Region(PAGE_SIZE, RW, Stack, "stack", Le(offset, 8))];
    Turn(cpu, rs, TrampolineCall(binder), Reply(cpu, rs, false, None))
  }

  lemma {:induction false} AskReads(binder: u64, offset: nat)
    requires offset < 0x1_0000_0000
    ensures ReadU64(AskFor(binder, offset).regions, PAGE_SIZE) == Ok(offset)
  {
    hide Le, LeValue;
    var rs := AskFor(binder, offset).regions;
    assert Ordered(rs) && Inside(rs, PAGE_SIZE, PAGE_SIZE);
    NearestHolds(rs, PAGE_SIZE, PAGE_SIZE);
    Le64RoundTrip(offset);
    assert rs[PAGE_SIZE].data[0..8] == Le(offset, 8);
  }

  /** No run from any state ever meets an unresolved symbol. */
  ghost predicate NeverUnresolved(t: Tables) {
    forall s: State, turns: seq<Turn> :: UnresolvedSymbol !in Outcomes(s, t, turns)
  }

  /** A table with a symbol that has no stub is found out in one turn. */
  lemma {:induction false} AskedForMissing(t: Tables, binder: u64, o: nat)
    requires Named(t, binder) == Some(STUB_BINDER)
    requires o < 0x1_0000_0000 && o in t.lazyBinds && t.lazyBinds[o].0 !in t.symbolStubs
    ensures !NeverUnresolved(t)
  {
    hide ReadU64, Take;
    var turn := AskFor(binder, o);
    AskReads(binder, o);
    var s := State(turn.cpu, turn.regions, None);
    assert BinderOutcomeOf(s.(cpu := turn.cpu, regions := turn.regions), t) == UnresolvedSymbol;
    assert UnresolvedSymbol in Outcomes(s, t, [turn]);
  }

  /** For a loaded image that imports the binder: no run meets an unresolved symbol if and only if every lazy
      entry the table keeps names an imported symbol. */
  lemma {:induction false} NeverUnresolvedIff(rs: RegionMap, image: MachOImage, bytes: Buffer, cfg: Layout)
    requires Ordered(rs) && Load(rs, image, bytes, cfg).Ok?
    requires StubsFit(cfg, |Load(rs, image, bytes, cfg).value.linked.records|)
    requires STUB_BINDER in Load(rs, image, bytes, cfg).value.process.symbolStubs
    ensures NeverUnresolved(TablesOf(Load(rs, image, bytes, cfg).value.process)) <==> LazyNamesImported(image, bytes)
  {
    hide Ordered, Load, LazyImported, LazyRecords, BindRecords, StubsFit, Outcomes, NeverUnresolved;
    var p := Load(rs, image, bytes, cfg).value.process;
    var t := TablesOf(p);
    LazyBindingTotalIff(rs, image, bytes, cfg);
    if TotalTable(p) {
      ResolvesAlways(t);
    } else {
      var o :| o in p.lazyBinds && p.lazyBinds[o].0 !in p.symbolStubs;
      TableOffsetFits(rs, image, bytes, cfg, o);
      LoadedStubsName(rs, image, bytes, cfg);
      AskedForMissing(t, p.symbolStubs[STUB_BINDER], o);
    }
  }

  lemma {:induction false} ResolvesAlways(t: Tables)
    requires forall o :: o in t.lazyBinds ==> t.lazyBinds[o].0 in t.symbolStubs
    ensures NeverUnresolved(t)
  {
    hide Outcomes;
    forall s: State, turns: seq<Turn>
      ensures UnresolvedSymbol !in Outcomes(s, t, turns)
    {
      TotalNeverUnresolved(s, t, turns);
    }
  }

  lemma {:induction false} TotalNeverUnresolved(s: State, t: Tables, turns: seq<Turn>)
    requires forall o :: o in t.lazyBinds ==> t.lazyBinds[o].0 in t.symbolStubs
    ensures UnresolvedSymbol !in Outcomes(s, t, turns)
    decreases |turns|
  {
    hide ReadU64, Take;
    if turns != [] {
      TotalNeverUnresolved(Take(s, t, turns[0]).0, t, turns[1..]);
    }
  }

  lemma {:induction false} TableOffsetFits(rs: RegionMap, image: MachOImage, bytes: Buffer, cfg: Layout, o: nat)
    requires Load(rs, image, bytes, cfg).Ok? && o in Load(rs, image, bytes, cfg).value.process.lazyBinds
    ensures o < 0x1_0000_0000
  {
    hide Load, LazyRecords, BindRecords, LazyTableOf, Kept, BasesOf;
    LoadedTables(rs, image, bytes, cfg);
    var lazy, bases := LazyRecords(image, bytes).value, BasesOf(image.segments, cfg.slide);
    var i := LazyEntry(lazy, bases, |lazy|, o);
    KeptOffset(lazy, bases, o, i);
    LazyOffsetsFit(image, bytes, i);
  }

  lemma {:induction false} LoadedStubsName(rs: RegionMap, image: MachOImage, bytes: Buffer, cfg: Layout)
    requires Ordered(rs) && Load(rs, image, bytes, cfg).Ok?
    requires StubsFit(cfg, |Load(rs, image, bytes, cfg).value.linked.records|)
    ensures var p := Load(rs, image, bytes, cfg).value.process;
            forall s :: s in p.symbolStubs ==> Named(TablesOf(p), p.symbolStubs[s]) == Some(s)
  {
    hide Ordered, Link, Finish, StackFrame, LazyTableOf, LazyRecords, StubBytes, BoundSoFar, StubsFit;
    LinkBinds(rs, image, bytes, cfg);
    BoundIsBijective(Load(rs, image, bytes, cfg).value.linked, cfg);
  }

  /** The executor stops at `pc` with the state it was given, as it does on entering a stub. */
  predicate StopsAtOnce(s: State, turn: Turn) {
    turn.cpu == s.cpu && turn.regions == s.regions && turn.event == TrampolineCall(s.cpu.pc)
  }

  /** A successful bind is transparent: the next stop at its pc names the symbol the stub helper
      asked for, the helper's frame is popped, and every register but sp and pc is as it was. */
  lemma {:induction false} BindIsTransparent(s: State, t: Tables)
    requires Sound(t) && BinderOutcomeOf(s, t).Bound?
    ensures var s', b := Bind(s, t), BinderOutcomeOf(s, t);
            && Named(t, s'.cpu.pc) == Some(b.symbol)
            && s'.cpu.sp == Wrap(s.cpu.sp + 16)
            && s'.cpu == s.cpu.(sp := s'.cpu.sp, pc := s'.cpu.pc)
            && s'.exit == s.exit
  {
    hide ReadU64, WriteU64;
  }

  /** Two turns make one call: a stop at the binder's stub that binds, then the stop at the pc it
      chose. The environment's reply to the second decides the state, exactly as if the guest had
      called the symbol's stub directly with the frame popped. */
  lemma {:induction false} LazyCallReachesSymbol(s: State, t: Tables, first: Turn, second: Turn, rest: seq<Turn>)
    requires Sound(t) && s.exit.None?
    requires first.event.TrampolineCall? && Named(t, first.event.addr) == Some(STUB_BINDER)
    requires var here := s.(cpu := first.cpu, regions := first.regions);
             && BinderOutcomeOf(here, t).Bound? && BinderOutcomeOf(here, t).symbol != STUB_BINDER
             && StopsAtOnce(Bind(here, t), second)
    ensures var here := s.(cpu := first.cpu, regions := first.regions);
            var b := BinderOutcomeOf(here, t);
            && Named(t, second.event.addr) == Some(b.symbol)
            && RunAll(s, t, [first, second] + rest)
               == RunAll(Service(Bind(here, t), t, b.stub, second.reply), t, rest)
            && Service(Bind(here, t), t, b.stub, second.reply)
               == s.(cpu := (if second.reply.handled then second.reply.cpu
                             else second.reply.cpu.(x := second.reply.cpu.x[0 := 0])).(pc := second.reply.cpu.lr),
                     regions := second.reply.regions)
  {
    hide ReadU64, WriteU64, Patched;
    var here := s.(cpu := first.cpu, regions := first.regions);
    var turns := [first, second] + rest;
    assert turns[1..] == [second] + rest && ([second] + rest)[1..] == rest;
    BindIsTransparent(here, t);
    assert Take(s, t, first) == (Bind(here, t), None);
  }

  /** A pointer bound at load: a stop at the address the slot holds names the record's symbol. */
  lemma {:induction false} EagerCallReachesSymbol(
    rs: RegionMap, image: MachOImage, bytes: Buffer, cfg: Layout, j: nat
  )
    requires Ordered(rs) && Load(rs, image, bytes, cfg).Ok? && StackFits(cfg)
    requires var l := Load(rs, image, bytes, cfg).value.linked;
             && StubsFit(cfg, |l.records|) && j < |l.records| && l.records[j].addend == 0
             && Stores(l.rebased, l.records[j], l.placed.bases)
             && LastWriter(l.rebased, l.records, l.placed.bases, j, |l.records|)
    ensures var s := Load(rs, image, bytes, cfg).value;
            var rec := s.linked.records[j];
            Named(TablesOf(s.process), Word(s.finished.final, BindSlot(rec, s.linked.placed.bases).value)) == Some(rec.symbol)
  {
    hide Ordered, Load, StackFits, StubsFit, Stores, LastWriter, Word;
    ImportRoundTrip(rs, image, bytes, cfg, j);
  }

  // ---- slots that stay bound ------------------------------------------------------------------------------------

  /** Every lazy slot holds its symbol's stub. */
  ghost predicate SlotsBound(rs: RegionMap, t: Tables) {
    forall o :: o in t.lazyBinds && t.lazyBinds[o].0 in t.symbolStubs ==>
      Word(rs, t.lazyBinds[o].1) == t.symbolStubs[t.lazyBinds[o].0]
  }

  /** Storing a word that is already there changes nothing. */
  lemma {:induction false} RestoreWord(rs: RegionMap, a: u64, v: u64)
    requires Ordered(rs) && Word(rs, a) == v
    ensures Patched(rs, a, v) == rs
  {
    hide Ordered, Slice, Le, Word;
    if Slice(rs, a, 8, WRITE).Ok? {
      var (k, off) := Slice(rs, a, 8, WRITE).value;
      WordInRegion(rs, a, k, off, v);
      SpliceSame(rs[k].data, off, Le(v, 8));
      assert rs[k].(data := rs[k].data) == rs[k];
      assert rs[k := rs[k]] == rs;
    }
  }

  lemma {:induction false} WordInRegion(rs: RegionMap, a: u64, k: u64, off: nat, v: u64)
    requires Ordered(rs) && Word(rs, a) == v && Slice(rs, a, 8, WRITE) == Ok((k, off))
    ensures rs[k].data[off..off + 8] == Le(v, 8)
  {
    hide Le, LeValue, BytesAt;
    assert rs[k].base == k;
    RegionBytes(rs, k, off, 8);
    LeInverse(BytesAt(rs, a, 8));
  }

  lemma {:induction false} SpliceSame(data: seq<byte>, off: nat, patch: seq<byte>)
    requires off + |patch| <= |data| && data[off..off + |patch|] == patch
    ensures Spliced(data, off, patch) == data
  {
    assert data[..off] + data[off..off + |patch|] + data[off + |patch|..] == data;
  }

  /** While the lazy slots are bound, the binder leaves guest memory exactly as it finds it. */
  lemma {:induction false} BinderWritesNothing(s: State, t: Tables)
    requires Ordered(s.regions) && SlotsBound(s.regions, t)
    ensures Bind(s, t).regions == s.regions
  {
    hide Ordered, Word, ReadU64, Patched;
    if BinderOutcomeOf(s, t).Bound? {
      RestoreWord(s.regions, BinderOutcomeOf(s, t).slot, BinderOutcomeOf(s, t).stub);
    }
  }

  /** The outside leaves the bytes of the lazy slots alone. */
  ghost predicate LeavesSlots(before: RegionMap, after: RegionMap, t: Tables) {
    Ordered(after)
    && forall o :: o in t.lazyBinds ==> BytesAt(after, t.lazyBinds[o].1, 8) == BytesAt(before, t.lazyBinds[o].1, 8)
  }

  /** So does the outside at every turn of a run: the guest between the machine's memory and the stop, and
      the environment between the stop and its reply. Nothing is said of what the slots hold. */
  ghost predicate Respects(s: State, t: Tables, turns: seq<Turn>)
    decreases |turns|
  {
    turns != [] ==>
      && LeavesSlots(s.regions, turns[0].regions, t)
      && LeavesSlots(turns[0].regions, turns[0].reply.regions, t)
      && Respects(Take(s, t, turns[0]).0, t, turns[1..])
  }

  lemma {:induction false} LeftSlotsBound(before: RegionMap, after: RegionMap, t: Tables)
    requires SlotsBound(before, t) && LeavesSlots(before, after, t)
    ensures SlotsBound(after, t)
  {
    hide Ordered, BytesAt, LeValue;
    forall o | o in t.lazyBinds && t.lazyBinds[o].0 in t.symbolStubs
      ensures Word(after, t.lazyBinds[o].1) == t.symbolStubs[t.lazyBinds[o].0]
    {
      assert Word(before, t.lazyBinds[o].1) == t.symbolStubs[t.lazyBinds[o].0];
    }
  }

  /** One turn keeps the slots bound: the outside leaves them alone and the binder rewrites what is there. */
  lemma {:induction false} TurnKeepsSlots(s: State, t: Tables, turn: Turn)
    requires Ordered(s.regions) && SlotsBound(s.regions, t)
    requires LeavesSlots(s.regions, turn.regions, t) && LeavesSlots(turn.regions, turn.reply.regions, t)
    ensures var s' := Take(s, t, turn).0; Ordered(s'.regions) && SlotsBound(s'.regions, t)
  {
    hide SlotsBound, Bind;
    LeftSlotsBound(s.regions, turn.regions, t);
    LeftSlotsBound(turn.regions, turn.reply.regions, t);
    BinderWritesNothing(s.(cpu := turn.cpu, regions := turn.regions), t);
    hide Ordered, BytesAt;
  }

  /** Over every run that respects the lazy slots, bound slots stay bound. */
  lemma {:induction false} SlotsStayBound(s: State, t: Tables, turns: seq<Turn>)
    requires Ordered(s.regions) && SlotsBound(s.regions, t) && Respects(s, t, turns)
    ensures Ordered(RunAll(s, t, turns).0.regions) && SlotsBound(RunAll(s, t, turns).0.regions, t)
    decreases |turns|
  {
    hide Ordered, SlotsBound, LeavesSlots, Take;
    if turns != [] {
      TurnKeepsSlots(s, t, turns[0]);
      if Take(s, t, turns[0]).1.None? {
        SlotsStayBound(Take(s, t, turns[0]).0, t, turns[1..]);
      }
    }
  }

  /** Every lazy bind the table keeps is plain: its offset did not drift from the full parser's, it has no
      addend, its slot is writable and no later record stores there. */
  ghost predicate PlainLazyBinds(l: Linked, image: MachOImage, bytes: Buffer)
    requires LazyRecords(image, bytes).Ok?
  {
    var lazy, e := LazyRecords(image, bytes).value, EagerCount(image, bytes);
    forall i :: 0 <= i < |lazy| && Kept(lazy, l.placed.bases, |lazy|, lazy[i].offset, i) ==>
      && e + i < |l.records| && l.records[e + i].addend == 0
      && l.records[e + i].segOffset == lazy[i].segOffset
      && Stores(l.rebased, l.records[e + i], l.placed.bases)
      && LastWriter(l.rebased, l.records, l.placed.bases, e + i, |l.records|)
  }

  /** A loaded process starts with its lazy slots bound. */
  lemma {:induction false} LoadedSlotsAreBound(rs: RegionMap, image: MachOImage, bytes: Buffer, cfg: Layout)
    requires Ordered(rs) && Load(rs, image, bytes, cfg).Ok? && StackFits(cfg) && SimpleLazyStream(image, bytes)
    requires LazyRecords(image, bytes).Ok? && BindRecords(image, bytes).Ok?
    requires var l := Load(rs, image, bytes, cfg).value.linked;
             StubsFit(cfg, |l.records|) && PlainLazyBinds(l, image, bytes)
    ensures var s := Load(rs, image, bytes, cfg).value;
            Ordered(s.finished.final) && SlotsBound(s.finished.final, TablesOf(s.process))
  {
    hide Link, Finish, StackFits, SimpleLazyStream, StubsFit, LazyTableOf, LazyRecords, BindRecords, StackFrame, StubBytes,
         Ordered, Word, Stores, LastWriter, EagerCount, Kept;
    var s := Load(rs, image, bytes, cfg).value;
    var lazy := LazyRecords(image, bytes).value;
    FinalIsOrdered(rs, image, bytes, cfg);
    forall o | o in s.process.lazyBinds && s.process.lazyBinds[o].0 in s.process.symbolStubs
      ensures Word(s.finished.final, s.process.lazyBinds[o].1) == s.process.symbolStubs[s.process.lazyBinds[o].0]
    {
      var i := LazyEntry(lazy, s.linked.placed.bases, |lazy|, o);
      KeptOffset(lazy, s.linked.placed.bases, o, i);
      LazyPatchIsIdempotent(rs, image, bytes, cfg, o, i);
    }
  }

  lemma {:induction false} FinalIsOrdered(rs: RegionMap, image: MachOImage, bytes: Buffer, cfg: Layout)
    requires Ordered(rs) && Load(rs, image, bytes, cfg).Ok? && StackFits(cfg)
    ensures Ordered(Load(rs, image, bytes, cfg).value.finished.final)
  {
    hide Link, Finish, StackFits, Ordered, FrameHolds, At, ByteAt, Describe;
    LinkFrame(rs, image, bytes, cfg);
    FinishKeepsBytes(Load(rs, image, bytes, cfg).value.linked, image.segments, cfg);
  }

  /** From the load on: a machine that runs a loaded process keeps its lazy slots bound over every run in
      which the outside leaves them alone, so its binder never changes memory. */
  lemma {:induction false} LoadedMachineKeepsSlots(rs: RegionMap, image: MachOImage, bytes: Buffer, cfg: Layout,
                                                   s: State, turns: seq<Turn>)
    requires Ordered(rs) && Load(rs, image, bytes, cfg).Ok? && StackFits(cfg) && SimpleLazyStream(image, bytes)
    requires LazyRecords(image, bytes).Ok? && BindRecords(image, bytes).Ok?
    requires var l := Load(rs, image, bytes, cfg).value.linked;
             StubsFit(cfg, |l.records|) && PlainLazyBinds(l, image, bytes)
    requires s.regions == Load(rs, image, bytes, cfg).value.finished.final
    requires Respects(s, TablesOf(Load(rs, image, bytes, cfg).value.process), turns)
    ensures var t := TablesOf(Load(rs, image, bytes, cfg).value.process);
            var end := RunAll(s, t, turns).0;
            SlotsBound(end.regions, t) && Bind(end, t).regions == end.regions
  {
    hide Ordered, Load, StackFits, SimpleLazyStream, LazyRecords, BindRecords, StubsFit, PlainLazyBinds, SlotsBound,
         Respects, RunAll, Bind;
    var t := TablesOf(Load(rs, image, bytes, cfg).value.process);
    LoadedSlotsAreBound(rs, image, bytes, cfg);
    SlotsStayBound(s, t, turns);
    BinderWritesNothing(RunAll(s, t, turns).0, t);
  }
}
