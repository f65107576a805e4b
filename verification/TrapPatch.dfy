/** Running guest text natively: `svc #0x80` words are rewritten in place to a marked breakpoint,
    and the signal handler tells from the trapping word what the guest meant. */
module TrapPatch {
  import opened Words

  type insn = bv32

  const SVC_0x80: insn := 0xD400_1001
  const BRK_BASE: insn := 0xD420_0000
  const BRK_MASK: insn := 0xFFE0_001F
  const SYSCALL_MARKER: bv16 := 0x00A2

  function BrkEncode(imm: bv16): insn {
    BRK_BASE | ((imm as bv32) << 5)
  }

  predicate IsBrk(w: insn) {
    w & BRK_MASK == BRK_BASE
  }

  function BrkImm(w: insn): bv16 {
    ((w >> 5) & 0xFFFF) as bv16
  }

  // ---- patching ----------------------------------------------------------------------------------------------

  function PatchWord(w: insn): insn {
    if w == SVC_0x80 then BrkEncode(SYSCALL_MARKER) else w
  }

  /** The text after the first `n` words have been patched. */
  function Patched(code: seq<insn>, n: nat): (r: seq<insn>)
    requires n <= |code|
    ensures |r| == |code|
  {
    seq(|code|, i requires 0 <= i < |code| => if i < n then PatchWord(code[i]) else code[i])
  }

  /** `ios_emu_native_prepare_text`: `len` is in bytes, and only whole words are looked at. */
  method PrepareText(code: array<insn>, len: nat)
    requires len / 4 <= code.Length
    modifies code
    ensures code[..] == Patched(old(code[..]), len / 4)
  {
    hide PatchWord;
    for i := 0 to len / 4
      invariant forall k :: 0 <= k < code.Length ==> code[k] == if k < i then PatchWord(old(code[k])) else old(code[k])
    {
      if code[i] == SVC_0x80 {
        PatchesSvc();
        code[i] := BrkEncode(SYSCALL_MARKER);
      } else {
        KeepsOther(code[i]);
      }
    }
  }

  lemma PatchesSvc()
    ensures PatchWord(SVC_0x80) == BrkEncode(SYSCALL_MARKER)
  {
  }

  lemma KeepsOther(w: insn)
    requires w != SVC_0x80
    ensures PatchWord(w) == w
  {
  }

  /** Encoding a breakpoint and reading its number back. */
  lemma BrkRoundTrip(imm: bv16)
    ensures IsBrk(BrkEncode(imm)) && BrkImm(BrkEncode(imm)) == imm
  {
    BrkFields(imm as bv32);
  }

  lemma BrkFields(v: bv32)
    requires v <= 0xFFFF
    ensures (BRK_BASE | (v << 5)) & BRK_MASK == BRK_BASE && ((BRK_BASE | (v << 5)) >> 5) & 0xFFFF == v
  {
  }

  /** A breakpoint is its number: no two words share one. */
  lemma BrkIsItsImm(w: insn)
    requires IsBrk(w)
    ensures w == BrkEncode(BrkImm(w))
  {
    BrkBits(w);
    Narrow((w >> 5) & 0xFFFF);
  }

  lemma BrkBits(w: bv32)
    requires w & BRK_MASK == BRK_BASE
    ensures BRK_BASE | (((w >> 5) & 0xFFFF) << 5) == w && (w >> 5) & 0xFFFF <= 0xFFFF
  {
  }

  lemma Narrow(v: bv32)
    requires v <= 0xFFFF
    ensures (v as bv16) as bv32 == v
  {
  }

  lemma SvcIsNoBrk()
    ensures !IsBrk(SVC_0x80) && SVC_0x80 != BrkEncode(SYSCALL_MARKER)
  {
    BrkRoundTrip(SYSCALL_MARKER);
  }

  /** Patching removes every `svc #0x80` of the patched words, changes no other word, and doing it
      again changes nothing. */
  lemma {:induction false} PatchingIsClean(code: seq<insn>, n: nat)
    requires n <= |code|
    ensures var p := Patched(code, n);
            && (forall i :: 0 <= i < n ==> p[i] != SVC_0x80)
            && (forall i :: 0 <= i < |code| && (code[i] != SVC_0x80 || n <= i) ==> p[i] == code[i])
            && Patched(p, n) == p
  {
    SvcIsNoBrk();
    hide BrkEncode;
  }

  // ---- the trap handler ----------------------------------------------------------------------------------------

  /** The four signals the handler is installed for. */
  datatype Signal = Segv | Bus | Trap | Ill

  datatype Stop = Fault | Trampoline(addr: u64) | Syscall(imm: bv16) | Breakpoint(imm: bv16)

  /** What the handler makes of a signal at `pc`, and the program counter it resumes from. */
  function Classify(sig: Signal, pc: u64, w: insn, lo: u64, hi: u64): (r: (Stop, u64)) {
    if sig == Segv || sig == Bus then (Fault, pc)
    else if lo <= pc < hi then (Trampoline(pc), pc)
    else if IsBrk(w) then
      if BrkImm(w) == SYSCALL_MARKER then (Syscall(0x80), Wrap(pc + 4)) else (Breakpoint(BrkImm(w)), pc)
    else (Fault, pc)
  }

  /** The handler's shared state: the event, its operands and the saved program counter. */
  class TrapState {
    const lo: u64
    const hi: u64
    var stop: Stop
    var pc: u64

    constructor (lo: u64, hi: u64)
      ensures this.lo == lo && this.hi == hi
    {
      this.lo, this.hi, stop, pc := lo, hi, Fault, 0;
    }

    /** `trap_handler`, with the word that memory holds at the trapping address. */
    method Handle(sig: Signal, at: u64, w: insn)
      modifies this
      ensures (stop, pc) == Classify(sig, at, w, lo, hi)
    {
      pc := at;
      if sig == Segv || sig == Bus {
        stop := Fault;
        return;
      }
      if at >= lo && at < hi {
        stop := Trampoline(at);
        return;
      }
      if IsBrk(w) {
        var imm := BrkImm(w);
        if imm == SYSCALL_MARKER {
          stop := Syscall(0x80);
          pc := Wrap(at + 4);
        } else {
          stop := Breakpoint(imm);
        }
        return;
      }
      stop := Fault;
    }
  }

  // ---- simulation -------------------------------------------------------------------------------------------------

  /** What trapping on a word of the original text means: a system call continues after the word, a
      breakpoint reports its number, anything else is a fault. */
  function Meaning(w: insn, pc: u64): (Stop, u64) {
    if w == SVC_0x80 then (Syscall(0x80), Wrap(pc + 4))
    else if IsBrk(w) then (Breakpoint(BrkImm(w)), pc)
    else (Fault, pc)
  }

  lemma {:induction false} WordMeans(w: insn, sig: Signal, pc: u64, lo: u64, hi: u64)
    requires sig != Segv && sig != Bus && !(lo <= pc < hi)
    ensures Classify(sig, pc, PatchWord(w), lo, hi) == Meaning(w, pc) <==> w != BrkEncode(SYSCALL_MARKER)
  {
    BrkRoundTrip(SYSCALL_MARKER);
    SvcIsNoBrk();
    if IsBrk(w) { BrkIsItsImm(w); }
    hide BrkEncode, IsBrk, BrkImm;
  }

  /** Trap decoding reports what the original text meant at every patched word outside the stub
      range exactly when the original text holds none of the marker breakpoints there. */
  lemma {:induction false} DecodingSimulatesIff(code: seq<insn>, n: nat, base: u64, sig: Signal, lo: u64, hi: u64)
    requires n <= |code| && base + 4 * |code| <= TWO_64 && sig != Segv && sig != Bus
    ensures (forall i :: 0 <= i < n && !(lo <= base + 4 * i < hi) ==>
               Classify(sig, base + 4 * i, Patched(code, n)[i], lo, hi) == Meaning(code[i], base + 4 * i))
            <==> (forall i :: 0 <= i < n && !(lo <= base + 4 * i < hi) ==> code[i] != BrkEncode(SYSCALL_MARKER))
  {
    hide Classify, Meaning, BrkEncode, PatchWord;
    forall i | 0 <= i < n && !(lo <= base + 4 * i < hi)
      ensures Classify(sig, base + 4 * i, Patched(code, n)[i], lo, hi) == Meaning(code[i], base + 4 * i)
              <==> code[i] != BrkEncode(SYSCALL_MARKER)
    {
      WordMeans(code[i], sig, base + 4 * i, lo, hi);
    }
  }

  /** An access fault is reported where it happened, whatever is there; a trap inside the stub range is a call of
      exactly the stub at its address; a word that is no breakpoint is a fault. In none of these does the program
      counter move. */
  lemma HandlerIs(sig: Signal, pc: u64, w: insn, lo: u64, hi: u64)
    ensures sig in {Segv, Bus} ==> Classify(sig, pc, w, lo, hi) == (Fault, pc)
    ensures sig in {Trap, Ill} && lo <= pc < hi ==> Classify(sig, pc, w, lo, hi) == (Trampoline(pc), pc)
    ensures sig in {Trap, Ill} && !(lo <= pc < hi) && !IsBrk(w) ==> Classify(sig, pc, w, lo, hi) == (Fault, pc)
    ensures sig in {Trap, Ill} && !(lo <= pc < hi) && IsBrk(w) ==>
              Classify(sig, pc, w, lo, hi)
              == if BrkImm(w) == 0xA2 then (Syscall(0x80), (pc + 4) % 0x1_0000_0000_0000_0000)
                 else (Breakpoint(BrkImm(w)), pc)
  {
    hide IsBrk, BrkImm;
  }

  /** In a text without marker breakpoints, the handler reports a system call, and resumes after the
      word, exactly where the original text had `svc #0x80`. */
  lemma {:induction false} SyscallsAreSvcs(code: seq<insn>, n: nat, i: nat, base: u64, sig: Signal, lo: u64, hi: u64)
    requires i < n <= |code| && base + 4 * |code| <= TWO_64 && sig != Segv && sig != Bus
    requires forall k :: 0 <= k < n ==> code[k] != BrkEncode(SYSCALL_MARKER)
    requires !(lo <= base + 4 * i < hi)
    ensures var (stop, pc) := Classify(sig, base + 4 * i, Patched(code, n)[i], lo, hi);
            && (stop.Syscall? <==> code[i] == SVC_0x80)
            && (stop.Syscall? ==> pc == Wrap(base + 4 * i + 4))
            && (stop.Breakpoint? <==> IsBrk(code[i]))
            && (stop.Breakpoint? ==> stop.imm == BrkImm(code[i]) && pc == base + 4 * i)
  {
    SvcIsNoBrk();
    WordMeans(code[i], sig, base + 4 * i, lo, hi);
    hide Classify, BrkEncode, PatchWord, IsBrk, BrkImm;
  }

  /** The marker breakpoint itself is mistaken for a system call. */
  lemma MarkerIsMistaken(pc: u64)
    requires pc < 0x1000
    ensures var w := BrkEncode(SYSCALL_MARKER);
            && Classify(Trap, pc, PatchWord(w), 0x1000, 0x2000) == (Syscall(0x80), pc + 4)
            && Meaning(w, pc) == (Breakpoint(SYSCALL_MARKER), pc)
  {
    BrkRoundTrip(SYSCALL_MARKER);
    SvcIsNoBrk();
    WrapSmall(pc + 4);
    hide BrkEncode, IsBrk, BrkImm;
  }
}
