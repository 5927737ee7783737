/** The seccomp filter generator (`build_filter` in `sandbox.rs`) against a classic BPF interpreter. */
module Seccomp {
  import opened Bytes

  // linux/filter.h, linux/seccomp.h, linux/audit.h
  const LD_W_ABS: u16 := 0x20
  const JMP_JEQ_K: u16 := 0x15
  const RET_K: u16 := 0x06
  const RET_KILL_PROCESS: u32 := 0x80000000
  const RET_ALLOW: u32 := 0x7fff0000
  const NR_OFFSET: u32 := 0
  const ARCH_OFFSET: u32 := 4
  const AUDIT_ARCH_X86_64: u32 := 0xC000003E

  const MAX_ALLOWED: nat := 255

  datatype Insn = Insn(code: u16, jt: byte, jf: byte, k: u32)

  // ---- the machine ----

  /** The part of `struct seccomp_data` the filter may load from. */
  datatype Call = Call(nr: u32, arch: u32)

  datatype Outcome = Returned(action: u32) | RanOff | BadLoad | BadOpcode

  /** Runs from instruction `pc` with accumulator `acc`. Jumps are relative to the next instruction
      and only go forward, so every run ends. */
  function Exec(prog: seq<Insn>, pc: nat, acc: u32, call: Call): Outcome
    decreases |prog| - pc
  {
    if pc >= |prog| then RanOff
    else
      var i := prog[pc];
      if i.code == LD_W_ABS then
        if i.k == NR_OFFSET then Exec(prog, pc + 1, call.nr, call)
        else if i.k == ARCH_OFFSET then Exec(prog, pc + 1, call.arch, call)
        else BadLoad
      else if i.code == JMP_JEQ_K then
        Exec(prog, pc + 1 + (if acc == i.k then i.jt else i.jf) as nat, acc, call)
      else if i.code == RET_K then Returned(i.k)
      else BadOpcode
  }

  // ---- the compiler ----

  function Jump(allowed: seq<u32>, i: nat): Insn
    requires i < |allowed|
  {
    // The cast to u8 truncates.
    Insn(JMP_JEQ_K, (|allowed| - i) % 256, 0, allowed[i])
  }

  function Prologue(): seq<Insn>
  {
    [Insn(LD_W_ABS, 0, 0, ARCH_OFFSET),
     Insn(JMP_JEQ_K, 1, 0, AUDIT_ARCH_X86_64),
     Insn(RET_K, 0, 0, RET_KILL_PROCESS),
     Insn(LD_W_ABS, 0, 0, NR_OFFSET)]
  }

  function Jumps(allowed: seq<u32>, n: nat): (r: seq<Insn>)
    requires n <= |allowed|
    ensures |r| == n && forall i :: 0 <= i < n ==> r[i] == Jump(allowed, i)
  {
    if n == 0 then [] else Jumps(allowed, n - 1) + [Jump(allowed, n - 1)]
  }

  function Filter(allowed: seq<u32>): seq<Insn>
  {
    Prologue() + Jumps(allowed, |allowed|) +
    [Insn(RET_K, 0, 0, RET_KILL_PROCESS), Insn(RET_K, 0, 0, RET_ALLOW)]
  }

  /** What the whitelist means. */
  function Verdict(allowed: seq<u32>, call: Call): u32
  {
    if call.arch == AUDIT_ARCH_X86_64 && call.nr in allowed then RET_ALLOW else RET_KILL_PROCESS
  }

  /** A list the jump range cannot hold is refused (the assertion at the head of `build_filter`). */
  method BuildFilter(allowed: seq<u32>) returns (r: Option<seq<Insn>>)
    ensures r.None? <==> |allowed| > MAX_ALLOWED
    ensures r.Some? ==> r.value == Filter(allowed) && |r.value| == |allowed| + 6
    ensures r.Some? ==> forall call :: Exec(r.value, 0, 0, call) == Returned(Verdict(allowed, call))
  {
    hide Exec;
    if |allowed| > MAX_ALLOWED { return None; }
    var n := |allowed|;
    var f := [];
    f := f + [Insn(LD_W_ABS, 0, 0, ARCH_OFFSET)];
    f := f + [Insn(JMP_JEQ_K, 1, 0, AUDIT_ARCH_X86_64)];
    f := f + [Insn(RET_K, 0, 0, RET_KILL_PROCESS)];
    f := f + [Insn(LD_W_ABS, 0, 0, NR_OFFSET)];
    assert f == Prologue();
    for i := 0 to n
      invariant f == Prologue() + Jumps(allowed, i)
    {
      f := f + [Insn(JMP_JEQ_K, (n - i) % 256, 0, allowed[i])];
    }
    f := f + [Insn(RET_K, 0, 0, RET_KILL_PROCESS)];
    f := f + [Insn(RET_K, 0, 0, RET_ALLOW)];
    assert f == Filter(allowed);
    forall call ensures Exec(f, 0, 0, call) == Returned(Verdict(allowed, call)) {
      CompilerCorrect(allowed, call, 0);
    }
    r := Some(f);
  }

  lemma Layout(allowed: seq<u32>)
    ensures var f := Filter(allowed);
      && |f| == |allowed| + 6
      && f[..4] == Prologue()
      && (forall i :: 0 <= i < |allowed| ==> f[4 + i] == Jump(allowed, i))
      && f[4 + |allowed|] == Insn(RET_K, 0, 0, RET_KILL_PROCESS)
      && f[5 + |allowed|] == Insn(RET_K, 0, 0, RET_ALLOW)
  {
  }

  /** The program in the numbers of the kernel's headers. */
  lemma FilterWords(allowed: seq<u32>)
    ensures |allowed| <= 255 ==>
        var f, n := Filter(allowed), |allowed|;
        && |f| == n + 6
        && f[0] == Insn(0x20, 0, 0, 4) && f[1] == Insn(0x15, 1, 0, 0xC000003E)
        && f[2] == Insn(0x06, 0, 0, 0x80000000) && f[3] == Insn(0x20, 0, 0, 0)
        && (forall i :: 0 <= i < n ==> f[4 + i].code == 0x15 && f[4 + i].jt == n - i && f[4 + i].jf == 0 && f[4 + i].k == allowed[i])
        && f[4 + n] == Insn(0x06, 0, 0, 0x80000000) && f[5 + n] == Insn(0x06, 0, 0, 0x7fff0000)
  {
    Layout(allowed);
    var f := Filter(allowed);
    assert f[..4] == Prologue() && f[0] == f[..4][0] && f[1] == f[..4][1] && f[2] == f[..4][2] && f[3] == f[..4][3];
  }

  /** From the `i`-th comparison on, the rest of the list decides. */
  lemma {:induction false} Scan(allowed: seq<u32>, i: nat, call: Call)
    requires i <= |allowed| <= i + MAX_ALLOWED
    ensures Exec(Filter(allowed), 4 + i, call.nr, call) ==
            Returned(if call.nr in allowed[i..] then RET_ALLOW else RET_KILL_PROCESS)
    decreases |allowed| - i
  {
    hide Filter;
    hide Jumps;
    Layout(allowed);
    var f := Filter(allowed);
    if i < |allowed| {
      assert f[4 + i] == Jump(allowed, i);
      assert allowed[i..] == [allowed[i]] + allowed[i + 1..];
      Scan(allowed, i + 1, call);
      if call.nr == allowed[i] {
        assert 4 + i + 1 + (|allowed| - i) == 5 + |allowed|;
      }
    }
  }

  /** Running the generated program on any call, whatever the accumulator held, returns exactly the
      whitelist's verdict: it never runs off the end and never meets a bad instruction. */
  lemma CompilerCorrect(allowed: seq<u32>, call: Call, acc: u32)
    ensures |allowed| <= MAX_ALLOWED ==>
              Exec(Filter(allowed), 0, acc, call) == Returned(Verdict(allowed, call))
  {
    hide Filter;
    if |allowed| <= MAX_ALLOWED {
      Layout(allowed);
      var f := Filter(allowed);
      assert forall i :: 0 <= i < 4 ==> f[i] == f[..4][i];
      assert allowed[0..] == allowed;
      Scan(allowed, 0, call);
      assert Exec(f, 1, call.arch, call) == Exec(f, 0, acc, call);
      if call.arch == AUDIT_ARCH_X86_64 {
        assert Exec(f, 3, call.arch, call) == Exec(f, 1, call.arch, call);
      } else {
        assert Exec(f, 2, call.arch, call) == Exec(f, 1, call.arch, call);
      }
    }
  }

  /** Every jump lands inside the program; each taken whitelist jump lands on the ALLOW return. */
  lemma JumpsStayInside(allowed: seq<u32>, pc: nat)
    ensures
      var f := Filter(allowed);
      pc < |f| && f[pc].code == JMP_JEQ_K && |allowed| <= MAX_ALLOWED ==>
        && pc + 1 + f[pc].jf as nat < |f| && pc + 1 + f[pc].jt as nat < |f|
        && (pc >= 4 ==> f[pc + 1 + f[pc].jt as nat] == Insn(RET_K, 0, 0, RET_ALLOW))
  {
    hide Filter;
    hide Jumps;
    Layout(allowed);
    var f := Filter(allowed);
    if pc < 4 {
      assert f[pc] == f[..4][pc];
    } else if pc - 4 < |allowed| {
      assert f[4 + (pc - 4)] == Jump(allowed, pc - 4);
    } else if pc < |f| {
      assert f[pc].code == RET_K;
    }
  }

  // ---- the bound is needed ----

  /** Without the length check: with one entry more, the first jump distance truncates to zero, the
      match falls through, and the first call of the list is killed unless it is listed again. */
  lemma OneTooMany(allowed: seq<u32>, acc: u32)
    ensures |allowed| == MAX_ALLOWED + 1 ==>
        var call := Call(allowed[0], AUDIT_ARCH_X86_64);
        Exec(Filter(allowed), 0, acc, call) == Returned(Verdict(allowed, call)) <==> allowed[0] in allowed[1..]
  {
    hide Filter;
    hide Jumps;
    if |allowed| == MAX_ALLOWED + 1 {
      var call := Call(allowed[0], AUDIT_ARCH_X86_64);
      Layout(allowed);
      var f := Filter(allowed);
      assert forall i :: 0 <= i < 4 ==> f[i] == f[..4][i];
      assert Exec(f, 1, call.arch, call) == Exec(f, 0, acc, call);
      assert Exec(f, 3, call.arch, call) == Exec(f, 1, call.arch, call);
      assert Exec(f, 4, call.nr, call) == Exec(f, 3, call.arch, call);
      assert f[4 + 0] == Jump(allowed, 0);
      assert Exec(f, 5, call.nr, call) == Exec(f, 4, call.nr, call);
      Scan(allowed, 1, call);
    }
  }
}
