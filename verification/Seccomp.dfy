/** The filter builder: a set of syscall numbers compiled to a classic BPF program, in bytes. */
module Seccomp {
  import opened Basics
  import opened Wrappers

  const RET_KILL_PROCESS := 0x80000000
  const RET_ALLOW := 0x7fff0000
  const AUDIT_ARCH_X86_64 := 0xC000003E

  /** Opcodes: load a word of the seccomp data, jump if equal, return. */
  const LD := 0x20
  const JEQ := 0x15
  const RET := 0x06

  type Byte = x: int | 0 <= x < 0x100
  type Word = x: int | 0 <= x < 0x1_0000_0000

  datatype Insn = Insn(code: int, jt: Byte, jf: Byte, k: Word)

  /** Go's conversion to uint8. */
  function ToByte(x: int): Byte {
    x % 0x100
  }

  // ---------- Bytes ----------

  /** Eight bytes, little-endian: 16-bit code, jt, jf, 32-bit k. */
  function Encode(i: Insn): (b: seq<Byte>)
    requires 0 <= i.code < 0x10000
    ensures |b| == 8
  {
    [i.code % 0x100, i.code / 0x100, i.jt, i.jf,
     i.k % 0x100, i.k / 0x100 % 0x100, i.k / 0x10000 % 0x100, i.k / 0x1000000]
  }

  function Decode(b: seq<Byte>): Insn
    requires |b| == 8
  {
    var code: int := b[0] as int + 0x100 * (b[1] as int);
    var k: int := b[4] as int + 0x100 * (b[5] as int) + 0x10000 * (b[6] as int) + 0x1000000 * (b[7] as int);
    Insn(code, b[2], b[3], k)
  }

  lemma DecodeEncode(i: Insn)
    requires 0 <= i.code < 0x10000
    ensures Decode(Encode(i)) == i
  {
    assert i.k == i.k % 0x100 + 0x100 * (i.k / 0x100);
    assert i.k / 0x100 == i.k / 0x100 % 0x100 + 0x100 * (i.k / 0x10000);
    assert i.k / 0x10000 == i.k / 0x10000 % 0x100 + 0x100 * (i.k / 0x1000000);
  }

  ghost predicate GoodCodes(insns: seq<Insn>) {
    forall i :: 0 <= i < |insns| ==> 0 <= insns[i].code < 0x10000
  }

  /** buf is the instructions one after the other. */
  ghost predicate Encodes(buf: seq<Byte>, insns: seq<Insn>) {
    && GoodCodes(insns) && |buf| == 8 * |insns|
    && forall i :: 0 <= i < |insns| ==> buf[8 * i..8 * i + 8] == Encode(insns[i])
  }

  // ---------- Interpreters ----------

  /** The words the kernel hands to the filter that the program reads. */
  datatype SeccompData = SeccompData(nr: Word, arch: Word)

  /** Stuck: an unknown instruction or load, or a jump past the end. */
  datatype Verdict = Return(value: Word) | Stuck

  /** Runs encoded bytes; jumps only go forward, so pc grows until the program ends. */
  function RunBytes(buf: seq<Byte>, data: SeccompData, pc: nat, acc: Word): Verdict
    decreases |buf| - 8 * pc
  {
    if 8 * pc + 8 > |buf| then Stuck
    else
      var i := Decode(buf[8 * pc..8 * pc + 8]);
      if i.code == LD && i.k == 0 then RunBytes(buf, data, pc + 1, data.nr)
      else if i.code == LD && i.k == 4 then RunBytes(buf, data, pc + 1, data.arch)
      else if i.code == JEQ then RunBytes(buf, data, pc + 1 + (if acc == i.k then i.jt else i.jf), acc)
      else if i.code == RET then Return(i.k)
      else Stuck
  }

  /** The same on decoded instructions. */
  function Run(insns: seq<Insn>, data: SeccompData, pc: nat, acc: Word): Verdict
    decreases |insns| - pc
  {
    if pc >= |insns| then Stuck
    else
      var i := insns[pc];
      if i.code == LD && i.k == 0 then Run(insns, data, pc + 1, data.nr)
      else if i.code == LD && i.k == 4 then Run(insns, data, pc + 1, data.arch)
      else if i.code == JEQ then Run(insns, data, pc + 1 + (if acc == i.k then i.jt else i.jf), acc)
      else if i.code == RET then Return(i.k)
      else Stuck
  }

  /** Encoding loses nothing the interpreter looks at. */
  lemma {:induction false} RunEncoded(buf: seq<Byte>, insns: seq<Insn>, data: SeccompData, pc: nat, acc: Word)
    requires Encodes(buf, insns)
    ensures RunBytes(buf, data, pc, acc) == Run(insns, data, pc, acc)
    decreases |insns| - pc
  {
    hide Encode, Decode;
    if pc < |insns| {
      var i := insns[pc];
      DecodeEncode(i);
      assert Decode(buf[8 * pc..8 * pc + 8]) == i;
      RunEncoded(buf, insns, data, pc + 1, data.nr);
      RunEncoded(buf, insns, data, pc + 1, data.arch);
      RunEncoded(buf, insns, data, pc + 1 + (if acc == i.k then i.jt else i.jf), acc);
    }
  }

  // ---------- The program ----------

  /** Instruction layout for the numbers in a given order, offsets truncated to a byte as the code does. */
  ghost predicate IsProgram(order: seq<Word>, insns: seq<Insn>) {
    var n := |order|;
    && |insns| == n + 5
    && insns[0] == Insn(LD, 0, 0, 4)
    && insns[1] == Insn(JEQ, 0, ToByte(n + 2), AUDIT_ARCH_X86_64)
    && insns[2] == Insn(LD, 0, 0, 0)
    && (forall i :: 0 <= i < n ==> insns[3 + i] == Insn(JEQ, ToByte(n - i), 0, order[i]))
    && insns[n + 3] == Insn(RET, 0, 0, RET_KILL_PROCESS)
    && insns[n + 4] == Insn(RET, 0, 0, RET_ALLOW)
  }

  /** What the filter is for: other architectures pass, listed numbers pass, everything else is killed. */
  function Wanted(order: seq<Word>, data: SeccompData): Verdict {
    if data.arch != AUDIT_ARCH_X86_64 || data.nr in order then Return(RET_ALLOW) else Return(RET_KILL_PROCESS)
  }

  /** From check i on, a number that matches none of the remaining checks is killed. */
  lemma {:induction false} NoMatchKills(order: seq<Word>, insns: seq<Insn>, data: SeccompData, i: nat, acc: Word)
    requires IsProgram(order, insns) && i <= |order| && acc !in order[i..]
    ensures Run(insns, data, 3 + i, acc) == Return(RET_KILL_PROCESS)
    decreases |order| - i
  {
    if i < |order| {
      assert order[i] in order[i..];
      assert forall x :: x in order[i + 1..] ==> x in order[i..];
      assert insns[3 + i] == Insn(JEQ, ToByte(|order| - i), 0, order[i]);
      NoMatchKills(order, insns, data, i + 1, acc);
    } else {
      assert insns[3 + i] == Insn(RET, 0, 0, RET_KILL_PROCESS);
    }
  }

  /** A check whose offset fits a byte reaches ALLOW; one whose offset does not jumps short and ends in KILL. */
  lemma MatchAt(order: seq<Word>, insns: seq<Insn>, data: SeccompData, i: nat)
    requires IsProgram(order, insns) && Distinct(order) && i < |order|
    ensures Run(insns, data, 3 + i, order[i]) == Return(if |order| - i <= 255 then RET_ALLOW else RET_KILL_PROCESS)
  {
    var n := |order|;
    var off := ToByte(n - i);
    assert insns[3 + i] == Insn(JEQ, off, 0, order[i]);
    assert Run(insns, data, 3 + i, order[i]) == Run(insns, data, 3 + i + 1 + off, order[i]);
    if n - i <= 255 {
      assert 3 + i + 1 + off == n + 4;
    } else {
      assert off < n - i;
      NoMatchKills(order, insns, data, i + 1 + off, order[i]);
      assert 3 + (i + 1 + off) == 3 + i + 1 + off;
    }
  }

  /** Skipping the checks before position i that do not match. */
  lemma {:induction false} SkipTo(order: seq<Word>, insns: seq<Insn>, data: SeccompData, j: nat, i: nat)
    requires IsProgram(order, insns) && Distinct(order) && j <= i < |order|
    ensures Run(insns, data, 3 + j, order[i]) == Run(insns, data, 3 + i, order[i])
    decreases i - j
  {
    if j < i {
      assert insns[3 + j] == Insn(JEQ, ToByte(|order| - j), 0, order[j]);
      SkipTo(order, insns, data, j + 1, i);
    }
  }

  lemma ReachesChecks(order: seq<Word>, insns: seq<Insn>, data: SeccompData)
    requires IsProgram(order, insns) && data.arch == AUDIT_ARCH_X86_64
    ensures Run(insns, data, 0, 0) == Run(insns, data, 3, data.nr)
  {
    assert Run(insns, data, 0, 0) == Run(insns, data, 1, data.arch) == Run(insns, data, 2, data.arch);
  }

  lemma LastKept(order: seq<Word>, i: nat)
    requires Distinct(order) && i < |order|
    ensures order[i] in (if |order| <= 255 then order else order[|order| - 255..]) <==> |order| - i <= 255
  {
    if |order| > 255 {
      var kept := order[|order| - 255..];
      if |order| - i <= 255 {
        assert kept[i - (|order| - 255)] == order[i];
      }
    }
  }

  /** On x86_64 exactly the last 255 listed numbers are allowed, however many are listed. */
  lemma OnX86Exactly(order: seq<Word>, insns: seq<Insn>, data: SeccompData)
    requires IsProgram(order, insns) && Distinct(order) && data.arch == AUDIT_ARCH_X86_64
    ensures Run(insns, data, 0, 0) ==
              Return(if data.nr in (if |order| <= 255 then order else order[|order| - 255..]) then RET_ALLOW
                  else RET_KILL_PROCESS)
  {
    var n := |order|;
    var kept := if n <= 255 then order else order[n - 255..];
    ReachesChecks(order, insns, data);
    hide IsProgram, Run;
    if i: nat :| i < n && order[i] == data.nr {
      SkipTo(order, insns, data, 0, i);
      MatchAt(order, insns, data, i);
      LastKept(order, i);
    } else {
      assert order[0..] == order;
      NoMatchKills(order, insns, data, 0, data.nr);
    }
  }

  /** The architecture jump lands here on any other architecture. */
  lemma OffX86Jumps(order: seq<Word>, insns: seq<Insn>, data: SeccompData)
    requires IsProgram(order, insns) && data.arch != AUDIT_ARCH_X86_64
    ensures Run(insns, data, 0, 0) == Run(insns, data, 2 + ToByte(|order| + 2), data.arch)
  {
    assert Run(insns, data, 0, 0) == Run(insns, data, 1, data.arch);
  }

  /** However many numbers are listed, every jump stays inside the program and it ends in a verdict. */
  lemma {:induction false} AlwaysReturns(order: seq<Word>, insns: seq<Insn>, data: SeccompData, pc: nat, acc: Word)
    requires IsProgram(order, insns) && pc < |insns|
    ensures Run(insns, data, pc, acc).Return?
    decreases |insns| - pc
  {
    var n := |order|;
    if 3 <= pc < n + 3 {
      var i := pc - 3;
      assert insns[3 + i] == Insn(JEQ, ToByte(n - i), 0, order[i]);
    }
    if pc < n + 3 {
      var i := insns[pc];
      AlwaysReturns(order, insns, data, pc + 1, data.nr);
      AlwaysReturns(order, insns, data, pc + 1, data.arch);
      AlwaysReturns(order, insns, data, pc + 1 + (if acc == i.k then i.jt else i.jf), acc);
    }
  }

  /** Fewer numbers than a range holds leave one of the range out. */
  lemma {:induction false} SomethingLeftOut(s: seq<Word>, m: nat) returns (x: Word)
    requires |s| < m <= 0x1_0000_0000
    ensures x < m && x !in s
    decreases m
  {
    if m - 1 !in s {
      x := m - 1;
    } else {
      var i :| 0 <= i < |s| && s[i] == m - 1;
      var t := s[..i] + s[i + 1..];
      x := SomethingLeftOut(t, m - 1);
      assert s == s[..i] + [s[i]] + s[i + 1..];
    }
  }

  /** The filter does what it is for on every input exactly when it lists at most 253 numbers. */
  lemma FilterCorrectExactly(order: seq<Word>, insns: seq<Insn>)
    requires IsProgram(order, insns) && Distinct(order) && |insns| <= 0xffff
    ensures (forall data :: Run(insns, data, 0, 0) == Wanted(order, data)) <==> |order| <= 253
  {
    var n := |order|;
    if n <= 253 {
      forall data ensures Run(insns, data, 0, 0) == Wanted(order, data) {
        if data.arch == AUDIT_ARCH_X86_64 {
          OnX86Exactly(order, insns, data);
        } else {
          OffX86Jumps(order, insns, data);
          assert 2 + ToByte(n + 2) == n + 4;
        }
      }
    } else {
      var x := SomethingLeftOut(order + [AUDIT_ARCH_X86_64], 0x1_0000_0000);
      var data := SeccompData(x, x);
      KilledOffX86(order, insns, data);
      assert Wanted(order, data) == Return(RET_ALLOW);
    }
  }

  /**
    With more numbers the architecture jump lands before ALLOW, and other architectures are filtered by their own
    numbers.
   */
  lemma KilledOffX86(order: seq<Word>, insns: seq<Insn>, data: SeccompData)
    requires IsProgram(order, insns) && |order| >= 254 && data.arch != AUDIT_ARCH_X86_64
    requires data.arch !in order && data.nr !in order
    ensures Run(insns, data, 0, 0) == Return(RET_KILL_PROCESS)
  {
    var n := |order|;
    var off := ToByte(n + 2);
    OffX86Jumps(order, insns, data);
    assert off < n + 2;
    if off == 0 {
      assert Run(insns, data, 2, data.arch) == Run(insns, data, 3, data.nr);
      NoMatchKills(order, insns, data, 0, data.nr);
    } else {
      NoMatchKills(order, insns, data, off - 1, data.arch);
      assert 3 + (off - 1) == 2 + off;
    }
  }

  // ---------- The builder ----------

  datatype Check = Check(nr: Word, idx: nat)

  ghost predicate Enumerates(order: seq<Word>, allowed: seq<Word>) {
    Distinct(order) && forall n :: n in order <==> n in allowed
  }

  /** One unpatched check per number, in the order the set yields them. */
  method EmitChecks(allowedSet: set<Word>, start: seq<Insn>)
    returns (insns: seq<Insn>, checks: seq<Check>, ghost order: seq<Word>)
    ensures Distinct(order) && forall n :: n in order <==> n in allowedSet
    ensures |insns| == |start| + |order| && start <= insns && |checks| == |order|
    ensures forall i :: 0 <= i < |order| ==> insns[|start| + i] == Insn(JEQ, 0, 0, order[i])
    ensures forall i :: 0 <= i < |order| ==> checks[i] == Check(order[i], |start| + i)
  {
    insns, checks, order := start, [], [];
    var rest := allowedSet;
    while rest != {}
      invariant rest <= allowedSet && Distinct(order)
      invariant forall n :: n in order <==> n in allowedSet && n !in rest
      invariant |insns| == |start| + |order| && start <= insns && |checks| == |order|
      invariant forall i :: 0 <= i < |order| ==> insns[|start| + i] == Insn(JEQ, 0, 0, order[i])
      invariant forall i :: 0 <= i < |order| ==> checks[i] == Check(order[i], |start| + i)
      decreases rest
    {
      var nr :| nr in rest;
      checks := checks + [Check(nr, |insns|)];
      insns := insns + [Insn(JEQ, 0, 0, nr)];
      order, rest := order + [nr], rest - {nr};
    }
  }

  /** Fills in the jumps to ALLOW. */
  method PatchJumps(start: seq<Insn>, checks: seq<Check>, allowIdx: nat) returns (insns: seq<Insn>)
    requires 3 + |checks| <= |start| && forall i :: 0 <= i < |checks| ==> checks[i].idx == 3 + i
    ensures |insns| == |start|
    ensures forall j :: 0 <= j < |insns| ==>
              insns[j] == if 3 <= j < 3 + |checks| then start[j].(jt := ToByte(allowIdx - j - 1)) else start[j]
  {
    insns := start;
    for c := 0 to |checks|
      invariant |insns| == |start|
      invariant forall j :: 0 <= j < |insns| ==>
                  insns[j] == if 3 <= j < 3 + c then start[j].(jt := ToByte(allowIdx - j - 1)) else start[j]
    {
      var idx := checks[c].idx;
      insns := insns[idx := insns[idx].(jt := ToByte(allowIdx - idx - 1))];
    }
  }

  /** Writes one instruction into its eight bytes and leaves the other bytes alone. */
  method PutInsn(buf: array<Byte>, i: nat, insn: Insn)
    requires 8 * i + 8 <= buf.Length && 0 <= insn.code < 0x10000
    modifies buf
    ensures buf[8 * i..8 * i + 8] == Encode(insn)
    ensures forall j :: 0 <= j < buf.Length && !(8 * i <= j < 8 * i + 8) ==> buf[j] == old(buf[j])
  {
    var e := Encode(insn);
    hide Encode;
    var off := 8 * i;
    buf[off], buf[off + 1], buf[off + 2], buf[off + 3] := e[0], e[1], e[2], e[3];
    buf[off + 4], buf[off + 5], buf[off + 6], buf[off + 7] := e[4], e[5], e[6], e[7];
    assert buf[off..off + 8] == e;
  }

  /** Writes the instructions into a fresh buffer, eight bytes each. */
  method EncodeAll(insns: seq<Insn>) returns (buf: array<Byte>)
    requires GoodCodes(insns)
    ensures fresh(buf) && Encodes(buf[..], insns)
  {
    hide Encode;
    buf := new Byte[8 * |insns|](_ => 0);
    for i := 0 to |insns|
      invariant forall j :: 0 <= j < i ==> buf[8 * j..8 * j + 8] == Encode(insns[j])
    {
      ghost var before := buf[..];
      PutInsn(buf, i, insns[i]);
      forall j | 0 <= j < i ensures buf[8 * j..8 * j + 8] == Encode(insns[j]) {
        assert buf[8 * j..8 * j + 8] == before[8 * j..8 * j + 8];
      }
    }
    forall j | 0 <= j < |insns| ensures buf[..][8 * j..8 * j + 8] == Encode(insns[j]) {
      assert buf[..][8 * j..8 * j + 8] == buf[8 * j..8 * j + 8];
    }
  }

  method CollectSet(allowed: seq<Word>) returns (allowedSet: set<Word>)
    ensures forall n :: n in allowedSet <==> n in allowed
  {
    allowedSet := {};
    for i := 0 to |allowed|
      invariant forall n :: n in allowedSet <==> n in allowed[..i]
    {
      allowedSet := allowedSet + {allowed[i]};
      assert allowed[..i + 1] == allowed[..i] + [allowed[i]];
    }
    assert allowed[..|allowed|] == allowed;
  }

  lemma ProgramCodes(order: seq<Word>, insns: seq<Insn>)
    requires IsProgram(order, insns)
    ensures GoodCodes(insns)
  {
    forall j | 0 <= j < |insns| ensures 0 <= insns[j].code < 0x10000 {
      if 3 <= j < 3 + |order| {
        var i := j - 3;
        assert insns[3 + i] == Insn(JEQ, ToByte(|order| - i), 0, order[i]);
      }
    }
  }

  /** bytes is the program for some enumeration of the numbers, or absent when that program would be too long. */
  ghost predicate BuiltFrom(allowed: seq<Word>, bytes: Option<seq<Byte>>, order: seq<Word>, insns: seq<Insn>) {
    && Enumerates(order, allowed) && IsProgram(order, insns)
    && if |insns| > 0xffff then bytes.None? else bytes.Some? && Encodes(bytes.value, insns)
  }

  ghost predicate Built(allowed: seq<Word>, bytes: Option<seq<Byte>>) {
    exists order, insns :: BuiltFrom(allowed, bytes, order, insns)
  }

  method BuildSeccompFilter(allowed: seq<Word>) returns (r: Option<array<Byte>>)
    ensures Built(allowed, if r.Some? then Some(r.value[..]) else None)
  {
    var allowedSet := CollectSet(allowed);
    var insns := [Insn(LD, 0, 0, 4), Insn(JEQ, 0, 0, AUDIT_ARCH_X86_64), Insn(LD, 0, 0, 0)];
    var archCheckIdx := 1;
    var checks;
    ghost var order;
    insns, checks, order := EmitChecks(allowedSet, insns);
    insns := insns + [Insn(RET, 0, 0, RET_KILL_PROCESS)];
    var allowIdx := |insns|;
    insns := insns + [Insn(RET, 0, 0, RET_ALLOW)];
    insns := PatchJumps(insns, checks, allowIdx);
    insns := insns[archCheckIdx := insns[archCheckIdx].(jf := ToByte(allowIdx - archCheckIdx - 1))];
    ProgramCodes(order, insns);
    var buf := EncodeAll(insns);
    hide IsProgram, Encodes;
    r := if |insns| > 0xffff then None else Some(buf);
    assert BuiltFrom(allowed, if r.Some? then Some(r.value[..]) else None, order, insns);
  }

  /** The bytes at the start and at the end of the program, and of each check between them. */
  lemma BytesLaidOut(allowed: seq<Word>, bytes: seq<Byte>)
    requires Built(allowed, Some(bytes)) && DistinctCount(allowed) <= 253
    ensures var n := DistinctCount(allowed);
            && |bytes| == 8 * n + 40
            && bytes[0..8] == [0x20, 0, 0, 0, 4, 0, 0, 0]
            && bytes[8..16] == [0x15, 0, 0, n + 2, 0x3E, 0, 0, 0xC0]
            && bytes[16..24] == [0x20, 0, 0, 0, 0, 0, 0, 0]
            && (forall i :: 3 <= i < n + 3 ==> bytes[8 * i..8 * i + 4] == [0x15, 0, n + 3 - i, 0])
            && bytes[8 * n + 24..8 * n + 32] == [0x06, 0, 0, 0, 0, 0, 0, 0x80]
            && bytes[8 * n + 32..8 * n + 40] == [0x06, 0, 0, 0, 0, 0, 0xFF, 0x7F]
  {
    var order, insns :| BuiltFrom(allowed, Some(bytes), order, insns);
    CountOfEnumeration(allowed, order);
    hide Built, IsProgram, Encodes;
    FixedLayout(order, insns, bytes);
    forall i | 3 <= i < |order| + 3 ensures bytes[8 * i..8 * i + 4] == [0x15, 0, |order| + 3 - i, 0] {
      CheckLayout(order, insns, bytes, i - 3);
    }
  }

  lemma FixedLayout(order: seq<Word>, insns: seq<Insn>, bytes: seq<Byte>)
    requires IsProgram(order, insns) && Encodes(bytes, insns) && |order| <= 253
    ensures var n := |order|;
            && |bytes| == 8 * n + 40
            && bytes[0..8] == [0x20, 0, 0, 0, 4, 0, 0, 0]
            && bytes[8..16] == [0x15, 0, 0, n + 2, 0x3E, 0, 0, 0xC0]
            && bytes[16..24] == [0x20, 0, 0, 0, 0, 0, 0, 0]
            && bytes[8 * n + 24..8 * n + 32] == [0x06, 0, 0, 0, 0, 0, 0, 0x80]
            && bytes[8 * n + 32..8 * n + 40] == [0x06, 0, 0, 0, 0, 0, 0xFF, 0x7F]
  {
    var n := |order|;
    FixedBytes(n);
    hide Encode;
    assert bytes[8 * 0..8 * 0 + 8] == Encode(insns[0]);
    assert bytes[8 * 1..8 * 1 + 8] == Encode(insns[1]);
    assert bytes[8 * 2..8 * 2 + 8] == Encode(insns[2]);
    assert bytes[8 * (n + 3)..8 * (n + 3) + 8] == Encode(insns[n + 3]);
    assert bytes[8 * (n + 4)..8 * (n + 4) + 8] == Encode(insns[n + 4]);
  }

  lemma CheckLayout(order: seq<Word>, insns: seq<Insn>, bytes: seq<Byte>, i: nat)
    requires IsProgram(order, insns) && Encodes(bytes, insns) && i < |order| <= 253
    ensures |bytes| == 8 * |order| + 40 && bytes[8 * (i + 3)..8 * (i + 3) + 4] == [0x15, 0, |order| - i, 0]
  {
    assert insns[3 + i] == Insn(JEQ, ToByte(|order| - i), 0, order[i]);
    var at := 8 * (3 + i);
    assert bytes[at..at + 8] == Encode(insns[3 + i]);
    assert bytes[at..at + 8][..4] == bytes[at..at + 4];
  }

  lemma FixedBytes(n: nat)
    requires n <= 253
    ensures Encode(Insn(LD, 0, 0, 4)) == [0x20, 0, 0, 0, 4, 0, 0, 0]
    ensures Encode(Insn(JEQ, 0, ToByte(n + 2), AUDIT_ARCH_X86_64)) == [0x15, 0, 0, n + 2, 0x3E, 0, 0, 0xC0]
    ensures Encode(Insn(LD, 0, 0, 0)) == [0x20, 0, 0, 0, 0, 0, 0, 0]
    ensures Encode(Insn(RET, 0, 0, RET_KILL_PROCESS)) == [0x06, 0, 0, 0, 0, 0, 0, 0x80]
    ensures Encode(Insn(RET, 0, 0, RET_ALLOW)) == [0x06, 0, 0, 0, 0, 0, 0xFF, 0x7F]
  {
  }

  /** The number of different numbers in a list. */
  ghost function DistinctCount(allowed: seq<Word>): nat {
    |set n: Word | n in allowed|
  }

  lemma CountOfEnumeration(allowed: seq<Word>, order: seq<Word>)
    requires Enumerates(order, allowed)
    ensures DistinctCount(allowed) == |order|
  {
    ElementCount(order);
    assert (set n: Word | n in order) == (set n: Word | n in allowed);
  }

  /** What a caller wants of the bytes, in terms of the list it passed. */
  function WantedOf(allowed: seq<Word>, data: SeccompData): Verdict {
    if data.arch != AUDIT_ARCH_X86_64 || data.nr in allowed then Return(RET_ALLOW) else Return(RET_KILL_PROCESS)
  }

  /** The builder refuses exactly the lists of more than 65530 different numbers. */
  lemma RefusedExactly(allowed: seq<Word>, bytes: Option<seq<Byte>>)
    requires Built(allowed, bytes)
    ensures bytes.None? <==> DistinctCount(allowed) > 65530
  {
    var order, insns :| BuiltFrom(allowed, bytes, order, insns);
    CountOfEnumeration(allowed, order);
  }

  /**
    The bytes handed to the kernel do what the list asks, on every input, exactly when it has at most 253 different
    numbers.
   */
  lemma BytesCorrectExactly(allowed: seq<Word>, bytes: seq<Byte>)
    requires Built(allowed, Some(bytes))
    ensures (forall data :: RunBytes(bytes, data, 0, 0) == WantedOf(allowed, data)) <==> DistinctCount(allowed) <= 253
  {
    var order, insns :| BuiltFrom(allowed, Some(bytes), order, insns);
    CountOfEnumeration(allowed, order);
    forall data ensures RunBytes(bytes, data, 0, 0) == Run(insns, data, 0, 0) {
      RunEncoded(bytes, insns, data, 0, 0);
    }
    FilterCorrectExactly(order, insns);
    hide IsProgram, Encodes, Run, RunBytes;
    assert forall data :: Wanted(order, data) == WantedOf(allowed, data);
  }
}
