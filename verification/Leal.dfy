/**
 The assembly fix-ups for x86emu: `leal` becomes a sequence of simpler instructions, and 32-bit
 calls and returns become 16-bit ones with the same stack frame. Operands are taken as parsed.
 */
module Leal {
  import opened Words
  import opened Wrappers

  // ----- the machine

  datatype Reg = Eax | Ecx | Edx | Ebx | Esp | Ebp | Esi | Edi

  datatype Insn =
    | Movl(src: Reg, dst: Reg)
    | Shll(count: nat, dst: Reg)
    | Addl(src: Reg, dst: Reg)
    | AddlImm(imm: int, dst: Reg)
    | Imull(factor: nat, dst: Reg)
    | Pushl(src: Reg)
    | Popl(dst: Reg)
    | Pushfw
    | Popfw
    | Leaw(operand: Operand)

  /** The text before the parenthesis: nothing, a literal `0`, or an expression. */
  datatype Offset = Absent | Zero | Expr(v: int)

  function OffsetValue(o: Offset): int {
    if o.Expr? then o.v else 0
  }

  datatype Operand = Operand(offset: Offset, base: Option<Reg>, index: Option<Reg>, scale: nat, dest: Reg)

  /** Registers, the 16-bit flags word and byte memory. */
  datatype State = State(regs: map<Reg, nat>, flags: nat, mem: map<nat, nat>)

  predicate Valid(s: State) {
    && (forall r: Reg :: r in s.regs && s.regs[r] < 0x1_0000_0000)
    && s.flags < 0x1_0000
  }

  function R(s: State, r: Reg): (v: int)
    requires Valid(s)
    ensures 0 <= v < 0x1_0000_0000
  {
    s.regs[r]
  }

  function Load(m: map<nat, nat>, a: int): nat {
    if U32(a) in m then m[U32(a)] else 0
  }

  function Set(s: State, r: Reg, v: int): (t: State)
    ensures Valid(s) ==> Valid(t)
  {
    s.(regs := s.regs[r := U32(v)])
  }

  /** A register shifted left, before truncation. */
  function Scaled(v: nat, k: nat): int {
    v * Pow2(k)
  }

  function Push16(s: State, v: nat): (t: State)
    requires Valid(s)
    ensures Valid(t)
  {
    var a: int := s.regs[Esp];
    Set(s.(mem := s.mem[U32(a - 2) := v % 0x100][U32(a - 1) := v / 0x100 % 0x100]), Esp, a - 2)
  }

  function Word16(m: map<nat, nat>, a: int): nat {
    Load(m, a) + 0x100 * Load(m, a + 1)
  }

  /** A 32-bit push leaves the same bytes as pushing the upper half and then the lower half. */
  function Push32(s: State, v: nat): (t: State)
    requires Valid(s)
    ensures Valid(t)
  {
    Push16(Push16(s, v / 0x1_0000), v % 0x1_0000)
  }

  /** One instruction; `alu` is what arithmetic leaves in the flags, whatever it is. */
  function Step(i: Insn, s: State, alu: (Insn, State) -> nat): (t: State)
    requires Valid(s)
    ensures Valid(t)
  {
    match i
    case Movl(src, dst) => Set(s, dst, s.regs[src])
    case Shll(n, dst) => Set(s, dst, Scaled(s.regs[dst], n)).(flags := alu(i, s) % 0x1_0000)
    case Addl(src, dst) => Set(s, dst, s.regs[dst] + s.regs[src]).(flags := alu(i, s) % 0x1_0000)
    case AddlImm(v, dst) => Set(s, dst, s.regs[dst] + v).(flags := alu(i, s) % 0x1_0000)
    case Imull(k, dst) => Set(s, dst, s.regs[dst] * k).(flags := alu(i, s) % 0x1_0000)
    case Pushl(src) => Push32(s, s.regs[src])
    case Popl(dst) =>
      var a := s.regs[Esp];
      Set(Set(s, Esp, a + 4), dst, Word16(s.mem, a) + 0x1_0000 * Word16(s.mem, a + 2))
    case Pushfw => Push16(s, s.flags)
    case Popfw =>
      var a := s.regs[Esp];
      Set(s, Esp, a + 2).(flags := Word16(s.mem, a) % 0x1_0000)
    case Leaw(o) => Set(s, o.dest, s.regs[o.dest] / 0x1_0000 * 0x1_0000 + Address16(o, s) % 0x1_0000)
  }

  /** The sum of the lower halves of the registers, as 16-bit addressing takes it. */
  function Address16(o: Operand, s: State): int
    requires Valid(s)
  {
    (if o.base.Some? then s.regs[o.base.value] % 0x1_0000 else 0)
    + (if o.index.Some? then s.regs[o.index.value] % 0x1_0000 * o.scale else 0) + OffsetValue(o.offset)
  }

  function Exec(l: seq<Insn>, s: State, alu: (Insn, State) -> nat): (t: State)
    requires Valid(s)
    ensures Valid(t)
  {
    if l == [] then s else Exec(l[1..], Step(l[0], s, alu), alu)
  }

  // ----- the rewriting

  /** Scales are 1, 2, 4 or 8, and there is a base or an index; the destination is not `%esp`. */
  predicate Addressable(o: Operand) {
    && o.scale in {1, 2, 4, 8} && (o.base.Some? || o.index.Some?) && o.dest != Esp
  }

  /** The address that `leal` computes. */
  function Address(o: Operand, s: State): int
    requires Valid(s)
  {
    (if o.base.Some? then s.regs[o.base.value] else 0)
    + (if o.index.Some? then s.regs[o.index.value] * o.scale else 0) + OffsetValue(o.offset)
  }

  /** The operand after its arguments have been rearranged; here `scale` is a shift count. */
  function Rearranged(o: Operand): (p: Operand)
    requires Addressable(o)
    ensures p.index.Some?
  {
    var k := if o.scale == 1 then 0 else if o.scale == 2 then 1 else if o.scale == 4 then 2 else 3;
    if k == 0 && o.base == o.index then o.(base := None, scale := 1)
    else if o.index.None? || (k == 0 && (o.base == Some(o.dest) || o.base == Some(Esp)) && o.index != Some(o.dest))
    then o.(base := o.index, index := o.base, scale := 0)
    else o.(scale := k)
  }

  /** Instructions between saving and restoring the flags, before the offset is added. */
  function Middle(p: Operand): seq<Insn>
    requires p.index.Some?
  {
    var d, i := p.dest, p.index.value;
    if p.base != Some(d) then Shift(p.scale, d) + Add(p.base, d)
    else if p.base == p.index then [Imull(Pow2(p.scale) + 1, d)]
    else [Pushl(i), Shll(p.scale, i), Addl(i, d), Popl(i)]
  }

  function Shift(k: nat, d: Reg): seq<Insn> {
    if k > 0 then [Shll(k, d)] else []
  }

  function Add(base: Option<Reg>, d: Reg): seq<Insn> {
    if base.Some? then [Addl(base.value, d)] else []
  }

  /** The immediate added at the end; the pushed flags have moved `%esp` by two. */
  function Final(p: Operand): seq<Insn> {
    var o := if p.base == Some(Esp) then Expr(OffsetValue(p.offset) + 2) else p.offset;
    if o.Expr? then [AddlImm(o.v, p.dest)] else []
  }

  function First(p: Operand): seq<Insn>
    requires p.index.Some?
  {
    if p.base != Some(p.dest) && p.index.value != p.dest then [Movl(p.index.value, p.dest)] else []
  }

  /** The instructions that replace a `leal`. */
  function Rewritten(o: Operand): seq<Insn>
    requires Addressable(o)
  {
    var p := Rearranged(o);
    First(p) + [Pushfw] + Middle(p) + Final(p) + [Popfw]
  }

  // ----- correctness

  lemma {:induction false} ExecConcat(k: seq<Insn>, l: seq<Insn>, s: State, alu: (Insn, State) -> nat)
    requires Valid(s)
    ensures Exec(k + l, s, alu) == Exec(l, Exec(k, s, alu), alu)
  {
    hide Step;
    if k == [] {
      assert k + l == l;
    } else {
      ExecConcat(k[1..], l, Step(k[0], s, alu), alu);
      assert (k + l)[1..] == k[1..] + l;
    }
  }

  /** `t` is inside the sequence that started in `s`: only `d`, the flags and the scratch stack differ. */
  predicate Inside(s: State, t: State, d: Reg, a: nat)
    requires Valid(s)
  {
    && Valid(t) && t.regs[Esp] == U32(R(s, Esp) - 2)
    && (forall r: Reg :: r != d && r != Esp ==> t.regs[r] == s.regs[r])
    && Word16(t.mem, R(s, Esp) - 2) == s.flags && Load(t.mem, a) == Load(s.mem, a)
  }

  /** Address `a` is not one of the six bytes below the stack pointer. */
  predicate Untouched(s: State, a: nat)
    requires Valid(s)
  {
    a < 0x1_0000_0000 && U32(R(s, Esp) - 1 - a) >= 6
  }

  lemma Enter(s: State, d: Reg, a: nat, v: nat, alu: (Insn, State) -> nat)
    requires Valid(s) && d != Esp && Untouched(s, a) && v < 0x1_0000_0000
    ensures var t := Step(Pushfw, s.(regs := s.regs[d := v]), alu);
            Inside(s, t, d, a) && t.regs[d] == v
  {
  }

  /** Arithmetic on the destination stays inside. */
  lemma Arithmetic(s: State, t: State, d: Reg, a: nat, i: Insn, alu: (Insn, State) -> nat)
    requires Valid(s) && Inside(s, t, d, a) && d != Esp
    requires (i.Shll? || i.Addl? || i.AddlImm? || i.Imull?) && i.dst == d
    ensures Inside(s, Step(i, t, alu), d, a)
  {
    hide Word16, Load, U32;
  }

  /** Restoring the flags leaves only the destination changed. */
  lemma Restore(s: State, t: State, d: Reg, a: nat, alu: (Insn, State) -> nat)
    requires Valid(s) && Inside(s, t, d, a) && d != Esp
    ensures var u := Step(Popfw, t, alu);
            u.regs == s.regs[d := t.regs[d]] && u.flags == s.flags && Load(u.mem, a) == Load(s.mem, a)
  {
    Congruent(R(s, Esp) - 2, 2);
    WordAddress(t.mem, R(s, Esp) - 2, 0);
    hide Word16, Load;
  }

  lemma WordAddress(m: map<nat, nat>, x: int, d: int)
    ensures Word16(m, U32(x) + d) == Word16(m, x + d)
  {
    hide U32;
    Congruent(x, d);
    Congruent(x, d + 1);
  }

  lemma Distance(x: int, y: int, k: nat)
    requires U32(x) == U32(y) && k < 0x1_0000_0000
    ensures U32(x - y + k) == k
  {
  }

  lemma PushedByte(s: State, v: nat, e: int, b: int)
    requires Valid(s) && s.regs[Esp] == U32(e) && U32(e - 1 - b) >= 2
    ensures Load(Push16(s, v).mem, b) == Load(s.mem, b)
  {
    hide U32;
    Congruent(e, -2);
    Congruent(e, -1);
    if U32(e - 2) == U32(b) { Distance(e - 2, b, 1); }
    if U32(e - 1) == U32(b) { Distance(e - 1, b, 0); }
  }

  /** Effect of a 16-bit push when the stack pointer is `e`, modulo `2^32`, on another word and byte. */
  lemma Pushed16(s: State, v: nat, e: int, n: nat, b: int)
    requires Valid(s) && v < 0x1_0000 && s.regs[Esp] == U32(e) && n <= 4 && U32(e - 1 - b) >= 2
    ensures var t := Push16(s, v);
            && t.regs == s.regs[Esp := U32(e - 2)]
            && Word16(t.mem, e - 2) == v && Word16(t.mem, e + n) == Word16(s.mem, e + n)
            && Load(t.mem, b) == Load(s.mem, b)
  {
    PushedByte(s, v, e, b);
    PushedByte(s, v, e, e + n);
    PushedByte(s, v, e, e + n + 1);
    Congruent(e, -2);
    Congruent(e, -1);
    assert v / 0x100 % 0x100 == v / 0x100;
    hide U32;
  }

  /** A 32-bit push inside the sequence. */
  lemma Pushed32(s: State, t: State, d: Reg, a: nat, v: nat)
    requires Valid(s) && Inside(s, t, d, a) && Untouched(s, a) && v < 0x1_0000_0000
    ensures var u, e := Push32(t, v), R(s, Esp);
            && u.regs == t.regs[Esp := U32(e - 6)]
            && Word16(u.mem, e - 6) == v % 0x1_0000 && Word16(u.mem, e - 4) == v / 0x1_0000
            && Word16(u.mem, e - 2) == s.flags && Load(u.mem, a) == Load(s.mem, a)
  {
    hide Push16, Word16, Load;
    var e := R(s, Esp);
    var p := Push16(t, v / 0x1_0000);
    Pushed16(t, v / 0x1_0000, e - 2, 0, a);
    Pushed16(p, v % 0x1_0000, e - 4, 0, a);
    Pushed16(p, v % 0x1_0000, e - 4, 2, a);
  }

  /** Scaling in the index register, with the register saved on the stack. */
  lemma Backup(s: State, t: State, d: Reg, a: nat, i: Reg, k: nat, alu: (Insn, State) -> nat)
    requires Valid(s) && Inside(s, t, d, a) && Untouched(s, a) && d != Esp && i != Esp && i != d
    ensures var u := Exec([Pushl(i), Shll(k, i), Addl(i, d), Popl(i)], t, alu);
            Inside(s, u, d, a) && R(u, d) == U32(R(t, d) + U32(Scaled(R(s, i), k)))
  {
    hide Word16, Load, Scaled, U32, Exec, Step;
    Exec4(Pushl(i), Shll(k, i), Addl(i, d), Popl(i), t, alu);
    BackupSteps(s, t, d, a, i, k, alu);
  }

  lemma BackupSteps(s: State, t: State, d: Reg, a: nat, i: Reg, k: nat, alu: (Insn, State) -> nat)
    requires Valid(s) && Inside(s, t, d, a) && Untouched(s, a) && d != Esp && i != Esp && i != d
    ensures var u := Step(Popl(i), Step(Addl(i, d), Step(Shll(k, i), Step(Pushl(i), t, alu), alu), alu), alu);
            && u.regs == t.regs[d := U32(t.regs[d] + U32(Scaled(s.regs[i], k)))]
            && Word16(u.mem, R(s, Esp) - 2) == s.flags && Load(u.mem, a) == Load(s.mem, a)
  {
    hide Push32, Word16, Load, Scaled, U32, Step;
    var e, v := R(s, Esp), t.regs[i];
    Pushed32(s, t, d, a, v);
    BackupDown(t, d, i, k, alu);
    var r := Step(Addl(i, d), Step(Shll(k, i), Step(Pushl(i), t, alu), alu), alu);
    BackupUp(t, r, e, d, i, U32(Scaled(v, k)), r.regs[d], alu);
  }

  lemma BackupDown(t: State, d: Reg, i: Reg, k: nat, alu: (Insn, State) -> nat)
    requires Valid(t) && d != Esp && i != Esp && i != d
    ensures var r, u := Step(Addl(i, d), Step(Shll(k, i), Step(Pushl(i), t, alu), alu), alu), Push32(t, t.regs[i]);
            var x := U32(Scaled(t.regs[i], k));
            r.mem == u.mem && r.regs == u.regs[i := x][d := U32(t.regs[d] + x)]
  {
    hide Scaled, U32;
  }

  lemma BackupUp(t: State, r: State, e: int, d: Reg, i: Reg, x: nat, y: nat, alu: (Insn, State) -> nat)
    requires Valid(t) && Valid(r) && d != Esp && i != Esp && i != d && t.regs[Esp] == U32(e - 2)
    requires r.regs == t.regs[Esp := U32(e - 6)][i := x][d := y]
    requires Word16(r.mem, e - 6) == t.regs[i] % 0x1_0000 && Word16(r.mem, e - 4) == t.regs[i] / 0x1_0000
    ensures Step(Popl(i), r, alu).regs == t.regs[d := y] && Step(Popl(i), r, alu).mem == r.mem
  {
    hide Word16, Load, U32;
    WordAddress(r.mem, e - 6, 0);
    WordAddress(r.mem, e - 6, 2);
    Congruent(e - 6, 4);
    Halves(t.regs[i]);
  }

  lemma Halves(v: nat)
    requires v < 0x1_0000_0000
    ensures v % 0x1_0000 + 0x1_0000 * (v / 0x1_0000) == v == U32(v)
  {
  }

  lemma ExecCons(a: Insn, l: seq<Insn>, s: State, alu: (Insn, State) -> nat)
    requires Valid(s)
    ensures Exec([a] + l, s, alu) == Exec(l, Step(a, s, alu), alu)
  {
    hide Step, Valid;
    assert ([a] + l)[1..] == l;
  }

  lemma Exec2(a: Insn, b: Insn, s: State, alu: (Insn, State) -> nat)
    requires Valid(s)
    ensures Exec([a, b], s, alu) == Step(b, Step(a, s, alu), alu)
  {
    hide Step, Valid;
    assert [a, b] == [a] + [b] && [b] == [b] + [];
    ExecCons(a, [b], s, alu);
    ExecCons(b, [], Step(a, s, alu), alu);
  }

  lemma Exec4(a: Insn, b: Insn, c: Insn, d: Insn, s: State, alu: (Insn, State) -> nat)
    requires Valid(s)
    ensures Exec([a, b, c, d], s, alu) == Step(d, Step(c, Step(b, Step(a, s, alu), alu), alu), alu)
  {
    hide Step, Valid;
    var t := Step(a, s, alu);
    var u := Step(b, t, alu);
    var v := Step(c, u, alu);
    assert [a, b, c, d] == [a] + [b, c, d] && [b, c, d] == [b] + [c, d] && [c, d] == [c] + [d] && [d] == [d] + [];
    ExecCons(a, [b, c, d], s, alu);
    ExecCons(b, [c, d], t, alu);
    ExecCons(c, [d], u, alu);
    ExecCons(d, [], v, alu);
  }

  // ----- the whole sequence

  /** Rearranging the arguments does not change the address. */
  lemma RearrangedAddress(o: Operand, s: State)
    requires Addressable(o) && Valid(s)
    ensures Address(o, s) == Target(Rearranged(o), s) + OffsetValue(o.offset)
    ensures Rearranged(o).offset == o.offset && Rearranged(o).dest == o.dest
    ensures o.index != Some(Esp) && Rearranged(o).base == Some(o.dest) ==> Rearranged(o).index != Some(Esp)
    ensures o.base == Some(o.dest) && Rearranged(o).base == Some(o.dest) ==> Rearranged(o).index == o.index
  {
    assert Pow2(0) == 1 && Pow2(1) == 2 && Pow2(2) == 4 && Pow2(3) == 8;
  }

  /** Base plus shifted index. */
  function Target(p: Operand, s: State): int
    requires Valid(s) && p.index.Some?
  {
    (if p.base.Some? then R(s, p.base.value) else 0) + Scaled(R(s, p.index.value), p.scale)
  }

  lemma ShiftPart(s: State, t: State, d: Reg, a: nat, k: nat, alu: (Insn, State) -> nat)
    requires Valid(s) && Inside(s, t, d, a) && d != Esp
    ensures var u := Exec(Shift(k, d), t, alu); Inside(s, u, d, a) && R(u, d) == U32(Scaled(R(t, d), k))
  {
    if k > 0 {
      ExecCons(Shll(k, d), [], t, alu);
      assert [Shll(k, d)] + [] == Shift(k, d);
      Arithmetic(s, t, d, a, Shll(k, d), alu);
    }
  }

  /** What adding the base adds: the pushed flags have moved `%esp` by two. */
  function BaseValue(s: State, base: Option<Reg>): int
    requires Valid(s)
  {
    (if base.Some? then R(s, base.value) else 0) - (if base == Some(Esp) then 2 else 0)
  }

  lemma AddPart(s: State, t: State, d: Reg, a: nat, base: Option<Reg>, alu: (Insn, State) -> nat)
    requires Valid(s) && Inside(s, t, d, a) && d != Esp && base != Some(d)
    ensures var u := Exec(Add(base, d), t, alu);
            && Inside(s, u, d, a)
            && R(u, d) == U32(R(t, d) + BaseValue(s, base))
  {
    if base.Some? {
      ExecCons(Addl(base.value, d), [], t, alu);
      assert [Addl(base.value, d)] + [] == Add(base, d);
      Arithmetic(s, t, d, a, Addl(base.value, d), alu);
      Congruent(R(s, Esp) - 2, t.regs[d]);
    }
  }

  lemma DirectPart(s: State, t: State, p: Operand, a: nat, alu: (Insn, State) -> nat)
    requires Valid(s) && Valid(t) && Inside(s, t, p.dest, a) && p.dest != Esp && p.index.Some? && p.base != Some(p.dest)
    requires R(t, p.dest) == R(s, p.index.value)
    ensures var u := Exec(Middle(p), t, alu);
            Inside(s, u, p.dest, a) && R(u, p.dest) == U32(Target(p, s) - if p.base == Some(Esp) then 2 else 0)
  {
    hide Inside, Exec, U32, Scaled, Valid, R, Shift, Add;
    ShiftPart(s, t, p.dest, a, p.scale, alu);
    var u := Exec(Shift(p.scale, p.dest), t, alu);
    AddPart(s, u, p.dest, a, p.base, alu);
    ExecConcat(Shift(p.scale, p.dest), Add(p.base, p.dest), t, alu);
    Congruent(Scaled(R(s, p.index.value), p.scale), BaseValue(s, p.base));
  }

  lemma InPlacePart(s: State, t: State, p: Operand, a: nat, alu: (Insn, State) -> nat)
    requires Valid(s) && Valid(t) && Inside(s, t, p.dest, a) && p.dest != Esp && p.index.Some? && p.base == Some(p.dest)
    requires p.index != Some(Esp) && R(t, p.dest) == R(s, p.dest) && Untouched(s, a)
    ensures var u := Exec(Middle(p), t, alu);
            Inside(s, u, p.dest, a) && R(u, p.dest) == U32(Target(p, s))
  {
    hide Inside, Exec, Step, U32, Scaled, Valid, R;
    if p.base == p.index {
      Multiply(s, t, p.dest, a, p.scale, alu);
    } else {
      Backup(s, t, p.dest, a, p.index.value, p.scale, alu);
      Congruent(Scaled(R(s, p.index.value), p.scale), R(s, p.dest));
    }
  }

  /** The product with one more than the scale. */
  lemma Multiply(s: State, t: State, d: Reg, a: nat, k: nat, alu: (Insn, State) -> nat)
    requires Valid(s) && Valid(t) && Inside(s, t, d, a) && d != Esp && R(t, d) == R(s, d)
    ensures var u := Exec([Imull(Pow2(k) + 1, d)], t, alu);
            Inside(s, u, d, a) && R(u, d) == U32(R(s, d) + Scaled(R(s, d), k))
  {
    var i := Imull(Pow2(k) + 1, d);
    ExecCons(i, [], t, alu);
    assert [i] + [] == [i];
    hide U32, Word16, Load, Exec, Pow2;
    Arithmetic(s, t, d, a, i, alu);
    assert R(s, d) * (Pow2(k) + 1) == R(s, d) + R(s, d) * Pow2(k);
  }

  lemma FinalPart(s: State, t: State, p: Operand, a: nat, alu: (Insn, State) -> nat)
    requires Valid(s) && Valid(t) && Inside(s, t, p.dest, a) && p.dest != Esp && p.index.Some?
    requires R(t, p.dest) == U32(Target(p, s) - if p.base == Some(Esp) then 2 else 0)
    ensures var u := Exec(Final(p), t, alu);
            Inside(s, u, p.dest, a) && R(u, p.dest) == U32(Target(p, s) + OffsetValue(p.offset))
  {
    hide U32, Pow2, Word16, Load, Inside, Target;
    if Final(p) != [] {
      var i := Final(p)[0];
      ExecCons(i, [], t, alu);
      assert [i] + [] == Final(p);
      hide Exec;
      Arithmetic(s, t, p.dest, a, i, alu);
      Congruent(Target(p, s) - (if p.base == Some(Esp) then 2 else 0), i.imm);
    }
  }

  lemma FirstPart(s: State, p: Operand, a: nat, alu: (Insn, State) -> nat)
    requires Valid(s) && p.dest != Esp && p.index.Some? && Untouched(s, a)
    ensures var t := Exec(First(p) + [Pushfw], s, alu);
            && Inside(s, t, p.dest, a)
            && R(t, p.dest) == R(s, if p.base == Some(p.dest) then p.dest else p.index.value)
  {
    hide U32, Word16, Load, Inside, Untouched;
    var d := p.dest;
    var r := if p.base == Some(d) then d else p.index.value;
    ExecConcat(First(p), [Pushfw], s, alu);
    var t := Exec(First(p), s, alu);
    if First(p) != [] {
      ExecCons(First(p)[0], [], s, alu);
      assert [First(p)[0]] + [] == First(p);
    }
    assert t.regs == s.regs[d := s.regs[r]];
    Enter(s, d, a, s.regs[r], alu);
    ExecCons(Pushfw, [], t, alu);
    assert [Pushfw] + [] == [Pushfw];
  }

  /**
   The instructions that replace `leal` put its address into the destination and change nothing
   else: no other register, no flag, and no byte but the six below the stack pointer.
   */
  lemma LealPreserved(o: Operand, s: State, a: nat, alu: (Insn, State) -> nat)
    requires Addressable(o) && o.index != Some(Esp) && Valid(s) && Untouched(s, a)
    ensures var u := Exec(Rewritten(o), s, alu);
            && u.regs == s.regs[o.dest := U32(Address(o, s))]
            && u.flags == s.flags && Load(u.mem, a) == Load(s.mem, a)
  {
    hide U32, Load, Inside, Untouched, Exec, Step, First, Middle, Final, Rearranged, Target, Address, Valid;
    var p := Rearranged(o);
    RearrangedAddress(o, s);
    FirstPart(s, p, a, alu);
    var t := Exec(First(p) + [Pushfw], s, alu);
    if p.base == Some(p.dest) {
      InPlacePart(s, t, p, a, alu);
    } else {
      DirectPart(s, t, p, a, alu);
    }
    var u := Exec(Middle(p), t, alu);
    FinalPart(s, u, p, a, alu);
    var v := Exec(Final(p), u, alu);
    RegisterOf(v, p.dest);
    Restore(s, v, p.dest, a, alu);
    ExecParts(First(p) + [Pushfw], Middle(p), Final(p), s, alu);
  }

  lemma RegisterOf(s: State, r: Reg)
    requires Valid(s)
    ensures r in s.regs && s.regs[r] == R(s, r)
  {
  }

  lemma ExecParts(f: seq<Insn>, m: seq<Insn>, l: seq<Insn>, s: State, alu: (Insn, State) -> nat)
    requires Valid(s)
    ensures Exec(f + m + l + [Popfw], s, alu) == Step(Popfw, Exec(l, Exec(m, Exec(f, s, alu), alu), alu), alu)
  {
    hide Step, Valid;
    ExecConcat(f + m + l, [Popfw], s, alu);
    ExecConcat(f + m, l, s, alu);
    ExecConcat(f, m, s, alu);
    assert [Popfw] + [] == [Popfw];
    ExecCons(Popfw, [], Exec(l, Exec(m, Exec(f, s, alu), alu), alu), alu);
  }

  /**
   `leaw` in place of `leal` for `%esp`: the lower half of `%esp` is right and nothing else changes,
   so the fix-up is exact precisely while the stack stays in its 64 KiB.
   */
  lemma LeawLower(o: Operand, s: State, alu: (Insn, State) -> nat)
    requires Valid(s) && o.dest == Esp && o.scale in {1, 2, 4, 8}
    ensures var t := Step(Leaw(o), s, alu);
            && t == s.(regs := s.regs[Esp := R(t, Esp)])
            && R(t, Esp) % 0x1_0000 == U32(Address(o, s)) % 0x1_0000
            && (R(t, Esp) == U32(Address(o, s)) <==> U32(Address(o, s)) / 0x1_0000 == R(s, Esp) / 0x1_0000)
  {
    LowerHalf(R(s, Esp) / 0x1_0000, Address16(o, s));
    if o.index.Some? { LowerScaled(R(s, o.index.value), o.scale); }
    LowerSum(if o.base.Some? then R(s, o.base.value) else 0,
             if o.index.Some? then R(s, o.index.value) * o.scale else 0,
             if o.index.Some? then R(s, o.index.value) % 0x1_0000 * o.scale else 0,
             OffsetValue(o.offset));
    LowerWord(Address(o, s));
  }

  lemma LowerHalf(h: int, x: int)
    requires 0 <= h < 0x1_0000
    ensures var w := h * 0x1_0000 + x % 0x1_0000; U32(w) == w && w % 0x1_0000 == x % 0x1_0000 && w / 0x1_0000 == h
  {
  }

  lemma LowerScaled(v: int, scale: nat)
    requires scale in {1, 2, 4, 8}
    ensures v % 0x1_0000 * scale % 0x1_0000 == v * scale % 0x1_0000
  {
    var h, l := v / 0x1_0000, v % 0x1_0000;
    assert v * scale == h * scale * 0x1_0000 + l * scale;
    DropMultiple(h * scale, l * scale);
  }

  lemma DropMultiple(k: int, x: int)
    ensures (k * 0x1_0000 + x) % 0x1_0000 == x % 0x1_0000
  {
  }

  lemma LowerSum(base: int, index: int, index': int, offset: int)
    requires index % 0x1_0000 == index' % 0x1_0000
    ensures (base % 0x1_0000 + index' + offset) % 0x1_0000 == (base + index + offset) % 0x1_0000
  {
  }

  lemma LowerWord(x: int)
    ensures U32(x) % 0x1_0000 == x % 0x1_0000
  {
  }

  /** `handle_leal`; no result means that the fix-up gives up. */
  method HandleLeal(o: Operand) returns (r: Option<seq<Insn>>)
    requires o.dest == Esp || Addressable(o)
    ensures r == if o.index == Some(Esp) then None else if o.dest == Esp then Some([Leaw(o)]) else Some(Rewritten(o))
  {
    if o.index == Some(Esp) { return None; }
    if o.dest == Esp { return Some([Leaw(o)]); }
    var offset, base, index, dest := o.offset, o.base, o.index, o.dest;
    var scale := if o.scale == 1 then 0 else if o.scale == 2 then 1 else if o.scale == 4 then 2 else 3;
    if scale == 0 && base == index {
      base, scale := None, 1;
    } else if index.None? || (scale == 0 && (base == Some(dest) || base == Some(Esp)) && index != Some(dest)) {
      base, index, scale := index, base, 0;
    }
    ghost var p := Rearranged(o);
    assert p == Operand(offset, base, index, scale, dest);
    hide Rearranged;
    var insns := [Pushfw];
    if base != Some(dest) {
      if index != Some(dest) { insns := [Movl(index.value, dest)] + insns; }
      if scale > 0 { insns := insns + [Shll(scale, dest)]; }
      if base.Some? {
        if base == Some(Esp) { offset := Expr(OffsetValue(offset) + 2); }
        insns := insns + [Addl(base.value, dest)];
      }
    } else if base == index {
      insns := insns + [Imull(Pow2(scale) + 1, dest)];
    } else {
      insns := insns + [Pushl(index.value)];
      insns := insns + [Shll(scale, index.value)];
      insns := insns + [Addl(index.value, dest)];
      insns := insns + [Popl(index.value)];
    }
    assert insns == First(p) + [Pushfw] + Middle(p);
    if offset.Expr? { insns := insns + [AddlImm(offset.v, dest)]; }
    assert insns == First(p) + [Pushfw] + Middle(p) + Final(p);
    insns := insns + [Popfw];
    return Some(insns);
  }

  // ----- calls and returns

  /** `calll`: a 32-bit return address. */
  function CallLong(s: State, ret: nat): State
    requires Valid(s)
  {
    Push32(s, ret)
  }

  /** Its replacement: `pushw %ax`, then `callw` with a 16-bit return address. */
  function CallShort(s: State, ret: nat): State
    requires Valid(s)
  {
    Push16(Push16(s, s.regs[Eax] % 0x1_0000), ret)
  }

  /** `retw $2`: the return address and the stack pointer afterwards. */
  function ReturnShort(s: State): (nat, State)
    requires Valid(s)
  {
    (Word16(s.mem, R(s, Esp)), Set(s, Esp, R(s, Esp) + 4))
  }

  /** Both calls give the callee the same registers, return word and memory outside the upper half of the address. */
  lemma CallFrame(s: State, ret: nat, b: int)
    requires Valid(s) && ret < 0x1_0000 && U32(R(s, Esp) - 1 - b) >= 4
    ensures var t, u, e := CallShort(s, ret), CallLong(s, ret), R(s, Esp);
            && t.regs == u.regs == s.regs[Esp := U32(e - 4)]
            && Word16(t.mem, e - 4) == Word16(u.mem, e - 4) == ret
            && Load(t.mem, b) == Load(u.mem, b) == Load(s.mem, b)
  {
    assert ret / 0x1_0000 == 0 && ret % 0x1_0000 == ret;
    hide Push16, Word16, Load, U32;
    TwoPushes(s, s.regs[Eax] % 0x1_0000, ret, b);
    TwoPushes(s, 0, ret, b);
  }

  lemma TwoPushes(s: State, v: nat, w: nat, b: int)
    requires Valid(s) && v < 0x1_0000 && w < 0x1_0000 && U32(R(s, Esp) - 1 - b) >= 4
    ensures var t, e := Push16(Push16(s, v), w), R(s, Esp);
            && t.regs == s.regs[Esp := U32(e - 4)] && Word16(t.mem, e - 4) == w && Load(t.mem, b) == Load(s.mem, b)
  {
    var e := R(s, Esp);
    Farther(e - 1 - b);
    hide Push16, Word16, Load, U32;
    Pushed16(s, v, e, 0, b);
    Pushed16(Push16(s, v), w, e - 2, 0, b);
  }

  lemma Farther(x: int)
    requires U32(x) >= 4
    ensures U32(x - 2) >= 2
  {
  }

  /** A callee that leaves the stack pointer and the return word alone returns to its caller's frame. */
  lemma ReturnAfterCall(s: State, ret: nat, t: State)
    requires Valid(s) && ret < 0x1_0000 && Valid(t)
    requires t.regs[Esp] == CallShort(s, ret).regs[Esp]
    requires Word16(t.mem, R(t, Esp)) == Word16(CallShort(s, ret).mem, R(t, Esp))
    ensures ReturnShort(t).0 == ret && ReturnShort(t).1 == t.(regs := t.regs[Esp := s.regs[Esp]])
  {
    hide CallShort;
    var e := R(s, Esp);
    CallFrame(s, ret, e);
    WordAddress(CallShort(s, ret).mem, e - 4, 0);
    Congruent(e - 4, 4);
    hide U32, Word16;
  }

  /** The replacement of `leave` has the effect of `leave`. */
  lemma LeavePreserved(s: State, alu: (Insn, State) -> nat)
    requires Valid(s)
    ensures var b := R(s, Ebp);
            Exec([Movl(Ebp, Esp), Popl(Ebp)], s, alu)
              == Set(Set(s, Esp, b + 4), Ebp, Word16(s.mem, b) + 0x1_0000 * Word16(s.mem, b + 2))
  {
    hide Exec, Word16, Load, U32;
    Exec2(Movl(Ebp, Esp), Popl(Ebp), s, alu);
    MovPop(s, alu);
  }

  lemma MovPop(s: State, alu: (Insn, State) -> nat)
    requires Valid(s)
    ensures var b := R(s, Ebp);
            Step(Popl(Ebp), Step(Movl(Ebp, Esp), s, alu), alu)
              == Set(Set(s, Esp, b + 4), Ebp, Word16(s.mem, b) + 0x1_0000 * Word16(s.mem, b + 2))
  {
    hide Word16, Load;
    var b := R(s, Ebp);
    SetAgain(s, Esp, b, b + 4);
  }

  lemma SetAgain(s: State, r: Reg, v: int, w: int)
    ensures Set(Set(s, r, v), r, w) == Set(s, r, w)
  {
    assert s.regs[r := U32(v)][r := U32(w)] == s.regs[r := U32(w)];
  }
}
