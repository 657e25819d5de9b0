/** The execution engine of `bemu`: a machine of ten 64-bit registers and a
    byte-addressed memory arena holding the loaded image. Each step fetches
    the record at RIP in place, advances RIP past it and runs the opcode's
    handler, which reads the record's fields from memory as it needs them.
    Undefined behaviour of the C program (memory outside the arena, register
    ids above 9, copies of more than 8 bytes out of an 8-byte cell, division
    by zero, opcode bytes above 21) is an explicit error here. */
module Emulator {
  import opened Bytes
  import opened Errors
  import opened Shared

  /** MEMORY_SIZE: the arena is 32 MiB. */
  const MemorySize: nat := 32 * 1024 * 1024

  type Registers = s: seq<uint64> | |s| == RegisterCount witness [0, 0, 0, 0, 0, 0, 0, 0, 0, 0]

  /** The machine state; `output` collects the values `print` writes. */
  datatype Machine = Machine(regs: Registers, mem: seq<uint8>, output: seq<uint64>)

  /** What `resolve_operand` returns a pointer to: a register cell or a
      memory index. */
  datatype Location = Reg(id: nat) | Mem(addr: nat)

  /** The machine after one step, and whether execution goes on (`false`
      only after `exit`). */
  datatype Next = Next(machine: Machine, running: bool)

  // Word arithmetic as C performs it on `u64`: modulo 2^64.

  function Add64(a: uint64, b: uint64): uint64 {
    if a + b < TwoTo64 then a + b else a + b - TwoTo64
  }

  function Sub64(a: uint64, b: uint64): uint64 {
    if a >= b then a - b else a - b + TwoTo64
  }

  function Mul64(a: uint64, b: uint64): uint64 {
    (a * b) % TwoTo64
  }

  /** An `int` converted to `u64`. */
  function FromInt32(x: int32): uint64 {
    if x >= 0 then x else x + TwoTo64
  }

  /** Word addition and subtraction are the integer ones reduced modulo
      2^64, and undo each other. */
  lemma WordArithmetic(a: uint64, b: uint64)
    ensures Add64(a, b) == Wrap64(a + b) && Sub64(a, b) == Wrap64(a - b)
    ensures Sub64(Add64(a, b), b) == a && Add64(Sub64(a, b), b) == a
  {
    ModUnique(a + b, TwoTo64, if a + b < TwoTo64 then 0 else 1, Add64(a, b));
    ModUnique(a - b, TwoTo64, if a >= b then 0 else -1, Sub64(a, b));
  }

  /** The `int` to `u64` conversion is reduction modulo 2^64. */
  lemma FromInt32Wraps(x: int32)
    ensures FromInt32(x) == Wrap64(x)
  {
    ModUnique(x, TwoTo64, if x >= 0 then 0 else -1, FromInt32(x));
  }

  function SetReg(m: Machine, r: uint8, v: uint64): (m': Machine)
    requires r < RegisterCount
  {
    m.(regs := m.regs[r := v])
  }

  function ByteAt(mem: seq<uint8>, i: nat): (r: Result<uint8>)
    ensures r.Ok? <==> i < |mem|
    ensures r.Ok? ==> r.value == mem[i]
  {
    if i < |mem| then Ok(mem[i]) else Err(MemoryOutOfBounds)
  }

  // ---------------------------------------------------------------------
  // Cells: reading and writing `n` bytes through a location.

  /** Whether `n` bytes can be copied at `loc`: a register cell holds 8. */
  predicate Fits(m: Machine, loc: Location, n: nat) {
    match loc
    case Reg(id) => id < RegisterCount && n <= 8
    case Mem(a) => a + n <= |m.mem|
  }

  function FitsError(loc: Location): Error {
    match loc
    case Reg(id) => if id < RegisterCount then BadSize else BadRegister
    case Mem(_) => MemoryOutOfBounds
  }

  /** The `n` bytes at `loc`, least significant first for a register. */
  function ReadLoc(m: Machine, loc: Location, n: nat): (r: Result<seq<uint8>>)
    ensures r.Ok? <==> Fits(m, loc, n)
    ensures r.Ok? ==> |r.value| == n
    ensures r.Ok? && loc.Mem? ==> r.value == m.mem[loc.addr..loc.addr + n]
  {
    if !Fits(m, loc, n) then Err(FitsError(loc))
    else match loc
      case Reg(id) => Ok(ToLE(m.regs[id], 8)[..n])
      case Mem(a) => Ok(m.mem[a..a + n])
  }

  /** `*(u64*)loc`. */
  function ReadWord(m: Machine, loc: Location): (r: Result<uint64>)
    ensures r.Ok? <==> Fits(m, loc, 8)
    ensures r.Ok? && loc.Reg? ==> r.value == m.regs[loc.id]
    ensures r.Ok? && loc.Mem? ==> r.value == FromLE(m.mem[loc.addr..loc.addr + 8])
  {
    var b :- ReadLoc(m, loc, 8);
    WordBound(b);
    if loc.Reg? then
      U64RoundTrip(m.regs[loc.id]);
      assert b == ToLE(m.regs[loc.id], 8);
      Ok(FromLE(b))
    else
      Ok(FromLE(b))
  }

  /** A register after `memcpy` of `bytes` onto its low end: the low bytes
      are replaced, the high bytes kept. */
  function Overlay(v: uint64, bytes: seq<uint8>): (r: uint64)
    requires |bytes| <= 8
    ensures ToLE(r, 8)[..|bytes|] == bytes
    ensures ToLE(r, 8)[|bytes|..] == ToLE(v, 8)[|bytes|..]
  {
    var b := bytes + ToLE(v, 8)[|bytes|..];
    Pow256Values();
    ToLEFromLE(b);
    assert b[..|bytes|] == bytes && b[|bytes|..] == ToLE(v, 8)[|bytes|..];
    FromLE(b)
  }

  /** `m'` is `m` outside the `n` bytes at `loc`: the output and the
      memory size are kept, and so is every other register and memory
      byte, and for a register the bytes above the low `n`. */
  predicate KeepsOutside(m: Machine, m': Machine, loc: Location, n: nat) {
    && m'.output == m.output && |m'.mem| == |m.mem|
    && (loc.Reg? ==>
          && m'.mem == m.mem && loc.id < RegisterCount && n <= 8
          && ToLE(m'.regs[loc.id], 8)[n..] == ToLE(m.regs[loc.id], 8)[n..]
          && forall i :: 0 <= i < RegisterCount && i != loc.id ==> m'.regs[i] == m.regs[i])
    && (loc.Mem? ==>
          && m'.regs == m.regs
          && forall i :: 0 <= i < |m.mem| && !(loc.addr <= i < loc.addr + n) ==> m'.mem[i] == m.mem[i])
  }

  /** `memcpy(loc, bytes, |bytes|)`: only the bytes written change. */
  function WriteLoc(m: Machine, loc: Location, bytes: seq<uint8>): (r: Result<Machine>)
    ensures r.Ok? <==> Fits(m, loc, |bytes|)
    ensures r.Ok? ==> KeepsOutside(m, r.value, loc, |bytes|)
    ensures r.Ok? ==> r.value.output == m.output && |r.value.mem| == |m.mem|
    ensures r.Ok? && loc.Reg? ==>
      && r.value.mem == m.mem
      && ToLE(r.value.regs[loc.id], 8)[..|bytes|] == bytes
      && ToLE(r.value.regs[loc.id], 8)[|bytes|..] == ToLE(m.regs[loc.id], 8)[|bytes|..]
      && forall i :: 0 <= i < RegisterCount && i != loc.id ==> r.value.regs[i] == m.regs[i]
    ensures r.Ok? && loc.Mem? ==>
      && r.value.regs == m.regs
      && r.value.mem[loc.addr..loc.addr + |bytes|] == bytes
      && forall i :: 0 <= i < |m.mem| && !(loc.addr <= i < loc.addr + |bytes|) ==> r.value.mem[i] == m.mem[i]
  {
    if !Fits(m, loc, |bytes|) then Err(FitsError(loc))
    else match loc
      case Reg(id) => Ok(m.(regs := m.regs[id := Overlay(m.regs[id], bytes)]))
      case Mem(a) =>
        var mem := m.mem[..a] + bytes + m.mem[a + |bytes|..];
        assert mem[a..a + |bytes|] == bytes;
        Ok(m.(mem := mem))
  }

  /** What is written can be read back, byte for byte. */
  lemma WriteThenRead(m: Machine, loc: Location, bytes: seq<uint8>)
    requires WriteLoc(m, loc, bytes).Ok?
    ensures ReadLoc(WriteLoc(m, loc, bytes).value, loc, |bytes|) == Ok(bytes)
  {
  }

  /** Writing the 8-byte encoding of a value into a cell makes the cell read
      that value as a word. */
  lemma WriteWordThenRead(m: Machine, loc: Location, v: uint64)
    requires WriteLoc(m, loc, ToLE(v, 8)).Ok?
    ensures ReadWord(WriteLoc(m, loc, ToLE(v, 8)).value, loc) == Ok(v)
  {
    var m' := WriteLoc(m, loc, ToLE(v, 8)).value;
    WriteThenRead(m, loc, ToLE(v, 8));
    ReadWordBytes(m', loc);
    U64RoundTrip(v);
  }

  /** A word is read as the number its eight bytes spell. */
  lemma ReadWordBytes(m: Machine, loc: Location)
    requires ReadLoc(m, loc, 8).Ok?
    ensures ReadWord(m, loc) == Ok(FromLE(ReadLoc(m, loc, 8).value))
  {
  }

  // ---------------------------------------------------------------------
  // Operands.

  /** `resolve_operand` for operand `k` of the record at `at`. A COMPLEX
      operand is a memory index computed from its sub-record, wrapping
      modulo 2^64; register2 is added whenever its sign byte is non-zero,
      so the subtracting branch of the C code is never taken. Otherwise an
      IMMEDIATE is its own payload slot inside the record, a REGISTER is the
      cell of its base register, and ADDRESS then treats that cell's 8-byte
      value as a memory index. */
  function ResolveOperand(m: Machine, at: nat, k: nat): (r: Result<Location>)
    requires k < MaxOperands
    ensures r.Ok? && r.value.Reg? ==> r.value.id < RegisterCount
  {
    var kind :- ByteAt(m.mem, at + RecordType(k));
    if HasFlag(kind, Complex) then
      var payload :- ReadU64At(m.mem, at + RecordPayload(k));
      var c := UnpackComplex(payload);
      if c.base >= RegisterCount || (c.register2Sign != 0 && c.register2 >= RegisterCount) then
        Err(BadRegister)
      else
        var second := if c.register2Sign != 0 then m.regs[c.register2] else 0;
        Ok(Mem(Add64(Add64(Mul64(m.regs[c.base], c.multiplier), second), FromInt32(c.offset))))
    else
      var cell :-
        if HasFlag(kind, Immediate) then Ok(Mem(at + RecordPayload(k)))
        else if HasFlag(kind, Register) then
          var base :- ByteAt(m.mem, at + RecordPayload(k) + ComplexBase);
          if base < RegisterCount then Ok(Reg(base)) else Err(BadRegister)
        else Err(BadOperandType);
      if HasFlag(kind, Address) then
        var index :- ReadWord(m, cell);
        Ok(Mem(index))
      else
        Ok(cell)
  }

  /** The location a COMPLEX sub-record with valid register ids denotes;
      register2 is read only when the sign byte is non-zero. */
  function EffectiveAddress(regs: Registers, c: ComplexOperand): (r: uint64)
    requires c.base < RegisterCount && (c.register2Sign != 0 ==> c.register2 < RegisterCount)
    ensures c.register2Sign == 0 ==> r == Wrap64(regs[c.base] * c.multiplier + c.offset)
    ensures c.register2Sign != 0 ==> r == Wrap64(regs[c.base] * c.multiplier + regs[c.register2] + c.offset)
  {
    var second := if c.register2Sign != 0 then regs[c.register2] else 0;
    var product := regs[c.base] * c.multiplier;
    assert Mul64(regs[c.base], c.multiplier) == Wrap64(product);
    ComplexSum(product, second, c.offset);
    Add64(Add64(Mul64(regs[c.base], c.multiplier), second), FromInt32(c.offset))
  }

  /** The three wrapping additions of a COMPLEX address are one reduction. */
  lemma ComplexSum(p: int, q: uint64, o: int32)
    ensures Add64(Add64(Wrap64(p), q), FromInt32(o)) == Wrap64(p + q + o)
  {
    var sum := Add64(Wrap64(p), q);
    WordArithmetic(Wrap64(p), q);
    WordArithmetic(sum, FromInt32(o));
    FromInt32Wraps(o);
    WrapSum(p, q, o);
  }

  lemma SumOfMultiples(u: int, v: int, w: int, z: int)
    requires u % TwoTo64 == 0 && v % TwoTo64 == 0 && w % TwoTo64 == 0 && z % TwoTo64 == 0
    ensures (u + v + w + z) % TwoTo64 == 0
  {
    var s := u / TwoTo64 + v / TwoTo64 + w / TwoTo64 + z / TwoTo64;
    assert u + v + w + z == TwoTo64 * s;
    ModUnique(u + v + w + z, TwoTo64, s, 0);
  }

  lemma WrapSum(p: int, q: int, o: int)
    ensures Wrap64(Wrap64(Wrap64(p) + q) + Wrap64(o)) == Wrap64(p + q + o)
  {
    var a := Wrap64(p);
    var b := Wrap64(a + q);
    var c := Wrap64(o);
    var x := Wrap64(b + c);
    assert (x - (p + q + o)) % TwoTo64 == 0 by {
      assert (a - p) % TwoTo64 == 0 && (b - (a + q)) % TwoTo64 == 0;
      assert (c - o) % TwoTo64 == 0 && (x - (b + c)) % TwoTo64 == 0;
      SumOfMultiples(a - p, b - (a + q), c - o, x - (b + c));
    }
    ModUnique(p + q + o, TwoTo64, (p + q + o - x) / TwoTo64, x);
  }

  /** A COMPLEX operand resolves to its effective address, never through an
      ADDRESS dereference; a zero sign byte (what the assembler stores for a
      `-rX` term) ignores register2 entirely, and a non-zero one adds it. */
  lemma ResolveComplex(m: Machine, at: nat, k: nat)
    requires k < MaxOperands && at + RecordPayload(k) + 8 <= |m.mem|
    requires HasFlag(m.mem[at + RecordType(k)], Complex)
    requires var c := UnpackComplex(FromLE(m.mem[at + RecordPayload(k)..at + RecordPayload(k) + 8]));
      c.base < RegisterCount && (c.register2Sign != 0 ==> c.register2 < RegisterCount)
    ensures var c := UnpackComplex(FromLE(m.mem[at + RecordPayload(k)..at + RecordPayload(k) + 8]));
      ResolveOperand(m, at, k) == Ok(Mem(EffectiveAddress(m.regs, c)))
  {
    RecordLayout(k);
  }

  /** An operand the assembler wrote for a register token (REGISTER|COMPLEX
      with named registers and a sign byte of 0 or 1) always resolves. */
  lemma ResolveNamed(m: Machine, at: nat, k: nat)
    requires k < MaxOperands && at + RecordPayload(k) + 8 <= |m.mem|
    requires HasFlag(m.mem[at + RecordType(k)], Register) && HasFlag(m.mem[at + RecordType(k)], Complex)
    requires NamedRegistersOf(FromLE(m.mem[at + RecordPayload(k)..at + RecordPayload(k) + 8]))
    ensures ResolveOperand(m, at, k).Ok? && ResolveOperand(m, at, k).value.Mem?
  {
    RecordLayout(k);
  }

  /** The register ids of a sub-record are in range, RFLAG excluded, and its
      sign byte is 0 or 1. */
  predicate NamedRegistersOf(payload: uint64) {
    var c := UnpackComplex(payload);
    && c.base < RegisterCount && c.base != RFLAG
    && c.register2 < RegisterCount && c.register2 != RFLAG
    && c.register2Sign in {0, 1}
  }

  /** A plain immediate (neither ADDRESS nor COMPLEX) is the record's own
      payload slot, and reads as that payload. */
  lemma ResolveImmediate(m: Machine, at: nat, k: nat)
    requires k < MaxOperands && at + RecordPayload(k) + 8 <= |m.mem|
    requires var t := m.mem[at + RecordType(k)];
      HasFlag(t, Immediate) && !HasFlag(t, Complex) && !HasFlag(t, Address)
    ensures ResolveOperand(m, at, k) == Ok(Mem(at + RecordPayload(k)))
    ensures ReadWord(m, Mem(at + RecordPayload(k))) == Ok(FromLE(m.mem[at + RecordPayload(k)..at + RecordPayload(k) + 8]))
  {
    RecordLayout(k);
  }

  /** A plain register operand is the cell of the register its payload's low
      byte names. */
  lemma ResolveRegister(m: Machine, at: nat, k: nat)
    requires k < MaxOperands && at + RecordPayload(k) + 8 <= |m.mem|
    requires var t := m.mem[at + RecordType(k)];
      HasFlag(t, Register) && !HasFlag(t, Immediate) && !HasFlag(t, Complex) && !HasFlag(t, Address)
    requires m.mem[at + RecordPayload(k)] < RegisterCount
    ensures ResolveOperand(m, at, k) == Ok(Reg(m.mem[at + RecordPayload(k)]))
  {
    RecordLayout(k);
  }

  /** An IMMEDIATE|ADDRESS operand (not COMPLEX) is the memory index its
      payload holds: `[100]` denotes memory byte 100. */
  lemma ResolveImmediateAddress(m: Machine, at: nat, k: nat)
    requires k < MaxOperands && at + RecordPayload(k) + 8 <= |m.mem|
    requires var t := m.mem[at + RecordType(k)];
      HasFlag(t, Immediate) && HasFlag(t, Address) && !HasFlag(t, Complex)
    ensures ResolveOperand(m, at, k) == Ok(Mem(FromLE(m.mem[at + RecordPayload(k)..at + RecordPayload(k) + 8])))
  {
    RecordLayout(k);
  }

  /** A REGISTER|ADDRESS operand (not COMPLEX) is the memory index its
      base register holds: `[r0]` denotes memory byte r0. */
  lemma ResolveRegisterAddress(m: Machine, at: nat, k: nat)
    requires k < MaxOperands && at + RecordPayload(k) + 8 <= |m.mem|
    requires var t := m.mem[at + RecordType(k)];
      HasFlag(t, Register) && !HasFlag(t, Immediate) && HasFlag(t, Address) && !HasFlag(t, Complex)
    requires m.mem[at + RecordPayload(k)] < RegisterCount
    ensures ResolveOperand(m, at, k) == Ok(Mem(m.regs[m.mem[at + RecordPayload(k)]]))
  {
    RecordLayout(k);
  }

  /** A type byte with none of IMMEDIATE, REGISTER and COMPLEX names no
      cell: the C code dereferences or returns a null pointer. */
  lemma ResolveUntyped(m: Machine, at: nat, k: nat)
    requires k < MaxOperands && at + RecordType(k) < |m.mem|
    requires var t := m.mem[at + RecordType(k)];
      !HasFlag(t, Immediate) && !HasFlag(t, Register) && !HasFlag(t, Complex)
    ensures ResolveOperand(m, at, k) == Err(BadOperandType)
  {
  }

  // ---------------------------------------------------------------------
  // The stack and jumps.

  /** `push`: RSP goes down by `size`, then `size` bytes read from `data`
      (after the decrement) are stored at the new RSP. */
  function StackPush(m: Machine, data: Location, size: uint8): (r: Result<Machine>)
    ensures r.Ok? ==> r.value.regs[RSP] == Sub64(m.regs[RSP], size)
    ensures r.Ok? ==>
      var sp := Sub64(m.regs[RSP], size);
      && ReadLoc(SetReg(m, RSP, sp), data, size).Ok?
      && sp + size <= |r.value.mem|
      && r.value.mem[sp..sp + size] == ReadLoc(SetReg(m, RSP, sp), data, size).value
    ensures r.Ok? ==> r.value.output == m.output && |r.value.mem| == |m.mem|
    ensures r.Ok? ==>
      var sp := Sub64(m.regs[RSP], size);
      KeepsOutside(SetReg(m, RSP, sp), r.value, Mem(sp), size)
  {
    var m1 := SetReg(m, RSP, Sub64(m.regs[RSP], size));
    var bytes :- ReadLoc(m1, data, size);
    WriteLoc(m1, Mem(m1.regs[RSP]), bytes)
  }

  /** `pop`: `size` bytes at RSP are copied to `target`, then RSP goes up by
      `size`. */
  function StackPop(m: Machine, target: Location, size: uint8): (r: Result<Machine>)
    ensures r.Ok? <==> Fits(m, Mem(m.regs[RSP]), size) && Fits(m, target, size)
    ensures r.Ok? && target != Reg(RSP) ==> r.value.regs[RSP] == Add64(m.regs[RSP], size)
    ensures r.Ok? && target != Reg(RSP) ==>
      ReadLoc(r.value, target, size) == ReadLoc(m, Mem(m.regs[RSP]), size)
    ensures r.Ok? ==> r.value.output == m.output && |r.value.mem| == |m.mem|
    ensures r.Ok? && target != Reg(RSP) ==>
      KeepsOutside(SetReg(m, RSP, Add64(m.regs[RSP], size)), r.value, target, size)
    ensures r.Ok? && target == Reg(RSP) ==>
      && r.value.mem == m.mem
      && r.value.regs[RSP] == Add64(Overlay(m.regs[RSP], ReadLoc(m, Mem(m.regs[RSP]), size).value), size)
      && forall i :: 0 <= i < RegisterCount && i != RSP ==> r.value.regs[i] == m.regs[i]
  {
    var bytes :- ReadLoc(m, Mem(m.regs[RSP]), size);
    var m1 :- WriteLoc(m, target, bytes);
    Ok(SetReg(m1, RSP, Add64(m1.regs[RSP], size)))
  }

  /** A pop of the size just pushed returns RSP to where it was and leaves
      in `target` exactly the bytes the push stored. */
  lemma PushPopRoundTrip(m: Machine, data: Location, target: Location, size: uint8)
    requires StackPush(m, data, size).Ok?
    requires StackPop(StackPush(m, data, size).value, target, size).Ok?
    requires target != Reg(RSP)
    ensures var m2 := StackPop(StackPush(m, data, size).value, target, size).value;
      && m2.regs[RSP] == m.regs[RSP]
      && ReadLoc(m2, target, size) == ReadLoc(SetReg(m, RSP, Sub64(m.regs[RSP], size)), data, size)
  {
    var m1 := StackPush(m, data, size).value;
    var pushed := ReadLoc(SetReg(m, RSP, Sub64(m.regs[RSP], size)), data, size).value;
    assert ReadLoc(m1, Mem(m1.regs[RSP]), size) == Ok(pushed);
    var w := WriteLoc(m1, target, pushed).value;
    WriteThenRead(m1, target, pushed);
    assert w.regs[RSP] == m1.regs[RSP];
    WordArithmetic(m.regs[RSP], size);
    var m2 := SetReg(w, RSP, Add64(w.regs[RSP], size));
    assert m2 == StackPop(m1, target, size).value;
    if target.Reg? {
      assert m2.regs[target.id] == w.regs[target.id];
    }
    assert ReadLoc(m2, target, size) == ReadLoc(w, target, size);
  }

  /** `*(u64*)resolve_operand(state, inst, k)`. */
  function OperandWord(m: Machine, at: nat, k: nat): (r: Result<uint64>)
    requires k < MaxOperands
  {
    var loc :- ResolveOperand(m, at, k);
    ReadWord(m, loc)
  }

  /** `jump`: RIP := 16 + the word operand 0 holds; nothing else changes. */
  function Jump(m: Machine, at: nat): (r: Result<Machine>)
    ensures r.Ok? <==> OperandWord(m, at, 0).Ok?
    ensures r.Ok? ==> r.value.regs[RIP] == Wrap64(ImageHeaderLen + OperandWord(m, at, 0).value)
    ensures r.Ok? ==> r.value == SetReg(m, RIP, r.value.regs[RIP])
  {
    var target :- OperandWord(m, at, 0);
    WordArithmetic(ImageHeaderLen, target);
    Ok(SetReg(m, RIP, Add64(ImageHeaderLen, target)))
  }

  // ---------------------------------------------------------------------
  // Handlers.

  /** The size byte of the record at `at`. */
  function SizeOf(m: Machine, at: nat): (r: Result<uint8>)
  {
    ByteAt(m.mem, at + RecordSize)
  }

  /** The five `basic_math` operators on `u64`; `/` and `%` by zero are
      undefined in C and an error here. */
  function Arith(op: Opcode, left: uint64, right: uint64): (r: Result<uint64>)
    requires op in {Add, Sub, Mul, Div, Mod}
    ensures r.Err? <==> op in {Div, Mod} && right == 0
    ensures r.Err? ==> r.error == DivideByZero
    ensures r.Ok? && op == Mod ==> r.value < right
  {
    match op
    case Add => Ok(Add64(left, right))
    case Sub => Ok(Sub64(left, right))
    case Mul => Ok(Mul64(left, right))
    case Div => if right == 0 then Err(DivideByZero) else Ok(left / right)
    case Mod => if right == 0 then Err(DivideByZero) else Ok(left % right)
  }

  /** What each operator computes: the integer sum, difference and product
      reduced modulo 2^64, and a quotient and remainder that rebuild the
      dividend. */
  lemma ArithMeaning(left: uint64, right: uint64)
    ensures Arith(Add, left, right) == Ok(Wrap64(left + right))
    ensures Arith(Sub, left, right) == Ok(Wrap64(left - right))
    ensures Arith(Mul, left, right) == Ok(Wrap64(left * right))
    ensures right > 0 ==>
      Arith(Div, left, right).value * right + Arith(Mod, left, right).value == left
  {
    WordArithmetic(left, right);
    if right > 0 {
      var q, rem := left / right, left % right;
      assert Arith(Div, left, right).value == q && Arith(Mod, left, right).value == rem;
      assert q * right + rem == left;
    }
  }

  /** The low `size` bytes of a 64-bit result, as `memcpy(dst, &result, size)`
      copies them; more than 8 reads past the variable. */
  function LowBytes(v: uint64, size: uint8): (r: Result<seq<uint8>>)
    ensures r.Ok? <==> size <= 8
    ensures r.Ok? ==> |r.value| == size && r.value == ToLE(v, size)
  {
    if size > 8 then Err(BadSize)
    else
      ToLEPrefix(v, 8, size);
      Ok(ToLE(v, 8)[..size])
  }

  /** `memcpy(loc, &v, size)` from a 64-bit variable `v`. */
  function WriteLow(m: Machine, loc: Location, v: uint64, size: uint8): (r: Result<Machine>)
    ensures r.Ok? ==> size <= 8
    ensures r.Ok? ==> KeepsOutside(m, r.value, loc, size)
  {
    var bytes :- LowBytes(v, size);
    WriteLoc(m, loc, bytes)
  }

  /** A low-bytes write into a register changes only that register's low
      `size` bytes. */
  lemma WriteLowRegister(m: Machine, r: uint8, v: uint64, size: uint8)
    requires r < RegisterCount
    ensures WriteLow(m, Reg(r), v, size).Ok? <==> size <= 8
    ensures var w := WriteLow(m, Reg(r), v, size);
      w.Ok? ==>
      && w.value.mem == m.mem && w.value.output == m.output
      && ToLE(w.value.regs[r], 8)[..size] == ToLE(v, size)
      && ToLE(w.value.regs[r], 8)[size..] == ToLE(m.regs[r], 8)[size..]
      && forall i :: 0 <= i < RegisterCount && i != r ==> w.value.regs[i] == m.regs[i]
  {
  }

  /** `push` of operand 0: the `size` bytes it holds, read once RSP has
      moved down, are stored at the new RSP. */
  function ExecPush(m: Machine, at: nat): (r: Result<Machine>)
    ensures r.Ok? ==> ResolveOperand(m, at, 0).Ok? && SizeOf(m, at).Ok?
    ensures r.Ok? ==> StackPush(m, ResolveOperand(m, at, 0).value, SizeOf(m, at).value) == r
    ensures r.Ok? ==>
      var data, size := ResolveOperand(m, at, 0).value, SizeOf(m, at).value;
      var sp := Sub64(m.regs[RSP], size);
      && r.value.regs[RSP] == sp
      && ReadLoc(SetReg(m, RSP, sp), data, size).Ok?
      && sp + size <= |r.value.mem|
      && r.value.mem[sp..sp + size] == ReadLoc(SetReg(m, RSP, sp), data, size).value
      && KeepsOutside(SetReg(m, RSP, sp), r.value, Mem(sp), size)
  {
    var data :- ResolveOperand(m, at, 0);
    var size :- SizeOf(m, at);
    StackPush(m, data, size)
  }

  /** `pop` into operand 0: the `size` bytes at RSP are copied there,
      then RSP goes up by `size`. */
  function ExecPop(m: Machine, at: nat): (r: Result<Machine>)
    ensures r.Ok? ==> ResolveOperand(m, at, 0).Ok? && SizeOf(m, at).Ok?
    ensures r.Ok? ==> StackPop(m, ResolveOperand(m, at, 0).value, SizeOf(m, at).value) == r
    ensures r.Ok? ==>
      var target, size := ResolveOperand(m, at, 0).value, SizeOf(m, at).value;
      var sp := m.regs[RSP];
      && sp + size <= |m.mem|
      && (target != Reg(RSP) ==>
            && r.value.regs[RSP] == Add64(sp, size)
            && ReadLoc(r.value, target, size) == Ok(m.mem[sp..sp + size])
            && KeepsOutside(SetReg(m, RSP, Add64(sp, size)), r.value, target, size))
    ensures r.Ok? ==> r.value.output == m.output && |r.value.mem| == |m.mem|
  {
    match ResolveOperand(m, at, 0)
    case Err(e) => Err(e)
    case Ok(target) =>
      match SizeOf(m, at)
      case Err(e) => Err(e)
      case Ok(size) => StackPop(m, target, size)
  }

  /** A `push` followed by a `pop` of the same size into any cell but RSP
      restores RSP and leaves in the cell the bytes the pushed operand
      held; pushing one register and popping a full word into another
      copies its value. */
  lemma PushThenPop(m: Machine, at: nat, m1: Machine, at2: nat)
    requires ExecPush(m, at) == Ok(m1) && ExecPop(m1, at2).Ok?
    requires SizeOf(m1, at2) == SizeOf(m, at)
    requires ResolveOperand(m1, at2, 0).Ok? && ResolveOperand(m1, at2, 0).value != Reg(RSP)
    ensures ResolveOperand(m, at, 0).Ok? && SizeOf(m, at).Ok?
    ensures var m2 := ExecPop(m1, at2).value;
      var data, target := ResolveOperand(m, at, 0).value, ResolveOperand(m1, at2, 0).value;
      var size := SizeOf(m, at).value;
      && m2.regs[RSP] == m.regs[RSP]
      && ReadLoc(m2, target, size) == ReadLoc(SetReg(m, RSP, Sub64(m.regs[RSP], size)), data, size)
      && (size == 8 && data.Reg? && data != Reg(RSP) && target.Reg? ==> m2.regs[target.id] == m.regs[data.id])
  {
    var data, target := ResolveOperand(m, at, 0).value, ResolveOperand(m1, at2, 0).value;
    var size := SizeOf(m, at).value;
    assert StackPush(m, data, size) == Ok(m1);
    assert StackPop(m1, target, size) == ExecPop(m1, at2);
    PushPopRoundTrip(m, data, target, size);
    var m2 := ExecPop(m1, at2).value;
    if size == 8 && data.Reg? && data != Reg(RSP) && target.Reg? {
      SameBytesSameWord(m2.regs[target.id], m.regs[data.id]);
    }
  }

  /** Two words whose eight little-endian bytes agree are equal. */
  lemma SameBytesSameWord(a: uint64, b: uint64)
    requires ToLE(a, 8)[..8] == ToLE(b, 8)[..8]
    ensures a == b
  {
    assert ToLE(a, 8) == ToLE(a, 8)[..8];
    assert ToLE(b, 8) == ToLE(b, 8)[..8];
    U64RoundTrip(a);
    U64RoundTrip(b);
  }

  /** `mov`: afterwards operand 0 holds the `size` bytes operand 1 held
      before (both operands are resolved before the copy). */
  function ExecMov(m: Machine, at: nat): (r: Result<Machine>)
    ensures r.Ok? ==> ResolveOperand(m, at, 0).Ok? && ResolveOperand(m, at, 1).Ok? && SizeOf(m, at).Ok?
    ensures r.Ok? ==>
      var size := SizeOf(m, at).value;
      ReadLoc(r.value, ResolveOperand(m, at, 0).value, size) == ReadLoc(m, ResolveOperand(m, at, 1).value, size)
    ensures r.Ok? ==> KeepsOutside(m, r.value, ResolveOperand(m, at, 0).value, SizeOf(m, at).value)
  {
    var dst :- ResolveOperand(m, at, 0);
    var src :- ResolveOperand(m, at, 1);
    var size :- SizeOf(m, at);
    var bytes :- ReadLoc(m, src, size);
    WriteLoc(m, dst, bytes)
  }

  /** `call`: the (already advanced) RIP is stored, little-endian, in the 8
      bytes below RSP, RSP moves down by 8, and RIP becomes 16 plus the word
      operand 0 holds once the push is done. */
  function ExecCall(m: Machine, at: nat): (r: Result<Machine>)
    ensures r.Ok? ==>
      var sp := Sub64(m.regs[RSP], 8);
      && r.value.regs[RSP] == sp && sp + 8 <= |r.value.mem|
      && r.value.mem[sp..sp + 8] == ToLE(m.regs[RIP], 8)
    ensures r.Ok? ==>
      && StackPush(m, Reg(RIP), 8).Ok?
      && OperandWord(StackPush(m, Reg(RIP), 8).value, at, 0).Ok?
      && r.value.regs[RIP] == Wrap64(ImageHeaderLen + OperandWord(StackPush(m, Reg(RIP), 8).value, at, 0).value)
    ensures r.Ok? ==>
      var sp := Sub64(m.regs[RSP], 8);
      && r.value.regs == m.regs[RSP := sp][RIP := r.value.regs[RIP]]
      && r.value.output == m.output && |r.value.mem| == |m.mem|
      && forall i :: 0 <= i < |m.mem| && !(sp <= i < sp + 8) ==> r.value.mem[i] == m.mem[i]
  {
    var m1 :- StackPush(m, Reg(RIP), 8);
    assert ToLE(m.regs[RIP], 8)[..8] == ToLE(m.regs[RIP], 8);
    Jump(m1, at)
  }

  /** `ret`: RIP is loaded from the 8 bytes at RSP, and RSP moves up by 8. */
  function ExecRet(m: Machine): (r: Result<Machine>)
    ensures r.Ok? <==> m.regs[RSP] + 8 <= |m.mem|
    ensures r.Ok? ==>
      var sp := m.regs[RSP];
      && sp + 8 <= |m.mem|
      && r.value.regs[RIP] == FromLE(m.mem[sp..sp + 8])
      && r.value.regs[RSP] == Add64(sp, 8)
    ensures r.Ok? ==> r.value.output == m.output && r.value.mem == m.mem
    ensures r.Ok? ==> forall i :: 0 <= i < RegisterCount && i != RIP && i != RSP ==> r.value.regs[i] == m.regs[i]
  {
    var r := StackPop(m, Reg(RIP), 8);
    if r.Ok? then
      WordOfBytes(r.value.regs[RIP], m.mem[m.regs[RSP]..m.regs[RSP] + 8]);
      r
    else r
  }

  /** A word whose eight bytes are `b` is the number `b` spells. */
  lemma WordOfBytes(v: uint64, b: seq<uint8>)
    requires ToLE(v, 8)[..8] == b
    ensures v == FromLE(b)
  {
    assert ToLE(v, 8) == b;
    U64RoundTrip(v);
  }

  /** add, sub, mul, div, mod: full 8-byte operands are read, and the low
      `size` bytes of the 64-bit result are written back over operand 0; a
      zero divisor is an error. */
  function ExecMath(m: Machine, at: nat, op: Opcode): (r: Result<Machine>)
    requires op in {Add, Sub, Mul, Div, Mod}
    ensures r.Ok? ==>
      && ResolveOperand(m, at, 0).Ok? && ReadWord(m, ResolveOperand(m, at, 0).value).Ok?
      && ResolveOperand(m, at, 1).Ok? && ReadWord(m, ResolveOperand(m, at, 1).value).Ok?
      && SizeOf(m, at).Ok?
    ensures r.Ok? ==>
      var target := ResolveOperand(m, at, 0).value;
      var left := ReadWord(m, target).value;
      var right := ReadWord(m, ResolveOperand(m, at, 1).value).value;
      && Arith(op, left, right).Ok?
      && ReadLoc(r.value, target, SizeOf(m, at).value) == Ok(ToLE(Arith(op, left, right).value, SizeOf(m, at).value))
    ensures op in {Div, Mod} && ResolveOperand(m, at, 0).Ok? && ReadWord(m, ResolveOperand(m, at, 0).value).Ok?
      && ResolveOperand(m, at, 1).Ok? && ReadWord(m, ResolveOperand(m, at, 1).value) == Ok(0)
      ==> r == Err(DivideByZero)
    ensures r.Ok? ==> KeepsOutside(m, r.value, ResolveOperand(m, at, 0).value, SizeOf(m, at).value)
  {
    var target :- ResolveOperand(m, at, 0);
    var left :- ReadWord(m, target);
    var source :- ResolveOperand(m, at, 1);
    var right :- ReadWord(m, source);
    var result :- Arith(op, left, right);
    var size :- SizeOf(m, at);
    WriteLow(m, target, result, size)
  }

  /** The value `++` (`increment`) or `--` leaves in a `u64`. */
  function Bump(v: uint64, increment: bool): (r: uint64)
    ensures r == Wrap64(v + if increment then 1 else -1)
  {
    WordArithmetic(v, 1);
    if increment then Add64(v, 1) else Sub64(v, 1)
  }

  /** inc (`increment`) and dec: the whole word of operand 0 is updated in
      place, then its low `size` bytes are copied over themselves (the size
      byte is read after the update). */
  function ExecIncDec(m: Machine, at: nat, increment: bool): (r: Result<Machine>)
    ensures r.Ok? ==> ResolveOperand(m, at, 0).Ok? && ReadWord(m, ResolveOperand(m, at, 0).value).Ok?
    ensures r.Ok? ==> r.value.output == m.output && |r.value.mem| == |m.mem|
  {
    var target :- ResolveOperand(m, at, 0);
    var v :- ReadWord(m, target);
    var result := Bump(v, increment);
    var m1 := WriteLoc(m, target, ToLE(result, 8)).value;
    var size :- SizeOf(m1, at);
    WriteLow(m1, target, result, size)
  }

  /** After inc (`increment`) or dec, all 8 bytes of operand 0's cell hold
      its value plus or minus one, modulo 2^64, whatever the size byte
      says; nothing else changes. */
  lemma IncDecCell(m: Machine, at: nat, increment: bool)
    requires ExecIncDec(m, at, increment).Ok?
    ensures var target := ResolveOperand(m, at, 0).value;
      var result := Wrap64(ReadWord(m, target).value + if increment then 1 else -1);
      && (target.Reg? ==> ExecIncDec(m, at, increment).value == m.(regs := m.regs[target.id := result]))
      && (target.Mem? ==> target.addr + 8 <= |m.mem| && ExecIncDec(m, at, increment).value == StoreWord(m, target.addr, result))
  {
    var target := ResolveOperand(m, at, 0).value;
    var result := Bump(ReadWord(m, target).value, increment);
    var m1 := WriteLoc(m, target, ToLE(result, 8)).value;
    var size := SizeOf(m1, at).value;
    assert ExecIncDec(m, at, increment) == WriteLow(m1, target, result, size);
    if target.Reg? {
      RewriteRegister(m, target.id, result, size);
    } else {
      RewriteMemoryCell(m, target.addr, result, size);
    }
  }

  /** Memory with the 8 bytes at `a` replaced by the encoding of `v`. */
  function StoreWord(m: Machine, a: nat, v: uint64): Machine
    requires a + 8 <= |m.mem|
  {
    m.(mem := m.mem[..a] + ToLE(v, 8) + m.mem[a + 8..])
  }

  /** Writing a whole word into a memory cell, then its low bytes again,
      leaves the cell holding the word's encoding and everything else as
      it was. */
  lemma RewriteMemoryCell(m: Machine, a: nat, v: uint64, size: uint8)
    requires a + 8 <= |m.mem|
    ensures WriteLoc(m, Mem(a), ToLE(v, 8)) == Ok(StoreWord(m, a, v))
    ensures WriteLow(StoreWord(m, a, v), Mem(a), v, size).Ok? ==>
      WriteLow(StoreWord(m, a, v), Mem(a), v, size) == Ok(StoreWord(m, a, v))
  {
    var m1 := StoreWord(m, a, v);
    assert m1.mem[a..a + 8] == ToLE(v, 8);
    if size <= 8 {
      RewriteMemory(m1, a, v, size);
    }
  }

  /** The same for a register cell. */
  lemma RewriteRegister(m: Machine, r: nat, v: uint64, size: uint8)
    requires r < RegisterCount
    ensures WriteLoc(m, Reg(r), ToLE(v, 8)) == Ok(m.(regs := m.regs[r := v]))
    ensures var m1 := m.(regs := m.regs[r := v]);
      WriteLow(m1, Reg(r), v, size).Ok? ==> WriteLow(m1, Reg(r), v, size) == Ok(m1)
  {
    WriteWholeRegister(m, r, v);
    var m1 := m.(regs := m.regs[r := v]);
    if size <= 8 {
      ToLEPrefix(v, 8, size);
      WriteSameBytes(m1, r, size);
      assert WriteLow(m1, Reg(r), v, size) == WriteLoc(m1, Reg(r), ToLE(m1.regs[r], 8)[..size]);
    }
  }

  /** Memory holding a word's encoding is left alone by a write of the
      word's low bytes. */
  lemma RewriteMemory(m1: Machine, a: nat, v: uint64, size: uint8)
    requires a + 8 <= |m1.mem| && m1.mem[a..a + 8] == ToLE(v, 8) && size <= 8
    ensures WriteLow(m1, Mem(a), v, size) == Ok(m1)
  {
    ToLEPrefix(v, 8, size);
    assert m1.mem[a..a + size] == m1.mem[a..a + 8][..size];
    WriteSameMemory(m1, a, size);
  }

  /** Copying memory bytes over themselves changes nothing. */
  lemma WriteSameMemory(m: Machine, a: nat, n: nat)
    requires a + n <= |m.mem|
    ensures WriteLoc(m, Mem(a), m.mem[a..a + n]) == Ok(m)
  {
    assert m.mem[..a] + m.mem[a..a + n] + m.mem[a + n..] == m.mem;
  }

  /** `cmp` changes RFLAG only, and only in its low `size` bytes, which
      hold the low bytes of left - right. */
  function ExecCmp(m: Machine, at: nat): (r: Result<Machine>)
    ensures r.Ok? ==> OperandWord(m, at, 0).Ok? && OperandWord(m, at, 1).Ok? && SizeOf(m, at).Ok?
    ensures r.Ok? ==>
      var size := SizeOf(m, at).value;
      var diff := Sub64(OperandWord(m, at, 0).value, OperandWord(m, at, 1).value);
      && r.value.mem == m.mem && r.value.output == m.output && size <= 8
      && ToLE(r.value.regs[RFLAG], 8)[..size] == ToLE(diff, size)
      && ToLE(r.value.regs[RFLAG], 8)[size..] == ToLE(m.regs[RFLAG], 8)[size..]
      && forall i :: 0 <= i < RegisterCount && i != RFLAG ==> r.value.regs[i] == m.regs[i]
  {
    var l :- OperandWord(m, at, 0);
    var rv :- OperandWord(m, at, 1);
    var size :- SizeOf(m, at);
    WriteLowRegister(m, RFLAG, Sub64(l, rv), size);
    WriteLow(m, Reg(RFLAG), Sub64(l, rv), size)
  }

  predicate IsConditional(op: Opcode) {
    op in {Je, Jne, Jl, Jle, Jg, Jge}
  }

  /** Whether a conditional jump is taken, given RFLAG read as `i64`. */
  predicate Taken(op: Opcode, flag: int)
    requires IsConditional(op)
  {
    match op
    case Je => flag == 0
    case Jne => flag != 0
    case Jl => flag < 0
    case Jle => flag <= 0
    case Jg => flag > 0
    case Jge => flag >= 0
  }

  function ExecConditional(m: Machine, at: nat, op: Opcode): (r: Result<Machine>)
    requires IsConditional(op)
  {
    if Taken(op, Signed64(m.regs[RFLAG])) then Jump(m, at) else Ok(m)
  }

  /** `print`: the word operand 0 holds goes to the output. */
  function ExecPrint(m: Machine, at: nat): (r: Result<Machine>)
    ensures r.Ok? <==> OperandWord(m, at, 0).Ok?
    ensures r.Ok? ==> r.value.regs == m.regs && r.value.mem == m.mem
    ensures r.Ok? ==> r.value.output == m.output + [OperandWord(m, at, 0).value]
  {
    var v :- OperandWord(m, at, 0);
    Ok(m.(output := m.output + [v]))
  }

  /** The handler table, for every opcode but `exit`: no handler resizes
      memory, and only `print` writes output, the word operand 0 holds. */
  function Handler(m: Machine, at: nat, op: Opcode): (r: Result<Machine>)
    ensures r.Ok? ==> |r.value.mem| == |m.mem|
    ensures r.Ok? && op != Print ==> r.value.output == m.output
    ensures r.Ok? && op == Print ==> OperandWord(m, at, 0).Ok? && r.value.output == m.output + [OperandWord(m, at, 0).value]
  {
    match op
    case Push => ExecPush(m, at)
    case Pop => ExecPop(m, at)
    case Jmp => Jump(m, at)
    case Mov => ExecMov(m, at)
    case Call => ExecCall(m, at)
    case Ret => ExecRet(m)
    case Add | Sub | Mul | Div | Mod => ExecMath(m, at, op)
    case Inc => ExecIncDec(m, at, true)
    case Dec => ExecIncDec(m, at, false)
    case Cmp => ExecCmp(m, at)
    case Je | Jne | Jl | Jle | Jg | Jge => ExecConditional(m, at, op)
    case Print => ExecPrint(m, at)
    case Exit => Ok(m)
  }

  /** `execute_instruction`: every handler but `exit` keeps the machine
      running. */
  function Dispatch(m: Machine, at: nat, op: Opcode): (r: Result<Next>)
    ensures r.Ok? ==> (r.value.running <==> op != Exit)
  {
    if op == Exit then Ok(Next(m, false))
    else
      var m' :- Handler(m, at, op);
      Ok(Next(m', true))
  }

  // ---------------------------------------------------------------------
  // The fetch-execute step.

  /** The opcode of the record at RIP. */
  function Fetch(m: Machine): (r: Result<Opcode>)
    ensures r.Ok? ==> m.regs[RIP] < |m.mem| && Code(r.value) == m.mem[m.regs[RIP]]
  {
    var b :- ByteAt(m.mem, m.regs[RIP]);
    OpcodeOf(b)
  }

  /** RIP moved past a record of `op`. */
  function Advance(m: Machine, op: Opcode): (m': Machine) {
    SetReg(m, RIP, Add64(m.regs[RIP], EncodedLen(Arity(op))))
  }

  /** `execute`: fetch at RIP, advance RIP by the record's length, then run
      the handler on the record still in place at the old RIP. */
  function Step(m: Machine): (r: Result<Next>)
    ensures Fetch(m).Err? ==> r == Err(Fetch(m).error)
    ensures r.Ok? ==> Fetch(m).Ok? && (r.value.running <==> Fetch(m).value != Exit)
    ensures r.Ok? && Fetch(m).value == Exit ==> r.value.machine == SetReg(m, RIP, Add64(m.regs[RIP], 8))
    ensures r.Ok? ==> |r.value.machine.mem| == |m.mem|
    ensures r.Ok? && Fetch(m).value != Print ==> r.value.machine.output == m.output
  {
    var op :- Fetch(m);
    Dispatch(Advance(m, op), m.regs[RIP], op)
  }

  /** A step of any opcode but `exit` is its handler run on the advanced
      machine and the record at the old RIP. */
  lemma StepRuns(m: Machine, op: Opcode)
    requires Fetch(m) == Ok(op) && op != Exit
    ensures Step(m).Ok? <==> Handler(Advance(m, op), m.regs[RIP], op).Ok?
    ensures Step(m).Ok? ==> Step(m).value == Next(Handler(Advance(m, op), m.regs[RIP], op).value, true)
  {
  }

  /** The entries of the handler table used below. */
  lemma HandlerIs(m: Machine, at: nat, op: Opcode)
    ensures op == Jmp ==> Handler(m, at, op) == Jump(m, at)
    ensures op == Call ==> Handler(m, at, op) == ExecCall(m, at)
    ensures op == Ret ==> Handler(m, at, op) == ExecRet(m)
  {
  }

  /** A byte of 22 or more at RIP is no opcode. */
  lemma StepUnknownOpcode(m: Machine)
    requires m.regs[RIP] < |m.mem| && m.mem[m.regs[RIP]] >= OpcodeCount
    ensures Step(m) == Err(UnknownOpcode)
  {
  }

  /** A conditional jump behaves exactly as `jmp` when its condition on the
      signed RFLAG holds, and otherwise only advances RIP. */
  lemma ConditionalJump(m: Machine, op: Opcode)
    requires Fetch(m) == Ok(op) && IsConditional(op)
    ensures var flag := Signed64(m.regs[RFLAG]);
      Taken(op, flag) ==> Step(m) == Dispatch(Advance(m, op), m.regs[RIP], Jmp)
    ensures !Taken(op, Signed64(m.regs[RFLAG])) ==> Step(m) == Ok(Next(Advance(m, op), true))
  {
    assert Advance(m, op).regs[RFLAG] == m.regs[RFLAG];
  }

  /** The six conditions, one by one, on the `i64` reading of RFLAG. */
  lemma TakenConditions(flag: uint64)
    ensures Taken(Je, Signed64(flag)) <==> flag == 0
    ensures Taken(Jne, Signed64(flag)) <==> flag != 0
    ensures Taken(Jl, Signed64(flag)) <==> flag >= TwoTo63
    ensures Taken(Jge, Signed64(flag)) <==> flag < TwoTo63
    ensures Taken(Jg, Signed64(flag)) <==> 0 < flag < TwoTo63
    ensures Taken(Jle, Signed64(flag)) <==> flag == 0 || flag >= TwoTo63
  {
  }

  /** A `jmp` whose operand is a literal address (what the assembler's
      second pass stores) lands on that address past the header. */
  lemma JumpToLiteral(m: Machine, address: uint64)
    requires DecodeInstruction(m.mem, m.regs[RIP]).Ok?
    requires var inst := DecodeInstruction(m.mem, m.regs[RIP]).value;
      inst.opcode == Jmp && inst.operands[0] == Operand(Or(Immediate, Literal), address)
    ensures Step(m) == Ok(Next(SetReg(m, RIP, Add64(ImageHeaderLen, address)), true))
  {
    var at := m.regs[RIP];
    DecodedFirstOperand(m.mem, at);
    OpcodeNumbering(Jmp, 0);
    assert Fetch(m) == Ok(Jmp);
    StepRuns(m, Jmp);
    HandlerIs(Advance(m, Jmp), at, Jmp);
    var a := Advance(m, Jmp);
    assert a.mem == m.mem;
    ImmediateJump(a, at, address);
    var target := Add64(ImageHeaderLen, address);
    assert a.regs[RIP := target] == m.regs[RIP := target];
  }

  /** The type byte and payload of a decoded first operand are the bytes
      of the record. */
  lemma DecodedFirstOperand(mem: seq<uint8>, at: nat)
    requires DecodeInstruction(mem, at).Ok? && Arity(DecodeInstruction(mem, at).value.opcode) >= 1
    ensures var o := DecodeInstruction(mem, at).value.operands[0];
      && at + RecordPayload(0) + 8 <= |mem|
      && mem[at + RecordType(0)] == o.kind
      && FromLE(mem[at + RecordPayload(0)..at + RecordPayload(0) + 8]) == o.payload
  {
    RecordLayout(0);
  }

  /** A jump through an immediate literal word. */
  lemma ImmediateJump(a: Machine, at: nat, address: uint64)
    requires at + RecordPayload(0) + 8 <= |a.mem|
    requires a.mem[at + RecordType(0)] == Or(Immediate, Literal)
    requires FromLE(a.mem[at + RecordPayload(0)..at + RecordPayload(0) + 8]) == address
    ensures Jump(a, at) == Ok(SetReg(a, RIP, Add64(ImageHeaderLen, address)))
  {
    FlagsIndependent(Immediate, Immediate, Literal);
    FlagsIndependent(Immediate, Complex, Literal);
    FlagsIndependent(Immediate, Address, Literal);
    ResolveImmediate(a, at, 0);
  }

  /** `call` leaves RSP 8 lower with the address of the next record stored
      there, little-endian. */
  lemma CallPushes(m: Machine, m1: Machine)
    requires Fetch(m) == Ok(Call) && Step(m) == Ok(Next(m1, true))
    ensures var sp := Sub64(m.regs[RSP], 8);
      && m1.regs[RSP] == sp && sp + 8 <= |m1.mem|
      && m1.mem[sp..sp + 8] == ToLE(Add64(m.regs[RIP], EncodedLen(1)), 8)
  {
    StepRuns(m, Call);
    var a := Advance(m, Call);
    HandlerIs(a, m.regs[RIP], Call);
    assert ExecCall(a, m.regs[RIP]).value == m1;
    assert a.regs[RSP] == m.regs[RSP];
    assert Arity(Call) == 1;
    assert a.regs[RIP] == Add64(m.regs[RIP], EncodedLen(1));
  }

  /** `call r` with a plain register operand jumps to 16 + that
      register, read after the push: `call rsp` sees RSP already lowered
      by 8. `p` is the machine right after the push. */
  lemma CallRegisterTarget(m: Machine, p: Machine, at: nat)
    requires StackPush(m, Reg(RIP), 8) == Ok(p)
    requires at + RecordPayload(0) + 8 <= |p.mem|
    requires var t := p.mem[at + RecordType(0)];
      HasFlag(t, Register) && !HasFlag(t, Immediate) && !HasFlag(t, Complex) && !HasFlag(t, Address)
    requires p.mem[at + RecordPayload(0)] < RegisterCount
    ensures ExecCall(m, at).Ok?
    ensures var r := p.mem[at + RecordPayload(0)];
      && (r != RSP ==> ExecCall(m, at).value.regs[RIP] == Add64(ImageHeaderLen, m.regs[r]))
      && (r == RSP ==> ExecCall(m, at).value.regs[RIP] == Add64(ImageHeaderLen, Sub64(m.regs[RSP], 8)))
  {
    ResolveRegister(p, at, 0);
    var r := p.mem[at + RecordPayload(0)];
    CallTarget(m, p, at, p.regs[r]);
  }

  /** `call` jumps to 16 + the word its operand holds after the push. */
  lemma CallTarget(m: Machine, p: Machine, at: nat, w: uint64)
    requires StackPush(m, Reg(RIP), 8) == Ok(p) && OperandWord(p, at, 0) == Ok(w)
    ensures ExecCall(m, at).Ok? && ExecCall(m, at).value.regs[RIP] == Add64(ImageHeaderLen, w)
  {
    WordArithmetic(ImageHeaderLen, w);
  }

  /** `call [a]` jumps to 16 + the word stored at memory byte `a`, read
      after the push (`ReadWord` reads it little-endian), so a word
      overlapping the new stack slot reads the return address. `p` is the
      machine right after the push; `a` is the operand's payload. */
  lemma CallAddressTarget(m: Machine, p: Machine, at: nat, a: nat)
    requires StackPush(m, Reg(RIP), 8) == Ok(p)
    requires at + RecordPayload(0) + 8 <= |p.mem|
    requires var t := p.mem[at + RecordType(0)];
      HasFlag(t, Immediate) && HasFlag(t, Address) && !HasFlag(t, Complex)
    requires a == FromLE(p.mem[at + RecordPayload(0)..at + RecordPayload(0) + 8]) && a + 8 <= |p.mem|
    ensures ExecCall(m, at).Ok? && ReadWord(p, Mem(a)).Ok?
    ensures ExecCall(m, at).value.regs[RIP] == Add64(ImageHeaderLen, ReadWord(p, Mem(a)).value)
  {
    AddressWord(p, at, a);
    CallTarget(m, p, at, ReadWord(p, Mem(a)).value);
  }

  /** An IMMEDIATE|ADDRESS operand holding `a` reads the word at byte `a`. */
  lemma AddressWord(p: Machine, at: nat, a: nat)
    requires at + RecordPayload(0) + 8 <= |p.mem|
    requires var t := p.mem[at + RecordType(0)];
      HasFlag(t, Immediate) && HasFlag(t, Address) && !HasFlag(t, Complex)
    requires a == FromLE(p.mem[at + RecordPayload(0)..at + RecordPayload(0) + 8]) && a + 8 <= |p.mem|
    ensures ReadWord(p, Mem(a)).Ok? && OperandWord(p, at, 0) == ReadWord(p, Mem(a))
  {
    ResolveImmediateAddress(p, at, 0);
  }

  /** `ret` loads RIP from the 8 bytes at RSP and moves RSP 8 higher. */
  lemma RetPops(m: Machine, m1: Machine)
    requires Fetch(m) == Ok(Ret) && Step(m) == Ok(Next(m1, true))
    ensures var sp := m.regs[RSP];
      && sp + 8 <= |m.mem|
      && m1.regs[RIP] == FromLE(m.mem[sp..sp + 8])
      && m1.regs[RSP] == Add64(sp, 8)
  {
    StepRuns(m, Ret);
    var a := Advance(m, Ret);
    HandlerIs(a, m.regs[RIP], Ret);
    assert ExecRet(a).value == m1;
  }

  /** `call` followed by `ret` at the call's target resumes right after the
      call with RSP restored. */
  lemma CallThenRet(m: Machine, m1: Machine, m2: Machine)
    requires Fetch(m) == Ok(Call) && Step(m) == Ok(Next(m1, true))
    requires Fetch(m1) == Ok(Ret) && Step(m1) == Ok(Next(m2, true))
    ensures m2.regs[RIP] == Add64(m.regs[RIP], EncodedLen(1))
    ensures m2.regs[RSP] == m.regs[RSP]
  {
    CallPushes(m, m1);
    RetPops(m1, m2);
    ReturnAddress(m.regs, m1, m2.regs);
  }

  /** The arithmetic of `CallThenRet`, apart from the steps. */
  lemma ReturnAddress(regs: Registers, m1: Machine, regs2: Registers)
    requires var sp := Sub64(regs[RSP], 8);
      && m1.regs[RSP] == sp && sp + 8 <= |m1.mem|
      && m1.mem[sp..sp + 8] == ToLE(Add64(regs[RIP], EncodedLen(1)), 8)
    requires regs2[RIP] == FromLE(m1.mem[m1.regs[RSP]..m1.regs[RSP] + 8])
    requires regs2[RSP] == Add64(m1.regs[RSP], 8)
    ensures regs2[RIP] == Add64(regs[RIP], EncodedLen(1)) && regs2[RSP] == regs[RSP]
  {
    U64RoundTrip(Add64(regs[RIP], EncodedLen(1)));
    WordArithmetic(regs[RSP], 8);
  }

  /** Writing all 8 bytes of a register sets it to the value encoded. */
  lemma WriteWholeRegister(m: Machine, r: nat, v: uint64)
    requires r < RegisterCount
    ensures WriteLoc(m, Reg(r), ToLE(v, 8)) == Ok(m.(regs := m.regs[r := v]))
  {
    var m1 := WriteLoc(m, Reg(r), ToLE(v, 8)).value;
    assert ToLE(m1.regs[r], 8) == ToLE(m1.regs[r], 8)[..8];
    U64RoundTrip(m1.regs[r]);
    U64RoundTrip(v);
    assert m1.regs == m.regs[r := v];
  }

  /** Copying a register's own low bytes over themselves changes nothing. */
  lemma WriteSameBytes(m: Machine, r: nat, n: nat)
    requires r < RegisterCount && n <= 8
    ensures WriteLoc(m, Reg(r), ToLE(m.regs[r], 8)[..n]) == Ok(m)
  {
    var m1 := WriteLoc(m, Reg(r), ToLE(m.regs[r], 8)[..n]).value;
    var b := ToLE(m1.regs[r], 8);
    assert b == b[..n] + b[n..];
    assert b == ToLE(m.regs[r], 8);
    U64RoundTrip(m1.regs[r]);
    U64RoundTrip(m.regs[r]);
    assert m1.regs == m.regs;
  }

  // ---------------------------------------------------------------------
  // Loading an image.

  /** The register set-up of `load_binary`: the image is copied to the start
      of the arena (whose remaining bytes are whatever `arena` holds), all
      registers are cleared, RMEM is the image size rounded up past the next
      multiple of 8, RIP is 16 plus the header's entry point and RSP is the
      top of the arena. */
  function Load(image: seq<uint8>, arena: seq<uint8>): (r: Result<Machine>)
    requires |arena| == MemorySize
    ensures r.Ok? <==> |image| <= MemorySize
    ensures r.Ok? ==> |r.value.mem| == MemorySize && r.value.mem[..|image|] == image && r.value.output == []
  {
    if |image| > MemorySize then Err(ImageTooLarge)
    else
      var n := |image|;
      var mem := image + arena[n..];
      assert mem[..n] == image;
      Pow256Values();
      var entry := FromLE(mem[HeaderEntryPoint..HeaderEntryPoint + 8]);
      var zero: Registers := [0, 0, 0, 0, 0, 0, 0, 0, 0, 0];
      var regs := zero[RMEM := n + 8 - n % 8][RIP := Add64(ImageHeaderLen, entry)][RSP := MemorySize];
      Ok(Machine(regs, mem, []))
  }

  /** RMEM starts on an 8-byte boundary strictly past the image, and at most
      8 bytes past it; RSP is the arena's top; the other registers but RIP
      are zero. */
  lemma LoadRegisters(image: seq<uint8>, arena: seq<uint8>)
    requires |arena| == MemorySize && |image| <= MemorySize
    ensures var m := Load(image, arena).value;
      && m.regs[RMEM] % 8 == 0 && |image| < m.regs[RMEM] <= |image| + 8
      && m.regs[RSP] == MemorySize
      && forall i :: 0 <= i < RegisterCount && i !in {RIP, RSP, RMEM} ==> m.regs[i] == 0
  {
  }

  /** The entry point comes from the image's header when the image has one. */
  lemma LoadEntry(image: seq<uint8>, arena: seq<uint8>)
    requires |arena| == MemorySize && ImageHeaderLen <= |image| <= MemorySize
    ensures var m := Load(image, arena).value;
      m.regs[RIP] == Add64(ImageHeaderLen, DecodeHeader(image).value.entryPoint)
  {
    var m := Load(image, arena).value;
    assert m.mem[HeaderEntryPoint..HeaderEntryPoint + 8] == image[HeaderEntryPoint..HeaderEntryPoint + 8];
  }
}
