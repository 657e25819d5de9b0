/** The instruction encoding shared by the assembler, the emulator and the
    disassembler: opcode numbering and arities, register ids, operand sizes,
    operand-type flags, the image header, the instruction record and the
    complex-operand sub-record overlaid on one 64-bit payload. */
module Shared {
  import opened Bytes
  import opened Errors

  // Image header: code length at offset 0, entry point at offset 8.
  const ImageHeaderLen: nat := 16
  const HeaderCodeBytes: nat := 0
  const HeaderEntryPoint: nat := 8

  const RegisterCount: nat := 10
  const MaxOperands: nat := 2
  const OpcodeCount: nat := 22

  datatype Opcode =
    | Push | Pop | Jmp | Exit | Mov | Call | Ret | Add | Sub | Mul | Div | Mod
    | Inc | Dec | Cmp | Je | Jne | Jl | Jg | Jle | Jge | Print

  /** The enumerator value: opcodes are numbered in declaration order. */
  function Code(op: Opcode): (r: uint8)
    ensures r < OpcodeCount
  {
    match op
    case Push => 0   case Pop => 1    case Jmp => 2    case Exit => 3
    case Mov => 4    case Call => 5   case Ret => 6    case Add => 7
    case Sub => 8    case Mul => 9    case Div => 10   case Mod => 11
    case Inc => 12   case Dec => 13   case Cmp => 14   case Je => 15
    case Jne => 16   case Jl => 17    case Jg => 18    case Jle => 19
    case Jge => 20   case Print => 21
  }

  /** Reading an opcode byte: exactly the bytes below OPCODE_COUNT name an opcode,
      and the opcode named is the one with that number. */
  function OpcodeOf(b: uint8): (r: Result<Opcode>)
    ensures r.Ok? <==> b < OpcodeCount
    ensures r.Ok? ==> Code(r.value) == b
    ensures r.Err? ==> r.error == UnknownOpcode
  {
    if b == 0 then Ok(Push) else if b == 1 then Ok(Pop)
    else if b == 2 then Ok(Jmp) else if b == 3 then Ok(Exit)
    else if b == 4 then Ok(Mov) else if b == 5 then Ok(Call)
    else if b == 6 then Ok(Ret) else if b == 7 then Ok(Add)
    else if b == 8 then Ok(Sub) else if b == 9 then Ok(Mul)
    else if b == 10 then Ok(Div) else if b == 11 then Ok(Mod)
    else if b == 12 then Ok(Inc) else if b == 13 then Ok(Dec)
    else if b == 14 then Ok(Cmp) else if b == 15 then Ok(Je)
    else if b == 16 then Ok(Jne) else if b == 17 then Ok(Jl)
    else if b == 18 then Ok(Jg) else if b == 19 then Ok(Jle)
    else if b == 20 then Ok(Jge) else if b == 21 then Ok(Print)
    else Err(UnknownOpcode)
  }

  /** Numbering is a bijection between the 22 opcodes and 0..21. */
  lemma OpcodeNumbering(op: Opcode, b: uint8)
    ensures OpcodeOf(Code(op)) == Ok(op)
    ensures b < OpcodeCount ==> Code(OpcodeOf(b).value) == b
  {
    match op
    case Push => case Pop => case Jmp => case Exit => case Mov => case Call =>
    case Ret => case Add => case Sub => case Mul => case Div => case Mod =>
    case Inc => case Dec => case Cmp => case Je => case Jne => case Jl =>
    case Jg => case Jle => case Jge => case Print =>
  }

  /** The operand arity table filled in by `operands_init`. */
  function Arity(op: Opcode): (r: nat)
    ensures r <= MaxOperands
    ensures r == 2 <==> op in {Mov, Add, Sub, Mul, Div, Mod, Cmp}
    ensures r == 0 <==> op in {Exit, Ret}
  {
    match op
    case Mov | Add | Sub | Mul | Div | Mod | Cmp => 2
    case Push | Pop | Jmp | Call | Inc | Dec | Je | Jne | Jl | Jg | Jle | Jge | Print => 1
    case Exit | Ret => 0
  }

  /** `instruction_encoded_len`: an 8-byte header plus one 8-byte payload per operand. */
  function EncodedLen(operands: nat): (r: nat)
    ensures r % 8 == 0 && r >= 8
    ensures (r - 8) / 8 == operands
  {
    8 + operands * 8
  }

  /** Every opcode encodes to 8, 16 or 24 bytes, never more than the C record. */
  lemma EncodedLenOfOpcode(op: Opcode)
    ensures EncodedLen(Arity(op)) in {8, 16, 24}
    ensures EncodedLen(Arity(op)) <= InstructionRecordLen
    ensures EncodedLen(Arity(op)) == 8 <==> op in {Exit, Ret}
  {
  }

  // Register ids.
  const R0: uint8 := 0
  const R1: uint8 := 1
  const R2: uint8 := 2
  const R3: uint8 := 3
  const R4: uint8 := 4
  const R5: uint8 := 5
  const RIP: uint8 := 6
  const RSP: uint8 := 7
  const RFLAG: uint8 := 8
  const RMEM: uint8 := 9

  // Operand sizes in bytes.
  const B1: uint8 := 1
  const B2: uint8 := 2
  const B4: uint8 := 4
  const B8: uint8 := 8

  // Operand-type flags, combined with bitwise or.
  const Immediate: uint8 := 1
  const Register: uint8 := 2
  const Literal: uint8 := 4
  const Address: uint8 := 8
  const Complex: uint8 := 16

  const Flags: set<uint8> := {Immediate, Register, Literal, Address, Complex}

  /** `a | b` on type bytes. */
  function Or(a: uint8, b: uint8): uint8 {
    ((a as bv8) | (b as bv8)) as int
  }

  /** `t & f`, read as a truth value. */
  predicate HasFlag(t: uint8, f: uint8) {
    (t as bv8) & (f as bv8) != 0
  }

  /** The five flags are distinct single bits: setting one never sets or
      clears another, so each can be queried on its own. */
  lemma FlagsIndependent(t: uint8, f: uint8, g: uint8)
    requires f in Flags && g in Flags
    ensures HasFlag(f, f)
    ensures f != g ==> !HasFlag(g, f)
    ensures HasFlag(Or(t, g), f) <==> HasFlag(t, f) || f == g
  {
    FlagBits(f);
    FlagBits(g);
    OrBits(t, g);
    SingleBits(t as bv8, f as bv8, g as bv8);
    assert (f as bv8) as int == f;
    assert (g as bv8) as int == g;
  }

  lemma FlagBits(f: uint8)
    requires f in Flags
    ensures f as bv8 == 1 || f as bv8 == 2 || f as bv8 == 4 || f as bv8 == 8 || f as bv8 == 16
  {
  }

  lemma OrBits(a: uint8, b: uint8)
    ensures Or(a, b) as bv8 == (a as bv8) | (b as bv8)
  {
  }

  lemma SingleBits(t: bv8, f: bv8, g: bv8)
    requires f == 1 || f == 2 || f == 4 || f == 8 || f == 16
    requires g == 1 || g == 2 || g == 4 || g == 8 || g == 16
    ensures f & f != 0
    ensures f != g ==> g & f == 0
    ensures (t | g) & f != 0 <==> t & f != 0 || f == g
  {
  }

  // The instruction record: opcode byte, size byte, one type byte per operand
  // slot, padding to 8, then one 64-bit payload per slot.
  const RecordOpcode: nat := 0
  const RecordSize: nat := 1
  const InstructionRecordLen: nat := 24

  function RecordType(k: nat): nat {
    2 + k
  }

  function RecordPayload(k: nat): nat {
    8 + 8 * k
  }

  /** The layout fits: the type bytes sit inside the padded header, the
      payloads are 8-aligned, adjacent, and end at the record's size. */
  lemma RecordLayout(k: nat)
    requires k < MaxOperands
    ensures RecordSize < RecordType(k) < 8
    ensures RecordPayload(k) % 8 == 0 && RecordPayload(k) >= 8
    ensures RecordPayload(k) + 8 <= InstructionRecordLen
    ensures RecordPayload(MaxOperands - 1) + 8 == InstructionRecordLen
    ensures EncodedLen(k + 1) == RecordPayload(k) + 8
  {
  }

  datatype Operand = Operand(kind: uint8, payload: uint64)

  type Slots = s: seq<Operand> | |s| == MaxOperands witness [Operand(0, 0), Operand(0, 0)]

  datatype Instruction = Instruction(opcode: Opcode, size: uint8, operands: Slots)

  const NoOperands: Slots := [Operand(0, 0), Operand(0, 0)]

  /** The 24-byte C struct. Padding bytes 4..7 are unspecified in the
      source; this model writes 0 there. */
  function Record(inst: Instruction): (r: seq<uint8>)
    ensures |r| == InstructionRecordLen
  {
    [Code(inst.opcode), inst.size, inst.operands[0].kind, inst.operands[1].kind, 0, 0, 0, 0]
    + ToLE(inst.operands[0].payload, 8) + ToLE(inst.operands[1].payload, 8)
  }

  /** What the assembler copies out for one instruction: the first
      encoded-length bytes of the record. */
  function EncodeInstruction(inst: Instruction): (r: seq<uint8>)
    ensures |r| == EncodedLen(Arity(inst.opcode))
  {
    Record(inst)[..EncodedLen(Arity(inst.opcode))]
  }

  /** The encoded record keeps the opcode, the size, both type bytes and
      the payload of every operand the opcode uses. */
  lemma RecordFields(inst: Instruction)
    ensures var r := EncodeInstruction(inst);
      && r[RecordOpcode] == Code(inst.opcode) && r[RecordSize] == inst.size
      && (forall k :: 0 <= k < MaxOperands ==> r[RecordType(k)] == inst.operands[k].kind)
      && (forall k :: 0 <= k < Arity(inst.opcode) ==>
            FromLE(r[RecordPayload(k)..RecordPayload(k) + 8]) == inst.operands[k].payload)
  {
    var rec := Record(inst);
    var a, b := ToLE(inst.operands[0].payload, 8), ToLE(inst.operands[1].payload, 8);
    assert rec[RecordPayload(0)..RecordPayload(0) + 8] == a;
    assert rec[RecordPayload(1)..RecordPayload(1) + 8] == b;
    U64RoundTrip(inst.operands[0].payload);
    U64RoundTrip(inst.operands[1].payload);
    var r := rec[..EncodedLen(Arity(inst.opcode))];
    assert Arity(inst.opcode) >= 1 ==> r[RecordPayload(0)..RecordPayload(0) + 8] == a;
    assert Arity(inst.opcode) >= 2 ==> r[RecordPayload(1)..RecordPayload(1) + 8] == b;
  }

  /** Payload slots beyond the opcode's arity are not part of the encoding;
      an instruction is canonical when they hold 0. */
  predicate Canonical(inst: Instruction) {
    forall k :: Arity(inst.opcode) <= k < MaxOperands ==> inst.operands[k].payload == 0
  }

  /** Reads an 8-byte little-endian field. */
  function ReadU64At(mem: seq<uint8>, at: nat): (r: Result<uint64>)
    ensures r.Ok? <==> at + 8 <= |mem|
    ensures r.Ok? ==> r.value == FromLE(mem[at..at + 8])
  {
    if at + 8 <= |mem| then
      Pow256Values();
      Ok(FromLE(mem[at..at + 8]))
    else
      Err(MemoryOutOfBounds)
  }

  /** The decoded view of the record at `at` (the emulator reads it in place). */
  function DecodeInstruction(mem: seq<uint8>, at: nat): (r: Result<Instruction>)
    ensures r.Ok? ==> at < |mem| && Code(r.value.opcode) == mem[at]
    ensures r.Ok? ==> at + EncodedLen(Arity(r.value.opcode)) <= |mem|
  {
    if at >= |mem| then Err(MemoryOutOfBounds)
    else
      var op :- OpcodeOf(mem[at]);
      var len := EncodedLen(Arity(op));
      if at + len > |mem| then Err(MemoryOutOfBounds)
      else
        var p0 := if Arity(op) >= 1 then ReadU64At(mem, at + RecordPayload(0)).value else 0;
        var p1 := if Arity(op) >= 2 then ReadU64At(mem, at + RecordPayload(1)).value else 0;
        Ok(Instruction(op, mem[at + RecordSize],
                       [Operand(mem[at + RecordType(0)], p0), Operand(mem[at + RecordType(1)], p1)]))
  }

  /** The instruction as its encoding keeps it: payload slots beyond the
      arity cleared. */
  function Canon(inst: Instruction): (r: Instruction)
    ensures Canonical(r)
    ensures Canonical(inst) ==> r == inst
    ensures r.opcode == inst.opcode && r.size == inst.size
    ensures forall k :: 0 <= k < MaxOperands ==> r.operands[k].kind == inst.operands[k].kind
    ensures forall k :: 0 <= k < Arity(inst.opcode) ==> r.operands[k] == inst.operands[k]
  {
    var a := Arity(inst.opcode);
    var o0 := inst.operands[0];
    var o1 := inst.operands[1];
    var r := inst.(operands := [if a >= 1 then o0 else Operand(o0.kind, 0),
                                if a >= 2 then o1 else Operand(o1.kind, 0)]);
    assert Canonical(inst) ==> r.operands == inst.operands;
    r
  }

  /** Decoding the encoded bytes in place, wherever they sit, gives the
      instruction back, up to the payloads its arity leaves out. */
  lemma DecodeEncode(pre: seq<uint8>, inst: Instruction, post: seq<uint8>)
    ensures DecodeInstruction(pre + EncodeInstruction(inst) + post, |pre|) == Ok(Canon(inst))
  {
    var e := EncodeInstruction(inst);
    var mem := pre + e + post;
    assert mem[|pre|..|pre| + |e|] == e;
    DecodeRecord(mem, |pre|, inst);
  }

  /** Wherever the record of `inst` sits in memory, it decodes to `inst`
      up to the payloads its arity leaves out. */
  lemma DecodeRecord(mem: seq<uint8>, at: nat, inst: Instruction)
    requires at + |EncodeInstruction(inst)| <= |mem|
    requires mem[at..at + |EncodeInstruction(inst)|] == EncodeInstruction(inst)
    ensures DecodeInstruction(mem, at) == Ok(Canon(inst))
  {
    var e := EncodeInstruction(inst);
    var c := Canon(inst);
    RecordFields(inst);
    RecordLayout(0);
    RecordLayout(1);
    SliceByte(mem, at, e, RecordOpcode);
    SliceByte(mem, at, e, RecordSize);
    SliceByte(mem, at, e, RecordType(0));
    SliceByte(mem, at, e, RecordType(1));
    if Arity(inst.opcode) >= 1 {
      SliceField(mem, at, e, RecordPayload(0), 8);
      assert FromLE(e[RecordPayload(0)..RecordPayload(0) + 8]) == c.operands[0].payload;
    }
    if Arity(inst.opcode) >= 2 {
      SliceField(mem, at, e, RecordPayload(1), 8);
      assert FromLE(e[RecordPayload(1)..RecordPayload(1) + 8]) == c.operands[1].payload;
    }
    assert mem[at + RecordType(0)] == c.operands[0].kind && mem[at + RecordType(1)] == c.operands[1].kind;
    DecodeFields(mem, at, inst.opcode, inst.size, c.operands[0], c.operands[1]);
    assert c == Instruction(inst.opcode, inst.size, [c.operands[0], c.operands[1]]);
  }

  /** What `DecodeInstruction` reads, field by field. */
  lemma DecodeFields(mem: seq<uint8>, at: nat, op: Opcode, size: uint8, o0: Operand, o1: Operand)
    requires at + EncodedLen(Arity(op)) <= |mem|
    requires mem[at + RecordOpcode] == Code(op) && mem[at + RecordSize] == size
    requires mem[at + RecordType(0)] == o0.kind && mem[at + RecordType(1)] == o1.kind
    requires Arity(op) >= 1 ==> FromLE(mem[at + RecordPayload(0)..at + RecordPayload(0) + 8]) == o0.payload
    requires Arity(op) >= 2 ==> FromLE(mem[at + RecordPayload(1)..at + RecordPayload(1) + 8]) == o1.payload
    requires Arity(op) < 1 ==> o0.payload == 0
    requires Arity(op) < 2 ==> o1.payload == 0
    ensures DecodeInstruction(mem, at) == Ok(Instruction(op, size, [o0, o1]))
  {
    OpcodeNumbering(op, 0);
    RecordLayout(0);
    RecordLayout(1);
  }

  lemma SliceByte(mem: seq<uint8>, at: nat, e: seq<uint8>, i: nat)
    requires at + |e| <= |mem| && mem[at..at + |e|] == e && i < |e|
    ensures mem[at + i] == e[i]
  {
    assert mem[at..at + |e|][i] == mem[at + i];
  }

  lemma SliceField(mem: seq<uint8>, at: nat, e: seq<uint8>, i: nat, n: nat)
    requires at + |e| <= |mem| && mem[at..at + |e|] == e && i + n <= |e|
    ensures mem[at + i..at + i + n] == e[i..i + n]
  {
    var got, want := mem[at + i..at + i + n], e[i..i + n];
    forall j | 0 <= j < n ensures got[j] == want[j] {
      assert e[i + j] == mem[at..at + |e|][i + j];
    }
    assert got == want;
  }

  // The image header.
  datatype Header = Header(codeBytes: uint64, entryPoint: uint64)

  function EncodeHeader(h: Header): (r: seq<uint8>)
    ensures |r| == ImageHeaderLen
  {
    ToLE(h.codeBytes, 8) + ToLE(h.entryPoint, 8)
  }

  function DecodeHeader(image: seq<uint8>): (r: Result<Header>)
    ensures r.Ok? <==> |image| >= ImageHeaderLen
  {
    var code :- ReadU64At(image, HeaderCodeBytes);
    var entry :- ReadU64At(image, HeaderEntryPoint);
    Ok(Header(code, entry))
  }

  /** The header round-trips, whatever code follows it. */
  lemma HeaderRoundTrip(h: Header, code: seq<uint8>)
    ensures DecodeHeader(EncodeHeader(h) + code) == Ok(h)
  {
    var image := EncodeHeader(h) + code;
    assert image[HeaderCodeBytes..HeaderCodeBytes + 8] == ToLE(h.codeBytes, 8);
    assert image[HeaderEntryPoint..HeaderEntryPoint + 8] == ToLE(h.entryPoint, 8);
    U64RoundTrip(h.codeBytes);
    U64RoundTrip(h.entryPoint);
  }

  // The complex-operand sub-record: base, multiplier, register2_sign and
  // register2 in bytes 0..3, a signed 32-bit offset in bytes 4..7.
  // `register2Sign` holds the raw byte of the C `char`.
  datatype ComplexOperand = ComplexOperand(
    base: uint8, multiplier: uint8, register2Sign: uint8, register2: uint8, offset: int32)

  const ComplexBase: nat := 0
  const ComplexMultiplier: nat := 1
  const ComplexSign: nat := 2
  const ComplexRegister2: nat := 3
  const ComplexOffset: nat := 4

  function ComplexBytes(c: ComplexOperand): (r: seq<uint8>)
    ensures |r| == 8
  {
    [c.base, c.multiplier, c.register2Sign, c.register2] + ToLE(c.offset % TwoTo32, 4)
  }

  /** Overlaying the sub-record on a payload. */
  function PackComplex(c: ComplexOperand): (r: uint64)
    ensures ToLE(r, 8) == ComplexBytes(c)
  {
    Pow256Values();
    ToLEFromLE(ComplexBytes(c));
    FromLE(ComplexBytes(c))
  }

  /** Reading a payload through the sub-record. */
  function UnpackComplex(p: uint64): (c: ComplexOperand)
    ensures ComplexBytes(c) == ToLE(p, 8)
  {
    var b := ToLE(p, 8);
    var c := ComplexOperand(b[ComplexBase], b[ComplexMultiplier], b[ComplexSign], b[ComplexRegister2],
                            Wrap32(FromLE(b[ComplexOffset..8])));
    Offset32RoundTrip(b[ComplexOffset..8]);
    assert ComplexBytes(c) == b[..4] + b[4..];
    c
  }

  lemma Offset32RoundTrip(b: seq<uint8>)
    requires |b| == 4
    ensures ToLE(Wrap32(FromLE(b)) % TwoTo32, 4) == b
  {
    Pow256Values();
    assert Wrap32(FromLE(b)) % TwoTo32 == FromLE(b);
    ToLEFromLE(b);
  }

  /** The sub-record fills exactly one payload: packing and unpacking are
      mutually inverse. */
  lemma ComplexRoundTrip(c: ComplexOperand, p: uint64)
    ensures UnpackComplex(PackComplex(c)) == c
    ensures PackComplex(UnpackComplex(p)) == p
  {
    UnpackPack(c);
    PackUnpack(p);
  }

  lemma UnpackPack(c: ComplexOperand)
    ensures UnpackComplex(PackComplex(c)) == c
  {
    var b := ToLE(PackComplex(c), 8);
    assert b == ComplexBytes(c);
    assert b[ComplexOffset..8] == ToLE(c.offset % TwoTo32, 4);
    OffsetField(c.offset);
    assert b[0] == c.base && b[1] == c.multiplier && b[2] == c.register2Sign && b[3] == c.register2;
  }

  /** The 4-byte offset field round-trips a signed 32-bit value. */
  lemma OffsetField(x: int32)
    ensures Wrap32(FromLE(ToLE(x % TwoTo32, 4))) == x
  {
    FromLEToLE(x % TwoTo32, 4);
    Pow256Values();
    assert (x % TwoTo32) % TwoTo32 == x % TwoTo32;
  }

  lemma PackUnpack(p: uint64)
    ensures PackComplex(UnpackComplex(p)) == p
  {
    var q := UnpackComplex(p);
    U64RoundTrip(p);
    U64RoundTrip(PackComplex(q));
  }
}
