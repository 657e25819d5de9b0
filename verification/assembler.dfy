/** The two-pass assembler: source lines become instruction records,
    labels are collected with their byte offsets, jump operands are patched
    once every label is known, and the records are laid out after the
    16-byte image header. */
module Assembler {
  import opened Bytes
  import opened Errors
  import opened Shared
  import opened BString
  import opened Numbers

  // ---------------------------------------------------------------------
  // Names

  /** `opcode_from_bstring`. */
  function OpcodeFromName(s: string): (r: Result<Opcode>)
    ensures r.Err? ==> r.error == UnknownMnemonic
    ensures r.Ok? ==> 2 <= |s| <= 5
  {
    if s == "push" then Ok(Push)
    else if s == "pop" then Ok(Pop)
    else if s == "jmp" then Ok(Jmp)
    else if s == "exit" then Ok(Exit)
    else if s == "mov" then Ok(Mov)
    else if s == "call" then Ok(Call)
    else if s == "ret" then Ok(Ret)
    else if s == "add" then Ok(Add)
    else if s == "sub" then Ok(Sub)
    else if s == "mul" then Ok(Mul)
    else if s == "div" then Ok(Div)
    else if s == "mod" then Ok(Mod)
    else if s == "inc" then Ok(Inc)
    else if s == "dec" then Ok(Dec)
    else if s == "cmp" then Ok(Cmp)
    else if s == "je" then Ok(Je)
    else if s == "jne" then Ok(Jne)
    else if s == "jl" then Ok(Jl)
    else if s == "jle" then Ok(Jle)
    else if s == "jg" then Ok(Jg)
    else if s == "jge" then Ok(Jge)
    else if s == "print" then Ok(Print)
    else Err(UnknownMnemonic)
  }

  /** `register_from_bstring`: the flags register has no name in assembly
      source. */
  function RegisterFromName(s: string): (r: Result<uint8>)
    ensures r.Ok? ==> r.value < RegisterCount && r.value != RFLAG
    ensures r.Ok? ==> 2 <= |s| && s[0] == 'r'
    ensures r.Err? ==> r.error == UnknownRegister
  {
    if s == "r0" then Ok(R0)
    else if s == "r1" then Ok(R1)
    else if s == "r2" then Ok(R2)
    else if s == "r3" then Ok(R3)
    else if s == "r4" then Ok(R4)
    else if s == "r5" then Ok(R5)
    else if s == "rip" then Ok(RIP)
    else if s == "rsp" then Ok(RSP)
    else if s == "rmem" then Ok(RMEM)
    else Err(UnknownRegister)
  }

  /** `is_jump`: the opcodes whose operand is a label. `call` is not among
      them, so a call target is parsed as an ordinary operand. */
  predicate IsJump(op: Opcode) {
    op in {Jmp, Je, Jne, Jl, Jle, Jg, Jge}
  }

  // ---------------------------------------------------------------------
  // Operands

  /** `bstring_to_int`: the token is copied into a 21-byte buffer and read
      with `atoi`; a longer token overruns the buffer. */
  function TokenToInt(text: string, tok: BStr): (r: Result<int32>)
    requires Within(text, tok)
    ensures r.Ok? <==> tok.len <= 20
    ensures r.Ok? ==> r.value == Atoi(Value(text, tok))
  {
    if tok.len > 20 then Err(TokenTooLong) else Ok(Atoi(Value(text, tok)))
  }

  /** A register operand with only its base set encodes as a plain
      register; any other field marks it COMPLEX. */
  predicate IsComplex(c: ComplexOperand) {
    c.multiplier != 1 || c.register2Sign != 0 || c.offset != 0
  }

  /** The register fields name registers an assembly program may use, and
      the sign byte is a truth value. */
  predicate NamedRegisters(c: ComplexOperand) {
    && c.base < RegisterCount && c.base != RFLAG
    && c.register2 < RegisterCount && c.register2 != RFLAG
    && c.register2Sign in {0, 1}
  }

  /** The character just before a section: the separator that introduced
      it ('\0' when there is none inside the text). */
  function SignOf(text: string, sec: BStr): char {
    if 1 <= sec.start <= |text| then text[sec.start - 1] else '\0'
  }

  /** The first character of a section ('\0' past the end of the text). */
  function FirstOf(text: string, sec: BStr): char {
    if sec.start < |text| then text[sec.start] else '\0'
  }

  /** What a section after the base register sets: the multiplier when it
      follows `*`, otherwise the second register when it starts with 'r',
      otherwise the offset. */
  datatype TermKind = MulTerm | RegTerm | NumTerm

  function KindOf(text: string, sec: BStr): TermKind {
    if SignOf(text, sec) == '*' then MulTerm
    else if FirstOf(text, sec) == 'r' then RegTerm
    else NumTerm
  }

  /** The index of the last of `sections[i..]` of kind `k`, if any. */
  function LastTerm(text: string, sections: seq<BStr>, i: nat, k: TermKind): (r: Option<nat>)
    requires i <= |sections|
    ensures r.Some? ==> i <= r.value < |sections| && KindOf(text, sections[r.value]) == k
    ensures r.Some? ==> forall j :: r.value < j < |sections| ==> KindOf(text, sections[j]) != k
    ensures r.None? ==> forall j :: i <= j < |sections| ==> KindOf(text, sections[j]) != k
    decreases |sections| - i
  {
    if i == |sections| then None
    else
      var later := LastTerm(text, sections, i + 1, k);
      if later.Some? then later
      else if KindOf(text, sections[i]) == k then Some(i)
      else None
  }

  /** The multiplier a `*N` section sets: `atoi(N)` stored in a byte. */
  function TermMultiplier(text: string, sec: BStr): uint8 {
    if Within(text, sec) then Atoi(Value(text, sec)) % 256 else 0
  }

  /** The register an `rX` section names (0 when it names none). */
  function TermRegister(text: string, sec: BStr): uint8 {
    if Within(text, sec) && RegisterFromName(Value(text, sec)).Ok?
    then RegisterFromName(Value(text, sec)).value else 0
  }

  /** The sign byte a register section sets: 1 after `+`, 0 after `-`. */
  function TermSign(text: string, sec: BStr): uint8 {
    if SignOf(text, sec) == '+' then 1 else 0
  }

  /** The offset a number section sets: `atoi(N)`, negated after `-`. */
  function TermOffset(text: string, sec: BStr): int {
    if !Within(text, sec) then 0
    else if SignOf(text, sec) == '-' then -Atoi(Value(text, sec))
    else Atoi(Value(text, sec))
  }

  /** The fields the sections `sections[i..]` leave in `c`: each field is
      set by the last section of its kind, and keeps its value in `c` when
      there is none. */
  predicate TermsSet(text: string, sections: seq<BStr>, i: nat, c: ComplexOperand, d: ComplexOperand)
    requires i <= |sections|
  {
    && d.base == c.base
    && d.multiplier == (match LastTerm(text, sections, i, MulTerm)
                        case None => c.multiplier
                        case Some(j) => TermMultiplier(text, sections[j]))
    && d.register2 == (match LastTerm(text, sections, i, RegTerm)
                       case None => c.register2
                       case Some(j) => TermRegister(text, sections[j]))
    && d.register2Sign == (match LastTerm(text, sections, i, RegTerm)
                           case None => c.register2Sign
                           case Some(j) => TermSign(text, sections[j]))
    && d.offset as int == (match LastTerm(text, sections, i, NumTerm)
                           case None => c.offset as int
                           case Some(j) => TermOffset(text, sections[j]))
  }

  /** The operand with the field that section `sec` sets updated. */
  function SetTerm(text: string, sec: BStr, c: ComplexOperand): ComplexOperand {
    match KindOf(text, sec)
    case MulTerm => c.(multiplier := TermMultiplier(text, sec))
    case RegTerm => c.(register2 := TermRegister(text, sec), register2Sign := TermSign(text, sec))
    case NumTerm => c.(offset := Wrap32(TermOffset(text, sec)))
  }

  /** One iteration of the loop over the sections after the base
      register. The separator before the section decides its meaning:
      after `*` it is the multiplier (truncated to a byte), otherwise a
      section starting with 'r' is the second register, added when the
      separator is `+` and dropped (sign 0) when it is `-`, and any other
      section is the offset, negated after `-`. */
  function ParseTerm(text: string, sec: BStr, c: ComplexOperand): (r: Result<ComplexOperand>)
    requires Within(text, sec)
    ensures r.Ok? ==> r.value == SetTerm(text, sec, c)
    ensures r.Ok? && KindOf(text, sec) == NumTerm ==> r.value.offset as int == TermOffset(text, sec)
    ensures r.Ok? && NamedRegisters(c) ==> NamedRegisters(r.value)
    ensures 1 <= sec.start < |text| && sec.len <= 20 && KindOf(text, sec) == NumTerm ==>
      (r.Ok? <==> TermOffset(text, sec) != TwoTo31) && (r.Err? ==> r.error == OffsetOverflow)
  {
    var sign :- At(text, sec.start as int - 1);
    if sign == '*' then
      var m :- TokenToInt(text, sec);
      Ok(c.(multiplier := m % 256))
    else
      var first :- At(text, sec.start);
      if first == 'r' then
        var reg :- RegisterFromName(Value(text, sec));
        Ok(c.(register2 := reg, register2Sign := if sign == '+' then 1 else 0))
      else
        var v :- TokenToInt(text, sec);
        if sign == '-' && v == -0x8000_0000 then Err(OffsetOverflow)
        else Ok(c.(offset := if sign == '-' then -v else v))
  }

  /** A section that sets its field in full, followed by sections that
      leave the result `d`, leaves `d` from the earlier position. */
  lemma TermsStep(text: string, sections: seq<BStr>, i: nat, c: ComplexOperand, d: ComplexOperand)
    requires i < |sections|
    requires KindOf(text, sections[i]) == NumTerm ==>
      SetTerm(text, sections[i], c).offset as int == TermOffset(text, sections[i])
    requires TermsSet(text, sections, i + 1, SetTerm(text, sections[i], c), d)
    ensures TermsSet(text, sections, i, c, d)
  {
    var _ := LastTerm(text, sections, i, MulTerm);
    var _ := LastTerm(text, sections, i, RegTerm);
    var _ := LastTerm(text, sections, i, NumTerm);
  }

  /** The loop over the sections after the base register; a later section
      overrides an earlier one. */
  function ApplyTerms(text: string, sections: seq<BStr>, i: nat, c: ComplexOperand): (r: Result<ComplexOperand>)
    requires AllWithin(text, sections) && 1 <= i <= |sections|
    ensures r.Ok? ==> TermsSet(text, sections, i, c, r.value)
    ensures r.Ok? && NamedRegisters(c) ==> NamedRegisters(r.value)
    decreases |sections| - i
  {
    if i == |sections| then Ok(c)
    else
      var next :- ParseTerm(text, sections[i], c);
      var r := ApplyTerms(text, sections, i + 1, next);
      if r.Ok? then TermsStep(text, sections, i, c, r.value); r else r
  }

  /** The register branch of `parse_operand`: split at `*`, `+` and `-`,
      the first section names the base register and the other fields
      start as multiplier 1, no second register and offset 0. */
  function ParseRegisterTerms(text: string, inner: BStr): (r: Result<ComplexOperand>)
    requires Within(text, inner)
    ensures r.Ok? ==> NamedRegisters(r.value)
    ensures r.Ok? ==>
      var sections := Split(text, inner, "*+-");
      && AllWithin(text, sections) && |sections| >= 1
      && RegisterFromName(Value(text, sections[0])) == Ok(r.value.base)
      && TermsSet(text, sections, 1, ComplexOperand(r.value.base, 1, 0, 0, 0), r.value)
  {
    SplitWithin(text, inner, "*+-");
    var sections := Split(text, inner, "*+-");
    if |sections| == 0 then Err(MalformedOperand)
    else
      var base :- RegisterFromName(Value(text, sections[0]));
      ApplyTerms(text, sections, 1, ComplexOperand(base, 1, 0, 0, 0))
  }

  /** Second registers that all follow `-` leave the operand plain: the
      sign byte of the last one is 0, so the emulator never reads it, and
      the operand is not COMPLEX. */
  lemma MinusRegistersIgnored(text: string, inner: BStr)
    requires Within(text, inner) && ParseRegisterTerms(text, inner).Ok?
    requires var sections := Split(text, inner, "*+-");
      forall j :: 1 <= j < |sections| ==> SignOf(text, sections[j]) == '-' && FirstOf(text, sections[j]) == 'r'
    ensures !IsComplex(ParseRegisterTerms(text, inner).value)
  {
    var sections := Split(text, inner, "*+-");
    assert forall j :: 1 <= j < |sections| ==> KindOf(text, sections[j]) == RegTerm;
    var mul := LastTerm(text, sections, 1, MulTerm);
    var num := LastTerm(text, sections, 1, NumTerm);
    var reg := LastTerm(text, sections, 1, RegTerm);
    assert mul.None? && num.None?;
    if reg.Some? {
      assert TermSign(text, sections[reg.value]) == 0;
    }
  }

  /** The type byte `parse_operand` builds: ADDRESS or LITERAL, then either
      REGISTER (and COMPLEX when asked) or IMMEDIATE. */
  function OperandKind(address: bool, register: bool, complex: bool): uint8 {
    var form := if address then Address else Literal;
    if !register then Or(form, Immediate)
    else if complex then Or(Or(form, Register), Complex)
    else Or(form, Register)
  }

  /** Each flag of the type byte reflects exactly one decision. */
  lemma KindFlags(address: bool, register: bool, complex: bool)
    ensures HasFlag(OperandKind(address, register, complex), Address) == address
    ensures HasFlag(OperandKind(address, register, complex), Literal) == !address
    ensures HasFlag(OperandKind(address, register, complex), Register) == register
    ensures HasFlag(OperandKind(address, register, complex), Immediate) == !register
    ensures HasFlag(OperandKind(address, register, complex), Complex) == (register && complex)
  {
    var form := if address then Address else Literal;
    var k := OperandKind(address, register, complex);
    var g := if !register then Immediate else Register;
    FlagsIndependent(0, form, form);
    forall f | f in Flags
      ensures HasFlag(Or(form, g), f) <==> f == form || f == g
    {
      FlagsIndependent(form, f, g);
      FlagsIndependent(0, form, f);
    }
    if register && complex {
      forall f | f in Flags
        ensures HasFlag(k, f) <==> f == form || f == Register || f == Complex
      {
        FlagsIndependent(Or(form, Register), f, Complex);
      }
    }
  }

  /** A token wrapped in square brackets denotes a memory address. */
  predicate Bracketed(text: string, tok: BStr)
    requires Within(text, tok)
  {
    tok.len >= 2 && text[tok.start] == '[' && text[tok.start + tok.len - 1] == ']'
  }

  /** The token without its brackets. */
  function Inner(text: string, tok: BStr): (r: BStr)
    requires Within(text, tok)
    ensures Within(text, r)
  {
    if Bracketed(text, tok) then BStr(tok.start + 1, tok.len - 2) else tok
  }

  predicate StartsWithR(text: string, b: BStr) {
    b.start < |text| && text[b.start] == 'r'
  }

  /** `parse_operand`. */
  function ParseOperand(text: string, tok: BStr): (r: Result<Operand>)
    requires Within(text, tok)
    ensures r.Ok? ==>
      var k := r.value.kind;
      && (HasFlag(k, Address) <==> Bracketed(text, tok))
      && (HasFlag(k, Literal) <==> !Bracketed(text, tok))
      && (HasFlag(k, Register) <==> StartsWithR(text, Inner(text, tok)))
      && (HasFlag(k, Immediate) <==> !HasFlag(k, Register))
    ensures r.Ok? && HasFlag(r.value.kind, Immediate) ==>
      && !HasFlag(r.value.kind, Complex)
      && Inner(text, tok).len <= 20
      && r.value.payload == Wrap64(StrToLL(Value(text, Inner(text, tok))))
    ensures r.Ok? && HasFlag(r.value.kind, Register) ==>
      && NamedRegisters(UnpackComplex(r.value.payload))
      && (HasFlag(r.value.kind, Complex) <==> IsComplex(UnpackComplex(r.value.payload)))
      && ParseRegisterTerms(text, Inner(text, tok)) == Ok(UnpackComplex(r.value.payload))
    ensures tok.start < |text| && text[tok.start] != '[' && text[tok.start] != 'r' && tok.len <= 20 ==> r.Ok?
  {
    var c0 :- At(text, tok.start);
    var last :- if c0 == '[' then At(text, tok.start + tok.len - 1) else Ok(c0);
    var address := c0 == '[' && last == ']';
    if address && tok.len < 2 then Err(MalformedOperand)
    else
      BracketTest(text, tok, last);
      var inner := if address then BStr(tok.start + 1, tok.len - 2) else tok;
      if text[inner.start] == 'r' then RegisterOperand(text, inner, address)
      else ImmediateOperand(text, inner, address)
  }

  /** `[]` reads nothing outside the text: its inner text is empty, and
      `strtoll` of an empty buffer is 0, so it is the immediate address 0. */
  lemma EmptyBrackets(text: string, tok: BStr)
    requires Within(text, tok) && tok.len == 2
    requires text[tok.start] == '[' && text[tok.start + 1] == ']'
    ensures ParseOperand(text, tok) == Ok(Operand(Or(Address, Immediate), 0))
  {
  }

  /** The test `parse_operand` makes on the first and last characters is
      `Bracketed`, once a lone `]` before an empty token is ruled out. */
  lemma BracketTest(text: string, tok: BStr, last: char)
    requires Within(text, tok) && tok.start < |text|
    requires text[tok.start] == '[' ==> 0 <= tok.start + tok.len - 1 < |text| && last == text[tok.start + tok.len - 1]
    requires !(text[tok.start] == '[' && last == ']' && tok.len < 2)
    ensures (text[tok.start] == '[' && last == ']') == Bracketed(text, tok)
  {
  }

  /** The register branch of `parse_operand`: the type byte says REGISTER,
      and COMPLEX exactly when a term beyond the base register was read. */
  function RegisterOperand(text: string, inner: BStr, address: bool): (r: Result<Operand>)
    requires Within(text, inner)
    ensures r.Ok? ==>
      var k := r.value.kind;
      && HasFlag(k, Address) == address && HasFlag(k, Literal) == !address
      && HasFlag(k, Register) && !HasFlag(k, Immediate)
      && NamedRegisters(UnpackComplex(r.value.payload))
      && (HasFlag(k, Complex) <==> IsComplex(UnpackComplex(r.value.payload)))
    ensures r.Ok? ==> ParseRegisterTerms(text, inner) == Ok(UnpackComplex(r.value.payload))
  {
    var comp :- ParseRegisterTerms(text, inner);
    KindFlags(address, true, IsComplex(comp));
    UnpackPack(comp);
    Ok(Operand(OperandKind(address, true, IsComplex(comp)), PackComplex(comp)))
  }

  /** The number branch of `parse_operand`: at most 20 characters, read
      by `strtoll` and stored as a 64-bit word. */
  function ImmediateOperand(text: string, inner: BStr, address: bool): (r: Result<Operand>)
    requires Within(text, inner)
    ensures r.Ok? <==> inner.len <= 20
    ensures r.Ok? ==>
      var k := r.value.kind;
      && HasFlag(k, Address) == address && HasFlag(k, Literal) == !address
      && !HasFlag(k, Register) && HasFlag(k, Immediate) && !HasFlag(k, Complex)
      && r.value.payload == Wrap64(StrToLL(Value(text, inner)))
  {
    if inner.len > 20 then Err(TokenTooLong)
    else
      KindFlags(address, false, false);
      Ok(Operand(OperandKind(address, false, false), Wrap64(StrToLL(Value(text, inner)))))
  }

  // ---------------------------------------------------------------------
  // The first pass

  /** A label: its name (a view into the source) and the byte offset of
      the instruction that follows it, an `unsigned`. */
  datatype Label = Label(name: BStr, address: uint32)

  /** A jump awaiting its target: the instruction index, an `unsigned
      short`, and the label name. */
  datatype Fixup = Fixup(index: uint16, target: BStr)

  /** The state `parse_instructions` carries from line to line. */
  datatype Pass = Pass(instructions: seq<Instruction>, labels: seq<Label>, jumps: seq<Fixup>, offset: uint32)

  const EmptyPass := Pass([], [], [], 0)

  /** `parse_instruction_operands`: the operand count must match the
      opcode's arity; slots beyond it stay empty. */
  function ParseOperands(text: string, parts: seq<BStr>, op: Opcode): (r: Result<Slots>)
    requires AllWithin(text, parts) && |parts| >= 1
    ensures r.Ok? ==> Arity(op) == |parts| - 1
    ensures r.Ok? && Arity(op) >= 1 ==> ParseOperand(text, parts[1]) == Ok(r.value[0])
    ensures r.Ok? && Arity(op) == 2 ==> ParseOperand(text, parts[2]) == Ok(r.value[1])
    ensures r.Ok? && Arity(op) == 0 ==> r.value[0] == Operand(0, 0)
    ensures r.Ok? && Arity(op) <= 1 ==> r.value[1] == Operand(0, 0)
    ensures Arity(op) != |parts| - 1 ==> r == Err(OperandCountMismatch)
  {
    if Arity(op) != |parts| - 1 then Err(OperandCountMismatch)
    else if Arity(op) == 0 then Ok(NoOperands)
    else
      var first :- ParseOperand(text, parts[1]);
      if Arity(op) == 1 then Ok([first, Operand(0, 0)])
      else
        var second :- ParseOperand(text, parts[2]);
        Ok([first, second])
  }

  /** Appending one instruction: a jump also records a fixup with its
      index (truncated to an `unsigned short`), and the offset advances by
      the encoded length. */
  function Emit(st: Pass, inst: Instruction, target: Option<BStr>): (r: Pass)
    ensures r.instructions == st.instructions + [inst] && r.labels == st.labels
  {
    Pass(st.instructions + [inst],
         st.labels,
         if target.Some? then st.jumps + [Fixup(|st.instructions| % 0x1_0000, target.value)] else st.jumps,
         (st.offset + EncodedLen(Arity(inst.opcode))) % TwoTo32)
  }

  /** One iteration of `parse_instructions`: blank lines and `#` comments
      are skipped, a line ending in ':' defines a label at the current
      offset, any other line is an instruction. A jump records a fixup for
      its target instead of parsing operands, and its operand count is
      not checked. */
  function ParseLine(text: string, line: BStr, st: Pass): (r: Result<Pass>)
    requires Within(text, line)
    ensures r.Ok? ==> && st.instructions <= r.value.instructions
                      && st.labels <= r.value.labels
                      && st.jumps <= r.value.jumps
    ensures r.Ok? ==> |r.value.instructions| <= |st.instructions| + 1
  {
    if line.len == 0 || text[line.start] == '#' then Ok(st)
    else if text[line.start + line.len - 1] == ':' then
      Ok(st.(labels := st.labels + [Label(BStr(line.start, line.len - 1), st.offset)]))
    else
      SplitWithin(text, line, " ");
      var parts := Split(text, line, " ");
      var op :- OpcodeFromName(Value(text, parts[0]));
      if IsJump(op) then
        if |parts| < 2 then Err(MissingJumpTarget)
        else Ok(Emit(st, Instruction(op, B8, NoOperands), Some(parts[1])))
      else
        var operands :- ParseOperands(text, parts, op);
        Ok(Emit(st, Instruction(op, B8, operands), None))
  }

  /** `parse_instructions`: lines only ever add instructions, labels and
      fixups to what came before, at most one instruction per line. */
  function ParseLines(text: string, lines: seq<BStr>, st: Pass): (r: Result<Pass>)
    requires AllWithin(text, lines)
    ensures r.Ok? ==> && st.instructions <= r.value.instructions
                      && st.labels <= r.value.labels
                      && st.jumps <= r.value.jumps
    ensures r.Ok? ==> |r.value.instructions| <= |st.instructions| + |lines|
  {
    if |lines| == 0 then Ok(st)
    else
      var next :- ParseLine(text, lines[0], st);
      ParseLines(text, lines[1..], next)
  }

  // ---------------------------------------------------------------------
  // Code layout

  /** The number of code bytes the instructions occupy. */
  function CodeLen(insts: seq<Instruction>): nat {
    if |insts| == 0 then 0
    else CodeLen(insts[..|insts| - 1]) + EncodedLen(Arity(insts[|insts| - 1].opcode))
  }

  /** `encode`: the records back to back, each cut to its encoded length. */
  function Encode(insts: seq<Instruction>): (r: seq<uint8>)
    ensures |r| == CodeLen(insts)
  {
    if |insts| == 0 then []
    else Encode(insts[..|insts| - 1]) + EncodeInstruction(insts[|insts| - 1])
  }

  /** `a` is the offset (mod 2^32) at which some instruction starts, or the
      end of the code. */
  predicate IsBoundary(insts: seq<Instruction>, a: int) {
    exists k :: 0 <= k <= |insts| && a == CodeLen(insts[..k]) % TwoTo32
  }

  predicate LabelsWithin(text: string, labels: seq<Label>) {
    forall l :: 0 <= l < |labels| ==> Within(text, labels[l].name)
  }

  predicate JumpsWithin(text: string, jumps: seq<Fixup>) {
    forall j :: 0 <= j < |jumps| ==> Within(text, jumps[j].target)
  }

  /** What the first pass maintains: the running offset is the code length
      so far (an `unsigned`, so mod 2^32), labels sit at instruction
      boundaries, fixups point at instructions already emitted, and, while
      the `unsigned short` index has not wrapped, each fixup points at its
      own jump and each jump has a fixup, in order. */
  predicate PassInvariant(text: string, st: Pass) {
    && st.offset == CodeLen(st.instructions) % TwoTo32
    && LabelsWithin(text, st.labels)
    && JumpsWithin(text, st.jumps)
    && (forall l :: 0 <= l < |st.labels| ==> IsBoundary(st.instructions, st.labels[l].address))
    && (forall j :: 0 <= j < |st.jumps| ==> st.jumps[j].index < |st.instructions|)
    && (|st.instructions| <= 0x1_0000 ==> JumpsMatch(st))
  }

  predicate JumpsMatch(st: Pass) {
    && (forall j :: 0 <= j < |st.jumps| ==> st.jumps[j].index < |st.instructions| && IsJump(st.instructions[st.jumps[j].index].opcode))
    && (forall i, j :: 0 <= i < j < |st.jumps| ==> st.jumps[i].index < st.jumps[j].index)
    && (forall k :: 0 <= k < |st.instructions| && IsJump(st.instructions[k].opcode) ==> HasFixup(st.jumps, k))
  }

  predicate HasFixup(jumps: seq<Fixup>, k: nat) {
    exists j :: 0 <= j < |jumps| && jumps[j].index == k
  }

  lemma CodeLenAppend(insts: seq<Instruction>, x: Instruction)
    ensures CodeLen(insts + [x]) == CodeLen(insts) + EncodedLen(Arity(x.opcode))
    ensures forall k :: 0 <= k <= |insts| ==> (insts + [x])[..k] == insts[..k]
  {
    assert (insts + [x])[..|insts|] == insts;
  }

  lemma BoundaryAppend(insts: seq<Instruction>, x: Instruction, a: int)
    requires IsBoundary(insts, a)
    ensures IsBoundary(insts + [x], a)
  {
    var k :| 0 <= k <= |insts| && a == CodeLen(insts[..k]) % TwoTo32;
    CodeLenAppend(insts, x);
    assert (insts + [x])[..k] == insts[..k];
  }

  lemma BoundaryEnd(insts: seq<Instruction>)
    ensures IsBoundary(insts, CodeLen(insts) % TwoTo32)
  {
    assert insts[..|insts|] == insts;
  }

  /** A line of text that ends in ':' (and is no comment). */
  predicate IsLabelLine(text: string, line: BStr)
    requires Within(text, line)
  {
    line.len > 0 && text[line.start] != '#' && text[line.start + line.len - 1] == ':'
  }

  /** The pass starts with nothing emitted and the invariant holding. */
  lemma EmptyPassInvariant(text: string)
    ensures PassInvariant(text, EmptyPass)
  {
  }

  /** A label line appends one label, named by the line without its ':',
      at the current offset, emits nothing, and keeps the invariant. */
  lemma LabelLineInvariant(text: string, line: BStr, st: Pass)
    requires Within(text, line) && PassInvariant(text, st)
    requires IsLabelLine(text, line)
    ensures ParseLine(text, line, st).Ok? && PassInvariant(text, ParseLine(text, line, st).value)
    ensures ParseLine(text, line, st).value.labels == st.labels + [Label(BStr(line.start, line.len - 1), st.offset)]
    ensures ParseLine(text, line, st).value.instructions == st.instructions
  {
    var r := ParseLine(text, line, st).value;
    BoundaryEnd(st.instructions);
    assert r.labels[|st.labels|].address == st.offset;
    assert JumpsMatch(st) ==> JumpsMatch(r);
  }

  /** Emitting an instruction keeps the invariant when exactly the jumps
      carry a target inside the text. */
  lemma EmitInvariant(text: string, st: Pass, inst: Instruction, target: Option<BStr>)
    requires PassInvariant(text, st)
    requires target.Some? <==> IsJump(inst.opcode)
    requires target.Some? ==> Within(text, target.value)
    ensures PassInvariant(text, Emit(st, inst, target))
  {
    var r := Emit(st, inst, target);
    CodeLenAppend(st.instructions, inst);
    OffsetAdvance(CodeLen(st.instructions), EncodedLen(Arity(inst.opcode)));
    forall l | 0 <= l < |r.labels|
      ensures IsBoundary(r.instructions, r.labels[l].address)
    {
      BoundaryAppend(st.instructions, inst, st.labels[l].address);
    }
    if |r.instructions| <= 0x1_0000 {
      EmitJumpsMatch(st, inst, target);
    }
  }

  /** Advancing an offset kept mod 2^32 is advancing the full count. */
  lemma OffsetAdvance(c: nat, n: nat)
    ensures (c % TwoTo32 + n) % TwoTo32 == (c + n) % TwoTo32
  {
    var q := c / TwoTo32;
    assert c + n == TwoTo32 * q + (c % TwoTo32 + n);
  }

  lemma EmitJumpsMatch(st: Pass, inst: Instruction, target: Option<BStr>)
    requires JumpsMatch(st) && |st.instructions| < 0x1_0000
    requires target.Some? <==> IsJump(inst.opcode)
    ensures JumpsMatch(Emit(st, inst, target))
  {
    EmitKeepsJumps(st, inst, target);
    EmitFixups(st, inst, target);
  }

  /** The fixups already recorded stay, pointing at the same jumps; a new
      one points at the new, last instruction. */
  lemma EmitKeepsJumps(st: Pass, inst: Instruction, target: Option<BStr>)
    requires JumpsMatch(st) && |st.instructions| < 0x1_0000
    requires target.Some? <==> IsJump(inst.opcode)
    ensures var r := Emit(st, inst, target);
      && (forall j :: 0 <= j < |r.jumps| ==> r.jumps[j].index < |r.instructions| && IsJump(r.instructions[r.jumps[j].index].opcode))
      && (forall i, j :: 0 <= i < j < |r.jumps| ==> r.jumps[i].index < r.jumps[j].index)
  {
    var r := Emit(st, inst, target);
    assert r.jumps[..|st.jumps|] == st.jumps;
    assert r.instructions[..|st.instructions|] == st.instructions;
  }

  lemma EmitFixups(st: Pass, inst: Instruction, target: Option<BStr>)
    requires JumpsMatch(st) && |st.instructions| < 0x1_0000
    requires target.Some? <==> IsJump(inst.opcode)
    ensures var r := Emit(st, inst, target);
      forall k :: 0 <= k < |r.instructions| && IsJump(r.instructions[k].opcode) ==> HasFixup(r.jumps, k)
  {
    var r := Emit(st, inst, target);
    var n := |st.instructions|;
    forall k | 0 <= k < |r.instructions| && IsJump(r.instructions[k].opcode)
      ensures HasFixup(r.jumps, k)
    {
      if k < n {
        var j :| 0 <= j < |st.jumps| && st.jumps[j].index == k;
        assert r.jumps[j] == st.jumps[j];
      } else {
        assert r.jumps[|st.jumps|].index == k;
      }
    }
  }

  /** An instruction line keeps the invariant. */
  lemma InstructionLineInvariant(text: string, line: BStr, st: Pass)
    requires Within(text, line) && PassInvariant(text, st)
    requires line.len > 0 && text[line.start] != '#' && text[line.start + line.len - 1] != ':'
    ensures ParseLine(text, line, st).Ok? ==> PassInvariant(text, ParseLine(text, line, st).value)
  {
    if ParseLine(text, line, st).Err? {
      return;
    }
    SplitWithin(text, line, " ");
    var parts := Split(text, line, " ");
    var op := OpcodeFromName(Value(text, parts[0])).value;
    if IsJump(op) {
      EmitInvariant(text, st, Instruction(op, B8, NoOperands), Some(parts[1]));
    } else {
      var operands := ParseOperands(text, parts, op).value;
      EmitInvariant(text, st, Instruction(op, B8, operands), None);
    }
  }

  /** An empty line or a comment leaves the pass as it was. */
  lemma SkipLine(text: string, line: BStr, st: Pass)
    requires Within(text, line)
    requires line.len == 0 || text[line.start] == '#'
    ensures ParseLine(text, line, st) == Ok(st)
  {
  }

  lemma {:induction false} ParseLineInvariant(text: string, line: BStr, st: Pass)
    requires Within(text, line) && PassInvariant(text, st)
    ensures ParseLine(text, line, st).Ok? ==> PassInvariant(text, ParseLine(text, line, st).value)
  {
    if line.len == 0 || text[line.start] == '#' {
      SkipLine(text, line, st);
    } else if text[line.start + line.len - 1] == ':' {
      LabelLineInvariant(text, line, st);
    } else {
      InstructionLineInvariant(text, line, st);
    }
  }

  /** The first pass keeps its invariant over any number of lines. */
  lemma {:induction false} ParseLinesInvariant(text: string, lines: seq<BStr>, st: Pass)
    requires AllWithin(text, lines) && PassInvariant(text, st)
    ensures ParseLines(text, lines, st).Ok? ==> PassInvariant(text, ParseLines(text, lines, st).value)
  {
    if |lines| > 0 {
      ParseLineInvariant(text, lines[0], st);
      var next := ParseLine(text, lines[0], st);
      if next.Ok? {
        ParseLinesInvariant(text, lines[1..], next.value);
      }
    }
  }

  /** Parsing two runs of lines is parsing the first and then the second
      from where the first left off. */
  lemma {:induction false} ParseLinesAppend(text: string, pre: seq<BStr>, post: seq<BStr>, st: Pass)
    requires AllWithin(text, pre + post)
    ensures AllWithin(text, pre) && AllWithin(text, post)
    ensures ParseLines(text, pre + post, st) ==
      match ParseLines(text, pre, st)
      case Err(e) => Err(e)
      case Ok(p) => ParseLines(text, post, p)
    decreases |pre|
  {
    assert forall i :: 0 <= i < |pre| ==> (pre + post)[i] == pre[i];
    assert forall i :: 0 <= i < |post| ==> (pre + post)[|pre| + i] == post[i];
    if |pre| == 0 {
      assert pre + post == post;
    } else {
      assert (pre + post)[1..] == pre[1..] + post;
      var next := ParseLine(text, pre[0], st);
      if next.Ok? {
        ParseLinesAppend(text, pre[1..], post, next.value);
      }
    }
  }

  /** The first pass up to line `n`. */
  function PassBefore(text: string, lines: seq<BStr>, n: nat): Result<Pass>
    requires AllWithin(text, lines) && n <= |lines|
  {
    ParseLines(text, lines[..n], EmptyPass)
  }

  /** The label a label line defines gets the byte offset (mod 2^32) of
      the code that the lines before it produced: it is the label after
      theirs, and their instructions begin the program. */
  lemma LabelAt(text: string, lines: seq<BStr>, n: nat)
    requires AllWithin(text, lines) && n < |lines| && IsLabelLine(text, lines[n])
    requires ParseLines(text, lines, EmptyPass).Ok?
    ensures PassBefore(text, lines, n).Ok?
    ensures var p := PassBefore(text, lines, n).value;
      var fin := ParseLines(text, lines, EmptyPass).value;
      && p.instructions <= fin.instructions
      && |p.labels| < |fin.labels|
      && fin.labels[|p.labels|] == Label(BStr(lines[n].start, lines[n].len - 1), CodeLen(p.instructions) % TwoTo32)
  {
    var pre, post := lines[..n], lines[n..];
    assert lines == pre + post;
    ParseLinesAppend(text, pre, post, EmptyPass);
    EmptyPassInvariant(text);
    ParseLinesInvariant(text, pre, EmptyPass);
    assert ParseLines(text, pre, EmptyPass).Ok?;
    var p := ParseLines(text, pre, EmptyPass).value;
    assert ParseLines(text, post, p) == ParseLines(text, lines, EmptyPass);
    assert post[0] == lines[n];
    LabelFirst(text, post, p);
  }

  /** Lines that start with a label line append that label, at the
      current offset, before anything else. */
  lemma LabelFirst(text: string, lines: seq<BStr>, p: Pass)
    requires AllWithin(text, lines) && |lines| > 0 && IsLabelLine(text, lines[0])
    requires PassInvariant(text, p) && ParseLines(text, lines, p).Ok?
    ensures var fin := ParseLines(text, lines, p).value;
      && p.instructions <= fin.instructions
      && |p.labels| < |fin.labels|
      && fin.labels[|p.labels|] == Label(BStr(lines[0].start, lines[0].len - 1), CodeLen(p.instructions) % TwoTo32)
  {
    LabelLineInvariant(text, lines[0], p);
    var q := ParseLine(text, lines[0], p).value;
    var fin := ParseLines(text, lines[1..], q).value;
    assert ParseLines(text, lines, p).value == fin;
    assert q.labels[|p.labels|] == fin.labels[|p.labels|];
  }

  // ---------------------------------------------------------------------
  // The second pass

  /** `vec_label_find`: the first label with the given name. */
  function FindLabel(text: string, labels: seq<Label>, name: string): (r: Option<nat>)
    requires LabelsWithin(text, labels)
    ensures r.Some? ==> r.value < |labels| && Value(text, labels[r.value].name) == name
    ensures r.Some? ==> forall l :: 0 <= l < r.value ==> Value(text, labels[l].name) != name
    ensures r.None? ==> forall l :: 0 <= l < |labels| ==> Value(text, labels[l].name) != name
  {
    if |labels| == 0 then None
    else if Value(text, labels[0].name) == name then Some(0)
    else
      match FindLabel(text, labels[1..], name)
      case None => None
      case Some(i) => Some(i + 1)
  }

  /** The jump operand: an immediate literal holding the label address. */
  function Patch(inst: Instruction, address: uint32): (r: Instruction)
    ensures r.opcode == inst.opcode && r.size == inst.size
  {
    inst.(operands := [Operand(Or(Immediate, Literal), address), inst.operands[1]])
  }

  predicate SameShape(a: seq<Instruction>, b: seq<Instruction>) {
    |a| == |b| && forall k :: 0 <= k < |a| ==> a[k].opcode == b[k].opcode
  }

  predicate ResolvePre(text: string, insts: seq<Instruction>, labels: seq<Label>, jumps: seq<Fixup>) {
    && LabelsWithin(text, labels)
    && JumpsWithin(text, jumps)
    && forall j :: 0 <= j < |jumps| ==> jumps[j].index < |insts|
  }

  /** The name a fixup refers to. */
  function TargetOf(text: string, jumps: seq<Fixup>, j: nat): string
    requires JumpsWithin(text, jumps) && j < |jumps|
  {
    Value(text, jumps[j].target)
  }

  /** `resolve_jumps`: every fixup's label must exist. */
  function ResolveJumps(text: string, insts: seq<Instruction>, labels: seq<Label>, jumps: seq<Fixup>): (r: Result<seq<Instruction>>)
    requires ResolvePre(text, insts, labels, jumps)
    ensures r.Ok? ==> SameShape(insts, r.value)
    decreases |jumps|
  {
    if |jumps| == 0 then Ok(insts)
    else
      var found := FindLabel(text, labels, TargetOf(text, jumps, 0));
      if found.None? then Err(UndefinedLabel)
      else
        var idx := jumps[0].index;
        var patched := insts[idx := Patch(insts[idx], labels[found.value].address)];
        ResolveJumps(text, patched, labels, jumps[1..])
  }

  /** Every fixup names a label. */
  predicate AllDefined(text: string, labels: seq<Label>, jumps: seq<Fixup>)
    requires LabelsWithin(text, labels) && JumpsWithin(text, jumps)
  {
    forall j :: 0 <= j < |jumps| ==> FindLabel(text, labels, TargetOf(text, jumps, j)).Some?
  }

  lemma AllDefinedFirst(text: string, labels: seq<Label>, jumps: seq<Fixup>)
    requires LabelsWithin(text, labels) && JumpsWithin(text, jumps) && |jumps| > 0
    ensures JumpsWithin(text, jumps[1..])
    ensures AllDefined(text, labels, jumps) <==>
      FindLabel(text, labels, TargetOf(text, jumps, 0)).Some? && AllDefined(text, labels, jumps[1..])
  {
    if AllDefined(text, labels, jumps) {
      forall j | 0 <= j < |jumps| - 1 ensures FindLabel(text, labels, TargetOf(text, jumps[1..], j)).Some? {
        assert TargetOf(text, jumps[1..], j) == TargetOf(text, jumps, j + 1);
      }
    }
    if FindLabel(text, labels, TargetOf(text, jumps, 0)).Some? && AllDefined(text, labels, jumps[1..]) {
      forall j | 1 <= j < |jumps| ensures FindLabel(text, labels, TargetOf(text, jumps, j)).Some? {
        assert TargetOf(text, jumps, j) == TargetOf(text, jumps[1..], j - 1);
      }
    }
  }

  /** The second pass succeeds exactly when every jump names a label. */
  lemma {:induction false} ResolveDefined(text: string, insts: seq<Instruction>, labels: seq<Label>, jumps: seq<Fixup>)
    requires ResolvePre(text, insts, labels, jumps)
    ensures ResolveJumps(text, insts, labels, jumps).Ok? <==> AllDefined(text, labels, jumps)
    ensures ResolveJumps(text, insts, labels, jumps).Err? ==> ResolveJumps(text, insts, labels, jumps).error == UndefinedLabel
    decreases |jumps|
  {
    if |jumps| > 0 {
      AllDefinedFirst(text, labels, jumps);
      var found := FindLabel(text, labels, TargetOf(text, jumps, 0));
      if found.Some? {
        var idx := jumps[0].index;
        var patched := insts[idx := Patch(insts[idx], labels[found.value].address)];
        ResolveDefined(text, patched, labels, jumps[1..]);
      }
    }
  }

  /** Instructions no fixup points at pass through unchanged. */
  lemma {:induction false} ResolveUntouched(text: string, insts: seq<Instruction>, labels: seq<Label>, jumps: seq<Fixup>, k: nat)
    requires ResolvePre(text, insts, labels, jumps) && ResolveJumps(text, insts, labels, jumps).Ok?
    requires k < |insts| && forall j :: 0 <= j < |jumps| ==> jumps[j].index != k
    ensures ResolveJumps(text, insts, labels, jumps).value[k] == insts[k]
    decreases |jumps|
  {
    if |jumps| > 0 {
      var found := FindLabel(text, labels, TargetOf(text, jumps, 0));
      var idx := jumps[0].index;
      var patched := insts[idx := Patch(insts[idx], labels[found.value].address)];
      ResolveUntouched(text, patched, labels, jumps[1..], k);
    }
  }

  /** The jump operand a fixup receives. */
  function TargetOperand(text: string, labels: seq<Label>, name: string): Operand
    requires LabelsWithin(text, labels)
  {
    var found := FindLabel(text, labels, name);
    if found.Some? then Operand(Or(Immediate, Literal), labels[found.value].address) else Operand(0, 0)
  }

  /** With distinct fixup indices, every fixed-up instruction's first
      operand is an immediate literal holding the address of the first
      label bearing the jump's target name. */
  lemma {:induction false} ResolveTargets(text: string, insts: seq<Instruction>, labels: seq<Label>, jumps: seq<Fixup>)
    requires ResolvePre(text, insts, labels, jumps) && ResolveJumps(text, insts, labels, jumps).Ok?
    requires forall i, j :: 0 <= i < j < |jumps| ==> jumps[i].index < jumps[j].index
    ensures forall j :: 0 <= j < |jumps| ==>
      ResolveJumps(text, insts, labels, jumps).value[jumps[j].index].operands[0] == TargetOperand(text, labels, TargetOf(text, jumps, j))
    decreases |jumps|
  {
    if |jumps| > 0 {
      var r := ResolveJumps(text, insts, labels, jumps).value;
      var found := FindLabel(text, labels, TargetOf(text, jumps, 0));
      var idx := jumps[0].index;
      var patched := insts[idx := Patch(insts[idx], labels[found.value].address)];
      assert r == ResolveJumps(text, patched, labels, jumps[1..]).value;
      ResolveTargets(text, patched, labels, jumps[1..]);
      ResolveUntouched(text, patched, labels, jumps[1..], idx);
      forall j | 1 <= j < |jumps| ensures TargetOf(text, jumps, j) == TargetOf(text, jumps[1..], j - 1) {
      }
    }
  }

  // ---------------------------------------------------------------------
  // Assembly

  /** The output of both passes. */
  datatype Assembly = Assembly(instructions: seq<Instruction>, labels: seq<Label>, jumps: seq<Fixup>)

  /** The lines of the source: split at newlines, each trimmed. */
  function Lines(raw: string): (r: seq<BStr>)
    ensures AllWithin(raw, r)
  {
    SplitWithin(raw, BStr(0, |raw|), "\n");
    Split(raw, BStr(0, |raw|), "\n")
  }

  /** `parse_instructions` then `resolve_jumps`. */
  function Program(raw: string): (r: Result<Assembly>)
    ensures r.Ok? ==> ResolvePre(raw, r.value.instructions, r.value.labels, r.value.jumps)
  {
    var pass :- ParseLines(raw, Lines(raw), EmptyPass);
    EmptyPassInvariant(raw);
    ParseLinesInvariant(raw, Lines(raw), EmptyPass);
    var insts :- ResolveJumps(raw, pass.instructions, pass.labels, pass.jumps);
    Ok(Assembly(insts, pass.labels, pass.jumps))
  }

  /** `get_entry_point`: the address of the label "start", else 0. The C
      function returns an `int`, so an address of 2^31 or more comes back
      negative and is sign-extended into the 64-bit header field. */
  function EntryPoint(text: string, labels: seq<Label>): (r: uint64)
    requires LabelsWithin(text, labels)
    ensures FindLabel(text, labels, "start").None? ==> r == 0
    ensures FindLabel(text, labels, "start").Some? ==>
      var address := labels[FindLabel(text, labels, "start").value].address;
      && (address < TwoTo31 ==> r == address)
      && (address >= TwoTo31 ==> r == address + TwoTo64 - TwoTo32)
  {
    var start := FindLabel(text, labels, "start");
    if start.None? then 0 else Wrap64(Wrap32(labels[start.value].address))
  }

  /** `assemble`: the image header (code length, entry point) and the code.
      `encode` returns the code length as an `int`. */
  function Assemble(raw: string): (r: Result<seq<uint8>>)
    ensures r.Ok? <==> Program(raw).Ok?
    ensures r.Err? ==> r.error == Program(raw).error
    ensures r.Ok? ==> |r.value| == ImageHeaderLen + CodeLen(Program(raw).value.instructions)
  {
    var a :- Program(raw);
    var code := Encode(a.instructions);
    Ok(EncodeHeader(Header(Wrap64(Wrap32(|code|)), EntryPoint(raw, a.labels))) + code)
  }

  // ---------------------------------------------------------------------
  // Properties of the image

  /** The code of a prefix of the program is a prefix of the code. */
  lemma {:induction false} EncodePrefix(insts: seq<Instruction>, k: nat)
    requires k <= |insts|
    ensures CodeLen(insts[..k]) <= CodeLen(insts)
    ensures Encode(insts)[..CodeLen(insts[..k])] == Encode(insts[..k])
    decreases |insts|
  {
    if k == |insts| {
      assert insts[..k] == insts;
    } else {
      var init := insts[..|insts| - 1];
      EncodePrefix(init, k);
      assert init[..k] == insts[..k];
    }
  }

  /** The record of `inst` lies in `code` at offset `at`. */
  predicate RecordIn(code: seq<uint8>, at: nat, inst: Instruction) {
    SliceIs(code, at, EncodeInstruction(inst))
  }

  predicate SliceIs(s: seq<uint8>, at: nat, part: seq<uint8>) {
    at + |part| <= |s| && s[at..at + |part|] == part
  }

  /** Instruction k's record starts where the code of the first k
      instructions ends. */
  lemma {:induction false} EncodeAt(insts: seq<Instruction>, k: nat)
    requires k < |insts|
    ensures RecordIn(Encode(insts), CodeLen(insts[..k]), insts[k])
    decreases |insts|
  {
    if k < |insts| - 1 {
      EncodeAt(insts[..|insts| - 1], k);
      EncodeAtInit(insts, k);
    } else {
      EncodeAtLast(insts);
    }
  }

  /** The last record ends the code. */
  lemma EncodeAtLast(insts: seq<Instruction>)
    requires |insts| > 0
    ensures RecordIn(Encode(insts), CodeLen(insts[..|insts| - 1]), insts[|insts| - 1])
  {
    EncodeLast(insts);
    SliceIsRight(Encode(insts[..|insts| - 1]), EncodeInstruction(insts[|insts| - 1]));
  }

  /** A record inside the code of all but the last instruction is also
      inside the code of all of them. */
  lemma EncodeAtInit(insts: seq<Instruction>, k: nat)
    requires k < |insts| - 1
    requires RecordIn(Encode(insts[..|insts| - 1]), CodeLen(insts[..|insts| - 1][..k]), insts[..|insts| - 1][k])
    ensures RecordIn(Encode(insts), CodeLen(insts[..k]), insts[k])
  {
    var init := insts[..|insts| - 1];
    PrefixOfInit(insts, k);
    EncodeLast(insts);
    RecordInAppend(Encode(init), EncodeInstruction(insts[|insts| - 1]), CodeLen(insts[..k]), insts[k]);
  }

  lemma PrefixOfInit(insts: seq<Instruction>, k: nat)
    requires k < |insts| - 1
    ensures insts[..|insts| - 1][..k] == insts[..k] && insts[..|insts| - 1][k] == insts[k]
  {
  }

  lemma RecordInAppend(code: seq<uint8>, more: seq<uint8>, at: nat, inst: Instruction)
    requires RecordIn(code, at, inst)
    ensures RecordIn(code + more, at, inst)
  {
    SliceIsLeft(code, more, at, EncodeInstruction(inst));
  }

  lemma SliceIsLeft(a: seq<uint8>, b: seq<uint8>, at: nat, part: seq<uint8>)
    requires SliceIs(a, at, part)
    ensures SliceIs(a + b, at, part)
  {
    assert (a + b)[at..at + |part|] == a[at..at + |part|];
  }

  lemma SliceIsRight(a: seq<uint8>, b: seq<uint8>)
    ensures SliceIs(a + b, |a|, b)
  {
    assert (a + b)[|a|..|a| + |b|] == b;
  }

  lemma EncodeLast(s: seq<Instruction>)
    requires |s| > 0
    ensures Encode(s) == Encode(s[..|s| - 1]) + EncodeInstruction(s[|s| - 1])
    ensures CodeLen(s) == CodeLen(s[..|s| - 1]) + EncodedLen(Arity(s[|s| - 1].opcode))
  {
  }

  /** A record found at an offset of memory decodes there. */
  lemma DecodeAt(mem: seq<uint8>, at: nat, inst: Instruction)
    requires RecordIn(mem, at, inst)
    ensures DecodeInstruction(mem, at) == Ok(Canon(inst))
  {
    var n := at + EncodedLen(Arity(inst.opcode));
    assert mem == mem[..at] + mem[at..n] + mem[n..];
    DecodeEncode(mem[..at], inst, mem[n..]);
  }

  /** Instructions with the same opcodes occupy the same bytes. */
  lemma {:induction false} SameShapeCodeLen(a: seq<Instruction>, b: seq<Instruction>, k: nat)
    requires SameShape(a, b) && k <= |a|
    ensures CodeLen(a[..k]) == CodeLen(b[..k])
  {
    if k > 0 {
      SameShapeCodeLen(a, b, k - 1);
      assert a[..k][..k - 1] == a[..k - 1];
      assert b[..k][..k - 1] == b[..k - 1];
    }
  }

  /** A slice of the code is the same slice of the image, shifted by
      the header. */
  lemma SliceIsAfter(a: seq<uint8>, b: seq<uint8>, at: nat, part: seq<uint8>)
    requires SliceIs(b, at, part)
    ensures SliceIs(a + b, |a| + at, part)
  {
    assert (a + b)[|a| + at..|a| + at + |part|] == b[at..at + |part|];
  }

  /** The record at `at` decodes to `inst`, with its unused payloads
      cleared. */
  predicate DecodesTo(mem: seq<uint8>, at: nat, inst: Instruction) {
    DecodeInstruction(mem, at) == Ok(Canon(inst))
  }

  /** `image` reads back as header `h` followed by the records of `insts`,
      each at its own offset past the header. */
  predicate LaidOut(image: seq<uint8>, h: Header, insts: seq<Instruction>) {
    && DecodeHeader(image) == Ok(h)
    && forall k :: 0 <= k < |insts| ==> DecodesTo(image, ImageHeaderLen + CodeLen(insts[..k]), insts[k])
  }

  /** A header followed by the code: the header decodes back, and the
      record of every instruction decodes at its offset past the header. */
  lemma ImageLayout(image: seq<uint8>, h: Header, insts: seq<Instruction>)
    requires image == EncodeHeader(h) + Encode(insts)
    ensures |image| == ImageHeaderLen + CodeLen(insts)
    ensures LaidOut(image, h, insts)
  {
    HeaderRoundTrip(h, Encode(insts));
    forall k | 0 <= k < |insts|
      ensures DecodesTo(image, ImageHeaderLen + CodeLen(insts[..k]), insts[k])
    {
      ImageRecord(image, EncodeHeader(h), insts, k);
    }
  }

  /** The record of instruction `k` decodes past a 16-byte header. */
  lemma ImageRecord(image: seq<uint8>, header: seq<uint8>, insts: seq<Instruction>, k: nat)
    requires image == header + Encode(insts) && |header| == ImageHeaderLen && k < |insts|
    ensures DecodesTo(image, ImageHeaderLen + CodeLen(insts[..k]), insts[k])
  {
    EncodeAt(insts, k);
    RecordAfterHeader(image, ImageHeaderLen + CodeLen(insts[..k]), header, Encode(insts), CodeLen(insts[..k]), insts[k]);
  }

  lemma RecordAfterHeader(mem: seq<uint8>, pos: nat, header: seq<uint8>, code: seq<uint8>, at: nat, inst: Instruction)
    requires mem == header + code && |header| == ImageHeaderLen && pos == ImageHeaderLen + at
    requires RecordIn(code, at, inst)
    ensures DecodesTo(mem, pos, inst)
  {
    SliceIsAfter(header, code, at, EncodeInstruction(inst));
    DecodeAt(mem, pos, inst);
  }

  /** The image `Assemble` writes for an assembled program. */
  lemma AssembleImage(raw: string)
    requires Assemble(raw).Ok?
    ensures Program(raw).Ok?
    ensures var a := Program(raw).value;
      Assemble(raw).value == EncodeHeader(Header(Wrap64(Wrap32(CodeLen(a.instructions))), EntryPoint(raw, a.labels))) + Encode(a.instructions)
  {
  }

  /** The assembled image read back: its header decodes to the code
      length (an `int`, sign-extended) and the entry point, and every
      resolved instruction decodes at its own offset past the header. */
  lemma AssembleLayout(raw: string)
    requires Assemble(raw).Ok?
    ensures Program(raw).Ok?
    ensures var a := Program(raw).value;
      LaidOut(Assemble(raw).value, Header(Wrap64(Wrap32(CodeLen(a.instructions))), EntryPoint(raw, a.labels)), a.instructions)
  {
    var a := Program(raw).value;
    var h := Header(Wrap64(Wrap32(CodeLen(a.instructions))), EntryPoint(raw, a.labels));
    AssembleImage(raw);
    ImageLayout(Assemble(raw).value, h, a.instructions);
  }

  /** Every label of an assembled program sits at an instruction boundary
      of the code: its address is the byte offset (mod 2^32) of some
      instruction or of the end of the code. Which boundary is stated by
      `ProgramLabelAt`. */
  lemma ProgramLabels(raw: string, a: Assembly)
    requires Program(raw) == Ok(a)
    ensures forall l :: 0 <= l < |a.labels| ==> IsBoundary(a.instructions, a.labels[l].address)
  {
    var pass := ProgramPass(raw, a);
    forall l | 0 <= l < |a.labels|
      ensures IsBoundary(a.instructions, a.labels[l].address)
    {
      var k :| 0 <= k <= |pass.instructions| && a.labels[l].address == CodeLen(pass.instructions[..k]) % TwoTo32;
      SameShapeCodeLen(pass.instructions, a.instructions, k);
    }
  }

  /** The label on line `n` of an assembled program is the one after the
      labels of the lines before it, and its address is the byte offset
      (mod 2^32) of the code those lines produced. */
  lemma ProgramLabelAt(raw: string, a: Assembly, n: nat)
    requires Program(raw) == Ok(a)
    requires n < |Lines(raw)| && IsLabelLine(raw, Lines(raw)[n])
    ensures PassBefore(raw, Lines(raw), n).Ok?
    ensures var p := PassBefore(raw, Lines(raw), n).value;
      && |p.instructions| <= |a.instructions| && |p.labels| < |a.labels|
      && a.labels[|p.labels|].address == CodeLen(a.instructions[..|p.instructions|]) % TwoTo32
      && a.labels[|p.labels|].name == BStr(Lines(raw)[n].start, Lines(raw)[n].len - 1)
  {
    var pass := ProgramPass(raw, a);
    LabelAt(raw, Lines(raw), n);
    var p := PassBefore(raw, Lines(raw), n).value;
    var m := |p.instructions|;
    assert pass.instructions[..m] == p.instructions;
    SameShapeCodeLen(pass.instructions, a.instructions, m);
    assert a.labels[|p.labels|] == pass.labels[|p.labels|];
  }

  /** While the jump index fits its `unsigned short`, every jump of an
      assembled program carries, as an immediate literal, the address of
      the first label with the name it refers to, and every jump has such
      a label. */
  lemma ProgramJumps(raw: string, a: Assembly)
    requires Program(raw) == Ok(a) && |a.instructions| <= 0x1_0000
    ensures forall k :: 0 <= k < |a.instructions| && IsJump(a.instructions[k].opcode) ==> HasFixup(a.jumps, k)
    ensures forall j :: 0 <= j < |a.jumps| ==>
      && IsJump(a.instructions[a.jumps[j].index].opcode)
      && FindLabel(raw, a.labels, TargetOf(raw, a.jumps, j)).Some?
      && a.instructions[a.jumps[j].index].operands[0] == TargetOperand(raw, a.labels, TargetOf(raw, a.jumps, j))
  {
    var pass := ProgramPass(raw, a);
    assert JumpsMatch(pass);
    ResolveDefined(raw, pass.instructions, pass.labels, pass.jumps);
    ResolveTargets(raw, pass.instructions, pass.labels, pass.jumps);
  }

  /** The first pass behind an assembled program: its invariant holds and
      the second pass turns it into the program. */
  lemma ProgramPass(raw: string, a: Assembly) returns (pass: Pass)
    requires Program(raw) == Ok(a)
    ensures ParseLines(raw, Lines(raw), EmptyPass) == Ok(pass)
    ensures PassInvariant(raw, pass)
    ensures ResolvePre(raw, pass.instructions, pass.labels, pass.jumps)
    ensures ResolveJumps(raw, pass.instructions, pass.labels, pass.jumps) == Ok(a.instructions)
    ensures pass.labels == a.labels && pass.jumps == a.jumps
    ensures SameShape(pass.instructions, a.instructions)
  {
    var parsed := ParseLines(raw, Lines(raw), EmptyPass);
    assert parsed.Ok?;
    pass := parsed.value;
    EmptyPassInvariant(raw);
    ParseLinesInvariant(raw, Lines(raw), EmptyPass);
    var resolved := ResolveJumps(raw, pass.instructions, pass.labels, pass.jumps);
    assert resolved.Ok? && a == Assembly(resolved.value, pass.labels, pass.jumps);
  }
}
