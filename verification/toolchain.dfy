/** The assembler and the emulator together: what the loader makes of an
    image the assembler wrote. */
module Toolchain {
  import opened Bytes
  import opened Errors
  import opened Shared
  import A = Assembler
  import E = Emulator

  /** Bytes after a record do not change how it decodes. */
  lemma DecodeExtend(image: seq<uint8>, rest: seq<uint8>, at: nat)
    requires DecodeInstruction(image, at).Ok?
    ensures DecodeInstruction(image + rest, at) == DecodeInstruction(image, at)
  {
    var mem := image + rest;
    var len := EncodedLen(Arity(DecodeInstruction(image, at).value.opcode));
    RecordLayout(0);
    RecordLayout(1);
    assert mem[..|image|] == image;
    assert forall i :: 0 <= i < |image| ==> mem[i] == image[i];
    if len >= 16 {
      assert mem[at + RecordPayload(0)..at + RecordPayload(0) + 8] == image[at + RecordPayload(0)..at + RecordPayload(0) + 8];
    }
    if len >= 24 {
      assert mem[at + RecordPayload(1)..at + RecordPayload(1) + 8] == image[at + RecordPayload(1)..at + RecordPayload(1) + 8];
    }
  }

  /** A prefix of the program is no longer than the program. */
  lemma {:induction false} CodeLenPrefix(insts: seq<Instruction>, k: nat)
    requires k <= |insts|
    ensures A.CodeLen(insts[..k]) <= A.CodeLen(insts)
    decreases |insts|
  {
    if k < |insts| {
      var front := insts[..|insts| - 1];
      assert insts[..k] == front[..k];
      CodeLenPrefix(front, k);
    } else {
      assert insts[..k] == insts;
    }
  }

  /** Loading an image whose header names the offset of record `k` starts
      the machine there, on that record. */
  lemma LoadImage(h: Header, insts: seq<Instruction>, arena: seq<uint8>, k: nat)
    requires k <= |insts| && h.entryPoint == A.CodeLen(insts[..k])
    requires |EncodeHeader(h) + A.Encode(insts)| <= E.MemorySize && |arena| == E.MemorySize
    ensures var m := E.Load(EncodeHeader(h) + A.Encode(insts), arena).value;
      && m.regs[RIP] == ImageHeaderLen + A.CodeLen(insts[..k])
      && (k < |insts| ==> DecodeInstruction(m.mem, m.regs[RIP]) == Ok(Canon(insts[k])))
  {
    var image := EncodeHeader(h) + A.Encode(insts);
    var m := E.Load(image, arena).value;
    var at := A.CodeLen(insts[..k]);
    HeaderRoundTrip(h, A.Encode(insts));
    E.LoadEntry(image, arena);
    CodeLenPrefix(insts, k);
    assert m.regs[RIP] == ImageHeaderLen + at;
    if k < |insts| {
      A.ImageRecord(image, EncodeHeader(h), insts, k);
      assert m.mem == image + arena[|image|..];
      DecodeExtend(image, arena[|image|..], ImageHeaderLen + at);
    }
  }

  /** The record the `start` label points at, or the first record, when
      every label sits on a record boundary. */
  lemma StartRecord(raw: string, a: A.Assembly) returns (k: nat)
    requires A.LabelsWithin(raw, a.labels)
    requires forall l :: 0 <= l < |a.labels| ==> A.IsBoundary(a.instructions, a.labels[l].address)
    requires A.CodeLen(a.instructions) < TwoTo31
    ensures k <= |a.instructions|
    ensures A.EntryPoint(raw, a.labels) == A.CodeLen(a.instructions[..k])
    ensures EntryLabel(raw, a, k)
  {
    var insts := a.instructions;
    var start := A.FindLabel(raw, a.labels, "start");
    if start.Some? {
      var address := a.labels[start.value].address;
      assert A.IsBoundary(insts, address);
      var j :| 0 <= j <= |insts| && address == A.CodeLen(insts[..j]) % TwoTo32;
      PrefixOffset(insts, j);
      SmallOffset(address);
      k := j;
    } else {
      assert insts[..0] == [];
      k := 0;
    }
  }

  /** Offsets inside a program shorter than 2^31 bytes are below 2^31, so
      reducing them mod 2^32 leaves them as they are. */
  lemma PrefixOffset(insts: seq<Instruction>, j: nat)
    requires j <= |insts| && A.CodeLen(insts) < TwoTo31
    ensures A.CodeLen(insts[..j]) < TwoTo31
    ensures A.CodeLen(insts[..j]) % TwoTo32 == A.CodeLen(insts[..j])
  {
    CodeLenPrefix(insts, j);
    SmallMod(A.CodeLen(insts[..j]));
  }

  lemma SmallMod(n: nat)
    requires n < TwoTo31
    ensures n % TwoTo32 == n
  {
  }

  /** An offset below 2^31 survives the entry point's int32 and uint64 conversions. */
  lemma SmallOffset(address: uint32)
    requires address < TwoTo31
    ensures Wrap64(Wrap32(address)) == address
  {
  }

  /** The loaded machine starts on an instruction boundary of the assembled
      program: at the record labelled `start` when there is one, else at the
      first record; and it fetches that instruction. Offsets are assumed to
      stay below 2^31, where the assembler's `int` offsets are exact. */
  lemma LoadAssembled(raw: string, arena: seq<uint8>)
    requires A.Assemble(raw).Ok? && |A.Assemble(raw).value| <= E.MemorySize && |arena| == E.MemorySize
    requires A.CodeLen(A.Program(raw).value.instructions) < TwoTo31
    ensures var a := A.Program(raw).value;
      var m := E.Load(A.Assemble(raw).value, arena).value;
      exists k :: 0 <= k <= |a.instructions| && StartsAt(raw, a, m, k)
  {
    var a := A.Program(raw).value;
    var insts := a.instructions;
    var h := Header(Wrap64(Wrap32(A.CodeLen(insts))), A.EntryPoint(raw, a.labels));
    A.AssembleImage(raw);
    A.ProgramLabels(raw, a);
    var k := StartRecord(raw, a);
    LoadImage(h, insts, arena, k);
    assert StartsAt(raw, a, E.Load(A.Assemble(raw).value, arena).value, k);
  }

  /** The loaded machine's RIP is the record boundary before instruction
      `k`, that record decodes there, and `k` is where `start` points (the
      first record without a `start` label). */
  predicate StartsAt(raw: string, a: A.Assembly, m: E.Machine, k: nat)
    requires k <= |a.instructions| && A.LabelsWithin(raw, a.labels)
  {
    && m.regs[RIP] == ImageHeaderLen + A.CodeLen(a.instructions[..k])
    && (k < |a.instructions| ==> DecodeInstruction(m.mem, m.regs[RIP]) == Ok(Canon(a.instructions[k])))
    && EntryLabel(raw, a, k)
  }

  /** `k` is the record `start` labels, or the first one without a `start`. */
  predicate EntryLabel(raw: string, a: A.Assembly, k: nat)
    requires k <= |a.instructions| && A.LabelsWithin(raw, a.labels)
  {
    var start := A.FindLabel(raw, a.labels, "start");
    && (start.Some? ==> a.labels[start.value].address == A.CodeLen(a.instructions[..k]))
    && (start.None? ==> k == 0)
  }

  /** A jump of an assembled program carries a literal that is the address
      of the label it names, and that address is a record boundary. */
  lemma JumpTarget(raw: string, a: A.Assembly, k: nat) returns (address: uint32, j: nat, f: nat)
    requires A.Program(raw) == Ok(a)
    requires k < |a.instructions| <= 0x1_0000 && A.IsJump(a.instructions[k].opcode)
    ensures A.ResolvePre(raw, a.instructions, a.labels, a.jumps)
    ensures f < |a.jumps| && a.jumps[f].index == k
    ensures A.FindLabel(raw, a.labels, A.TargetOf(raw, a.jumps, f)).Some?
    ensures a.labels[A.FindLabel(raw, a.labels, A.TargetOf(raw, a.jumps, f)).value].address == address
    ensures a.instructions[k].operands[0] == Operand(Or(Immediate, Literal), address)
    ensures j <= |a.instructions| && address == A.CodeLen(a.instructions[..j]) % TwoTo32
  {
    A.ProgramJumps(raw, a);
    A.ProgramLabels(raw, a);
    assert A.HasFixup(a.jumps, k);
    f :| 0 <= f < |a.jumps| && a.jumps[f].index == k;
    var l := A.FindLabel(raw, a.labels, A.TargetOf(raw, a.jumps, f)).value;
    address := a.labels[l].address;
    assert A.IsBoundary(a.instructions, address);
    j :| 0 <= j <= |a.instructions| && address == A.CodeLen(a.instructions[..j]) % TwoTo32;
  }

  /** Memory that begins with an image decodes the image's records alike. */
  lemma PrefixDecodes(image: seq<uint8>, mem: seq<uint8>, at: nat)
    requires DecodeInstruction(image, at).Ok?
    requires |image| <= |mem| && mem[..|image|] == image
    ensures DecodeInstruction(mem, at) == DecodeInstruction(image, at)
  {
    var rest := mem[|image|..];
    assert mem == image + rest;
    DecodeExtend(image, rest, at);
  }

  /** The record of an assembled `jmp` carrying the literal `address`,
      read from memory that begins with the image, is a jump to that
      literal. */
  lemma AssembledJump(raw: string, a: A.Assembly, image: seq<uint8>, mem: seq<uint8>, k: nat, address: uint64)
    requires A.Program(raw) == Ok(a) && A.Assemble(raw) == Ok(image)
    requires k < |a.instructions| && a.instructions[k].opcode == Jmp
    requires a.instructions[k].operands[0] == Operand(Or(Immediate, Literal), address)
    requires |image| <= |mem| && mem[..|image|] == image
    ensures JumpsTo(mem, ImageHeaderLen + A.CodeLen(a.instructions[..k]), address)
  {
    var insts := a.instructions;
    var h := Header(Wrap64(Wrap32(A.CodeLen(insts))), A.EntryPoint(raw, a.labels));
    A.AssembleLayout(raw);
    ImageJump(h, insts, image, mem, k, address);
  }

  /** The image keeps a `jmp` record's target literal. */
  lemma ImageJump(h: Header, insts: seq<Instruction>, image: seq<uint8>, mem: seq<uint8>, k: nat, address: uint64)
    requires k < |insts| && insts[k].opcode == Jmp
    requires insts[k].operands[0] == Operand(Or(Immediate, Literal), address)
    requires A.LaidOut(image, h, insts)
    requires |image| <= |mem| && mem[..|image|] == image
    ensures JumpsTo(mem, ImageHeaderLen + A.CodeLen(insts[..k]), address)
  {
    assert A.DecodesTo(image, ImageHeaderLen + A.CodeLen(insts[..k]), insts[k]);
    PrefixDecodes(image, mem, ImageHeaderLen + A.CodeLen(insts[..k]));
    var c := Canon(insts[k]);
    assert Arity(c.opcode) == 1;
    assert c.opcode == Jmp && c.operands[0] == insts[k].operands[0];
  }

  /** The record at `at` decodes to a `jmp` to the literal `address`. */
  predicate JumpsTo(mem: seq<uint8>, at: nat, address: uint64) {
    && DecodeInstruction(mem, at).Ok?
    && DecodeInstruction(mem, at).value.opcode == Jmp
    && DecodeInstruction(mem, at).value.operands[0] == Operand(Or(Immediate, Literal), address)
  }

  /** A `jmp` to a literal address moves RIP, and nothing else, to that
      address past the image header. */
  lemma LiteralJumpLands(m: E.Machine, address: uint32)
    requires JumpsTo(m.mem, m.regs[RIP], address)
    ensures Lands(m, E.Step(m), ImageHeaderLen + address)
  {
    E.JumpToLiteral(m, address);
    E.WordArithmetic(ImageHeaderLen, address);
  }

  /** Executing an assembled `jmp` moves RIP, and nothing else, to the
      address (past the image header) of the first label named by the
      jump's fixup `f`, which is a record boundary; and the machine keeps
      running. `A.ProgramLabelAt` says which boundary a label marks. */
  lemma JumpLands(raw: string, a: A.Assembly, image: seq<uint8>, m: E.Machine, k: nat) returns (f: nat)
    requires A.Program(raw) == Ok(a) && A.Assemble(raw) == Ok(image)
    requires k < |a.instructions| <= 0x1_0000 && a.instructions[k].opcode == Jmp
    requires A.CodeLen(a.instructions) < TwoTo31
    requires |image| <= |m.mem| && m.mem[..|image|] == image
    requires m.regs[RIP] == ImageHeaderLen + A.CodeLen(a.instructions[..k])
    ensures A.ResolvePre(raw, a.instructions, a.labels, a.jumps)
    ensures f < |a.jumps| && a.jumps[f].index == k
    ensures A.FindLabel(raw, a.labels, A.TargetOf(raw, a.jumps, f)).Some?
    ensures var address := a.labels[A.FindLabel(raw, a.labels, A.TargetOf(raw, a.jumps, f)).value].address;
      && A.IsBoundary(a.instructions, address)
      && Lands(m, E.Step(m), ImageHeaderLen + address)
  {
    var address, j;
    address, j, f := JumpTarget(raw, a, k);
    PrefixOffset(a.instructions, j);
    AssembledJump(raw, a, image, m.mem, k, address);
    BoundaryAt(a.instructions, j, address);
    LiteralJumpLands(m, address);
  }

  /** A label line's label marks the record of the first instruction after
      it: when the program is shorter than 2^31 bytes, the label's address
      is exactly the code length of the instructions before it. */
  lemma LabelOffset(raw: string, a: A.Assembly, n: nat)
    requires A.Program(raw) == Ok(a) && A.CodeLen(a.instructions) < TwoTo31
    requires n < |A.Lines(raw)| && A.IsLabelLine(raw, A.Lines(raw)[n])
    ensures A.PassBefore(raw, A.Lines(raw), n).Ok?
    ensures var p := A.PassBefore(raw, A.Lines(raw), n).value;
      && |p.instructions| <= |a.instructions| && |p.labels| < |a.labels|
      && a.labels[|p.labels|].address == A.CodeLen(a.instructions[..|p.instructions|])
  {
    A.ProgramLabelAt(raw, a, n);
    PrefixOffset(a.instructions, |A.PassBefore(raw, A.Lines(raw), n).value.instructions|);
  }

  /** The entry point is the offset of the instruction after the label
      line that defines the first `start` label. */
  lemma EntryAfterLabel(raw: string, a: A.Assembly, n: nat)
    requires A.Program(raw) == Ok(a) && A.CodeLen(a.instructions) < TwoTo31
    requires n < |A.Lines(raw)| && A.IsLabelLine(raw, A.Lines(raw)[n])
    ensures A.PassBefore(raw, A.Lines(raw), n).Ok?
    ensures var p := A.PassBefore(raw, A.Lines(raw), n).value;
      |p.instructions| <= |a.instructions| &&
      (A.FindLabel(raw, a.labels, "start") == Some(|p.labels|) ==>
        A.EntryPoint(raw, a.labels) == A.CodeLen(a.instructions[..|p.instructions|]))
  {
    LabelOffset(raw, a, n);
    var p := A.PassBefore(raw, A.Lines(raw), n).value;
    PrefixOffset(a.instructions, |p.instructions|);
  }

  /** An assembled `jmp` whose target is first defined on label line `n`
      lands on the record of the first instruction after that line. */
  lemma JumpLandsAfterLabel(raw: string, a: A.Assembly, image: seq<uint8>, m: E.Machine, k: nat, n: nat) returns (f: nat)
    requires A.Program(raw) == Ok(a) && A.Assemble(raw) == Ok(image)
    requires k < |a.instructions| <= 0x1_0000 && a.instructions[k].opcode == Jmp
    requires A.CodeLen(a.instructions) < TwoTo31
    requires |image| <= |m.mem| && m.mem[..|image|] == image
    requires m.regs[RIP] == ImageHeaderLen + A.CodeLen(a.instructions[..k])
    requires n < |A.Lines(raw)| && A.IsLabelLine(raw, A.Lines(raw)[n])
    ensures A.PassBefore(raw, A.Lines(raw), n).Ok?
    ensures A.ResolvePre(raw, a.instructions, a.labels, a.jumps)
    ensures f < |a.jumps| && a.jumps[f].index == k
    ensures var p := A.PassBefore(raw, A.Lines(raw), n).value;
      |p.instructions| <= |a.instructions| &&
      (A.FindLabel(raw, a.labels, A.TargetOf(raw, a.jumps, f)) == Some(|p.labels|) ==>
        Lands(m, E.Step(m), ImageHeaderLen + A.CodeLen(a.instructions[..|p.instructions|])))
  {
    f := JumpLands(raw, a, image, m, k);
    LabelOffset(raw, a, n);
  }

  lemma BoundaryAt(insts: seq<Instruction>, j: nat, address: int)
    requires j <= |insts| && address == A.CodeLen(insts[..j]) < TwoTo31
    ensures A.IsBoundary(insts, address)
  {
    assert address == A.CodeLen(insts[..j]) % TwoTo32;
  }

  /** `step` succeeded, the machine keeps running, and only RIP changed, to `target`. */
  predicate Lands(m: E.Machine, step: Result<E.Next>, target: int) {
    && step.Ok? && step.value.running
    && step.value.machine.regs[RIP] == target
    && step.value.machine.mem == m.mem && step.value.machine.output == m.output
    && forall r :: 0 <= r < RegisterCount && r != RIP ==> step.value.machine.regs[r] == m.regs[r]
  }
}
