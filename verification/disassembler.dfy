/** The disassembler's text forms: opcode, register and size names, and
    one operand rendered into a character buffer the way the assembler
    would have written it. */
module Disassembler {
  import opened Bytes
  import opened Errors
  import opened Shared
  import opened Numbers
  import opened BString
  import A = Assembler

  // ---------------------------------------------------------------------
  // Names

  /** The mnemonic of each opcode. */
  function Mnemonic(op: Opcode): string {
    match op
    case Push => "push"   case Pop => "pop"     case Jmp => "jmp"     case Exit => "exit"
    case Mov => "mov"     case Call => "call"   case Ret => "ret"     case Add => "add"
    case Sub => "sub"     case Mul => "mul"     case Div => "div"     case Mod => "mod"
    case Inc => "inc"     case Dec => "dec"     case Cmp => "cmp"     case Je => "je"
    case Jne => "jne"     case Jl => "jl"       case Jg => "jg"       case Jle => "jle"
    case Jge => "jge"     case Print => "print"
  }

  /** `opcode_to_string`: a byte that names no opcode ends the program. */
  function OpcodeToString(b: uint8): (r: Result<string>)
    ensures r.Ok? <==> b < OpcodeCount
    ensures r.Err? ==> r.error == UnknownOpcode
    ensures r.Ok? ==> A.OpcodeFromName(r.value) == OpcodeOf(b)
  {
    var op :- OpcodeOf(b);
    MnemonicRoundTrip(op);
    Ok(Mnemonic(op))
  }

  /** The assembler reads every mnemonic back as its opcode, and the
      mnemonic is the only name it reads as that opcode. */
  lemma MnemonicRoundTrip(op: Opcode)
    ensures A.OpcodeFromName(Mnemonic(op)) == Ok(op)
  {
    match op
    case Push => case Pop => case Jmp => case Exit => case Mov => case Call =>
    case Ret => case Add => case Sub => case Mul => case Div => case Mod =>
    case Inc => case Dec => case Cmp => case Je => case Jne => case Jl =>
    case Jg => case Jle => case Jge => case Print =>
  }

  lemma MnemonicUnique(s: string, op: Opcode)
    requires A.OpcodeFromName(s) == Ok(op)
    ensures s == Mnemonic(op)
  {
    if s == "push" {
    } else if s == "pop" {
    } else if s == "jmp" {
    } else if s == "exit" {
    } else if s == "mov" {
    } else if s == "call" {
    } else if s == "ret" {
    } else if s == "add" {
    } else if s == "sub" {
    } else if s == "mul" {
    } else if s == "div" {
    } else if s == "mod" {
    } else if s == "inc" {
    } else if s == "dec" {
    } else if s == "cmp" {
    } else if s == "je" {
    } else if s == "jne" {
    } else if s == "jl" {
    } else if s == "jle" {
    } else if s == "jg" {
    } else if s == "jge" {
    } else if s == "print" {
    }
  }

  /** The name of each register id. */
  function RegisterName(r: uint8): string
    requires r < RegisterCount
  {
    if r == R0 then "r0" else if r == R1 then "r1" else if r == R2 then "r2"
    else if r == R3 then "r3" else if r == R4 then "r4" else if r == R5 then "r5"
    else if r == RIP then "rip" else if r == RSP then "rsp"
    else if r == RFLAG then "rflag" else "rmem"
  }

  /** Register names are spelled in lower-case letters and digits. */
  predicate NameChar(c: char) {
    'a' <= c <= 'z' || '0' <= c <= '9'
  }

  lemma RegisterNameChars(r: uint8)
    requires r < RegisterCount
    ensures forall i :: 0 <= i < |RegisterName(r)| ==> NameChar(RegisterName(r)[i])
  {
    if r == R0 {} else if r == R1 {} else if r == R2 {} else if r == R3 {}
    else if r == R4 {} else if r == R5 {} else if r == RIP {} else if r == RSP {}
    else if r == RFLAG {} else {}
  }

  /** `register_to_string`: an id of 10 or more ends the program. */
  function RegisterToString(r: uint8): (s: Result<string>)
    ensures s.Ok? <==> r < RegisterCount
    ensures s.Err? ==> s.error == BadRegister
    ensures s.Ok? ==> 2 <= |s.value| <= 5 && s.value[0] == 'r'
  {
    if r < RegisterCount then Ok(RegisterName(r)) else Err(BadRegister)
  }

  /** The names agree with the assembler's in both directions, except that
      the flags register is printed but cannot be written in source. */
  lemma RegisterNames(r: uint8, s: string)
    ensures r < RegisterCount && r != RFLAG ==> A.RegisterFromName(RegisterToString(r).value) == Ok(r)
    ensures A.RegisterFromName(s) == Ok(r) ==> RegisterToString(r) == Ok(s)
    ensures RegisterToString(RFLAG) == Ok("rflag") && A.RegisterFromName("rflag").Err?
  {
  }

  /** `size_to_string`: "B" and the operand's width in bytes; any other
      width ends the program. */
  function SizeToString(size: uint8): (r: Result<string>)
    ensures r.Ok? <==> size in {B1, B2, B4, B8}
    ensures r.Err? ==> r.error == UnknownSize
    ensures r.Ok? ==> r.value == "B" + DecimalString(size)
  {
    if size == B1 then Ok("B1")
    else if size == B2 then Ok("B2")
    else if size == B4 then Ok("B4")
    else if size == B8 then Ok("B8")
    else Err(UnknownSize)
  }

  // ---------------------------------------------------------------------
  // The output buffer

  /** What `snprintf(out, n, ...)` leaves at `out` when the formatted text
      is `s`, up to where the returned count moves `out`. Text shorter than
      `n` is written whole; text of exactly `n` characters loses its last
      one to the terminator, and `out` then points just past that
      terminator. No format in this file is longer than its limit. */
  function Snprintf(n: nat, s: string): (r: string)
    requires 1 <= n && |s| <= n
    ensures |r| == |s|
    ensures |s| < n ==> r == s
  {
    if |s| < n then s else s[..n - 1] + ['\0']
  }

  /** The C string a buffer holds: everything before its first terminator. */
  function Visible(buf: string): (r: string)
    ensures |r| <= |buf| && r == buf[..|r|]
    ensures forall i :: 0 <= i < |r| ==> r[i] != '\0'
    ensures |r| < |buf| ==> buf[|r|] == '\0'
  {
    if |buf| == 0 || buf[0] == '\0' then "" else [buf[0]] + Visible(buf[1..])
  }

  /** Text that holds no C string terminator. */
  predicate NoTerminator(s: string) {
    forall i :: 0 <= i < |s| ==> s[i] != '\0'
  }

  /** A buffer without terminators is read whole. */
  lemma {:induction false} VisibleWhole(buf: string)
    requires forall i :: 0 <= i < |buf| ==> buf[i] != '\0'
    ensures Visible(buf) == buf
  {
    if |buf| > 0 {
      VisibleWhole(buf[1..]);
    }
  }

  /** Decimal text holds no terminator. */
  lemma DecimalNoTerminator(n: nat)
    ensures forall i :: 0 <= i < |DecimalString(n)| ==> DecimalString(n)[i] != '\0'
    ensures DecimalString(n)[0] != 'r' && DecimalString(n)[0] != '['
  {
    DecimalStringDigits(n);
  }

  // ---------------------------------------------------------------------
  // Operands

  /** `*m` after the base register when the multiplier is not 1, through a
      4-byte `snprintf`: a three-digit multiplier is cut to two digits and
      the terminator. */
  function MultiplierTerm(m: uint8): (r: string)
  {
    if m == 1 then ""
    else
      DecimalStringLength(m, 3, Pow10(3));
      Snprintf(4, "*" + DecimalString(m))
  }

  /** `+reg2` when the sign byte is set; the printed sign is always '+'. */
  function Register2Term(c: ComplexOperand): (r: Result<string>)
    ensures r.Err? <==> c.register2Sign != 0 && c.register2 >= RegisterCount
  {
    if c.register2Sign == 0 then Ok("")
    else
      var name :- RegisterToString(c.register2);
      Ok("+" + name)
  }

  /** `+offset` for a positive offset only. */
  function OffsetTerm(offset: int32): string {
    if offset > 0 then "+" + DecimalString(offset) else ""
  }

  /** The register branch: base name, multiplier, second register, offset,
      as the buffer holds them. */
  function RegisterTerms(c: ComplexOperand): (r: Result<string>)
    ensures r.Err? <==> c.base >= RegisterCount || (c.register2Sign != 0 && c.register2 >= RegisterCount)
    ensures r.Err? ==> r.error == BadRegister
  {
    var base :- RegisterToString(c.base);
    var second :- Register2Term(c);
    Ok(base + MultiplierTerm(c.multiplier) + second + OffsetTerm(c.offset))
  }

  /** The bracket characters, when the operand is an address. */
  function Bracket(kind: uint8, ch: char): string {
    if HasFlag(kind, Address) then [ch] else ""
  }

  /** `operand_to_string` for one operand, as the resulting C string. An
      immediate prints as an unsigned decimal; a register operand reads its
      payload through the complex sub-record, whether COMPLEX is set or not;
      an operand of neither kind prints nothing between the brackets. */
  function OperandToString(o: Operand): (r: Result<string>)
    ensures r.Err? <==> !HasFlag(o.kind, Immediate) && HasFlag(o.kind, Register)
                        && RegisterTerms(UnpackComplex(o.payload)).Err?
    ensures r.Err? ==> r.error == BadRegister
    ensures r.Ok? ==> forall i :: 0 <= i < |r.value| ==> r.value[i] != '\0'
    ensures r.Ok? && HasFlag(o.kind, Immediate) ==>
              r.value == Bracket(o.kind, '[') + DecimalString(o.payload) + Bracket(o.kind, ']')
  {
    var body :-
      if HasFlag(o.kind, Immediate) then Ok(DecimalString(o.payload))
      else if HasFlag(o.kind, Register) then RegisterTerms(UnpackComplex(o.payload))
      else Ok("");
    var buf := Bracket(o.kind, '[') + body + Bracket(o.kind, ']');
    if HasFlag(o.kind, Immediate) then
      DecimalNoTerminator(o.payload);
      VisibleWhole(buf);
      Ok(Visible(buf))
    else
      Ok(Visible(buf))
  }

  /** `%llu` of the immediate reads back through the assembler's `strtoll`
      as the same operand, for every payload below 2^63. */
  lemma ImmediateRoundTrip(o: Operand, address: bool)
    requires o.kind == A.OperandKind(address, false, false) && o.payload < TwoTo63
    ensures OperandToString(o).Ok?
    ensures var s := OperandToString(o).value;
      A.ParseOperand(s, BStr(0, |s|)) == Ok(o)
  {
    ImmediateText(o, address);
    StrToLLDecimal(o.payload);
  }

  /** Above 2^63 - 1 the printed payload no longer reads back: `strtoll`
      saturates, and the operand comes back as LLONG_MAX. */
  lemma ImmediateSaturates(o: Operand, address: bool)
    requires o.kind == A.OperandKind(address, false, false) && TwoTo63 <= o.payload
    ensures OperandToString(o).Ok?
    ensures var s := OperandToString(o).value;
      A.ParseOperand(s, BStr(0, |s|)) == Ok(Operand(o.kind, TwoTo63 - 1))
  {
    ImmediateText(o, address);
    StrToLLDecimalSaturates(o.payload);
  }

  /** How the assembler takes apart the text of an immediate operand. */
  lemma ImmediateText(o: Operand, address: bool)
    requires o.kind == A.OperandKind(address, false, false)
    ensures OperandToString(o).Ok?
    ensures var s := OperandToString(o).value;
      A.ParseOperand(s, BStr(0, |s|)) == Ok(Operand(o.kind, Wrap64(StrToLL(DecimalString(o.payload)))))
  {
    A.KindFlags(address, false, false);
    DecimalNoTerminator(o.payload);
    DecimalStringFitsU64(o.payload);
    if address {
      ParseBracketedNumber("[" + DecimalString(o.payload) + "]", DecimalString(o.payload));
    } else {
      ParseNumber(DecimalString(o.payload));
    }
  }

  /** A bare run of digits is an immediate literal. */
  lemma ParseNumber(d: string)
    requires 1 <= |d| <= 20 && d[0] != '[' && d[0] != 'r'
    ensures A.ParseOperand(d, BStr(0, |d|)) == Ok(Operand(A.OperandKind(false, false, false), Wrap64(StrToLL(d))))
  {
    assert !A.Bracketed(d, BStr(0, |d|));
    assert Value(d, BStr(0, |d|)) == d;
  }

  /** A bracketed run of digits is an immediate address. */
  lemma ParseBracketedNumber(s: string, d: string)
    requires 1 <= |d| <= 20 && d[0] != 'r' && s == "[" + d + "]"
    ensures A.ParseOperand(s, BStr(0, |s|)) == Ok(Operand(A.OperandKind(true, false, false), Wrap64(StrToLL(d))))
  {
    var tok := BStr(0, |s|);
    assert A.Bracketed(s, tok);
    assert s[0] == '[' && s[|s| - 1] == ']' && s[1] == d[0];
    assert A.Inner(s, tok) == BStr(1, |d|);
    assert Value(s, BStr(1, |d|)) == d;
    assert A.ImmediateOperand(s, BStr(1, |d|), true) == Ok(Operand(A.OperandKind(true, false, false), Wrap64(StrToLL(d))));
  }

  /** A register operand with only its base set prints as the register's
      name, and the assembler reads that text back as the same operand. */
  lemma RegisterRoundTrip(o: Operand, address: bool, base: uint8)
    requires base < RegisterCount && base != RFLAG
    requires o == Operand(A.OperandKind(address, true, false), PackComplex(ComplexOperand(base, 1, 0, 0, 0)))
    ensures OperandToString(o) == Ok(Bracket(o.kind, '[') + RegisterName(base) + Bracket(o.kind, ']'))
    ensures var s := OperandToString(o).value;
      A.ParseOperand(s, BStr(0, |s|)) == Ok(o)
  {
    RegisterText(o, address, base);
    A.KindFlags(address, true, false);
    var s := OperandToString(o).value;
    if address {
      assert s == "[" + RegisterName(base) + "]";
      ParseBracketedRegister(s, base);
    } else {
      assert s == RegisterName(base);
      ParseRegister(s, base);
    }
  }

  lemma RegisterText(o: Operand, address: bool, base: uint8)
    requires base < RegisterCount
    requires o == Operand(A.OperandKind(address, true, false), PackComplex(ComplexOperand(base, 1, 0, 0, 0)))
    ensures OperandToString(o) == Ok(Bracket(o.kind, '[') + RegisterName(base) + Bracket(o.kind, ']'))
  {
    RegisterKind(address);
    UnpackPack(ComplexOperand(base, 1, 0, 0, 0));
    UnsignedOffsetTerms(base, 0);
    var name := RegisterName(base);
    RegisterOperandText(o, name);
    var s := Bracket(o.kind, '[') + name + Bracket(o.kind, ']');
    RegisterNameChars(base);
    BracketedNoTerminator(o.kind, name);
    VisibleWhole(s);
  }

  /** A name in optional brackets holds no terminator. */
  lemma BracketedNoTerminator(kind: uint8, name: string)
    requires forall i :: 0 <= i < |name| ==> NameChar(name[i])
    ensures NoTerminator(Bracket(kind, '[') + name + Bracket(kind, ']'))
  {
    var open, close := Bracket(kind, '['), Bracket(kind, ']');
    var s := open + name + close;
    forall i | 0 <= i < |s|
      ensures s[i] != '\0'
    {
      if i < |open| {
        assert s[i] == open[i];
      } else if i < |open| + |name| {
        assert s[i] == name[i - |open|];
      } else {
        assert s[i] == close[i - |open| - |name|];
      }
    }
  }

  /** The type byte of a plain register operand. */
  lemma RegisterKind(address: bool)
    ensures var k := A.OperandKind(address, true, false);
      HasFlag(k, Register) && !HasFlag(k, Immediate) && HasFlag(k, Address) == address
  {
    A.KindFlags(address, true, false);
  }

  /** A register's name alone is a plain register operand. */
  lemma ParseRegister(s: string, base: uint8)
    requires base < RegisterCount && base != RFLAG && s == RegisterName(base)
    ensures A.ParseOperand(s, BStr(0, |s|)) == Ok(Operand(A.OperandKind(false, true, false), PackComplex(ComplexOperand(base, 1, 0, 0, 0))))
  {
    var tok := BStr(0, |s|);
    assert !A.Bracketed(s, tok);
    RegisterTermsOfName(s, tok, base);
  }

  /** A register's name in brackets is a plain register address. */
  lemma ParseBracketedRegister(s: string, base: uint8)
    requires base < RegisterCount && base != RFLAG && s == "[" + RegisterName(base) + "]"
    ensures A.ParseOperand(s, BStr(0, |s|)) == Ok(Operand(A.OperandKind(true, true, false), PackComplex(ComplexOperand(base, 1, 0, 0, 0))))
  {
    var tok := BStr(0, |s|);
    assert A.Bracketed(s, tok);
    var inner := BStr(1, |s| - 2);
    assert A.Inner(s, tok) == inner;
    assert Value(s, inner) == RegisterName(base);
    assert s[0] == '[' && s[|s| - 1] == ']' && s[1] == 'r';
    RegisterTermsOfName(s, inner, base);
  }

  /** The terms of a register name are the register alone. */
  lemma RegisterTermsOfName(s: string, inner: BStr, base: uint8)
    requires base < RegisterCount && base != RFLAG
    requires Within(s, inner) && Value(s, inner) == RegisterName(base)
    ensures A.ParseRegisterTerms(s, inner) == Ok(ComplexOperand(base, 1, 0, 0, 0))
  {
    var name := RegisterName(base);
    assert forall i :: inner.start <= i < inner.start + inner.len ==> s[i] == name[i - inner.start];
    RegisterNameChars(base);
    assert forall i :: 0 <= i < |name| ==> name[i] !in "*+-" && !IsWhitespace(name[i]);
    SplitWhole(s, inner, "*+-");
    RegisterNames(base, name);
  }

  /** A view with no separator and no surrounding blanks splits into itself. */
  lemma SplitWhole(text: string, b: BStr, seps: string)
    requires Within(text, b) && b.len > 0
    requires forall i :: b.start <= i < b.start + b.len ==> text[i] !in seps
    requires !WhiteAt(text, b.start) && !WhiteAt(text, b.start + b.len - 1)
    ensures Split(text, b, seps) == [b]
  {
    SplitPieces(text, b, seps);
    NoSeparators(text, b, seps, b.len - 1);
    assert Piece(b, [], 0) == b;
    assert TrimStart(text, b) == b;
    assert TrimEnd(text, b) == b;
  }

  lemma {:induction false} NoSeparators(text: string, b: BStr, seps: string, n: nat)
    requires n <= b.len && forall i :: 0 <= i < n ==> !IsSeparatorAt(text, b, seps, i)
    ensures Separators(text, b, seps, n) == []
  {
    if n > 0 {
      NoSeparators(text, b, seps, n - 1);
    }
  }

  // ---------------------------------------------------------------------
  // The rendering evidently intended

  /** The whole multiplier, however many digits it has. */
  function MultiplierTermIntended(m: uint8): string {
    if m == 1 then "" else "*" + DecimalString(m)
  }

  /** The offset with its sign: `+n` above zero, `-n` below, nothing at zero. */
  function OffsetTermIntended(offset: int32): string {
    if offset > 0 then "+" + DecimalString(offset)
    else if offset < 0 then "-" + DecimalString(-(offset as int))
    else ""
  }

  function RegisterTermsIntended(c: ComplexOperand): (r: Result<string>)
    ensures r.Err? <==> RegisterTerms(c).Err?
    ensures r.Ok? ==> |r.value| >= 2 && r.value[0] == 'r'
    ensures r.Ok? ==> forall i :: 0 <= i < |r.value| ==> r.value[i] != '\0'
  {
    var base :- RegisterToString(c.base);
    var second :- Register2Term(c);
    TermsNoTerminator(base, c);
    Ok(base + MultiplierTermIntended(c.multiplier) + second + OffsetTermIntended(c.offset))
  }

  lemma TermsNoTerminator(base: string, c: ComplexOperand)
    requires RegisterToString(c.base) == Ok(base) && Register2Term(c).Ok?
    ensures var t := base + MultiplierTermIntended(c.multiplier) + Register2Term(c).value + OffsetTermIntended(c.offset);
      forall i :: 0 <= i < |t| ==> t[i] != '\0'
  {
    DecimalNoTerminator(c.multiplier);
    if c.offset > 0 {
      DecimalNoTerminator(c.offset);
    } else if c.offset < 0 {
      DecimalNoTerminator(-(c.offset as int));
    }
    if c.register2Sign != 0 {
      RegisterNameChars(c.register2);
    }
    RegisterNameChars(c.base);
  }

  /** `operand_to_string` as evidently intended: the same text wherever the
      original is right, with nothing cut. */
  function OperandToStringIntended(o: Operand): (r: Result<string>)
    ensures r.Err? <==> OperandToString(o).Err?
    ensures r.Ok? ==> forall i :: 0 <= i < |r.value| ==> r.value[i] != '\0'
  {
    var body :-
      if HasFlag(o.kind, Immediate) then Ok(DecimalString(o.payload))
      else if HasFlag(o.kind, Register) then RegisterTermsIntended(UnpackComplex(o.payload))
      else Ok("");
    DecimalNoTerminator(o.payload);
    Ok(Bracket(o.kind, '[') + body + Bracket(o.kind, ']'))
  }

  /** An address operand keeps both its brackets, and no other operand
      that prints anything starts with one. */
  lemma IntendedBrackets(o: Operand)
    requires OperandToStringIntended(o).Ok?
    ensures var s := OperandToStringIntended(o).value;
      && (HasFlag(o.kind, Address) ==> |s| >= 2 && s[0] == '[' && s[|s| - 1] == ']')
      && (!HasFlag(o.kind, Address) && (HasFlag(o.kind, Immediate) || HasFlag(o.kind, Register)) ==>
            |s| >= 1 && s[0] != '[')
  {
    DecimalNoTerminator(o.payload);
  }

  /** Different multipliers print differently. */
  lemma MultiplierInjective(m1: uint8, m2: uint8)
    ensures MultiplierTermIntended(m1) == MultiplierTermIntended(m2) <==> m1 == m2
  {
    if MultiplierTermIntended(m1) == MultiplierTermIntended(m2) && m1 != 1 && m2 != 1 {
      assert MultiplierTermIntended(m1)[1..] == DecimalString(m1);
      assert MultiplierTermIntended(m2)[1..] == DecimalString(m2);
      DecimalInjective(m1, m2);
    }
  }

  /** Different offsets print differently. */
  lemma OffsetInjective(x: int32, y: int32)
    ensures OffsetTermIntended(x) == OffsetTermIntended(y) <==> x == y
  {
    if OffsetTermIntended(x) == OffsetTermIntended(y) && x != 0 && y != 0 {
      var t := OffsetTermIntended(x);
      assert t[0] == OffsetTermIntended(y)[0];
      if x > 0 {
        assert t[1..] == DecimalString(x);
        assert OffsetTermIntended(y)[1..] == DecimalString(y);
        DecimalInjective(x, y);
      } else {
        assert t[1..] == DecimalString(-(x as int));
        assert OffsetTermIntended(y)[1..] == DecimalString(-(y as int));
        DecimalInjective(-(x as int), -(y as int));
      }
    }
  }

  lemma DecimalInjective(a: nat, b: nat)
    requires DecimalString(a) == DecimalString(b)
    ensures a == b
  {
    DecimalStringDigits(a);
    DecimalStringDigits(b);
  }

  /** The fix changes nothing where the original was right: below 100 for
      the multiplier and from zero up for the offset. */
  lemma IntendedAgrees(o: Operand)
    requires UnpackComplex(o.payload).multiplier < 100 && UnpackComplex(o.payload).offset >= 0
    ensures OperandToString(o) == OperandToStringIntended(o)
  {
    var c := UnpackComplex(o.payload);
    if !HasFlag(o.kind, Immediate) && HasFlag(o.kind, Register) && RegisterTerms(c).Ok? {
      DecimalStringLength(c.multiplier, 2, Pow10(2));
      assert MultiplierTerm(c.multiplier) == MultiplierTermIntended(c.multiplier);
      assert RegisterTerms(c) == RegisterTermsIntended(c);
      var buf := Bracket(o.kind, '[') + RegisterTerms(c).value + Bracket(o.kind, ']');
      assert forall i :: 0 <= i < |buf| ==> buf[i] != '\0';
      VisibleWhole(buf);
    } else if !HasFlag(o.kind, Immediate) && !HasFlag(o.kind, Register) {
      var buf := Bracket(o.kind, '[') + "" + Bracket(o.kind, ']');
      assert forall i :: 0 <= i < |buf| ==> buf[i] != '\0';
      VisibleWhole(buf);
    }
  }

  /** A three-digit multiplier from 100 to 109 leaves `*10` and the
      terminator in the buffer. */
  lemma MultiplierCutTerm(m: uint8)
    requires 100 <= m < 110
    ensures MultiplierTerm(m) == "*10\0"
  {
    assert DecimalString(10) == "10";
    assert DecimalString(m) == "10" + [DigitChar(m - 100)];
  }

  /** A terminator hides everything after it. */
  lemma {:induction false} VisibleCut(pre: string, post: string)
    requires NoTerminator(pre)
    ensures Visible(pre + "\0" + post) == pre
  {
    if |pre| == 0 {
      assert pre + "\0" + post == "\0" + post;
    } else {
      assert (pre + "\0" + post)[1..] == pre[1..] + "\0" + post;
      VisibleCut(pre[1..], post);
    }
  }

  /** The type bytes of a register address, plain or complex. */
  lemma RegisterAddressKind(complex: bool)
    ensures var k := A.OperandKind(true, true, complex);
      && HasFlag(k, Register) && !HasFlag(k, Immediate)
      && Bracket(k, '[') == "[" && Bracket(k, ']') == "]"
      && HasFlag(k, Complex) == complex
  {
    A.KindFlags(true, true, complex);
  }

  /** The text of a register operand is what its terms leave visible
      between the brackets. */
  lemma RegisterOperandText(o: Operand, t: string)
    requires !HasFlag(o.kind, Immediate) && HasFlag(o.kind, Register)
    requires RegisterTerms(UnpackComplex(o.payload)) == Ok(t)
    ensures OperandToString(o) == Ok(Visible(Bracket(o.kind, '[') + t + Bracket(o.kind, ']')))
  {
  }

  /** The address `[reg*m]` for a multiplier from 100 to 109 prints as
      `[reg*10`, without its closing bracket. */
  lemma MultiplierCutOperand(base: uint8, m: uint8)
    requires base < RegisterCount && 100 <= m < 110
    ensures OperandToString(Operand(A.OperandKind(true, true, true), PackComplex(ComplexOperand(base, m, 0, 0, 0))))
         == Ok("[" + RegisterName(base) + "*10")
  {
    var c := ComplexOperand(base, m, 0, 0, 0);
    var o := Operand(A.OperandKind(true, true, true), PackComplex(c));
    var name := RegisterName(base);
    RegisterAddressKind(true);
    UnpackPack(c);
    MultiplierCutTerm(m);
    assert Register2Term(c) == Ok("") && OffsetTerm(0) == "";
    assert name + "*10\0" + "" + "" == name + "*10\0";
    assert RegisterTerms(c) == Ok(name + "*10\0");
    RegisterOperandText(o, name + "*10\0");
    RegisterNameChars(base);
    NameNoTerminator(name);
    CutAfterTen(name);
  }

  /** The text `[name*10` followed by a terminator and `]` shows up to the
      terminator. */
  lemma CutAfterTen(name: string)
    requires NoTerminator(name)
    ensures Visible("[" + (name + "*10\0") + "]") == "[" + name + "*10"
  {
    NoTerminatorJoin("[", name);
    NoTerminatorJoin("[" + name, "*10");
    CutRegroup(name);
    VisibleCut("[" + name + "*10", "]");
  }

  lemma CutRegroup(name: string)
    ensures "[" + (name + "*10\0") + "]" == ("[" + name + "*10") + "\0" + "]"
  {
    assert "*10\0" == "*10" + "\0";
  }

  /** Text holds no terminator when both of its parts hold none. */
  lemma NoTerminatorJoin(a: string, b: string)
    requires NoTerminator(a) && NoTerminator(b)
    ensures NoTerminator(a + b)
  {
    forall i | 0 <= i < |a + b| ensures (a + b)[i] != '\0' {
      if i < |a| {
        assert (a + b)[i] == a[i];
      } else {
        assert (a + b)[i] == b[i - |a|];
      }
    }
  }

  /** A register name holds no terminator. */
  lemma NameNoTerminator(name: string)
    requires forall i :: 0 <= i < |name| ==> NameChar(name[i])
    ensures NoTerminator(name)
  {
  }

  /** As written, distinct multipliers from 100 to 109 print alike, as
      `[reg*10`: the 4-byte limit cuts the multiplier and the closing
      bracket is lost behind the terminator. */
  lemma MultiplierCut(base: uint8, m1: uint8, m2: uint8)
    requires base < RegisterCount && 100 <= m1 < m2 < 110
    ensures var o1 := Operand(A.OperandKind(true, true, true), PackComplex(ComplexOperand(base, m1, 0, 0, 0)));
      var o2 := Operand(A.OperandKind(true, true, true), PackComplex(ComplexOperand(base, m2, 0, 0, 0)));
      && o1 != o2
      && OperandToString(o1) == OperandToString(o2) == Ok("[" + RegisterName(base) + "*10")
  {
    UnpackPack(ComplexOperand(base, m1, 0, 0, 0));
    UnpackPack(ComplexOperand(base, m2, 0, 0, 0));
    MultiplierCutOperand(base, m1);
    MultiplierCutOperand(base, m2);
  }

  /** Only the base's name is printed for a register with multiplier 1, no
      second register and no positive offset. */
  lemma UnsignedOffsetTerms(base: uint8, offset: int32)
    requires base < RegisterCount && offset <= 0
    ensures RegisterTerms(ComplexOperand(base, 1, 0, 0, offset)) == Ok(RegisterName(base))
  {
    var c := ComplexOperand(base, 1, 0, 0, offset);
    assert MultiplierTerm(1) == "" && Register2Term(c) == Ok("") && OffsetTerm(offset) == "";
    assert RegisterName(base) + "" + "" + "" == RegisterName(base);
  }

  /** As written, a negative offset is dropped: an address such as
      `[rsp-8]` prints exactly like the plain `[rsp]`. */
  lemma NegativeOffsetDropped(base: uint8, offset: int32)
    requires base < RegisterCount && offset < 0
    ensures var o1 := Operand(A.OperandKind(true, true, true), PackComplex(ComplexOperand(base, 1, 0, 0, offset)));
      var o2 := Operand(A.OperandKind(true, true, false), PackComplex(ComplexOperand(base, 1, 0, 0, 0)));
      && o1 != o2
      && OperandToString(o1) == Ok("[" + RegisterName(base) + "]")
      && OperandToString(o2) == Ok("[" + RegisterName(base) + "]")
  {
    RegisterAddressKind(true);
    RegisterAddressKind(false);
    assert A.OperandKind(true, true, true) != A.OperandKind(true, true, false);
    NegativeOffsetText(base, offset);
    var o2 := Operand(A.OperandKind(true, true, false), PackComplex(ComplexOperand(base, 1, 0, 0, 0)));
    RegisterText(o2, true, base);
  }

  lemma NegativeOffsetText(base: uint8, offset: int32)
    requires base < RegisterCount && offset < 0
    ensures OperandToString(Operand(A.OperandKind(true, true, true), PackComplex(ComplexOperand(base, 1, 0, 0, offset))))
         == Ok("[" + RegisterName(base) + "]")
  {
    var c := ComplexOperand(base, 1, 0, 0, offset);
    var o := Operand(A.OperandKind(true, true, true), PackComplex(c));
    var name := RegisterName(base);
    RegisterAddressKind(true);
    UnpackPack(c);
    UnsignedOffsetTerms(base, offset);
    RegisterOperandText(o, name);
    RegisterNameChars(base);
    var s := "[" + name + "]";
    assert forall i :: 0 <= i < |s| ==> s[i] != '\0';
    VisibleWhole(s);
  }
}
