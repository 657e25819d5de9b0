# bemu in Dafny

This project is a Dafny model of the core of `bemu`, a small toy computer
written in C. The model covers four layers.

- **Instruction encoding** (`src/shared.h`, `src/shared.c`):
  - 22 opcodes, each with its operand arity;
  - ten 64-bit registers and the four operand sizes;
  - the five operand-type flags;
  - the 16-byte image header;
  - the 24-byte instruction record;
  - the `complex_operand` sub-record overlaid on one 64-bit payload.
- **Text utilities** (`src/bstring.c`, `src/vector.h`):
  - a `bstring` is a view into one buffer, modelled as `BStr(start, len)` into the source text;
  - the utilities are whitespace trim, multi-separator split, compare and search;
  - the capacity-doubling vector.
- **The two-pass assembler** (`assembler.c`):
  - it classifies lines as comments, labels or instructions;
  - it parses operand syntax (brackets, registers, `*N`, `±reg`, `±N`, `strtoll` numbers);
  - it collects label addresses with the encoded-length function;
  - it defers jump targets as fix-ups and resolves them;
  - it writes the header followed by the records.
- **The execution engine** (`src/emulator.c`):
  - one `Step` fetches the record at RIP in place, advances RIP past it and runs the opcode's handler;
  - handlers read their operands through `resolve_operand`'s locations (a register cell or a memory index);
  - arithmetic is on `u64`, modulo 2^64;
  - writes are limited to the size byte.
- **The disassembler's name tables and operand printer** (`src/disassembler.c`). They are the inverse of the assembler's lookups, so the model proves round trips between the two.

Modules follow the source files: `Bytes`, `Errors`, `Shared`, `Vector`,
`BString`, `Numbers`, `Assembler`, `Emulator`, `Disassembler` and `Toolchain`.

- `Bytes` (`bytes.dfy`) holds the machine-integer conversions and the little-endian codec.
- `Errors` (`errors.dfy`) holds the `Result` and `Option` types.
- `Numbers` (`numbers.dfy`) holds the C library conversions `strtoll`, `atoi` and `%llu`.
- `Toolchain` (`toolchain.dfy`) connects the assembler's output to the emulator's loader.

Two kinds of C behaviour become explicit error results, and the lemmas state which inputs avoid them:

- A fatal `exit(n)` of the C program, such as an unknown mnemonic or register, a wrong operand count or a missing label.
- Undefined behaviour, such as memory outside the arena, register ids above 9, opcode bytes above 21, a zero divisor, or tokens longer than the 21-byte buffer.

Quirks of the code are kept as written:

- `call` is not a jump for the assembler.
- A `-rX` term stores sign byte 0, so the emulator ignores it.
- `rflag` cannot be named in source.
- `inc` and `dec` write all 8 bytes.
- `cmp` writes only `size` bytes of RFLAG.
- Jump lines skip the operand-count check.

## Model

| member | source | states |
|---|---|---|
| Bytes.U64RoundTrip | assembler.c:338-344 | The eight little-endian bytes `encode_u64` writes for a `u64` read back as the same value. |
| Bytes.ToLEFromLE | assembler.c:338-344 | Any byte string is the little-endian encoding of the number it spells, so the codec is a bijection on fixed widths. |
| Bytes.FromLEToLE | assembler.c:338-344 | Decoding the low `n` bytes of `v` gives `v` modulo 256^n. |
| Bytes.Signed64 | src/emulator.c:194 | The `(i64)` view of a `u64` lies in the signed range and converts back to the same `u64`. |
| Shared.OpcodeOf | src/shared.h:15-41 | Exactly the bytes below OPCODE_COUNT (22) name an opcode, and the opcode named has that number; any other byte is an unknown-opcode error. |
| Shared.OpcodeNumbering | src/shared.h:17-41 | Numbering is a bijection between the 22 declared opcodes and 0..21. |
| Shared.Arity | src/shared.c:11-37 | Every opcode has arity at most MAX_OPERANDS. Arity is 2 exactly for mov, add, sub, mul, div, mod and cmp, and 0 exactly for exit and ret; all other opcodes have arity 1. |
| Shared.EncodedLen | src/shared.c:75-78 | The encoded length is a multiple of 8, at least 8, and recovers the operand count as (len-8)/8. |
| Shared.EncodedLenOfOpcode | src/shared.c:75-78 | Every opcode encodes to 8, 16 or 24 bytes, never more than the record, and to 8 exactly for exit and ret. |
| Shared.FlagsIndependent | src/shared.h:65-72 | The five type flags are distinct single bits: each tests true on itself, false on the others, and or-ing in one flag never sets or clears another. |
| Shared.RecordFields | src/shared.h:74-80 | The encoded record holds the opcode number at byte 0, the size at byte 1 and the type bytes at 2 and 3. It holds every used operand's payload little-endian at 8+8k. |
| Shared.EncodeInstruction | assembler.c:299-305 | The bytes `encode` copies for one instruction are exactly as many as its record uses: 8, plus 8 per operand of its opcode. |
| Shared.DecodeInstruction | src/emulator.c:223-228 | A record read in place names a valid opcode at its first byte and lies entirely inside memory. |
| Shared.DecodeEncode | src/shared.h:74-80 | Decoding the encoded bytes, wherever they sit between other bytes, gives the instruction back, with the payload slots beyond its arity cleared. |
| Shared.DecodeRecord | src/shared.h:74-80 | A record found at any offset of memory decodes there to the instruction it encodes, up to unused payloads. |
| Shared.HeaderRoundTrip | src/shared.h:9-11 | The header decodes back to the code length (offset 0) and entry point (offset 8) it was built from, whatever code follows it. |
| Shared.PackComplex | src/shared.h:82-89 | Overlaying the sub-record puts base, multiplier, sign and register2 in payload bytes 0-3 and the 32-bit offset, two's complement, in bytes 4-7. |
| Shared.UnpackComplex | src/shared.h:82-89 | Reading a payload through the sub-record takes the same byte positions. |
| Shared.ComplexRoundTrip | src/shared.h:82-89 | The sub-record fills exactly one payload: packing and unpacking are mutually inverse. |
| Vector.New | src/vector.h:19-26 | A new vector is valid, empty and has capacity 1. |
| Vector.Add | src/vector.h:28-36 | Adding puts the item at index old-len and grows len by exactly one. Earlier items survive. Capacity doubles exactly when the vector was full, and is otherwise unchanged. 0 <= len <= capacity is preserved. |
| Vector.AddAll | src/vector.h:28-36 | A run of adds appends exactly the given items and keeps the vector valid. |
| Vector.AddAllTight | src/vector.h:30-34 | After any sequence of adds to a new vector, the capacity is the least power of two that holds the items. |
| BString.TrimStart | src/bstring.c:88-92 | The first loop strips only whitespace (space, tab, newline) and stops at a non-whitespace character or the end. |
| BString.TrimEnd | src/bstring.c:94-97 | The second loop strips only trailing whitespace and keeps the start. |
| BString.Trim | src/bstring.c:86-98 | The result is a contiguous sub-range of the input. Everything stripped from either end is whitespace, and a non-empty result starts and ends with a non-whitespace character. |
| BString.TrimIdempotent | src/bstring.c:86-98 | Trimming a trimmed view changes nothing. |
| BString.Split | src/bstring.c:100-146 | The split of a view is empty exactly when the view is empty. |
| BString.SplitPieces | src/bstring.c:100-146 | An empty view gives no tokens; otherwise there is one token more than there are separator characters at positions 0..len-2. Token k is the trim of the range between separator k-1 and separator k, so interior tokens exclude their separator, and a separator in the last position stays in the final token. |
| BString.TokensArePieces | src/bstring.c:105-143 | From any position of the scanning loop, the ranges still to be emitted are exactly the pieces between the separators not yet passed. |
| BString.SplitInside | src/bstring.c:131-140 | Every token is a sub-range of the input view. |
| BString.SplitAppend | src/bstring.c:131 | Splitting into `out` only appends the tokens after the entries already there, keeping the vector valid. |
| BString.Cmp | src/bstring.c:51-67 | The comparison is true iff the lengths are equal and all bytes are equal. |
| BString.Chr | src/bstring.c:38-49 | The result is -1 iff the needle is absent. Otherwise it is the smallest index holding the needle. |
| Numbers.AutoBase | assembler.c:158 | Base 0 picks 16 exactly after `0x`/`0X` followed by a hex digit, 8 exactly for another leading `0`, and 10 otherwise. |
| Numbers.Saturate64 | assembler.c:158 | An out-of-range magnitude saturates to LLONG_MIN or LLONG_MAX; in-range values keep their sign and magnitude. |
| Numbers.StrToLLDecimal | assembler.c:158 | `strtoll` reads back the decimal text of every value below 2^63. |
| Numbers.StrToLLDecimalSaturates | assembler.c:158 | Decimal text of a value of 2^63 or more reads back as LLONG_MAX. |
| Numbers.StrToLLOctal | assembler.c:158 | With base 0, `0` followed by octal digits reads as their base-8 value, for every value below 2^63 (`010` reads as 8). |
| Numbers.StrToLLHex | assembler.c:158 | With base 0, `0x` or `0X` followed by hex digits reads as their base-16 value, for every value below 2^63 (`0x10` reads as 16). |
| Numbers.AtoiDecimal | assembler.c:74-79 | `atoi` reads back the decimal text of every value below 2^31. |
| Numbers.AtoiIgnoresOctal | assembler.c:74-79 | `atoi` is base 10: `0` followed by decimal digits reads as their decimal value (`010` reads as 10, unlike `strtoll(…, 0)`). |
| Numbers.LeadingZero | assembler.c:158 | A leading `0` adds nothing to the value of a digit run in any base. |
| Numbers.DecimalStringDigits | src/disassembler.c:16 | `%llu` text is all decimal digits, starts with `0` only for zero, and has the value printed. |
| Numbers.DecimalStringFitsU64 | assembler.c:149-156 | The decimal text of any `u64` has at most 20 characters, so it fits the 21-byte buffer with its terminator. |
| Assembler.RegisterFromName | assembler.c:56-72 | An accepted name starts with 'r' and names a register id below 10 other than RFLAG. Anything else is an unknown-register error. |
| Assembler.OpcodeFromName | assembler.c:27-54 | Every text other than the 22 mnemonics is the unrecognised-opcode error, and an accepted mnemonic has 2 to 5 characters. Which mnemonic names which opcode is stated by `Disassembler.MnemonicRoundTrip` and `Disassembler.MnemonicUnique`. |
| Assembler.TokenToInt | assembler.c:74-79 | A token converts exactly when its text, with the terminator, fits the 21-byte buffer (at most 20 characters), and its value is then `atoi` of the text. A longer token is an error instead of an overrun. |
| Assembler.ParseTerm | assembler.c:114-138 | One section sets one field: after `*` the multiplier (`atoi` modulo 256), else a section starting with 'r' the second register with sign byte 1 after `+` and 0 after `-`, else the offset (`atoi`, negated after `-`). Negating an offset of −2^31 is the offset-overflow error, and it is the only way a short number section fails. |
| Assembler.ApplyTerms | assembler.c:114-139 | After the section loop, the base register is the one it started with, and each other field holds the value that the LAST section of its kind sets, or its start value when no section sets it. Register fields stay nameable. |
| Assembler.ParseRegisterTerms | assembler.c:103-139 | A parsed register operand's base is the register named by the first section. Its other fields are set by the last section of their kind, starting from multiplier 1, no second register and offset 0. Every register named is one an assembly program may use. |
| Assembler.MinusRegistersIgnored | assembler.c:124-145 | When every section after the base is a register following `-`, the sign byte stays 0, and the operand is not COMPLEX. |
| Assembler.KindFlags | assembler.c:88-101 | In the type byte, ADDRESS records brackets and LITERAL their absence. REGISTER and IMMEDIATE are exclusive, and COMPLEX appears only on a register when asked for. |
| Assembler.ParseOperand | assembler.c:81-161 | ADDRESS is set iff the token is bracketed, and LITERAL otherwise. REGISTER is set iff the unbracketed text starts with 'r', and IMMEDIATE otherwise. An immediate is `strtoll(…, 0)` of that text, reduced to a `u64`. A register operand's sub-record is the one `ParseRegisterTerms` builds from the unbracketed text, names only usable registers, and is COMPLEX iff it has a multiplier other than 1, a set sign byte or a non-zero offset. Unbracketed short tokens not starting with 'r' always parse. |
| Assembler.EmptyBrackets | assembler.c:88-160 | The token `[]` parses as the immediate address 0. |
| Assembler.RegisterOperand | assembler.c:99-146 | The register branch sets REGISTER, never IMMEDIATE, and sets COMPLEX exactly when the multiplier is not 1, the sign byte is non-zero or the offset is non-zero. |
| Assembler.ImmediateOperand | assembler.c:147-160 | The number branch succeeds iff the text has at most 20 characters. It sets IMMEDIATE only, and stores the `strtoll` value modulo 2^64. |
| Assembler.ParseOperands | assembler.c:187-199 | An operand count different from the arity is an error. Otherwise each used slot is the parsed operand at its position and unused slots stay empty. |
| Assembler.Emit | assembler.c:232-249 | Emitting appends the instruction and leaves the labels alone. |
| Assembler.ParseLine | assembler.c:209-250 | A line only appends to the instructions, labels and fix-ups it is given, and adds at most one instruction. |
| Assembler.ParseLines | assembler.c:201-251 | The first pass only appends to what came before, at most one instruction per line. |
| Assembler.ParseLinesAppend | assembler.c:201-251 | Parsing two runs of lines is parsing the first, then the second from where the first stopped; an error in the first run is the result. |
| Assembler.LabelAt | assembler.c:219-230 | The label of line n is the label after those of lines 0..n-1, with that line's name less its ':', at the code length (mod 2^32) of the instructions lines 0..n-1 produced; those instructions begin the program. |
| Assembler.LabelLineInvariant | assembler.c:219-230 | A label line records the name at the current offset, which is an instruction boundary, and keeps the pass invariant. |
| Assembler.EmitInvariant | assembler.c:232-249 | After each emitted instruction the offset is still the code length so far (mod 2^32) and labels stay on boundaries. While the `unsigned short` index has not wrapped, each fix-up points at its own jump, in order, and every jump has one. |
| Assembler.InstructionLineInvariant | assembler.c:232-249 | An instruction line, jump or not, keeps the pass invariant. |
| Assembler.ParseLinesInvariant | assembler.c:201-251 | The first pass keeps its invariant over any number of lines. |
| Assembler.FindLabel | assembler.c:253-264 | The result is the first label whose name equals the given text, or none exactly when no label has that name. |
| Assembler.Patch | assembler.c:282-285 | Patching a jump keeps its opcode and size. |
| Assembler.ResolveJumps | assembler.c:266-287 | Resolution keeps the number of instructions and every opcode. |
| Assembler.ResolveDefined | assembler.c:271-280 | The second pass succeeds exactly when every fix-up names an existing label, and otherwise fails with the undefined-label error. |
| Assembler.ResolveUntouched | assembler.c:266-287 | Instructions no fix-up points at pass through unchanged. |
| Assembler.ResolveTargets | assembler.c:282-285 | Every fixed-up instruction's first operand becomes IMMEDIATE\|LITERAL holding the address of the first label named by its target. |
| Assembler.Lines | assembler.c:348-349 | The source lines are views inside the source text. |
| Assembler.EntryPoint | assembler.c:310-315 | Without a `start` label the entry point is 0. Otherwise it is that label's address when below 2^31, and the `int` sign-extension of it (address + 2^64 − 2^32) when not. |
| Assembler.Encode | assembler.c:289-308 | The code is as long as the sum of the encoded lengths. |
| Assembler.EncodePrefix | assembler.c:299-305 | The code of the first k instructions is a prefix of the code. |
| Assembler.EncodeAt | assembler.c:299-305 | Instruction k's record lies in the code at the offset where the code of the first k instructions ends. |
| Assembler.ImageLayout | assembler.c:361-376 | An image built as header + code is 16 + code-length bytes. Its header decodes back, and every instruction's record decodes, at 16 plus the code length of the instructions before it, to that instruction. |
| Assembler.Assemble | assembler.c:346-378 | `assemble` succeeds exactly when both passes do, passes their error on otherwise, and gives 16 + code-length bytes. |
| Assembler.AssembleLayout | assembler.c:346-378 | The assembled image, read back through the header and record decoders, holds the code length (an `int`, sign-extended) and the entry point, and each resolved instruction at 16 plus the code length of the instructions before it. |
| Assembler.ProgramLabels | assembler.c:220-249 | In an assembled program every label's address is the byte offset (mod 2^32) of an instruction boundary. |
| Assembler.ProgramLabelAt | assembler.c:219-230 | In an assembled program, the label of label line n has that line's name and the address of the code (mod 2^32) emitted by lines 0..n-1. |
| Assembler.ProgramJumps | assembler.c:236-287 | While indices fit an `unsigned short`, every jump of an assembled program has a fix-up, names an existing label, and carries that label's address as an immediate literal. |
| Emulator.WordArithmetic | src/emulator.c:157-158 | `u64` addition and subtraction are the integer operations reduced modulo 2^64, and they undo each other. |
| Emulator.FromInt32Wraps | src/emulator.c:37 | Adding the `int` offset to a `u64` converts it modulo 2^64. |
| Emulator.ReadLoc | src/emulator.c:112-114 | Reading `n` bytes succeeds iff they fit the cell (8 bytes for a register, the arena for memory). It gives `n` bytes, which for memory are the bytes stored at the address. |
| Emulator.ReadWord | src/emulator.c:140-141 | A word read of a register is its value. A word read of memory is the little-endian number of the 8 bytes there. |
| Emulator.WriteLoc | src/emulator.c:143 | A `memcpy` into a cell changes exactly the bytes written: other registers, other memory bytes and the output are kept. |
| Emulator.WriteThenRead | src/emulator.c:112-114 | Bytes written to a cell read back unchanged. |
| Emulator.WriteWordThenRead | src/emulator.c:166-167 | The 8-byte encoding of a value written to a cell reads back as that value. |
| Emulator.EffectiveAddress | src/emulator.c:17-40 | A COMPLEX address is regs[base]*multiplier (+ regs[register2] when the sign byte is non-zero) + offset, modulo 2^64. register2 is read, and so must be valid, only when the sign byte is non-zero. |
| Emulator.ResolveComplex | src/emulator.c:17-40 | A COMPLEX operand resolves to its effective address, never through an ADDRESS dereference, and needs a valid register2 only when its sign byte is non-zero. |
| Emulator.ResolveNamed | src/emulator.c:17-40 | An operand the assembler wrote for a register term always resolves to memory. |
| Emulator.ResolveImmediate | src/emulator.c:44-47 | A plain immediate resolves to its own payload slot inside the record, which reads as the payload. |
| Emulator.ResolveRegister | src/emulator.c:48-51 | A plain register operand resolves to the cell of the register its payload's low byte names. |
| Emulator.ResolveImmediateAddress | src/emulator.c:44-56 | A non-COMPLEX IMMEDIATE operand with ADDRESS set resolves to the memory cell its payload indexes: `[100]` denotes memory byte 100. |
| Emulator.ResolveRegisterAddress | src/emulator.c:48-56 | A non-COMPLEX REGISTER operand with ADDRESS set resolves to memory at the value of the register its payload names. |
| Emulator.ResolveUntyped | src/emulator.c:42-60 | A type byte with none of IMMEDIATE, REGISTER and COMPLEX names no cell and is an error. |
| Emulator.StackPush | src/emulator.c:63-70 | After a push, RSP has gone down by `size`, modulo 2^64, and the `size` bytes at the new RSP are those the source held after the decrement. No other register and no memory byte outside that slot changes. |
| Emulator.StackPop | src/emulator.c:72-78 | A pop succeeds exactly when `size` bytes fit at RSP and in the target. For a target other than RSP, the target then holds the bytes that were at RSP, RSP has gone up by `size`, and nothing outside the target's `size` bytes changes. For RSP as target, RSP ends as the popped bytes overlaid on its low end, plus `size`, and nothing else changes. |
| Emulator.ExecPush | src/emulator.c:96-101 | `push` lowers RSP by the size byte and stores at the new RSP the `size` bytes operand 0 holds (read after the decrement); no other register or memory byte changes. |
| Emulator.ExecPop | src/emulator.c:103-108 | `pop` into a cell other than RSP copies there the `size` bytes at RSP, raises RSP by `size`, and changes nothing outside the cell's `size` bytes. |
| Emulator.PushThenPop | src/emulator.c:96-108 | A `push` then a `pop` of the same size into a cell other than RSP restores RSP and leaves in the cell the bytes the pushed operand held; `push rA` then a word `pop rB` sets rB to rA. |
| Emulator.PushPopRoundTrip | src/emulator.c:63-79 | A pop of the size just pushed restores RSP and leaves in the target exactly the bytes the push stored. |
| Emulator.Jump | src/emulator.c:81-87 | A jump succeeds exactly when operand 0 reads as a word. It sets RIP to 16 plus that word, modulo 2^64, and changes nothing else. |
| Emulator.Arith | src/emulator.c:146-161 | The arithmetic operators fail exactly on a zero divisor of div or mod, and `%` stays below its divisor. |
| Emulator.ArithMeaning | src/emulator.c:146-161 | add, sub and mul give the integer result reduced modulo 2^64. For a non-zero divisor, quotient times divisor plus remainder is the dividend. |
| Emulator.LowBytes | src/emulator.c:143 | Copying `size` bytes of a result gives its low `size` bytes little-endian, and needs size <= 8. |
| Emulator.WriteLowRegister | src/emulator.c:186 | A low-bytes write into a register changes only that register's low `size` bytes. |
| Emulator.ExecMov | src/emulator.c:110-117 | After `mov`, operand 0 holds the `size` bytes that operand 1 held before, and nothing outside those `size` bytes of operand 0 changes. Both are resolved before the copy, so the source is read before anything is written. |
| Emulator.ExecPrint | src/emulator.c:208-216 | `print` succeeds exactly when operand 0 reads as a word, appends that word to the output, and changes no register or memory. |
| Emulator.Handler | src/emulator.c:230-259 | No handler resizes memory, and only `print` writes output: exactly the word its operand 0 holds. |
| Emulator.Dispatch | src/emulator.c:218-221 | Every handler but `exit` keeps the machine running, and `exit` halts it. |
| Emulator.Fetch | src/emulator.c:223-228 | The opcode fetched is the one numbered by the byte at RIP. |
| Emulator.StepRuns | src/emulator.c:261-266 | A step runs the handler on the machine whose RIP has already moved past the record, with the record read at the old RIP. |
| Emulator.Step | src/emulator.c:261-266 | A step fails with the fetch error when the byte at RIP is no opcode. It halts exactly when it executes `exit`, which only advances RIP by 8. It never resizes memory, and only `print` writes output. |
| Emulator.StepUnknownOpcode | src/emulator.c:256-259 | A byte of 22 or more at RIP is no opcode, and the step fails. |
| Emulator.ConditionalJump | src/emulator.c:191-206 | A conditional jump behaves as `jmp` when its condition on the signed RFLAG holds, and otherwise only advances RIP. |
| Emulator.TakenConditions | src/emulator.c:194 | The six conditions, stated on the unsigned RFLAG: je on 0, jne on non-zero, jl at or above 2^63, jge below 2^63, jg strictly between 0 and 2^63, jle on 0 or at or above 2^63. |
| Emulator.JumpToLiteral | src/emulator.c:81-94 | A `jmp` whose operand is an immediate literal sets RIP to 16 plus that literal, changes nothing else, and keeps running. |
| Emulator.ExecCall | src/emulator.c:119-125 | `call` pushes the advanced RIP little-endian below RSP, lowers RSP by 8, and sets RIP to 16 plus the word operand 0 holds after the push. No other register and no memory byte outside the 8-byte slot changes. |
| Emulator.CallPushes | src/emulator.c:119-125 | `call` lowers RSP by 8 and stores there, little-endian, the address of the next record. |
| Emulator.CallRegisterTarget | src/emulator.c:119-125 | `call r` jumps to 16 plus the value of `r`; for `call rsp` that is the value after the push lowered it. |
| Emulator.CallAddressTarget | src/emulator.c:119-125 | `call [n]` jumps to 16 plus the word stored at address n, read after the push. |
| Emulator.ExecRet | src/emulator.c:127-132 | `ret` succeeds exactly when 8 bytes fit at RSP. It loads RIP from them, raises RSP by 8, and leaves memory and every other register unchanged. |
| Emulator.RetPops | src/emulator.c:127-132 | `ret` loads RIP from the 8 bytes at RSP and raises RSP by 8. |
| Emulator.CallThenRet | src/emulator.c:119-132 | `call` followed by `ret` resumes right after the call with RSP restored. |
| Emulator.ExecIncDec | src/emulator.c:163-179 | `inc` and `dec` succeed only when operand 0 reads as a word, and never touch the output or the memory size. |
| Emulator.IncDecCell | src/emulator.c:163-179 | `inc` and `dec` replace all 8 bytes of operand 0's cell, register or memory, with its value ±1 modulo 2^64, whatever the size byte says, and change nothing else. |
| Emulator.ExecCmp | src/emulator.c:181-189 | `cmp` changes only RFLAG, and only its low `size` bytes, which then hold the low bytes of left − right. |
| Emulator.ExecMath | src/emulator.c:134-161 | add, sub, mul, div and mod read full 8-byte operands and write the low `size` bytes of the 64-bit result over operand 0, changing nothing else (for a register, its high bytes are kept). They fail with the divide-by-zero error when a div or mod divisor is 0. |
| Emulator.Load | src/emulator.c:268-288 | Loading succeeds iff the image fits the arena. The image is then at the start of memory and the output is empty. |
| Emulator.LoadRegisters | src/emulator.c:275-287 | RMEM starts on an 8-byte boundary strictly past the image and at most 8 bytes past it. RSP is MEMORY_SIZE. The other registers except RIP are zero. |
| Emulator.LoadEntry | src/emulator.c:284-285 | RIP starts at 16 plus the header's entry point. |
| Disassembler.OpcodeToString | src/disassembler.c:50-81 | An opcode byte prints iff it is below 22, and the assembler reads the name back as the same opcode. Any other byte is an unknown-opcode error. |
| Disassembler.MnemonicRoundTrip | assembler.c:27-54 | The assembler reads every printed mnemonic back as its opcode. |
| Disassembler.MnemonicUnique | assembler.c:27-54 | The printed mnemonic is the only name the assembler reads as that opcode. |
| Disassembler.RegisterToString | src/disassembler.c:105-124 | A register id prints iff it is below 10, as a name starting with 'r'. |
| Disassembler.RegisterNames | src/disassembler.c:105-124 | Register names round-trip through the assembler's lookup in both directions, except RFLAG, which prints as `rflag` but cannot be read back. |
| Disassembler.SizeToString | src/disassembler.c:83-103 | A size prints iff it is 1, 2, 4 or 8, as "B" followed by the width. |
| Disassembler.Register2Term | src/disassembler.c:29-33 | The second register fails to print exactly when its sign byte is set and its id is invalid. |
| Disassembler.RegisterTerms | src/disassembler.c:18-39 | A register operand fails to print exactly when its base, or its second register when used, is not a register. |
| Disassembler.OperandToString | src/disassembler.c:5-48 | An operand fails only for an invalid register. The result holds no terminator, and an immediate prints as the unsigned decimal of its payload, in brackets iff ADDRESS is set. |
| Disassembler.ImmediateRoundTrip | src/disassembler.c:14-17 | The printed immediate reads back through the assembler as the same operand for every payload below 2^63. |
| Disassembler.ImmediateSaturates | src/disassembler.c:14-17 | A printed payload of 2^63 or more reads back as LLONG_MAX. |
| Disassembler.RegisterRoundTrip | src/disassembler.c:18-23 | A plain register operand prints as its name, bracketed iff ADDRESS, and the assembler reads that text back as the same operand. |
| Disassembler.ParseRegister | assembler.c:99-112 | A register's name alone parses as the plain register operand. |
| Disassembler.ParseBracketedRegister | assembler.c:88-112 | A register's name in brackets parses as the plain register address. |
| Disassembler.ParseNumber | assembler.c:147-160 | A bare run of at most 20 characters not starting with '[' or 'r' parses as an immediate literal holding its `strtoll` value. |
| Disassembler.ParseBracketedNumber | assembler.c:88-93 | The same text in brackets parses as an immediate address. |
| Disassembler.MultiplierCutOperand | src/disassembler.c:24-27 | As written, `[reg*m]` with m from 100 to 109 prints as `[reg*10`. |
| Disassembler.MultiplierCut | src/disassembler.c:24-27 | As written, distinct multipliers from 100 to 109 print alike, without the closing bracket. |
| Disassembler.UnsignedOffsetTerms | src/disassembler.c:35-39 | As written, a register with multiplier 1, no second register and an offset of zero or less prints as the base's name alone. |
| Disassembler.NegativeOffsetDropped | src/disassembler.c:35-39 | As written, a negative offset is dropped: `[rsp-8]` and `[rsp]` print alike. |
| Disassembler.OperandToStringIntended | src/disassembler.c:5-48 | The corrected printer fails exactly where the original does, and never leaves a terminator inside its text. |
| Disassembler.IntendedBrackets | src/disassembler.c:42-45 | In the corrected printer, an address operand keeps both its brackets, and no other printing operand starts with one. |
| Disassembler.MultiplierInjective | src/disassembler.c:24-27 | In the corrected printer, different multipliers print differently. |
| Disassembler.OffsetInjective | src/disassembler.c:35-39 | In the corrected printer, different offsets print differently, including negative ones. |
| Disassembler.IntendedAgrees | src/disassembler.c:24-39 | The correction changes nothing where the original is right: multipliers below 100 and offsets from zero up. |
| Toolchain.DecodeExtend | src/emulator.c:223-228 | Bytes after a record do not change how it decodes. |
| Toolchain.LoadImage | src/emulator.c:284-285 | Loading an image whose entry point is the offset of record k starts RIP on that record, which decodes to instruction k. |
| Toolchain.StartRecord | assembler.c:310-315 | The entry point of an assembled program (below 2^31 bytes) is the offset of the record `start` labels, or 0 without a `start` label. |
| Toolchain.LoadAssembled | assembler.c:310-315 | The loaded machine starts on the instruction boundary `start` marks (the first record without one) and fetches that instruction. |
| Toolchain.JumpTarget | assembler.c:282-285 | An assembled jump carries, as an immediate literal, the address of the label it names, and that address is an instruction boundary. |
| Toolchain.AssembledJump | assembler.c:282-285 | In memory that begins with the assembled image, the record of an assembled `jmp` to the literal address `a` decodes, at 16 plus its offset, as a jump to `a`. |
| Toolchain.LiteralJumpLands | src/emulator.c:81-94 | A `jmp` to a literal address moves RIP, and nothing else, to that address past the header. |
| Toolchain.JumpLands | src/emulator.c:81-87 | Executing an assembled `jmp` keeps the machine running and changes only RIP. The new RIP is 16 plus the address of the first label the jump names, which is an instruction boundary of the code. |
| Toolchain.LabelOffset | assembler.c:219-230 | In a program shorter than 2^31 bytes, the label of label line n is at exactly the code length of the instructions of lines 0..n-1. |
| Toolchain.EntryAfterLabel | assembler.c:310-315 | When the first `start` label is defined on label line n, the entry point is the code length of the instructions of lines 0..n-1: the record of the next instruction. |
| Toolchain.JumpLandsAfterLabel | src/emulator.c:81-87 | An assembled `jmp` whose label is first defined on label line n lands on 16 plus the code length of the instructions of lines 0..n-1. |

## Left out

- File and console I/O are not modelled:
  - `read_file` (src/shared.c:39-73);
  - `write_to_file` (assembler.c:317-336);
  - the `malloc`/`read_file` part of `load_binary`.
  
  The image and the arena's initial contents are parameters of `Emulator.Load`, and `assemble` returns its image.
- `execute_print` does not call `printf`. The printed value is appended to the machine's `output` sequence instead.
- The handler table `opcode_handlers` and `emulator_init` are not modelled, because they are a function-pointer table. `Emulator.Handler` is a match on the opcode with the same assignments.
- The debugger front-ends (src/bdbg.c, bdbg.c), the command-line entry points (src/bemu.c, basm.c) and the older root-level emulator are not part of this model.
- `bstring_from_char`, `bstring_to_char`, `bstring_print` and `vec_bstring_print` have no counterpart. Literal names are Dafny strings, `bstring_to_char` is folded into `Assembler.TokenToInt` and the immediate branch, and printing is I/O.
- `bstring_clone` has no counterpart, because it only copies a (pointer, length) pair. A fix-up keeps the token's `BStr` view itself.
- `is_label` (assembler.c:163-167) is unused by the assembler and is not modelled.
- Bytes the C program leaves uninitialised are written as 0. These are record bytes 4-7, the type bytes of unused operand slots (byte 3 for one-operand opcodes and for jumps, bytes 2-3 for `exit` and `ret`), and unused payload slots. Decoding lemmas therefore speak of `Canon(inst)`, with unused payloads cleared.
- Undefined behaviour of the C code is modelled as an explicit error rather than as an arbitrary outcome:
  - reads outside the source text (the sign before a section, the first byte of an empty token);
  - a jump line without a target, whose `parts.items[1]` is read past the vector's length (assembler.c:240), which is the missing-jump-target error;
  - negating an offset of −2^31 (assembler.c:135), which is the offset-overflow error;
  - tokens of more than 20 characters;
  - memory outside the arena;
  - register ids of 10 or more;
  - opcode bytes of 22 or more;
  - copies of more than 8 bytes out of an 8-byte cell;
  - division by zero.
- `mov` with overlapping operands: the C `memcpy` is undefined there. The model reads the whole source before writing, as `memmove` would.
- An empty bracket pair `[]` is not an out-of-text read: its inner text is empty, does not start with 'r', and `strtoll` of an empty buffer is 0, so it parses as the immediate address 0 (`Assembler.EmptyBrackets`).
- Source text is a Dafny `string` with one character per byte of the C buffer. Token limits and whitespace tests count characters, which agrees with the C code for ASCII source.
- Loops are written as recursive functions. `BString.Cmp` and `BString.Chr` keep their loops.
- Assembler.ProgramJumps: holds only while the program has at most 65536 instructions. Beyond that, the C `unsigned short` fix-up index wraps, and the model wraps it too (`Emit` reduces it modulo 2^16), but no lemma describes which instruction a wrapped fix-up patches.
- Toolchain.LoadAssembled: requires the code to be shorter than 2^31 bytes, where the assembler's `int` and `unsigned` offsets are exact.
- Toolchain.JumpTarget: requires at most 65536 instructions, because the fix-up's `unsigned short` index (assembler.c:20) wraps beyond that, as for `Assembler.ProgramJumps`.
- Toolchain.JumpLands: requires the code to be shorter than 2^31 bytes, for the same reason, and at most 65536 instructions, as `Toolchain.JumpTarget` does.
- Toolchain.LabelOffset: requires the code to be shorter than 2^31 bytes, for the same reason; beyond that a label's address is the offset modulo 2^32, as `Assembler.ProgramLabelAt` states.
- Toolchain.EntryAfterLabel: requires the code to be shorter than 2^31 bytes, for the same reason.
- Toolchain.JumpLandsAfterLabel: requires the code to be shorter than 2^31 bytes and at most 65536 instructions, as `Toolchain.JumpLands` does.
- Disassembler.OperandToString: takes the operand itself rather than the instruction and ordinal.
- Disassembler.Snprintf: handles only text no longer than its limit, which is all that any format in the file can produce.
- Disassembler.OperandToString: the result is the C string the buffer holds (up to the first terminator), not the raw buffer.
- Emulator.ResolveOperand: its own contract states only that register locations are valid. The individual cases are stated by `ResolveComplex`, `ResolveImmediate`, `ResolveRegister`, `ResolveImmediateAddress`, `ResolveRegisterAddress` and `ResolveUntyped`.
- Emulator.ExecIncDec: its own contract states only when it succeeds and what it keeps. What it writes is stated by `Emulator.IncDecCell`.
- Assembler.OpcodeFromName: its own contract states only the error and the name lengths. The mapping is stated by `Disassembler.MnemonicRoundTrip` and `Disassembler.MnemonicUnique`.

## Findings

| source | as written | input that shows it | evidently intended | confidence | as-written member | corrected member |
|---|---|---|---|---|---|---|
| src/disassembler.c:26 | `snprintf(out, 4, "*%d", multiplier)` holds at most 3 characters, so a three-digit multiplier keeps only its first two digits: 100-109 become `*10` and, say, 123 becomes `*12`, followed by a terminator. `out` then moves past that terminator, so the closing `]` is never visible. | An address `[r0*105]` (multiplier 105) prints as `[r0*10`, exactly as `[r0*100]` does. | The whole multiplier is printed, and distinct multipliers print differently. | not executed | Disassembler.MultiplierCut | Disassembler.MultiplierInjective |
| src/disassembler.c:35-39 | Only an offset above zero is printed, and the sign chosen is then always '+'. | `[rsp-8]` (offset −8, COMPLEX set) prints as `[rsp]`, exactly as the plain `[rsp]` does. | A negative offset prints as `-n`, and distinct offsets print differently. | not executed | Disassembler.NegativeOffsetDropped | Disassembler.OffsetInjective |
