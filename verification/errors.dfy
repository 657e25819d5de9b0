/** The failure taxonomy of the assembler, the loader and the emulator.
    The C program terminates the process (or runs into undefined behaviour)
    in each of these cases; the model returns the error instead. */
module Errors {

  datatype Error =
    // assembler.c: exit(6), exit(8), exit(7), exit(8)
    | UnknownMnemonic
    | UnknownRegister
    | OperandCountMismatch
    | UndefinedLabel
      // assembler.c: reads the source text outside its buffer
    | ReadOutOfBounds
      // assembler.c: a jump line with no label token after the mnemonic
    | MissingJumpTarget
      // assembler.c: a number token longer than the 21-byte conversion buffer
    | TokenTooLong
      // assembler.c: `offset *= -1` on the least 32-bit value overflows
    | OffsetOverflow
      // assembler.c: a bracketed token whose inner length goes negative, or no register token
    | MalformedOperand
      // src/emulator.c: opcode byte >= 22
    | UnknownOpcode
      // src/emulator.c: register id >= 10
    | BadRegister
      // src/emulator.c: operand type with neither IMMEDIATE, REGISTER nor COMPLEX
    | BadOperandType
      // src/emulator.c: size byte > 8 copied out of an 8-byte cell
    | BadSize
      // src/emulator.c: access outside the memory arena
    | MemoryOutOfBounds
      // src/emulator.c: `/` or `%` by zero
    | DivideByZero
      // src/emulator.c: image larger than the arena
    | ImageTooLarge
      // src/disassembler.c: exit(5)
    | UnknownSize

  datatype Option<+T> = None | Some(value: T)

  datatype Result<+T> = Ok(value: T) | Err(error: Error) {

    predicate IsFailure() {
      Err?
    }

    function PropagateFailure<U>(): Result<U>
      requires Err?
    {
      Err(error)
    }

    function Extract(): T
      requires Ok?
    {
      value
    }
  }
}
