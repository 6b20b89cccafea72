/** The RREIL intermediate language (core/src/il.rs): values, operations and statements.

  Names are a type parameter `N`: the abstract interpreter works on SSA names, the AMD64
  code generator on machine registers and its own temporaries. */
module Il {

  datatype Option<+T> = None | Some(value: T)

  /** A constant and its size in bits. The source keeps values in 64 bits, whatever the size. */
  datatype Const = Const(value: nat, size: nat)

  /** A readable value: `?`, `size` bits of a variable starting at bit `offset`, or a constant. */
  datatype Rvalue<N> =
    | Undefined
    | Variable(name: N, subscript: Option<nat>, offset: nat, size: nat)
    | Constant(c: Const)

  /** A writeable value. */
  datatype Lvalue<N> =
    | NoValue
    | Target(name: N, subscript: Option<nat>, size: nat)

  datatype Endianess = Little | Big

  /** Operations on two operands. `Select` carries its offset, `Store` its bank, byte order and size. */
  datatype BinaryOp =
    | Add | Subtract | Multiply | DivideUnsigned | DivideSigned | Modulo
    | ShiftLeft | ShiftRightUnsigned | ShiftRightSigned
    | And | InclusiveOr | ExclusiveOr
    | Equal | LessOrEqualUnsigned | LessOrEqualSigned | LessUnsigned | LessSigned
    | Select(offset: nat)
    | Store(bank: string, endianess: Endianess, bits: nat)

  /** Operations on one operand. */
  datatype UnaryOp =
    | ZeroExtend(width: nat) | SignExtend(width: nat) | Move | Call
    | Load(bank: string, endianess: Endianess, bits: nat)

  /** An operation over operands of type `V`; `Store(ptr, val)` is `Binary`. */
  datatype Operation<V> =
    | Binary(bop: BinaryOp, left: V, right: V)
    | Unary(uop: UnaryOp, arg: V)
    | Initialize(global: string, bits: nat)
    | Phi(args: seq<V>)

  datatype Statement<N> = Statement(assignee: Lvalue<N>, op: Operation<Rvalue<N>>)

  /** What executing an operation on constants yields: a constant, or None for `?`. */
  datatype Semantics = Semantics(
    binary: (BinaryOp, Const, Const) -> Option<Const>,
    unary: (UnaryOp, Const) -> Option<Const>)
}
