/** The operation vocabulary shared by the three differentiation templates.

    Scalars are exact reals.  The library functions of `Op<T>` (fadbad.h) whose values are
    not rational enter as the fields of `Lib`, about which nothing is assumed; the laws that
    need a pointwise identity of theirs say so in a precondition. */
module Ops {

  datatype Lib = Lib(
    sqrt: real -> real,
    exp: real -> real,
    log: real -> real,
    sin: real -> real,
    cos: real -> real,
    overZero: real -> real)  // the result of dividing by zero, left arbitrary

  function Div(lib: Lib, x: real, y: real): real {
    if y == 0.0 then lib.overZero(x) else x / y
  }

  datatype BinFn = ADD | SUB | MUL | DIV

  /** Operators with one recorded operand; a suffix 1 (2) marks a constant on the left (right). */
  datatype UnFn =
    | ADD1(a: real) | ADD2(b: real)
    | SUB1(a: real) | SUB2(b: real)
    | MUL1(a: real) | MUL2(b: real)
    | DIV1(a: real) | DIV2(b: real)
    | UMINUS | UPLUS | SQR | SQRT | EXP | LOG | SIN | COS

  /** A recorded operation; operands are the indices of earlier nodes. */
  datatype Op = Leaf | Un(g: UnFn, o: nat) | Bin(f: BinFn, l: nat, r: nat)

  predicate OperandsBelow(op: Op, k: nat) {
    match op
    case Leaf => true
    case Un(_, o) => o < k
    case Bin(_, l, r) => l < k && r < k
  }

  /** A node is constructed from nodes that already exist, so operands precede it. */
  predicate WellFormed(ops: seq<Op>) {
    forall k :: 0 <= k < |ops| ==> OperandsBelow(ops[k], k)
  }

  function BinValue(lib: Lib, f: BinFn, x: real, y: real): real {
    match f
    case ADD => x + y
    case SUB => x - y
    case MUL => x * y
    case DIV => Div(lib, x, y)
  }

  function UnValue(lib: Lib, g: UnFn, x: real): real {
    match g
    case ADD1(a) => a + x
    case ADD2(b) => x + b
    case SUB1(a) => a - x
    case SUB2(b) => x - b
    case MUL1(a) => a * x
    case MUL2(b) => x * b
    case DIV1(a) => Div(lib, a, x)
    case DIV2(b) => Div(lib, x, b)
    case UMINUS => -x
    case UPLUS => x
    case SQR => x * x
    case SQRT => lib.sqrt(x)
    case EXP => lib.exp(x)
    case LOG => lib.log(x)
    case SIN => lib.sin(x)
    case COS => lib.cos(x)
  }
}
