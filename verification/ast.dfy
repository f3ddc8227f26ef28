/**
  The parsed Enigma program the code converter walks (Primitives.AST and
  Primitives.STATE; Primitives is not part of this model, so only the fields the
  converter reads appear). Nodes live in an arena and refer to each other by index; a
  missing child or parent is `None`, Java's `null`.
 */
module Ast {
  import opened Results

  /** The node kinds the converter distinguishes, grouped by how they are emitted;
      `Unhandled` stands for every other kind the parser can produce. */
  datatype NodeKind =
    | Function | CallFunction | VerifyBty | VerifyPow
    | Constant | VarConst | VarExp
    | If | Else | Repeat | Block | Break | Continue | Conditional | CondElse
    | Unary(u: UnaryOp)
    | Binary(b: BinaryOp)
    | Assignment(a: AssignOp)
    | Unhandled

  /** Operators and library functions of one operand. */
  datatype UnaryOp =
    | IncrementR | IncrementL | DecrementR | DecrementL
    | Not | Compl | Neg | Param
    | Sin | Cos | Tan | Sinh | Cosh | Tanh | Asin | Acos | Atan
    | Expnt | Log | Log10 | Sqrt | Ceil | Floor | Abs | Fabs

  /** Operators and library functions of two operands that yield a value. */
  datatype BinaryOp =
    | Add | Sub | Mul | Div | Mod
    | LShift | RShift | LRot | RRot
    | And | Or | BitwiseAnd | BitwiseXor | BitwiseOr
    | Eq | Ne | Gt | Lt | Ge | Le
    | Pow | Atan2 | Fmod | Gcd

  /** Plain and compound assignments. */
  datatype AssignOp =
    | Assign | AddAssign | SubAssign | MulAssign | DivAssign | ModAssign
    | LShftAssign | RShftAssign | AndAssign | XorAssign | OrAssign

  /** The declared type of a constant or variable; `DtOther` is any tag outside the six
      value types. */
  datatype DataType = DtInt | DtUint | DtLong | DtUlong | DtFloat | DtDouble | DtOther

  /** One tree node. `fvalueText` is the `%f` rendering of the node's float value,
      which this model takes as given rather than computing. */
  datatype Node = Node(
    kind: NodeKind,
    dataType: DataType,
    left: Option<nat>,
    right: Option<nat>,
    parent: Option<nat>,
    svalue: string,
    ivalue: int,
    uvalue: int,
    fvalueText: string,
    tokenNum: int,
    line: int,
    endStmt: bool,
    isVmMem: bool,
    isVmStorage: bool,
    is64Bit: bool)

  type Arena = seq<Node>

  predicate LinkIn(link: Option<nat>, size: nat) {
    link.Some? ==> link.value < size
  }

  /** Every link names a node of the arena, as every Java reference names an object. */
  predicate ValidArena(a: Arena) {
    forall i :: 0 <= i < |a| ==>
      LinkIn(a[i].left, |a|) && LinkIn(a[i].right, |a|) && LinkIn(a[i].parent, |a|)
  }

  /** The array sizes of the work package the converted code indexes into. `mArraySize`
      is the constant VM_M_ARRAY_SIZE, whose value is not part of this model. */
  datatype Capacities = Capacities(
    vmInts: int,
    vmUints: int,
    vmLongs: int,
    vmUlongs: int,
    vmFloats: int,
    vmDoubles: int,
    submitSize: int,
    mArraySize: int)

  /** The converter's part of the compiler state: the code stack (top at the end), the
      current indentation and the capacities. */
  datatype State = State(code: seq<string>, tabs: int, caps: Capacities)
}
