/**
  The tree-to-text compiler (CodeConverter.java): it walks each function's syntax tree
  bottom-up, pops the texts of a node's operands from the code stack and pushes the
  JavaScript text of the node.
 */
module CodeConverter {
  import opened Results
  import opened Text
  import opened Ast

  /** `SyntaxError` is the converter's own exception; `NullReference` and
      `IndexOutOfBounds` are the runtime exceptions the Java code can raise on a
      malformed tree or an indentation outside the tab table; `OutOfFuel` means the walk
      did not finish within the step budget this model gives it. */
  datatype ConvertError =
    | SyntaxError(message: string)
    | NullReference
    | IndexOutOfBounds(index: int)
    | OutOfFuel

  const Null: string := "null"

  function Max(a: int, b: int): int {
    if a < b then b else a
  }

  // ---------------------------------------------------------------------------
  // Indentation
  // ---------------------------------------------------------------------------

  /** The hard-coded tab strings; the last entry repeats seven tabs. */
  const TabTable: seq<string> := [
    "", "\t", "\t\t", "\t\t\t", "\t\t\t\t", "\t\t\t\t\t", "\t\t\t\t\t\t",
    "\t\t\t\t\t\t\t", "\t\t\t\t\t\t\t"]

  /** `tab[i]`: `i` tabs below 8, seven tabs at 8, and an array-bounds failure outside
      0..8. */
  function Tab(i: int): (r: Result<string, ConvertError>)
    ensures r.Fail? <==> i < 0 || i > 8
    ensures r.Fail? ==> r.error == IndexOutOfBounds(i)
    ensures 0 <= i < 8 ==> r == Ok(Tabs(i))
    ensures i == 8 ==> r == Ok(Tabs(7))
  {
    TabTableIsTabs();
    if 0 <= i < |TabTable| then Ok(TabTable[i]) else Fail(IndexOutOfBounds(i))
  }

  lemma TabTableIsTabs()
    ensures |TabTable| == 9
    ensures forall i :: 0 <= i < 8 ==> TabTable[i] == Tabs(i)
    ensures TabTable[8] == Tabs(7)
  {
    assert TabTable[0] == Tabs(0);
    assert TabTable[1] == Tabs(1);
    assert TabTable[2] == Tabs(2);
    assert TabTable[3] == Tabs(3);
    assert TabTable[4] == Tabs(4);
    assert TabTable[5] == Tabs(5);
    assert TabTable[6] == Tabs(6);
    assert TabTable[7] == Tabs(7);
    assert TabTable[8] == Tabs(7);
  }

  /** `tab[Math.max(tabs, 0)]`, the statement indentation. */
  function Indent(tabs: int): Result<string, ConvertError> {
    Tab(Max(tabs, 0))
  }

  /** `tab[Math.max(tabs - 1, 0)]`, the indentation of a scope's opening and closing. */
  function OuterIndent(tabs: int): Result<string, ConvertError> {
    Tab(Max(tabs - 1, 0))
  }

  /** Indentation beyond the table fails once the depth exceeds eight. */
  lemma IndentBounded(tabs: int)
    ensures Indent(tabs).Ok? <==> tabs <= 8
    ensures OuterIndent(tabs).Ok? <==> tabs <= 9
  {
  }

  // ---------------------------------------------------------------------------
  // strcmp
  // ---------------------------------------------------------------------------

  /** Despite its name, true when the strings DIFFER ignoring case. */
  function Strcmp(a: string, b: string): (r: bool)
    ensures r <==> !EqualsIgnoreCase(a, b)
  {
    !SameIgnoringCase(a, b)
  }

  lemma StrcmpSymmetric(a: string, b: string)
    ensures Strcmp(a, b) == Strcmp(b, a)
  {
  }

  lemma StrcmpReflexiveFalse(a: string)
    ensures !Strcmp(a, a)
  {
  }

  // ---------------------------------------------------------------------------
  // Operands from the code stack
  // ---------------------------------------------------------------------------

  /** How many operand texts a kind takes from the code stack. */
  datatype Inputs = NoInputs | OneInput | TwoInputs | FourInputs

  function InputsOf(k: NodeKind): Inputs {
    match k
    case VarExp | If | Repeat | VerifyBty | Unary(_) => OneInput
    case Binary(_) | Assignment(_) | Conditional => TwoInputs
    case VerifyPow => FourInputs
    case _ => NoInputs
  }

  /** Kinds whose text uses one operand. */
  predicate TakesOne(k: NodeKind) {
    InputsOf(k) == OneInput
  }

  /** Kinds whose text uses a left and a right operand. */
  predicate TakesTwo(k: NodeKind) {
    InputsOf(k) == TwoInputs
  }

  /** How many fragments `get_node_inputs` pops for a kind. */
  function Arity(k: NodeKind): nat {
    match InputsOf(k)
    case NoInputs => 0
    case OneInput => 1
    case TwoInputs => 2
    case FourInputs => 4
  }

  /** How many fragments converting a node consumes: CONDITIONAL pops its condition on
      top of its two branches. */
  function Consumed(k: NodeKind): nat {
    Arity(k) + if k == Conditional then 1 else 0
  }

  function CorruptedStack(line: int): ConvertError {
    SyntaxError("Compiler Error: Corupted code stack at Line: " + IntToString(line))
  }

  /** The popped operand texts; an operand the kind does not take stays Java's `null`,
      which formats as "null". */
  datatype Fragments = Fragments(lstr: string, rstr: string)

  datatype Popped = Popped(fragments: Fragments, rest: seq<string>)

  function Pop(code: seq<string>, line: int): (r: Result<(string, seq<string>), ConvertError>)
    ensures r.Ok? <==> |code| > 0
    ensures r.Fail? ==> r.error == CorruptedStack(line)
    ensures r.Ok? ==> code == r.value.1 + [r.value.0]
  {
    if |code| == 0 then Fail(CorruptedStack(line)) else Ok((code[|code| - 1], code[..|code| - 1]))
  }

  /** The four VERIFY_POW arguments, joined in the order they were pushed. */
  function JoinArguments(a: string, b: string, c: string, d: string): string {
    a + "," + b + "," + c + "," + d
  }

  /** VERIFY_POW's four pops, rejoined in push order. */
  function PopArguments(code: seq<string>, line: int): (r: Result<Popped, ConvertError>)
    ensures r.Ok? <==> |code| >= 4
    ensures r.Fail? ==> r.error == CorruptedStack(line)
    ensures r.Ok? ==> var n := |code|;
      && r.value.rest == code[..n - 4]
      && r.value.fragments == Fragments(JoinArguments(code[n - 4], code[n - 3], code[n - 2], code[n - 1]), Null)
  {
    var p0 :- Pop(code, line);
    var p1 :- Pop(p0.1, line);
    var p2 :- Pop(p1.1, line);
    var p3 :- Pop(p2.1, line);
    Ok(Popped(Fragments(JoinArguments(p3.0, p2.0, p1.0, p0.0), Null), p3.1))
  }

  /** `get_node_inputs`: one pop for unary kinds (left), two for binary kinds (right
      first, then left), four for VERIFY_POW, none otherwise. */
  function GetNodeInputs(node: Node, code: seq<string>): (r: Result<Popped, ConvertError>)
    ensures r.Ok? <==> |code| >= Arity(node.kind)
    ensures r.Fail? ==> r.error == CorruptedStack(node.line)
    ensures r.Ok? ==> r.value.rest == code[..|code| - Arity(node.kind)]
    ensures r.Ok? && Arity(node.kind) == 0 ==> r.value.fragments == Fragments(Null, Null)
    ensures r.Ok? && Arity(node.kind) == 1 ==>
      r.value.fragments == Fragments(code[|code| - 1], Null)
    ensures r.Ok? && Arity(node.kind) == 2 ==>
      r.value.fragments == Fragments(code[|code| - 2], code[|code| - 1])
    ensures r.Ok? && Arity(node.kind) == 4 ==>
      var n := |code|;
      r.value.fragments == Fragments(JoinArguments(code[n - 4], code[n - 3], code[n - 2], code[n - 1]), Null)
  {
    var k, line := node.kind, node.line;
    match InputsOf(k)
    case OneInput =>
      var p :- Pop(code, line);
      Ok(Popped(Fragments(p.0, Null), p.1))
    case TwoInputs =>
      var p :- Pop(code, line);
      var q :- Pop(p.1, line);
      Ok(Popped(Fragments(q.0, p.0), q.1))
    case FourInputs => PopArguments(code, line)
    case NoInputs =>
      Ok(Popped(Fragments(Null, Null), code))
  }

  // ---------------------------------------------------------------------------
  // Emission rules
  // ---------------------------------------------------------------------------

  predicate IsPlainBinary(op: BinaryOp) {
    match op
    case Add | Sub | Mul | Eq | Ne | Gt | Lt | Ge | Le | And | Or | BitwiseAnd | BitwiseXor
       | BitwiseOr | LShift | RShift => true
    case _ => false
  }

  /** The operator of the plain binary kinds ADD..RSHIFT. */
  function BinarySymbol(op: BinaryOp): string
    requires IsPlainBinary(op)
  {
    match op
    case Add => "+"
    case Sub => "-"
    case Mul => "*"
    case Eq => "=="
    case Ne => "!="
    case Gt => ">"
    case Lt => "<"
    case Ge => ">="
    case Le => "<="
    case And => "&&"
    case Or => "||"
    case BitwiseAnd => "&"
    case BitwiseXor => "^"
    case BitwiseOr => "|"
    case LShift => "<<"
    case RShift => ">>"
  }

  predicate IsPlainAssign(op: AssignOp) {
    !(op == DivAssign || op == ModAssign)
  }

  /** The operator of the compound assignments without a zero guard. */
  function AssignSymbol(op: AssignOp): string
    requires IsPlainAssign(op)
  {
    match op
    case Assign => "="
    case AddAssign => "+="
    case SubAssign => "-="
    case MulAssign => "*="
    case LShftAssign => "<<="
    case RShftAssign => ">>="
    case AndAssign => "&="
    case XorAssign => "^="
    case OrAssign => "|="
  }

  /** Division and remainder are emitted behind a zero test of the divisor. */
  function GuardedQuotient(l: string, op: string, r: string): string {
    "(((" + r + ") != 0) ? (" + l + ") " + op + " (" + r + ") : 0)"
  }

  /** The call VERIFY_POW makes in both of its branches. */
  function CheckPowCall(args: string): string {
    "ExposedToRhino.check_pow(" + args + ", m, target)"
  }

  function VerifyPowText(args: string): string {
    "if (verify_pow == 1)\n\t\tpow_found = " + CheckPowCall(args) + ";"
    + "\n\telse\n\t\t{ pow_found = 0; " + CheckPowCall(args) + "; }"
  }

  /** A guard that maps arguments outside [-1, 1] to 0.0. */
  function UnitRangeGuard(fn: string, l: string): string {
    "(((" + l + " >= -1.0) && (" + l + " <= 1.0)) ? Math." + fn + "( " + l + " ) : 0.0)"
  }

  /** A guard that maps non-positive arguments to 0.0. */
  function PositiveGuard(fn: string, l: string): string {
    "((" + l + " > 0) ? Math." + fn + "( " + l + " ) : 0.0)"
  }

  function InvalidVariable(line: int): ConvertError {
    SyntaxError("Compiler Error: Invalid variable at Line: " + IntToString(line))
  }

  /** The typed array a variable lives in, and the capacity VAR_CONST clamps against.
      Every unsigned array, m[] and s[] included, is clamped against the uint count. */
  function ConstCell(node: Node, caps: Capacities): (r: Result<(string, int), ConvertError>)
    ensures r.Fail? <==> node.dataType == DtOther
  {
    match node.dataType
    case DtInt => Ok(("i", caps.vmInts))
    case DtUint =>
      if node.isVmMem then Ok(("m", caps.vmUints))
      else if node.isVmStorage then Ok(("s", caps.vmUints))
      else Ok(("u", caps.vmUints))
    case DtLong => Ok(("l", caps.vmLongs))
    case DtUlong => Ok(("ul", caps.vmUlongs))
    case DtFloat => Ok(("f", caps.vmFloats))
    case DtDouble => Ok(("d", caps.vmDoubles))
    case DtOther => Fail(InvalidVariable(node.line))
  }

  /** VAR_CONST: a fixed cell, its index replaced by 0 when it is not below capacity. */
  function VarConstText(node: Node, caps: Capacities): Result<string, ConvertError> {
    var cell :- ConstCell(node, caps);
    Ok(cell.0 + "[" + IntToString(if node.uvalue >= cell.1 then 0 else node.uvalue) + "]")
  }

  /** The typed array a computed index addresses, the capacity VAR_EXP tests it against,
      and whether the statement form clamps the indentation (s[] does not). */
  function ExpCell(node: Node, caps: Capacities): (r: Result<(string, int, bool), ConvertError>)
    ensures r.Fail? <==> node.dataType == DtOther
  {
    match node.dataType
    case DtInt => Ok(("i", caps.vmInts, true))
    case DtUint =>
      if node.isVmMem then Ok(("m", caps.mArraySize, true))
      else if node.isVmStorage then Ok(("s", caps.submitSize, false))
      else Ok(("u", caps.vmUints, true))
    case DtLong => Ok(("l", caps.vmLongs, true))
    case DtUlong => Ok(("ul", caps.vmUlongs, true))
    case DtFloat => Ok(("f", caps.vmFloats, true))
    case DtDouble => Ok(("d", caps.vmDoubles, true))
    case DtOther => Fail(InvalidVariable(node.line))
  }

  /** The index expression clamped in place: out-of-range indices read cell 0. */
  function ClampedAccess(prefix: string, l: string, cap: int): string {
    prefix + "[(((" + l + ") < " + IntToString(cap) + ") ? " + l + " : 0)]"
  }

  /** The assignment-target form: the whole statement runs only for an in-range index. */
  function GuardedTarget(prefix: string, l: string, cap: int, indent: string): string {
    "if((" + l + ") < " + IntToString(cap) + ")\n\t" + indent + prefix + "[" + l + "]"
  }

  /** Whether a VAR_EXP node is the left child of a statement-terminating parent; a
      missing parent is a null dereference. */
  function IsAssignTarget(arena: Arena, i: nat): (r: Result<bool, ConvertError>)
    requires ValidArena(arena) && i < |arena|
  {
    var parent := arena[i].parent;
    if parent.None? then Fail(NullReference)
    else Ok(arena[parent.value].endStmt && arena[parent.value].left == Some(i))
  }

  function VarExpText(arena: Arena, i: nat, l: string, tabs: int, caps: Capacities): Result<string, ConvertError>
    requires ValidArena(arena) && i < |arena|
  {
    var target :- IsAssignTarget(arena, i);
    var cell :- ExpCell(arena[i], caps);
    if target then
      var indent :- if cell.2 then Indent(tabs) else Tab(tabs);
      Ok(GuardedTarget(cell.0, l, cell.1, indent))
    else
      Ok(ClampedAccess(cell.0, l, cell.1))
  }

  function ConstantText(node: Node): Result<string, ConvertError> {
    match node.dataType
    case DtInt => Ok(IntToString(node.ivalue))
    case DtLong => Ok(IntToString(node.ivalue))
    case DtUint => Ok(IntToString(node.uvalue))
    case DtUlong => Ok(IntToString(node.uvalue))
    case DtFloat => Ok(node.fvalueText)
    case DtDouble => Ok(node.fvalueText)
    case DtOther => Fail(SyntaxError("Compiler Error: Invalid constant at Line: " + IntToString(node.line)))
  }

  function CallText(name: string): string {
    if !Strcmp(name, "verify") then name + "(verify_pow, target)" else name + "()"
  }

  function RepeatText(indent: string, node: Node, l: string): string {
    var loop := "loop" + IntToString(node.tokenNum);
    indent + "var " + loop + " = 0;\n"
    + indent + "for (" + loop + " = 0; " + loop + " < (" + l + "); " + loop + "++) {\n"
    + indent + "\tif (" + loop + " >= " + IntToString(node.ivalue) + ") break;\n"
    + indent + "\tu[" + IntToString(node.uvalue) + "] = " + loop + ";\n"
  }

  function ElseText(arena: Arena, node: Node, indent: string): string
    requires LinkIn(node.left, |arena|)
  {
    if node.left.Some? && arena[node.left.value].kind != Block then
      indent + "}\n" + indent + "else {\n"
    else
      indent + "else {\n"
  }

  function BlockText(arena: Arena, i: nat, tabs: int): Result<string, ConvertError>
    requires ValidArena(arena) && i < |arena|
  {
    var parent := arena[i].parent;
    if parent.None? then Fail(NullReference)
    else
      var p := arena[parent.value];
      if p.kind == Function then Ok("}\n")
      else if p.kind == Repeat then var t :- OuterIndent(tabs); Ok(t + "}\n")
      else if p.kind == Else && p.right == Some(i) then Ok("")
      else var t :- OuterIndent(tabs); Ok(t + "}\n")
  }

  /** Operators of two operands: plain infix, zero-guarded division, rotation by the
      node's width, and library calls. */
  function BinaryText(op: BinaryOp, l: string, r: string, is64Bit: bool): string {
    if IsPlainBinary(op) then "(" + l + ") " + BinarySymbol(op) + " (" + r + ")"
    else match op
      case Div => GuardedQuotient(l, "/", r)
      case Mod => GuardedQuotient(l, "%", r)
      case LRot => (if is64Bit then "rotl64(" else "rotl32(") + l + ", " + r + ")"
      case RRot => (if is64Bit then "rotr64(" else "rotr32(") + l + ", " + r + ")"
      case Pow => "Math.pow(" + l + ", " + r + ")"
      case Atan2 => "((" + r + " != 0) ? Math.atan2(" + l + ", " + r + ") : 0.0)"
      case Fmod => "((" + r + " != 0) ? (" + l + " % " + r + ") : 0.0)"
      case Gcd => "gcd(" + l + ", " + r + ")"
  }

  /** Assignments: compound division and remainder assign the zero-guarded quotient. */
  function AssignText(op: AssignOp, l: string, r: string): string {
    if IsPlainAssign(op) then l + " " + AssignSymbol(op) + " " + r
    else if op == DivAssign then l + " = " + GuardedQuotient(l, "/", r)
    else l + " = " + GuardedQuotient(l, "%", r)
  }

  /** Operators and library functions of one operand; the domain-restricted functions
      map arguments outside their domain to 0.0. */
  function UnaryText(op: UnaryOp, l: string): string {
    match op
    case IncrementR => "++" + l
    case IncrementL => l + "++"
    case DecrementR => "--" + l
    case DecrementL => l + "--"
    case Not => "!(" + l + ")"
    case Compl => "~(" + l + ")"
    case Neg => "-(" + l + ")"
    case Param => l
    case Abs => "Math.abs(" + l + ")"
    case Sin => "Math.sin(" + l + ")"
    case Cos => "Math.cos(" + l + ")"
    case Tan => "Math.tan(" + l + ")"
    case Sinh => UnitRangeGuard("sinh", l)
    case Cosh => UnitRangeGuard("cosh", l)
    case Tanh => "Math.tanh(" + l + ")"
    case Asin => UnitRangeGuard("asin", l)
    case Acos => UnitRangeGuard("acos", l)
    case Atan => "Math.atan(" + l + ")"
    case Expnt => "((((" + l + ") >= -708.0) && ((" + l + ") <= 709.0)) ? Math.exp( " + l + " ) : 0.0)"
    case Log => PositiveGuard("log", l)
    case Log10 => PositiveGuard("log10", l)
    case Sqrt => PositiveGuard("sqrt", l)
    case Ceil => "Math.ceil(" + l + ")"
    case Floor => "Math.floor(" + l + ")"
    case Fabs => "Math.abs(" + l + ")"
  }

  function UnknownExpression(line: int): ConvertError {
    SyntaxError("Compiler Error: Unknown expression at Line: " + IntToString(line))
  }

  /** The text of the kinds whose emission depends only on the node and its operands. */
  function OperatorText(node: Node, f: Fragments): Result<string, ConvertError> {
    var l, r := f.lstr, f.rstr;
    match node.kind
    case Binary(op) => Ok(BinaryText(op, l, r, node.is64Bit))
    case Assignment(op) => Ok(AssignText(op, l, r))
    case Unary(op) => Ok(UnaryText(op, l))
    case Function => Ok("function " + node.svalue + "() {\n")
    case CallFunction => Ok(CallText(node.svalue))
    case VerifyBty => Ok("bounty_found = (" + l + " != 0 ? 1 : 0)")
    case VerifyPow => Ok(VerifyPowText(l))
    case Constant => ConstantText(node)
    case Break => Ok("break")
    case Continue => Ok("continue")
    case _ => Fail(UnknownExpression(node.line))
  }

  /** Kinds that open an indented scope in the output. */
  predicate OpensScope(k: NodeKind) {
    k == If || k == Else || k == Repeat
  }

  /** What `convert_node`'s switch produces: the text, the code stack left after the
      pops, and the indentation (scopes raise it to at least 1). */
  datatype Emitted = Emitted(text: string, code: seq<string>, tabs: int)

  function Emit(arena: Arena, i: nat, f: Fragments, code: seq<string>, tabs: int, caps: Capacities): (r: Result<Emitted, ConvertError>)
    requires ValidArena(arena) && i < |arena|
    requires arena[i].kind != CondElse
    ensures r.Ok? && OpensScope(arena[i].kind) ==> r.value.tabs == Max(tabs, 1)
    ensures r.Ok? && !OpensScope(arena[i].kind) ==> r.value.tabs == tabs
    ensures r.Ok? && arena[i].kind == Conditional ==> |code| >= 1 && r.value.code == code[..|code| - 1]
    ensures r.Ok? && arena[i].kind != Conditional ==> r.value.code == code
  {
    var node := arena[i];
    var k := node.kind;
    var scoped := if tabs < 1 then 1 else tabs;
    if OpensScope(k) then
      var t :- OuterIndent(scoped);
      var s := if k == If then t + "if (" + f.lstr + ") {\n"
               else if k == Else then ElseText(arena, node, t)
               else RepeatText(t, node, f.lstr);
      Ok(Emitted(s, code, scoped))
    else if k == Conditional then
      var cond :- Pop(code, node.line);
      Ok(Emitted("((" + cond.0 + ") ? (" + f.lstr + ") : (" + f.rstr + "))", cond.1, tabs))
    else
      var s :- if k == Block then BlockText(arena, i, tabs)
               else if k == VarConst then VarConstText(node, caps)
               else if k == VarExp then VarExpText(arena, i, f.lstr, tabs, caps)
               else OperatorText(node, f);
      Ok(Emitted(s, code, tabs))
  }

  /** Nodes that end a statement are pushed indented and with a semicolon, except the
      kinds that lay out their own lines. */
  predicate Terminates(node: Node) {
    node.endStmt && node.kind !in {If, Else, Repeat, Block, Function}
  }

  /** Push the emitted text, as a statement when the node ends one. */
  function Push(e: Emitted, node: Node, caps: Capacities): (r: Result<State, ConvertError>)
    ensures r.Ok? ==> r.value.tabs == e.tabs && r.value.caps == caps
  {
    var fragment :- if Terminates(node) then
                      var t :- Indent(e.tabs); Ok(t + e.text + ";\n")
                    else Ok(e.text);
    Ok(State(e.code + [fragment], e.tabs, caps))
  }

  /** The switch of `convert_node` and the push, once the operands are popped: only
      CONDITIONAL pops once more. */
  function EmitAndPush(arena: Arena, i: nat, p: Popped, st: State): (r: Result<State, ConvertError>)
    requires ValidArena(arena) && i < |arena| && arena[i].kind != CondElse
    ensures r.Ok? ==> r.value.caps == st.caps
    ensures r.Ok? && OpensScope(arena[i].kind) ==> r.value.tabs == Max(st.tabs, 1)
    ensures r.Ok? && !OpensScope(arena[i].kind) ==> r.value.tabs == st.tabs
  {
    var e :- Emit(arena, i, p.fragments, p.rest, st.tabs, st.caps);
    Push(e, arena[i], st.caps)
  }

  /** `convert_node`: pop the operands, emit, push exactly one fragment (none for
      COND_ELSE). */
  function ConvertNode(arena: Arena, n: Option<nat>, st: State): (r: Result<State, ConvertError>)
    requires ValidArena(arena) && LinkIn(n, |arena|)
    ensures n.None? ==> r == Fail(SyntaxError("Unable to convert NULL node."))
    ensures r.Ok? ==> n.Some? && r.value.caps == st.caps
    ensures r.Ok? && OpensScope(arena[n.value].kind) ==> r.value.tabs == Max(st.tabs, 1)
    ensures r.Ok? && !OpensScope(arena[n.value].kind) ==> r.value.tabs == st.tabs
  {
    if n.None? then Fail(SyntaxError("Unable to convert NULL node."))
    else
      var node := arena[n.value];
      var popped :- GetNodeInputs(node, st.code);
      if node.kind == CondElse then Ok(st.(code := popped.rest))
      else
        EmitAndPush(arena, n.value, popped, st)
  }

  // ---------------------------------------------------------------------------
  // The walk
  // ---------------------------------------------------------------------------

  /** The walk's position: the current node and whether it is moving down. */
  datatype Cursor = Cursor(ptr: nat, downward: bool)

  datatype Progress = Running(cursor: Cursor, state: State) | Finished(state: State)

  /** IF and REPEAT indent the statements below them. */
  predicate IndentsBody(k: NodeKind) {
    k == If || k == Repeat
  }

  function Indented(st: State, k: NodeKind): (r: State)
    ensures r.caps == st.caps && r.code == st.code
    ensures r.tabs == if IndentsBody(k) then st.tabs + 1 else st.tabs
  {
    if IndentsBody(k) then st.(tabs := st.tabs + 1) else st
  }

  predicate InvariantOf(arena: Arena, p: Progress, st: State) {
    && p.state.caps == st.caps
    && (st.tabs >= 0 ==> p.state.tabs >= 0)
    && (p.Running? ==> p.cursor.ptr < |arena|)
  }

  /** Moving up onto node `p`: a scope closes (with a bracket when its body is not a
      BLOCK, and ELSE re-indented to match its IF), a BLOCK under a scope or function
      is converted, any other node is converted. */
  function Ascend(arena: Arena, p: nat, st: State): (r: Result<Progress, ConvertError>)
    requires ValidArena(arena) && p < |arena|
    ensures r.Ok? ==> InvariantOf(arena, r.value, st) && r.value.Running?
  {
    var node := arena[p];
    if OpensScope(node.kind) then
      var lowered := if st.tabs > 0 then st.tabs - 1 else st.tabs;
      var closes := node.kind != Else && node.right.Some? && arena[node.right.value].kind != Block;
      var code :- if closes then (var t :- Indent(lowered); Ok(st.code + [t + "}\n"])) else Ok(st.code);
      var tabs := if node.kind == Else then lowered + 1 else lowered;
      Ok(Running(Cursor(p, false), st.(code := code, tabs := tabs)))
    else if node.kind == Block then
      if node.parent.None? then Fail(NullReference)
      else
        var owner := arena[node.parent.value].kind;
        if OpensScope(owner) || owner == Function then
          var st1 :- ConvertNode(arena, Some(p), st);
          Ok(Running(Cursor(p, false), st1))
        else
          Ok(Running(Cursor(p, false), st))
    else
      var st1 :- ConvertNode(arena, Some(p), st);
      Ok(Running(Cursor(p, false), st1))
  }

  /** Moving down: to the left child (indenting under IF and REPEAT), else a FUNCTION
      header is emitted and the walk moves to the right child, else the leaf is
      converted and the walk turns upward. */
  function Descend(arena: Arena, p: nat, st: State): (r: Result<Progress, ConvertError>)
    requires ValidArena(arena) && p < |arena|
    ensures r.Ok? ==> InvariantOf(arena, r.value, st)
  {
    var node := arena[p];
    if node.left.Some? then
      var next := node.left.value;
      Ok(Running(Cursor(next, true), Indented(st, arena[next].kind)))
    else
      var st1 :- if node.kind == Function then ConvertNode(arena, Some(p), st) else Ok(st);
      if node.right.Some? then
        Ok(Running(Cursor(node.right.value, true), st1))
      else
        var st2 :- ConvertNode(arena, Some(p), st1);
        Ok(Running(Cursor(p, false), st2))
  }

  /** Moving up from node `p`: the walk ends below the root; from a left child it
      crosses to the right sibling (converting a scope's condition first); otherwise it
      ascends to the parent. */
  function Climb(arena: Arena, root: nat, p: nat, st: State): (r: Result<Progress, ConvertError>)
    requires ValidArena(arena) && root < |arena| && p < |arena|
    ensures r.Ok? ==> InvariantOf(arena, r.value, st)
  {
    var node := arena[p];
    if node.parent == Some(root) then
      Ok(Finished(st))
    else if node.parent.None? then
      Fail(NullReference)
    else
      var parent := arena[node.parent.value];
      if parent.left == Some(p) && parent.right.Some? then
        var next := parent.right.value;
        // the code re-reads the parent through the right child's own link
        if arena[next].parent.None? then Fail(NullReference)
        else
          var owner := arena[next].parent.value;
          if OpensScope(arena[owner].kind) then
            var st1 :- ConvertNode(arena, Some(owner), st);
            Ok(Running(Cursor(next, true), Indented(st1, arena[next].kind)))
          else
            Ok(Running(Cursor(next, true), st))
      else
        Ascend(arena, node.parent.value, st)
  }

  /** One iteration of `convert_function`'s loop, with each step of the inner
      leftmost-descent loop counted as an iteration of its own. */
  function WalkStep(arena: Arena, root: nat, c: Cursor, st: State): (r: Result<Progress, ConvertError>)
    requires ValidArena(arena) && root < |arena| && c.ptr < |arena|
    ensures r.Ok? ==> InvariantOf(arena, r.value, st)
  {
    if c.downward then Descend(arena, c.ptr, st) else Climb(arena, root, c.ptr, st)
  }

  /** The loop of `convert_function`, run for at most `fuel` iterations. */
  function Walk(arena: Arena, root: nat, c: Cursor, st: State, fuel: nat): (r: Result<State, ConvertError>)
    requires ValidArena(arena) && root < |arena| && c.ptr < |arena|
    ensures r.Ok? ==> r.value.caps == st.caps
    ensures r.Ok? && st.tabs >= 0 ==> r.value.tabs >= 0
    decreases fuel, 0
  {
    if fuel == 0 then Fail(OutOfFuel)
    else Resume(arena, root, WalkStep(arena, root, c, st), st, fuel - 1)
  }

  /** The loop after one iteration from state `st`: stop on a failure or on finishing,
      otherwise go on from where the iteration left off. */
  function Resume(arena: Arena, root: nat, p: Result<Progress, ConvertError>, st: State, fuel: nat): (r: Result<State, ConvertError>)
    requires ValidArena(arena) && root < |arena|
    requires p.Ok? ==> InvariantOf(arena, p.value, st)
    ensures r.Ok? ==> r.value.caps == st.caps
    ensures r.Ok? && st.tabs >= 0 ==> r.value.tabs >= 0
    decreases fuel, 1
  {
    match p
    case Fail(e) => Fail(e)
    case Ok(Finished(s)) => Ok(s)
    case Ok(Running(next, s)) => Walk(arena, root, next, s, fuel)
  }

  /** `convert_function`: a null root is rejected; otherwise indent once and walk. */
  function ConvertFunction(arena: Arena, root: Option<nat>, st: State, fuel: nat): (r: Result<State, ConvertError>)
    requires ValidArena(arena) && LinkIn(root, |arena|)
    ensures root.None? ==> r == Fail(SyntaxError("Unable to convert NULL object."))
    ensures r.Ok? ==> r.value.caps == st.caps
    ensures r.Ok? && st.tabs >= -1 ==> r.value.tabs >= 0
  {
    if root.None? then Fail(SyntaxError("Unable to convert NULL object."))
    else Walk(arena, root.value, Cursor(root.value, true), st.(tabs := st.tabs + 1), fuel)
  }

  predicate ValidRoots(arena: Arena, roots: seq<Option<nat>>) {
    forall i :: 0 <= i < |roots| ==> LinkIn(roots[i], |arena|)
  }

  /** `convert_verify`: convert every function from index `funcIdx` on, in order; a
      negative start index fails on the first lookup. */
  function ConvertVerify(arena: Arena, roots: seq<Option<nat>>, funcIdx: int, st: State, fuel: nat): (r: Result<State, ConvertError>)
    requires ValidArena(arena) && ValidRoots(arena, roots)
    ensures funcIdx < 0 && |roots| > 0 ==> r == Fail(IndexOutOfBounds(funcIdx))
    ensures funcIdx >= |roots| ==> r == Ok(st)
    ensures r.Ok? ==> r.value.caps == st.caps
    decreases |roots| - funcIdx
  {
    if funcIdx >= |roots| then Ok(st)
    else if funcIdx < 0 then Fail(IndexOutOfBounds(funcIdx))
    else
      var st1 :- ConvertFunction(arena, roots[funcIdx], st, fuel);
      ConvertVerify(arena, roots, funcIdx + 1, st1, fuel)
  }
}
