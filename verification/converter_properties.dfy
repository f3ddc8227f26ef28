/**
  Golden-string and stack-effect properties of the code converter: what one node turns
  into given the fragments on the code stack, and what a whole function turns into.
 */
module CodeConverterProperties {
  import opened Results
  import opened Text
  import opened Ast
  import opened CodeConverter

  /** A node in a valid arena at index `i`, not ending a statement. */
  predicate Inner(arena: Arena, i: nat) {
    ValidArena(arena) && i < |arena| && !arena[i].endStmt
  }

  /** The code stack `after` is `before` with its top `consumed` fragments replaced by
      `pushed` new ones. */
  predicate StackEffect(before: seq<string>, after: seq<string>, consumed: nat, pushed: nat) {
    && |before| >= consumed
    && |after| == |before| - consumed + pushed
    && after[..|before| - consumed] == before[..|before| - consumed]
  }

  /** Popping then pushing composes: the fragments below both effects survive. */
  lemma StackEffectsCompose(a: seq<string>, b: seq<string>, c: seq<string>, m: nat, n: nat, pushed: nat)
    requires StackEffect(a, b, m, 0) && StackEffect(b, c, n, pushed)
    ensures StackEffect(a, c, m + n, pushed)
  {
    assert b[..|b| - n] == a[..|a| - m - n];
  }

  /** `convert_node` after the operands are popped. */
  lemma UnfoldConvertNode(arena: Arena, i: nat, st: State)
    requires ValidArena(arena) && i < |arena|
    ensures var p := GetNodeInputs(arena[i], st.code);
      ConvertNode(arena, Some(i), st)
        == if p.Fail? then Fail(p.error)
           else if arena[i].kind == CondElse then Ok(st.(code := p.value.rest))
           else EmitAndPush(arena, i, p.value, st)
  {
  }

  /** The switch and the push, one after the other. */
  lemma UnfoldEmitAndPush(arena: Arena, i: nat, p: Popped, st: State)
    requires ValidArena(arena) && i < |arena| && arena[i].kind != CondElse
    ensures var e := Emit(arena, i, p.fragments, p.rest, st.tabs, st.caps);
      EmitAndPush(arena, i, p, st) == if e.Fail? then Fail(e.error) else Push(e.value, arena[i], st.caps)
  {
  }

  /** Pushing adds exactly one fragment on top of the emitted stack. */
  lemma PushOne(e: Emitted, node: Node, caps: Capacities)
    requires Push(e, node, caps).Ok?
    ensures StackEffect(e.code, Push(e, node, caps).value.code, 0, 1)
  {
    var after := Push(e, node, caps).value.code;
    assert after[..|e.code|] == e.code;
  }

  /** `convert_node` pops exactly the fragments its kind consumes (CONDITIONAL its
      condition too) and pushes one fragment, none for COND_ELSE; whatever lay beneath
      is left as it was. */
  lemma ConvertNodeStackEffect(arena: Arena, i: nat, st: State)
    requires ValidArena(arena) && i < |arena|
    requires ConvertNode(arena, Some(i), st).Ok?
    ensures var k := arena[i].kind;
      StackEffect(st.code, ConvertNode(arena, Some(i), st).value.code, Consumed(k), if k == CondElse then 0 else 1)
  {
    var k := arena[i].kind;
    UnfoldConvertNode(arena, i, st);
    var p := GetNodeInputs(arena[i], st.code).value;
    assert StackEffect(st.code, p.rest, Arity(k), 0);
    if k != CondElse {
      UnfoldEmitAndPush(arena, i, p, st);
      var e := Emit(arena, i, p.fragments, p.rest, st.tabs, st.caps).value;
      var extra := if k == Conditional then 1 else 0;
      assert StackEffect(p.rest, e.code, extra, 0);
      PushOne(e, arena[i], st.caps);
      StackEffectsCompose(p.rest, e.code, Push(e, arena[i], st.caps).value.code, extra, 0, 1);
      StackEffectsCompose(st.code, p.rest, Push(e, arena[i], st.caps).value.code, Arity(k), extra, 1);
    }
  }

  /** `convert_node` for a node that is not a statement end, one stage at a time. */
  lemma UnfoldInner(arena: Arena, i: nat, st: State, p: Popped)
    requires Inner(arena, i) && arena[i].kind != CondElse
    requires GetNodeInputs(arena[i], st.code) == Ok(p)
    ensures var e := Emit(arena, i, p.fragments, p.rest, st.tabs, st.caps);
      ConvertNode(arena, Some(i), st)
        == if e.Fail? then Fail(e.error) else Ok(State(e.value.code + [e.value.text], e.value.tabs, st.caps))
  {
  }

  /** `Emit` for the kinds whose text depends only on the node and its operands. */
  lemma UnfoldOperator(arena: Arena, i: nat, f: Fragments, code: seq<string>, tabs: int, caps: Capacities)
    requires ValidArena(arena) && i < |arena|
    requires arena[i].kind !in {If, Else, Repeat, Conditional, Block, VarConst, VarExp, CondElse}
    ensures var t := OperatorText(arena[i], f);
      Emit(arena, i, f, code, tabs, caps)
        == if t.Fail? then Fail(t.error) else Ok(Emitted(t.value, code, tabs))
  {
  }

  /** The two fragments on top of the stack, right operand uppermost. */
  lemma PopTwo(node: Node, c: seq<string>, l: string, r: string)
    requires TakesTwo(node.kind)
    ensures GetNodeInputs(node, c + [l, r]) == Ok(Popped(Fragments(l, r), c))
  {
    assert (c + [l, r])[..|c|] == c;
  }

  /** Fragments for a kind that takes none. */
  lemma PopNone(node: Node, c: seq<string>)
    requires Arity(node.kind) == 0
    ensures GetNodeInputs(node, c) == Ok(Popped(Fragments(Null, Null), c))
  {
  }

  /** ADD..RSHIFT: `(L) op (R)`, with the right operand taken from the top of the stack. */
  lemma BinaryEmission(arena: Arena, i: nat, st: State, c: seq<string>, l: string, r: string)
    requires Inner(arena, i) && arena[i].kind.Binary? && IsPlainBinary(arena[i].kind.b)
    requires st.code == c + [l, r]
    ensures ConvertNode(arena, Some(i), st)
      == Ok(st.(code := c + ["(" + l + ") " + BinarySymbol(arena[i].kind.b) + " (" + r + ")"]))
  {
    PopTwo(arena[i], c, l, r);
    UnfoldOperator(arena, i, Fragments(l, r), c, st.tabs, st.caps);
    UnfoldInner(arena, i, st, Popped(Fragments(l, r), c));
  }

  /** Addition is emitted with `+` between its parenthesised operands. */
  lemma AddEmission(arena: Arena, i: nat, st: State, c: seq<string>, l: string, r: string)
    requires Inner(arena, i) && arena[i].kind == Binary(Add)
    requires st.code == c + [l, r]
    ensures ConvertNode(arena, Some(i), st) == Ok(st.(code := c + ["(" + l + ") + (" + r + ")"]))
  {
    BinaryEmission(arena, i, st, c, l, r);
    assert BinarySymbol(Add) == "+";
    assert "(" + l + ") " + "+" + " (" + r + ")" == "(" + l + ") + (" + r + ")";
  }

  /** DIV and MOD test the divisor for zero. */
  lemma DivisionEmission(arena: Arena, i: nat, st: State, c: seq<string>, l: string, r: string)
    requires Inner(arena, i) && arena[i].kind in {Binary(Div), Binary(Mod)}
    requires st.code == c + [l, r]
    ensures var op := if arena[i].kind == Binary(Div) then "/" else "%";
      ConvertNode(arena, Some(i), st)
        == Ok(st.(code := c + ["(((" + r + ") != 0) ? (" + l + ") " + op + " (" + r + ") : 0)"]))
  {
    var f := Fragments(l, r);
    PopTwo(arena[i], c, l, r);
    UnfoldOperator(arena, i, f, c, st.tabs, st.caps);
    UnfoldInner(arena, i, st, Popped(f, c));
  }

  /** DIV_ASSIGN and MOD_ASSIGN assign the same guarded quotient to the left operand. */
  lemma DivisionAssignEmission(arena: Arena, i: nat, st: State, c: seq<string>, l: string, r: string)
    requires Inner(arena, i) && arena[i].kind in {Assignment(DivAssign), Assignment(ModAssign)}
    requires st.code == c + [l, r]
    ensures var op := if arena[i].kind == Assignment(DivAssign) then "/" else "%";
      ConvertNode(arena, Some(i), st)
        == Ok(st.(code := c + [l + " = " + GuardedQuotient(l, op, r)]))
  {
    var f := Fragments(l, r);
    PopTwo(arena[i], c, l, r);
    UnfoldOperator(arena, i, f, c, st.tabs, st.caps);
    UnfoldInner(arena, i, st, Popped(f, c));
  }

  /** CONDITIONAL pops its two branches and then the condition beneath them. */
  lemma ConditionalEmission(arena: Arena, i: nat, st: State, c: seq<string>, cond: string, l: string, r: string)
    requires Inner(arena, i) && arena[i].kind == Conditional
    requires st.code == c + [cond, l, r]
    ensures ConvertNode(arena, Some(i), st)
      == Ok(st.(code := c + ["((" + cond + ") ? (" + l + ") : (" + r + "))"]))
  {
    PopTwo(arena[i], c + [cond], l, r);
    assert c + [cond, l, r] == (c + [cond]) + [l, r];
    UnfoldInner(arena, i, st, Popped(Fragments(l, r), c + [cond]));
  }

  /** COND_ELSE consumes nothing and pushes nothing. */
  lemma CondElseLeavesStack(arena: Arena, i: nat, st: State)
    requires ValidArena(arena) && i < |arena| && arena[i].kind == CondElse
    ensures ConvertNode(arena, Some(i), st) == Ok(st)
  {
    UnfoldConvertNode(arena, i, st);
    PopNone(arena[i], st.code);
  }

  /** A kind the converter has no rule for is rejected with its line number. */
  lemma UnknownKindRejected(arena: Arena, i: nat, st: State)
    requires ValidArena(arena) && i < |arena| && arena[i].kind == Unhandled
    ensures ConvertNode(arena, Some(i), st)
      == Fail(SyntaxError("Compiler Error: Unknown expression at Line: " + IntToString(arena[i].line)))
  {
    PopNone(arena[i], st.code);
    UnfoldOperator(arena, i, Fragments(Null, Null), st.code, st.tabs, st.caps);
  }

  /** Too few fragments on the stack is a syntax error naming the node's line, and
      nothing is emitted. */
  lemma UnderflowRejected(arena: Arena, i: nat, st: State)
    requires ValidArena(arena) && i < |arena| && |st.code| < Arity(arena[i].kind)
    ensures ConvertNode(arena, Some(i), st) == Fail(CorruptedStack(arena[i].line))
  {
  }

  /** VERIFY_POW rejoins its four arguments in push order and calls `check_pow` on them
      in the full-verification branch and in the fallback branch alike. */
  lemma VerifyPowEmission(arena: Arena, i: nat, st: State, c: seq<string>, a: string, b: string, d: string, e: string)
    requires Inner(arena, i) && arena[i].kind == VerifyPow
    requires st.code == c + [a, b, d, e]
    ensures var call := "ExposedToRhino.check_pow(" + a + "," + b + "," + d + "," + e + ", m, target)";
      ConvertNode(arena, Some(i), st) == Ok(st.(code := c + [
        "if (verify_pow == 1)\n\t\tpow_found = " + call + ";"
        + "\n\telse\n\t\t{ pow_found = 0; " + call + "; }"]))
  {
    var code := c + [a, b, d, e];
    assert code[..|code| - 4] == c;
    var f := Fragments(JoinArguments(a, b, d, e), Null);
    assert CheckPowCall(JoinArguments(a, b, d, e))
      == "ExposedToRhino.check_pow(" + a + "," + b + "," + d + "," + e + ", m, target)";
    assert GetNodeInputs(arena[i], code) == Ok(Popped(f, c));
    UnfoldOperator(arena, i, f, c, st.tabs, st.caps);
    UnfoldInner(arena, i, st, Popped(f, c));
  }

  /** A call to a function named "verify" in any letter case passes the verification
      flag and target; any other call passes nothing. */
  lemma CallEmission(arena: Arena, i: nat, st: State)
    requires Inner(arena, i) && arena[i].kind == CallFunction
    ensures var name := arena[i].svalue;
      && (EqualsIgnoreCase(name, "verify") ==>
            ConvertNode(arena, Some(i), st) == Ok(st.(code := st.code + [name + "(verify_pow, target)"])))
      && (!EqualsIgnoreCase(name, "verify") ==>
            ConvertNode(arena, Some(i), st) == Ok(st.(code := st.code + [name + "()"])))
  {
    PopNone(arena[i], st.code);
    UnfoldOperator(arena, i, Fragments(Null, Null), st.code, st.tabs, st.caps);
    UnfoldInner(arena, i, st, Popped(Fragments(Null, Null), st.code));
  }

  /** `Emit` for the two variable kinds. */
  lemma UnfoldVariable(arena: Arena, i: nat, f: Fragments, code: seq<string>, tabs: int, caps: Capacities)
    requires ValidArena(arena) && i < |arena| && arena[i].kind in {VarConst, VarExp}
    ensures var t := if arena[i].kind == VarConst then VarConstText(arena[i], caps)
                     else VarExpText(arena, i, f.lstr, tabs, caps);
      Emit(arena, i, f, code, tabs, caps)
        == if t.Fail? then Fail(t.error) else Ok(Emitted(t.value, code, tabs))
  {
  }

  /** VAR_CONST keeps an index below its array's capacity and replaces any other with 0;
      every unsigned array (u, m and s) uses the uint capacity. */
  lemma VarConstClamps(arena: Arena, i: nat, st: State, prefix: string, cap: int)
    requires Inner(arena, i) && arena[i].kind == VarConst
    requires ConstCell(arena[i], st.caps) == Ok((prefix, cap))
    ensures arena[i].dataType == DtUint ==> cap == st.caps.vmUints
    ensures arena[i].uvalue < cap ==>
      ConvertNode(arena, Some(i), st)
        == Ok(st.(code := st.code + [prefix + "[" + IntToString(arena[i].uvalue) + "]"]))
    ensures arena[i].uvalue >= cap ==>
      ConvertNode(arena, Some(i), st) == Ok(st.(code := st.code + [prefix + "[0]"]))
  {
    PopNone(arena[i], st.code);
    UnfoldVariable(arena, i, Fragments(Null, Null), st.code, st.tabs, st.caps);
    UnfoldInner(arena, i, st, Popped(Fragments(Null, Null), st.code));
    assert IntToString(0) == "0";
    assert prefix + "[" + "0" + "]" == prefix + "[0]";
  }

  /** A VAR_CONST of none of the six value types is rejected. */
  lemma VarConstInvalidType(arena: Arena, i: nat, st: State)
    requires ValidArena(arena) && i < |arena|
    requires arena[i].kind == VarConst && arena[i].dataType == DtOther
    ensures ConvertNode(arena, Some(i), st)
      == Fail(SyntaxError("Compiler Error: Invalid variable at Line: " + IntToString(arena[i].line)))
  {
    PopNone(arena[i], st.code);
    UnfoldVariable(arena, i, Fragments(Null, Null), st.code, st.tabs, st.caps);
  }

  /** VAR_EXP with a computed index: as the left child of a statement it guards the
      whole statement with the bounds test; anywhere else the index is clamped in place. */
  lemma VarExpEmission(arena: Arena, i: nat, st: State, c: seq<string>, l: string,
                       prefix: string, cap: int, clampsIndent: bool)
    requires Inner(arena, i) && arena[i].kind == VarExp && arena[i].parent.Some?
    requires st.code == c + [l]
    requires ExpCell(arena[i], st.caps) == Ok((prefix, cap, clampsIndent))
    requires 0 <= st.tabs < 8
    ensures var p := arena[arena[i].parent.value];
      && (p.endStmt && p.left == Some(i) ==>
            ConvertNode(arena, Some(i), st) == Ok(st.(code := c + [
              "if((" + l + ") < " + IntToString(cap) + ")\n\t" + Tabs(st.tabs) + prefix + "[" + l + "]"])))
      && (!(p.endStmt && p.left == Some(i)) ==>
            ConvertNode(arena, Some(i), st) == Ok(st.(code := c + [
              prefix + "[(((" + l + ") < " + IntToString(cap) + ") ? " + l + " : 0)]"])))
  {
    assert (c + [l])[..|c|] == c;
    assert GetNodeInputs(arena[i], st.code) == Ok(Popped(Fragments(l, Null), c));
    UnfoldVariable(arena, i, Fragments(l, Null), c, st.tabs, st.caps);
    UnfoldInner(arena, i, st, Popped(Fragments(l, Null), c));
  }

  /** The storage form alone indexes the tab table with the raw indentation, so a
      negative indentation fails there while every other array clamps it to 0. */
  lemma StorageTargetUnclamped(arena: Arena, i: nat, st: State, prefix: string, cap: int, clampsIndent: bool)
    requires Inner(arena, i) && arena[i].kind == VarExp && arena[i].parent.Some?
    requires |st.code| >= 1 && st.tabs < 0
    requires arena[arena[i].parent.value].endStmt && arena[arena[i].parent.value].left == Some(i)
    requires ExpCell(arena[i], st.caps) == Ok((prefix, cap, clampsIndent))
    ensures prefix == "s" <==> !clampsIndent
    ensures !clampsIndent <==> ConvertNode(arena, Some(i), st) == Fail(IndexOutOfBounds(st.tabs))
  {
    var c := st.code[..|st.code| - 1];
    var l := st.code[|st.code| - 1];
    assert GetNodeInputs(arena[i], st.code) == Ok(Popped(Fragments(l, Null), c));
    UnfoldVariable(arena, i, Fragments(l, Null), c, st.tabs, st.caps);
    UnfoldInner(arena, i, st, Popped(Fragments(l, Null), c));
  }

  /** A node whose text depends only on its operands pushes that text, indented and
      terminated by ";\n" exactly when the node ends a statement. */
  lemma StatementTerminated(arena: Arena, i: nat, st: State)
    requires ValidArena(arena) && i < |arena| && 0 <= st.tabs < 8
    requires arena[i].kind !in {If, Else, Repeat, Conditional, Block, VarConst, VarExp, CondElse, Function}
    ensures var p := GetNodeInputs(arena[i], st.code);
      var text := if p.Ok? then OperatorText(arena[i], p.value.fragments) else Fail(p.error);
      ConvertNode(arena, Some(i), st)
        == if text.Fail? then Fail(text.error)
           else Ok(st.(code := p.value.rest
                     + [if arena[i].endStmt then Tabs(st.tabs) + text.value + ";\n" else text.value]))
  {
    UnfoldConvertNode(arena, i, st);
    var p := GetNodeInputs(arena[i], st.code);
    if p.Ok? {
      UnfoldEmitAndPush(arena, i, p.value, st);
      UnfoldOperator(arena, i, p.value.fragments, p.value.rest, st.tabs, st.caps);
      var text := OperatorText(arena[i], p.value.fragments);
      if text.Ok? {
        PushText(Emitted(text.value, p.value.rest, st.tabs), arena[i], st.caps);
      }
    }
  }

  /** What `Push` adds: the text itself, or the indented statement. */
  lemma PushText(e: Emitted, node: Node, caps: Capacities)
    requires 0 <= e.tabs < 8
    ensures Push(e, node, caps)
      == Ok(State(e.code + [if Terminates(node) then Tabs(e.tabs) + e.text + ";\n" else e.text], e.tabs, caps))
  {
  }

  // ---------------------------------------------------------------------------
  // The list of functions
  // ---------------------------------------------------------------------------

  /** One function of `convert_verify`'s loop, then the rest. */
  lemma ConvertVerifyUnfold(arena: Arena, roots: seq<Option<nat>>, funcIdx: int, st: State, fuel: nat)
    requires ValidArena(arena) && ValidRoots(arena, roots) && 0 <= funcIdx < |roots|
    ensures var first := ConvertFunction(arena, roots[funcIdx], st, fuel);
      ConvertVerify(arena, roots, funcIdx, st, fuel)
        == if first.Fail? then Fail(first.error) else ConvertVerify(arena, roots, funcIdx + 1, first.value, fuel)
  {
  }

  lemma ValidRootsAppend(arena: Arena, roots: seq<Option<nat>>, root: Option<nat>)
    requires ValidRoots(arena, roots) && LinkIn(root, |arena|)
    ensures ValidRoots(arena, roots + [root])
  {
  }

  /** Converting a list of functions is converting all but the last, then the last. */
  lemma {:induction false} ConvertVerifyAppend(arena: Arena, roots: seq<Option<nat>>, root: Option<nat>,
                                               funcIdx: int, st: State, fuel: nat)
    requires ValidArena(arena) && ValidRoots(arena, roots) && LinkIn(root, |arena|)
    requires 0 <= funcIdx <= |roots|
    ensures ValidRoots(arena, roots + [root])
    ensures var before := ConvertVerify(arena, roots, funcIdx, st, fuel);
      ConvertVerify(arena, roots + [root], funcIdx, st, fuel)
        == if before.Fail? then before else ConvertFunction(arena, root, before.value, fuel)
    decreases |roots| - funcIdx
  {
    var all := roots + [root];
    ValidRootsAppend(arena, roots, root);
    ConvertVerifyUnfold(arena, all, funcIdx, st, fuel);
    if funcIdx < |roots| {
      assert all[funcIdx] == roots[funcIdx];
      ConvertVerifyUnfold(arena, roots, funcIdx, st, fuel);
      var next := ConvertFunction(arena, roots[funcIdx], st, fuel);
      if next.Ok? {
        ConvertVerifyAppend(arena, roots, root, funcIdx + 1, next.value, fuel);
      }
    } else {
      assert all[funcIdx] == root;
      ConvertVerifyDone(arena, all, funcIdx + 1, ConvertFunction(arena, root, st, fuel), fuel);
    }
  }

  lemma ConvertVerifyDone(arena: Arena, roots: seq<Option<nat>>, funcIdx: int, r: Result<State, ConvertError>, fuel: nat)
    requires ValidArena(arena) && ValidRoots(arena, roots) && funcIdx >= |roots|
    ensures (if r.Fail? then Fail(r.error) else ConvertVerify(arena, roots, funcIdx, r.value, fuel)) == r
  {
  }

  /** A plain assignment that ends a statement: the target and value are popped and
      `target = value;` is pushed on a line of its own at the current indentation. */
  lemma AssignStatement(arena: Arena, i: nat, st: State, c: seq<string>, l: string, r: string)
    requires ValidArena(arena) && i < |arena| && arena[i].kind == Assignment(Assign) && arena[i].endStmt
    requires 0 <= st.tabs < 8 && st.code == c + [l, r]
    ensures ConvertNode(arena, Some(i), st) == Ok(st.(code := c + [Tabs(st.tabs) + l + " = " + r + ";\n"]))
  {
    PopTwo(arena[i], c, l, r);
    UnfoldOperator(arena, i, Fragments(l, r), c, st.tabs, st.caps);
    assert OperatorText(arena[i], Fragments(l, r)) == Ok(l + " " + "=" + " " + r);
    UnfoldStatement(arena, i, st, Popped(Fragments(l, r), c));
    assert Tabs(st.tabs) + (l + " " + "=" + " " + r) + ";\n" == Tabs(st.tabs) + l + " = " + r + ";\n";
  }

  /** A statement-ending node, one stage at a time. */
  lemma UnfoldStatement(arena: Arena, i: nat, st: State, p: Popped)
    requires ValidArena(arena) && i < |arena| && Terminates(arena[i]) && arena[i].kind != CondElse
    requires GetNodeInputs(arena[i], st.code) == Ok(p)
    ensures var e := Emit(arena, i, p.fragments, p.rest, st.tabs, st.caps);
      ConvertNode(arena, Some(i), st)
        == if e.Fail? then Fail(e.error)
           else if Indent(e.value.tabs).Fail? then Fail(Indent(e.value.tabs).error)
           else Ok(State(e.value.code + [Indent(e.value.tabs).value + e.value.text + ";\n"], e.value.tabs, st.caps))
  {
  }

  /** One step of the walk, then the rest. */
  lemma WalkUnfold(arena: Arena, root: nat, c: Cursor, st: State, fuel: nat, next: Cursor, s: State)
    requires ValidArena(arena) && root < |arena| && c.ptr < |arena| && fuel >= 1
    requires WalkStep(arena, root, c, st) == Ok(Running(next, s))
    ensures next.ptr < |arena|
    ensures Walk(arena, root, c, st, fuel) == Walk(arena, root, next, s, fuel - 1)
  {
  }

  /** Moving down onto a left child, which indents nothing here. */
  lemma StepLeft(arena: Arena, root: nat, p: nat, st: State)
    requires ValidArena(arena) && root < |arena| && p < |arena| && arena[p].left.Some?
    requires !IndentsBody(arena[arena[p].left.value].kind)
    ensures WalkStep(arena, root, Cursor(p, true), st) == Ok(Running(Cursor(arena[p].left.value, true), st))
  {
  }

  /** Moving up from a left child to its parent's right child, under a parent that
      opens no scope. */
  lemma StepAcross(arena: Arena, root: nat, p: nat, st: State)
    requires ValidArena(arena) && root < |arena| && p < |arena|
    requires arena[p].parent.Some? && arena[p].parent != Some(root)
    requires var q := arena[p].parent.value;
      (arena[q].left == Some(p) && arena[q].right.Some?
       && arena[arena[q].right.value].parent == Some(q) && !OpensScope(arena[q].kind))
    ensures WalkStep(arena, root, Cursor(p, false), st)
      == Ok(Running(Cursor(arena[arena[p].parent.value].right.value, true), st))
  {
  }

  /** Moving up onto a parent whose subtree is finished, which converts it. */
  lemma StepUp(arena: Arena, root: nat, p: nat, st: State)
    requires ValidArena(arena) && root < |arena| && p < |arena|
    requires arena[p].parent.Some? && arena[p].parent != Some(root)
    requires var q := arena[p].parent.value;
      (arena[q].left != Some(p) || arena[q].right.None?) && !OpensScope(arena[q].kind) && arena[q].kind != Block
    ensures var q := arena[p].parent.value;
      var r := ConvertNode(arena, Some(q), st);
      WalkStep(arena, root, Cursor(p, false), st)
        == if r.Fail? then Fail(r.error) else Ok(Running(Cursor(q, false), r.value))
  {
  }

  /** The walk ends on reaching a child of the root from below. */
  lemma StepDone(arena: Arena, root: nat, p: nat, st: State)
    requires ValidArena(arena) && root < |arena| && p < |arena| && arena[p].parent == Some(root)
    ensures Walk(arena, root, Cursor(p, false), st, 1) == Ok(st)
  {
  }

  /** A walk out of fuel fails. */
  lemma WalkNeedsFuel(arena: Arena, root: nat, c: Cursor, st: State, fuel: nat)
    requires ValidArena(arena) && root < |arena| && c.ptr < |arena|
    ensures Walk(arena, root, c, st, fuel).Ok? ==> fuel >= 1
  {
  }

  /** With fuel left, the walk is one step and then the rest. */
  lemma WalkResumes(arena: Arena, root: nat, c: Cursor, st: State, fuel: nat)
    requires ValidArena(arena) && root < |arena| && c.ptr < |arena| && fuel >= 1
    ensures Walk(arena, root, c, st, fuel) == Resume(arena, root, WalkStep(arena, root, c, st), st, fuel - 1)
  {
  }

  /** After a step that keeps running, the walk goes on from where it left off. */
  lemma ResumeRuns(arena: Arena, root: nat, c: Cursor, s: State, st: State, fuel: nat)
    requires ValidArena(arena) && root < |arena| && InvariantOf(arena, Running(c, s), st)
    ensures Resume(arena, root, Ok(Running(c, s)), st, fuel) == Walk(arena, root, c, s, fuel)
  {
  }

  /** Once the walk finishes, more fuel changes nothing: the bound only cuts off walks
      that do not finish. */
  lemma {:induction false} ResumeFuelIrrelevant(arena: Arena, root: nat, p: Result<Progress, ConvertError>, st: State,
                                                fuel: nat, more: nat)
    requires ValidArena(arena) && root < |arena|
    requires p.Ok? ==> InvariantOf(arena, p.value, st)
    requires Resume(arena, root, p, st, fuel).Ok?
    requires fuel <= more
    ensures Resume(arena, root, p, st, more) == Resume(arena, root, p, st, fuel)
    decreases fuel
  {
    if p.Ok? && p.value.Running? {
      var next, s := p.value.cursor, p.value.state;
      ResumeRuns(arena, root, next, s, st, fuel);
      ResumeRuns(arena, root, next, s, st, more);
      WalkNeedsFuel(arena, root, next, s, fuel);
      WalkResumes(arena, root, next, s, fuel);
      WalkResumes(arena, root, next, s, more);
      ResumeFuelIrrelevant(arena, root, WalkStep(arena, root, next, s), s, fuel - 1, more - 1);
    }
  }

  /** The same for a whole walk. */
  lemma WalkFuelIrrelevant(arena: Arena, root: nat, c: Cursor, st: State, fuel: nat, more: nat)
    requires ValidArena(arena) && root < |arena| && c.ptr < |arena|
    requires Walk(arena, root, c, st, fuel).Ok?
    requires fuel <= more
    ensures Walk(arena, root, c, st, more) == Walk(arena, root, c, st, fuel)
  {
    ResumeRuns(arena, root, c, st, st, fuel);
    ResumeRuns(arena, root, c, st, st, more);
    ResumeFuelIrrelevant(arena, root, Ok(Running(c, st)), st, fuel, more);
  }

  // ---------------------------------------------------------------------------
  // A worked example: main() { i[a] = i[b] + i[c]; }
  // ---------------------------------------------------------------------------

  /** A FUNCTION node converts to its header line, never terminated as a statement. */
  lemma FunctionHeader(arena: Arena, i: nat, st: State)
    requires ValidArena(arena) && i < |arena| && arena[i].kind == Function
    ensures ConvertNode(arena, Some(i), st)
      == Ok(st.(code := st.code + ["function " + arena[i].svalue + "() {\n"]))
  {
    PopNone(arena[i], st.code);
    UnfoldConvertNode(arena, i, st);
    UnfoldEmitAndPush(arena, i, Popped(Fragments(Null, Null), st.code), st);
    UnfoldOperator(arena, i, Fragments(Null, Null), st.code, st.tabs, st.caps);
  }

  /** The BLOCK that is a function's body converts to its unindented closing bracket. */
  lemma FunctionBlockCloses(arena: Arena, i: nat, st: State)
    requires ValidArena(arena) && i < |arena| && arena[i].kind == Block
    requires arena[i].parent.Some? && arena[arena[i].parent.value].kind == Function
    ensures ConvertNode(arena, Some(i), st) == Ok(st.(code := st.code + ["}\n"]))
  {
    PopNone(arena[i], st.code);
    UnfoldConvertNode(arena, i, st);
    UnfoldEmitAndPush(arena, i, Popped(Fragments(Null, Null), st.code), st);
  }

  /** Moving down onto a function with no left child: its header is pushed and the walk
      moves on to its body. */
  lemma StepHeader(arena: Arena, root: nat, p: nat, st: State)
    requires ValidArena(arena) && root < |arena| && p < |arena| && arena[p].kind == Function
    requires arena[p].left.None? && arena[p].right.Some?
    ensures WalkStep(arena, root, Cursor(p, true), st)
      == Ok(Running(Cursor(arena[p].right.value, true),
                    st.(code := st.code + ["function " + arena[p].svalue + "() {\n"])))
  {
    FunctionHeader(arena, p, st);
  }

  /** Moving up onto a function's body once its statements are done: the closing
      bracket is pushed. */
  lemma StepCloseBody(arena: Arena, root: nat, p: nat, st: State)
    requires ValidArena(arena) && root < |arena| && p < |arena|
    requires arena[p].parent.Some? && arena[p].parent != Some(root)
    requires var q := arena[p].parent.value;
      (arena[q].left != Some(p) || arena[q].right.None?) && arena[q].kind == Block
      && arena[q].parent.Some? && arena[arena[q].parent.value].kind == Function
    ensures WalkStep(arena, root, Cursor(p, false), st)
      == Ok(Running(Cursor(arena[p].parent.value, false), st.(code := st.code + ["}\n"])))
  {
    FunctionBlockCloses(arena, arena[p].parent.value, st);
  }

  function Leaf(kind: NodeKind, parent: nat, index: int): Node {
    Node(kind, DtInt, None, None, Some(parent), "", 0, index, "", 0, 1, false, false, false, false)
  }

  /** The tree of `main() { i[a] = i[b] + i[c]; }`: the function node has its body
      BLOCK on the right, the assignment statement hangs to the left of the BLOCK, its
      target to the left of it and the sum to the right. */
  predicate SumShape(t: Arena, a: int, b: int, c: int) {
    && ValidArena(t) && |t| == 7
    && t[0] == Node(Function, DtOther, None, Some(1), None, "main", 0, 0, "", 0, 1, false, false, false, false)
    && t[1] == Node(Block, DtOther, Some(2), None, Some(0), "", 0, 0, "", 0, 1, false, false, false, false)
    && t[2] == Node(Assignment(Assign), DtInt, Some(3), Some(4), Some(1), "", 0, 0, "", 0, 1, true, false, false, false)
    && t[3] == Leaf(VarConst, 2, a)
    && t[4] == Node(Binary(Add), DtInt, Some(5), Some(6), Some(2), "", 0, 0, "", 0, 1, false, false, false, false)
    && t[5] == Leaf(VarConst, 4, b)
    && t[6] == Leaf(VarConst, 4, c)
  }

  function SumTree(a: int, b: int, c: int): (t: Arena)
    ensures SumShape(t, a, b, c)
  {
    [ Node(Function, DtOther, None, Some(1), None, "main", 0, 0, "", 0, 1, false, false, false, false),
      Node(Block, DtOther, Some(2), None, Some(0), "", 0, 0, "", 0, 1, false, false, false, false),
      Node(Assignment(Assign), DtInt, Some(3), Some(4), Some(1), "", 0, 0, "", 0, 1, true, false, false, false),
      Leaf(VarConst, 2, a),
      Node(Binary(Add), DtInt, Some(5), Some(6), Some(2), "", 0, 0, "", 0, 1, false, false, false, false),
      Leaf(VarConst, 4, b),
      Leaf(VarConst, 4, c)]
  }

  const MainHeader: string := "function main() {\n"

  function Cell(index: int): string {
    "i[" + IntToString(index) + "]"
  }

  /** A `VarConst` leaf is pushed on the way back up. */
  lemma SumLeaf(t: Arena, i: nat, st: State)
    requires ValidArena(t) && i < |t| && t[i].kind == VarConst && t[i].dataType == DtInt
    requires t[i].left.None? && t[i].right.None? && !t[i].endStmt && t[i].parent.Some?
    requires 0 <= t[i].uvalue < st.caps.vmInts
    ensures WalkStep(t, 0, Cursor(i, true), st)
      == Ok(Running(Cursor(i, false), st.(code := st.code + [Cell(t[i].uvalue)])))
  {
    VarConstClamps(t, i, st, "i", st.caps.vmInts);
    assert "i" + "[" + IntToString(t[i].uvalue) + "]" == Cell(t[i].uvalue);
  }

  /** Into the function: the header is pushed and the walk moves on to the BLOCK. */
  lemma SumHeaderStep(t: Arena, a: int, b: int, c: int, caps: Capacities)
    requires SumShape(t, a, b, c)
    ensures WalkStep(t, 0, Cursor(0, true), State([], 1, caps))
      == Ok(Running(Cursor(1, true), State([MainHeader], 1, caps)))
  {
    var s1 := State([], 1, caps);
    assert t[0].right == Some(1) && t[0].svalue == "main";
    StepHeader(t, 0, 0, s1);
    assert "function " + t[0].svalue + "() {\n" == MainHeader;
    assert s1.(code := s1.code + [MainHeader]) == State([MainHeader], 1, caps);
  }

  /** ... and through the BLOCK onto the statement. */
  lemma SumHeader(t: Arena, a: int, b: int, c: int, caps: Capacities)
    requires SumShape(t, a, b, c)
    ensures Walk(t, 0, Cursor(0, true), State([], 1, caps), 13)
      == Walk(t, 0, Cursor(2, true), State([MainHeader], 1, caps), 11)
  {
    var s2 := State([MainHeader], 1, caps);
    SumHeaderStep(t, a, b, c, caps);
    WalkUnfold(t, 0, Cursor(0, true), State([], 1, caps), 13, Cursor(1, true), s2);
    StepLeft(t, 0, 1, s2);
    WalkUnfold(t, 0, Cursor(1, true), s2, 12, Cursor(2, true), s2);
  }

  /** Down the left spine of the statement: the target cell is pushed and the walk
      crosses to the addition. */
  lemma SumTarget(t: Arena, a: int, b: int, c: int, caps: Capacities)
    requires SumShape(t, a, b, c) && 0 <= a < caps.vmInts
    ensures var s2 := State([MainHeader], 1, caps);
      Walk(t, 0, Cursor(2, true), s2, 11) == Walk(t, 0, Cursor(4, true), s2.(code := [MainHeader, Cell(a)]), 8)
  {
    var s2 := State([MainHeader], 1, caps);
    var s3 := s2.(code := [MainHeader, Cell(a)]);
    StepLeft(t, 0, 2, s2);
    WalkUnfold(t, 0, Cursor(2, true), s2, 11, Cursor(3, true), s2);
    SumLeaf(t, 3, s2);
    assert s2.(code := s2.code + [Cell(a)]) == s3;
    WalkUnfold(t, 0, Cursor(3, true), s2, 10, Cursor(3, false), s3);
    StepAcross(t, 0, 3, s3);
    WalkUnfold(t, 0, Cursor(3, false), s3, 9, Cursor(4, true), s3);
  }

  /** Through the operands of the addition: both cells are pushed. */
  lemma SumOperands(t: Arena, a: int, b: int, c: int, caps: Capacities)
    requires SumShape(t, a, b, c) && 0 <= b < caps.vmInts && 0 <= c < caps.vmInts
    ensures var s3 := State([MainHeader, Cell(a)], 1, caps);
      Walk(t, 0, Cursor(4, true), s3, 8)
        == Walk(t, 0, Cursor(6, false), s3.(code := [MainHeader, Cell(a), Cell(b), Cell(c)]), 4)
  {
    var s3 := State([MainHeader, Cell(a)], 1, caps);
    var s4 := s3.(code := [MainHeader, Cell(a), Cell(b)]);
    var s5 := s3.(code := [MainHeader, Cell(a), Cell(b), Cell(c)]);
    StepLeft(t, 0, 4, s3);
    WalkUnfold(t, 0, Cursor(4, true), s3, 8, Cursor(5, true), s3);
    SumLeaf(t, 5, s3);
    assert s3.(code := s3.code + [Cell(b)]) == s4;
    WalkUnfold(t, 0, Cursor(5, true), s3, 7, Cursor(5, false), s4);
    StepAcross(t, 0, 5, s4);
    WalkUnfold(t, 0, Cursor(5, false), s4, 6, Cursor(6, true), s4);
    SumLeaf(t, 6, s4);
    assert s4.(code := s4.code + [Cell(c)]) == s5;
    WalkUnfold(t, 0, Cursor(6, true), s4, 5, Cursor(6, false), s5);
  }

  /** Back up onto the addition: the sum replaces its operands. */
  lemma SumAddStep(t: Arena, a: int, b: int, c: int, caps: Capacities)
    requires SumShape(t, a, b, c)
    ensures var sum := "(" + Cell(b) + ") + (" + Cell(c) + ")";
      WalkStep(t, 0, Cursor(6, false), State([MainHeader, Cell(a), Cell(b), Cell(c)], 1, caps))
        == Ok(Running(Cursor(4, false), State([MainHeader, Cell(a), sum], 1, caps)))
  {
    var s5 := State([MainHeader, Cell(a), Cell(b), Cell(c)], 1, caps);
    var sum := "(" + Cell(b) + ") + (" + Cell(c) + ")";
    assert s5.code == [MainHeader, Cell(a)] + [Cell(b), Cell(c)];
    AddEmission(t, 4, s5, [MainHeader, Cell(a)], Cell(b), Cell(c));
    assert s5.(code := [MainHeader, Cell(a)] + [sum]) == State([MainHeader, Cell(a), sum], 1, caps);
    StepUp(t, 0, 6, s5);
  }

  lemma SumAdded(t: Arena, a: int, b: int, c: int, caps: Capacities)
    requires SumShape(t, a, b, c)
    ensures var sum := "(" + Cell(b) + ") + (" + Cell(c) + ")";
      Walk(t, 0, Cursor(6, false), State([MainHeader, Cell(a), Cell(b), Cell(c)], 1, caps), 4)
        == Walk(t, 0, Cursor(4, false), State([MainHeader, Cell(a), sum], 1, caps), 3)
  {
    var sum := "(" + Cell(b) + ") + (" + Cell(c) + ")";
    SumAddStep(t, a, b, c, caps);
    WalkUnfold(t, 0, Cursor(6, false), State([MainHeader, Cell(a), Cell(b), Cell(c)], 1, caps), 4,
               Cursor(4, false), State([MainHeader, Cell(a), sum], 1, caps));
  }

  /** Back up onto the assignment: the statement replaces the target and the sum. */
  lemma SumAssignStep(t: Arena, a: int, b: int, c: int, caps: Capacities, sum: string)
    requires SumShape(t, a, b, c)
    ensures WalkStep(t, 0, Cursor(4, false), State([MainHeader, Cell(a), sum], 1, caps))
      == Ok(Running(Cursor(2, false), State([MainHeader, "\t" + Cell(a) + " = " + sum + ";\n"], 1, caps)))
  {
    var s6 := State([MainHeader, Cell(a), sum], 1, caps);
    assert s6.code == [MainHeader] + [Cell(a), sum];
    AssignStatement(t, 2, s6, [MainHeader], Cell(a), sum);
    assert Tabs(1) == "\t";
    assert s6.(code := [MainHeader] + [Tabs(1) + Cell(a) + " = " + sum + ";\n"])
      == State([MainHeader, "\t" + Cell(a) + " = " + sum + ";\n"], 1, caps);
    StepUp(t, 0, 4, s6);
  }

  lemma SumAssigned(t: Arena, a: int, b: int, c: int, caps: Capacities, sum: string)
    requires SumShape(t, a, b, c)
    ensures Walk(t, 0, Cursor(4, false), State([MainHeader, Cell(a), sum], 1, caps), 3)
      == Walk(t, 0, Cursor(2, false), State([MainHeader, "\t" + Cell(a) + " = " + sum + ";\n"], 1, caps), 2)
  {
    SumAssignStep(t, a, b, c, caps, sum);
    WalkUnfold(t, 0, Cursor(4, false), State([MainHeader, Cell(a), sum], 1, caps), 3,
               Cursor(2, false), State([MainHeader, "\t" + Cell(a) + " = " + sum + ";\n"], 1, caps));
  }

  /** Back up onto the body: the closing bracket is pushed and the walk ends below the
      function node. */
  lemma SumClosed(t: Arena, a: int, b: int, c: int, caps: Capacities, stmt: string)
    requires SumShape(t, a, b, c)
    ensures Walk(t, 0, Cursor(2, false), State([MainHeader, stmt], 1, caps), 2)
      == Ok(State([MainHeader, stmt, "}\n"], 1, caps))
  {
    var s7 := State([MainHeader, stmt], 1, caps);
    var s8 := State([MainHeader, stmt, "}\n"], 1, caps);
    StepCloseBody(t, 0, 2, s7);
    assert s7.(code := s7.code + ["}\n"]) == s8;
    WalkUnfold(t, 0, Cursor(2, false), s7, 2, Cursor(1, false), s8);
    StepDone(t, 0, 1, s8);
  }

  /** `main() { i[a] = i[b] + i[c]; }` converts to its header, the assignment indented
      once from an indentation of 0, and the closing bracket; the indentation is left
      at 1. */
  lemma SumConverts(a: int, b: int, c: int, caps: Capacities)
    requires 0 <= a < caps.vmInts && 0 <= b < caps.vmInts && 0 <= c < caps.vmInts
    ensures ConvertFunction(SumTree(a, b, c), Some(0), State([], 0, caps), 13)
      == Ok(State(["function main() {\n",
                   "\t" + Cell(a) + " = (" + Cell(b) + ") + (" + Cell(c) + ");\n",
                   "}\n"], 1, caps))
  {
    var t := SumTree(a, b, c);
    var sum := "(" + Cell(b) + ") + (" + Cell(c) + ")";
    SumHeader(t, a, b, c, caps);
    SumTarget(t, a, b, c, caps);
    SumOperands(t, a, b, c, caps);
    SumAdded(t, a, b, c, caps);
    SumAssigned(t, a, b, c, caps, sum);
    SumClosed(t, a, b, c, caps, "\t" + Cell(a) + " = " + sum + ";\n");
    SumText(b, c, "\t" + Cell(a));
  }

  lemma SumText(b: int, c: int, head: string)
    ensures head + " = " + ("(" + Cell(b) + ") + (" + Cell(c) + ")") + ";\n"
      == head + " = (" + Cell(b) + ") + (" + Cell(c) + ");\n"
  {
  }
}
