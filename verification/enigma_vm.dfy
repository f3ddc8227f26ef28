/**
  The Enigma bytecode interpreter (EnigmaVM.java): one step of a program, and the
  driver that steps until the program says it has stopped.

  EnigmaProgram, EnigmaOpCode and Convert are not part of this model. What the
  interpreter needs from them appears here as follows:
  - the program state is a value: code bytes, instruction pointer, value stack and
    typed memory; `stepForward` moves the pointer one byte on;
  - when a program counts as stopped is decided by the host, given as `isStopped`;
  - the opcode table (which byte is which opcode, and how many stack inputs each
    declares) is given as `table`;
  - reading the current byte past the end of the code, and sweeping more bytes than
    are left, raise `EndOfCode`;
  - `Convert.truncate(b, 32)` keeps the last four bytes, and `Convert.bytesToInt` reads
    up to four bytes big-endian as a signed 32-bit value;
  - `Convert.nullToEmptyPacked(b, 8)`, which turns the swept bytes of PUSHDATA into
    the pushed element's content, is given as `pack`;
  - `sweepNextOperations(n)` returns the next `n` bytes of code and moves the pointer
    past them, so PUSHDATA needs no `stepForward` after it;
  - memory maps a target and a key to the bytes last stored there; a load pushes
    those bytes (none when nothing was stored) tagged with the target.
 */
module EnigmaVM {
  import opened Words
  import opened Results

  /** A Java `byte`. */
  type JByte = b: int | -128 <= b < 128

  /** The typed memory arrays (EnigmaProgram.MEM_TARGET_GET); `M` can only be read. */
  datatype MemTarget = MI | MU | ML | MUL | MF | MD | MM

  /** The targets a store can write (EnigmaProgram.MEM_TARGET_STORE). */
  type StoreTarget = t: MemTarget | t != MM witness MI

  /** What the interpreter does for an opcode; `Unhandled` is every opcode the switch
      has no case for. */
  datatype OpKind = Store(target: StoreTarget) | Load(source: MemTarget) | PushData | Unhandled

  /** One entry of the opcode table: its printed name, its behaviour and the number of
      stack elements it declares as inputs. */
  datatype OpInfo = OpInfo(name: string, kind: OpKind, inputs: nat)

  /** A stack element: its bytes and its type tag (`None` is Java's `null`, unknown). */
  datatype StackElement = StackElement(content: seq<JByte>, tag: Option<MemTarget>)

  datatype Program = Program(
    code: seq<JByte>,
    ip: nat,
    stack: seq<StackElement>,
    memory: map<(MemTarget, int), seq<JByte>>)

  /** The interpreter's environment. */
  datatype Machine = Machine(table: map<JByte, OpInfo>, isStopped: Program -> bool,
                             pack: seq<JByte> -> seq<JByte>)

  datatype VmError =
    | UnknownOpcode(op: JByte)
    | StackUnderflow(name: string, needed: nat, found: nat)
    | PushTooLong
    | PushTooShort
    | EmptyStack
    | EndOfCode(at: nat)

  /** The result of one step. An exception leaves the program as it was when the
      exception was thrown, which need not be as it was before the step. */
  datatype Outcome = Stepped(prog: Program) | Raised(error: VmError, prog: Program)

  // ---------------------------------------------------------------------------
  // Bytes
  // ---------------------------------------------------------------------------

  /** The byte's bit pattern read as unsigned. */
  function Unsigned(b: JByte): (u: nat)
    ensures u < 256
  {
    if b < 0 then b + 256 else b
  }

  function Radix(k: nat): (r: nat)
    ensures r >= 1
  {
    if k == 0 then 1 else 256 * Radix(k - 1)
  }

  /** The bytes as an unsigned big-endian number. */
  function BigEndian(bs: seq<JByte>): (v: nat)
    ensures v < Radix(|bs|)
  {
    if |bs| == 0 then 0
    else
      var v := BigEndian(bs[..|bs| - 1]);
      PlaceValueBound(v, Unsigned(bs[|bs| - 1]), Radix(|bs| - 1), 256);
      v * 256 + Unsigned(bs[|bs| - 1])
  }

  /** A byte with the given unsigned value. */
  function ToByte(u: nat): (b: JByte)
    requires u < 256
    ensures Unsigned(b) == u
  {
    if u >= 128 then u - 256 else u
  }

  /** `v` as `n` big-endian bytes. */
  function Encode(v: nat, n: nat): (bs: seq<JByte>)
    requires v < Radix(n)
    ensures |bs| == n
  {
    if n == 0 then []
    else
      HighDigitBound(v, 256, Radix(n - 1));
      Encode(v / 256, n - 1) + [ToByte(v % 256)]
  }

  /** Reading back encoded bytes gives the number. */
  lemma {:induction false} BigEndianEncode(v: nat, n: nat)
    requires v < Radix(n)
    ensures BigEndian(Encode(v, n)) == v
  {
    if n > 0 {
      HighDigitBound(v, 256, Radix(n - 1));
      var bs := Encode(v, n);
      assert bs[..n - 1] == Encode(v / 256, n - 1);
      BigEndianEncode(v / 256, n - 1);
    }
  }

  /** The four bytes of a 32-bit value, as `Convert.bytesToInt` reads them. */
  function IntToBytes(k: int): (bs: seq<JByte>)
    ensures |bs| == 4
  {
    RadixFour();
    Encode(Wrap(k, W32), 4)
  }

  /** Every 32-bit key survives encoding and decoding. */
  lemma BytesToIntRoundTrip(k: int)
    requires -TWO31 <= k < TWO31
    ensures BytesToInt(IntToBytes(k)) == k
  {
    RadixFour();
    BigEndianEncode(Wrap(k, W32), 4);
    SignedRoundTrip(k, W32);
  }

  lemma RadixFour()
    ensures Radix(4) == TWO32
  {
  }

  lemma {:induction false} RadixMonotone(a: nat, b: nat)
    requires a <= b
    ensures Radix(a) <= Radix(b)
  {
    if a < b {
      RadixMonotone(a, b - 1);
    }
  }

  /** `Convert.truncate(b, 32)`: the last four bytes, or all of them when there are
      fewer. */
  function Truncate32(b: seq<JByte>): (r: seq<JByte>)
    ensures |r| == if |b| < 4 then |b| else 4
    ensures r == b[|b| - |r|..]
  {
    if |b| <= 4 then b else b[|b| - 4..]
  }

  /** `Convert.bytesToInt` of at most four bytes: their big-endian value as a signed
      32-bit integer. */
  function BytesToInt(b: seq<JByte>): (k: int)
    requires |b| <= 4
    ensures -TWO31 <= k < TWO31
  {
    RadixMonotone(|b|, 4);
    RadixFour();
    ToSigned(BigEndian(b), W32)
  }

  /** The key a stack element addresses memory with. */
  function KeyOf(e: StackElement): (k: int)
    ensures -TWO31 <= k < TWO31
  {
    BytesToInt(Truncate32(e.content))
  }

  /** Only the last four bytes of a key element matter: the truncation lets 2^32 keys
      through and no more. */
  lemma KeyIgnoresHighBytes(high: seq<JByte>, low: seq<JByte>, tag: Option<MemTarget>, tag': Option<MemTarget>)
    requires |low| == 4
    ensures KeyOf(StackElement(high + low, tag)) == KeyOf(StackElement(low, tag'))
  {
    assert (high + low)[|high + low| - 4..] == low;
  }

  /** The value a store writes: INT and UINT values are truncated to 32 bits, the others
      are stored whole. */
  function StoredValue(t: StoreTarget, e: StackElement): (v: seq<JByte>)
    ensures t == MI || t == MU ==> |v| <= 4 && |v| <= |e.content| && v == e.content[|e.content| - |v|..]
    ensures t != MI && t != MU ==> v == e.content
  {
    if t == MI || t == MU then Truncate32(e.content) else e.content
  }

  // ---------------------------------------------------------------------------
  // One step
  // ---------------------------------------------------------------------------

  function Top(p: Program): StackElement
    requires |p.stack| > 0
  {
    p.stack[|p.stack| - 1]
  }

  /** `stackPop`: the stack without its top element. */
  function Popped(p: Program): (q: Program)
    requires |p.stack| > 0
    ensures q.stack + [Top(p)] == p.stack
    ensures q.code == p.code && q.ip == p.ip && q.memory == p.memory
  {
    p.(stack := p.stack[..|p.stack| - 1])
  }

  function StepForward(p: Program): Program {
    p.(ip := p.ip + 1)
  }

  /** A store: pop the value, then the key; write the value at the key; step forward. */
  function ExecStore(p: Program, t: StoreTarget): (r: Outcome)
    ensures |p.stack| >= 2 ==> r.Stepped?
    ensures |p.stack| < 2 ==> r == Raised(EmptyStack, if |p.stack| == 0 then p else Popped(p))
  {
    if |p.stack| == 0 then Raised(EmptyStack, p)
    else
      var value := StoredValue(t, Top(p));
      var p1 := Popped(p);
      if |p1.stack| == 0 then Raised(EmptyStack, p1)
      else
        var key := KeyOf(Top(p1));
        var p2 := Popped(p1);
        Stepped(StepForward(p2.(memory := p2.memory[(t, key) := value])))
  }

  /** The bytes a load finds in memory. */
  function Read(memory: map<(MemTarget, int), seq<JByte>>, t: MemTarget, key: int): seq<JByte> {
    if (t, key) in memory then memory[(t, key)] else []
  }

  /** A load: pop the key; push what the target holds there; step forward. */
  function ExecLoad(p: Program, t: MemTarget): (r: Outcome)
    ensures |p.stack| >= 1 ==> r.Stepped? && |r.prog.stack| == |p.stack|
    ensures |p.stack| == 0 ==> r == Raised(EmptyStack, p)
  {
    if |p.stack| == 0 then Raised(EmptyStack, p)
    else
      var key := KeyOf(Top(p));
      var p1 := Popped(p);
      Stepped(StepForward(p1.(stack := p1.stack + [StackElement(Read(p1.memory, t, key), Some(t))])))
  }

  /** PUSHDATA: step onto the length byte, check it lies in [1, 64], step past it, and
      push the next that many bytes, packed, as one element of unknown type. */
  /** `q` is `p` after a PUSHDATA whose length byte `n` lies in [1, 64]: the pointer is
      just past the `n` data bytes, and those bytes, packed, are pushed untyped. */
  predicate PushedData(m: Machine, p: Program, q: Program) {
    && p.ip + 1 < |p.code|
    && var n := p.code[p.ip + 1];
    && 1 <= n <= 64 && p.ip + 2 + n <= |p.code|
    && q == p.(ip := p.ip + 2 + n, stack := p.stack + [StackElement(m.pack(p.code[p.ip + 2..p.ip + 2 + n]), None)])
  }

  function ExecPush(m: Machine, p: Program): (r: Outcome)
    ensures r.Stepped? ==> |r.prog.stack| == |p.stack| + 1 && r.prog.ip > p.ip + 2
    ensures r.Stepped? ==> PushedData(m, p, r.prog)
  {
    if p.ip + 1 >= |p.code| then Raised(EndOfCode(p.ip + 1), StepForward(p))
    else
      var count: int := p.code[p.ip + 1];
      if count > 64 then Raised(PushTooLong, StepForward(p))
      else if count < 1 then Raised(PushTooShort, StepForward(p))
      else if p.ip + 2 + count > |p.code| then Raised(EndOfCode(|p.code|), p.(ip := p.ip + 2))
      else
        var data := p.code[p.ip + 2..p.ip + 2 + count];
        Stepped(p.(ip := p.ip + 2 + count, stack := p.stack + [StackElement(m.pack(data), None)]))
  }

  /** `stepProgram`: nothing when stopped; otherwise decode the current byte, check the
      stack holds the declared inputs, and run the opcode. */
  function Step(m: Machine, p: Program): (r: Outcome)
    ensures m.isStopped(p) ==> r == Stepped(p)
    ensures !m.isStopped(p) && p.ip < |p.code| && p.code[p.ip] !in m.table
            ==> r == Raised(UnknownOpcode(p.code[p.ip]), p)
  {
    if m.isStopped(p) then Stepped(p)
    else if p.ip >= |p.code| then Raised(EndOfCode(p.ip), p)
    else if p.code[p.ip] !in m.table then Raised(UnknownOpcode(p.code[p.ip]), p)
    else
      var op := m.table[p.code[p.ip]];
      if |p.stack| < op.inputs then Raised(StackUnderflow(op.name, op.inputs, |p.stack|), p)
      else
        match op.kind
        case Store(t) => ExecStore(p, t)
        case Load(t) => ExecLoad(p, t)
        case PushData => ExecPush(m, p)
        case Unhandled => Stepped(p)
  }

  /** The opcode the program is about to run, when there is one. */
  predicate At(m: Machine, p: Program, op: OpInfo) {
    !m.isStopped(p) && p.ip < |p.code| && p.code[p.ip] in m.table && m.table[p.code[p.ip]] == op
  }

  // ---------------------------------------------------------------------------
  // Properties of one step
  // ---------------------------------------------------------------------------

  /** Too few stack elements for the declared inputs: an error, and the program is left
      exactly as it was. */
  lemma UnderflowHasNoEffect(m: Machine, p: Program, op: OpInfo)
    requires At(m, p, op) && |p.stack| < op.inputs
    ensures Step(m, p) == Raised(StackUnderflow(op.name, op.inputs, |p.stack|), p)
  {
  }

  /** A store takes the value from the top of the stack and the key from just below
      it, writes the value (truncated for INT and UINT) at the truncated key in its
      target, drops both elements and steps forward; nothing else changes. */
  lemma StoreEffect(m: Machine, p: Program, op: OpInfo, below: seq<StackElement>, key: StackElement, value: StackElement)
    requires At(m, p, op) && op.kind.Store? && op.inputs <= |p.stack|
    requires p.stack == below + [key, value]
    ensures Step(m, p) == Stepped(Program(p.code, p.ip + 1, below,
                                          p.memory[(op.kind.target, KeyOf(key)) := StoredValue(op.kind.target, value)]))
  {
    assert Popped(p).stack == below + [key];
    assert Popped(Popped(p)).stack == below;
  }

  /** A load pops the key and pushes what its target holds at the truncated key, tagged
      with the target; nothing else changes. */
  lemma LoadEffect(m: Machine, p: Program, op: OpInfo, below: seq<StackElement>, key: StackElement)
    requires At(m, p, op) && op.kind.Load? && op.inputs <= |p.stack|
    requires p.stack == below + [key]
    ensures Step(m, p) == Stepped(Program(p.code, p.ip + 1,
                                          below + [StackElement(Read(p.memory, op.kind.source, KeyOf(key)), Some(op.kind.source))],
                                          p.memory))
  {
    assert Popped(p).stack == below;
  }

  /** What is stored can be loaded back: a store followed by a load from the same
      target with the same key pushes the stored value. */
  lemma StoreThenLoad(m: Machine, p: Program, q: Program, store: OpInfo, load: OpInfo,
                      below: seq<StackElement>, key: StackElement, value: StackElement)
    requires At(m, p, store) && store.kind.Store? && store.inputs <= |p.stack|
    requires p.stack == below + [key, key, value]
    requires Step(m, p) == Stepped(q)
    requires At(m, q, load) && load.kind == Load(store.kind.target) && load.inputs <= |below| + 1
    ensures Step(m, q).Stepped?
    ensures Step(m, q).prog.stack
      == below + [StackElement(StoredValue(store.kind.target, value), Some(store.kind.target))]
  {
    var t := store.kind.target;
    var v := StoredValue(t, value);
    assert p.stack == (below + [key]) + [key, value];
    StoreEffect(m, p, store, below + [key], key, value);
    assert q.stack == below + [key];
    assert q.memory == p.memory[(t, KeyOf(key)) := v];
    LoadEffect(m, q, load, below, key);
    assert Read(q.memory, t, KeyOf(key)) == v;
  }

  /** The length byte of PUSHDATA is read as a signed byte and must lie in [1, 64];
      otherwise an error is raised with the pointer already on the length byte. */
  lemma PushLengthChecked(m: Machine, p: Program, op: OpInfo)
    requires At(m, p, op) && op.kind == PushData && op.inputs <= |p.stack|
    requires p.ip + 1 < |p.code|
    ensures var n := p.code[p.ip + 1];
      (n > 64 ==> Step(m, p) == Raised(PushTooLong, p.(ip := p.ip + 1)))
      && (n < 1 ==> Step(m, p) == Raised(PushTooShort, p.(ip := p.ip + 1)))
  {
  }

  /** A PUSHDATA whose length byte is in range and whose data is all there pushes
      exactly those bytes as one element of unknown type, and moves past them. */
  lemma PushEffect(m: Machine, p: Program, op: OpInfo)
    requires At(m, p, op) && op.kind == PushData && op.inputs <= |p.stack|
    requires p.ip + 1 < |p.code|
    requires 1 <= p.code[p.ip + 1] <= 64 && p.ip + 2 + p.code[p.ip + 1] <= |p.code|
    ensures var n := p.code[p.ip + 1];
      Step(m, p) == Stepped(Program(p.code, p.ip + 2 + n,
                                    p.stack + [StackElement(m.pack(p.code[p.ip + 2..p.ip + 2 + n]), None)],
                                    p.memory))
  {
  }

  /** An opcode the switch has no case for does nothing, not even step forward. */
  lemma UnhandledStalls(m: Machine, p: Program, op: OpInfo)
    requires At(m, p, op) && op.kind == Unhandled && op.inputs <= |p.stack|
    ensures Step(m, p) == Stepped(p)
  {
  }

  /** The stack inputs an opcode's case pops. */
  function Pops(k: OpKind): nat {
    match k
    case Store(_) => 2
    case Load(_) => 1
    case PushData => 0
    case Unhandled => 0
  }

  /** A table whose every entry declares at least the inputs its case pops. */
  predicate WellDeclared(table: map<JByte, OpInfo>) {
    forall b :: b in table ==> table[b].inputs >= Pops(table[b].kind)
  }

  /** With a well-declared table the arity check rules out popping an empty stack, and
      every step that succeeds leaves the stack as deep as before, less what the case
      pops, plus one pushed value for a load or a PUSHDATA. */
  lemma WellDeclaredNeverEmpty(m: Machine, p: Program)
    requires WellDeclared(m.table)
    ensures Step(m, p) != Raised(EmptyStack, Step(m, p).prog)
    ensures (Step(m, p).Stepped? && !m.isStopped(p)) ==>
      var op := m.table[p.code[p.ip]];
      |Step(m, p).prog.stack| == |p.stack| - Pops(op.kind) + (if op.kind.Load? || op.kind.PushData? then 1 else 0)
  {
    if !m.isStopped(p) && p.ip < |p.code| && p.code[p.ip] in m.table {
      var op := m.table[p.code[p.ip]];
      if |p.stack| >= op.inputs {
        match op.kind
        case Store(t) => {
          var r := Step(m, p);
          assert r == ExecStore(p, t);
          assert |Popped(Popped(p)).stack| == |p.stack| - 2;
        }
        case Load(t) =>
        case PushData =>
        case Unhandled =>
      }
    }
  }

  // ---------------------------------------------------------------------------
  // The driver
  // ---------------------------------------------------------------------------

  /** How a run ended: the program stopped, a step threw, or the bound on steps ran out. */
  datatype End = Halted | Threw(error: VmError) | OutOfSteps

  /** `execute`'s result (`output`) together with the program as the run left it. */
  datatype Run = Run(output: seq<JByte>, final: Program, end: End)

  /** `execute`: step until the program is stopped, swallowing any exception, and return
      an empty byte array. At most `fuel` steps are taken. */
  function Execute(m: Machine, p: Program, fuel: nat): (r: Run)
    ensures r.output == []
    ensures r.end.Halted? ==> m.isStopped(r.final)
    ensures m.isStopped(p) ==> r == Run([], p, Halted)
    decreases fuel
  {
    if m.isStopped(p) then Run([], p, Halted)
    else if fuel == 0 then Run([], p, OutOfSteps)
    else
      match Step(m, p)
      case Stepped(q) => Execute(m, q, fuel - 1)
      case Raised(e, q) => Run([], q, Threw(e))
  }

  /** With steps left, a running program takes one step and goes on or stops. */
  lemma ExecuteUnfold(m: Machine, p: Program, fuel: nat)
    requires !m.isStopped(p)
    ensures fuel == 0 ==> Execute(m, p, fuel) == Run([], p, OutOfSteps)
    ensures fuel > 0 && Step(m, p).Stepped? ==> Execute(m, p, fuel) == Execute(m, Step(m, p).prog, fuel - 1)
    ensures fuel > 0 && Step(m, p).Raised? ==> Execute(m, p, fuel) == Run([], Step(m, p).prog, Threw(Step(m, p).error))
  {
  }

  /** A run that ends with an exception ends where a step from some reachable program
      threw it. */
  lemma {:induction false} ThrewFromAStep(m: Machine, p: Program, fuel: nat)
    requires Execute(m, p, fuel).end.Threw?
    ensures exists q: Program :: Step(m, q) == Raised(Execute(m, p, fuel).end.error, Execute(m, p, fuel).final)
    decreases fuel
  {
    match Step(m, p)
    case Stepped(q) => {
      ThrewFromAStep(m, q, fuel - 1);
    }
    case Raised(e, q) => {
      assert Step(m, p) == Raised(Execute(m, p, fuel).end.error, Execute(m, p, fuel).final);
    }
  }

  /** Running a halted program again changes nothing. */
  lemma ExecuteIdempotent(m: Machine, p: Program, fuel: nat, again: nat)
    requires Execute(m, p, fuel).end.Halted?
    ensures Execute(m, Execute(m, p, fuel).final, again) == Execute(m, p, fuel).(end := Halted)
  {
  }

  /** A run that stops or throws within the bound is the same with a larger bound: the
      bound only cuts off runs that do not end. */
  lemma {:induction false} ExecuteFuelIrrelevant(m: Machine, p: Program, fuel: nat, more: nat)
    requires !Execute(m, p, fuel).end.OutOfSteps? && fuel <= more
    ensures Execute(m, p, more) == Execute(m, p, fuel)
    decreases fuel
  {
    if !m.isStopped(p) {
      ExecuteUnfold(m, p, fuel);
      ExecuteUnfold(m, p, more);
      var s := Step(m, p);
      if s.Stepped? {
        ExecuteFuelIrrelevant(m, s.prog, fuel - 1, more - 1);
      }
    }
  }

  /** A program that reaches an opcode the switch does not handle never stops unless the
      host stops it: every bound on the steps runs out. */
  lemma {:induction false} UnhandledNeverEnds(m: Machine, p: Program, op: OpInfo, fuel: nat)
    requires At(m, p, op) && op.kind == Unhandled && op.inputs <= |p.stack|
    ensures Execute(m, p, fuel) == Run([], p, OutOfSteps)
    decreases fuel
  {
    UnhandledStalls(m, p, op);
    if fuel > 0 {
      UnhandledNeverEnds(m, p, op, fuel - 1);
    }
  }
}
