/**
 Instructions of the machine: the common shape (optional label, opcode, two
 register operands), the two arithmetic variants `mul` and `sub`, their
 execution against a machine context, their text form and their equality.
 */
module Instructions {
  import opened Wrappers
  import opened JavaInt
  import opened RegisterStore
  import opened LabelTable

  /** The directive meaning "continue with the next address". */
  const NORMAL_PROGRAM_COUNTER_UPDATE: Int32 := -1

  const MUL_OPCODE: string := "mul"
  const SUB_OPCODE: string := "sub"

  /** The part of the machine an instruction acts on. */
  datatype Machine = Machine(registers: Registers, labels: Labels)

  /** An instruction: its optional label and its two register operands.
      The variant fixes the opcode. */
  datatype Instruction =
    | Mul(labelName: Option<string>, result: Register, source: Register)
    | Sub(labelName: Option<string>, result: Register, source: Register)

  /** `getOpcode()`: the opcode tells the variants apart. */
  function Opcode(i: Instruction): (op: string)
    ensures op == MUL_OPCODE <==> i.Mul?
    ensures op == SUB_OPCODE <==> i.Sub?
    ensures |op| == 3
  {
    match i
    case Mul(_, _, _) => MUL_OPCODE
    case Sub(_, _, _) => SUB_OPCODE
  }

  /** The machine after `execute`, and the value it returned. */
  datatype Executed = Executed(machine: Machine, directive: Int32)

  /** `execute(machine)`: reads both operands, then writes the result register
      with the 32-bit product (`mul`) or difference (`sub`). Nothing else in
      the machine changes and execution always advances sequentially. */
  function Execute(i: Instruction, m: Machine): (r: Executed)
    ensures r.directive == NORMAL_PROGRAM_COUNTER_UPDATE
    ensures r.machine.labels == m.labels
    ensures forall x :: x != i.result ==> Get(r.machine.registers, x) == Get(m.registers, x)
    ensures i.Mul? ==> Congruent(Get(r.machine.registers, i.result),
                                 Get(m.registers, i.result) * Get(m.registers, i.source))
    ensures i.Sub? ==> Congruent(Get(r.machine.registers, i.result),
                                 Get(m.registers, i.result) - Get(m.registers, i.source))
  {
    var a := Get(m.registers, i.result);
    var b := Get(m.registers, i.source);
    var v := match i
      case Mul(_, _, _) => MulInt(a, b)
      case Sub(_, _, _) => SubInt(a, b);
    Executed(m.(registers := Set(m.registers, i.result, v)), NORMAL_PROGRAM_COUNTER_UPDATE)
  }

  /** The new value of the result register is the unique Java `int` that
      agrees with the exact product or difference in its low 32 bits; it is
      the exact value whenever that fits. */
  lemma {:induction false} ExecuteResultValue(i: Instruction, m: Machine)
    ensures var a: int := Get(m.registers, i.result);
            var b: int := Get(m.registers, i.source);
            var exact := if i.Mul? then a * b else a - b;
            && Get(Execute(i, m).machine.registers, i.result) == Wrap(exact)
            && (MIN <= exact <= MAX ==> Get(Execute(i, m).machine.registers, i.result) == exact)
  {
    var a: int := Get(m.registers, i.result);
    var b: int := Get(m.registers, i.source);
    var exact := if i.Mul? then a * b else a - b;
    WrapUnique(exact, Get(Execute(i, m).machine.registers, i.result));
  }

  /** `mul` with the same register twice squares it, because both operands
      are read before the write; `sub` with the same register twice zeroes it. */
  lemma {:induction false} ExecuteSameRegister(i: Instruction, m: Machine)
    requires i.result == i.source
    ensures var a := Get(m.registers, i.result);
            Get(Execute(i, m).machine.registers, i.result) == if i.Mul? then MulInt(a, a) else 0
  {
    var a := Get(m.registers, i.result);
    ExecuteResultValue(i, m);
    if i.Sub? {
      SubSelf(a);
    }
  }

  /** The effect depends only on the two operand values: machines that agree
      on the operands get the same new result value. */
  lemma {:induction false} ExecuteDependsOnOperandsOnly(i: Instruction, m: Machine, n: Machine)
    requires Get(m.registers, i.result) == Get(n.registers, i.result)
    requires Get(m.registers, i.source) == Get(n.registers, i.source)
    ensures Get(Execute(i, m).machine.registers, i.result) == Get(Execute(i, n).machine.registers, i.result)
  {
    ExecuteResultValue(i, m);
    ExecuteResultValue(i, n);
  }

  /** With EAX = 5 and EBX = 6, `mul EAX EBX` leaves EAX = 30 and EBX = 6;
      with EAX = -5, EAX = -30. */
  lemma MulExamples(m: Machine)
    requires Get(m.registers, EBX) == 6
    ensures Get(m.registers, EAX) == 5 ==>
              && Get(Execute(Mul(None, EAX, EBX), m).machine.registers, EAX) == 30
              && Get(Execute(Mul(None, EAX, EBX), m).machine.registers, EBX) == 6
    ensures Get(m.registers, EAX) == -5 ==>
              Get(Execute(Mul(None, EAX, EBX), m).machine.registers, EAX) == -30
  {
    ExecuteResultValue(Mul(None, EAX, EBX), m);
  }

  /** With EAX = -5 and EBX = 6, `sub EAX EBX` leaves EAX = -11. */
  lemma SubExample(m: Machine)
    requires Get(m.registers, EAX) == -5 && Get(m.registers, EBX) == 6
    ensures Get(Execute(Sub(None, EAX, EBX), m).machine.registers, EAX) == -11
  {
    ExecuteResultValue(Sub(None, EAX, EBX), m);
  }

  // ---------------------------------------------------------------------------
  // Text form

  /** `getLabelString()`: empty without a label, else the label and `": "`. */
  function LabelString(labelName: Option<string>): (s: string)
    ensures labelName.None? <==> |s| == 0
    ensures labelName.Some? ==> |s| >= 2 && s[..|s| - 2] == labelName.value && s[|s| - 2..] == ": "
  {
    match labelName
    case None => ""
    case Some(l) => l + ": "
  }

  /** `toString()`: `"<label>: <opcode> <result> <source>"`, the label part
      only when there is a label. */
  function RenderInstruction(i: Instruction): (s: string)
    ensures |s| >= 11
    ensures s[..|s| - 11] == LabelString(i.labelName)
    ensures s[|s| - 11..][..3] == Opcode(i)
    ensures s[|s| - 11..][4..7] == Name(i.result)
    ensures s[|s| - 11..][8..11] == Name(i.source)
    ensures s[|s| - 11..][3] == ' ' && s[|s| - 11..][7] == ' '
  {
    BodySlices(LabelString(i.labelName), Opcode(i), Name(i.result), Name(i.source));
    LabelString(i.labelName) + Opcode(i) + " " + Name(i.result) + " " + Name(i.source)
  }

  /** Reads the label part back from the text before the opcode. */
  function ParseLabel(p: string): (r: Option<Option<string>>)
    ensures r.Some? ==> LabelString(r.value) == p
  {
    if |p| == 0 then Some(None)
    else if |p| >= 2 && p[|p| - 2..] == ": " then
      assert p[..|p| - 2] + ": " == p;
      Some(Some(p[..|p| - 2]))
    else None
  }

  /** A text whose last eleven characters have spaces at the separator
      positions is its label part, opcode and operand names joined by those spaces. */
  lemma Reassemble(s: string)
    requires |s| >= 11 && s[|s| - 11..][3] == ' ' && s[|s| - 11..][7] == ' '
    ensures var body := s[|s| - 11..];
            s == s[..|s| - 11] + body[..3] + " " + body[4..7] + " " + body[8..11]
  {
    var body := s[|s| - 11..];
    assert body == body[..3] + " " + body[4..7] + " " + body[8..11];
    assert s == s[..|s| - 11] + body;
  }

  /** Reads an instruction back from its text form. The opcode and both
      register names are three characters wide, so the last eleven
      characters hold them and everything before is the label part. */
  function Parse(s: string): (r: Option<Instruction>)
    ensures r.Some? ==> RenderInstruction(r.value) == s
  {
    if |s| < 11 then None
    else
      var prefix := s[..|s| - 11];
      var body := s[|s| - 11..];
      var lbl := ParseLabel(prefix);
      var res := ParseName(body[4..7]);
      var src := ParseName(body[8..11]);
      if body[3] != ' ' || body[7] != ' ' || lbl.None? || res.None? || src.None? then None
      else
        Reassemble(s);
        if body[..3] == MUL_OPCODE then Some(Mul(lbl.value, res.value, src.value))
        else if body[..3] == SUB_OPCODE then Some(Sub(lbl.value, res.value, src.value))
        else None
  }

  /** The label part reads back as the label it was written from. */
  lemma LabelRoundTrip(labelName: Option<string>)
    ensures ParseLabel(LabelString(labelName)) == Some(labelName)
  {
    match labelName
    case None =>
    case Some(l) =>
      var ls := LabelString(labelName);
      assert ls[|ls| - 2..] == ": ";
      assert ls[..|ls| - 2] == l;
  }

  /** Where the opcode and the operand names sit in the last eleven characters. */
  lemma BodySlices(p: string, op: string, r: string, src: string)
    requires |op| == 3 && |r| == 3 && |src| == 3
    ensures var s := p + op + " " + r + " " + src;
            && |s| >= 11
            && s[..|s| - 11] == p
            && s[|s| - 11..][..3] == op
            && s[|s| - 11..][3] == ' '
            && s[|s| - 11..][4..7] == r
            && s[|s| - 11..][7] == ' '
            && s[|s| - 11..][8..11] == src
  {
    var s := p + op + " " + r + " " + src;
    var body := op + " " + r + " " + src;
    assert s == p + body;
    assert s[|s| - 11..] == body;
  }

  /** Reading the text form of an instruction gives back that instruction. */
  lemma {:induction false} RenderRoundTrip(i: Instruction)
    ensures Parse(RenderInstruction(i)) == Some(i)
  {
    BodySlices(LabelString(i.labelName), Opcode(i), Name(i.result), Name(i.source));
    LabelRoundTrip(i.labelName);
    NameRoundTrip(i.result);
    NameRoundTrip(i.source);
  }

  /** `equals(o)`: same variant, same label, same result and same source
      register. */
  function Equal(a: Instruction, b: Instruction): (eq: bool)
    ensures eq <==> a == b
    ensures a.Mul? != b.Mul? ==> !eq
  {
    match (a, b)
    case (Mul(l1, r1, s1), Mul(l2, r2, s2)) => l1 == l2 && r1 == r2 && s1 == s2
    case (Sub(l1, r1, s1), Sub(l2, r2, s2)) => l1 == l2 && r1 == r2 && s1 == s2
    case _ => false
  }

  /** The text form tells instructions apart exactly as `equals` does. */
  lemma {:induction false} RenderAgreesWithEqual(a: Instruction, b: Instruction)
    ensures RenderInstruction(a) == RenderInstruction(b) <==> Equal(a, b)
  {
    RenderRoundTrip(a);
    RenderRoundTrip(b);
  }
}
