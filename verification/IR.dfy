/** The three-address code the lowering emits: labels, jumps, branches on zero, and values that are
    constants, temporaries, or handles to a variable's storage. */
module IR {
  import opened Options
  import opened CLang

  /** A label made by freshLabel, or the target that no label has. */
  datatype Label = L(id: nat) | Nowhere

  /** A VarOp is the storage itself: it is read when the instruction that uses it runs. */
  datatype Operand = Imm(n: int) | VarOp(x: Name) | TmpOp(k: nat)

  datatype Instr =
    | IBin(dst: nat, op: BinOp, a: Operand, b: Operand)
    | IUn(dst: nat, uop: UnOp, a: Operand)
    | SetVar(x: Name, a: Operand)
    | SetTmp(k: nat, a: Operand)
    | ILabel(l: Label)
    | Jump(l: Label)
    | BranchZ(a: Operand, l: Label)
    | Ret(a: Operand)
    | RetVoid

  type Code = seq<Instr>

  type Tmps = map<nat, int>

  /** Lost: control ran past the last instruction, or jumped to a label that is not there. */
  datatype State =
    | Running(pc: nat, vars: Store, tmps: Tmps)
    | Halted(result: Option<int>, vars: Store)
    | Lost

  function ValueOf(a: Operand, vars: Store, tmps: Tmps): int {
    match a
    case Imm(n) => n
    case VarOp(x) => Get(vars, x)
    case TmpOp(k) => if k in tmps then tmps[k] else 0
  }

  /** Where the label stands: the first place, or the end of the code when it is nowhere. */
  function Where(code: Code, l: Label): (p: nat)
    ensures p <= |code|
    ensures p < |code| ==> code[p] == ILabel(l)
  {
    if code == [] then 0 else if code[0] == ILabel(l) then 0 else 1 + Where(code[1..], l)
  }

  function Goto(code: Code, l: Label, vars: Store, tmps: Tmps): State {
    var p := Where(code, l);
    if p < |code| then Running(p, vars, tmps) else Lost
  }

  function StepIR(code: Code, s: State): State {
    if !s.Running? then s
    else if s.pc >= |code| then Lost
    else
      var Running(pc, vars, tmps) := s;
      match code[pc]
      case IBin(dst, op, a, b) =>
        Running(pc + 1, vars, tmps[dst := Apply(op, ValueOf(a, vars, tmps), ValueOf(b, vars, tmps))])
      case IUn(dst, op, a) => Running(pc + 1, vars, tmps[dst := ApplyUn(op, ValueOf(a, vars, tmps))])
      case SetVar(x, a) => Running(pc + 1, vars[x := ValueOf(a, vars, tmps)], tmps)
      case SetTmp(k, a) => Running(pc + 1, vars, tmps[k := ValueOf(a, vars, tmps)])
      case ILabel(_) => Running(pc + 1, vars, tmps)
      case Jump(l) => Goto(code, l, vars, tmps)
      case BranchZ(a, l) =>
        if ValueOf(a, vars, tmps) == 0 then Goto(code, l, vars, tmps) else Running(pc + 1, vars, tmps)
      case Ret(a) => Halted(Some(ValueOf(a, vars, tmps)), vars)
      case RetVoid => Halted(None, vars)
  }

  function RunIR(code: Code, s: State, n: nat): State
    decreases n
  {
    if n == 0 then s else RunIR(code, StepIR(code, s), n - 1)
  }

  lemma {:induction false} RunIRTrans(code: Code, s: State, n: nat, m: nat)
    ensures RunIR(code, s, n + m) == RunIR(code, RunIR(code, s, n), m)
    decreases n
  {
    if n > 0 {
      RunIRTrans(code, StepIR(code, s), n - 1, m);
    }
  }

  // ---- labels ----

  function LabelsOf(code: Code): set<Label> { set i | 0 <= i < |code| && code[i].ILabel? :: code[i].l }

  function TargetsOf(code: Code): set<Label> {
    set i | 0 <= i < |code| && (code[i].Jump? || code[i].BranchZ?) :: code[i].l
  }

  /** No label stands in two places. */
  ghost predicate Distinct(code: Code) {
    forall i, j :: 0 <= i < j < |code| && code[i].ILabel? && code[j].ILabel? ==> code[i].l != code[j].l
  }

  lemma {:induction false} WhereIs(code: Code, p: nat)
    requires Distinct(code) && p < |code| && code[p].ILabel?
    ensures Where(code, code[p].l) == p
  {
    if p > 0 {
      var tail := code[1..];
      assert forall i :: 0 <= i < |tail| ==> tail[i] == code[i + 1];
      WhereIs(tail, p - 1);
    }
  }

  lemma LabelsConcat(a: Code, b: Code)
    ensures LabelsOf(a + b) == LabelsOf(a) + LabelsOf(b)
    ensures TargetsOf(a + b) == TargetsOf(a) + TargetsOf(b)
  {
    var c := a + b;
    assert forall i :: 0 <= i < |b| ==> c[|a| + i] == b[i];
    assert forall i :: |a| <= i < |c| ==> c[i] == b[i - |a|];
    assert forall i :: 0 <= i < |a| ==> c[i] == a[i];
  }

  lemma DistinctConcat(a: Code, b: Code)
    requires Distinct(a) && Distinct(b) && LabelsOf(a) !! LabelsOf(b)
    ensures Distinct(a + b)
  {
    var c := a + b;
    forall i, j | 0 <= i < j < |c| && c[i].ILabel? && c[j].ILabel?
      ensures c[i].l != c[j].l
    {
      if i < |a| <= j {
        assert c[i] == a[i] && c[j] == b[j - |a|];
        assert a[i].l in LabelsOf(a) && b[j - |a|].l in LabelsOf(b);
      }
    }
  }
}
