/**
 The statements the generator emits into the body of a payload method, and what
 Python does with them. Exceptions of the generated code are None.
 */
module PgnIr {
  import opened Bits
  import opened Wrappers
  import opened Struct

  /** An assignment target or a packed operand, as the generator's strings name them. */
  datatype Loc =
    | Var(n: nat)             // v0, v1, ...
    | Word                    // word
    | Attribute(name: string) // self._name
    | Unset                   // the empty string val_var starts with

  datatype Expr =
    | Lit(k: int)
    | Load(l: Loc)
    | Slot(i: nat)            // val[i]
    | BitAnd(e: Expr, mask: nat)
    | ShiftLeft(e: Expr, n: nat)
    | ShiftRight(e: Expr, n: nat)
    | Plus(e1: Expr, e2: Expr)
    | ToInt(name: string, invalid: nat)   // convert_to_int(self._name, invalid, scale)

  /** How a decoded number becomes an attribute value. */
  datatype Conversion =
    | Plain
    | CheckValid(invalid: nat, default: int)
    | ToFloat(invalid: nat)               // check_convert_float(number, invalid, scale)

  datatype Stmt =
    | Assign(target: Loc, e: Expr)
    | OrAssign(target: Loc, e: Expr)
    | SetAttribute(name: string, e: Expr, conv: Conversion)

  /** A float attribute is kept as the raw integer its scale and offset are applied to. */
  datatype Value =
    | Int(i: int)
    | Float(raw: int)
    | NaN
    | Str(s: seq<byte>)

  type Object = map<string, Value>

  /** Locals of the method, the object, and the tuple `val` of the last unpack_from. */
  datatype Machine = Machine(env: map<Loc, int>, obj: Object, val: seq<int>)

  function Read(l: Loc, m: Machine): Option<int> {
    match l
    case Attribute(name) =>
      if name in m.obj && m.obj[name].Int? then Some(m.obj[name].i) else None
    case Unset => None
    case _ => if l in m.env then Some(m.env[l]) else None
  }

  function Eval(e: Expr, m: Machine): Option<int> {
    match e
    case Lit(k) => Some(k)
    case Load(l) => Read(l, m)
    case Slot(i) => if i < |m.val| then Some(m.val[i]) else None
    case BitAnd(e1, mask) => var v := Eval(e1, m); if v.None? then None else Some(And(v.value, mask))
    case ShiftLeft(e1, n) => var v := Eval(e1, m); if v.None? then None else Some(Shl(v.value, n))
    case ShiftRight(e1, n) => var v := Eval(e1, m); if v.None? then None else Some(Shr(v.value, n))
    case Plus(e1, e2) =>
      var v1, v2 := Eval(e1, m), Eval(e2, m);
      if v1.None? || v2.None? then None else Some(v1.value + v2.value)
    case ToInt(name, invalid) =>
      if name !in m.obj then None
      else match m.obj[name]
        case Float(raw) => Some(raw)
        case NaN => Some(invalid)
        case _ => None
  }

  function Store(l: Loc, v: int, m: Machine): Option<Machine> {
    match l
    case Attribute(name) => Some(m.(obj := m.obj[name := Int(v)]))
    case Unset => None
    case _ => Some(m.(env := m.env[l := v]))
  }

  function Convert(v: int, conv: Conversion): Value {
    match conv
    case Plain => Int(v)
    case CheckValid(invalid, default) => Int(if v == invalid then default else v)
    case ToFloat(invalid) => if v == -1 || v == invalid then NaN else Float(v)
  }

  function Exec(s: Stmt, m: Machine): Option<Machine> {
    var v := Eval(s.e, m);
    if v.None? then None
    else match s
      case Assign(l, _) => Store(l, v.value, m)
      case OrAssign(l, _) =>
        var cur := Read(l, m);
        if cur.None? then None else Store(l, Or(cur.value, v.value), m)
      case SetAttribute(name, _, conv) => Some(m.(obj := m.obj[name := Convert(v.value, conv)]))
  }

  function Run(ss: seq<Stmt>, m: Machine): Option<Machine> {
    if ss == [] then Some(m)
    else
      match Exec(ss[0], m)
      case None => None
      case Some(m') => Run(ss[1..], m')
  }

  /** The operands of a pack_into call. */
  function ReadAll(args: seq<Loc>, m: Machine): Option<seq<int>> {
    if args == [] then Some([])
    else
      var v, rest := Read(args[0], m), ReadAll(args[1..], m);
      if v.None? || rest.None? then None else Some([v.value] + rest.value)
  }

  /** The first statement, then the others. */
  lemma RunNext(s: Stmt, rest: seq<Stmt>, m: Machine, m1: Machine)
    requires Exec(s, m) == Some(m1)
    ensures Run([s] + rest, m) == Run(rest, m1)
  {
    assert ([s] + rest)[1..] == rest;
  }

  lemma {:induction false} RunConcat(a: seq<Stmt>, b: seq<Stmt>, m: Machine)
    ensures Run(a + b, m) == match Run(a, m) case None => None case Some(m') => Run(b, m')
  {
    if a == [] {
      assert a + b == b;
    } else {
      assert (a + b)[1..] == a[1..] + b;
      match Exec(a[0], m)
      case None =>
      case Some(m') => RunConcat(a[1..], b, m');
    }
  }

  lemma {:induction false} ReadAllConcat(a: seq<Loc>, b: seq<Loc>, m: Machine)
    ensures ReadAll(a + b, m) ==
            var x, y := ReadAll(a, m), ReadAll(b, m);
            if x.None? || y.None? then None else Some(x.value + y.value)
  {
    if a == [] {
      assert a + b == b;
      if ReadAll(b, m).Some? {
        assert [] + ReadAll(b, m).value == ReadAll(b, m).value;
      }
    } else {
      assert (a + b)[1..] == a[1..] + b;
      ReadAllConcat(a[1..], b, m);
      var v, x, y := Read(a[0], m), ReadAll(a[1..], m), ReadAll(b, m);
      if v.Some? && x.Some? && y.Some? {
        assert [v.value] + (x.value + y.value) == ([v.value] + x.value) + y.value;
      }
    }
  }
}
