/** Programs that use the JSON class, by value semantics: what an assignment, a copy, a move or an
    append through any chain of operator[] does to the values of the variables. */
module JsonStatements {
  import opened JsonValues

  /** enum class Class, without Floating. */
  datatype Class = Null | Object | Array | String | Integral | Boolean

  function ClassOf(v: Json): Class {
    match v
    case Null => Class.Null
    case Object(_) => Class.Object
    case Array(_) => Class.Array
    case String(_) => Class.String
    case Integral(_) => Class.Integral
    case Boolean(_) => Class.Boolean
  }

  function EmptyOf(c: Class): Json {
    match c
    case Null => Json.Null
    case Object => Json.Object([])
    case Array => Json.Array([])
    case String => Json.String("")
    case Integral => Json.Integral(0)
    case Boolean => Json.Boolean(false)
  }

  /** The value after SetType(c). */
  function WithType(v: Json, c: Class): (w: Json)
    ensures ClassOf(w) == c
  {
    if ClassOf(v) == c then v else EmptyOf(c)
  }

  // ----- What operator[] refers to.

  /** One use of operator[]. */
  datatype Step = Key(key: string) | Index(index: nat)

  function Padded(items: seq<Json>, n: nat): (r: seq<Json>)
    ensures |r| == if |items| < n then n else |items|
    ensures |items| >= n ==> r == items
    ensures forall k | 0 <= k < |r| :: r[k] == if k < |items| then items[k] else Json.Null
    decreases n - |items|
  {
    if |items| < n then Padded(items + [Json.Null], n) else items
  }

  /** The value at a step, Null if operator[] has to make it. */
  function ChildOf(v: Json, step: Step): Json {
    match step
    case Key(key) => FieldOf(v, key)
    case Index(i) => Padded(WithType(v, Class.Array).items, i + 1)[i]
  }

  /** The value with w at a step. */
  function WithChild(v: Json, step: Step, w: Json): Json {
    match step
    case Key(key) => Json.Object(Put(WithType(v, Class.Object).members, key, w))
    case Index(i) => Json.Array(Padded(WithType(v, Class.Array).items, i + 1)[i := w])
  }

  /** operator[] first makes an object or an array of the value. */
  lemma TypedChild(v: Json, step: Step, w: Json)
    ensures
      var typed := WithType(v, if step.Key? then Class.Object else Class.Array);
      WithChild(typed, step, w) == WithChild(v, step, w) && ChildOf(typed, step) == ChildOf(v, step)
  {
  }

  lemma ChildTwice(v: Json, step: Step, a: Json, b: Json)
    ensures ChildOf(WithChild(v, step, a), step) == a
    ensures WithChild(WithChild(v, step, a), step, b) == WithChild(v, step, b)
  {
    if step.Key? {
      PutThenLookup(WithType(v, Class.Object).members, step.key, a, b);
    }
  }

  lemma OtherKey(v: Json, k: string, a: Json, l: string, b: Json)
    requires k != l
    ensures ChildOf(WithChild(v, Key(k), a), Key(l)) == ChildOf(v, Key(l))
    ensures WithChild(WithChild(v, Key(k), a), Key(l), b) == WithChild(WithChild(v, Key(l), b), Key(k), a)
  {
    hide Put, Lookup, KeyLess;
    var members := WithType(v, Class.Object).members;
    LookupAbsent([], l);
    OtherMember(members, k, a, l, b);
  }

  lemma OtherMember(members: seq<Member>, k: string, a: Json, l: string, b: Json)
    requires k != l
    ensures Lookup(Put(members, k, a), l) == Lookup(members, l)
    ensures Put(Put(members, k, a), l, b) == Put(Put(members, l, b), k, a)
  {
    hide Put, Lookup, KeyLess;
    LookupOther(members, k, a, l);
    KeyLessTotal(k, l);
    if KeyLess(k, l) {
      PutCommutes(members, k, a, l, b);
    } else {
      PutCommutes(members, l, b, k, a);
    }
  }

  lemma PaddedCommutes(items: seq<Json>, i: nat, a: Json, k: nat, b: Json)
    requires i != k
    ensures Padded(Padded(items, i + 1)[i := a], k + 1)[k] == Padded(items, k + 1)[k]
    ensures Padded(Padded(items, i + 1)[i := a], k + 1)[k := b] == Padded(Padded(items, k + 1)[k := b], i + 1)[i := a]
  {
    hide Padded;
  }

  lemma OtherIndex(v: Json, i: nat, a: Json, k: nat, b: Json)
    requires i != k
    ensures ChildOf(WithChild(v, Index(i), a), Index(k)) == ChildOf(v, Index(k))
    ensures WithChild(WithChild(v, Index(i), a), Index(k), b) == WithChild(WithChild(v, Index(k), b), Index(i), a)
  {
    hide Padded;
    PaddedCommutes(WithType(v, Class.Array).items, i, a, k, b);
  }

  /** Two different keys, or two different indices, do not meddle with each other. */
  lemma OtherChild(v: Json, s: Step, a: Json, t: Step, b: Json)
    requires s != t && s.Key? == t.Key?
    ensures ChildOf(WithChild(v, s, a), t) == ChildOf(v, t)
    ensures WithChild(WithChild(v, s, a), t, b) == WithChild(WithChild(v, t, b), s, a)
  {
    hide ChildOf, WithChild;
    if s.Key? {
      OtherKey(v, s.key, a, t.key, b);
    } else {
      OtherIndex(v, s.index, a, t.index, b);
    }
  }

  // ----- What a chain of operator[] refers to.

  function ValueAt(v: Json, path: seq<Step>): Json
    decreases path
  {
    if path == [] then v else ValueAt(ChildOf(v, path[0]), path[1..])
  }

  /** The value with w at the end of the path; nulls, objects and arrays are made on the way. */
  function SetAt(v: Json, path: seq<Step>, w: Json): Json
    decreases path
  {
    if path == [] then w else WithChild(v, path[0], SetAt(ChildOf(v, path[0]), path[1..], w))
  }

  /** Neither path leads into what the other refers to. */
  predicate Diverge(p: seq<Step>, q: seq<Step>)
    decreases p
  {
    && p != [] && q != []
    && if p[0] == q[0] then Diverge(p[1..], q[1..]) else p[0].Key? == q[0].Key?
  }

  /** An array grows to hold the index, with nulls in between; every other element stays. */
  lemma IndexedArray(v: Json, i: nat, w: Json, k: nat)
    ensures
      var items := if v.Array? then v.items else [];
      var r := WithChild(v, Index(i), w);
      && r.Array? && |r.items| == (if i < |items| then |items| else i + 1)
      && (k < |r.items| ==> r.items[k] == if k == i then w else if k < |items| then items[k] else Json.Null)
  {
  }

  /** An object has the one member more, or the one changed; anything else becomes an object with
      that member alone. */
  lemma KeyedObject(v: Json, key: string, w: Json)
    ensures
      var members := if v.Object? then v.members else [];
      var r := WithChild(v, Key(key), w);
      && r.Object? && Lookup(r.members, key) == w
      && (forall m | m in r.members :: m == Member(key, w) || m in members)
      && (forall l | l != key :: Lookup(r.members, l) == Lookup(members, l))
  {
    var members := if v.Object? then v.members else [];
    PutMembers(members, key, w);
    PutThenLookup(members, key, w, w);
    forall l | l != key ensures Lookup(Put(members, key, w), l) == Lookup(members, l) {
      LookupOther(members, key, w, l);
    }
  }

  lemma {:induction false} SetThenValue(v: Json, path: seq<Step>, w: Json)
    ensures ValueAt(SetAt(v, path, w), path) == w
    decreases path
  {
    if path != [] {
      hide WithChild, ChildOf;
      var inner := SetAt(ChildOf(v, path[0]), path[1..], w);
      ChildTwice(v, path[0], inner, w);
      SetThenValue(ChildOf(v, path[0]), path[1..], w);
    }
  }

  /** What another path refers to stays as it is. */
  lemma {:induction false} SetElsewhere(v: Json, p: seq<Step>, w: Json, q: seq<Step>)
    requires Diverge(p, q)
    ensures ValueAt(SetAt(v, p, w), q) == ValueAt(v, q)
    decreases p
  {
    hide WithChild, ChildOf;
    var child := ChildOf(v, p[0]);
    var inner := SetAt(child, p[1..], w);
    if p[0] == q[0] {
      ChildTwice(v, p[0], inner, w);
      SetElsewhere(child, p[1..], w, q[1..]);
    } else {
      OtherChild(v, p[0], inner, q[0], w);
    }
  }

  lemma {:induction false} DivergeTurns(p: seq<Step>, q: seq<Step>)
    requires Diverge(p, q)
    ensures Diverge(q, p)
    decreases p
  {
    if p[0] == q[0] {
      DivergeTurns(p[1..], q[1..]);
    }
  }

  // ----- Statements.

  /** `=` with a scalar, a string, or a JSON argument copied or moved from; or append(argument). */
  datatype Action = ToLong(n: long) | ToBool(b: bool) | ToText(s: string) | CopyOf | MoveOf | AppendOf {
    predicate TakesArgument() {
      CopyOf? || MoveOf? || AppendOf?
    }
  }

  /** The value of the target afterwards. */
  function Performed(act: Action, v: Json, arg: Json): Json {
    match act
    case ToLong(n) => Json.Integral(n)
    case ToBool(b) => Json.Boolean(b)
    case ToText(s) => Json.String(s)
    case CopyOf | MoveOf => arg
    case AppendOf => Json.Array(WithType(v, Class.Array).items + [arg])
  }

  /** The value of the argument afterwards. */
  function ArgumentAfter(act: Action, arg: Json): Json {
    if act.MoveOf? then Json.Null else arg
  }

  /** `v[path...] act arg` */
  function Applied(v: Json, path: seq<Step>, act: Action, arg: Json): Json {
    SetAt(v, path, Performed(act, ValueAt(v, path), arg))
  }

  /** `v[path...] act v[argPath...]`: the argument is looked up first. */
  function AppliedWithin(v: Json, path: seq<Step>, act: Action, argPath: seq<Step>): Json {
    var arg := ValueAt(v, argPath);
    Applied(SetAt(v, argPath, ArgumentAfter(act, arg)), path, act, arg)
  }

  /** Where the two paths go the same way first. */
  lemma WithinChild(v: Json, path: seq<Step>, act: Action, argPath: seq<Step>)
    requires path != [] && argPath != [] && path[0] == argPath[0]
    ensures
      AppliedWithin(v, path, act, argPath)
      == WithChild(v, path[0], AppliedWithin(ChildOf(v, path[0]), path[1..], act, argPath[1..]))
  {
    hide ChildOf, WithChild;
    var step := path[0];
    var child := ChildOf(v, step);
    var arg := ValueAt(child, argPath[1..]);
    var left := SetAt(child, argPath[1..], ArgumentAfter(act, arg));
    ChildTwice(v, step, left, SetAt(left, path[1..], Performed(act, ValueAt(left, path[1..]), arg)));
  }

  /** Where they part, each of the two children is changed on its own. */
  function Parted(v: Json, path: seq<Step>, act: Action, argPath: seq<Step>): Json
    requires path != [] && argPath != []
  {
    var target, source := ChildOf(v, path[0]), ChildOf(v, argPath[0]);
    var arg := ValueAt(source, argPath[1..]);
    WithChild(WithChild(v, argPath[0], SetAt(source, argPath[1..], ArgumentAfter(act, arg))),
              path[0], Applied(target, path[1..], act, arg))
  }

  lemma WithinParted(v: Json, path: seq<Step>, act: Action, argPath: seq<Step>)
    requires path != [] && argPath != [] && path[0] != argPath[0] && path[0].Key? == argPath[0].Key?
    ensures AppliedWithin(v, path, act, argPath) == Parted(v, path, act, argPath)
    ensures Parted(WithChild(v, argPath[0], ChildOf(v, argPath[0])), path, act, argPath) == Parted(v, path, act, argPath)
  {
    hide ChildOf, WithChild;
    var source := ChildOf(v, argPath[0]);
    var arg := ValueAt(source, argPath[1..]);
    var left := SetAt(source, argPath[1..], ArgumentAfter(act, arg));
    OtherChild(v, argPath[0], left, path[0], Json.Null);
    OtherChild(v, argPath[0], source, path[0], Json.Null);
    ChildTwice(v, argPath[0], source, left);
  }

  /** Making the target first does not matter either. */
  lemma MadeFirst(v: Json, s: Step, x: Json, t: Step, y: Json)
    requires s != t && s.Key? == t.Key?
    ensures
      var made := WithChild(v, t, ChildOf(v, t));
      && ChildOf(made, t) == ChildOf(v, t)
      && WithChild(WithChild(made, s, x), t, y) == WithChild(WithChild(v, s, x), t, y)
  {
    hide ChildOf, WithChild;
    ChildTwice(v, t, ChildOf(v, t), y);
    OtherChild(v, t, ChildOf(v, t), s, x);
    ChildTwice(WithChild(v, s, x), t, ChildOf(v, t), y);
  }

  /** A variable of the program, told by index, and what a chain of operator[] on it refers to. */
  datatype Place = Place(variable: nat, path: seq<Step>)

  /** The argument has no meaning for an action that takes none. */
  datatype Statement = Statement(target: Place, act: Action, argument: Place)

  /** The argument is neither the target nor inside it, nor the other way round. */
  predicate Allowed(st: Statement, n: nat) {
    && st.target.variable < n
    && (st.act.TakesArgument() ==>
          && st.argument.variable < n
          && (st.target.variable == st.argument.variable ==> Diverge(st.target.path, st.argument.path)))
  }

  function AfterOne(values: seq<Json>, st: Statement): (r: seq<Json>)
    requires Allowed(st, |values|)
    ensures |r| == |values|
  {
    var t, a := st.target.variable, st.argument.variable;
    if !st.act.TakesArgument() then values[t := Applied(values[t], st.target.path, st.act, Json.Null)]
    else if t == a then values[t := AppliedWithin(values[t], st.target.path, st.act, st.argument.path)]
    else
      var arg := ValueAt(values[a], st.argument.path);
      values[a := SetAt(values[a], st.argument.path, ArgumentAfter(st.act, arg))]
            [t := Applied(values[t], st.target.path, st.act, arg)]
  }

  function AfterAll(values: seq<Json>, run: seq<Statement>): (r: seq<Json>)
    requires forall i | 0 <= i < |run| :: Allowed(run[i], |values|)
    ensures |r| == |values|
    decreases run
  {
    if run == [] then values else AfterAll(AfterOne(values, run[0]), run[1..])
  }

  lemma AfterAllStep(values: seq<Json>, run: seq<Statement>, i: nat)
    requires i < |run| && forall k | 0 <= k < |run| :: Allowed(run[k], |values|)
    ensures AfterAll(values, run[i..]) == AfterAll(AfterOne(values, run[i]), run[i + 1..])
  {
    hide Allowed, AfterOne;
    assert run[i..][1..] == run[i + 1..];
  }

  lemma AfterAllEnd(values: seq<Json>, run: seq<Statement>)
    ensures AfterAll(values, run[|run|..]) == values
  {
  }

  /** What a program reads after a statement where it assigned, and from where it took. */
  lemma StatementEffect(values: seq<Json>, st: Statement)
    requires Allowed(st, |values|)
    ensures
      var after := AfterOne(values, st);
      var before := ValueAt(values[st.target.variable], st.target.path);
      var got := ValueAt(after[st.target.variable], st.target.path);
      match st.act
      case ToLong(n) => got == Json.Integral(n)
      case ToBool(b) => got == Json.Boolean(b)
      case ToText(s) => got == Json.String(s)
      case CopyOf =>
        && got == ValueAt(values[st.argument.variable], st.argument.path)
        && ValueAt(after[st.argument.variable], st.argument.path) == got
      case MoveOf =>
        && got == ValueAt(values[st.argument.variable], st.argument.path)
        && ValueAt(after[st.argument.variable], st.argument.path) == Json.Null
      case AppendOf =>
        && got == Json.Array((if before.Array? then before.items else [])
                             + [ValueAt(values[st.argument.variable], st.argument.path)])
        && ValueAt(after[st.argument.variable], st.argument.path)
           == ValueAt(values[st.argument.variable], st.argument.path)
  {
    hide SetAt, ValueAt, Diverge;
    var t, a := st.target, st.argument;
    if !st.act.TakesArgument() {
      SetThenValue(values[t.variable], t.path, Performed(st.act, ValueAt(values[t.variable], t.path), Json.Null));
    } else {
      var arg := ValueAt(values[a.variable], a.path);
      var seen := SetAt(values[a.variable], a.path, ArgumentAfter(st.act, arg));
      SetThenValue(values[a.variable], a.path, ArgumentAfter(st.act, arg));
      if t.variable == a.variable {
        DivergeTurns(t.path, a.path);
        SetElsewhere(values[a.variable], a.path, ArgumentAfter(st.act, arg), t.path);
        var w := Performed(st.act, ValueAt(seen, t.path), arg);
        SetThenValue(seen, t.path, w);
        SetElsewhere(seen, t.path, w, a.path);
      } else {
        SetThenValue(values[t.variable], t.path, Performed(st.act, ValueAt(values[t.variable], t.path), arg));
      }
    }
  }

  /** And every variable the statement does not name keeps its value. */
  lemma StatementLeaves(values: seq<Json>, st: Statement, y: nat)
    requires Allowed(st, |values|) && y < |values| && y != st.target.variable
    requires st.act.TakesArgument() ==> y != st.argument.variable
    ensures AfterOne(values, st)[y] == values[y]
  {
    hide Applied, AppliedWithin, SetAt, ValueAt, Diverge;
  }

  // ----- Copies live apart.

  /** The run neither assigns to the variable, or into it, nor moves from it, nor has operator[]
      make something in it. */
  predicate LeavesAlone(run: seq<Statement>, y: nat) {
    forall i | 0 <= i < |run| ::
      && run[i].target.variable != y
      && (run[i].act.TakesArgument() && run[i].argument.variable == y ==>
            !run[i].act.MoveOf? && run[i].argument.path == [])
  }

  lemma {:induction false} OthersKeepTheirValues(values: seq<Json>, run: seq<Statement>, y: nat)
    requires y < |values| && (forall i | 0 <= i < |run| :: Allowed(run[i], |values|)) && LeavesAlone(run, y)
    ensures AfterAll(values, run)[y] == values[y]
    decreases run
  {
    if run != [] {
      hide Applied, AppliedWithin, Diverge;
      OthersKeepTheirValues(AfterOne(values, run[0]), run[1..], y);
    }
  }

  /** A copy and its original live apart: changes to one never show in the other. */
  lemma CopyLivesApart(values: seq<Json>, x: nat, y: nat, run: seq<Statement>)
    requires x < |values| && y < |values| && x != y && forall i | 0 <= i < |run| :: Allowed(run[i], |values|)
    ensures
      var after := AfterAll(AfterOne(values, Statement(Place(x, []), CopyOf, Place(y, []))), run);
      && (LeavesAlone(run, x) ==> after[x] == values[y])
      && (LeavesAlone(run, y) ==> after[y] == values[y])
  {
    var copied := AfterOne(values, Statement(Place(x, []), CopyOf, Place(y, [])));
    assert copied[x] == values[y] == copied[y];
    hide LeavesAlone, AfterAll, AfterOne;
    if LeavesAlone(run, x) {
      OthersKeepTheirValues(copied, run, x);
    }
    if LeavesAlone(run, y) {
      OthersKeepTheirValues(copied, run, y);
    }
  }
}
