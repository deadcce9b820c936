/** What evaluation yields, operator by operator, on values of every kind. */
module PolicyMeaning {
  import opened Text
  import opened PolicyAst
  import opened PolicyParser
  import opened PolicyEval

  /** `a op b` on two values. */
  function Op(a: Value, op: string, b: Value, ctx: Context): Outcome {
    Eval(Binary(Literal(a), op, Literal(b)), ctx)
  }

  function Yes(b: bool): Outcome { Ok(Bool(b)) }

  /** `a == b` holds. */
  predicate Same(a: Value, b: Value, ctx: Context) { Op(a, "==", b, ctx) == Yes(true) }

  const ORDERINGS: set<string> := {"<", "<=", ">", ">="}

  /** A binary operator sees the values of its operands only, after the left one and then the right one succeeded. */
  lemma OperandsDecide(l: Expr, op: string, r: Expr, ctx: Context)
    ensures Eval(Binary(l, op, r), ctx) ==
            if Eval(l, ctx).Err? then Eval(l, ctx)
            else if Eval(r, ctx).Err? then Eval(r, ctx)
            else Op(Eval(l, ctx).value, op, Eval(r, ctx).value, ctx)
  {
    if Eval(l, ctx).Ok? && Eval(r, ctx).Ok? {
      OpApplies(Eval(l, ctx).value, op, Eval(r, ctx).value, ctx);
    }
  }

  lemma OpApplies(a: Value, op: string, b: Value, ctx: Context)
    ensures Op(a, op, b, ctx) == Apply(op, a, b)
  {
    assert Eval(Literal(a), ctx) == Ok(a) && Eval(Literal(b), ctx) == Ok(b);
  }

  lemma OrderApplies(a: Value, op: string, b: Value, ctx: Context)
    requires op in ORDERINGS
    ensures Op(a, op, b, ctx) == if Compare(op, a, b).Ok? then Yes(Compare(op, a, b).value) else Err(BadTypes)
  {
    OpApplies(a, op, b, ctx);
    CompareErrors(op, a, b);
  }

  lemma SameIsEqual(ctx: Context)
    ensures forall a, b :: Op(a, "==", b, ctx) == Yes(Equal(a, b))
    ensures forall a, b :: Same(a, b, ctx) <==> Equal(a, b)
  {
    forall a, b ensures Op(a, "==", b, ctx) == Yes(Equal(a, b)) {
      OpApplies(a, "==", b, ctx);
    }
  }

  lemma AllSix(a: Value, b: Value, ctx: Context)
    ensures Op(a, "==", b, ctx) == Apply("==", a, b) && Op(a, "!=", b, ctx) == Apply("!=", a, b)
    ensures Op(a, "<", b, ctx) == Apply("<", a, b) && Op(a, "<=", b, ctx) == Apply("<=", a, b)
    ensures Op(a, ">", b, ctx) == Apply(">", a, b) && Op(a, ">=", b, ctx) == Apply(">=", a, b)
  {
    OpApplies(a, "==", b, ctx);
    OpApplies(a, "!=", b, ctx);
    OpApplies(a, "<", b, ctx);
    OpApplies(a, "<=", b, ctx);
    OpApplies(a, ">", b, ctx);
    OpApplies(a, ">=", b, ctx);
  }

  lemma UnknownOperators(a: Value, op: string, b: Value, ctx: Context)
    requires !IsOperator(op)
    ensures Op(a, op, b, ctx) == Err(UnsupportedOperator(op))
  {
    OpApplies(a, op, b, ctx);
  }

  /** `not` is the only unary operator; any other raises before its operand is looked at. */
  lemma UnknownUnary(x: Expr, op: string, ctx: Context)
    requires op != "not"
    ensures Eval(Unary(op, x), ctx) == Err(UnsupportedOperator(op)) && Visited(Unary(op, x), ctx) == []
  {
  }

  // ---- Numbers and strings ----

  /** A number is its mantissa divided by ten to the power of its scale; `true` and `false` are 1 and 0. */
  function Mantissa(v: Value): int {
    match v
    case Bool(b) => if b then 1 else 0
    case Int(n) => n
    case Dec(m, _) => m
    case _ => 0
  }

  function Scale(v: Value): nat { if v.Dec? then v.scale else 0 }

  predicate Numeric(v: Value) { v.Bool? || v.Int? || v.Dec? }

  lemma Cross(x: real, p: real, y: real, q: real)
    requires p > 0.0 && q > 0.0
    ensures x / p < y / q <==> x * q < y * p
    ensures x / p == y / q <==> x * q == y * p
  {
    var (a, b) := (x / p, y / q);
    assert x == a * p && y == b * q;
    assert x * q == a * (p * q) && y * p == b * (p * q);
    assert p * q > 0.0;
    CrossFactor(a, b, p * q);
  }

  lemma CrossFactor(a: real, b: real, f: real)
    requires f > 0.0
    ensures a < b <==> a * f < b * f
    ensures a == b <==> a * f == b * f
  {
    assert (b - a) * f == b * f - a * f;
  }

  lemma CrossInts(x: int, p: nat, y: int, q: nat)
    requires p > 0 && q > 0
    ensures x as real / p as real < y as real / q as real <==> x * q < y * p
    ensures x as real / p as real == y as real / q as real <==> x * q == y * p
  {
    Cross(x as real, p as real, y as real, q as real);
    assert x as real * q as real == (x * q) as real && y as real * p as real == (y * p) as real;
  }

  lemma NumberIs(v: Value)
    requires Numeric(v)
    ensures IsNumber(v) && Number(v) == Mantissa(v) as real / Pow10(Scale(v)) as real
  {
  }

  lemma NumbersCross(a: Value, b: Value)
    requires Numeric(a) && Numeric(b)
    ensures IsNumber(a) && IsNumber(b)
    ensures var (x, y) := (Mantissa(a) * Pow10(Scale(b)), Mantissa(b) * Pow10(Scale(a)));
            (Number(a) < Number(b) <==> x < y) && (Number(a) == Number(b) <==> x == y)
  {
    NumberIs(a);
    NumberIs(b);
    CrossInts(Mantissa(a), Pow10(Scale(a)), Mantissa(b), Pow10(Scale(b)));
  }

  /** Numbers compare by cross-multiplying their scales. */
  lemma NumberOperators(a: Value, b: Value, ctx: Context)
    requires Numeric(a) && Numeric(b)
    ensures var (x, y) := (Mantissa(a) * Pow10(Scale(b)), Mantissa(b) * Pow10(Scale(a)));
            && Op(a, "==", b, ctx) == Yes(x == y) && Op(a, "!=", b, ctx) == Yes(x != y)
            && Op(a, "<", b, ctx) == Yes(x < y) && Op(a, "<=", b, ctx) == Yes(x <= y)
            && Op(a, ">", b, ctx) == Yes(x > y) && Op(a, ">=", b, ctx) == Yes(x >= y)
  {
    NumbersCross(a, b);
    AllSix(a, b, ctx);
  }

  lemma IntOperators(m: int, n: int, ctx: Context)
    ensures var (a, b) := (Int(m), Int(n));
            && Op(a, "==", b, ctx) == Yes(m == n) && Op(a, "!=", b, ctx) == Yes(m != n)
            && Op(a, "<", b, ctx) == Yes(m < n) && Op(a, "<=", b, ctx) == Yes(m <= n)
            && Op(a, ">", b, ctx) == Yes(m > n) && Op(a, ">=", b, ctx) == Yes(m >= n)
  {
    NumberOperators(Int(m), Int(n), ctx);
  }

  /** The scale counts decimal places: a further zero behind the point changes nothing; without any it is an integer. */
  lemma DecimalPlaces(m: int, scale: nat, ctx: Context)
    ensures Same(Dec(10 * m, scale + 1), Dec(m, scale), ctx) && Same(Dec(m, 0), Int(m), ctx)
  {
    NumberOperators(Dec(10 * m, scale + 1), Dec(m, scale), ctx);
    NumberOperators(Dec(m, 0), Int(m), ctx);
    TenTimes(m, scale);
  }

  lemma TenTimes(m: int, scale: nat)
    ensures 10 * m * Pow10(scale) == m * Pow10(scale + 1) && Pow10(0) == 1
  {
    var p := Pow10(scale);
    assert Pow10(scale + 1) == 10 * p;
    assert 10 * m * p == m * (10 * p);
  }

  /** Strings compare by the first character in which they differ, a proper prefix first. */
  lemma StringOperators(s: string, t: string, ctx: Context)
    ensures var (a, b) := (Str(s), Str(t));
            && Op(a, "==", b, ctx) == Yes(s == t) && Op(a, "!=", b, ctx) == Yes(s != t)
            && Op(a, "<", b, ctx) == Yes(Before(s, t)) && Op(a, "<=", b, ctx) == Yes(!Before(t, s))
            && Op(a, ">", b, ctx) == Yes(Before(t, s)) && Op(a, ">=", b, ctx) == Yes(!Before(s, t))
  {
    TextLessExactly(s, t);
    TextLessExactly(t, s);
    TextTrichotomy(s, t);
    AllSix(Str(s), Str(t), ctx);
  }

  // ---- Sequences, mappings and everything else ----

  /** Two sequences are equal if they are as long and equal item by item; a tuple is never a list. */
  lemma SequenceEquality(xs: seq<Value>, ys: seq<Value>, ctx: Context)
    ensures var equal := |xs| == |ys| && forall k :: 0 <= k < |xs| ==> Same(xs[k], ys[k], ctx);
            && Op(Tuple(xs), "==", Tuple(ys), ctx) == Yes(equal)
            && Op(List(xs), "==", List(ys), ctx) == Yes(equal)
  {
    SameIsEqual(ctx);
  }

  /** Two sequences are ordered like their first unequal items, and like their lengths if there are none. */
  lemma SequenceOrder(xs: seq<Value>, ys: seq<Value>, k: nat, op: string, ctx: Context)
    requires op in ORDERINGS && k <= |xs| && k <= |ys|
    requires forall i :: 0 <= i < k ==> Same(xs[i], ys[i], ctx)
    requires k < |xs| && k < |ys| ==> !Same(xs[k], ys[k], ctx)
    requires k == |xs| || k == |ys| || (k < |xs| && k < |ys|)
    ensures var decided := if k < |xs| && k < |ys| then Op(xs[k], op, ys[k], ctx)
                           else Op(Int(|xs|), op, Int(|ys|), ctx);
            Op(Tuple(xs), op, Tuple(ys), ctx) == decided && Op(List(xs), op, List(ys), ctx) == decided
  {
    SameIsEqual(ctx);
    AgreeingIs(xs, ys, k);
    FirstUnequalDecides(op, Tuple(xs), xs, ys);
    FirstUnequalDecides(op, List(xs), xs, ys);
    OrderApplies(Tuple(xs), op, Tuple(ys), ctx);
    OrderApplies(List(xs), op, List(ys), ctx);
    OrderApplies(Int(|xs|), op, Int(|ys|), ctx);
    if k < |xs| && k < |ys| {
      OrderApplies(xs[k], op, ys[k], ctx);
    }
  }

  lemma {:induction false} AgreeingIs(xs: seq<Value>, ys: seq<Value>, k: nat)
    requires k <= |xs| && k <= |ys| && forall i :: 0 <= i < k ==> Equal(xs[i], ys[i])
    requires k < |xs| && k < |ys| ==> !Equal(xs[k], ys[k])
    ensures Agreeing(xs, ys) == k
  {
    if k > 0 {
      AgreeingIs(xs[1..], ys[1..], k - 1);
    }
  }

  /** The kinds of value that never equal one another. */
  function Kind(v: Value): nat {
    match v
    case Null => 0
    case Str(_) => 2
    case Tuple(_) => 3
    case List(_) => 4
    case Dict(_) => 5
    case Principal(_, _, _) => 6
    case _ => 1
  }

  /** Values of two kinds are unequal and have no order. */
  lemma KindsApart(a: Value, b: Value, ctx: Context)
    requires Kind(a) != Kind(b)
    ensures Op(a, "==", b, ctx) == Yes(false)
    ensures forall op :: op in ORDERINGS ==> Op(a, op, b, ctx) == Err(BadTypes)
  {
    SameIsEqual(ctx);
    forall op | op in ORDERINGS ensures Op(a, op, b, ctx) == Err(BadTypes) {
      OrderApplies(a, op, b, ctx);
    }
  }

  /** Nothing, mappings and principals equal their like, part by part, and have no order. */
  lemma UnorderedEquality(a: Value, b: Value, ctx: Context)
    requires Kind(a) == Kind(b) && (a.Null? || a.Dict? || a.Principal?)
    ensures forall op :: op in ORDERINGS ==> Op(a, op, b, ctx) == Err(BadTypes)
    ensures a.Null? ==> Same(a, b, ctx)
    ensures a.Dict? ==>
              Op(a, "==", b, ctx) == Yes(a.entries.Keys == b.entries.Keys &&
                                         forall k :: k in a.entries ==> Same(a.entries[k], b.entries[k], ctx))
    ensures a.Principal? ==>
              Op(a, "==", b, ctx) == Yes(Same(a.actorId, b.actorId, ctx) && Same(a.roles, b.roles, ctx)
                                         && Same(a.tenantId, b.tenantId, ctx))
  {
    SameIsEqual(ctx);
    forall op | op in ORDERINGS ensures Op(a, op, b, ctx) == Err(BadTypes) {
      OrderApplies(a, op, b, ctx);
    }
  }

  // ---- How the operators go together ----

  function Negated(o: Outcome): Outcome { if o.Ok? && o.value.Bool? then Yes(!o.value.b) else o }

  /** `!=` is the negation of `==`, and `not in` that of `in`, with the same errors. */
  lemma NegationsAgree(l: Expr, r: Expr, ctx: Context)
    ensures Eval(Binary(l, "!=", r), ctx) == Negated(Eval(Binary(l, "==", r), ctx))
    ensures Eval(Binary(l, "not_in", r), ctx) == Negated(Eval(Binary(l, "in", r), ctx))
  {
  }

  lemma {:induction false} EqualSymmetric(a: Value, b: Value)
    ensures Equal(a, b) == Equal(b, a)
    decreases a
  {
    if a.Tuple? && b.Tuple? {
      forall k | 0 <= k < |a.items| && k < |b.items|
        ensures Equal(a.items[k], b.items[k]) == Equal(b.items[k], a.items[k])
      {
        EqualSymmetric(a.items[k], b.items[k]);
      }
    } else if a.List? && b.List? {
      forall k | 0 <= k < |a.elements| && k < |b.elements|
        ensures Equal(a.elements[k], b.elements[k]) == Equal(b.elements[k], a.elements[k])
      {
        EqualSymmetric(a.elements[k], b.elements[k]);
      }
    } else if a.Dict? && b.Dict? {
      forall k | k in a.entries && k in b.entries
        ensures Equal(a.entries[k], b.entries[k]) == Equal(b.entries[k], a.entries[k])
      {
        EqualSymmetric(a.entries[k], b.entries[k]);
      }
    } else if a.Principal? && b.Principal? {
      EqualSymmetric(a.actorId, b.actorId);
      EqualSymmetric(a.roles, b.roles);
      EqualSymmetric(a.tenantId, b.tenantId);
    }
  }

  lemma {:induction false} AgreeingSymmetric(xs: seq<Value>, ys: seq<Value>)
    ensures Agreeing(xs, ys) == Agreeing(ys, xs)
  {
    if xs != [] && ys != [] {
      EqualSymmetric(xs[0], ys[0]);
      AgreeingSymmetric(xs[1..], ys[1..]);
    }
  }

  /** The operator that says the same with its operands exchanged. */
  function Flip(op: string): string {
    if op == "<" then ">" else if op == "<=" then ">=" else if op == ">" then "<" else "<="
  }

  lemma {:induction false} CompareFlips(op: string, a: Value, b: Value)
    requires op in ORDERINGS
    ensures Compare(op, a, b) == Compare(Flip(op), b, a)
    decreases a, 1
  {
    if a.Str? && b.Str? {
      TextTrichotomy(a.s, b.s);
    } else if a.Tuple? && b.Tuple? {
      ItemsFlip(op, a, a.items, b, b.items);
    } else if a.List? && b.List? {
      ItemsFlip(op, a, a.elements, b, b.elements);
    }
  }

  lemma {:induction false} ItemsFlip(op: string, v: Value, xs: seq<Value>, w: Value, ys: seq<Value>)
    requires op in ORDERINGS
    requires (forall k :: 0 <= k < |xs| ==> xs[k] < v) && (forall k :: 0 <= k < |ys| ==> ys[k] < w)
    ensures CompareItems(op, v, xs, ys) == CompareItems(Flip(op), w, ys, xs)
    decreases v, 0
  {
    var k := Agreeing(xs, ys);
    AgreeingSymmetric(xs, ys);
    FirstUnequalDecides(op, v, xs, ys);
    FirstUnequalDecides(Flip(op), w, ys, xs);
    if k < |xs| && k < |ys| {
      CompareFlips(op, xs[k], ys[k]);
    }
  }

  /** `a > b` is `b < a`, and `a >= b` is `b <= a`; `==` does not care for the order of its operands. */
  lemma OperandsExchange(a: Value, b: Value, ctx: Context)
    ensures Op(a, ">", b, ctx) == Op(b, "<", a, ctx) && Op(a, ">=", b, ctx) == Op(b, "<=", a, ctx)
    ensures Op(a, "==", b, ctx) == Op(b, "==", a, ctx)
  {
    CompareFlips(">", a, b);
    CompareFlips(">=", a, b);
    EqualSymmetric(a, b);
    AllSix(a, b, ctx);
    AllSix(b, a, ctx);
  }

  // ---- Membership ----

  /** `x in` a tuple or list holds exactly when some item makes `==` true. */
  lemma InSequence(x: Value, items: seq<Value>, ctx: Context)
    ensures var found := exists k :: 0 <= k < |items| && Same(items[k], x, ctx);
            Op(x, "in", Tuple(items), ctx) == Yes(found) && Op(x, "in", List(items), ctx) == Yes(found)
  {
    SameIsEqual(ctx);
    OpApplies(x, "in", Tuple(items), ctx);
    OpApplies(x, "in", List(items), ctx);
  }

  /** In a text only a text can be, as a part of it. */
  lemma InText(x: Value, text: string, ctx: Context)
    ensures Op(x, "in", Str(text), ctx) ==
            if x.Str? then Yes(exists k :: OccursAt(x.s, text, k)) else Err(BadTypes)
  {
    OpApplies(x, "in", Str(text), ctx);
    if x.Str? {
      OccursExactly(x.s, text);
    }
  }

  /** In a mapping a string is as a key; other values never are, and lists and mappings are an error, also as parts. */
  lemma InMapping(x: Value, entries: map<string, Value>, ctx: Context)
    ensures var r := Op(x, "in", Dict(entries), ctx);
            match x
            case Str(s) => r == Yes(s in entries)
            case List(_) => r == Err(BadTypes)
            case Dict(_) => r == Err(BadTypes)
            case Tuple(items) =>
              r == if exists k :: 0 <= k < |items| && Op(items[k], "in", Dict(entries), ctx).Err? then Err(BadTypes)
                   else Yes(false)
            case Principal(a, b, c) =>
              r == if Op(a, "in", Dict(entries), ctx).Err? || Op(b, "in", Dict(entries), ctx).Err?
                      || Op(c, "in", Dict(entries), ctx).Err? then Err(BadTypes)
                   else Yes(false)
            case _ => r == Yes(false)
  {
    forall y ensures Op(y, "in", Dict(entries), ctx)
                  == if Hashable(y) then Yes(y.Str? && y.s in entries) else Err(BadTypes)
    {
      OpApplies(y, "in", Dict(entries), ctx);
    }
  }

  lemma InNothingElse(x: Value, container: Value, ctx: Context)
    requires container.Null? || Numeric(container) || container.Principal?
    ensures Op(x, "in", container, ctx) == Err(BadTypes)
  {
    OpApplies(x, "in", container, ctx);
  }

  // ---- Truth ----

  /** What counts as false: nothing, zero, and what is empty. */
  predicate Falsy(v: Value) {
    match v
    case Null => true
    case Str(s) => s == ""
    case Tuple(items) => items == []
    case List(items) => items == []
    case Dict(entries) => entries == map[]
    case Principal(_, _, _) => false
    case _ => Mantissa(v) == 0
  }

  lemma FalsyExactly(v: Value)
    ensures Truthy(v) <==> !Falsy(v)
  {
    if v.Dec? {
      NumbersCross(v, Int(0));
      assert Mantissa(v) * 1 == Mantissa(v);
    }
  }

  /** `not`, `and` and `or` go by whether an operand counts as false, and pass its errors on. */
  lemma TruthOperators(l: Expr, r: Expr, ctx: Context)
    ensures var v := Eval(l, ctx);
            && Eval(Unary("not", l), ctx) == (if v.Err? then v else Yes(Falsy(v.value)))
            && Eval(And(l, r), ctx) == (if v.Err? then v else if Falsy(v.value) then Yes(false) else Eval(r, ctx))
            && Eval(Or(l, r), ctx) == (if v.Err? then v else if Falsy(v.value) then Eval(r, ctx) else Yes(true))
  {
    if Eval(l, ctx).Ok? {
      FalsyExactly(Eval(l, ctx).value);
    }
  }

  // ---- References ----

  lemma {:induction false} WalkFurther(obj: Value, path: seq<string>, part: string)
    ensures Walk(obj, path + [part]) == Part(Walk(obj, path), part)
    decreases path
  {
    if path == [] {
      assert path + [part] == [part];
    } else {
      assert (path + [part])[1..] == path[1..] + [part];
      WalkFurther(Part(obj, path[0]), path[1..], part);
    }
  }

  /** A path goes on from the value it has reached: into an entry of a mapping or a field of the principal. */
  lemma ReferenceStep(path: seq<string>, part: string, ctx: Context)
    requires path != []
    ensures var (whole, before) := (Eval(Ref(path + [part]), ctx), Eval(Ref(path), ctx));
            if before.Err? then whole == before
            else whole == Ok(match before.value
                             case Dict(entries) => if part in entries then entries[part] else Null
                             case Principal(actor, roles, tenant) =>
                               if part == "actor_id" then actor
                               else if part == "roles" then roles
                               else if part == "tenant_id" then tenant
                               else Null
                             case _ => Null)
  {
    assert (path + [part])[1..] == path[1..] + [part];
    WalkFurther(ctx.principal, path[1..], part);
    WalkFurther(Dict(ctx.attributes), path[1..], part);
  }

  /** It starts at the principal or the attributes, and nowhere else. */
  lemma ReferenceRoots(root: string, ctx: Context)
    ensures Eval(Literal(Str(root)), ctx) == Ok(Str(root)) && Eval(Ref([]), ctx) == Err(EmptyReference)
    ensures Eval(Ref([root]), ctx) ==
            if root == "principal" then Ok(ctx.principal)
            else if root == "attributes" then Ok(Dict(ctx.attributes))
            else Err(UnknownRoot(root))
  {
  }

  // ---- What is read ----

  /** The reads decide: a context in which they yield the same gives the same outcome, by the same reads. */
  lemma {:induction false} ReadsSuffice(e: Expr, ctx: Context, other: Context)
    requires forall f :: f in Visited(e, ctx) ==> Eval(f, ctx) == Eval(f, other)
    ensures Eval(e, ctx) == Eval(e, other) && Visited(e, ctx) == Visited(e, other)
  {
    match e
    case Literal(_) =>
    case Ref(_) =>
      assert e in Visited(e, ctx);
    case Unary(op, x) =>
      if op == "not" {
        ReadsSuffice(x, ctx, other);
      }
    case And(l, r) =>
      ReadsSuffice(l, ctx, other);
      if Passes(l, ctx) {
        ReadsSuffice(r, ctx, other);
      }
    case Or(l, r) =>
      ReadsSuffice(l, ctx, other);
      if Eval(l, ctx).Ok? && !Passes(l, ctx) {
        ReadsSuffice(r, ctx, other);
      }
    case Binary(l, _, r) =>
      ReadsSuffice(l, ctx, other);
      if Eval(l, ctx).Ok? {
        ReadsSuffice(r, ctx, other);
      }
  }
}
