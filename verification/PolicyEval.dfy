/** The evaluator of the policy expression language, and what source text means. */
module PolicyEval {
  import opened Text
  import opened PolicyAst
  import opened PolicyLexer
  import opened PolicyText
  import opened PolicyParser
  import opened PolicyPrinter

  datatype Context = Context(principal: Value, attributes: map<string, Value>)

  datatype EvalError =
    | EmptyReference
    | UnknownRoot(root: string)
    | UnsupportedOperator(op: string)
    | BadTypes

  type Outcome = Result<Value, EvalError>

  // ---- References ----

  /** `obj.get(part)` on a mapping, `getattr(obj, part, None)` on anything else. */
  function Part(obj: Value, part: string): Value {
    match obj
    case Dict(entries) => if part in entries then entries[part] else Null
    case Principal(actorId, roles, tenantId) =>
      if part == "actor_id" then actorId
      else if part == "roles" then roles
      else if part == "tenant_id" then tenantId
      else Null
    case _ => Null
  }

  function Walk(obj: Value, path: seq<string>): Value
    decreases path
  {
    if path == [] then obj else Walk(Part(obj, path[0]), path[1..])
  }

  function Resolve(parts: seq<string>, ctx: Context): Outcome {
    if parts == [] then Err(EmptyReference)
    else if parts[0] == "principal" then Ok(Walk(ctx.principal, parts[1..]))
    else if parts[0] == "attributes" then Ok(Walk(Dict(ctx.attributes), parts[1..]))
    else Err(UnknownRoot(parts[0]))
  }

  method ResolveRef(parts: seq<string>, ctx: Context) returns (r: Outcome)
    ensures r == Resolve(parts, ctx)
  {
    if parts == [] {
      return Err(EmptyReference);
    }
    var obj: Value;
    if parts[0] == "principal" {
      obj := ctx.principal;
    } else if parts[0] == "attributes" {
      obj := Dict(ctx.attributes);
    } else {
      return Err(UnknownRoot(parts[0]));
    }
    ghost var root := obj;
    for i := 1 to |parts|
      invariant Walk(root, parts[1..]) == Walk(obj, parts[i..])
    {
      assert parts[i..][1..] == parts[i + 1..];
      obj := Part(obj, parts[i]);
    }
    return Ok(obj);
  }

  // ---- Python's operators on policy values ----

  function Pow10(n: nat): (r: nat)
    ensures r > 0
  {
    if n == 0 then 1 else 10 * Pow10(n - 1)
  }

  predicate IsNumber(v: Value) { v.Bool? || v.Int? || v.Dec? }

  /** `True` and `False` count as 1 and 0. */
  function Number(v: Value): real
    requires IsNumber(v)
  {
    match v
    case Bool(b) => if b then 1.0 else 0.0
    case Int(n) => n as real
    case Dec(m, scale) => m as real / Pow10(scale) as real
  }

  function Truthy(v: Value): bool {
    match v
    case Null => false
    case Str(s) => s != ""
    case Tuple(items) => items != []
    case List(items) => items != []
    case Dict(entries) => entries != map[]
    case Principal(_, _, _) => true
    case _ => Number(v) != 0.0
  }

  predicate Equal(a: Value, b: Value) {
    if IsNumber(a) && IsNumber(b) then Number(a) == Number(b)
    else if a.Tuple? && b.Tuple? then
      |a.items| == |b.items| && forall k :: 0 <= k < |a.items| ==> Equal(a.items[k], b.items[k])
    else if a.List? && b.List? then
      |a.elements| == |b.elements| && forall k :: 0 <= k < |a.elements| ==> Equal(a.elements[k], b.elements[k])
    else if a.Dict? && b.Dict? then
      a.entries.Keys == b.entries.Keys && forall k :: k in a.entries ==> Equal(a.entries[k], b.entries[k])
    else if a.Principal? && b.Principal? then
      Equal(a.actorId, b.actorId) && Equal(a.roles, b.roles) && Equal(a.tenantId, b.tenantId)
    else a == b && (a.Null? || a.Str?)
  }

  function Ordered(op: string, lt: bool, eq: bool): bool {
    match op
    case "<" => lt
    case "<=" => lt || eq
    case ">" => !lt && !eq
    case _ => !lt
  }

  /** `a op b` for one of the four ordering operators. */
  function Compare(op: string, a: Value, b: Value): Result<bool, EvalError>
    decreases a, 1
  {
    if IsNumber(a) && IsNumber(b) then Ok(Ordered(op, Number(a) < Number(b), Number(a) == Number(b)))
    else if a.Str? && b.Str? then Ok(Ordered(op, TextLess(a.s, b.s), a.s == b.s))
    else if a.Tuple? && b.Tuple? then CompareItems(op, a, a.items, b.items)
    else if a.List? && b.List? then CompareItems(op, a, a.elements, b.elements)
    else Err(BadTypes)
  }

  /** Sequences are ordered by their first unequal items, else by length. */
  function CompareItems(op: string, ghost whole: Value, xs: seq<Value>, ys: seq<Value>): Result<bool, EvalError>
    requires forall k :: 0 <= k < |xs| ==> xs[k] < whole
    decreases whole, 0, |xs|
  {
    if xs == [] || ys == [] then Ok(Ordered(op, |xs| < |ys|, |xs| == |ys|))
    else if Equal(xs[0], ys[0]) then CompareItems(op, whole, xs[1..], ys[1..])
    else Compare(op, xs[0], ys[0])
  }

  predicate Hashable(v: Value) {
    match v
    case List(_) => false
    case Dict(_) => false
    case Tuple(items) => forall k :: 0 <= k < |items| ==> Hashable(items[k])
    case Principal(a, r, t) => Hashable(a) && Hashable(r) && Hashable(t)
    case _ => true
  }

  /** `x in container`. */
  function Contains(x: Value, container: Value): Result<bool, EvalError> {
    match container
    case Str(s) => if x.Str? then Ok(Occurs(x.s, s)) else Err(BadTypes)
    case Tuple(items) => Ok(exists k :: 0 <= k < |items| && Equal(items[k], x))
    case List(items) => Ok(exists k :: 0 <= k < |items| && Equal(items[k], x))
    case Dict(entries) => if Hashable(x) then Ok(x.Str? && x.s in entries) else Err(BadTypes)
    case _ => Err(BadTypes)
  }

  // ---- Evaluation ----

  function Eval(e: Expr, ctx: Context): Outcome {
    match e
    case Literal(v) => Ok(v)
    case Ref(parts) => Resolve(parts, ctx)
    case Unary(op, x) =>
      if op != "not" then Err(UnsupportedOperator(op))
      else
        var v :- Eval(x, ctx);
        Ok(Bool(!Truthy(v)))
    case And(l, r) =>
      var v :- Eval(l, ctx);
      if !Truthy(v) then Ok(Bool(false)) else Eval(r, ctx)
    case Or(l, r) =>
      var v :- Eval(l, ctx);
      if Truthy(v) then Ok(Bool(true)) else Eval(r, ctx)
    case Binary(l, op, r) =>
      var left :- Eval(l, ctx);
      var right :- Eval(r, ctx);
      Apply(op, left, right)
  }

  function Apply(op: string, left: Value, right: Value): Outcome {
    if op == "==" then Ok(Bool(Equal(left, right)))
    else if op == "!=" then Ok(Bool(!Equal(left, right)))
    else if op in {"<", "<=", ">", ">="} then
      var b :- Compare(op, left, right);
      Ok(Bool(b))
    else if op == "in" then
      var b :- Contains(left, right);
      Ok(Bool(b))
    else if op == "not_in" then
      var b :- Contains(left, right);
      Ok(Bool(!b))
    else Err(UnsupportedOperator(op))
  }

  /** The literals and references that evaluating `e` reads, in order. */
  function Visited(e: Expr, ctx: Context): seq<Expr> {
    match e
    case Literal(_) => [e]
    case Ref(_) => [e]
    case Unary(op, x) => if op == "not" then Visited(x, ctx) else []
    case And(l, r) => Visited(l, ctx) + if Passes(l, ctx) then Visited(r, ctx) else []
    case Or(l, r) => Visited(l, ctx) + if Eval(l, ctx).Ok? && !Passes(l, ctx) then Visited(r, ctx) else []
    case Binary(l, _, r) => Visited(l, ctx) + if Eval(l, ctx).Ok? then Visited(r, ctx) else []
  }

  predicate Passes(e: Expr, ctx: Context) { Eval(e, ctx).Ok? && Truthy(Eval(e, ctx).value) }

  /** Two trees that no context tells apart: same value or error, same reads in the same order. */
  ghost predicate SameMeaning(e: Expr, f: Expr) {
    forall ctx :: Eval(e, ctx) == Eval(f, ctx) && Visited(e, ctx) == Visited(f, ctx)
  }

  // ---- Chains ----

  /** The operands of an `and` chain, however it is grouped. */
  function Conjuncts(e: Expr): (es: seq<Expr>)
    ensures es != []
  {
    if e.And? then Conjuncts(e.left) + Conjuncts(e.right) else [e]
  }

  function Disjuncts(e: Expr): (es: seq<Expr>)
    ensures es != []
  {
    if e.Or? then Disjuncts(e.left) + Disjuncts(e.right) else [e]
  }

  // A chain runs over any evaluator `run` and any record `read` of reads; `goOn` is the truth value
  // on which it goes on to the next operand: true for `and`, false for `or`.

  function Evaluator(ctx: Context): Expr -> Outcome { e => Eval(e, ctx) }

  function Reader(ctx: Context): Expr -> seq<Expr> { e => Visited(e, ctx) }

  predicate GoesOn(o: Outcome, goOn: bool) { o.Ok? && Truthy(o.value) == goOn }

  function RunChain(es: seq<Expr>, goOn: bool, run: Expr -> Outcome): Outcome
    requires es != []
  {
    if |es| == 1 || run(es[0]).Err? then run(es[0])
    else if !GoesOn(run(es[0]), goOn) then Ok(Bool(!goOn))
    else RunChain(es[1..], goOn, run)
  }

  function ReadChain(es: seq<Expr>, goOn: bool, run: Expr -> Outcome, read: Expr -> seq<Expr>): seq<Expr>
    requires es != []
  {
    read(es[0]) + if |es| > 1 && GoesOn(run(es[0]), goOn) then ReadChain(es[1..], goOn, run, read) else []
  }

  function ReadAll(es: seq<Expr>, read: Expr -> seq<Expr>): seq<Expr> {
    if es == [] then [] else read(es[0]) + ReadAll(es[1..], read)
  }

  lemma {:induction false} RunConcat(es: seq<Expr>, fs: seq<Expr>, goOn: bool, run: Expr -> Outcome)
    requires es != [] && fs != []
    ensures var o := RunChain(es, goOn, run);
            RunChain(es + fs, goOn, run) ==
            if o.Err? then o else if !GoesOn(o, goOn) then Ok(Bool(!goOn)) else RunChain(fs, goOn, run)
  {
    assert (es + fs)[0] == es[0] && (es + fs)[1..] == es[1..] + fs;
    if |es| == 1 {
      assert es[1..] + fs == fs;
    } else {
      RunConcat(es[1..], fs, goOn, run);
    }
  }

  lemma {:induction false} ReadConcat(es: seq<Expr>, fs: seq<Expr>, goOn: bool,
                                      run: Expr -> Outcome, read: Expr -> seq<Expr>)
    requires es != [] && fs != []
    ensures ReadChain(es + fs, goOn, run, read) == ReadChain(es, goOn, run, read) +
            if GoesOn(RunChain(es, goOn, run), goOn) then ReadChain(fs, goOn, run, read) else []
  {
    var first, rest := read(es[0]), es[1..];
    assert (es + fs)[0] == es[0] && (es + fs)[1..] == rest + fs;
    if |es| == 1 {
      assert rest + fs == fs;
      assert ReadChain(es, goOn, run, read) == first + [] == first;
    } else {
      ReadConcat(rest, fs, goOn, run, read);
      ReadsJoin(first, ReadChain(rest, goOn, run, read), ReadChain(fs, goOn, run, read));
    }
  }

  lemma ReadsJoin(a: seq<Expr>, b: seq<Expr>, c: seq<Expr>)
    ensures a + (b + c) == a + b + c && a + [] == a && b + [] == b
  {
  }

  /**
   * `k` is the operand at which a chain stops: those before it go on, and it is the last one,
   * fails, or does not go on.
   */
  predicate StopsAt(es: seq<Expr>, goOn: bool, run: Expr -> Outcome, k: int) {
    && 0 <= k < |es|
    && (forall j :: 0 <= j < k ==> GoesOn(run(es[j]), goOn))
    && (k == |es| - 1 || !GoesOn(run(es[k]), goOn))
  }

  lemma {:induction false} ChainStops(es: seq<Expr>, goOn: bool, run: Expr -> Outcome, read: Expr -> seq<Expr>)
    returns (k: nat)
    requires es != []
    ensures StopsAt(es, goOn, run, k)
    ensures ReadChain(es, goOn, run, read) == ReadAll(es[..k + 1], read)
    ensures RunChain(es, goOn, run) ==
            if k == |es| - 1 || run(es[k]).Err? then run(es[k]) else Ok(Bool(!goOn))
  {
    if |es| > 1 && GoesOn(run(es[0]), goOn) {
      k := ChainStops(es[1..], goOn, run, read);
      assert forall j :: 1 <= j < |es| ==> es[j] == es[1..][j - 1];
      k := k + 1;
      assert es[..k + 1][1..] == es[1..][..k];
    } else {
      k := 0;
      assert es[..1][1..] == [];
    }
  }

  lemma {:induction false} AndChain(e: Expr, ctx: Context)
    ensures Eval(e, ctx) == RunChain(Conjuncts(e), true, Evaluator(ctx))
    ensures Visited(e, ctx) == ReadChain(Conjuncts(e), true, Evaluator(ctx), Reader(ctx))
  {
    if e.And? {
      AndChain(e.left, ctx);
      AndChain(e.right, ctx);
      RunConcat(Conjuncts(e.left), Conjuncts(e.right), true, Evaluator(ctx));
      ReadConcat(Conjuncts(e.left), Conjuncts(e.right), true, Evaluator(ctx), Reader(ctx));
    } else {
      assert Visited(e, ctx) + [] == Visited(e, ctx);
    }
  }

  lemma {:induction false} OrChain(e: Expr, ctx: Context)
    ensures Eval(e, ctx) == RunChain(Disjuncts(e), false, Evaluator(ctx))
    ensures Visited(e, ctx) == ReadChain(Disjuncts(e), false, Evaluator(ctx), Reader(ctx))
  {
    if e.Or? {
      OrChain(e.left, ctx);
      OrChain(e.right, ctx);
      RunConcat(Disjuncts(e.left), Disjuncts(e.right), false, Evaluator(ctx));
      ReadConcat(Disjuncts(e.left), Disjuncts(e.right), false, Evaluator(ctx), Reader(ctx));
    } else {
      assert Visited(e, ctx) + [] == Visited(e, ctx);
    }
  }

  /**
   * What an `and` chain computes, in terms of its operands only: it ends at the first operand that
   * fails or is falsy, with that error or with `False`; otherwise it yields its last operand.
   */
  lemma AndChainMeaning(e: Expr, ctx: Context) returns (k: nat)
    ensures var es := Conjuncts(e);
            && StopsAt(es, true, Evaluator(ctx), k)
            && Visited(e, ctx) == ReadAll(es[..k + 1], Reader(ctx))
            && Eval(e, ctx) == if k == |es| - 1 || Eval(es[k], ctx).Err? then Eval(es[k], ctx) else Ok(Bool(false))
  {
    AndChain(e, ctx);
    k := ChainStops(Conjuncts(e), true, Evaluator(ctx), Reader(ctx));
  }

  /** The same for `or`: it ends at the first operand that fails or is truthy. */
  lemma OrChainMeaning(e: Expr, ctx: Context) returns (k: nat)
    ensures var es := Disjuncts(e);
            && StopsAt(es, false, Evaluator(ctx), k)
            && Visited(e, ctx) == ReadAll(es[..k + 1], Reader(ctx))
            && Eval(e, ctx) == if k == |es| - 1 || Eval(es[k], ctx).Err? then Eval(es[k], ctx) else Ok(Bool(true))
  {
    OrChain(e, ctx);
    k := ChainStops(Disjuncts(e), false, Evaluator(ctx), Reader(ctx));
  }

  /** Chains of the same operands mean the same, however they are grouped. */
  lemma GroupingIsFree(e: Expr, f: Expr)
    requires Conjuncts(e) == Conjuncts(f) || Disjuncts(e) == Disjuncts(f)
    ensures SameMeaning(e, f)
  {
    forall ctx ensures Eval(e, ctx) == Eval(f, ctx) && Visited(e, ctx) == Visited(f, ctx) {
      AndChain(e, ctx);
      AndChain(f, ctx);
      OrChain(e, ctx);
      OrChain(f, ctx);
    }
  }

  // ---- Parentheses inside chains ----

  // The grammar with chains that may group either way: each operand of an `or` may be an `or` again,
  // and each operand of an `and` an `and`, in parentheses or not. Many token lists have many readings.

  ghost predicate ReadsOr(e: Expr, ts: seq<Token>)
    decreases |ts|, 5
  {
    || ReadsAnd(e, ts)
    || (e.Or? && exists k ::
          0 <= k < |ts| && ts[k] == KwOr && ReadsOr(e.left, ts[..k]) && ReadsOr(e.right, ts[k + 1..]))
  }

  ghost predicate ReadsAnd(e: Expr, ts: seq<Token>)
    decreases |ts|, 4
  {
    || ReadsNot(e, ts)
    || (e.And? && exists k ::
          0 <= k < |ts| && ts[k] == KwAnd && ReadsAnd(e.left, ts[..k]) && ReadsAnd(e.right, ts[k + 1..]))
  }

  ghost predicate ReadsNot(e: Expr, ts: seq<Token>)
    decreases |ts|, 3
  {
    || ReadsComparison(e, ts)
    || (e.Unary? && e.op == "not" && ts != [] && ts[0] == KwNot && ReadsNot(e.operand, ts[1..]))
  }

  ghost predicate ReadsComparison(e: Expr, ts: seq<Token>)
    decreases |ts|, 2
  {
    || ReadsPrimary(e, ts)
    || (e.Binary? && IsOperator(e.op) && exists k, n :: ReadsAt(e, ts, k, n))
  }

  ghost predicate ReadsAt(e: Expr, ts: seq<Token>, k: int, n: int)
    requires e.Binary?
    decreases |ts|, 1
  {
    && 0 < k < n <= |ts|
    && ts[k..n] == OperatorTokens(e.op)
    && ReadsPrimary(e.left, ts[..k])
    && ReadsPrimary(e.right, ts[n..])
  }

  ghost predicate ReadsPrimary(e: Expr, ts: seq<Token>)
    decreases |ts|, 0
  {
    || (e.Literal? && |ts| == 1 && LiteralOf(ts[0]) == Some(e.value))
    || (e.Ref? && e.parts != [] && ts == RefTokens(e.parts))
    || (|ts| > 2 && ts[0] == LParen && ts[|ts| - 1] == RParen && ReadsOr(e, ts[1..|ts| - 1]))
  }

  /** What the grammar derives from two chains with `or` between them: one chain of the operands of both. */
  lemma {:induction false} AppendOr(a: Expr, before: seq<Token>, b: Expr, after: seq<Token>) returns (g: Expr)
    requires DerivesOr(a, before) && DerivesOr(b, after)
    ensures DerivesOr(g, before + [KwOr] + after) && Disjuncts(g) == Disjuncts(Or(a, b))
    decreases b
  {
    if DerivesAnd(b, after) {
      g := Or(a, b);
      ConcatOr(g, before, after);
    } else {
      assert after[0..|after|] == after;
      var m := SplitOr(b, after, 0, |after|);
      var first := AppendOr(a, before, b.left, after[0..m]);
      g := Or(first, b.right);
      ConcatOr(g, before + [KwOr] + after[0..m], after[m + 1..|after|]);
      assert before + [KwOr] + after == before + [KwOr] + after[0..m] + [KwOr] + after[m + 1..|after|];
      assert Disjuncts(a) + Disjuncts(b.left) + Disjuncts(b.right) == Disjuncts(a) + Disjuncts(b);
    }
  }

  lemma {:induction false} AppendAnd(a: Expr, before: seq<Token>, b: Expr, after: seq<Token>) returns (g: Expr)
    requires DerivesAnd(a, before) && DerivesAnd(b, after)
    ensures DerivesAnd(g, before + [KwAnd] + after) && Conjuncts(g) == Conjuncts(And(a, b))
    decreases b
  {
    if DerivesNot(b, after) {
      g := And(a, b);
      ConcatAnd(g, before, after);
    } else {
      assert after[0..|after|] == after;
      var m := SplitAnd(b, after, 0, |after|);
      var first := AppendAnd(a, before, b.left, after[0..m]);
      g := And(first, b.right);
      ConcatAnd(g, before + [KwAnd] + after[0..m], after[m + 1..|after|]);
      assert before + [KwAnd] + after == before + [KwAnd] + after[0..m] + [KwAnd] + after[m + 1..|after|];
      assert Conjuncts(a) + Conjuncts(b.left) + Conjuncts(b.right) == Conjuncts(a) + Conjuncts(b);
    }
  }

  lemma SameInOr(a: Expr, b: Expr, c: Expr, d: Expr)
    requires SameMeaning(a, c) && SameMeaning(b, d)
    ensures SameMeaning(Or(a, b), Or(c, d))
  {
    var (f, g) := (Or(a, b), Or(c, d));
    forall ctx ensures Eval(f, ctx) == Eval(g, ctx) && Visited(f, ctx) == Visited(g, ctx) {
      assert Eval(a, ctx) == Eval(c, ctx) && Visited(a, ctx) == Visited(c, ctx);
      assert Eval(b, ctx) == Eval(d, ctx) && Visited(b, ctx) == Visited(d, ctx);
    }
  }

  lemma SameInAnd(a: Expr, b: Expr, c: Expr, d: Expr)
    requires SameMeaning(a, c) && SameMeaning(b, d)
    ensures SameMeaning(And(a, b), And(c, d))
  {
    var (f, g) := (And(a, b), And(c, d));
    forall ctx ensures Eval(f, ctx) == Eval(g, ctx) && Visited(f, ctx) == Visited(g, ctx) {
      assert Eval(a, ctx) == Eval(c, ctx) && Visited(a, ctx) == Visited(c, ctx);
      assert Eval(b, ctx) == Eval(d, ctx) && Visited(b, ctx) == Visited(d, ctx);
    }
  }

  lemma SameInNot(a: Expr, b: Expr)
    requires SameMeaning(a, b)
    ensures SameMeaning(Unary("not", a), Unary("not", b))
  {
    var (f, g) := (Unary("not", a), Unary("not", b));
    forall ctx ensures Eval(f, ctx) == Eval(g, ctx) && Visited(f, ctx) == Visited(g, ctx) {
      assert Eval(a, ctx) == Eval(b, ctx) && Visited(a, ctx) == Visited(b, ctx);
    }
  }

  lemma SameInBinary(op: string, a: Expr, b: Expr, c: Expr, d: Expr)
    requires SameMeaning(a, c) && SameMeaning(b, d)
    ensures SameMeaning(Binary(a, op, b), Binary(c, op, d))
  {
    var (f, g) := (Binary(a, op, b), Binary(c, op, d));
    forall ctx ensures Eval(f, ctx) == Eval(g, ctx) && Visited(f, ctx) == Visited(g, ctx) {
      assert Eval(a, ctx) == Eval(c, ctx) && Visited(a, ctx) == Visited(c, ctx);
      assert Eval(b, ctx) == Eval(d, ctx) && Visited(b, ctx) == Visited(d, ctx);
    }
  }

  lemma SameChained(f: Expr, g: Expr, h: Expr)
    requires SameMeaning(f, g) && SameMeaning(g, h)
    ensures SameMeaning(f, h)
  {
    forall ctx ensures Eval(f, ctx) == Eval(h, ctx) && Visited(f, ctx) == Visited(h, ctx) {
      assert Eval(f, ctx) == Eval(g, ctx) && Visited(f, ctx) == Visited(g, ctx);
    }
  }

  /** Whatever reading a token list has, the grammar derives a tree from it that means the same. */
  lemma {:induction false} RegroupOr(e: Expr, ts: seq<Token>) returns (g: Expr)
    requires ReadsOr(e, ts)
    ensures DerivesOr(g, ts) && SameMeaning(g, e)
    decreases |ts|, 5
  {
    if ReadsAnd(e, ts) {
      g := RegroupAnd(e, ts);
    } else {
      var k :| 0 <= k < |ts| && ts[k] == KwOr && ReadsOr(e.left, ts[..k]) && ReadsOr(e.right, ts[k + 1..]);
      var a := RegroupOr(e.left, ts[..k]);
      var b := RegroupOr(e.right, ts[k + 1..]);
      g := AppendOr(a, ts[..k], b, ts[k + 1..]);
      assert ts == ts[..k] + [KwOr] + ts[k + 1..];
      GroupingIsFree(g, Or(a, b));
      SameInOr(a, b, e.left, e.right);
      SameChained(g, Or(a, b), e);
    }
  }

  lemma {:induction false} RegroupAnd(e: Expr, ts: seq<Token>) returns (g: Expr)
    requires ReadsAnd(e, ts)
    ensures DerivesAnd(g, ts) && SameMeaning(g, e)
    decreases |ts|, 4
  {
    if ReadsNot(e, ts) {
      g := RegroupNot(e, ts);
    } else {
      var k :| 0 <= k < |ts| && ts[k] == KwAnd && ReadsAnd(e.left, ts[..k]) && ReadsAnd(e.right, ts[k + 1..]);
      var a := RegroupAnd(e.left, ts[..k]);
      var b := RegroupAnd(e.right, ts[k + 1..]);
      g := AppendAnd(a, ts[..k], b, ts[k + 1..]);
      assert ts == ts[..k] + [KwAnd] + ts[k + 1..];
      GroupingIsFree(g, And(a, b));
      SameInAnd(a, b, e.left, e.right);
      SameChained(g, And(a, b), e);
    }
  }

  lemma {:induction false} RegroupNot(e: Expr, ts: seq<Token>) returns (g: Expr)
    requires ReadsNot(e, ts)
    ensures DerivesNot(g, ts) && SameMeaning(g, e)
    decreases |ts|, 3
  {
    if ReadsComparison(e, ts) {
      g := RegroupComparison(e, ts);
    } else {
      var x := RegroupNot(e.operand, ts[1..]);
      g := Unary("not", x);
      assert ts == [KwNot] + ts[1..];
      ConcatNot(g, ts[1..]);
      SameInNot(x, e.operand);
    }
  }

  lemma {:induction false} RegroupComparison(e: Expr, ts: seq<Token>) returns (g: Expr)
    requires ReadsComparison(e, ts)
    ensures DerivesComparison(g, ts) && SameMeaning(g, e)
    decreases |ts|, 2
  {
    if ReadsPrimary(e, ts) {
      g := RegroupPrimary(e, ts);
    } else {
      var k, n :| ReadsAt(e, ts, k, n);
      var a := RegroupPrimary(e.left, ts[..k]);
      var b := RegroupPrimary(e.right, ts[n..]);
      g := Binary(a, e.op, b);
      assert ComparesAt(g, ts, k, n);
      SameInBinary(e.op, a, b, e.left, e.right);
    }
  }

  lemma {:induction false} RegroupPrimary(e: Expr, ts: seq<Token>) returns (g: Expr)
    requires ReadsPrimary(e, ts)
    ensures DerivesPrimary(g, ts) && SameMeaning(g, e)
    decreases |ts|, 0
  {
    g := e;
    if !DerivesPrimary(e, ts) {
      g := RegroupOr(e, ts[1..|ts| - 1]);
      assert ts[0..|ts|] == ts;
      ParenStretch(g, ts, 0, |ts|);
    }
  }

  /**
   * However a source is read, with its chains grouped one way or another and with or without
   * parentheses inside them: it parses, perhaps to another tree, but to one with the same meaning.
   */
  lemma AnyReadingMeansTheSame(s: string, l: Layout, e: Expr)
    requires Legal(l) && Source(l) == s && ReadsOr(e, Toks(l))
    ensures ParseExpr(s).Ok? && SameMeaning(ParseExpr(s).value, e)
  {
    var g := RegroupOr(e, Toks(l));
    ParseExprExact(s, g);
  }

  /**
   * The tokens of `e` with parentheses where precedence needs them, but around operands of a chain
   * of the same operator, or anywhere else, only where `keep` puts them.
   */
  function PrintKeeping(e: Expr, level: nat, keep: Expr -> bool): seq<Token>
    decreases e, 1
  {
    if Precedence(e) < level || keep(e) then [LParen] + KeepingBody(e, keep) + [RParen] else KeepingBody(e, keep)
  }

  function KeepingBody(e: Expr, keep: Expr -> bool): seq<Token>
    decreases e, 0
  {
    match e
    case Literal(v) => LiteralTokens(v)
    case Ref(parts) => RefTokens(parts)
    case Unary(_, x) => [KwNot] + PrintKeeping(x, 2, keep)
    case Binary(l, op, r) => PrintKeeping(l, 4, keep) + OperatorTokens(op) + PrintKeeping(r, 4, keep)
    case And(l, r) => PrintKeeping(l, 1, keep) + [KwAnd] + PrintKeeping(r, 1, keep)
    case Or(l, r) => PrintKeeping(l, 0, keep) + [KwOr] + PrintKeeping(r, 0, keep)
  }

  ghost predicate Reads(e: Expr, ts: seq<Token>, level: nat) {
    if level == 0 then ReadsOr(e, ts)
    else if level == 1 then ReadsAnd(e, ts)
    else if level == 2 then ReadsNot(e, ts)
    else if level == 3 then ReadsComparison(e, ts)
    else ReadsPrimary(e, ts)
  }

  lemma {:induction false} ReadsLooser(e: Expr, ts: seq<Token>, level: nat, looser: nat)
    requires Reads(e, ts, level) && looser <= level <= 4
    ensures Reads(e, ts, looser)
    decreases level - looser
  {
    if looser < level {
      ReadsLooser(e, ts, level, looser + 1);
    }
  }

  lemma {:induction false} KeepingReads(e: Expr, level: nat, keep: Expr -> bool)
    requires WellFormed(e) && level <= 4
    ensures Reads(e, PrintKeeping(e, level, keep), level) && PrintKeeping(e, level, keep) != []
    decreases e, 1
  {
    var body, ts := KeepingBody(e, keep), PrintKeeping(e, level, keep);
    KeepingBodyReads(e, keep);
    if Precedence(e) < level || keep(e) {
      ReadsLooser(e, body, Precedence(e), 0);
      assert ts[1..|ts| - 1] == body;
      ReadsLooser(e, ts, 4, level);
    } else {
      ReadsLooser(e, body, Precedence(e), level);
    }
  }

  lemma {:induction false} KeepingBodyReads(e: Expr, keep: Expr -> bool)
    requires WellFormed(e)
    ensures Reads(e, KeepingBody(e, keep), Precedence(e)) && KeepingBody(e, keep) != []
    decreases e, 0
  {
    match e
    case Literal(_) =>
    case Ref(_) =>
    case Unary(_, x) =>
      KeepingReads(x, 2, keep);
    case Binary(l, op, r) =>
      KeepingReads(l, 4, keep);
      KeepingReads(r, 4, keep);
      BinaryReads(e, PrintKeeping(l, 4, keep), PrintKeeping(r, 4, keep));
    case And(l, r) =>
      KeepingReads(l, 1, keep);
      KeepingReads(r, 1, keep);
      AndReads(e, PrintKeeping(l, 1, keep), PrintKeeping(r, 1, keep));
    case Or(l, r) =>
      KeepingReads(l, 0, keep);
      KeepingReads(r, 0, keep);
      OrReads(e, PrintKeeping(l, 0, keep), PrintKeeping(r, 0, keep));
  }

  lemma BinaryReads(e: Expr, a: seq<Token>, b: seq<Token>)
    requires e.Binary? && IsOperator(e.op) && ReadsPrimary(e.left, a) && ReadsPrimary(e.right, b) && a != [] && b != []
    ensures ReadsComparison(e, a + OperatorTokens(e.op) + b)
  {
    var o := OperatorTokens(e.op);
    Pieces(a, o, b);
    assert ReadsAt(e, a + o + b, |a|, |a| + |o|);
  }

  lemma AndReads(e: Expr, a: seq<Token>, b: seq<Token>)
    requires e.And? && ReadsAnd(e.left, a) && ReadsAnd(e.right, b)
    ensures ReadsAnd(e, a + [KwAnd] + b)
  {
    Pieces(a, [KwAnd], b);
  }

  lemma OrReads(e: Expr, a: seq<Token>, b: seq<Token>)
    requires e.Or? && ReadsOr(e.left, a) && ReadsOr(e.right, b)
    ensures ReadsOr(e, a + [KwOr] + b)
  {
    Pieces(a, [KwOr], b);
  }

  lemma Pieces(a: seq<Token>, o: seq<Token>, b: seq<Token>)
    ensures var t := a + o + b;
            && t[..|a|] == a && t[|a|..|a| + |o|] == o && t[|a| + |o|..] == b
            && (|o| == 1 ==> t[|a|] == o[0])
  {
  }

  /**
   * Parentheses that only group operands of one `and` or `or` chain can be left out of a source, all
   * of them or some: it still parses, to a tree with the same meaning.
   */
  lemma ChainParenthesesAreFree(e: Expr, keep: Expr -> bool, l: Layout)
    requires WellFormed(e) && Legal(l) && Toks(l) == PrintKeeping(e, 0, keep)
    ensures ParseExpr(Source(l)).Ok? && SameMeaning(ParseExpr(Source(l)).value, e)
  {
    KeepingReads(e, 0, keep);
    AnyReadingMeansTheSame(Source(l), l, e);
  }

  // ---- The two ways to write non-membership ----

  /** `not x in y` and `x not in y` parse to different trees that always evaluate alike. */
  lemma NotInReadsEitherWay(x: Expr, xs: seq<Token>, y: Expr, ys: seq<Token>)
    requires DerivesPrimary(x, xs) && DerivesPrimary(y, ys) && Eof !in xs && Eof !in ys
    ensures var before := ParseTokens([KwNot] + (xs + [KwIn] + ys) + [Eof]);
            var between := ParseTokens(xs + [KwNot, KwIn] + ys + [Eof]);
            && before == Ok(Unary("not", Binary(x, "in", y)))
            && between == Ok(Binary(x, "not_in", y))
            && SameMeaning(before.value, between.value)
  {
    var member, before, between := Binary(x, "in", y), Unary("not", Binary(x, "in", y)), Binary(x, "not_in", y);
    var ms, bs, ns := xs + [KwIn] + ys, [KwNot] + (xs + [KwIn] + ys), xs + [KwNot, KwIn] + ys;
    ConcatComparison(member, xs, ys);
    assert DerivesNot(member, ms);
    ConcatNot(before, ms);
    LiftToOr(before, bs, 2);
    ConcatComparison(between, xs, ys);
    LiftToOr(between, ns, 3);
    ParseExact(bs, before);
    ParseExact(ns, between);
    forall ctx ensures Eval(before, ctx) == Eval(between, ctx) && Visited(before, ctx) == Visited(between, ctx) {
      NotInIsNegatedIn(x, y, ctx);
    }
  }

  lemma NotInIsNegatedIn(x: Expr, y: Expr, ctx: Context)
    ensures Eval(Unary("not", Binary(x, "in", y)), ctx) == Eval(Binary(x, "not_in", y), ctx)
  {
    var member := Eval(Binary(x, "in", y), ctx);
    assert member.Ok? ==> member.value.Bool? && Truthy(member.value) == member.value.b;
  }

  lemma LiftToOr(e: Expr, ts: seq<Token>, level: nat)
    requires level <= 4 && Derives(e, ts, level)
    ensures DerivesOr(e, ts)
  {
    DerivesLooser(e, ts, level, 0);
  }

  /** The only errors a parsed source can raise are unknown roots and bad operand types. */
  lemma {:induction false} ParsedSourceErrors(e: Expr, ctx: Context)
    requires WellFormed(e)
    ensures Eval(e, ctx).Err? ==> Eval(e, ctx).error.UnknownRoot? || Eval(e, ctx).error.BadTypes?
  {
    match e
    case Literal(_) =>
    case Ref(_) =>
    case Unary(_, x) => ParsedSourceErrors(x, ctx);
    case Binary(l, op, r) =>
      ParsedSourceErrors(l, ctx);
      ParsedSourceErrors(r, ctx);
      if Eval(l, ctx).Ok? && Eval(r, ctx).Ok? {
        ApplyErrors(op, Eval(l, ctx).value, Eval(r, ctx).value);
      }
    case And(l, r) =>
      ParsedSourceErrors(l, ctx);
      ParsedSourceErrors(r, ctx);
    case Or(l, r) =>
      ParsedSourceErrors(l, ctx);
      ParsedSourceErrors(r, ctx);
  }

  lemma ApplyErrors(op: string, a: Value, b: Value)
    requires IsOperator(op)
    ensures Apply(op, a, b).Ok? || Apply(op, a, b) == Err(BadTypes)
  {
    CompareErrors(op, a, b);
  }

  lemma {:induction false} CompareErrors(op: string, a: Value, b: Value)
    ensures Compare(op, a, b).Ok? || Compare(op, a, b) == Err(BadTypes)
    decreases a, 1
  {
    if a.Tuple? && b.Tuple? {
      CompareItemsErrors(op, a, a.items, b.items);
    } else if a.List? && b.List? {
      CompareItemsErrors(op, a, a.elements, b.elements);
    }
  }

  lemma {:induction false} CompareItemsErrors(op: string, whole: Value, xs: seq<Value>, ys: seq<Value>)
    requires forall k :: 0 <= k < |xs| ==> xs[k] < whole
    ensures var r := CompareItems(op, whole, xs, ys);
            r.Ok? || r == Err(BadTypes)
    decreases whole, 0, |xs|
  {
    if xs != [] && ys != [] {
      if Equal(xs[0], ys[0]) {
        CompareItemsErrors(op, whole, xs[1..], ys[1..]);
      } else {
        CompareErrors(op, xs[0], ys[0]);
      }
    }
  }

  /** `p` for `<`, `q` for `>`: not both, neither exactly when `eq`, and `<=`, `>=` are their negations. */
  ghost predicate Consistent(lt: Result<bool, EvalError>, gt: Result<bool, EvalError>,
                             le: Result<bool, EvalError>, ge: Result<bool, EvalError>, eq: bool) {
    if lt.Err? then gt == lt && le == lt && ge == lt
    else
      && gt.Ok? && le == Ok(!gt.value) && ge == Ok(!lt.value)
      && !(lt.value && gt.value)
      && (!lt.value && !gt.value <==> eq)
  }

  /** On any two values, the four orderings and `==` fit together, or none of the orderings applies. */
  lemma {:induction false} OrderingsAgree(a: Value, b: Value)
    ensures Consistent(Compare("<", a, b), Compare(">", a, b), Compare("<=", a, b), Compare(">=", a, b), Equal(a, b))
    decreases a, 1
  {
    if a.Str? && b.Str? {
      TextTrichotomy(a.s, b.s);
    } else if a.Tuple? && b.Tuple? {
      ItemOrderingsAgree(a, a.items, b.items);
    } else if a.List? && b.List? {
      ItemOrderingsAgree(a, a.elements, b.elements);
    }
  }

  /** How many items at the front of two sequences are equal. */
  function Agreeing(xs: seq<Value>, ys: seq<Value>): (k: nat)
    ensures k <= |xs| && k <= |ys|
    ensures k < |xs| && k < |ys| ==> !Equal(xs[k], ys[k])
  {
    if xs == [] || ys == [] || !Equal(xs[0], ys[0]) then 0 else 1 + Agreeing(xs[1..], ys[1..])
  }

  lemma {:induction false} AgreeingItems(xs: seq<Value>, ys: seq<Value>)
    ensures forall i :: 0 <= i < Agreeing(xs, ys) ==> Equal(xs[i], ys[i])
  {
    if xs != [] && ys != [] && Equal(xs[0], ys[0]) {
      AgreeingItems(xs[1..], ys[1..]);
      forall i | 0 <= i < Agreeing(xs, ys) ensures Equal(xs[i], ys[i]) {
        assert i > 0 ==> Equal(xs[1..][i - 1], ys[1..][i - 1]);
      }
    }
  }

  /** Two sequences compare like their first unequal items, or else like their lengths. */
  lemma {:induction false} FirstUnequalDecides(op: string, whole: Value, xs: seq<Value>, ys: seq<Value>)
    requires forall k :: 0 <= k < |xs| ==> xs[k] < whole
    ensures var k := Agreeing(xs, ys);
            CompareItems(op, whole, xs, ys) ==
            if k < |xs| && k < |ys| then Compare(op, xs[k], ys[k]) else Ok(Ordered(op, |xs| < |ys|, |xs| == |ys|))
    decreases |xs|
  {
    if xs != [] && ys != [] && Equal(xs[0], ys[0]) {
      FirstUnequalDecides(op, whole, xs[1..], ys[1..]);
    }
  }

  lemma {:induction false} ItemOrderingsAgree(whole: Value, xs: seq<Value>, ys: seq<Value>)
    requires forall k :: 0 <= k < |xs| ==> xs[k] < whole
    ensures Consistent(CompareItems("<", whole, xs, ys), CompareItems(">", whole, xs, ys),
                       CompareItems("<=", whole, xs, ys), CompareItems(">=", whole, xs, ys),
                       |xs| == |ys| && forall k :: 0 <= k < |xs| ==> Equal(xs[k], ys[k]))
    decreases whole, 0
  {
    var k := Agreeing(xs, ys);
    AgreeingItems(xs, ys);
    FirstUnequalDecides("<", whole, xs, ys);
    FirstUnequalDecides(">", whole, xs, ys);
    FirstUnequalDecides("<=", whole, xs, ys);
    FirstUnequalDecides(">=", whole, xs, ys);
    if k < |xs| && k < |ys| {
      OrderingsAgree(xs[k], ys[k]);
    }
  }
}
