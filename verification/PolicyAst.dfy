/** Values and syntax trees of the policy expression language. */
module PolicyAst {
  import opened Text

  /**
   * A policy value. `Null`, `Bool`, `Int`, `Dec` and `Str` can be written as literals; a `Dec`
   * is the exact decimal numeral `mantissa / 10^scale`. The other values only come from the
   * evaluation context.
   */
  datatype Value =
    | Null
    | Bool(b: bool)
    | Int(n: int)
    | Dec(mantissa: int, scale: nat)
    | Str(s: string)
    | Tuple(items: seq<Value>)
    | List(elements: seq<Value>)
    | Dict(entries: map<string, Value>)
    | Principal(actorId: Value, roles: Value, tenantId: Value)

  datatype Expr =
    | Literal(value: Value)
    | Ref(parts: seq<string>)
    | Unary(op: string, operand: Expr)
    | Binary(left: Expr, op: string, right: Expr)
    | And(left: Expr, right: Expr)
    | Or(left: Expr, right: Expr)

  const COMPARISONS: set<string> := {"==", "!=", "<", ">", "<=", ">="}

  const KEYWORDS: set<string> := {"and", "or", "not", "null", "true", "false", "in"}

  predicate IsWordChar(c: char) { IsLetter(c) || IsDigit(c) || c == '_' }

  predicate IsWord(s: string) {
    && s != ""
    && (IsLetter(s[0]) || s[0] == '_')
    && forall k :: 0 <= k < |s| ==> IsWordChar(s[k])
  }

  /** A word that no letter case turns into a keyword. */
  predicate IsIdentifier(s: string) { IsWord(s) && Lower(s) !in KEYWORDS }

  predicate AllIdentifiers(words: seq<string>) { forall w :: w in words ==> IsIdentifier(w) }

  predicate IsLiteralValue(v: Value) { v.Null? || v.Bool? || v.Int? || v.Dec? || v.Str? }

  /** The trees that the surface syntax can express. */
  predicate WellFormed(e: Expr) {
    match e
    case Literal(v) => IsLiteralValue(v)
    case Ref(parts) => parts != [] && AllIdentifiers(parts)
    case Unary(op, x) => op == "not" && WellFormed(x)
    case Binary(l, op, r) => (op in COMPARISONS || op == "in" || op == "not_in") && WellFormed(l) && WellFormed(r)
    case And(l, r) => WellFormed(l) && WellFormed(r)
    case Or(l, r) => WellFormed(l) && WellFormed(r)
  }
}
