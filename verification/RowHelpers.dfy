/** Filtering and sorting of rows in the dict-backed repositories. */
module RowHelpers {
  import opened Text
  import opened QuerySpec

  datatype Cell = Null | Bool(b: bool) | Int(n: int) | Str(s: string)

  type Row = map<string, Cell>

  /** A filter value: one cell, or a sequence of cells with the text that `str` makes of it. */
  datatype Operand = One(cell: Cell) | Many(cells: seq<Cell>, text: string)

  datatype Operator = EQ | NE | GT | GTE | LT | LTE | CONTAINS | STARTSWITH | ENDSWITH | BETWEEN | IN | NOT_IN | EXISTS

  datatype Condition = Condition(field: string, operator: Operator, value: Operand)

  /** The `TypeError` of comparing values that have no order. */
  datatype RowError = BadTypes

  // ---- Cells ----

  predicate IsNumber(c: Cell) { c.Bool? || c.Int? }

  function Number(c: Cell): int
    requires IsNumber(c)
  {
    match c
    case Bool(b) => if b then 1 else 0
    case Int(n) => n
  }

  predicate SameCell(a: Cell, b: Cell) {
    if IsNumber(a) && IsNumber(b) then Number(a) == Number(b) else a == b
  }

  /** `a < b`, where the two have an order. */
  function Less(a: Cell, b: Cell): Result<bool, RowError> {
    if IsNumber(a) && IsNumber(b) then Ok(Number(a) < Number(b))
    else if a.Str? && b.Str? then Ok(TextLess(a.s, b.s))
    else Err(BadTypes)
  }

  function LessOrSame(a: Cell, b: Cell): Result<bool, RowError> {
    var less :- Less(a, b);
    Ok(less || SameCell(a, b))
  }

  function TextOf(c: Cell): string {
    match c
    case Null => "None"
    case Bool(b) => if b then "True" else "False"
    case Int(n) => PrintInt(n)
    case Str(s) => s
  }

  function OperandText(v: Operand): string {
    match v
    case One(c) => TextOf(c)
    case Many(_, text) => text
  }

  predicate EndsWith(text: string, end: string) {
    |end| <= |text| && text[|text| - |end|..] == end
  }

  // ---- Filters ----

  predicate InTenantScope(row: Row, tenantId: Option<string>) {
    tenantId.None? || "tenant_id" !in row || row["tenant_id"] == Str(tenantId.value)
  }

  function Ordering(column: Cell, op: Operator, value: Operand): Result<bool, RowError>
    requires op in {GT, GTE, LT, LTE}
  {
    match value
    case Many(_, _) => Err(BadTypes)
    case One(c) =>
      if op == GT then Less(c, column)
      else if op == GTE then LessOrSame(c, column)
      else if op == LT then Less(column, c)
      else LessOrSame(column, c)
  }

  predicate Listed(c: Cell, cells: seq<Cell>) { exists k :: 0 <= k < |cells| && SameCell(c, cells[k]) }

  function MatchesCondition(row: Row, condition: Condition): Result<bool, RowError> {
    var Condition(field, op, value) := condition;
    if field !in row then Ok(false)
    else
      var column := row[field];
      match op
      case EQ => Ok(value.One? && SameCell(column, value.cell))
      case NE => Ok(!(value.One? && SameCell(column, value.cell)))
      case GT => Ordering(column, op, value)
      case GTE => Ordering(column, op, value)
      case LT => Ordering(column, op, value)
      case LTE => Ordering(column, op, value)
      case CONTAINS =>
        if value.One? && value.cell.Str? then Ok(Occurs(value.cell.s, TextOf(column))) else Err(BadTypes)
      case STARTSWITH => Ok(OperandText(value) <= TextOf(column))
      case ENDSWITH => Ok(EndsWith(TextOf(column), OperandText(value)))
      case BETWEEN =>
        if value.Many? && |value.cells| == 2 then
          var above :- LessOrSame(value.cells[0], column);
          if above then LessOrSame(column, value.cells[1]) else Ok(false)
        else Ok(false)
      case IN => Ok(value.Many? && Listed(column, value.cells))
      case NOT_IN => Ok(value.Many? && !Listed(column, value.cells))
      case EXISTS =>
        var wanted := match value {
          case Many(cells, _) => cells != []
          case One(Null) => false
          case One(Str(s)) => s != ""
          case One(c) => Number(c) != 0
        };
        Ok(wanted <==> column != Null)
  }

  function InScope(rows: seq<Row>, tenantId: Option<string>): seq<Row> {
    if rows == [] then []
    else (if InTenantScope(rows[0], tenantId) then [rows[0]] else []) + InScope(rows[1..], tenantId)
  }

  /** One filter pass: the rows that match, in order, unless a comparison raises. */
  function Filter(rows: seq<Row>, condition: Condition): Result<seq<Row>, RowError> {
    if rows == [] then Ok([])
    else
      var keep :- MatchesCondition(rows[0], condition);
      var rest :- Filter(rows[1..], condition);
      Ok((if keep then [rows[0]] else []) + rest)
  }

  function FilterAll(rows: seq<Row>, conditions: seq<Condition>): Result<seq<Row>, RowError>
    decreases conditions
  {
    if conditions == [] then Ok(rows)
    else
      var kept :- Filter(rows, conditions[0]);
      FilterAll(kept, conditions[1..])
  }

  // ---- Sorting ----

  /** The column value that `sort_key` looks at; a missing field counts as `None`. */
  function Column(row: Row, field: string): Cell { if field in row then row[field] else Null }

  /** The order of `(value is None, value)`; numbers and strings never meet in one comparable column. */
  predicate KeyAtMost(a: Cell, b: Cell) {
    match (a, b)
    case (_, Null) => true
    case (Null, _) => false
    case (Str(x), Str(y)) => x == y || TextLess(x, y)
    case (Str(_), _) => false
    case (_, Str(_)) => true
    case _ => Number(a) <= Number(b)
  }

  lemma KeyOrder(a: Cell, b: Cell, c: Cell)
    ensures KeyAtMost(a, b) || KeyAtMost(b, a)
    ensures KeyAtMost(a, b) && KeyAtMost(b, c) ==> KeyAtMost(a, c)
  {
    if a.Str? && b.Str? {
      TextTrichotomy(a.s, b.s);
      if c.Str? && TextLess(a.s, b.s) && TextLess(b.s, c.s) {
        TextLessTransitive(a.s, b.s, c.s);
      }
    }
  }

  /** Row `r` need not come after row `s`. */
  predicate AtMost(spec: SortSpec, r: Row, s: Row) {
    if spec.dir == Desc then KeyAtMost(Column(s, spec.field), Column(r, spec.field))
    else KeyAtMost(Column(r, spec.field), Column(s, spec.field))
  }

  lemma AtMostIsOrder(spec: SortSpec, r: Row, s: Row, t: Row)
    ensures AtMost(spec, r, s) || AtMost(spec, s, r)
    ensures AtMost(spec, r, s) && AtMost(spec, s, t) ==> AtMost(spec, r, t)
  {
    var a, b, c := Column(r, spec.field), Column(s, spec.field), Column(t, spec.field);
    KeyOrder(a, b, c);
    KeyOrder(c, b, a);
  }

  predicate Tied(spec: SortSpec, r: Row, s: Row) { AtMost(spec, r, s) && AtMost(spec, s, r) }

  /** A column can be sorted unless numbers and strings meet in it. */
  predicate Sortable(rows: seq<Row>, field: string) {
    forall i, j :: 0 <= i < |rows| && 0 <= j < |rows| ==>
      !(Column(rows[i], field).Str? && IsNumber(Column(rows[j], field)))
  }

  /** Puts `row` behind every row that need not come after it. */
  function Insert(row: Row, rows: seq<Row>, spec: SortSpec): (r: seq<Row>)
    ensures |r| == |rows| + 1
  {
    if rows == [] || AtMost(spec, rows[|rows| - 1], row) then rows + [row]
    else Insert(row, rows[..|rows| - 1], spec) + [rows[|rows| - 1]]
  }

  function StableSort(rows: seq<Row>, spec: SortSpec): (r: seq<Row>)
    ensures |r| == |rows|
  {
    if rows == [] then [] else Insert(rows[|rows| - 1], StableSort(rows[..|rows| - 1], spec), spec)
  }

  /** `list.sort`: one stable pass, or the `TypeError` of a column that cannot be sorted. */
  function Sort(rows: seq<Row>, spec: SortSpec): Result<seq<Row>, RowError> {
    if Sortable(rows, spec.field) then Ok(StableSort(rows, spec)) else Err(BadTypes)
  }

  /** The passes for all sort entries, first entry first. */
  function SortAll(rows: seq<Row>, specs: seq<SortSpec>): Result<seq<Row>, RowError> {
    if specs == [] then Ok(rows)
    else
      var sorted :- SortAll(rows, specs[..|specs| - 1]);
      Sort(sorted, specs[|specs| - 1])
  }

  function FilteredRowsSpec(rows: seq<Row>, filters: seq<Condition>, sorts: seq<SortSpec>,
                            tenantId: Option<string>): Result<seq<Row>, RowError> {
    var kept :- FilterAll(InScope(rows, tenantId), filters);
    SortAll(kept, sorts)
  }

  function After(out: seq<Row>, r: Result<seq<Row>, RowError>): Result<seq<Row>, RowError> {
    match r
    case Ok(rest) => Ok(out + rest)
    case Err(e) => Err(e)
  }

  method FilterRows(rows: seq<Row>, condition: Condition) returns (r: Result<seq<Row>, RowError>)
    ensures r == Filter(rows, condition)
  {
    var out: seq<Row> := [];
    assert rows[0..] == rows;
    assert Filter(rows, condition).Ok? ==> out + Filter(rows, condition).value == Filter(rows, condition).value;
    for i := 0 to |rows|
      invariant Filter(rows, condition) == After(out, Filter(rows[i..], condition))
    {
      assert rows[i..][1..] == rows[i + 1..];
      var keep :- MatchesCondition(rows[i], condition);
      ghost var rest := Filter(rows[i + 1..], condition);
      if keep {
        assert rest.Ok? ==> out + ([rows[i]] + rest.value) == out + [rows[i]] + rest.value;
        out := out + [rows[i]];
      } else {
        assert rest.Ok? ==> [] + rest.value == rest.value;
      }
    }
    assert out + [] == out;
    return Ok(out);
  }

  method FilteredRows(rows: seq<Row>, filters: seq<Condition>, sorts: seq<SortSpec>, tenantId: Option<string>)
    returns (r: Result<seq<Row>, RowError>)
    ensures r == FilteredRowsSpec(rows, filters, sorts, tenantId)
  {
    var out := InScope(rows, tenantId);
    ghost var scoped := out;
    for i := 0 to |filters|
      invariant FilterAll(scoped, filters) == FilterAll(out, filters[i..])
    {
      assert filters[i..][1..] == filters[i + 1..];
      out :- FilterRows(out, filters[i]);
    }
    ghost var kept := out;
    for i := 0 to |sorts|
      invariant SortAll(kept, sorts[..i]) == Ok(out)
    {
      assert sorts[..i + 1][..i] == sorts[..i];
      if !Sortable(out, sorts[i].field) {
        SortAllFails(kept, sorts, i + 1);
        return Err(BadTypes);
      }
      out := StableSort(out, sorts[i]);
    }
    assert sorts[..|sorts|] == sorts;
    return Ok(out);
  }

  lemma {:induction false} SortAllFails(rows: seq<Row>, specs: seq<SortSpec>, n: nat)
    requires n <= |specs| && SortAll(rows, specs[..n]).Err?
    ensures SortAll(rows, specs) == SortAll(rows, specs[..n])
    decreases |specs|
  {
    if n == |specs| {
      assert specs[..n] == specs;
    } else {
      assert specs[..|specs| - 1][..n] == specs[..n];
      SortAllFails(rows, specs[..|specs| - 1], n);
    }
  }

  // ---- What comes out ----

  predicate Satisfies(row: Row, filters: seq<Condition>, tenantId: Option<string>) {
    InTenantScope(row, tenantId) && forall c :: c in filters ==> MatchesCondition(row, c) == Ok(true)
  }

  /** The rows in scope that match every filter, in stored order. */
  function Selected(rows: seq<Row>, filters: seq<Condition>, tenantId: Option<string>): seq<Row> {
    if rows == [] then []
    else (if Satisfies(rows[0], filters, tenantId) then [rows[0]] else []) + Selected(rows[1..], filters, tenantId)
  }

  /**
   * The order of several sort entries together: the last entry decides first, earlier entries
   * decide among rows that it ties.
   */
  predicate LexAtMost(specs: seq<SortSpec>, r: Row, s: Row) {
    specs == [] ||
    var last := specs[|specs| - 1];
    AtMost(last, r, s) && (AtMost(last, s, r) ==> LexAtMost(specs[..|specs| - 1], r, s))
  }

  predicate TiedOnAll(specs: seq<SortSpec>, r: Row, s: Row) { forall spec :: spec in specs ==> Tied(spec, r, s) }

  predicate LexSorted(specs: seq<SortSpec>, rows: seq<Row>) {
    forall i, j :: 0 <= i < j < |rows| ==> LexAtMost(specs, rows[i], rows[j])
  }

  /** The row, if it is tied with `c` on every entry. */
  function IfTied(specs: seq<SortSpec>, c: Row, r: Row): seq<Row> { if TiedOnAll(specs, c, r) then [r] else [] }

  /** The rows that every sort entry ties with `c`, in order. */
  function TiedWith(specs: seq<SortSpec>, c: Row, rows: seq<Row>): seq<Row> {
    if rows == [] then [] else IfTied(specs, c, rows[0]) + TiedWith(specs, c, rows[1..])
  }

  lemma {:induction false} FilterKeeps(rows: seq<Row>, c: Condition, rest: seq<Condition>, tenantId: Option<string>)
    requires Filter(rows, c).Ok?
    ensures Selected(Filter(rows, c).value, rest, tenantId) == Selected(rows, [c] + rest, tenantId)
  {
    if rows != [] {
      FilterKeeps(rows[1..], c, rest, tenantId);
      var kept := Filter(rows[1..], c).value;
      assert forall d :: d in [c] + rest <==> d == c || d in rest;
      if MatchesCondition(rows[0], c).value {
        assert ([rows[0]] + kept)[1..] == kept;
      } else {
        assert [] + kept == kept;
      }
    }
  }

  lemma {:induction false} FilterAllKeeps(rows: seq<Row>, filters: seq<Condition>)
    requires FilterAll(rows, filters).Ok?
    ensures FilterAll(rows, filters).value == Selected(rows, filters, None)
    decreases filters
  {
    if filters == [] {
      SelectedNone(rows);
    } else {
      FilterAllKeeps(Filter(rows, filters[0]).value, filters[1..]);
      FilterKeeps(rows, filters[0], filters[1..], None);
      assert [filters[0]] + filters[1..] == filters;
    }
  }

  lemma {:induction false} SelectedNone(rows: seq<Row>)
    ensures Selected(rows, [], None) == rows
  {
    if rows != [] {
      SelectedNone(rows[1..]);
    }
  }

  lemma {:induction false} ScopeThenFilter(rows: seq<Row>, filters: seq<Condition>, tenantId: Option<string>)
    ensures Selected(InScope(rows, tenantId), filters, None) == Selected(rows, filters, tenantId)
  {
    if rows != [] {
      var rest := InScope(rows[1..], tenantId);
      ScopeThenFilter(rows[1..], filters, tenantId);
      assert ([rows[0]] + rest)[1..] == rest;
      assert [] + rest == rest;
    }
  }

  lemma AppendSorted(specs: seq<SortSpec>, rows: seq<Row>, x: Row)
    requires LexSorted(specs, rows) && forall r :: r in rows ==> LexAtMost(specs, r, x)
    ensures LexSorted(specs, rows + [x])
  {
  }

  lemma LexByLast(prev: seq<SortSpec>, spec: SortSpec, r: Row, s: Row)
    ensures LexAtMost(prev + [spec], r, s) <==> AtMost(spec, r, s) && (AtMost(spec, s, r) ==> LexAtMost(prev, r, s))
  {
    assert (prev + [spec])[..|prev|] == prev;
  }

  lemma {:induction false} InsertSorts(row: Row, rows: seq<Row>, prev: seq<SortSpec>, spec: SortSpec)
    requires LexSorted(prev + [spec], rows)
    requires forall r :: r in rows ==> LexAtMost(prev, r, row)
    ensures LexSorted(prev + [spec], Insert(row, rows, spec))
    ensures multiset(Insert(row, rows, spec)) == multiset(rows) + multiset{row}
  {
    var specs := prev + [spec];
    if rows != [] {
      var n := |rows| - 1;
      var last := rows[n];
      assert rows == rows[..n] + [last];
      if AtMost(spec, last, row) {
        forall r | r in rows ensures LexAtMost(specs, r, row) {
          var i :| 0 <= i <= n && rows[i] == r;
          if i < n {
            assert LexAtMost(specs, r, last);
          }
          LexByLast(prev, spec, r, last);
          AtMostIsOrder(spec, r, last, row);
          LexByLast(prev, spec, r, row);
        }
        AppendSorted(specs, rows, row);
      } else {
        InsertSorts(row, rows[..n], prev, spec);
        var out := Insert(row, rows[..n], spec);
        AtMostIsOrder(spec, last, row, row);
        LexByLast(prev, spec, row, last);
        forall r | r in out ensures LexAtMost(specs, r, last) {
          assert r in multiset(out);
          assert r == row || r in rows[..n];
        }
        AppendSorted(specs, out, last);
      }
    }
  }

  lemma {:induction false} StableSortSorts(rows: seq<Row>, prev: seq<SortSpec>, spec: SortSpec)
    requires LexSorted(prev, rows)
    ensures LexSorted(prev + [spec], StableSort(rows, spec))
    ensures multiset(StableSort(rows, spec)) == multiset(rows)
  {
    if rows != [] {
      var n := |rows| - 1;
      var sorted := StableSort(rows[..n], spec);
      StableSortSorts(rows[..n], prev, spec);
      assert rows == rows[..n] + [rows[n]];
      forall r | r in sorted ensures LexAtMost(prev, r, rows[n]) {
        assert r in multiset(sorted);
        assert r in rows[..n];
      }
      InsertSorts(rows[n], sorted, prev, spec);
    }
  }

  lemma {:induction false} TiedWithSnoc(specs: seq<SortSpec>, c: Row, rows: seq<Row>, r: Row)
    ensures TiedWith(specs, c, rows + [r]) == TiedWith(specs, c, rows) + IfTied(specs, c, r)
  {
    if rows == [] {
      assert rows + [r] == [r] && [r][1..] == [];
      assert IfTied(specs, c, r) + [] == [] + IfTied(specs, c, r);
    } else {
      TiedWithSnoc(specs, c, rows[1..], r);
      assert (rows + [r])[1..] == rows[1..] + [r];
      Grouped(IfTied(specs, c, rows[0]), TiedWith(specs, c, rows[1..]), IfTied(specs, c, r));
    }
  }

  /** Of a row and another that must come after it, not both are tied with `c`. */
  lemma NotBothTied(spec: SortSpec, specs: seq<SortSpec>, c: Row, r: Row, s: Row)
    requires spec in specs && !AtMost(spec, r, s)
    ensures IfTied(specs, c, r) == [] || IfTied(specs, c, s) == []
  {
    AtMostIsOrder(spec, r, c, s);
  }

  lemma SwapEmpty(a: seq<Row>, b: seq<Row>, c: seq<Row>)
    requires b == [] || c == []
    ensures a + b + c == a + c + b
  {
  }

  lemma {:induction false} InsertKeepsTies(row: Row, rows: seq<Row>, spec: SortSpec, specs: seq<SortSpec>, c: Row)
    requires spec in specs
    ensures TiedWith(specs, c, Insert(row, rows, spec)) == TiedWith(specs, c, rows) + IfTied(specs, c, row)
  {
    if rows == [] || AtMost(spec, rows[|rows| - 1], row) {
      TiedWithSnoc(specs, c, rows, row);
    } else {
      var n := |rows| - 1;
      InsertKeepsTies(row, rows[..n], spec, specs, c);
      TiedWithSnoc(specs, c, Insert(row, rows[..n], spec), rows[n]);
      TiedWithSnoc(specs, c, rows[..n], rows[n]);
      assert rows == rows[..n] + [rows[n]];
      NotBothTied(spec, specs, c, rows[n], row);
      SwapEmpty(TiedWith(specs, c, rows[..n]), IfTied(specs, c, row), IfTied(specs, c, rows[n]));
    }
  }

  /** A stable pass leaves the rows of each class of ties in the order they were in. */
  lemma {:induction false} StableSortKeepsTies(rows: seq<Row>, spec: SortSpec, specs: seq<SortSpec>, c: Row)
    requires spec in specs
    ensures TiedWith(specs, c, StableSort(rows, spec)) == TiedWith(specs, c, rows)
  {
    if rows != [] {
      var n := |rows| - 1;
      StableSortKeepsTies(rows[..n], spec, specs, c);
      TiedWithSnoc(specs, c, rows[..n], rows[n]);
      assert rows == rows[..n] + [rows[n]];
      InsertKeepsTies(rows[n], StableSort(rows[..n], spec), spec, specs, c);
    }
  }

  lemma SortAllLast(rows: seq<Row>, specs: seq<SortSpec>)
    requires specs != [] && SortAll(rows, specs).Ok?
    ensures var prev := SortAll(rows, specs[..|specs| - 1]);
            prev.Ok? && SortAll(rows, specs).value == StableSort(prev.value, specs[|specs| - 1])
  {
  }

  /** One more pass on rows that are sorted by the entries before the last. */
  lemma LastPassSorts(before: seq<Row>, specs: seq<SortSpec>)
    requires specs != [] && LexSorted(specs[..|specs| - 1], before)
    ensures LexSorted(specs, StableSort(before, specs[|specs| - 1]))
    ensures multiset(StableSort(before, specs[|specs| - 1])) == multiset(before)
  {
    var prev, last := specs[..|specs| - 1], specs[|specs| - 1];
    assert specs == prev + [last];
    StableSortSorts(before, prev, last);
  }

  lemma {:induction false} SortAllSorts(rows: seq<Row>, specs: seq<SortSpec>)
    requires SortAll(rows, specs).Ok?
    ensures LexSorted(specs, SortAll(rows, specs).value)
    ensures multiset(SortAll(rows, specs).value) == multiset(rows)
  {
    if specs != [] {
      SortAllLast(rows, specs);
      SortAllSorts(rows, specs[..|specs| - 1]);
      LastPassSorts(SortAll(rows, specs[..|specs| - 1]).value, specs);
    }
  }

  lemma {:induction false} SortAllKeepsTies(rows: seq<Row>, specs: seq<SortSpec>, all: seq<SortSpec>, c: Row)
    requires SortAll(rows, specs).Ok? && forall s :: s in specs ==> s in all
    ensures TiedWith(all, c, SortAll(rows, specs).value) == TiedWith(all, c, rows)
    decreases |specs|
  {
    if specs != [] {
      var prev, last := specs[..|specs| - 1], specs[|specs| - 1];
      SortAllKeepsTies(rows, prev, all, c);
      StableSortKeepsTies(SortAll(rows, prev).value, last, all, c);
    }
  }

  /**
   * What filtering and sorting yields: a permutation of the rows that are in tenant scope and match
   * every filter, ordered lexicographically with the last sort entry most significant, in which
   * rows tied on every entry keep their stored order.
   */
  lemma FilteredRowsOrdered(rows: seq<Row>, filters: seq<Condition>, sorts: seq<SortSpec>,
                            tenantId: Option<string>)
    requires FilteredRowsSpec(rows, filters, sorts, tenantId).Ok?
    ensures var out := FilteredRowsSpec(rows, filters, sorts, tenantId).value;
            var chosen := Selected(rows, filters, tenantId);
            && multiset(out) == multiset(chosen)
            && LexSorted(sorts, out)
            && forall c :: TiedWith(sorts, c, out) == TiedWith(sorts, c, chosen)
  {
    var scoped := InScope(rows, tenantId);
    FilterAllKeeps(scoped, filters);
    ScopeThenFilter(rows, filters, tenantId);
    var chosen := Selected(rows, filters, tenantId);
    SortAllSorts(chosen, sorts);
    forall c ensures TiedWith(sorts, c, SortAll(chosen, sorts).value) == TiedWith(sorts, c, chosen) {
      SortAllKeepsTies(chosen, sorts, sorts, c);
    }
  }

  lemma {:induction false} LexBothWaysTies(specs: seq<SortSpec>, r: Row, s: Row)
    requires LexAtMost(specs, r, s) && LexAtMost(specs, s, r)
    ensures TiedOnAll(specs, r, s)
  {
    if specs != [] {
      LexBothWaysTies(specs[..|specs| - 1], r, s);
      assert specs == specs[..|specs| - 1] + [specs[|specs| - 1]];
    }
  }

  lemma TiedWithCons(specs: seq<SortSpec>, c: Row, r: Row, rows: seq<Row>)
    ensures TiedWith(specs, c, [r] + rows) == IfTied(specs, c, r) + TiedWith(specs, c, rows)
  {
    assert ([r] + rows)[1..] == rows;
  }

  lemma Grouped(a: seq<Row>, b: seq<Row>, c: seq<Row>)
    ensures a + (b + c) == a + b + c
  {
  }

  lemma HeadIsDetermined(specs: seq<SortSpec>, x: Row, xs: seq<Row>, y: Row, ys: seq<Row>)
    requires multiset([x] + xs) == multiset([y] + ys)
    requires LexSorted(specs, [x] + xs) && LexSorted(specs, [y] + ys)
    requires TiedWith(specs, x, [x] + xs) == TiedWith(specs, x, [y] + ys)
    ensures x == y
  {
    TiesReflexive(specs, x);
    if x != y {
      assert y in multiset([x] + xs) && x in multiset([y] + ys);
      var i :| 0 <= i < |[x] + xs| && ([x] + xs)[i] == y;
      var j :| 0 <= j < |[y] + ys| && ([y] + ys)[j] == x;
      assert LexAtMost(specs, ([x] + xs)[0], ([x] + xs)[i]) && LexAtMost(specs, ([y] + ys)[0], ([y] + ys)[j]);
      LexBothWaysTies(specs, x, y);
    }
    TiedWithCons(specs, x, x, xs);
    TiedWithCons(specs, x, y, ys);
    assert TiedWith(specs, x, [x] + xs)[0] == x;
    assert TiedWith(specs, x, [y] + ys)[0] == y;
  }

  lemma TailTies(specs: seq<SortSpec>, c: Row, x: Row, xs: seq<Row>, ys: seq<Row>)
    requires TiedWith(specs, c, [x] + xs) == TiedWith(specs, c, [x] + ys)
    ensures TiedWith(specs, c, xs) == TiedWith(specs, c, ys)
  {
    TiedWithCons(specs, c, x, xs);
    TiedWithCons(specs, c, x, ys);
    if TiedOnAll(specs, c, x) {
      assert TiedWith(specs, c, [x] + xs)[1..] == TiedWith(specs, c, xs);
      assert TiedWith(specs, c, [x] + ys)[1..] == TiedWith(specs, c, ys);
    } else {
      assert [] + TiedWith(specs, c, xs) == TiedWith(specs, c, xs);
      assert [] + TiedWith(specs, c, ys) == TiedWith(specs, c, ys);
    }
  }

  lemma TailMultiset(x: Row, xs: seq<Row>, ys: seq<Row>)
    requires multiset([x] + xs) == multiset([x] + ys)
    ensures multiset(xs) == multiset(ys)
  {
    assert multiset([x] + xs) - multiset{x} == multiset(xs);
    assert multiset([x] + ys) - multiset{x} == multiset(ys);
  }

  lemma LexSortedTail(specs: seq<SortSpec>, x: Row, xs: seq<Row>)
    requires LexSorted(specs, [x] + xs)
    ensures LexSorted(specs, xs)
  {
    forall i, j | 0 <= i < j < |xs| ensures LexAtMost(specs, xs[i], xs[j]) {
      assert LexAtMost(specs, ([x] + xs)[i + 1], ([x] + xs)[j + 1]);
    }
  }

  /** Those three properties leave only one possible result, so any stable sorting gives the same rows. */
  lemma {:induction false} OrderIsDetermined(specs: seq<SortSpec>, xs: seq<Row>, ys: seq<Row>)
    requires multiset(xs) == multiset(ys) && LexSorted(specs, xs) && LexSorted(specs, ys)
    requires forall c :: TiedWith(specs, c, xs) == TiedWith(specs, c, ys)
    ensures xs == ys
  {
    assert |xs| == |multiset(xs)| == |multiset(ys)| == |ys|;
    if xs != [] {
      var x, tail, rest := xs[0], xs[1..], ys[1..];
      assert xs == [x] + tail && ys == [ys[0]] + rest;
      HeadIsDetermined(specs, x, tail, ys[0], rest);
      LexSortedTail(specs, x, tail);
      LexSortedTail(specs, x, rest);
      forall c ensures TiedWith(specs, c, tail) == TiedWith(specs, c, rest) {
        assert TiedWith(specs, c, xs) == TiedWith(specs, c, ys);
        TailTies(specs, c, x, tail, rest);
      }
      TailMultiset(x, tail, rest);
      OrderIsDetermined(specs, tail, rest);
    }
  }

  lemma TiesReflexive(specs: seq<SortSpec>, r: Row)
    ensures TiedOnAll(specs, r, r)
  {
    forall spec | spec in specs ensures Tied(spec, r, r) {
      AtMostIsOrder(spec, r, r, r);
    }
  }

  // ---- When it raises ----

  /** The conditions before some one hold for `row`, and that one meets values without an order. */
  predicate Raises(row: Row, filters: seq<Condition>)
    decreases filters
  {
    filters != [] &&
    match MatchesCondition(row, filters[0])
    case Err(_) => true
    case Ok(keep) => keep && Raises(row, filters[1..])
  }

  lemma {:induction false} FilterRaises(rows: seq<Row>, c: Condition)
    ensures Filter(rows, c).Err? <==> exists r :: r in rows && MatchesCondition(r, c).Err?
    ensures Filter(rows, c).Ok? ==>
              forall r :: r in Filter(rows, c).value <==> r in rows && MatchesCondition(r, c) == Ok(true)
  {
    if rows != [] {
      assert rows == [rows[0]] + rows[1..];
      FilterRaises(rows[1..], c);
    }
  }

  lemma {:induction false} FilterAllRaises(rows: seq<Row>, filters: seq<Condition>)
    ensures FilterAll(rows, filters).Err? <==> exists r :: r in rows && Raises(r, filters)
    decreases filters
  {
    if filters != [] {
      FilterRaises(rows, filters[0]);
      if Filter(rows, filters[0]).Ok? {
        FilterAllRaises(Filter(rows, filters[0]).value, filters[1..]);
      }
    }
  }

  lemma SortableByContents(xs: seq<Row>, ys: seq<Row>, field: string)
    requires multiset(xs) == multiset(ys) && Sortable(xs, field)
    ensures Sortable(ys, field)
  {
    forall i, j | 0 <= i < |ys| && 0 <= j < |ys|
      ensures !(Column(ys[i], field).Str? && IsNumber(Column(ys[j], field)))
    {
      assert ys[i] in multiset(xs) && ys[j] in multiset(xs);
      var k :| 0 <= k < |xs| && xs[k] == ys[i];
      var l :| 0 <= l < |xs| && xs[l] == ys[j];
      assert !(Column(xs[k], field).Str? && IsNumber(Column(xs[l], field)));
    }
  }

  lemma {:induction false} SortAllRaises(rows: seq<Row>, specs: seq<SortSpec>)
    ensures SortAll(rows, specs).Err? <==> exists s :: s in specs && !Sortable(rows, s.field)
  {
    if specs != [] {
      var prev, last := specs[..|specs| - 1], specs[|specs| - 1];
      assert specs == prev + [last];
      SortAllRaises(rows, prev);
      if SortAll(rows, prev).Ok? {
        var sorted := SortAll(rows, prev).value;
        SortAllSorts(rows, prev);
        if Sortable(rows, last.field) {
          SortableByContents(rows, sorted, last.field);
        }
        if Sortable(sorted, last.field) {
          SortableByContents(sorted, rows, last.field);
        }
      }
    }
  }

  /**
   * A query raises exactly when a row in scope passes some filters and then meets one whose values
   * have no order, or, if none does, when numbers and strings meet in a column to sort by.
   */
  lemma QueryRaisesExactly(rows: seq<Row>, filters: seq<Condition>, sorts: seq<SortSpec>,
                           tenantId: Option<string>)
    ensures FilteredRowsSpec(rows, filters, sorts, tenantId).Err? <==>
            || (exists r :: r in rows && InTenantScope(r, tenantId) && Raises(r, filters))
            || (exists s :: s in sorts && !Sortable(Selected(rows, filters, tenantId), s.field))
  {
    var scoped := InScope(rows, tenantId);
    ScopeMembers(rows, tenantId);
    FilterAllRaises(scoped, filters);
    if FilterAll(scoped, filters).Ok? {
      FilterAllKeeps(scoped, filters);
      ScopeThenFilter(rows, filters, tenantId);
      SortAllRaises(Selected(rows, filters, tenantId), sorts);
    }
  }

  lemma {:induction false} ScopeMembers(rows: seq<Row>, tenantId: Option<string>)
    ensures forall r :: r in InScope(rows, tenantId) <==> r in rows && InTenantScope(r, tenantId)
  {
    if rows != [] {
      assert rows == [rows[0]] + rows[1..];
      ScopeMembers(rows[1..], tenantId);
    }
  }
}
