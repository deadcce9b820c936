/** What each filter operator keeps, and how one sort entry orders, on cells of every kind. */
module FilterMeaning {
  import opened Text
  import opened QuerySpec
  import opened RowHelpers

  /** The rows for which `p` holds, in order. */
  ghost function KeepIf(rows: seq<Row>, p: Row -> bool): seq<Row> {
    if rows == [] then [] else (if p(rows[0]) then [rows[0]] else []) + KeepIf(rows[1..], p)
  }

  /** A query with one filter, no tenant and no sort. */
  function Query(rows: seq<Row>, field: string, op: Operator, value: Operand): Result<seq<Row>, RowError> {
    FilteredRowsSpec(rows, [Condition(field, op, value)], [], None)
  }

  lemma {:induction false} ScopeOfNone(rows: seq<Row>)
    ensures InScope(rows, None) == rows
  {
    if rows != [] {
      ScopeOfNone(rows[1..]);
    }
  }

  lemma QueryFilters(rows: seq<Row>, c: Condition)
    ensures FilteredRowsSpec(rows, [c], [], None) == Filter(rows, c)
  {
    ScopeOfNone(rows);
    assert [c][1..] == [];
    if Filter(rows, c).Ok? {
      assert FilterAll(Filter(rows, c).value, [c][1..]) == Filter(rows, c);
    }
  }

  lemma {:induction false} FilterKeepsIf(rows: seq<Row>, c: Condition, p: Row -> bool)
    requires forall r :: r in rows ==> MatchesCondition(r, c) == Ok(p(r))
    ensures Filter(rows, c) == Ok(KeepIf(rows, p))
  {
    if rows != [] {
      FilterKeepsIf(rows[1..], c, p);
    }
  }

  lemma Keeps(rows: seq<Row>, field: string, op: Operator, value: Operand, p: Row -> bool)
    requires forall r :: r in rows ==> MatchesCondition(r, Condition(field, op, value)) == Ok(p(r))
    ensures Query(rows, field, op, value) == Ok(KeepIf(rows, p))
  {
    QueryFilters(rows, Condition(field, op, value));
    FilterKeepsIf(rows, Condition(field, op, value), p);
  }

  lemma {:induction false} FilterRaisesAt(rows: seq<Row>, c: Condition)
    ensures Filter(rows, c).Err? <==> exists r: Row :: r in rows && MatchesCondition(r, c).Err?
  {
    if rows != [] {
      FilterRaisesAt(rows[1..], c);
      assert rows == [rows[0]] + rows[1..];
    }
  }

  lemma Raises(rows: seq<Row>, field: string, op: Operator, value: Operand, p: Row -> bool)
    requires forall r :: r in rows ==> (MatchesCondition(r, Condition(field, op, value)).Err? <==> p(r))
    ensures Query(rows, field, op, value).Err? <==> exists r: Row :: r in rows && p(r)
  {
    QueryFilters(rows, Condition(field, op, value));
    FilterRaisesAt(rows, Condition(field, op, value));
  }

  // ---- Cells ----

  /** Integers, and the booleans that count as 1 and 0. */
  predicate Whole(c: Cell) { c.Int? || c.Bool? }

  function Amount(c: Cell): int {
    match c
    case Int(n) => n
    case Bool(b) => if b then 1 else 0
    case _ => 0
  }

  predicate SameValue(a: Cell, b: Cell) {
    || (a.Null? && b.Null?)
    || (Whole(a) && Whole(b) && Amount(a) == Amount(b))
    || (a.Str? && b.Str? && a.s == b.s)
  }

  /** Two cells that have an order. */
  predicate Ordered(a: Cell, b: Cell) { (Whole(a) && Whole(b)) || (a.Str? && b.Str?) }

  ghost predicate Smaller(a: Cell, b: Cell) {
    || (Whole(a) && Whole(b) && Amount(a) < Amount(b))
    || (a.Str? && b.Str? && Before(a.s, b.s))
  }

  lemma SmallerExactly(a: Cell, b: Cell)
    ensures Less(a, b) == if Ordered(a, b) then Ok(Smaller(a, b)) else Err(BadTypes)
    ensures LessOrSame(a, b) == if Ordered(a, b) then Ok(!Smaller(b, a)) else Err(BadTypes)
    ensures SameCell(a, b) <==> SameValue(a, b)
  {
    if a.Str? && b.Str? {
      TextLessExactly(a.s, b.s);
      TextLessExactly(b.s, a.s);
      TextTrichotomy(a.s, b.s);
    }
  }

  /** `str(c)`. */
  function Shown(c: Cell): string {
    match c
    case Null => "None"
    case Bool(b) => if b then "True" else "False"
    case Int(n) => if n < 0 then "-" + PrintNat(-n) else PrintNat(n)
    case Str(s) => s
  }

  // ---- The orderings ----

  ghost predicate Holds(op: Operator, a: Cell, b: Cell) {
    match op
    case GT => Smaller(b, a)
    case GTE => !Smaller(a, b)
    case LT => Smaller(a, b)
    case LTE => !Smaller(b, a)
    case _ => false
  }

  predicate FieldOrdered(rows: seq<Row>, field: string, value: Cell) {
    forall r: Row :: r in rows && field in r ==> Ordered(r[field], value)
  }

  lemma OrderingOf(row: Row, field: string, op: Operator, value: Cell)
    requires op in {GT, GTE, LT, LTE}
    ensures MatchesCondition(row, Condition(field, op, One(value))) ==
            if field !in row then Ok(false)
            else if Ordered(row[field], value) then Ok(Holds(op, row[field], value))
            else Err(BadTypes)
  {
    if field in row {
      SmallerExactly(row[field], value);
      SmallerExactly(value, row[field]);
    }
  }

  /** Each ordering keeps exactly the rows whose cell stands in that order to the operand. */
  lemma OrderingKeeps(rows: seq<Row>, field: string, op: Operator, value: Cell)
    requires op in {GT, GTE, LT, LTE} && FieldOrdered(rows, field, value)
    ensures Query(rows, field, op, One(value)) == Ok(KeepIf(rows, (r: Row) => field in r && Holds(op, r[field], value)))
  {
    forall r | r in rows
      ensures MatchesCondition(r, Condition(field, op, One(value))) == Ok(field in r && Holds(op, r[field], value))
    {
      OrderingOf(r, field, op, value);
    }
    Keeps(rows, field, op, One(value), (r: Row) => field in r && Holds(op, r[field], value));
  }

  /** It raises exactly if some row has the field with a cell that has no order with the operand. */
  lemma OrderingRaises(rows: seq<Row>, field: string, op: Operator, value: Operand)
    requires op in {GT, GTE, LT, LTE}
    ensures Query(rows, field, op, value).Err? <==>
            exists r: Row :: r in rows && field in r && (value.Many? || !Ordered(r[field], value.cell))
  {
    var p := (r: Row) => field in r && (value.Many? || !Ordered(r[field], value.cell));
    forall r | r in rows ensures MatchesCondition(r, Condition(field, op, value)).Err? <==> p(r) {
      if value.One? {
        OrderingOf(r, field, op, value.cell);
      }
    }
    Raises(rows, field, op, value, p);
  }

  predicate IntField(rows: seq<Row>, field: string) { forall r: Row :: r in rows && field in r ==> r[field].Int? }

  /** The field is there with an integer, which is all that the rows of such a column can hold. */
  predicate HasInt(r: Row, field: string) { field in r && r[field].Int? }

  /** On integer cells, in plain numbers. */
  lemma IntFilters(rows: seq<Row>, field: string, m: int)
    requires IntField(rows, field)
    ensures Query(rows, field, GT, One(Int(m))) == Ok(KeepIf(rows, (r: Row) => HasInt(r, field) && r[field].n > m))
    ensures Query(rows, field, GTE, One(Int(m))) == Ok(KeepIf(rows, (r: Row) => HasInt(r, field) && r[field].n >= m))
    ensures Query(rows, field, LT, One(Int(m))) == Ok(KeepIf(rows, (r: Row) => HasInt(r, field) && r[field].n < m))
    ensures Query(rows, field, LTE, One(Int(m))) == Ok(KeepIf(rows, (r: Row) => HasInt(r, field) && r[field].n <= m))
    ensures Query(rows, field, EQ, One(Int(m))) == Ok(KeepIf(rows, (r: Row) => HasInt(r, field) && r[field].n == m))
  {
    forall r: Row | r in rows
      ensures MatchesCondition(r, Condition(field, GT, One(Int(m)))) == Ok(HasInt(r, field) && r[field].n > m)
      ensures MatchesCondition(r, Condition(field, GTE, One(Int(m)))) == Ok(HasInt(r, field) && r[field].n >= m)
      ensures MatchesCondition(r, Condition(field, LT, One(Int(m)))) == Ok(HasInt(r, field) && r[field].n < m)
      ensures MatchesCondition(r, Condition(field, LTE, One(Int(m)))) == Ok(HasInt(r, field) && r[field].n <= m)
      ensures MatchesCondition(r, Condition(field, EQ, One(Int(m)))) == Ok(HasInt(r, field) && r[field].n == m)
    {
      IntMatches(r, field, m);
    }
    Keeps(rows, field, GT, One(Int(m)), (r: Row) => HasInt(r, field) && r[field].n > m);
    Keeps(rows, field, GTE, One(Int(m)), (r: Row) => HasInt(r, field) && r[field].n >= m);
    Keeps(rows, field, LT, One(Int(m)), (r: Row) => HasInt(r, field) && r[field].n < m);
    Keeps(rows, field, LTE, One(Int(m)), (r: Row) => HasInt(r, field) && r[field].n <= m);
    Keeps(rows, field, EQ, One(Int(m)), (r: Row) => HasInt(r, field) && r[field].n == m);
  }

  lemma IntMatches(r: Row, field: string, m: int)
    requires field in r ==> r[field].Int?
    ensures MatchesCondition(r, Condition(field, GT, One(Int(m)))) == Ok(HasInt(r, field) && r[field].n > m)
    ensures MatchesCondition(r, Condition(field, GTE, One(Int(m)))) == Ok(HasInt(r, field) && r[field].n >= m)
    ensures MatchesCondition(r, Condition(field, LT, One(Int(m)))) == Ok(HasInt(r, field) && r[field].n < m)
    ensures MatchesCondition(r, Condition(field, LTE, One(Int(m)))) == Ok(HasInt(r, field) && r[field].n <= m)
    ensures MatchesCondition(r, Condition(field, EQ, One(Int(m)))) == Ok(HasInt(r, field) && r[field].n == m)
  {
  }

  /** `BETWEEN` keeps exactly the rows between two bounds, both included, and none for an operand of another shape. */
  lemma BetweenKeeps(rows: seq<Row>, field: string, lo: Cell, hi: Cell, text: string)
    requires FieldOrdered(rows, field, lo) && FieldOrdered(rows, field, hi)
    ensures Query(rows, field, BETWEEN, Many([lo, hi], text))
         == Ok(KeepIf(rows, (r: Row) => field in r && !Smaller(r[field], lo) && !Smaller(hi, r[field])))
  {
    forall r | r in rows
      ensures MatchesCondition(r, Condition(field, BETWEEN, Many([lo, hi], text)))
           == Ok(field in r && !Smaller(r[field], lo) && !Smaller(hi, r[field]))
    {
      if field in r {
        SmallerExactly(lo, r[field]);
        SmallerExactly(r[field], hi);
      }
    }
    Keeps(rows, field, BETWEEN, Many([lo, hi], text),
          (r: Row) => field in r && !Smaller(r[field], lo) && !Smaller(hi, r[field]));
  }

  lemma BetweenShape(rows: seq<Row>, field: string, value: Operand)
    requires value.One? || |value.cells| != 2
    ensures Query(rows, field, BETWEEN, value) == Ok(KeepIf(rows, (r: Row) => false))
  {
    Keeps(rows, field, BETWEEN, value, (r: Row) => false);
  }

  /** It raises if the first bound has no order with a cell, or the second with one that is not below the first. */
  lemma BetweenRaises(rows: seq<Row>, field: string, lo: Cell, hi: Cell, text: string)
    ensures Query(rows, field, BETWEEN, Many([lo, hi], text)).Err? <==>
            exists r: Row :: r in rows && field in r
                        && (!Ordered(lo, r[field]) || (!Smaller(r[field], lo) && !Ordered(r[field], hi)))
  {
    var p := (r: Row) => field in r && (!Ordered(lo, r[field]) || (!Smaller(r[field], lo) && !Ordered(r[field], hi)));
    forall r | r in rows
      ensures MatchesCondition(r, Condition(field, BETWEEN, Many([lo, hi], text))).Err? <==> p(r)
    {
      if field in r {
        SmallerExactly(lo, r[field]);
        SmallerExactly(r[field], hi);
      }
    }
    Raises(rows, field, BETWEEN, Many([lo, hi], text), p);
  }

  // ---- Equality and membership ----

  /** `EQ` keeps the rows with the operand's value, and `NE` the other rows that have the field. */
  lemma EqualityKeeps(rows: seq<Row>, field: string, value: Operand)
    ensures Query(rows, field, EQ, value)
         == Ok(KeepIf(rows, (r: Row) => field in r && value.One? && SameValue(r[field], value.cell)))
    ensures Query(rows, field, NE, value)
         == Ok(KeepIf(rows, (r: Row) => field in r && !(value.One? && SameValue(r[field], value.cell))))
  {
    forall r | r in rows && field in r && value.One?
      ensures SameCell(r[field], value.cell) <==> SameValue(r[field], value.cell)
    {
      SmallerExactly(r[field], value.cell);
    }
    Keeps(rows, field, EQ, value, (r: Row) => field in r && value.One? && SameValue(r[field], value.cell));
    Keeps(rows, field, NE, value, (r: Row) => field in r && !(value.One? && SameValue(r[field], value.cell)));
  }

  ghost predicate AmongCells(c: Cell, cells: seq<Cell>) { exists k :: 0 <= k < |cells| && SameValue(c, cells[k]) }

  /** `IN` keeps the rows with one of the listed values, and `NOT_IN` the other rows that have the field. */
  lemma MembershipKeeps(rows: seq<Row>, field: string, value: Operand)
    ensures Query(rows, field, IN, value)
         == Ok(KeepIf(rows, (r: Row) => field in r && value.Many? && AmongCells(r[field], value.cells)))
    ensures Query(rows, field, NOT_IN, value)
         == Ok(KeepIf(rows, (r: Row) => field in r && value.Many? && !AmongCells(r[field], value.cells)))
  {
    forall c | value.Many? ensures Listed(c, value.cells) <==> AmongCells(c, value.cells) {
      forall k | 0 <= k < |value.cells| ensures SameCell(c, value.cells[k]) <==> SameValue(c, value.cells[k]) {
        SmallerExactly(c, value.cells[k]);
      }
    }
    Keeps(rows, field, IN, value, (r: Row) => field in r && value.Many? && AmongCells(r[field], value.cells));
    Keeps(rows, field, NOT_IN, value, (r: Row) => field in r && value.Many? && !AmongCells(r[field], value.cells));
  }

  // ---- Texts and presence ----

  ghost predicate Inside(part: string, text: string) { exists k :: OccursAt(part, text, k) }

  function OperandShown(value: Operand): string { if value.One? then Shown(value.cell) else value.text }

  /** `CONTAINS` looks for a text anywhere in what the cell shows; an operand that is no text raises. */
  lemma ContainsKeeps(rows: seq<Row>, field: string, value: Operand)
    ensures value.One? && value.cell.Str? ==>
              Query(rows, field, CONTAINS, value)
              == Ok(KeepIf(rows, (r: Row) => field in r && Inside(value.cell.s, Shown(r[field]))))
    ensures !(value.One? && value.cell.Str?) ==>
              (Query(rows, field, CONTAINS, value).Err? <==> exists r: Row :: r in rows && field in r)
  {
    if value.One? && value.cell.Str? {
      forall r | r in rows && field in r
        ensures Occurs(value.cell.s, TextOf(r[field])) <==> Inside(value.cell.s, Shown(r[field]))
      {
        ShownIs(r[field]);
        OccursExactly(value.cell.s, TextOf(r[field]));
      }
      Keeps(rows, field, CONTAINS, value, (r: Row) => field in r && Inside(value.cell.s, Shown(r[field])));
    } else {
      Raises(rows, field, CONTAINS, value, (r: Row) => field in r);
    }
  }

  /** What the cell shows begins, or ends, with what the operand shows. */
  predicate Begins(c: Cell, value: Operand) { OccursAt(OperandShown(value), Shown(c), 0) }

  predicate Closes(c: Cell, value: Operand) {
    OccursAt(OperandShown(value), Shown(c), |Shown(c)| - |OperandShown(value)|)
  }

  /** `STARTSWITH` and `ENDSWITH` look at the two ends of what the cell shows. */
  lemma EndsKeep(rows: seq<Row>, field: string, value: Operand)
    ensures Query(rows, field, STARTSWITH, value) == Ok(KeepIf(rows, (r: Row) => field in r && Begins(r[field], value)))
    ensures Query(rows, field, ENDSWITH, value) == Ok(KeepIf(rows, (r: Row) => field in r && Closes(r[field], value)))
  {
    StartsKeep(rows, field, value);
    forall r: Row | r in rows
      ensures MatchesCondition(r, Condition(field, ENDSWITH, value)) == Ok(field in r && Closes(r[field], value))
    {
      if field in r {
        EndsOf(r, field, value);
      }
    }
    Keeps(rows, field, ENDSWITH, value, (r: Row) => field in r && Closes(r[field], value));
  }

  lemma StartsKeep(rows: seq<Row>, field: string, value: Operand)
    ensures Query(rows, field, STARTSWITH, value) == Ok(KeepIf(rows, (r: Row) => field in r && Begins(r[field], value)))
  {
    forall r: Row | r in rows
      ensures MatchesCondition(r, Condition(field, STARTSWITH, value)) == Ok(field in r && Begins(r[field], value))
    {
      if field in r {
        EndsOf(r, field, value);
      }
    }
    Keeps(rows, field, STARTSWITH, value, (r: Row) => field in r && Begins(r[field], value));
  }

  lemma ShownIs(c: Cell)
    ensures TextOf(c) == Shown(c)
  {
  }

  lemma EndsOf(r: Row, field: string, value: Operand)
    requires field in r
    ensures MatchesCondition(r, Condition(field, STARTSWITH, value)) == Ok(Begins(r[field], value))
    ensures MatchesCondition(r, Condition(field, ENDSWITH, value)) == Ok(Closes(r[field], value))
  {
    ShownIs(r[field]);
    if value.One? {
      ShownIs(value.cell);
    }
    EndPlaces(OperandShown(value), Shown(r[field]));
  }

  lemma EndPlaces(part: string, text: string)
    ensures part <= text <==> OccursAt(part, text, 0)
    ensures EndsWith(text, part) <==> OccursAt(part, text, |text| - |part|)
  {
  }

  /** What counts as true for an operand. */
  predicate Wanted(value: Operand) {
    match value
    case Many(cells, _) => |cells| > 0
    case One(Null) => false
    case One(Bool(b)) => b
    case One(Int(n)) => n != 0
    case One(Str(s)) => |s| > 0
  }

  /** `EXISTS` keeps the rows with a value in the field, or for a false operand those with none. */
  lemma PresenceKeeps(rows: seq<Row>, field: string, value: Operand)
    ensures Query(rows, field, EXISTS, value)
         == Ok(KeepIf(rows, (r: Row) => field in r && (if Wanted(value) then !r[field].Null? else r[field].Null?)))
  {
    Keeps(rows, field, EXISTS, value,
          (r: Row) => field in r && (if Wanted(value) then !r[field].Null? else r[field].Null?));
  }

  // ---- Whole queries ----

  /** A tenant sees its own rows and those without a tenant field; without a tenant all rows are seen. */
  lemma {:induction false} TenantKeeps(rows: seq<Row>, tenantId: Option<string>)
    ensures FilteredRowsSpec(rows, [], [], tenantId)
         == Ok(KeepIf(rows, (r: Row) => tenantId.None? || "tenant_id" !in r || r["tenant_id"] == Str(tenantId.value)))
  {
    if rows != [] {
      TenantKeeps(rows[1..], tenantId);
    }
  }

  /** The row comes through a query of its own, once for the tenant and once for each filter. */
  predicate PassesAlone(r: Row, filters: seq<Condition>, tenantId: Option<string>) {
    && FilteredRowsSpec([r], [], [], tenantId) == Ok([r])
    && forall c :: c in filters ==> FilteredRowsSpec([r], [c], [], None) == Ok([r])
  }

  lemma PassesAloneExactly(r: Row, filters: seq<Condition>, tenantId: Option<string>)
    ensures PassesAlone(r, filters, tenantId) <==> Satisfies(r, filters, tenantId)
  {
    assert [r][1..] == [] && InScope([], tenantId) == [];
    assert InScope([r], tenantId) == if InTenantScope(r, tenantId) then [r] else [];
    forall c ensures FilteredRowsSpec([r], [c], [], None) == Ok([r]) <==> MatchesCondition(r, c) == Ok(true) {
      QueryFilters([r], c);
      assert Filter([r][1..], c) == Ok([]) && [r] + [] == [r];
    }
  }

  /** A query with any filters and sorts returns the rows, each as often as stored, that pass every part alone. */
  lemma FiltersTogether(rows: seq<Row>, filters: seq<Condition>, sorts: seq<SortSpec>, tenantId: Option<string>)
    requires FilteredRowsSpec(rows, filters, sorts, tenantId).Ok?
    ensures multiset(FilteredRowsSpec(rows, filters, sorts, tenantId).value)
         == multiset(KeepIf(rows, (r: Row) => PassesAlone(r, filters, tenantId)))
  {
    FilteredRowsOrdered(rows, filters, sorts, tenantId);
    SelectedKeeps(rows, filters, tenantId);
  }

  lemma {:induction false} SelectedKeeps(rows: seq<Row>, filters: seq<Condition>, tenantId: Option<string>)
    ensures Selected(rows, filters, tenantId) == KeepIf(rows, (r: Row) => PassesAlone(r, filters, tenantId))
  {
    if rows != [] {
      PassesAloneExactly(rows[0], filters, tenantId);
      SelectedKeeps(rows[1..], filters, tenantId);
    }
  }

  function CellAt(r: Row, field: string): Cell { if field in r then r[field] else Null }

  /** `a` may stand before `b` in ascending order: missing values last, the others by size. */
  ghost predicate Ascends(a: Cell, b: Cell) { b.Null? || (!a.Null? && !Smaller(b, a)) }

  lemma AscendsExactly(a: Cell, b: Cell)
    requires !(a.Str? && Whole(b)) && !(b.Str? && Whole(a))
    ensures KeyAtMost(a, b) <==> Ascends(a, b)
  {
    if a.Str? && b.Str? {
      TextLessExactly(a.s, b.s);
      TextLessExactly(b.s, a.s);
      TextTrichotomy(a.s, b.s);
    }
  }

  ghost predicate MixedColumn(rows: seq<Row>, field: string) {
    exists r, s :: r in rows && s in rows && CellAt(r, field).Str? && Whole(CellAt(s, field))
  }

  /** One sort entry raises exactly on a column with texts and numbers, and otherwise puts the cells in order. */
  lemma OneSortOrders(rows: seq<Row>, field: string, dir: Direction)
    ensures var r := FilteredRowsSpec(rows, [], [SortSpec(field, dir)], None);
            && (r.Err? <==> MixedColumn(rows, field))
            && (r.Ok? ==>
                 forall i, j :: 0 <= i < j < |r.value| ==>
                   var (a, b) := (CellAt(r.value[i], field), CellAt(r.value[j], field));
                   if dir == Asc then Ascends(a, b) else Ascends(b, a))
  {
    var spec := SortSpec(field, dir);
    var sorted := FilteredRowsSpec(rows, [], [spec], None);
    ScopeOfNone(rows);
    assert FilterAll(rows, []) == Ok(rows) && SortAll(rows, [spec][..0]) == Ok(rows);
    assert sorted == Sort(rows, spec);
    SortableExactly(rows, field);
    if sorted.Ok? {
      var out := sorted.value;
      FilteredRowsOrdered(rows, [], [spec], None);
      SortAllSorts(rows, [spec]);
      forall i, j | 0 <= i < j < |out|
        ensures var (a, b) := (CellAt(out[i], field), CellAt(out[j], field));
                if dir == Asc then Ascends(a, b) else Ascends(b, a)
      {
        assert out[i] in multiset(out) && out[j] in multiset(out);
        assert out[i] in rows && out[j] in rows;
        assert LexAtMost([spec], out[i], out[j]);
        AscendsExactly(CellAt(out[i], field), CellAt(out[j], field));
        AscendsExactly(CellAt(out[j], field), CellAt(out[i], field));
      }
    }
  }

  lemma SortableExactly(rows: seq<Row>, field: string)
    ensures Sortable(rows, field) <==> !MixedColumn(rows, field)
  {
    if MixedColumn(rows, field) {
      var r, s :| r in rows && s in rows && CellAt(r, field).Str? && Whole(CellAt(s, field));
      var i, j :| 0 <= i < |rows| && rows[i] == r && 0 <= j < |rows| && rows[j] == s;
      assert Column(rows[i], field).Str? && IsNumber(Column(rows[j], field));
    }
    if !Sortable(rows, field) {
      var i, j :| 0 <= i < |rows| && 0 <= j < |rows| &&
                  Column(rows[i], field).Str? && IsNumber(Column(rows[j], field));
      assert rows[i] in rows && rows[j] in rows;
      assert CellAt(rows[i], field).Str? && Whole(CellAt(rows[j], field));
    }
  }
}
