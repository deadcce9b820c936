/** How the dict-backed repository and `ORDER BY` sort by several entries. */
module SortAgreement {
  import opened Text
  import opened QuerySpec
  import opened RowHelpers
  import Keyset

  function KeyOf(c: Cell): Keyset.Key {
    match c
    case Null => Keyset.NullKey
    case Str(s) => Keyset.TextKey(s)
    case _ => Keyset.IntKey(Number(c))
  }

  function RecordOf(id: nat, row: Row): Keyset.Record {
    Keyset.Record(id, map field | field in row :: KeyOf(row[field]))
  }

  /** The rows as a table would hold them, numbered in order. */
  function Records(rows: seq<Row>): (out: seq<Keyset.Record>)
    ensures |out| == |rows| && forall i :: 0 <= i < |rows| ==> out[i] == RecordOf(i, rows[i])
  {
    if rows == [] then [] else Records(rows[..|rows| - 1]) + [RecordOf(|rows| - 1, rows[|rows| - 1])]
  }

  function Reversed(sorts: seq<SortSpec>): seq<SortSpec> {
    if sorts == [] then [] else [sorts[|sorts| - 1]] + Reversed(sorts[..|sorts| - 1])
  }

  lemma ReversedParts(sorts: seq<SortSpec>)
    requires sorts != []
    ensures Reversed(sorts)[0] == sorts[|sorts| - 1] && Reversed(sorts)[1..] == Reversed(sorts[..|sorts| - 1])
  {
  }

  /** Two values that the database can compare. */
  predicate Comparable(a: Cell, b: Cell) { (IsNumber(a) && IsNumber(b)) || (a.Str? && b.Str?) }

  lemma KeysCompare(a: Cell, b: Cell)
    ensures KeyAtMost(a, b) ==> !Keyset.Less(KeyOf(b), KeyOf(a))
    ensures KeyOf(a) == KeyOf(b) ==> KeyAtMost(a, b)
    ensures Comparable(a, b) ==> (KeyAtMost(a, b) <==> !Keyset.Less(KeyOf(b), KeyOf(a)))
    ensures Comparable(a, b) && KeyAtMost(a, b) && KeyAtMost(b, a) ==> KeyOf(a) == KeyOf(b)
  {
    if a.Str? && b.Str? {
      TextTrichotomy(a.s, b.s);
    }
  }

  /** What the first entry of `ORDER BY` says of two rows that the entry `sort` puts in this order. */
  lemma EntryCompares(sort: SortSpec, r: Row, s: Row)
    ensures var (a, b) := (Column(r, sort.field), Column(s, sort.field));
            && (AtMost(sort, r, s) ==> !Keyset.Beyond(KeyOf(a), KeyOf(b), sort.dir))
            && (KeyOf(a) == KeyOf(b) ==> AtMost(sort, r, s) && AtMost(sort, s, r))
            && (Comparable(a, b) ==>
                 && (AtMost(sort, r, s) <==> !Keyset.Beyond(KeyOf(a), KeyOf(b), sort.dir))
                 && (AtMost(sort, r, s) && AtMost(sort, s, r) ==> KeyOf(a) == KeyOf(b)))
  {
    var a, b := Column(r, sort.field), Column(s, sort.field);
    KeysCompare(a, b);
    KeysCompare(b, a);
  }

  lemma CellOf(id: nat, row: Row, field: string)
    ensures Keyset.Cell(RecordOf(id, row), field) == KeyOf(Column(row, field))
  {
  }

  /** Rows in dict-backed order may come in that order from the database, if the entries are reversed. */
  lemma {:induction false} LexAllowsReversed(sorts: seq<SortSpec>, r: Row, s: Row, i: nat, j: nat)
    requires LexAtMost(sorts, r, s)
    ensures !Keyset.Precedes(RecordOf(j, s), RecordOf(i, r), Reversed(sorts))
  {
    if sorts != [] {
      var last := sorts[|sorts| - 1];
      ReversedParts(sorts);
      CellOf(i, r, last.field);
      CellOf(j, s, last.field);
      EntryCompares(last, r, s);
      if LexAtMost(sorts[..|sorts| - 1], r, s) {
        LexAllowsReversed(sorts[..|sorts| - 1], r, s, i, j);
      }
    }
  }

  predicate ComparableOn(sorts: seq<SortSpec>, r: Row, s: Row) {
    forall sort :: sort in sorts ==> Comparable(Column(r, sort.field), Column(s, sort.field))
  }

  lemma {:induction false} ReversedIsLex(sorts: seq<SortSpec>, r: Row, s: Row, i: nat, j: nat)
    requires ComparableOn(sorts, r, s)
    requires !Keyset.Precedes(RecordOf(j, s), RecordOf(i, r), Reversed(sorts))
    ensures LexAtMost(sorts, r, s)
  {
    if sorts != [] {
      var last := sorts[|sorts| - 1];
      assert last in sorts;
      ReversedParts(sorts);
      CellOf(i, r, last.field);
      CellOf(j, s, last.field);
      EntryCompares(last, r, s);
      if AtMost(last, s, r) {
        ReversedIsLex(sorts[..|sorts| - 1], r, s, i, j);
      }
    }
  }

  /** Entries that name no column of either row do not order them. */
  lemma {:induction false} MissingColumnsTie(r: Keyset.Record, s: Keyset.Record, order: seq<SortSpec>,
                                             columns: set<string>)
    requires r.cells.Keys <= columns && s.cells.Keys <= columns
    ensures Keyset.Precedes(r, s, Keyset.OrderBy(order, columns)) == Keyset.Precedes(r, s, order)
  {
    if order != [] {
      MissingColumnsTie(r, s, order[1..], columns);
      var rest := Keyset.OrderBy(order[1..], columns);
      if order[0].field in columns {
        assert ([order[0]] + rest)[1..] == rest;
      } else {
        assert [] + rest == rest;
      }
    }
  }

  predicate FieldsIn(rows: seq<Row>, columns: set<string>) {
    forall i :: 0 <= i < |rows| ==> rows[i].Keys <= columns
  }

  predicate AllComparable(sorts: seq<SortSpec>, rows: seq<Row>) {
    forall i, j :: 0 <= i < j < |rows| ==> ComparableOn(sorts, rows[i], rows[j])
  }

  /**
   * The dict-backed order is an order that `ORDER BY` admits for the reversed entries, and where the
   * columns sorted by hold comparable values only, none of them NULL, these are the same orders.
   */
  lemma ReversedEntries(sorts: seq<SortSpec>, rows: seq<Row>, columns: set<string>)
    requires FieldsIn(rows, columns)
    ensures LexSorted(sorts, rows) ==> Keyset.AdmittedBy(Records(rows), Keyset.OrderBy(Reversed(sorts), columns))
    ensures AllComparable(sorts, rows) ==>
              (LexSorted(sorts, rows) <==> Keyset.AdmittedBy(Records(rows), Keyset.OrderBy(Reversed(sorts), columns)))
  {
    var records, order := Records(rows), Keyset.OrderBy(Reversed(sorts), columns);
    forall i, j | 0 <= i < j < |rows|
      ensures LexAtMost(sorts, rows[i], rows[j]) ==> !Keyset.Precedes(records[j], records[i], order)
      ensures ComparableOn(sorts, rows[i], rows[j]) && !Keyset.Precedes(records[j], records[i], order) ==>
                LexAtMost(sorts, rows[i], rows[j])
    {
      PairAgrees(sorts, rows[i], rows[j], i, j, columns);
    }
  }

  lemma PairAgrees(sorts: seq<SortSpec>, r: Row, s: Row, i: nat, j: nat, columns: set<string>)
    requires r.Keys <= columns && s.Keys <= columns
    ensures var late := Keyset.Precedes(RecordOf(j, s), RecordOf(i, r), Keyset.OrderBy(Reversed(sorts), columns));
            && (LexAtMost(sorts, r, s) ==> !late)
            && (ComparableOn(sorts, r, s) && !late ==> LexAtMost(sorts, r, s))
  {
    MissingColumnsTie(RecordOf(j, s), RecordOf(i, r), Reversed(sorts), columns);
    if LexAtMost(sorts, r, s) {
      LexAllowsReversed(sorts, r, s, i, j);
    } else if ComparableOn(sorts, r, s)
              && !Keyset.Precedes(RecordOf(j, s), RecordOf(i, r), Keyset.OrderBy(Reversed(sorts), columns)) {
      ReversedIsLex(sorts, r, s, i, j);
    }
  }

  /** With at most one entry a dict-backed query returns its rows in an order that `ORDER BY` admits. */
  lemma OneEntryAgrees(rows: seq<Row>, filters: seq<Condition>, sorts: seq<SortSpec>, tenantId: Option<string>,
                       columns: set<string>)
    requires |sorts| <= 1 && FilteredRowsSpec(rows, filters, sorts, tenantId).Ok?
    requires FieldsIn(FilteredRowsSpec(rows, filters, sorts, tenantId).value, columns)
    ensures Keyset.AdmittedBy(Records(FilteredRowsSpec(rows, filters, sorts, tenantId).value),
                              Keyset.OrderBy(sorts, columns))
  {
    var out := FilteredRowsSpec(rows, filters, sorts, tenantId).value;
    FilteredRowsOrdered(rows, filters, sorts, tenantId);
    ReversedEntries(sorts, out, columns);
    assert Reversed(sorts) == sorts by {
      if |sorts| == 1 {
        assert sorts[..0] == [] && sorts == [sorts[0]];
      }
    }
  }

  /** With two entries it need not: the dict-backed order goes by the second one first. */
  lemma TwoEntriesDiffer()
    ensures var sorts := [SortSpec("a", Asc), SortSpec("b", Asc)];
            var (r, s) := (map["a" := Int(2), "b" := Int(1)], map["a" := Int(1), "b" := Int(2)]);
            && LexSorted(sorts, [r, s])
            && !Keyset.AdmittedBy(Records([r, s]), Keyset.OrderBy(sorts, {"a", "b"}))
  {
    var sorts := [SortSpec("a", Asc), SortSpec("b", Asc)];
    var r: Row := map["a" := Int(2), "b" := Int(1)];
    var s: Row := map["a" := Int(1), "b" := Int(2)];
    assert sorts[1..] == [SortSpec("b", Asc)] && sorts[1..][1..] == [];
    assert Keyset.OrderBy(sorts[1..], {"a", "b"}) == [SortSpec("b", Asc)];
    assert Keyset.OrderBy(sorts, {"a", "b"})[0] == SortSpec("a", Asc);
    CellOf(0, r, "a");
    CellOf(1, s, "a");
    assert Keyset.Precedes(Records([r, s])[1], Records([r, s])[0], Keyset.OrderBy(sorts, {"a", "b"}));
  }
}
