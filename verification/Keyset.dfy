/** Keyset pages of the SQL repository, and what following their cursors yields. */
module Keyset {
  import opened Text
  import opened QuerySpec
  import CursorPaging

  datatype Key = NullKey | IntKey(n: int) | TextKey(s: string)

  /** The Python type of the sort column, by which a cursor text is read back. */
  datatype ColumnType = IntColumn | TextColumn

  /** A row of the result: its primary key, and its value in the column sorted by. */
  datatype Row = Row(id: nat, key: Key)

  predicate HasType(key: Key, column: ColumnType) {
    key.NullKey? || (column == IntColumn && key.IntKey?) || (column == TextColumn && key.TextKey?)
  }

  predicate Typed(rows: seq<Row>, column: ColumnType) {
    forall i :: 0 <= i < |rows| ==> HasType(rows[i].key, column)
  }

  /** `a < b` in SQL; a comparison with NULL is not true. */
  predicate Less(a: Key, b: Key) {
    match (a, b)
    case (IntKey(m), IntKey(n)) => m < n
    case (TextKey(s), TextKey(t)) => TextLess(s, t)
    case _ => false
  }

  /** The keyset condition: `key` lies beyond `bound` in the sort direction. */
  predicate Beyond(key: Key, bound: Key, dir: Direction) {
    if dir == Asc then Less(bound, key) else Less(key, bound)
  }

  // ---- Which column ----

  /** The first sort entry if the model has that column, else the id ascending, else nothing. */
  function PrimarySort(sorts: seq<SortSpec>, columns: set<string>, idField: string): Option<SortSpec> {
    if sorts != [] && sorts[0].field in columns then Some(sorts[0])
    else if idField in columns then Some(SortSpec(idField, Asc))
    else None
  }

  /** The entries that reach `ORDER BY`, first entry most significant. */
  function OrderBy(sorts: seq<SortSpec>, columns: set<string>): seq<SortSpec> {
    if sorts == [] then []
    else (if sorts[0].field in columns then [sorts[0]] else []) + OrderBy(sorts[1..], columns)
  }

  lemma {:induction false} OrderByNames(sorts: seq<SortSpec>, columns: set<string>)
    ensures forall k :: 0 <= k < |OrderBy(sorts, columns)| ==> OrderBy(sorts, columns)[k].field in columns
  {
    if sorts != [] {
      OrderByNames(sorts[1..], columns);
    }
  }

  /**
   * Pages continue along the leading `ORDER BY` column exactly when the first sort entry names a
   * column, or the first entry that does is the ascending id.
   */
  lemma PagesFollowOrder(sorts: seq<SortSpec>, columns: set<string>, idField: string)
    ensures var order := OrderBy(sorts, columns);
            (order != [] && PrimarySort(sorts, columns, idField) == Some(order[0])) <==>
            (sorts != [] && sorts[0].field in columns) || (order != [] && order[0] == SortSpec(idField, Asc))
  {
    OrderByNames(sorts, columns);
  }

  /** What the documentation says pages continue along: the first applicable entry, or the ascending id. */
  function DocumentedSort(sorts: seq<SortSpec>, columns: set<string>, idField: string): Option<SortSpec> {
    if OrderBy(sorts, columns) != [] then Some(OrderBy(sorts, columns)[0])
    else if idField in columns then Some(SortSpec(idField, Asc))
    else None
  }

  /** The code does so exactly when the first entry names a column, no entry does, or the first that does is the id. */
  lemma DocumentationHolds(sorts: seq<SortSpec>, columns: set<string>, idField: string)
    ensures var order := OrderBy(sorts, columns);
            PrimarySort(sorts, columns, idField) == DocumentedSort(sorts, columns, idField) <==>
            (sorts != [] && sorts[0].field in columns) || order == [] || order[0] == SortSpec(idField, Asc)
  {
    OrderByNames(sorts, columns);
  }

  // ---- Cursor texts ----

  function CursorText(key: Key): Option<string> {
    match key
    case NullKey => None
    case IntKey(n) => Some(PrintInt(n))
    case TextKey(s) => Some(s)
  }

  /** `_normalize_cursor_value`; `None` is the `ValueError` of a text that is no integer. */
  function Normalize(column: ColumnType, cursor: string): Option<Key> {
    match column
    case TextColumn => Some(TextKey(cursor))
    case IntColumn =>
      match ParseInt(cursor)
      case Some(n) => Some(IntKey(n))
      case None => None
  }

  lemma CursorRoundTrip(key: Key, column: ColumnType)
    requires HasType(key, column) && !key.NullKey?
    ensures CursorText(key).Some? && Normalize(column, CursorText(key).value) == Some(key)
  {
    if key.IntKey? {
      ParsePrintInt(key.n);
    }
  }

  // ---- Pages ----

  function RowsBeyond(rows: seq<Row>, bound: Key, dir: Direction): seq<Row> {
    if rows == [] then []
    else (if Beyond(rows[0].key, bound, dir) then [rows[0]] else []) + RowsBeyond(rows[1..], bound, dir)
  }

  /** The rows a cursor leaves, in the order the database returns them; `None` if it cannot be read. */
  function Remaining(rows: seq<Row>, column: ColumnType, dir: Direction, cursor: Option<string>): Option<seq<Row>> {
    match cursor
    case None => Some(rows)
    case Some(text) =>
      match Normalize(column, text)
      case Some(bound) => Some(RowsBeyond(rows, bound, dir))
      case None => None
  }

  function Take(rows: seq<Row>, n: nat): seq<Row> { if |rows| <= n then rows else rows[..n] }

  function NextCursor(page: seq<Row>): Option<string> {
    if page == [] then None else CursorText(page[|page| - 1].key)
  }

  /**
   * The pages a client sees that hands every `next_cursor` back until there is none, when the rows
   * are unchanged and come in the order `rows`.
   */
  function Follow(rows: seq<Row>, column: ColumnType, dir: Direction, size: nat, cursor: Option<string>): seq<seq<Row>>
    requires Typed(rows, column) && size >= 1
    requires Remaining(rows, column, dir, cursor).Some?
    decreases |Remaining(rows, column, dir, cursor).value|
  {
    var rest := Remaining(rows, column, dir, cursor).value;
    var page := Take(rest, size);
    match NextCursor(page)
    case None => [page]
    case Some(c) =>
      RemainingShrinks(rows, column, dir, cursor, size);
      [page] + Follow(rows, column, dir, size, Some(c))
  }

  function Concat(pages: seq<seq<Row>>): seq<Row> {
    if pages == [] then [] else pages[0] + Concat(pages[1..])
  }

  lemma LessIsOrder(a: Key, b: Key, c: Key)
    ensures Less(a, b) && Less(b, c) ==> Less(a, c)
    ensures !Less(a, a) && !(Less(a, b) && Less(b, a))
  {
    if a.TextKey? {
      TextTrichotomy(a.s, a.s);
    }
    if a.TextKey? && b.TextKey? {
      TextTrichotomy(a.s, b.s);
      if c.TextKey? && Less(a, b) && Less(b, c) {
        TextLessTransitive(a.s, b.s, c.s);
      }
    }
  }

  lemma LessTotal(a: Key, b: Key, column: ColumnType)
    requires HasType(a, column) && HasType(b, column) && !a.NullKey? && !b.NullKey? && a != b
    ensures Less(a, b) || Less(b, a)
  {
    if a.TextKey? {
      TextTrichotomy(a.s, b.s);
    }
  }

  lemma {:induction false} BeyondMembers(rows: seq<Row>, bound: Key, dir: Direction)
    ensures forall r :: r in RowsBeyond(rows, bound, dir) <==> r in rows && Beyond(r.key, bound, dir)
  {
    if rows != [] {
      BeyondMembers(rows[1..], bound, dir);
      assert rows == [rows[0]] + rows[1..];
    }
  }

  /** A bound that lies beyond another leaves no more rows, and one of those rows less if it is its key. */
  lemma {:induction false} FartherLeavesFewer(rows: seq<Row>, near: Key, far: Key, dir: Direction)
    requires Beyond(far, near, dir)
    ensures |RowsBeyond(rows, far, dir)| <= |RowsBeyond(rows, near, dir)|
    ensures (exists r :: r in rows && r.key == far) ==>
              |RowsBeyond(rows, far, dir)| < |RowsBeyond(rows, near, dir)|
  {
    if rows != [] {
      FartherLeavesFewer(rows[1..], near, far, dir);
      LessIsOrder(near, far, rows[0].key);
      LessIsOrder(rows[0].key, far, near);
      assert rows == [rows[0]] + rows[1..];
    }
  }

  lemma {:induction false} BeyondShorter(rows: seq<Row>, bound: Key, dir: Direction)
    ensures |RowsBeyond(rows, bound, dir)| <= |rows|
    ensures (exists r :: r in rows && r.key == bound) ==> |RowsBeyond(rows, bound, dir)| < |rows|
  {
    if rows != [] {
      BeyondShorter(rows[1..], bound, dir);
      LessIsOrder(rows[0].key, bound, bound);
      assert rows == [rows[0]] + rows[1..];
    }
  }

  /** The cursor of a page can be read back and leaves fewer rows than the page started from. */
  lemma RemainingShrinks(rows: seq<Row>, column: ColumnType, dir: Direction,
                         cursor: Option<string>, size: nat)
    requires Typed(rows, column) && size >= 1
    requires Remaining(rows, column, dir, cursor).Some?
    requires NextCursor(Take(Remaining(rows, column, dir, cursor).value, size)).Some?
    ensures var rest := Remaining(rows, column, dir, cursor).value;
            var page := Take(rest, size);
            var last := page[|page| - 1].key;
            && Remaining(rows, column, dir, NextCursor(page)) == Some(RowsBeyond(rows, last, dir))
            && |RowsBeyond(rows, last, dir)| < |rest|
  {
    var rest := Remaining(rows, column, dir, cursor).value;
    var page := Take(rest, size);
    var last := page[|page| - 1];
    assert last in rest;
    RemainingMembers(rows, column, dir, cursor);
    CursorRoundTrip(last.key, column);
    FartherShrinks(rows, column, dir, cursor, last);
  }

  lemma FartherShrinks(rows: seq<Row>, column: ColumnType, dir: Direction,
                       cursor: Option<string>, last: Row)
    requires Remaining(rows, column, dir, cursor).Some? && last in Remaining(rows, column, dir, cursor).value
    ensures |RowsBeyond(rows, last.key, dir)| < |Remaining(rows, column, dir, cursor).value|
  {
    if cursor.None? {
      BeyondShorter(rows, last.key, dir);
    } else {
      var bound := Normalize(column, cursor.value).value;
      BeyondMembers(rows, bound, dir);
      FartherLeavesFewer(rows, bound, last.key, dir);
    }
  }

  lemma RemainingMembers(rows: seq<Row>, column: ColumnType, dir: Direction, cursor: Option<string>)
    requires Remaining(rows, column, dir, cursor).Some?
    ensures forall r :: r in Remaining(rows, column, dir, cursor).value ==> r in rows
  {
    if cursor.Some? {
      BeyondMembers(rows, Normalize(column, cursor.value).value, dir);
    }
  }

  // ---- When following the cursors yields every row once, in order ----

  /** The row before index `b` separates the rows: none before it is beyond it, all after it are. */
  predicate Separates(rows: seq<Row>, b: nat, dir: Direction)
    requires 0 < b <= |rows|
  {
    && (forall i :: 0 <= i < b ==> !Beyond(rows[i].key, rows[b - 1].key, dir))
    && (forall i :: b <= i < |rows| ==> Beyond(rows[i].key, rows[b - 1].key, dir))
  }

  /** Where pages of `size` rows end, from index `from` on. */
  predicate SeparatesEveryPage(rows: seq<Row>, from: nat, size: nat, dir: Direction)
    requires from <= |rows| && size >= 1
    decreases |rows| - from
  {
    from == |rows| ||
    (Separates(rows, PageEnd(rows, from, size), dir) && SeparatesEveryPage(rows, PageEnd(rows, from, size), size, dir))
  }

  /** The index at which the page that starts at `from` ends. */
  function PageEnd(rows: seq<Row>, from: nat, size: nat): nat {
    if from + size < |rows| then from + size else |rows|
  }

  lemma TakePage(rows: seq<Row>, from: nat, size: nat)
    requires from < |rows| && size >= 1
    ensures from < PageEnd(rows, from, size) <= |rows|
    ensures var page := Take(rows[from..], size);
            && page == rows[from..PageEnd(rows, from, size)]
            && page != [] && page[|page| - 1] == rows[PageEnd(rows, from, size) - 1]
  {
  }

  lemma {:induction false} BeyondConcat(xs: seq<Row>, ys: seq<Row>, bound: Key, dir: Direction)
    ensures RowsBeyond(xs + ys, bound, dir) == RowsBeyond(xs, bound, dir) + RowsBeyond(ys, bound, dir)
  {
    if xs == [] {
      assert xs + ys == ys;
    } else {
      assert (xs + ys)[0] == xs[0] && (xs + ys)[1..] == xs[1..] + ys;
      BeyondConcat(xs[1..], ys, bound, dir);
      var a, b, c := if Beyond(xs[0].key, bound, dir) then [xs[0]] else [],
                     RowsBeyond(xs[1..], bound, dir), RowsBeyond(ys, bound, dir);
      assert a + (b + c) == a + b + c;
    }
  }

  lemma {:induction false} AllBeyond(rows: seq<Row>, bound: Key, dir: Direction)
    requires forall i :: 0 <= i < |rows| ==> Beyond(rows[i].key, bound, dir)
    ensures RowsBeyond(rows, bound, dir) == rows
  {
    if rows != [] {
      AllBeyond(rows[1..], bound, dir);
    }
  }

  lemma {:induction false} NoneBeyond(rows: seq<Row>, bound: Key, dir: Direction)
    requires forall i :: 0 <= i < |rows| ==> !Beyond(rows[i].key, bound, dir)
    ensures RowsBeyond(rows, bound, dir) == []
  {
    if rows != [] {
      NoneBeyond(rows[1..], bound, dir);
    }
  }

  lemma SeparatedRemaining(rows: seq<Row>, b: nat, dir: Direction)
    requires 0 < b <= |rows| && Separates(rows, b, dir)
    ensures RowsBeyond(rows, rows[b - 1].key, dir) == rows[b..]
  {
    assert rows == rows[..b] + rows[b..];
    BeyondConcat(rows[..b], rows[b..], rows[b - 1].key, dir);
    NoneBeyond(rows[..b], rows[b - 1].key, dir);
    AllBeyond(rows[b..], rows[b - 1].key, dir);
  }

  predicate NoNulls(rows: seq<Row>) { forall i :: 0 <= i < |rows| ==> !rows[i].key.NullKey? }

  predicate Distinct(rows: seq<Row>) { forall i, j :: 0 <= i < j < |rows| ==> rows[i] != rows[j] }

  /** One step of a walk: a page, and the walk from its cursor if it has one. */
  lemma FollowStep(rows: seq<Row>, column: ColumnType, dir: Direction, size: nat,
                   cursor: Option<string>) returns (page: seq<Row>)
    requires Typed(rows, column) && size >= 1 && Remaining(rows, column, dir, cursor).Some?
    ensures page == Take(Remaining(rows, column, dir, cursor).value, size)
    ensures NextCursor(page).None? ==>
              && Concat(Follow(rows, column, dir, size, cursor)) == page
              && |Follow(rows, column, dir, size, cursor)| == 1
    ensures NextCursor(page).Some? ==>
              && Remaining(rows, column, dir, NextCursor(page)) == Some(RowsBeyond(rows, page[|page| - 1].key, dir))
              && |RowsBeyond(rows, page[|page| - 1].key, dir)| < |Remaining(rows, column, dir, cursor).value|
              && Concat(Follow(rows, column, dir, size, cursor))
                 == page + Concat(Follow(rows, column, dir, size, NextCursor(page)))
              && |Follow(rows, column, dir, size, cursor)| == 1 + |Follow(rows, column, dir, size, NextCursor(page))|
  {
    page := Take(Remaining(rows, column, dir, cursor).value, size);
    if NextCursor(page).Some? {
      RemainingShrinks(rows, column, dir, cursor, size);
      var rest := Follow(rows, column, dir, size, NextCursor(page));
      assert ([page] + rest)[1..] == rest;
    } else {
      assert [page][1..] == [] && page + [] == page;
    }
  }

  /** A page that starts at row `from`, and the rows beyond its last row. */
  lemma SeparatedPage(rows: seq<Row>, dir: Direction, size: nat, from: nat)
    requires size >= 1 && from < |rows| && Separates(rows, PageEnd(rows, from, size), dir)
    ensures var (b, page) := (PageEnd(rows, from, size), Take(rows[from..], size));
            && page == rows[from..b] && page != [] && page[|page| - 1] == rows[b - 1]
            && RowsBeyond(rows, rows[b - 1].key, dir) == rows[b..]
            && (rows[b - 1].key.NullKey? ==> b == |rows|)
  {
    var b := PageEnd(rows, from, size);
    TakePage(rows, from, size);
    SeparatedRemaining(rows, b, dir);
    if rows[b - 1].key.NullKey? {
      NoneBeyond(rows, NullKey, dir);
    }
  }

  lemma SeparatedStep(rows: seq<Row>, column: ColumnType, dir: Direction, size: nat,
                      cursor: Option<string>, from: nat) returns (next: Option<string>)
    requires Typed(rows, column) && size >= 1 && from < |rows|
    requires Remaining(rows, column, dir, cursor) == Some(rows[from..])
    requires Separates(rows, PageEnd(rows, from, size), dir)
    ensures var b := PageEnd(rows, from, size);
            && next == CursorText(rows[b - 1].key)
            && (next.None? ==>
                 && b == |rows| && Concat(Follow(rows, column, dir, size, cursor)) == rows[from..b]
                 && |Follow(rows, column, dir, size, cursor)| == 1)
            && (next.Some? ==>
                 && Remaining(rows, column, dir, next) == Some(rows[b..])
                 && Concat(Follow(rows, column, dir, size, cursor))
                    == rows[from..b] + Concat(Follow(rows, column, dir, size, next))
                 && |Follow(rows, column, dir, size, cursor)| == 1 + |Follow(rows, column, dir, size, next)|)
  {
    var b := PageEnd(rows, from, size);
    SeparatedPage(rows, dir, size, from);
    var page := FollowStep(rows, column, dir, size, cursor);
    next := NextCursor(page);
    assert page == rows[from..b] && page[|page| - 1] == rows[b - 1];
    assert next == CursorText(rows[b - 1].key);
  }

  /** A page for every `size` rows begun, and an empty one unless the last row has no cursor. */
  function PageCount(rows: seq<Row>, from: nat, size: nat): nat
    requires from <= |rows| && size >= 1
  {
    CursorPaging.CeilDiv(|rows| - from, size) + if from < |rows| && rows[|rows| - 1].key.NullKey? then 0 else 1
  }

  lemma PageCountStep(rows: seq<Row>, from: nat, size: nat)
    requires from < |rows| && size >= 1
    ensures var b := PageEnd(rows, from, size);
            PageCount(rows, from, size) ==
            if b == |rows| && rows[b - 1].key.NullKey? then 1 else 1 + PageCount(rows, b, size)
  {
    assert CursorPaging.CeilDiv(|rows| - from, size) == 1 + CursorPaging.CeilDiv(|rows| - from - size, size);
  }

  /** A walk that has come as far as row `from`, over rows that every page end separates, yields the rest. */
  lemma {:induction false} SeparatedWalk(rows: seq<Row>, column: ColumnType, dir: Direction, size: nat,
                                         cursor: Option<string>, from: nat)
    requires Typed(rows, column) && size >= 1 && from <= |rows|
    requires Remaining(rows, column, dir, cursor) == Some(rows[from..])
    requires SeparatesEveryPage(rows, from, size, dir)
    ensures Concat(Follow(rows, column, dir, size, cursor)) == rows[from..]
    ensures |Follow(rows, column, dir, size, cursor)| == PageCount(rows, from, size)
    decreases |rows| - from
  {
    if from < |rows| {
      var b := PageEnd(rows, from, size);
      PageCountStep(rows, from, size);
      var next := SeparatedStep(rows, column, dir, size, cursor, from);
      if next.Some? {
        SeparatedWalk(rows, column, dir, size, next, b);
        JoinSlices(rows, from, b);
      }
    } else {
      var page := FollowStep(rows, column, dir, size, cursor);
    }
  }

  lemma JoinSlices(rows: seq<Row>, from: nat, b: nat)
    requires from <= b <= |rows|
    ensures rows[from..b] + rows[b..] == rows[from..]
  {
  }

  /** Every row a walk yields lies beyond the cursor it starts from. */
  lemma {:induction false} WalkStaysBeyond(rows: seq<Row>, column: ColumnType, dir: Direction, size: nat,
                                           cursor: Option<string>)
    requires Typed(rows, column) && size >= 1 && Remaining(rows, column, dir, cursor).Some?
    ensures forall r :: r in Concat(Follow(rows, column, dir, size, cursor)) ==>
              r in Remaining(rows, column, dir, cursor).value
    decreases |Remaining(rows, column, dir, cursor).value|
  {
    var page := FollowStep(rows, column, dir, size, cursor);
    if NextCursor(page).Some? {
      WalkStaysBeyond(rows, column, dir, size, NextCursor(page));
      FartherInside(rows, column, dir, cursor, page[|page| - 1]);
    }
  }

  /** The rows beyond a row that a cursor leaves are among those the cursor leaves. */
  lemma FartherInside(rows: seq<Row>, column: ColumnType, dir: Direction,
                      cursor: Option<string>, last: Row)
    requires Remaining(rows, column, dir, cursor).Some? && last in Remaining(rows, column, dir, cursor).value
    ensures forall r :: r in RowsBeyond(rows, last.key, dir) ==> r in Remaining(rows, column, dir, cursor).value
  {
    BeyondMembers(rows, last.key, dir);
    if cursor.Some? {
      var bound := Normalize(column, cursor.value).value;
      BeyondMembers(rows, bound, dir);
      forall r | r in RowsBeyond(rows, last.key, dir) ensures r in RowsBeyond(rows, bound, dir) {
        LessIsOrder(bound, last.key, r.key);
        LessIsOrder(r.key, last.key, bound);
      }
    }
  }

  lemma {:induction false} FirstBeyond(rows: seq<Row>, b: nat, i: nat, bound: Key, dir: Direction)
    requires i < b <= |rows| && Beyond(rows[i].key, bound, dir)
    ensures RowsBeyond(rows, bound, dir) != [] && RowsBeyond(rows, bound, dir)[0] in rows[..b]
  {
    if !Beyond(rows[0].key, bound, dir) {
      FirstBeyond(rows[1..], b - 1, i - 1, bound, dir);
      assert rows[..b] == [rows[0]] + rows[1..][..b - 1];
      assert [] + RowsBeyond(rows[1..], bound, dir) == RowsBeyond(rows[1..], bound, dir);
    } else {
      assert RowsBeyond(rows, bound, dir)[0] == rows[0] == rows[..b][0];
    }
  }

  /** A walk that starts with some rows left yields the first of them first. */
  lemma WalkStartsAtFirst(rows: seq<Row>, column: ColumnType, dir: Direction, size: nat,
                          cursor: Option<string>)
    requires Typed(rows, column) && size >= 1
    requires Remaining(rows, column, dir, cursor).Some? && Remaining(rows, column, dir, cursor).value != []
    ensures var out := Concat(Follow(rows, column, dir, size, cursor));
            out != [] && out[0] == Remaining(rows, column, dir, cursor).value[0]
  {
  }

  lemma PrefixOf(page: seq<Row>, rest: seq<Row>, rows: seq<Row>, from: nat)
    requires from <= |rows| && page + rest == rows[from..]
    ensures from + |page| <= |rows| && page == rows[from..from + |page|] && rest == rows[from + |page|..]
  {
    var b := from + |page|;
    assert |page + rest| == |rows| - from;
    assert rows[from..b] == rows[from..][..|page|] == (page + rest)[..|page|] == page;
    assert rows[b..] == rows[from..][|page|..] == (page + rest)[|page|..] == rest;
  }

  /** The last row of a page from which the walk goes on to yield the rest separates the rows. */
  lemma CursorSeparates(rows: seq<Row>, column: ColumnType, dir: Direction, size: nat,
                        next: Option<string>, b: nat)
    requires Typed(rows, column) && Distinct(rows) && size >= 1 && 0 < b <= |rows|
    requires Remaining(rows, column, dir, next) == Some(RowsBeyond(rows, rows[b - 1].key, dir))
    requires Concat(Follow(rows, column, dir, size, next)) == rows[b..]
    ensures Separates(rows, b, dir)
  {
    var last := rows[b - 1];
    WalkStaysBeyond(rows, column, dir, size, next);
    BeyondMembers(rows, last.key, dir);
    forall i | b <= i < |rows| ensures Beyond(rows[i].key, last.key, dir) {
      assert rows[b..][i - b] == rows[i];
    }
    HalvesDisjoint(rows, b);
    forall i | 0 <= i < b ensures !Beyond(rows[i].key, last.key, dir) {
      if Beyond(rows[i].key, last.key, dir) {
        FirstBeyond(rows, b, i, last.key, dir);
        WalkStartsAtFirst(rows, column, dir, size, next);
        assert false;
      }
    }
  }

  /** Such a page is full, unless it reaches the end. */
  lemma PageIsFull(rows: seq<Row>, column: ColumnType, dir: Direction, size: nat,
                   cursor: Option<string>, from: nat, b: nat)
    requires Distinct(rows) && size >= 1 && from < b <= |rows| && Separates(rows, b, dir)
    requires Remaining(rows, column, dir, cursor).Some?
    requires Take(Remaining(rows, column, dir, cursor).value, size) == rows[from..b]
    ensures b == PageEnd(rows, from, size)
  {
    if b < |rows| {
      var last, after := rows[b - 1], rows[b];
      assert last == rows[from..b][b - 1 - from];
      FartherInside(rows, column, dir, cursor, last);
      BeyondMembers(rows, last.key, dir);
      assert after in Remaining(rows, column, dir, cursor).value;
      HalvesDisjoint(rows, b);
      assert after == rows[b..][0];
      assert forall r :: r in rows[from..b] ==> r in rows[..b];
    }
  }

  lemma HalvesDisjoint(rows: seq<Row>, b: nat)
    requires Distinct(rows) && b <= |rows|
    ensures forall r :: r in rows[..b] ==> r !in rows[b..]
  {
  }

  /** A step of a walk that yields the rows from `from` on and does not end there: how its page ends. */
  lemma CompleteWalkStep(rows: seq<Row>, column: ColumnType, dir: Direction, size: nat,
                         cursor: Option<string>, from: nat) returns (next: Option<string>)
    requires Typed(rows, column) && Distinct(rows) && size >= 1 && from < |rows|
    requires Remaining(rows, column, dir, cursor).Some?
    requires Concat(Follow(rows, column, dir, size, cursor)) == rows[from..]
    ensures next == NextCursor(Take(Remaining(rows, column, dir, cursor).value, size))
    ensures next.Some? ==>
              && Remaining(rows, column, dir, next).Some?
              && Separates(rows, PageEnd(rows, from, size), dir)
              && Concat(Follow(rows, column, dir, size, next)) == rows[PageEnd(rows, from, size)..]
  {
    var page := FollowStep(rows, column, dir, size, cursor);
    next := NextCursor(page);
    if next.Some? {
      var b := from + |page|;
      PrefixOf(page, Concat(Follow(rows, column, dir, size, next)), rows, from);
      assert page[|page| - 1] == rows[from..b][|page| - 1] == rows[b - 1];
      CursorSeparates(rows, column, dir, size, next, b);
      PageIsFull(rows, column, dir, size, cursor, from, b);
    }
  }

  /** A walk that ends with the page it is at, which holds the rest of the rows, ends in a row without a cursor. */
  lemma LastPageSeparates(rows: seq<Row>, column: ColumnType, dir: Direction, size: nat,
                          cursor: Option<string>, from: nat)
    requires Typed(rows, column) && size >= 1 && from < |rows|
    requires Remaining(rows, column, dir, cursor).Some?
    requires NextCursor(Take(Remaining(rows, column, dir, cursor).value, size)).None?
    requires Concat(Follow(rows, column, dir, size, cursor)) == rows[from..]
    ensures SeparatesEveryPage(rows, from, size, dir)
  {
    var page := FollowStep(rows, column, dir, size, cursor);
    assert page == rows[from..] && page[|page| - 1] == rows[|rows| - 1];
    assert PageEnd(rows, from, size) == |rows|;
    assert Separates(rows, |rows|, dir);
  }

  /** If a walk from row `from` yields the rest of the rows, then every page end separates the rows. */
  lemma {:induction false} CompleteWalkSeparates(rows: seq<Row>, column: ColumnType, dir: Direction, size: nat,
                                                 cursor: Option<string>, from: nat)
    requires Typed(rows, column) && Distinct(rows) && size >= 1 && from <= |rows|
    requires Remaining(rows, column, dir, cursor).Some?
    requires Concat(Follow(rows, column, dir, size, cursor)) == rows[from..]
    ensures SeparatesEveryPage(rows, from, size, dir)
    decreases |rows| - from
  {
    if from < |rows| {
      var next := CompleteWalkStep(rows, column, dir, size, cursor, from);
      if next.Some? {
        CompleteWalkSeparates(rows, column, dir, size, next, PageEnd(rows, from, size));
      } else {
        LastPageSeparates(rows, column, dir, size, cursor, from);
      }
    }
  }

  /**
   * Following keyset cursors over unchanging, distinct rows, NULL in the column or not, yields
   * exactly those rows in the order the database returns them if and only if every page end
   * separates the rows by the column.
   */
  lemma KeysetExact(rows: seq<Row>, column: ColumnType, dir: Direction, size: nat)
    requires Typed(rows, column) && Distinct(rows) && size >= 1
    ensures Concat(Follow(rows, column, dir, size, None)) == rows <==> SeparatesEveryPage(rows, 0, size, dir)
  {
    assert rows[0..] == rows;
    if SeparatesEveryPage(rows, 0, size, dir) {
      SeparatedWalk(rows, column, dir, size, None, 0);
    }
    if Concat(Follow(rows, column, dir, size, None)) == rows {
      CompleteWalkSeparates(rows, column, dir, size, None, 0);
    }
  }

  /** A row with NULL in the column that does not stand on the first page is never yielded. */
  lemma LateNullLost(rows: seq<Row>, column: ColumnType, dir: Direction, size: nat, i: nat)
    requires Typed(rows, column) && Distinct(rows) && size >= 1 && size <= i < |rows| && rows[i].key.NullKey?
    ensures rows[i] !in Concat(Follow(rows, column, dir, size, None))
  {
    var page := FollowStep(rows, column, dir, size, None);
    assert rows[i] !in page;
    if NextCursor(page).Some? {
      WalkStaysBeyond(rows, column, dir, size, NextCursor(page));
      BeyondMembers(rows, page[|page| - 1].key, dir);
    }
  }

  /** So it is with the second of two rows on pages of one. */
  lemma NullRowLost()
    ensures var rows := [Row(1, IntKey(1)), Row(2, NullKey)];
            Row(2, NullKey) !in Concat(Follow(rows, IntColumn, Asc, 1, None))
  {
    LateNullLost([Row(1, IntKey(1)), Row(2, NullKey)], IntColumn, Asc, 1, 1);
  }

  /** Rows in the order of the column, ties in any order. */
  predicate Ordered(rows: seq<Row>, dir: Direction) {
    forall i, j :: 0 <= i < j < |rows| ==> !Beyond(rows[i].key, rows[j].key, dir)
  }

  /** The rows fall apart at index `b`: no NULL right before it or anywhere after it, and no tie across it. */
  predicate CleanCut(rows: seq<Row>, b: nat)
    requires 0 < b < |rows|
  {
    && !rows[b - 1].key.NullKey?
    && (forall i :: b <= i < |rows| ==> !rows[i].key.NullKey?)
    && rows[b - 1].key != rows[b].key
  }

  /** The rows fall apart at every page end, the end of the last page excepted. */
  predicate CleanCuts(rows: seq<Row>, from: nat, size: nat)
    requires from <= |rows| && size >= 1
    decreases |rows| - from
  {
    from + size >= |rows| || (CleanCut(rows, from + size) && CleanCuts(rows, from + size, size))
  }

  lemma OrderedCut(rows: seq<Row>, column: ColumnType, dir: Direction, b: nat)
    requires Typed(rows, column) && Ordered(rows, dir) && 0 < b < |rows|
    ensures Separates(rows, b, dir) <==> CleanCut(rows, b)
  {
    var last := rows[b - 1].key;
    LessIsOrder(last, last, last);
    if CleanCut(rows, b) {
      LessTotal(last, rows[b].key, column);
      forall i | b <= i < |rows| ensures Beyond(rows[i].key, last, dir) {
        if rows[i].key != rows[b].key {
          LessTotal(rows[i].key, rows[b].key, column);
          LessIsOrder(last, rows[b].key, rows[i].key);
          LessIsOrder(rows[i].key, rows[b].key, last);
        }
      }
    }
    if Separates(rows, b, dir) {
      assert Beyond(rows[b].key, last, dir);
    }
  }

  lemma {:induction false} OrderedSeparates(rows: seq<Row>, column: ColumnType, dir: Direction, size: nat, from: nat)
    requires Typed(rows, column) && Ordered(rows, dir) && size >= 1 && from <= |rows|
    ensures SeparatesEveryPage(rows, from, size, dir) <==> CleanCuts(rows, from, size)
    decreases |rows| - from
  {
    if from < |rows| {
      var b := PageEnd(rows, from, size);
      OrderedSeparates(rows, column, dir, size, b);
      if b < |rows| {
        OrderedCut(rows, column, dir, b);
      } else {
        LessIsOrder(rows[b - 1].key, rows[b - 1].key, rows[b - 1].key);
        assert Separates(rows, b, dir);
      }
    }
  }

  /**
   * With an explicit first sort the cursors yield every row once exactly when at every page end no
   * NULL stands right before it or anywhere after it, and no tie in the column lies across it.
   */
  lemma OrderedKeysetExact(rows: seq<Row>, column: ColumnType, dir: Direction, size: nat)
    requires Typed(rows, column) && Distinct(rows) && Ordered(rows, dir) && size >= 1
    ensures Concat(Follow(rows, column, dir, size, None)) == rows <==> CleanCuts(rows, 0, size)
  {
    KeysetExact(rows, column, dir, size);
    OrderedSeparates(rows, column, dir, size, 0);
  }

  lemma {:induction false} DistinctKeysCut(rows: seq<Row>, size: nat, from: nat)
    requires NoNulls(rows) && size >= 1 && from <= |rows|
    requires forall i, j :: 0 <= i < j < |rows| ==> rows[i].key != rows[j].key
    ensures CleanCuts(rows, from, size)
    decreases |rows| - from
  {
    if from + size < |rows| {
      DistinctKeysCut(rows, size, from + size);
    }
  }

  lemma DistinctColumnPages(rows: seq<Row>, column: ColumnType, dir: Direction, size: nat)
    requires Typed(rows, column) && NoNulls(rows) && Ordered(rows, dir) && size >= 1
    requires forall i, j :: 0 <= i < j < |rows| ==> rows[i].key != rows[j].key
    ensures Concat(Follow(rows, column, dir, size, None)) == rows
    ensures |Follow(rows, column, dir, size, None)| == CursorPaging.CeilDiv(|rows|, size) + 1
  {
    assert rows[0..] == rows;
    DistinctKeysCut(rows, size, 0);
    OrderedSeparates(rows, column, dir, size, 0);
    SeparatedWalk(rows, column, dir, size, None, 0);
  }

  /**
   * A first sort on a column of distinct, non-NULL values, ascending or descending: every row
   * exactly once, in sort order, in exactly ceil(n / size) + 1 pages.
   */
  lemma DistinctColumnTraversal(rows: seq<Row>, column: ColumnType, dir: Direction, size: nat)
    requires Typed(rows, column) && NoNulls(rows) && Ordered(rows, dir) && size >= 1
    requires forall i, j :: 0 <= i < j < |rows| ==> rows[i].key != rows[j].key
    ensures var pages := Follow(rows, column, dir, size, None);
            && Concat(pages) == rows
            && |pages| == CursorPaging.CeilDiv(|rows|, size) + 1
            && (rows != [] ==> (|pages| - 2) * size < |rows| <= (|pages| - 1) * size)
  {
    DistinctColumnPages(rows, column, dir, size);
    CountBounds(|Follow(rows, column, dir, size, None)|, |rows|, size);
  }

  lemma CountBounds(p: nat, n: nat, size: nat)
    requires size >= 1 && p == CursorPaging.CeilDiv(n, size) + 1
    ensures n > 0 ==> (p - 2) * size < n <= (p - 1) * size
  {
    if n > 0 {
      CursorPaging.CeilDivIsCeiling(n, size);
    }
  }

  /** Without a sort on it, paging by the id can lose rows: the newer of two rows stored first. */
  lemma UnsortedIdLosesRow()
    ensures var rows := [Row(2, IntKey(2)), Row(1, IntKey(1))];
            Concat(Follow(rows, IntColumn, Asc, 1, None)) == [Row(2, IntKey(2))]
  {
    var first, second := Row(2, IntKey(2)), Row(1, IntKey(1));
    var rows := [first, second];
    var cursor := NextCursor([first]);
    assert rows[..1] == [first];
    CursorRoundTrip(IntKey(2), IntColumn);
    assert rows[1..] == [second] && [second][1..] == [];
    assert RowsBeyond([second], IntKey(2), Asc) == [];
    assert RowsBeyond(rows, IntKey(2), Asc) == [];
    var empty: seq<Row> := [];
    assert Follow(rows, IntColumn, Asc, 1, cursor) == [empty];
    assert Follow(rows, IntColumn, Asc, 1, None) == [[first]] + [empty];
    assert ([[first]] + [empty])[1..] == [empty] && [empty][1..] == [];
    assert Concat([empty]) == [];
  }

  // ---- From the query to the pages ----

  /** A row of the table: its primary key, and its value in every column; an absent one is NULL. */
  datatype Record = Record(id: nat, cells: map<string, Key>)

  function Cell(r: Record, field: string): Key { if field in r.cells then r.cells[field] else NullKey }

  function Column(rows: seq<Record>, field: string): (out: seq<Row>)
    ensures |out| == |rows| && forall i :: 0 <= i < |rows| ==> out[i] == Row(rows[i].id, Cell(rows[i], field))
  {
    if rows == [] then [] else [Row(rows[0].id, Cell(rows[0], field))] + Column(rows[1..], field)
  }

  /** `r` comes before `s` by the entries of `ORDER BY`, the first most significant. */
  predicate Precedes(r: Record, s: Record, order: seq<SortSpec>) {
    order != [] &&
    var (a, b) := (Cell(r, order[0].field), Cell(s, order[0].field));
    Beyond(b, a, order[0].dir) || (a == b && Precedes(r, s, order[1..]))
  }

  /** An order in which the database may return the rows; among ties, and with NULL, it is free. */
  predicate AdmittedBy(rows: seq<Record>, order: seq<SortSpec>) {
    forall i, j :: 0 <= i < j < |rows| ==> !Precedes(rows[j], rows[i], order)
  }

  predicate DistinctIds(rows: seq<Record>) { forall i, j :: 0 <= i < j < |rows| ==> rows[i].id != rows[j].id }

  /** All pages of a keyset query; without a column to continue along, the first page is the only one. */
  function Pages(rows: seq<Record>, sorts: seq<SortSpec>, columns: set<string>, idField: string,
                 column: ColumnType, size: nat): seq<seq<Row>>
    requires size >= 1
    requires PrimarySort(sorts, columns, idField).Some? ==>
               Typed(Column(rows, PrimarySort(sorts, columns, idField).value.field), column)
  {
    match PrimarySort(sorts, columns, idField)
    case None => [Take(Column(rows, idField), size)]
    case Some(sort) => Follow(Column(rows, sort.field), column, sort.dir, size, None)
  }

  lemma LeadingSortOrders(rows: seq<Record>, order: seq<SortSpec>)
    requires order != [] && AdmittedBy(rows, order)
    ensures Ordered(Column(rows, order[0].field), order[0].dir)
  {
    var keys, dir := Column(rows, order[0].field), order[0].dir;
    forall i, j | 0 <= i < j < |keys| ensures !Beyond(keys[i].key, keys[j].key, dir) {
      assert !Precedes(rows[j], rows[i], order);
    }
  }

  /**
   * Whatever further entries `ORDER BY` has, and however the database breaks ties: if the first one
   * names a column, following the cursors yields every row once, in that order, exactly when the
   * column falls apart at every page end. Distinct, non-NULL values always do.
   */
  lemma SortedTraversal(rows: seq<Record>, sorts: seq<SortSpec>, columns: set<string>,
                        idField: string, column: ColumnType, size: nat)
    requires size >= 1 && DistinctIds(rows) && AdmittedBy(rows, OrderBy(sorts, columns))
    requires sorts != [] && sorts[0].field in columns && Typed(Column(rows, sorts[0].field), column)
    ensures var keys := Column(rows, sorts[0].field);
            var pages := Pages(rows, sorts, columns, idField, column, size);
            && (Concat(pages) == keys <==> CleanCuts(keys, 0, size))
            && (NoNulls(keys) && (forall i, j :: 0 <= i < j < |keys| ==> keys[i].key != keys[j].key) ==>
                 Concat(pages) == keys && |pages| == CursorPaging.CeilDiv(|keys|, size) + 1)
  {
    var keys, dir := Column(rows, sorts[0].field), sorts[0].dir;
    assert OrderBy(sorts, columns)[0] == sorts[0];
    LeadingSortOrders(rows, OrderBy(sorts, columns));
    OrderedKeysetExact(keys, column, dir, size);
    if NoNulls(keys) && forall i, j :: 0 <= i < j < |keys| ==> keys[i].key != keys[j].key {
      DistinctColumnPages(keys, column, dir, size);
    }
  }

  /**
   * The documentation fails on a later entry: sorted by a field that is no column and then by the
   * name, two rows come in the order of their names, but pages continue along the id and lose one.
   */
  lemma LaterSortIgnored()
    ensures var (sorts, columns) := ([SortSpec("nowhere", Asc), SortSpec("name", Asc)], {"id", "name"});
            var rows := [Record(2, map["id" := IntKey(2), "name" := TextKey("a")]),
                         Record(1, map["id" := IntKey(1), "name" := TextKey("b")])];
            && AdmittedBy(rows, OrderBy(sorts, columns))
            && DocumentedSort(sorts, columns, "id") == Some(SortSpec("name", Asc))
            && PrimarySort(sorts, columns, "id") == Some(SortSpec("id", Asc))
            && Concat(Pages(rows, sorts, columns, "id", IntColumn, 1)) == [Row(2, IntKey(2))]
  {
    var (sorts, columns) := ([SortSpec("nowhere", Asc), SortSpec("name", Asc)], {"id", "name"});
    var rows := [Record(2, map["id" := IntKey(2), "name" := TextKey("a")]),
                 Record(1, map["id" := IntKey(1), "name" := TextKey("b")])];
    assert sorts[1..] == [SortSpec("name", Asc)] && sorts[1..][1..] == [];
    assert OrderBy(sorts[1..], columns) == [SortSpec("name", Asc)];
    assert OrderBy(sorts, columns) == [SortSpec("name", Asc)];
    assert Column(rows, "id") == [Row(2, IntKey(2)), Row(1, IntKey(1))];
    UnsortedIdLosesRow();
  }
}
