/** Offset and cursor pages over an unchanging list of rows, and what following the cursors yields. */
module CursorPaging {
  import opened Text
  import opened QuerySpec

  datatype Page<T> = Page(items: seq<T>, total: nat, nextCursor: Option<string>)

  /** `str.isdigit` on ASCII text. */
  predicate IsDigits(s: string) { s != "" && AllDigits(s) }

  /** Only cursor mode reads the cursor, and only one made of digits. */
  function ResolveOffset(spec: PaginationSpec): nat {
    if spec.mode == Cursor && spec.cursor.Some? && IsDigits(spec.cursor.value) then ParseNat(spec.cursor.value)
    else spec.offset
  }

  function Slice<T>(rows: seq<T>, from: nat, upTo: nat): seq<T> {
    if from >= |rows| || from >= upTo then [] else rows[from..if upTo < |rows| then upTo else |rows|]
  }

  function SlicePage<T>(rows: seq<T>, spec: PaginationSpec): seq<T> {
    Slice(rows, ResolveOffset(spec), ResolveOffset(spec) + spec.pageSize)
  }

  /** `InMemoryRepository.paginate` on the filtered and sorted rows. */
  function Paginate<T>(rows: seq<T>, spec: PaginationSpec): Page<T> {
    var next := ResolveOffset(spec) + spec.pageSize;
    Page(SlicePage(rows, spec), |rows|, if next < |rows| then Some(PrintNat(next)) else None)
  }

  /**
   * The same page of the SQL repository outside keyset mode: its `total` is counted before the
   * filters, and an empty page has no next cursor.
   */
  function PaginateSql<T>(rows: seq<T>, total: nat, spec: PaginationSpec): Page<T> {
    var items := SlicePage(rows, spec);
    var next := ResolveOffset(spec) + spec.pageSize;
    Page(items, total, if items != [] && next < total then Some(PrintNat(next)) else None)
  }

  /** When nothing is filtered out, the two repositories page alike. */
  lemma SqlPagesAlike<T>(rows: seq<T>, spec: PaginationSpec)
    requires spec.pageSize >= 1
    ensures PaginateSql(rows, |rows|, spec) == Paginate(rows, spec)
  {
  }

  /** The pages a client sees that hands every `next_cursor` back until there is none. */
  function Follow<T>(rows: seq<T>, total: nat, spec: PaginationSpec): seq<Page<T>>
    requires spec.mode == Cursor && spec.pageSize >= 1
    decreases total - ResolveOffset(spec)
  {
    var page := PaginateSql(rows, total, spec);
    match page.nextCursor
    case None => [page]
    case Some(c) =>
      ParsePrintNat(ResolveOffset(spec) + spec.pageSize);
      [page] + Follow(rows, total, spec.(cursor := Some(c)))
  }

  function Items<T>(pages: seq<Page<T>>): seq<T> {
    if pages == [] then [] else pages[0].items + Items(pages[1..])
  }

  /** `ceil(n / d)`, and 0 for what is not positive. */
  function CeilDiv(n: int, d: int): nat
    requires d >= 1
    decreases n
  {
    if n <= 0 then 0 else 1 + CeilDiv(n - d, d)
  }

  lemma {:induction false} CeilDivIsCeiling(n: int, d: int)
    requires d >= 1 && n > 0
    ensures (CeilDiv(n, d) - 1) * d < n <= CeilDiv(n, d) * d
    decreases n
  {
    var k := CeilDiv(n - d, d);
    assert (k + 1) * d == k * d + d && k * d == (k - 1) * d + d;
    if n > d {
      CeilDivIsCeiling(n - d, d);
    } else {
      assert k == 0;
    }
  }

  /** The spec of the page after the one for `spec`. */
  lemma NextSpec<T>(rows: seq<T>, total: nat, spec: PaginationSpec)
    requires spec.mode == Cursor && PaginateSql(rows, total, spec).nextCursor.Some?
    ensures var o := ResolveOffset(spec);
            && ResolveOffset(spec.(cursor := PaginateSql(rows, total, spec).nextCursor)) == o + spec.pageSize
            && o < |rows| && o + spec.pageSize < total
  {
    ParsePrintNat(ResolveOffset(spec) + spec.pageSize);
  }

  /** A walk is its first page, and the walk from its cursor if it has one. */
  lemma FollowStep<T>(rows: seq<T>, total: nat, spec: PaginationSpec)
    requires spec.mode == Cursor && spec.pageSize >= 1 && |rows| <= total
    ensures var (pages, page) := (Follow(rows, total, spec), PaginateSql(rows, total, spec));
            && |pages| > 0 && pages[0] == page
            && (page.items == [] <==> ResolveOffset(spec) >= |rows|)
            && (page.nextCursor.None? <==>
                ResolveOffset(spec) >= |rows| || ResolveOffset(spec) + spec.pageSize >= total)
            && (page.nextCursor.None? <==> |pages| == 1)
            && (page.nextCursor.Some? ==>
                 var rest := Follow(rows, total, spec.(cursor := page.nextCursor));
                 |rest| == |pages| - 1 && pages[|pages| - 1] == rest[|rest| - 1])
  {
    var page := PaginateSql(rows, total, spec);
    if page.nextCursor.Some? {
      NextSpec(rows, total, spec);
      var rest := Follow(rows, total, spec.(cursor := page.nextCursor));
      assert ([page] + rest)[|rest|] == rest[|rest| - 1];
    }
  }

  lemma CeilStep(n: int, d: int)
    requires d >= 1
    ensures CeilDiv(n, d) == if n <= 0 then 0 else 1 + CeilDiv(n - d, d)
  {
  }

  lemma FollowCount<T>(rows: seq<T>, total: nat, spec: PaginationSpec)
    requires spec.mode == Cursor && spec.pageSize >= 1 && |rows| <= total
    ensures var o := ResolveOffset(spec);
            |Follow(rows, total, spec)|
            == Max(1, Min(CeilDiv(total - o, spec.pageSize), 1 + CeilDiv(|rows| - o, spec.pageSize)))
  {
    PagesInSteps(rows, total, spec);
    StepsAreCeilings(total - ResolveOffset(spec), |rows| - ResolveOffset(spec), spec.pageSize);
  }

  /** The pages of a walk that still has `m` rows to go, of `n` announced ones. */
  function Steps(n: int, m: int, d: nat): nat
    requires d >= 1
    decreases n
  {
    if m <= 0 || n <= d then 1 else 1 + Steps(n - d, m - d, d)
  }

  lemma {:induction false} StepsAreCeilings(n: int, m: int, d: nat)
    requires d >= 1 && m <= n
    ensures Steps(n, m, d) == Max(1, Min(CeilDiv(n, d), 1 + CeilDiv(m, d)))
    decreases n
  {
    CeilStep(n, d);
    CeilStep(m, d);
    CeilStep(n - d, d);
    if m > 0 && n > d {
      StepsAreCeilings(n - d, m - d, d);
    }
  }

  lemma {:induction false} PagesInSteps<T>(rows: seq<T>, total: nat, spec: PaginationSpec)
    requires spec.mode == Cursor && spec.pageSize >= 1 && |rows| <= total
    ensures var o := ResolveOffset(spec);
            |Follow(rows, total, spec)| == Steps(total - o, |rows| - o, spec.pageSize)
    decreases total - ResolveOffset(spec)
  {
    var page := PaginateSql(rows, total, spec);
    FollowStep(rows, total, spec);
    if page.nextCursor.Some? {
      NextSpec(rows, total, spec);
      PagesInSteps(rows, total, spec.(cursor := page.nextCursor));
    }
  }

  /** The rows from index `o` on. */
  function RowsFrom<T>(rows: seq<T>, o: nat): seq<T> { if o < |rows| then rows[o..] else [] }

  lemma SliceThenRest<T>(rows: seq<T>, o: nat, size: nat)
    ensures Slice(rows, o, o + size) + RowsFrom(rows, o + size) == RowsFrom(rows, o)
  {
  }

  lemma ItemsOfFirst<T>(page: Page<T>, rest: seq<Page<T>>)
    ensures Items([page] + rest) == page.items + Items(rest)
  {
    assert ([page] + rest)[1..] == rest;
  }

  lemma {:induction false} FollowItems<T>(rows: seq<T>, total: nat, spec: PaginationSpec)
    requires spec.mode == Cursor && spec.pageSize >= 1 && |rows| <= total
    ensures Items(Follow(rows, total, spec)) == RowsFrom(rows, ResolveOffset(spec))
    decreases total - ResolveOffset(spec)
  {
    var o, page := ResolveOffset(spec), PaginateSql(rows, total, spec);
    SliceThenRest(rows, o, spec.pageSize);
    if page.nextCursor.Some? {
      NextSpec(rows, total, spec);
      var next := spec.(cursor := page.nextCursor);
      FollowItems(rows, total, next);
      ItemsOfFirst(page, Follow(rows, total, next));
    } else {
      ItemsOfFirst(page, []);
      assert [page] + [] == [page] && page.items + [] == page.items;
      NothingAfterLast(rows, total, spec);
    }
  }

  lemma NothingAfterLast<T>(rows: seq<T>, total: nat, spec: PaginationSpec)
    requires spec.pageSize >= 1 && |rows| <= total && PaginateSql(rows, total, spec).nextCursor.None?
    ensures RowsFrom(rows, ResolveOffset(spec) + spec.pageSize) == []
  {
  }

  /**
   * Following the cursors from offset `o` yields exactly `rows[o..]`, nothing lost and nothing
   * twice. The number of pages is what `total` announces, except that an empty page ends early
   * a walk whose `total` counts rows that the filters removed.
   */
  lemma FollowYieldsRest<T>(rows: seq<T>, total: nat, spec: PaginationSpec)
    requires spec.mode == Cursor && spec.pageSize >= 1 && |rows| <= total
    ensures var o := ResolveOffset(spec);
            && Items(Follow(rows, total, spec)) == RowsFrom(rows, o)
            && |Follow(rows, total, spec)|
               == Max(1, Min(CeilDiv(total - o, spec.pageSize), 1 + CeilDiv(|rows| - o, spec.pageSize)))
  {
    FollowCount(rows, total, spec);
    FollowItems(rows, total, spec);
  }

  /**
   * The last cursor of a SQL walk leads to an empty page exactly when the unfiltered total announces
   * a page more than the filtered rows fill.
   */
  lemma LastPageEmptyExactly<T>(rows: seq<T>, total: nat, spec: PaginationSpec)
    requires spec.mode == Cursor && spec.pageSize >= 1 && |rows| <= total
    ensures var (pages, o) := (Follow(rows, total, spec), ResolveOffset(spec));
            && pages != []
            && (|pages| > 1 && pages[|pages| - 1].items == [] <==>
                o < |rows| && CeilDiv(total - o, spec.pageSize) > CeilDiv(|rows| - o, spec.pageSize))
  {
    LastPageBySurplus(rows, total, spec);
    SurplusExactly(total - ResolveOffset(spec), |rows| - ResolveOffset(spec), spec.pageSize);
  }

  /** Some page of `d` begins behind `m` rows, of which there is one, and within `n`. */
  function Surplus(n: int, m: int, d: nat): bool
    requires d >= 1
    decreases n
  {
    0 < m && d < n && (m <= d || Surplus(n - d, m - d, d))
  }

  lemma {:induction false} SurplusExactly(n: int, m: int, d: nat)
    requires d >= 1 && m <= n
    ensures Surplus(n, m, d) <==> 0 < m && CeilDiv(n, d) > CeilDiv(m, d)
    decreases n
  {
    CeilStep(n, d);
    CeilStep(m, d);
    CeilStep(n - d, d);
    CeilStep(m - d, d);
    if 0 < m {
      SurplusExactly(n - d, m - d, d);
    }
  }

  lemma {:induction false} LastPageBySurplus<T>(rows: seq<T>, total: nat, spec: PaginationSpec)
    requires spec.mode == Cursor && spec.pageSize >= 1 && |rows| <= total
    ensures var (pages, o) := (Follow(rows, total, spec), ResolveOffset(spec));
            && pages != []
            && (|pages| > 1 && pages[|pages| - 1].items == [] <==> Surplus(total - o, |rows| - o, spec.pageSize))
    decreases total - ResolveOffset(spec)
  {
    var page := PaginateSql(rows, total, spec);
    FollowStep(rows, total, spec);
    if page.nextCursor.Some? {
      var next := spec.(cursor := page.nextCursor);
      NextSpec(rows, total, spec);
      FollowStep(rows, total, next);
      LastPageBySurplus(rows, total, next);
    }
  }

  /** So it is if one of two rows is filtered out. */
  lemma EmptyPageFollows()
    ensures var spec := PaginationSpec(1, 0, None, Cursor);
            var pages := Follow([7], 2, spec);
            |pages| == 2 && pages[0].items == [7] && pages[1].items == []
  {
    var spec := PaginationSpec(1, 0, None, Cursor);
    NextSpec([7], 2, spec);
    LastPageEmptyExactly([7], 2, spec);
    FollowCount([7], 2, spec);
    assert CeilDiv(2, 1) == 2 && CeilDiv(1, 1) == 1;
  }

  /** The dict-backed repository: every row from `o` on, in `max(1, ceil((n - o) / pageSize))` pages. */
  lemma {:induction false} DictTraversal<T>(rows: seq<T>, spec: PaginationSpec)
    requires spec.mode == Cursor && spec.pageSize >= 1
    ensures var o := ResolveOffset(spec);
            && Items(Follow(rows, |rows|, spec)) == RowsFrom(rows, o)
            && |Follow(rows, |rows|, spec)| == Max(1, CeilDiv(|rows| - o, spec.pageSize))
    ensures var (p, n) := (|Follow(rows, |rows|, spec)|, |rows| - ResolveOffset(spec));
            if n > 0 then (p - 1) * spec.pageSize < n <= p * spec.pageSize else p == 1
  {
    var n := |rows| - ResolveOffset(spec);
    FollowYieldsRest(rows, |rows|, spec);
    if n > 0 {
      CeilDivIsCeiling(n, spec.pageSize);
    }
  }

  /**
   * Outside cursor mode the dict-backed repository does not read the cursor, so a client that
   * follows it gets the same page again: it makes progress, or is told to stop, exactly in cursor
   * mode or when the first page is the last.
   */
  lemma OtherModesRepeat<T>(rows: seq<T>, spec: PaginationSpec)
    requires spec.pageSize >= 1
    ensures var page := Paginate(rows, spec);
            (page.nextCursor.None? || Paginate(rows, spec.(cursor := page.nextCursor)) != page) <==>
            (spec.mode == Cursor || spec.offset + spec.pageSize >= |rows|)
  {
    var page, o := Paginate(rows, spec), ResolveOffset(spec);
    var next := spec.(cursor := page.nextCursor);
    if page.nextCursor.Some? && spec.mode == Cursor {
      ParsePrintNat(o + spec.pageSize);
      assert ResolveOffset(next) == o + spec.pageSize;
      var again := Paginate(rows, next);
      if again.nextCursor == page.nextCursor {
        ParsePrintNat(o + 2 * spec.pageSize);
        assert false;
      }
    }
  }
}
