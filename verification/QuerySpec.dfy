/** What a caller asks a repository for: sort entries, and which page. */
module QuerySpec {
  import opened Text

  datatype Direction = Asc | Desc

  datatype SortSpec = SortSpec(field: string, dir: Direction)

  datatype Mode = Offset | Cursor | Keyset

  datatype PaginationSpec = PaginationSpec(pageSize: nat, offset: nat, cursor: Option<string>, mode: Mode)
}
