/** Browsing a table: the REST source's paging, the chunked sweep, and ProjectTables' filter, sort and pages. */
module DataBrowser {
  import opened Text
  import opened Wrappers
  import opened SortRows

  /** A REST collection that does not change while it is read; fetches at the broken offsets fail. */
  datatype Source = Source(rows: seq<Row>, broken: set<nat>)

  function Min(a: int, b: int): int { if a < b then a else b }

  // ---- redaction ------------------------------------------------------------------------------------------

  predicate HasAny(s: string, words: seq<string>) {
    exists i | 0 <= i < |words| :: HasText(s, words[i])
  }

  const SENSITIVE := ["password", "passwd", "pwd", "token", "secret", "api_key", "apikey",
                      "access_key", "private_key", "credential"]

  predicate IsSensitiveKey(k: string, lower: char -> char) {
    HasAny(ToLower(k, lower), SENSITIVE)
  }

  function RedactRow(row: Row, lower: char -> char): Row {
    map k | k in row && !IsSensitiveKey(k, lower) :: row[k]
  }

  function Redacted(rows: seq<Row>, lower: char -> char): (r: seq<Row>)
    ensures |r| == |rows|
  {
    seq(|rows|, i requires 0 <= i < |rows| => RedactRow(rows[i], lower))
  }

  /** The columns that any row of the table has, without the sensitive ones. */
  ghost function Columns(rows: seq<Row>, lower: char -> char): set<string> {
    set i, c | 0 <= i < |rows| && c in rows[i] && !IsSensitiveKey(c, lower) :: c
  }

  /** A listing of a set of columns, in the order a Go map happens to give. */
  ghost predicate Lists(cols: seq<string>, columns: set<string>) {
    forall c :: c in cols <==> c in columns
  }

  // ---- the source -----------------------------------------------------------------------------------------

  function Slice(rows: seq<Row>, limit: nat, offset: nat): seq<Row> {
    if limit == 0 then rows
    else if offset < |rows| then rows[offset..Min(offset + limit, |rows|)]
    else []
  }

  /** Only rows that carry an id claim it as their key. */
  function PkOf(page: seq<Row>): string {
    if page != [] && "id" in page[0] then "id" else ""
  }

  datatype Page = Page(rows: seq<Row>, cols: seq<string>, pk: string)

  /** A column name that the REST source itself hides. */
  predicate HiddenBySource(c: string, lower: char -> char) {
    HasAny(ToLower(c, lower), ["password", "token"])
  }

  lemma HiddenIsSensitive(c: string, lower: char -> char)
    ensures HiddenBySource(c, lower) ==> IsSensitiveKey(c, lower)
  {
    if HiddenBySource(c, lower) {
      assert ["password", "token"][0] == SENSITIVE[0] && ["password", "token"][1] == SENSITIVE[3];
    }
  }

  /** RESTSource.ReadItems: every call lists the columns of the whole collection, whatever page it returns. */
  method ReadItems(src: Source, limit: nat, offset: nat, lower: char -> char) returns (page: Option<Page>)
    ensures page.None? <==> offset in src.broken
    ensures page.Some? ==> page.value.rows == Slice(src.rows, limit, offset) && page.value.pk == PkOf(page.value.rows)
    ensures page.Some? ==> Lists(RedactedCols(page.value.cols, lower), Columns(src.rows, lower))
  {
    if offset in src.broken {
      return None;
    }
    var rows := src.rows;
    var colSet: set<string> := {};
    var i := 0;
    while i < |rows|
      invariant 0 <= i <= |rows|
      invariant forall c :: c in colSet <==> exists j | 0 <= j < i :: c in rows[j]
    {
      colSet := colSet + rows[i].Keys;
      i := i + 1;
    }
    var cols := Listed(colSet, lower);
    ColumnsListed(rows, cols, lower);
    if limit > 0 && offset < |rows| {
      rows := rows[offset..Min(offset + limit, |rows|)];
    } else if limit > 0 {
      rows := [];
    }
    var pk := "";
    if |rows| > 0 && "id" in rows[0] {
      pk := "id";
    }
    page := Some(Page(rows, cols, pk));
  }

  method Listed(columns: set<string>, lower: char -> char) returns (cols: seq<string>)
    ensures forall c :: c in cols <==> c in columns && !HiddenBySource(c, lower)
  {
    cols := [];
    var todo := columns;
    while todo != {}
      invariant todo <= columns
      invariant forall c :: c in cols <==> c in columns - todo && !HiddenBySource(c, lower)
      decreases todo
    {
      var c :| c in todo;
      if !HiddenBySource(c, lower) {
        cols := cols + [c];
      }
      todo := todo - {c};
    }
  }

  function RedactedCols(cols: seq<string>, lower: char -> char): (r: seq<string>)
    ensures forall c :: c in r <==> c in cols && !IsSensitiveKey(c, lower)
  {
    if cols == [] then []
    else
      assert forall c :: c in cols <==> c in cols[..|cols| - 1] || c == cols[|cols| - 1];
      RedactedCols(cols[..|cols| - 1], lower)
      + if IsSensitiveKey(cols[|cols| - 1], lower) then [] else [cols[|cols| - 1]]
  }

  lemma ColumnsListed(rows: seq<Row>, cols: seq<string>, lower: char -> char)
    requires forall c :: c in cols <==> (exists j | 0 <= j < |rows| :: c in rows[j]) && !HiddenBySource(c, lower)
    ensures Lists(RedactedCols(cols, lower), Columns(rows, lower))
  {
    hide HasAny;
    forall c
      ensures c in RedactedCols(cols, lower) <==> c in Columns(rows, lower)
    {
      HiddenIsSensitive(c, lower);
    }
  }

  // ---- the chunked sweep ----------------------------------------------------------------------------------

  const CHUNK: nat := 500
  const READ_ALL_MAX: nat := 1_000_000

  /** The sweep gives up on tables with this many rows: max, rounded up to whole chunks. */
  function Cap(max: nat): nat {
    (max + CHUNK - 1) / CHUNK * CHUNK
  }

  predicate WholeChunks(n: nat) { n % CHUNK == 0 }

  /** The sweep asks for the chunk at this offset. */
  predicate Asked(src: Source, max: nat, offset: nat) {
    WholeChunks(offset) && offset < max && offset <= |src.rows|
  }

  ghost predicate SweepFails(src: Source, max: nat) {
    |src.rows| >= Cap(max) || exists offset :: Asked(src, max, offset) && offset in src.broken
  }

  /** The key comes with the last chunk that holds rows. */
  function SweepPk(rows: seq<Row>): string {
    if rows != [] && "id" in rows[(|rows| - 1) / CHUNK * CHUNK] then "id" else ""
  }

  /** readAllItems. */
  method ReadAllItems(src: Source, max: nat, lower: char -> char) returns (page: Option<Page>)
    ensures page.None? <==> SweepFails(src, max)
    ensures page.Some? ==> page.value.rows == src.rows && page.value.pk == SweepPk(src.rows)
    ensures page.Some? ==> Lists(RedactedCols(page.value.cols, lower), Columns(src.rows, lower))
  {
    hide WholeChunks, Cap, SweepPk, Columns, Lists, Slice, PkOf;
    var all: seq<Row> := [];
    var cols: seq<string> := [];
    var pk := "";
    var off: nat := 0;
    NoColumns(src.rows, lower);
    while off < max
      invariant WholeChunks(off) && off <= |src.rows|
      invariant all == src.rows[..off] && pk == SweepPk(all)
      invariant off > 0 || src.rows == [] ==> Lists(RedactedCols(cols, lower), Columns(src.rows, lower))
      invariant forall o: nat | Asked(src, max, o) && o < off :: o !in src.broken
      decreases max - off
    {
      assert Asked(src, max, off);
      var chunk := ReadItems(src, CHUNK, off, lower);
      if chunk.None? {
        return None;
      }
      var rows := chunk.value.rows;
      if |rows| > 0 {
        cols, pk := chunk.value.cols, chunk.value.pk;
      }
      SweepStep(src, max, off);
      all := all + rows;
      if |rows| < CHUNK {
        return Some(Page(all, cols, pk));
      }
      off := off + CHUNK;
    }
    SweepCapped(max, off);
    page := None;
  }

  lemma NoColumns(rows: seq<Row>, lower: char -> char)
    ensures rows == [] ==> Lists(RedactedCols([], lower), Columns(rows, lower))
    ensures WholeChunks(0) && SweepPk(rows[..0]) == ""
  {}

  lemma SweepCapped(max: nat, off: nat)
    requires WholeChunks(off) && off >= max
    ensures off >= Cap(max)
  {}

  /** A full chunk extends the prefix that was read; a short one completes it, and no later one is asked for. */
  lemma SweepStep(src: Source, max: nat, off: nat)
    requires Asked(src, max, off)
    ensures var chunk := Slice(src.rows, CHUNK, off); var end := off + |chunk|;
            && end <= |src.rows| && |chunk| <= CHUNK && src.rows[..off] + chunk == src.rows[..end]
            && (chunk != [] ==> PkOf(chunk) == SweepPk(src.rows[..end]))
            && (chunk == [] ==> src.rows[..off] == src.rows)
            && (|chunk| < CHUNK ==> src.rows[..end] == src.rows && |src.rows| < Cap(max))
            && (|chunk| < CHUNK ==> forall o: nat | Asked(src, max, o) :: o <= off)
    ensures WholeChunks(off + CHUNK) && forall o: nat | Asked(src, max, o) && o < off + CHUNK :: o <= off
  {
    var chunk := Slice(src.rows, CHUNK, off);
    SameChunk(off);
    ChunkBelowCap(max, off);
    forall o: nat | Asked(src, max, o) && o < off + CHUNK
      ensures o <= off
    {
      NextChunk(off, o);
    }
    if chunk != [] {
      assert chunk[0] == src.rows[off];
      LastChunk(off + |chunk|, off);
    }
  }

  lemma SameChunk(off: nat)
    requires WholeChunks(off)
    ensures WholeChunks(off + CHUNK)
  {}

  lemma NextChunk(off: nat, o: nat)
    requires WholeChunks(off) && WholeChunks(o) && o < off + CHUNK
    ensures o <= off
  {}

  lemma ChunkBelowCap(max: nat, off: nat)
    requires WholeChunks(off) && off < max
    ensures off + CHUNK <= Cap(max)
  {}

  lemma LastChunk(n: nat, off: nat)
    requires WholeChunks(off) && off < n <= off + CHUNK
    ensures (n - 1) / CHUNK * CHUNK == off
  {}

  // ---- the filter -----------------------------------------------------------------------------------------

  /** Some visible cell shows the text that is searched for; a missing cell shows <nil>. */
  predicate Matches(row: Row, columns: set<string>, q: string, lower: char -> char) {
    exists c | c in columns :: HasText(ToLower(Cell(row, c).text, lower), q)
  }

  ghost function Matching(rows: seq<Row>, columns: set<string>, q: string, lower: char -> char): seq<Row> {
    if rows == [] then []
    else Matching(rows[..|rows| - 1], columns, q, lower)
         + if Matches(rows[|rows| - 1], columns, q, lower) then [rows[|rows| - 1]] else []
  }

  method Filter(rows: seq<Row>, cols: seq<string>, q: string, ghost columns: set<string>, lower: char -> char)
    returns (filtered: seq<Row>)
    requires Lists(cols, columns)
    ensures filtered == Matching(rows, columns, q, lower)
  {
    filtered := [];
    var i := 0;
    while i < |rows|
      invariant 0 <= i <= |rows|
      invariant filtered == Matching(rows[..i], columns, q, lower)
    {
      var match_ := MatchRow(rows[i], cols, q, columns, lower);
      if match_ {
        filtered := filtered + [rows[i]];
      }
      assert rows[..i + 1][..i] == rows[..i];
      i := i + 1;
    }
    assert rows[..i] == rows;
  }

  method MatchRow(row: Row, cols: seq<string>, q: string, ghost columns: set<string>, lower: char -> char)
    returns (match_: bool)
    requires Lists(cols, columns)
    ensures match_ == Matches(row, columns, q, lower)
  {
    var k := 0;
    while k < |cols|
      invariant 0 <= k <= |cols|
      invariant forall j | 0 <= j < k :: !HasText(ToLower(Cell(row, cols[j]).text, lower), q)
    {
      if HasText(ToLower(Cell(row, cols[k]).text, lower), q) {
        assert cols[k] in cols;
        return true;
      }
      k := k + 1;
    }
    match_ := false;
  }

  // ---- the whole view -------------------------------------------------------------------------------------

  datatype Query = Query(search: string, sortCol: string, dir: string, lower: char -> char)

  /** The rows that a search or sort is about, in the order they are shown. */
  ghost function Found(rows: seq<Row>, q: Query): seq<Row> {
    if q.search == "" then Redacted(rows, q.lower)
    else Matching(Redacted(rows, q.lower), Columns(rows, q.lower), ToLower(TrimSpace(q.search), q.lower), q.lower)
  }

  ghost function Shown(rows: seq<Row>, q: Query): seq<Row> {
    var found := Found(rows, q);
    if q.sortCol != "" && q.sortCol in Columns(rows, q.lower)
    then StableSorted(OrderFor(found, q.sortCol, ToLower(q.dir, q.lower), q.lower), found)
    else found
  }

  method SortedCopy(rows: seq<Row>, sortCol: string, dir: string, lower: char -> char) returns (sorted: seq<Row>)
    ensures sorted == StableSorted(OrderFor(rows, sortCol, dir, lower), rows)
  {
    var data := new Row[|rows|](i requires 0 <= i < |rows| => rows[i]);
    assert data[..] == rows;
    SortInPlace(data, sortCol, dir, lower);
    sorted := data[..];
  }

  /** ProjectTables between reading and paging. */
  method Show(rows: seq<Row>, cols: seq<string>, q: Query) returns (data: seq<Row>)
    requires Lists(cols, Columns(rows, q.lower))
    ensures data == Shown(rows, q)
  {
    hide StableSorted, OrderFor, Matching, TrimSpace, ToLower, IsSensitiveKey, Columns, RedactRow, Redacted;
    data := Redacted(rows, q.lower);
    if q.search != "" {
      data := Filter(data, cols, ToLower(TrimSpace(q.search), q.lower), Columns(rows, q.lower), q.lower);
    }
    if q.sortCol != "" && q.sortCol in cols {
      data := SortedCopy(data, q.sortCol, ToLower(q.dir, q.lower), q.lower);
    }
  }

  // ---- pages ----------------------------------------------------------------------------------------------

  const MAX_PAGE: nat := 1_000_000

  /** Page p of pages of ps rows, counted from 1. */
  function PageRows(rows: seq<Row>, p: nat, ps: nat): seq<Row>
    requires p >= 1
  {
    PageStart(p, ps);
    var start := Min((p - 1) * ps, |rows|);
    rows[start..Min(start + ps, |rows|)]
  }

  lemma PageStart(p: nat, ps: nat)
    requires p >= 1
    ensures (p - 1) * ps >= 0
  {}

  lemma SlicesArePages(rows: seq<Row>, p: nat, ps: nat, lower: char -> char)
    requires p >= 1 && ps >= 1
    ensures (p - 1) * ps >= 0 && Slice(rows, ps, (p - 1) * ps) == PageRows(rows, p, ps)
    ensures Redacted(PageRows(rows, p, ps), lower) == PageRows(Redacted(rows, lower), p, ps)
  {
    hide RedactRow;
    PageStart(p, ps);
  }

  lemma {:induction false} TimesAtLeast(a: nat, b: nat)
    requires b >= 1
    ensures a * b >= a
  {
    if b > 1 {
      TimesAtLeast(a, b - 1);
      assert a * b == a * (b - 1) + a;
    }
  }

  lemma PastTheEnd(rows: seq<Row>, p: nat, ps: nat)
    requires p >= 1 && ps >= 1 && p - 1 >= |rows|
    ensures PageRows(rows, p, ps) == []
  {
    TimesAtLeast(p - 1, ps);
  }

  /** The limit on page numbers never shows in a sweep. */
  lemma PageLimitUnseen(rows: seq<Row>, p: nat, ps: nat)
    requires p >= 1 && ps >= 1 && |rows| < MAX_PAGE
    ensures PageRows(rows, Min(p, MAX_PAGE), ps) == PageRows(rows, p, ps)
  {
    hide PageRows;
    if p > MAX_PAGE {
      PastTheEnd(rows, p, ps);
      PastTheEnd(rows, MAX_PAGE, ps);
    }
  }

  lemma {:induction false} MatchingIsShorter(rows: seq<Row>, columns: set<string>, q: string, lower: char -> char)
    ensures |Matching(rows, columns, q, lower)| <= |rows|
  {
    if rows != [] {
      MatchingIsShorter(rows[..|rows| - 1], columns, q, lower);
    }
  }

  lemma ShownIsShorter(rows: seq<Row>, q: Query)
    ensures |Shown(rows, q)| <= |rows|
  {
    hide StableSorted, OrderFor, Matching, TrimSpace, ToLower, IsSensitiveKey, Columns, RedactRow;
    var found := Found(rows, q);
    MatchingIsShorter(Redacted(rows, q.lower), Columns(rows, q.lower), ToLower(TrimSpace(q.search), q.lower), q.lower);
    var o := OrderFor(found, q.sortCol, ToLower(q.dir, q.lower), q.lower);
    SortIsStable(o, found);
    assert |multiset(StableSorted(o, found))| == |multiset(found)|;
  }

  /** Pages 1 to n, one after the other. */
  function Pages(rows: seq<Row>, n: nat, ps: nat): seq<Row> {
    if n == 0 then [] else Pages(rows, n - 1, ps) + PageRows(rows, n, ps)
  }

  lemma {:induction false} PagesAreAPrefix(rows: seq<Row>, n: nat, ps: nat)
    ensures n * ps >= 0 && Pages(rows, n, ps) == rows[..Min(n * ps, |rows|)]
  {
    if n > 0 {
      PagesAreAPrefix(rows, n - 1, ps);
      PageStart(n, ps);
      assert n * ps == (n - 1) * ps + ps;
    }
  }

  /** The pages of a searched or sorted table, put together until they reach the total, are all the rows that
      match, each as often as the table holds it, rows that compare equal in the table's order, and sorted
      unless a number column holds a NaN. */
  lemma PagesPartition(rows: seq<Row>, q: Query, n: nat, ps: nat)
    requires n * ps >= |Shown(rows, q)|
    ensures Pages(Shown(rows, q), n, ps) == Shown(rows, q)
    ensures multiset(Shown(rows, q)) == multiset(Found(rows, q))
    ensures q.sortCol != "" && q.sortCol in Columns(rows, q.lower) ==>
              var o := OrderFor(Found(rows, q), q.sortCol, ToLower(q.dir, q.lower), q.lower);
              && (forall k :: Having(o, Shown(rows, q), k) == Having(o, Found(rows, q), k))
              && (Orderly(o, Found(rows, q)) ==> IsStableSort(o, Found(rows, q), Shown(rows, q)))
    ensures q.sortCol == "" || q.sortCol !in Columns(rows, q.lower) ==> Shown(rows, q) == Found(rows, q)
  {
    hide Found, StableSorted, OrderFor, IsStableSort, ToLower, Columns;
    PagesAreAPrefix(Shown(rows, q), n, ps);
    SortIsStable(OrderFor(Found(rows, q), q.sortCol, ToLower(q.dir, q.lower), q.lower), Found(rows, q));
  }

  /** The rows shown are sorted by the column that was asked for: numbers rise or fall where all cells are numbers,
      texts do where some cell is none. */
  lemma ShownSorted(rows: seq<Row>, q: Query)
    requires q.sortCol != "" && q.sortCol in Columns(rows, q.lower)
    ensures ColumnSorted(Found(rows, q), Shown(rows, q), q.sortCol, ToLower(q.dir, q.lower), q.lower)
  {
    hide Found, StableSorted, OrderFor, ToLower, Columns, ColumnSorted;
    SortsTheColumn(Found(rows, q), q.sortCol, ToLower(q.dir, q.lower), q.lower);
  }

  // ---- the handler ----------------------------------------------------------------------------------------

  datatype View = View(rows: seq<Row>, cols: seq<string>, pk: string, total: nat)

  predicate Sweeps(q: Query) { q.search != "" || q.sortCol != "" }

  /** With a search or a sort: the total counts all the rows shown, and the page is cut from them. */
  ghost predicate SweptView(src: Source, page: int, pageSize: int, q: Query, view: View) {
    var shown := Shown(src.rows, q);
    && view.total == |shown|
    && view.rows == (if page > 0 && pageSize > 0 then PageRows(shown, page, Min(pageSize, 500)) else shown)
    && view.pk == SweepPk(src.rows) && Lists(view.cols, Columns(src.rows, q.lower))
  }

  /** Plain browsing: the source cuts the page. */
  ghost predicate PlainView(src: Source, page: int, pageSize: int, count: Option<nat>, view: View,
                            lower: char -> char) {
    && view.total == (match count case Some(n) => n case None => |view.rows|)
    && view.rows == (if page > 0 && pageSize > 0
                     then PageRows(Redacted(src.rows, lower), Min(page, MAX_PAGE), Min(pageSize, 500))
                     else Redacted(src.rows, lower))
    && view.pk == PkOf(if page > 0 && pageSize > 0
                       then PageRows(src.rows, Min(page, MAX_PAGE), Min(pageSize, 500))
                       else src.rows)
    && Lists(view.cols, Columns(src.rows, lower))
  }

  ghost function PlainOffset(page: int, pageSize: int): int {
    if page > 0 && pageSize > 0 then (Min(page, MAX_PAGE) - 1) * Min(pageSize, 500) else 0
  }

  ghost predicate Answered(src: Source, page: int, pageSize: int, q: Query, count: Option<nat>, view: View) {
    if Sweeps(q) then SweptView(src, page, pageSize, q, view) else PlainView(src, page, pageSize, count, view, q.lower)
  }

  /** Without a page the answer is not cut at 500 rows: it has no more than 500 exactly when there are no more
      to show. */
  lemma NoPageIsUncapped(src: Source, page: int, pageSize: int, q: Query, count: Option<nat>, view: View)
    requires page <= 0 || pageSize <= 0
    requires Answered(src, page, pageSize, q, count, view)
    ensures |view.rows| <= 500 <==> |if Sweeps(q) then Shown(src.rows, q) else src.rows| <= 500
  {
    hide Shown;
  }

  /** A table of 501 empty rows is answered with all of them. */
  lemma UncappedAnswer(lower: char -> char) returns (src: Source, view: View)
    ensures Answered(src, 0, 0, Query("", "", "", lower), None, view) && |view.rows| == 501
  {
    src := Source(seq(501, _ => map[]), {});
    view := View(Redacted(src.rows, lower), [], PkOf(src.rows), 501);
  }

  /** Re-paginating the rows in memory. */
  method CutPage(data: seq<Row>, p: nat, ps: nat) returns (rows: seq<Row>)
    requires p >= 1
    ensures rows == PageRows(data, p, ps)
  {
    PageStart(p, ps);
    var start := (p - 1) * ps;
    if start > |data| {
      start := |data|;
    }
    var end := start + ps;
    if end > |data| {
      end := |data|;
    }
    rows := data[start..end];
  }

  /** ProjectTables, from the parsed query to the answer; count is what CountItems gives, if anything. */
  method ProjectTables(src: Source, page: int, pageSize: int, q: Query, count: Option<nat>) returns (view: Option<View>)
    ensures Sweeps(q) ==> (view.None? <==> SweepFails(src, READ_ALL_MAX))
    ensures Sweeps(q) && view.Some? ==> SweptView(src, page, pageSize, q, view.value)
    ensures !Sweeps(q) ==> (view.None? <==> PlainOffset(page, pageSize) in src.broken)
    ensures !Sweeps(q) && view.Some? ==> PlainView(src, page, pageSize, count, view.value, q.lower)
  {
    hide Shown, Redacted, IsSensitiveKey, Columns, SweepPk, Lists, Slice, PageRows;
    var p, ps := page, pageSize;
    var limit: nat, offset: nat := 0, 0;
    if p > 0 && ps > 0 {
      if ps > 500 {
        ps := 500;
      }
      if p > MAX_PAGE {
        p := MAX_PAGE;
      }
      PageStart(p, ps);
      limit, offset := ps, (p - 1) * ps;
    }
    var got: Option<Page>;
    if q.search != "" || q.sortCol != "" {
      got := ReadAllItems(src, READ_ALL_MAX, q.lower);
    } else {
      got := ReadItems(src, limit, offset, q.lower);
    }
    if got.None? {
      return None;
    }
    var cols := RedactedCols(got.value.cols, q.lower);
    if q.search == "" && q.sortCol == "" {
      var data := Redacted(got.value.rows, q.lower);
      if page > 0 && pageSize > 0 {
        SlicesArePages(src.rows, p, ps, q.lower);
      } else {
        WholeSlice(src.rows, offset);
      }
      return Some(View(data, cols, got.value.pk, match count case Some(n) => n case None => |data|));
    }
    var data := Show(got.value.rows, cols, q);
    var total := |data|;
    if p > 0 && ps > 0 {
      ShownIsShorter(src.rows, q);
      PageLimitUnseen(data, page, ps);
      data := CutPage(data, p, ps);
    }
    view := Some(View(data, cols, got.value.pk, total));
  }

  lemma WholeSlice(rows: seq<Row>, offset: nat)
    ensures Slice(rows, 0, offset) == rows
  {}

  // ---- what the answer holds ------------------------------------------------------------------------------

  /** A column is hidden exactly when its lower-cased name contains one of these ten words. */
  lemma SensitiveExactly(c: string, lower: char -> char)
    ensures IsSensitiveKey(c, lower)
            <==> exists a, w, b :: w in {"password", "passwd", "pwd", "token", "secret", "api_key", "apikey",
                                         "access_key", "private_key", "credential"}
                                   && Around(a, w, b, ToLower(c, lower))
  {
    var words := {"password", "passwd", "pwd", "token", "secret", "api_key", "apikey", "access_key", "private_key",
                  "credential"};
    SensitiveWords(words);
    var name := ToLower(c, lower);
    if IsSensitiveKey(c, lower) {
      var i :| 0 <= i < |SENSITIVE| && HasText(name, SENSITIVE[i]);
      HasTextMeans(name, SENSITIVE[i]);
      assert SENSITIVE[i] in words;
    }
    if a, w, b :| w in words && Around(a, w, b, name) {
      HasTextMeans(name, w);
      var i :| 0 <= i < |SENSITIVE| && SENSITIVE[i] == w;
      assert HasText(name, SENSITIVE[i]);
    }
  }

  lemma SensitiveWords(words: set<string>)
    requires words == {"password", "passwd", "pwd", "token", "secret", "api_key", "apikey", "access_key",
                       "private_key", "credential"}
    ensures forall w :: w in words <==> w in SENSITIVE
  {}

  /** A sweep fails exactly when there are a million rows or more, or one of the reads at every 500th row up to the
      end fails. */
  lemma SweepFailsExactly(src: Source)
    ensures SweepFails(src, READ_ALL_MAX)
            <==> |src.rows| >= 1_000_000
                 || exists offset :: offset in src.broken && offset % 500 == 0 && offset < 1_000_000
                                     && offset <= |src.rows|
  {
    assert Cap(READ_ALL_MAX) == 1_000_000;
    if exists offset :: offset in src.broken && offset % 500 == 0 && offset < 1_000_000 && offset <= |src.rows| {
      var offset :| offset in src.broken && offset % 500 == 0 && offset < 1_000_000 && offset <= |src.rows|;
      assert Asked(src, READ_ALL_MAX, offset);
    }
  }

  lemma {:induction false} MatchingMembers(rows: seq<Row>, columns: set<string>, q: string, lower: char -> char,
      row: Row)
    ensures row in Matching(rows, columns, q, lower) <==> row in rows && Matches(row, columns, q, lower)
  {
    hide Matches;
    if rows != [] {
      MatchingMembers(rows[..|rows| - 1], columns, q, lower, row);
      assert rows == rows[..|rows| - 1] + [rows[|rows| - 1]];
    }
  }

  /** The text stands, in lower case, between any two others in a cell of one of the columns. */
  ghost predicate ShowsText(row: Row, columns: set<string>, text: string, lower: char -> char) {
    exists c, a, b :: c in columns && Around(a, text, b, ToLower(Cell(row, c).text, lower))
  }

  lemma MatchesExactly(row: Row, columns: set<string>, text: string, lower: char -> char)
    ensures Matches(row, columns, text, lower) <==> ShowsText(row, columns, text, lower)
  {
    hide HasText, ToLower;
    if Matches(row, columns, text, lower) {
      var c :| c in columns && HasText(ToLower(Cell(row, c).text, lower), text);
      HasTextMeans(ToLower(Cell(row, c).text, lower), text);
    }
    if c, a, b :| c in columns && Around(a, text, b, ToLower(Cell(row, c).text, lower)) {
      HasTextMeans(ToLower(Cell(row, c).text, lower), text);
    }
  }

  /** A row is shown exactly when it is in the table and, in a search, some visible cell of it contains the text that
      is searched for: both in lower case, the text without the white space around it. */
  lemma ShownExactly(rows: seq<Row>, q: Query, row: Row)
    ensures row in Shown(rows, q)
            <==> row in Redacted(rows, q.lower)
                 && (q.search != "" ==>
                       ShowsText(row, Columns(rows, q.lower), ToLower(TrimSpace(q.search), q.lower), q.lower))
  {
    hide StableSorted, OrderFor, Matching, Matches, TrimSpace, ToLower, Columns, Redacted, ShowsText;
    var found := Found(rows, q);
    var o := OrderFor(found, q.sortCol, ToLower(q.dir, q.lower), q.lower);
    SortIsStable(o, found);
    assert row in Shown(rows, q) <==> row in multiset(Shown(rows, q));
    assert row in found <==> row in multiset(found);
    if q.search != "" {
      var text := ToLower(TrimSpace(q.search), q.lower);
      MatchingMembers(Redacted(rows, q.lower), Columns(rows, q.lower), text, q.lower, row);
      MatchesExactly(row, Columns(rows, q.lower), text, q.lower);
    }
  }

  /** The table whose pages are shown. */
  ghost function Whole(src: Source, q: Query): seq<Row> {
    if q.search != "" || q.sortCol != "" then Shown(src.rows, q) else Redacted(src.rows, q.lower)
  }

  /** The total is the number of rows to show of a search or sort, and else what the source counts, or the rows of
      the answer if it does not count. */
  lemma TotalOfView(src: Source, page: int, pageSize: int, q: Query, count: Option<nat>, view: View)
    requires Answered(src, page, pageSize, q, count, view)
    ensures view.total == if q.search != "" || q.sortCol != "" then |Whole(src, q)|
                          else match count case Some(n) => n case None => |view.rows|
    ensures page <= 0 || pageSize <= 0 ==> view.rows == Whole(src, q)
  {
    hide Shown, Redacted;
  }

  lemma RowOfPage(rows: seq<Row>, p: nat, ps: nat, k: nat)
    requires p >= 1
    ensures |PageRows(rows, p, ps)| <= ps
    ensures |PageRows(rows, p, ps)| < ps ==> (p - 1) * ps + |PageRows(rows, p, ps)| >= |rows|
    ensures k < |PageRows(rows, p, ps)| ==>
              0 <= (p - 1) * ps + k < |rows| && PageRows(rows, p, ps)[k] == rows[(p - 1) * ps + k]
  {
    PageStart(p, ps);
  }

  /** Row k of a page is row k of the table past the pages before it: pages have at most 500 rows and only the last
      one has fewer than were asked for; plain browsing knows a million pages. */
  lemma RowOfView(src: Source, page: int, pageSize: int, q: Query, count: Option<nat>, view: View, k: nat)
    requires Answered(src, page, pageSize, q, count, view) && page > 0 && pageSize > 0
    ensures var ps := if pageSize > 500 then 500 else pageSize;
            var p := if q.search == "" && q.sortCol == "" && page > 1_000_000 then 1_000_000 else page;
            && |view.rows| <= ps && (|view.rows| < ps ==> (p - 1) * ps + |view.rows| >= |Whole(src, q)|)
            && (k < |view.rows| ==> 0 <= (p - 1) * ps + k < |Whole(src, q)|
                                    && view.rows[k] == Whole(src, q)[(p - 1) * ps + k])
  {
    hide Shown, Redacted, PageRows;
    var ps := if pageSize > 500 then 500 else pageSize;
    var p := if !Sweeps(q) && page > 1_000_000 then 1_000_000 else page;
    RowOfPage(Whole(src, q), p, ps, k);
  }

  /** No answer shows a cell of a hidden column, and cells of other columns are shown as the source has them. */
  lemma NothingHiddenShown(src: Source, page: int, pageSize: int, q: Query, count: Option<nat>, view: View, k: nat)
      returns (i: nat)
    requires Answered(src, page, pageSize, q, count, view) && k < |view.rows|
    ensures i < |src.rows|
    ensures forall c :: c in view.rows[k] <==> c in src.rows[i] && !IsSensitiveKey(c, q.lower)
    ensures forall c | c in view.rows[k] :: view.rows[k][c] == src.rows[i][c]
    ensures forall c | c in view.cols :: !IsSensitiveKey(c, q.lower)
  {
    hide Shown, PageRows, IsSensitiveKey;
    var row := view.rows[k];
    if page > 0 && pageSize > 0 {
      RowOfView(src, page, pageSize, q, count, view, k);
    }
    assert row in Whole(src, q);
    if Sweeps(q) {
      ShownExactly(src.rows, q, row);
    }
    assert row in Redacted(src.rows, q.lower);
    i :| 0 <= i < |src.rows| && Redacted(src.rows, q.lower)[i] == row;
  }

  /** A sweep claims the key exactly where the first row of its last chunk carries it. */
  lemma KeyOfSweep(src: Source, page: int, pageSize: int, q: Query, count: Option<nat>, view: View)
    requires Answered(src, page, pageSize, q, count, view) && (q.search != "" || q.sortCol != "")
    ensures view.pk == if src.rows != [] && "id" in src.rows[(|src.rows| - 1) / 500 * 500] then "id" else ""
  {
    hide Shown, Columns, PageRows;
  }

  /** The place of the first row of a plain answer. */
  function FirstRow(page: int, pageSize: int): int {
    if page <= 0 || pageSize <= 0 then 0
    else ((if page > 1_000_000 then 1_000_000 else page) - 1) * if pageSize > 500 then 500 else pageSize
  }

  /** Plain browsing claims the key exactly where the first row of the answer carries it, and fails exactly when the
      read at that row does. */
  lemma KeyOfPage(src: Source, page: int, pageSize: int, q: Query, count: Option<nat>, view: View)
    requires Answered(src, page, pageSize, q, count, view) && q.search == "" && q.sortCol == ""
    ensures PlainOffset(page, pageSize) == FirstRow(page, pageSize) >= 0
    ensures var first := FirstRow(page, pageSize);
            view.pk == if first < |src.rows| && "id" in src.rows[first] then "id" else ""
  {
    hide Redacted, Columns;
    if page > 0 && pageSize > 0 {
      var p, ps := Min(page, MAX_PAGE), Min(pageSize, 500);
      PageStart(p, ps);
      KeyOfRows(src.rows, p, ps);
    }
  }

  lemma KeyOfRows(rows: seq<Row>, p: nat, ps: nat)
    requires p >= 1 && ps >= 1 && (p - 1) * ps >= 0
    ensures PkOf(PageRows(rows, p, ps)) == if (p - 1) * ps < |rows| && "id" in rows[(p - 1) * ps] then "id" else ""
  {
    var first := (p - 1) * ps;
    if first < |rows| {
      assert PageRows(rows, p, ps)[0] == rows[first];
    }
  }

  /** A row without the column shows <nil> there, so a search for nil finds it. */
  lemma MissingCellIsNil(row: Row, columns: set<string>, c: string, lower: char -> char)
    requires c in columns && c !in row
    ensures ShowsText(row, columns, ToLower("nil", lower), lower)
  {
    var shown := ToLower(Cell(row, c).text, lower);
    assert shown == shown[..1] + ToLower("nil", lower) + shown[4..];
    assert Around(shown[..1], ToLower("nil", lower), shown[4..], shown);
  }
}
