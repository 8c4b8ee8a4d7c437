/**
 * RecetaModel: the two read queries over the `recetas` table.
 *
 * The table is a sequence of rows. `getRecetasPaginadas` is
 *   SELECT id, titulo, descripcion, ingredientes_data, sostenibilidad_score
 *   FROM recetas WHERE is_active = 1 ORDER BY id DESC LIMIT :limit OFFSET :offset
 * and is modelled as filter, sort, window and projection; `getTotalRecetas`
 * is `SELECT COUNT(id) ... WHERE is_active = 1` read through
 * `Database::fetchColumn`, which yields 0 when there is no row or the query fails.
 */
module RecetaModel {
  import opened Wrappers

  /** A row of the `recetas` table. */
  datatype Row = Row(
    id: int,
    titulo: string,
    descripcion: string,
    ingredientesData: string,
    sostenibilidadScore: int,
    isActive: int)

  /** The columns the listing query selects: every column but `is_active`. */
  datatype Receta = Receta(
    id: int,
    titulo: string,
    descripcion: string,
    ingredientesData: string,
    sostenibilidadScore: int)

  function Project(r: Row): Receta
  {
    Receta(r.id, r.titulo, r.descripcion, r.ingredientesData, r.sostenibilidadScore)
  }

  /** `WHERE is_active = 1` */
  predicate IsActive(r: Row)
  {
    r.isActive == 1
  }

  /** `id` is the table's primary key: no two rows share it. */
  ghost predicate KeyedById(s: seq<Row>)
  {
    forall i, j :: 0 <= i < j < |s| ==> s[i].id != s[j].id
  }

  /** `ORDER BY id DESC` when ids may repeat. */
  ghost predicate IdNonIncreasing(s: seq<Row>)
  {
    forall i, j :: 0 <= i < j < |s| ==> s[i].id >= s[j].id
  }

  /** `ORDER BY id DESC` on distinct ids. */
  ghost predicate IdDescending(s: seq<Row>)
  {
    forall i, j :: 0 <= i < j < |s| ==> s[i].id > s[j].id
  }

  /** The active rows, in table order, each as often as it occurs in the table. */
  function ActiveRows(table: seq<Row>): (r: seq<Row>)
    ensures |r| <= |table|
    ensures forall x :: multiset(r)[x] == if IsActive(x) then multiset(table)[x] else 0
  {
    if table == [] then []
    else
      assert table == [table[0]] + table[1..];
      if IsActive(table[0]) then [table[0]] + ActiveRows(table[1..]) else ActiveRows(table[1..])
  }

  /** Inserts `x` into a list ordered by decreasing id, after the rows whose id is not smaller. */
  function InsertById(x: Row, s: seq<Row>): (r: seq<Row>)
    requires IdNonIncreasing(s)
    ensures IdNonIncreasing(r)
    ensures multiset(r) == multiset(s) + multiset{x}
    ensures r[0] == x || (s != [] && r[0] == s[0])
  {
    if s == [] || x.id >= s[0].id then ConsNonIncreasing(x, s); [x] + s
    else
      assert s == [s[0]] + s[1..];
      var r := InsertById(x, s[1..]);
      ConsNonIncreasing(s[0], r);
      [s[0]] + r
  }

  /** A row with an id no smaller than the head can go in front. */
  lemma ConsNonIncreasing(h: Row, s: seq<Row>)
    requires IdNonIncreasing(s)
    requires s != [] ==> h.id >= s[0].id
    ensures IdNonIncreasing([h] + s)
  {
    var r := [h] + s;
    forall i, j | 0 <= i < j < |r| ensures r[i].id >= r[j].id {
      assert r[j] == s[j - 1];
      if i > 0 { assert r[i] == s[i - 1]; }
    }
  }

  /** The order `ORDER BY id DESC` produces. */
  function SortByIdDesc(s: seq<Row>): (r: seq<Row>)
    ensures IdNonIncreasing(r)
    ensures multiset(r) == multiset(s)
  {
    if s == [] then []
    else
      assert s == [s[0]] + s[1..];
      InsertById(s[0], SortByIdDesc(s[1..]))
  }

  /** Inserting a row whose id is new keeps the order strict. */
  lemma {:induction false} InsertByIdStrict(x: Row, s: seq<Row>)
    requires IdDescending(s)
    requires forall k :: 0 <= k < |s| ==> s[k].id != x.id
    ensures IdDescending(InsertById(x, s))
    decreases |s|
  {
    if s != [] && x.id < s[0].id {
      InsertByIdStrict(x, s[1..]);
    }
  }

  /** On a keyed table the sort is strictly descending. */
  lemma {:induction false} SortByIdDescStrict(s: seq<Row>)
    requires KeyedById(s)
    ensures IdDescending(SortByIdDesc(s))
    decreases |s|
  {
    if s != [] {
      var rest := SortByIdDesc(s[1..]);
      SortByIdDescStrict(s[1..]);
      forall k | 0 <= k < |rest|
        ensures rest[k].id != s[0].id
      {
        assert rest[k] in multiset(s[1..]);
        var j :| 0 <= j < |s[1..]| && s[1..][j] == rest[k];
        assert s[j + 1] == rest[k];
      }
      InsertByIdStrict(s[0], rest);
    }
  }

  /**
   * On distinct ids `ORDER BY id DESC` leaves no choice: two descending
   * orderings of the same rows are the same sequence, so the model's sort is
   * the database's.
   */
  lemma {:induction false} DescendingOrderUnique(a: seq<Row>, b: seq<Row>)
    requires IdDescending(a) && IdDescending(b)
    requires multiset(a) == multiset(b)
    ensures a == b
    decreases |a|
  {
    if a == [] {
      assert |b| == |multiset(b)| == 0;
    } else {
      DescendingHeadsEqual(a, b);
      DescendingTail(a);
      DescendingTail(b);
      DescendingOrderUnique(a[1..], b[1..]);
      assert a == [a[0]] + a[1..] && b == [b[0]] + b[1..];
    }
  }

  /** The tail of a descending sequence is descending and holds the other rows. */
  lemma DescendingTail(a: seq<Row>)
    requires IdDescending(a) && a != []
    ensures IdDescending(a[1..])
    ensures multiset(a[1..]) == multiset(a) - multiset{a[0]}
  {
    var t := a[1..];
    forall i, j | 0 <= i < j < |t| ensures t[i].id > t[j].id {
      assert t[i] == a[i + 1] && t[j] == a[j + 1];
    }
    assert a == [a[0]] + t;
  }

  /** The head of a descending sequence is the row with the largest id, so two descending permutations share it. */
  lemma DescendingHeadsEqual(a: seq<Row>, b: seq<Row>)
    requires IdDescending(a) && IdDescending(b)
    requires multiset(a) == multiset(b) && a != []
    ensures b != [] && a[0] == b[0]
  {
    assert a[0] in multiset(b);
    assert b[0] in multiset(a);
    var k :| 0 <= k < |b| && b[k] == a[0];
    var m :| 0 <= m < |a| && a[m] == b[0];
  }

  /** The active rows in the order the listing query returns them, before LIMIT/OFFSET. */
  function Ordered(table: seq<Row>): (r: seq<Row>)
    ensures IdNonIncreasing(r)
    ensures multiset(r) == multiset(ActiveRows(table))
  {
    SortByIdDesc(ActiveRows(table))
  }

  function Min(a: int, b: int): int
  {
    if a <= b then a else b
  }

  /** `LIMIT limit OFFSET off` applied to a result sequence. */
  function Window(s: seq<Row>, off: nat, limit: nat): (r: seq<Row>)
    ensures |r| == if off >= |s| then 0 else Min(limit, |s| - off)
    ensures forall i :: 0 <= i < |r| ==> off + i < |s| && r[i] == s[off + i]
  {
    if off >= |s| then [] else s[off..Min(off + limit, |s|)]
  }

  /** The offset `getRecetasPaginadas` binds: `(max(1, page) - 1) * limit`. */
  function Offset(page: int, limit: nat): (off: nat)
    ensures page <= 1 ==> off == 0
    ensures page >= 1 ==> off + limit == page * limit
  {
    var p := if page < 1 then 1 else page;
    (p - 1) * limit
  }

  /** Consecutive pages start `limit` rows apart. */
  lemma OffsetStep(page: int, limit: nat)
    requires page >= 1
    ensures Offset(page + 1, limit) == Offset(page, limit) + limit
  {
  }

  /** The rows `getRecetasPaginadas(page, limit)` returns, before projection. */
  function PageRows(table: seq<Row>, page: int, limit: nat): (r: seq<Row>)
    ensures |r| <= limit
    ensures |r| == if Offset(page, limit) >= |Ordered(table)| then 0
                   else Min(limit, |Ordered(table)| - Offset(page, limit))
    ensures forall i :: 0 <= i < |r| ==>
              Offset(page, limit) + i < |Ordered(table)| && r[i] == Ordered(table)[Offset(page, limit) + i]
  {
    Window(Ordered(table), Offset(page, limit), limit)
  }

  /**
   * `RecetaModel::getRecetasPaginadas`: one page of active recipes, newest id
   * first. What the listing promises is proved in `PageContents` (size, origin
   * and order of a page) and `WindowsUpToIsPrefix` (pages in order list the
   * ordered rows without gap or repeat).
   */
  function GetRecetasPaginadas(table: seq<Row>, page: int, limit: nat): (r: seq<Receta>)
    ensures |r| == |PageRows(table, page, limit)|
    ensures forall i :: 0 <= i < |r| ==> r[i] == Project(PageRows(table, page, limit)[i])
  {
    var rows := PageRows(table, page, limit);
    seq(|rows|, i requires 0 <= i < |rows| => Project(rows[i]))
  }

  /**
   * A page holds `min(limit, n - offset)` recipes for the n active rows the
   * count query counts (none past the end), each the projection of an active
   * row of the table, and on a keyed table their ids strictly decrease.
   */
  lemma PageContents(table: seq<Row>, page: int, limit: nat)
    ensures |GetRecetasPaginadas(table, page, limit)|
            == if Offset(page, limit) >= |ActiveRows(table)| then 0
               else Min(limit, |ActiveRows(table)| - Offset(page, limit))
    ensures forall i :: 0 <= i < |PageRows(table, page, limit)| ==>
              PageRows(table, page, limit)[i] in table && IsActive(PageRows(table, page, limit)[i])
    ensures KeyedById(table) ==>
              forall i, j :: 0 <= i < j < |GetRecetasPaginadas(table, page, limit)| ==>
                GetRecetasPaginadas(table, page, limit)[i].id > GetRecetasPaginadas(table, page, limit)[j].id
  {
    PageLength(table, page, limit);
    PageRowsActive(table, page, limit);
    if KeyedById(table) {
      KeyedActiveRows(table);
      SortByIdDescStrict(ActiveRows(table));
    }
  }

  /** Helper: every row of a page is an active row of the table. */
  lemma PageRowsActive(table: seq<Row>, page: int, limit: nat)
    ensures forall i :: 0 <= i < |PageRows(table, page, limit)| ==>
              PageRows(table, page, limit)[i] in table && IsActive(PageRows(table, page, limit)[i])
  {
    var ordered := Ordered(table);
    var rows := PageRows(table, page, limit);
    var off := Offset(page, limit);
    forall i | 0 <= i < |rows|
      ensures rows[i] in table && IsActive(rows[i])
    {
      assert rows[i] == ordered[off + i];
      assert rows[i] in multiset(ActiveRows(table));
    }
  }

  /** Helper: the page size in terms of the number of active rows. */
  lemma PageLength(table: seq<Row>, page: int, limit: nat)
    ensures |GetRecetasPaginadas(table, page, limit)|
            == if Offset(page, limit) >= |ActiveRows(table)| then 0
               else Min(limit, |ActiveRows(table)| - Offset(page, limit))
  {
    OrderedLength(table);
    var n := |Ordered(table)|;
    var off := Offset(page, limit);
    assert |GetRecetasPaginadas(table, page, limit)| == |PageRows(table, page, limit)|;
    assert |PageRows(table, page, limit)| == if off >= n then 0 else Min(limit, n - off);
  }

  /** Helper: ordering the active rows keeps their number. */
  lemma OrderedLength(table: seq<Row>)
    ensures |Ordered(table)| == |ActiveRows(table)|
  {
    assert |Ordered(table)| == |multiset(Ordered(table))|;
  }

  /** Filtering keeps the primary key. */
  lemma {:induction false} KeyedActiveRows(table: seq<Row>)
    requires KeyedById(table)
    ensures KeyedById(ActiveRows(table))
    decreases |table|
  {
    if table != [] {
      KeyedActiveRows(table[1..]);
      var rest := ActiveRows(table[1..]);
      if IsActive(table[0]) {
        forall k | 0 <= k < |rest|
          ensures rest[k].id != table[0].id
        {
          assert rest[k] in multiset(table[1..]);
          var j :| 0 <= j < |table[1..]| && table[1..][j] == rest[k];
          assert table[j + 1] == rest[k];
        }
      }
    }
  }

  /** Windows 1..n of `s`, `limit` rows each, concatenated. */
  function WindowsUpTo(s: seq<Row>, n: nat, limit: nat): seq<Row>
  {
    if n == 0 then [] else WindowsUpTo(s, n - 1, limit) + Window(s, Offset(n, limit), limit)
  }

  /** The rows of pages 1..n of the listing, concatenated. */
  function PagesUpTo(table: seq<Row>, n: nat, limit: nat): seq<Row>
  {
    if n == 0 then [] else PagesUpTo(table, n - 1, limit) + PageRows(table, n, limit)
  }

  /** Pages 1..n of the listing are windows 1..n of the ordered rows. */
  lemma {:induction false} PagesUpToIsWindows(table: seq<Row>, n: nat, limit: nat)
    ensures PagesUpTo(table, n, limit) == WindowsUpTo(Ordered(table), n, limit)
  {
    if n > 0 {
      PagesUpToIsWindows(table, n - 1, limit);
      var page := PageRows(table, n, limit);
      var window := Window(Ordered(table), Offset(n, limit), limit);
      assert page == window;
      assert PagesUpTo(table, n, limit) == PagesUpTo(table, n - 1, limit) + page;
      assert WindowsUpTo(Ordered(table), n, limit) == WindowsUpTo(Ordered(table), n - 1, limit) + window;
    }
  }

  /** A window continues the prefix that ends where it starts. */
  lemma WindowExtendsPrefix(s: seq<Row>, off: nat, limit: nat)
    ensures s[..Min(off, |s|)] + Window(s, off, limit) == s[..Min(off + limit, |s|)]
  {
    if off < |s| {
      assert s[..Min(off + limit, |s|)] == s[..off] + s[off..Min(off + limit, |s|)];
    }
  }

  /** Windows 1..n together are exactly the first `n * limit` elements. */
  lemma {:induction false} WindowsUpToIsPrefix(s: seq<Row>, n: nat, limit: nat)
    ensures WindowsUpTo(s, n, limit) == s[..Min(n * limit, |s|)]
  {
    if n > 0 {
      var off := Offset(n, limit);
      assert off + limit == n * limit;
      WindowsUpToIsPrefix(s, n - 1, limit);
      assert off == (n - 1) * limit;
      WindowExtendsPrefix(s, off, limit);
    }
  }

  /** The outcome of `PDOStatement::fetchColumn` inside `Database::fetchColumn`. */
  datatype ColumnFetch = FirstColumn(value: int) | NoRow | QueryError

  /** `Database::fetchColumn`: the first column of the first row, or 0 when there is none or the query fails. */
  function FetchColumn(f: ColumnFetch): (v: int)
    ensures f.FirstColumn? ==> v == f.value
    ensures !f.FirstColumn? ==> v == 0
  {
    match f
    case FirstColumn(x) => x
    case NoRow => 0
    case QueryError => 0
  }

  /** `SELECT COUNT(id) FROM recetas WHERE is_active = 1`, or a failed query. */
  function CountQuery(table: seq<Row>, fails: bool): (f: ColumnFetch)
    ensures fails <==> f.QueryError?
    ensures !fails ==> f == FirstColumn(|Ordered(table)|)
  {
    assert |Ordered(table)| == |multiset(Ordered(table))| == |ActiveRows(table)|;
    if fails then QueryError else FirstColumn(|ActiveRows(table)|)
  }

  /** `RecetaModel::getTotalRecetas`. */
  function GetTotalRecetas(table: seq<Row>, fails: bool): (n: nat)
    ensures fails ==> n == 0
    ensures !fails ==> n == |Ordered(table)|
  {
    var v := FetchColumn(CountQuery(table, fails));
    assert v >= 0;
    assert |Ordered(table)| == |multiset(Ordered(table))| == |ActiveRows(table)|;
    v
  }

  /** A successful count is the number of active rows, the total the listing pages through. */
  lemma CountIsActiveRows(table: seq<Row>)
    ensures GetTotalRecetas(table, false) == |ActiveRows(table)|
    ensures forall x :: x in Ordered(table) <==> x in table && IsActive(x)
  {
    forall x
      ensures x in Ordered(table) <==> x in table && IsActive(x)
    {
      assert x in Ordered(table) <==> x in multiset(ActiveRows(table));
    }
  }

  /**
   * The `recetas` table as state: its rows and the AUTO_INCREMENT counter that
   * gives a new row its id.
   */
  class RecetasTable {
    var rows: seq<Row>
    var nextId: int

    ghost predicate Valid()
      reads this
    {
      KeyedById(rows) && forall i :: 0 <= i < |rows| ==> rows[i].id < nextId
    }

    constructor (initial: seq<Row>, next: int)
      requires KeyedById(initial)
      requires forall i :: 0 <= i < |initial| ==> initial[i].id < next
      ensures Valid() && rows == initial && nextId == next
    {
      rows := initial;
      nextId := next;
    }

    /**
     * `saveReceta(titulo, descripcion, ingredientes_data, score)`: inserts an
     * active row with the next id, or, when the insert raises (`failure`
     * carries the exception's message), leaves the table as it was.
     */
    method SaveReceta(titulo: string, descripcion: string, ingredientesData: string, score: int,
                      failure: Option<string>) returns (error: Option<string>)
      requires Valid()
      modifies this
      ensures Valid()
      ensures error == failure
      ensures failure.Some? ==> rows == old(rows) && nextId == old(nextId)
      ensures failure.None? ==>
                rows == old(rows) + [Row(old(nextId), titulo, descripcion, ingredientesData, score, 1)]
                && nextId == old(nextId) + 1
    {
      if failure.Some? {
        return failure;
      }
      rows := rows + [Row(nextId, titulo, descripcion, ingredientesData, score, 1)];
      nextId := nextId + 1;
      error := None;
    }
  }

  /** A recipe inserted with a fresh, larger id heads page 1 of the listing. */
  lemma NewestFirst(table: seq<Row>, row: Row, limit: nat)
    requires IsActive(row) && limit > 0
    requires forall i :: 0 <= i < |table| ==> table[i].id < row.id
    ensures PageRows(table + [row], 1, limit) != []
    ensures PageRows(table + [row], 1, limit)[0] == row
  {
    var t := table + [row];
    var ordered := Ordered(t);
    CountIsActiveRows(t);
    assert t[|table|] == row;
    assert row in ordered;
    HeadHasLargestId(ordered, row);
    assert ordered[0] in t;
    NewRowHasLargestId(table, row, ordered[0]);
    assert PageRows(t, 1, limit)[0] == ordered[0];
  }

  /** The head of a list ordered by decreasing id has the largest id. */
  lemma HeadHasLargestId(s: seq<Row>, x: Row)
    requires IdNonIncreasing(s) && x in s
    ensures s[0].id >= x.id
  {
    var k :| 0 <= k < |s| && s[k] == x;
  }

  /** A row of `table + [row]` is `row` or has a smaller id when `row`'s id is new and larger. */
  lemma NewRowHasLargestId(table: seq<Row>, row: Row, x: Row)
    requires forall i :: 0 <= i < |table| ==> table[i].id < row.id
    requires x in table + [row]
    ensures x == row || x.id < row.id
  {
    var k :| 0 <= k < |table + [row]| && (table + [row])[k] == x;
    if k < |table| {
      assert x == table[k];
    }
  }
}
