/**
 * The single-table CRUD and search engine.
 *
 * The database is an in-memory table: the rows in physical order, at most
 * one per Id. A caller's WHERE fragment is a Condition (its text and the
 * rows it selects, parameters already bound), an ORDER BY expression an
 * Ordering (its text and the sort key it denotes). Running a query filters
 * the rows, sorts them by the key, with rows of equal key in whatever order
 * the database picks for that query, and cuts out the requested page.
 */
module SingleTable {
  import opened Wrappers
  import opened Guids
  import opened Text
  import opened Items
  import Helper

  datatype Condition = Condition(text: string, holds: Record -> bool)

  datatype Ordering = Ordering(text: string, key: Record -> int)

  /** What a missing condition becomes: "1=1", which every row satisfies. */
  const MatchAll: Condition := Condition("1=1", (r: Record) => true)

  /**
   * A SELECT statement without ORDER BY: its text, the rows it selects, and
   * the sort key of the first column it lists.
   */
  datatype Select = Select(text: string, holds: Record -> bool, firstColumn: Record -> int)

  /**
   * The key a query sorts by. A missing ordering becomes "1", and `ORDER BY 1`
   * sorts by the first column of the select list.
   */
  function KeyOf(orderBy: Option<Ordering>, firstColumn: Record -> int): Record -> int {
    if orderBy.Some? then orderBy.value.key else firstColumn
  }

  /** A paged query as sent to the database, and what it asks for. */
  datatype Query = Query(text: string, holds: Record -> bool, key: Record -> int, offset: nat, limit: nat)

  /** A COUNT query as sent to the database, and the rows it counts. */
  datatype CountQuery = CountQuery(text: string, holds: Record -> bool)

  datatype PageInfo = PageInfo(offset: int, limit: int, returned: int, total: int)

  datatype PageEnvelope = PageEnvelope(data: seq<Record>, pageInfo: PageInfo)

  // ---------------------------------------------------------------------------
  // The table and what the database does with a query

  ghost predicate DistinctIds(rows: seq<Record>) {
    forall i, j :: 0 <= i < j < |rows| ==> rows[i].id != rows[j].id
  }

  predicate HasId(rows: seq<Record>, id: Guid) {
    exists i :: 0 <= i < |rows| && rows[i].id == id
  }

  /** The first row with the given Id. */
  function FindById(rows: seq<Record>, id: Guid): (found: Option<Record>)
    ensures found.None? <==> !HasId(rows, id)
    ensures found.Some? ==> found.value in rows && found.value.id == id
  {
    if rows == [] then None
    else if rows[0].id == id then Some(rows[0])
    else
      assert forall i :: 1 <= i < |rows| ==> rows[i] == rows[1..][i - 1];
      FindById(rows[1..], id)
  }

  /** The rows that satisfy p, in table order. */
  function Filter(rows: seq<Record>, p: Record -> bool): (kept: seq<Record>)
    ensures |kept| <= |rows|
    ensures forall x :: x in kept <==> x in rows && p(x)
  {
    if rows == [] then [] else (if p(rows[0]) then [rows[0]] else []) + Filter(rows[1..], p)
  }

  ghost predicate SortedBy(s: seq<Record>, key: Record -> int) {
    forall i, j :: 0 <= i < j < |s| ==> key(s[i]) <= key(s[j])
  }

  /**
   * The order the database puts two rows in: by the key, and among rows of
   * equal key by `ties`. SQL Server promises no order among ties, so every
   * query takes its own `ties` as an input.
   */
  predicate Precedes(x: Record, y: Record, key: Record -> int, ties: Record -> int) {
    key(x) < key(y) || (key(x) == key(y) && ties(x) <= ties(y))
  }

  ghost predicate SortedUnder(s: seq<Record>, le: (Record, Record) -> bool) {
    forall i, j :: 0 <= i < j < |s| ==> le(s[i], s[j])
  }

  /** Puts x before the first element it precedes. */
  function InsertByKey(x: Record, s: seq<Record>, key: Record -> int, ties: Record -> int): (r: seq<Record>)
    ensures multiset(r) == multiset(s) + multiset{x}
  {
    if s == [] then [x]
    else if Precedes(x, s[0], key, ties) then [x] + s
    else
      assert s == [s[0]] + s[1..];
      [s[0]] + InsertByKey(x, s[1..], key, ties)
  }

  lemma {:induction false} InsertByKeySorted(x: Record, s: seq<Record>, key: Record -> int, ties: Record -> int)
    requires SortedUnder(s, (a, b) => Precedes(a, b, key, ties))
    ensures SortedUnder(InsertByKey(x, s, key, ties), (a, b) => Precedes(a, b, key, ties))
  {
    if s != [] && !Precedes(x, s[0], key, ties) {
      var rest := InsertByKey(x, s[1..], key, ties);
      InsertByKeySorted(x, s[1..], key, ties);
      forall j | 0 <= j < |rest| ensures Precedes(s[0], rest[j], key, ties) {
        assert rest[j] in multiset(rest);
        assert rest[j] == x || rest[j] in s[1..];
      }
    }
  }

  /** ORDER BY: the rows sorted by the key, ties broken by `ties`. */
  function SortByKey(s: seq<Record>, key: Record -> int, ties: Record -> int): (r: seq<Record>)
    ensures multiset(r) == multiset(s) && |r| == |s|
  {
    if s == [] then []
    else
      assert s == [s[0]] + s[1..];
      InsertByKey(s[0], SortByKey(s[1..], key, ties), key, ties)
  }

  lemma {:induction false} SortByKeySorted(s: seq<Record>, key: Record -> int, ties: Record -> int)
    ensures SortedUnder(SortByKey(s, key, ties), (a, b) => Precedes(a, b, key, ties))
    ensures SortedBy(SortByKey(s, key, ties), key)
  {
    if s != [] {
      SortByKeySorted(s[1..], key, ties);
      InsertByKeySorted(s[0], SortByKey(s[1..], key, ties), key, ties);
    }
  }

  /**
   * Two arrangements of the same rows, both sorted under an order that
   * tells any two different rows apart, are the same arrangement.
   */
  lemma {:induction false} SortedUnique(a: seq<Record>, b: seq<Record>, le: (Record, Record) -> bool)
    requires multiset(a) == multiset(b)
    requires SortedUnder(a, le) && SortedUnder(b, le)
    requires forall x, y :: x in a && y in a && le(x, y) && le(y, x) ==> x == y
    ensures a == b
  {
    if a != [] {
      SortedHeadsAgree(a, b, le);
      assert a == [a[0]] + a[1..] && b == [b[0]] + b[1..];
      calc {
        multiset(a[1..]);
        multiset(a) - multiset{a[0]};
        multiset(b) - multiset{b[0]};
        multiset(b[1..]);
      }
      SortedUnique(a[1..], b[1..], le);
    }
  }

  /** Two sorted arrangements of the same non-empty rows start with the same row. */
  lemma SortedHeadsAgree(a: seq<Record>, b: seq<Record>, le: (Record, Record) -> bool)
    requires a != [] && multiset(a) == multiset(b)
    requires SortedUnder(a, le) && SortedUnder(b, le)
    requires forall x, y :: x in a && y in a && le(x, y) && le(y, x) ==> x == y
    ensures b != [] && a[0] == b[0]
  {
    assert a[0] in multiset(b) && b[0] in multiset(a);
    var j :| 0 <= j < |b| && b[j] == a[0];
    var i :| 0 <= i < |a| && a[i] == b[0];
    if i != 0 && j != 0 {
      assert le(a[0], a[i]) && le(b[0], b[j]);
    }
  }

  /** The key tells the rows of s apart. */
  ghost predicate KeyDistinguishes(s: seq<Record>, key: Record -> int) {
    forall x, y :: x in s && y in s && key(x) == key(y) ==> x == y
  }

  /** When the key tells the rows apart, the database's choice among ties does not matter. */
  lemma TiesIrrelevant(s: seq<Record>, key: Record -> int, t1: Record -> int, t2: Record -> int)
    requires KeyDistinguishes(s, key)
    ensures SortByKey(s, key, t1) == SortByKey(s, key, t2)
  {
    var a, b := SortByKey(s, key, t1), SortByKey(s, key, t2);
    SortByKeySorted(s, key, t1);
    SortByKeySorted(s, key, t2);
    forall x | x in a ensures x in s {
      assert x in multiset(a);
    }
    SortedUnique(a, b, (x, y) => key(x) <= key(y));
  }

  /** The position of x in t, or |t| when x is not there. */
  function IndexOf(t: seq<Record>, x: Record): (k: nat)
    ensures k <= |t| && (x in t ==> k < |t| && t[k] == x)
    ensures forall i :: 0 <= i < k ==> t[i] != x
  {
    if t == [] then 0 else if t[0] == x then 0 else 1 + IndexOf(t[1..], x)
  }

  /**
   * ORDER BY promises nothing beyond the key: every arrangement of distinct
   * rows that is sorted by the key is what the database returns for some
   * order among ties.
   */
  lemma EveryOrderReachable(s: seq<Record>, t: seq<Record>, key: Record -> int)
    requires multiset(t) == multiset(s) && SortedBy(t, key)
    requires forall i, j :: 0 <= i < j < |t| ==> t[i] != t[j]
    ensures exists ties: Record -> int :: SortByKey(s, key, ties) == t
  {
    SortsToPositions(s, t, key);
  }

  /** The order among ties that keeps rows as they stand in t. */
  function PositionIn(t: seq<Record>): Record -> int {
    (r: Record) => IndexOf(t, r) as int
  }

  lemma SortsToPositions(s: seq<Record>, t: seq<Record>, key: Record -> int)
    requires multiset(t) == multiset(s) && SortedBy(t, key)
    requires forall i, j :: 0 <= i < j < |t| ==> t[i] != t[j]
    ensures SortByKey(s, key, PositionIn(t)) == t
  {
    var ties := PositionIn(t);
    var a := SortByKey(s, key, ties);
    SortByKeySorted(s, key, ties);
    forall i, j | 0 <= i < j < |t| ensures Precedes(t[i], t[j], key, ties) {
      IndexOfDistinct(t, i);
      IndexOfDistinct(t, j);
    }
    forall x, y | x in a && y in a && Precedes(x, y, key, ties) && Precedes(y, x, key, ties) ensures x == y {
      assert x in multiset(t) && y in multiset(t);
    }
    SortedUnique(a, t, (x, y) => Precedes(x, y, key, ties));
  }

  /** In a sequence without repeats, each element's position is its index. */
  lemma IndexOfDistinct(t: seq<Record>, i: nat)
    requires forall i, j :: 0 <= i < j < |t| ==> t[i] != t[j]
    requires i < |t|
    ensures IndexOf(t, t[i]) == i
  {
    var k := IndexOf(t, t[i]);
    assert t[k] == t[i];
  }

  /** Sorting at most one row leaves it as it is. */
  lemma SortShort(s: seq<Record>, key: Record -> int, ties: Record -> int)
    requires |s| <= 1
    ensures SortByKey(s, key, ties) == s
  {
    if |s| == 1 {
      assert s[1..] == [];
    }
  }

  /** The first row of the sorted rows is one of them, and has the least key. */
  lemma FirstIsLeast(s: seq<Record>, key: Record -> int, ties: Record -> int)
    requires s != []
    ensures var f := SortByKey(s, key, ties)[0]; f in s && forall y :: y in s ==> key(f) <= key(y)
  {
    var sorted := SortByKey(s, key, ties);
    SortByKeySorted(s, key, ties);
    assert sorted[0] in multiset(sorted);
    forall y | y in s ensures key(sorted[0]) <= key(y) {
      assert y in multiset(sorted);
      var j :| 0 <= j < |sorted| && sorted[j] == y;
      if j > 0 {
        assert key(sorted[0]) <= key(sorted[j]);
      }
    }
  }

  /**
   * Two rows of equal key: the database may return them in either order,
   * so a page of one query and the next page of another can repeat a row
   * and skip the other.
   */
  lemma TiesCanRepeatARow()
    ensures var a, b := Record(1, None, []), Record(2, None, []);
      var key := (r: Record) => 0;
      Window(SortByKey([a, b], key, (r: Record) => r.id as int), 0, 1)
        + Window(SortByKey([a, b], key, (r: Record) => -(r.id as int)), 1, 1) == [a, a]
  {
    var a, b := Record(1, None, []), Record(2, None, []);
    var key := (r: Record) => 0;
    assert SortByKey([b], key, (r: Record) => r.id as int) == [b];
    assert SortByKey([b], key, (r: Record) => -(r.id as int)) == [b];
  }

  /** OFFSET offset ROWS FETCH NEXT limit ROWS ONLY. */
  function Window(s: seq<Record>, offset: nat, limit: nat): (w: seq<Record>)
    ensures |w| <= limit
    ensures offset <= |s| ==> |w| == if offset + limit <= |s| then limit else |s| - offset
    ensures offset >= |s| ==> w == []
    ensures forall i :: 0 <= i < |w| ==> offset + i < |s| && w[i] == s[offset + i]
  {
    var lo := if offset < |s| then offset else |s|;
    var hi := if lo + limit < |s| then lo + limit else |s|;
    s[lo..hi]
  }

  /**
   * The rows the database returns for a paged query, when it breaks ties
   * among rows of equal key by `ties`. FETCH NEXT 0 ROWS is refused: SQL
   * Server requires a positive FETCH count.
   */
  function Run(rows: seq<Record>, q: Query, ties: Record -> int): (r: Result<seq<Record>>)
    ensures r.Failure? <==> q.limit == 0
    ensures r.Failure? ==> r.error == ExecutionFailed
    ensures r.Success? ==>
      && |r.value| <= q.limit
      && SortedBy(r.value, q.key)
      && forall x :: x in r.value ==> x in rows && q.holds(x)
  {
    if q.limit == 0 then Failure(ExecutionFailed)
    else
      WindowOfSorted(Filter(rows, q.holds), q.key, ties, q.offset, q.limit);
      Success(Window(SortByKey(Filter(rows, q.holds), q.key, ties), q.offset, q.limit))
  }

  /** A window of the sorted rows is sorted and holds only rows of the input. */
  lemma WindowOfSorted(s: seq<Record>, key: Record -> int, ties: Record -> int, offset: nat, limit: nat)
    ensures var w := Window(SortByKey(s, key, ties), offset, limit);
      SortedBy(w, key) && forall x :: x in w ==> x in s
  {
    var sorted := SortByKey(s, key, ties);
    SortByKeySorted(s, key, ties);
    var w := Window(sorted, offset, limit);
    var lo := if offset < |sorted| then offset else |sorted|;
    assert w == sorted[lo..|w| + lo];
    forall x | x in w ensures x in s {
      assert x in multiset(sorted);
    }
  }

  /** The number the database returns for a COUNT query. */
  function RunCount(rows: seq<Record>, q: CountQuery): (n: nat)
    ensures n <= |rows|
    ensures n == 0 <==> forall x :: x in rows ==> !q.holds(x)
  {
    var kept := Filter(rows, q.holds);
    assert kept != [] ==> kept[0] in kept;
    |kept|
  }

  /** Enumerable.SingleOrDefault: the only element, nothing, or a failure for several. */
  function SingleOrDefault(s: seq<Record>): (r: Result<Option<Record>>)
    ensures |s| <= 1 ==> r == Success(if s == [] then None else Some(s[0]))
    ensures |s| > 1 ==> r == Failure(InvalidOperation)
  {
    if |s| == 0 then Success(None) else if |s| == 1 then Success(Some(s[0])) else Failure(InvalidOperation)
  }

  // ---------------------------------------------------------------------------
  // Statement composition

  /**
   * `SELECT * FROM [T] WHERE (where)`, where a missing condition is "1=1".
   * `firstColumn` is the key of the table's first column, which `*` lists first.
   */
  function WhereSelect(tableName: string, firstColumn: Record -> int, where: Option<Condition>): (sel: Select)
    ensures sel.holds == where.GetOr(MatchAll).holds && sel.firstColumn == firstColumn
    ensures |sel.text| >= 15 && sel.text[..15] == "SELECT * FROM [" && !IsNullOrWhiteSpace(Some(sel.text))
  {
    var c := where.GetOr(MatchAll);
    var text := "SELECT * FROM [" + tableName + "] WHERE (" + c.text + ")";
    NotWhiteSpaceAt(text, 0);
    Select(text, c.holds, firstColumn)
  }

  function StatementText(select: Option<Select>): Option<string> {
    if select.None? then None else Some(select.value.text)
  }

  /**
   * The paged query: the statement, ORDER BY (a missing ordering is "1"),
   * OFFSET and FETCH NEXT. Offset and limit must be non-negative and the
   * statement neither null nor white space. A zero limit is let through.
   */
  function PagedQuery(select: Option<Select>, orderBy: Option<Ordering>, offset: int, limit: int): (r: Result<Query>)
    ensures r.Success? <==> offset >= 0 && limit >= 0 && !IsNullOrWhiteSpace(StatementText(select))
    ensures r.Failure? ==> r.error == InvalidArgument
    ensures r.Success? ==>
      && r.value.offset == offset && r.value.limit == limit
      && r.value.holds == select.value.holds && r.value.key == KeyOf(orderBy, select.value.firstColumn)
  {
    if offset < 0 || limit < 0 || IsNullOrWhiteSpace(StatementText(select)) then Failure(InvalidArgument)
    else
      var o := orderBy.GetOr(Ordering("1", select.value.firstColumn));
      Success(Query(select.value.text + " " + " ORDER BY " + o.text
                    + " OFFSET " + DecimalText(offset) + " ROWS FETCH NEXT " + DecimalText(limit) + " ROWS ONLY",
                    select.value.holds, o.key, offset, limit))
  }

  function RestText(selectRest: Option<Condition>): Option<string> {
    if selectRest.None? then None else Some(selectRest.value.text)
  }

  /** `selectFirst selectRest`; neither part may be null or white space. */
  function CountAdvancedQuery(selectFirst: Option<string>, selectRest: Option<Condition>): (r: Result<CountQuery>)
    ensures r.Success? <==> !IsNullOrWhiteSpace(selectFirst) && !IsNullOrWhiteSpace(RestText(selectRest))
    ensures r.Failure? ==> r.error == InvalidArgument
    ensures r.Success? ==> r.value.holds == selectRest.value.holds
  {
    if IsNullOrWhiteSpace(selectFirst) || IsNullOrWhiteSpace(RestText(selectRest)) then Failure(InvalidArgument)
    else Success(CountQuery(selectFirst.value + " " + selectRest.value.text, selectRest.value.holds))
  }

  /** `SELECT COUNT(*) FROM [T] WHERE (where)`, where a missing condition is "1=1". */
  function CountWhereQuery(tableName: string, where: Option<Condition>): (r: Result<CountQuery>)
    ensures r.Success? && r.value.holds == where.GetOr(MatchAll).holds
  {
    var c := where.GetOr(MatchAll);
    var rest := "FROM [" + tableName + "] WHERE (" + c.text + ")";
    NotWhiteSpaceAt("SELECT COUNT(*)", 0);
    NotWhiteSpaceAt(rest, 0);
    CountAdvancedQuery(Some("SELECT COUNT(*)"), Some(Condition(rest, c.holds)))
  }

  /** Without a condition the statement reads `SELECT * FROM [T] WHERE (1=1)` and selects every row. */
  lemma DefaultWhereSelect(tableName: string, firstColumn: Record -> int, x: Record)
    ensures WhereSelect(tableName, firstColumn, None).text == "SELECT * FROM [" + tableName + "] WHERE (1=1)"
    ensures WhereSelect(tableName, firstColumn, None).holds(x)
  {
  }

  /**
   * Without an ordering the page query reads
   * `<statement>  ORDER BY 1 OFFSET o ROWS FETCH NEXT l ROWS ONLY`, and
   * sorts by the statement's first column.
   */
  lemma UnorderedPagedQuery(sel: Select, offset: nat, limit: nat)
    requires !IsNullOrWhiteSpace(Some(sel.text))
    ensures var q := PagedQuery(Some(sel), None, offset, limit);
      && q.Success?
      && q.value.text == sel.text + "  ORDER BY 1 OFFSET "
                         + DecimalText(offset) + " ROWS FETCH NEXT " + DecimalText(limit) + " ROWS ONLY"
      && q.value.holds == sel.holds && q.value.key == sel.firstColumn
  {
    DefaultOrderText(sel.text, DecimalText(offset), DecimalText(limit));
  }

  lemma DefaultOrderText(head: string, off: string, lim: string)
    ensures head + " " + " ORDER BY " + "1" + " OFFSET " + off + " ROWS FETCH NEXT " + lim + " ROWS ONLY"
         == head + "  ORDER BY 1 OFFSET " + off + " ROWS FETCH NEXT " + lim + " ROWS ONLY"
  {
  }

  /** Without a condition the count query reads `SELECT COUNT(*) FROM [T] WHERE (1=1)` and counts every row. */
  lemma DefaultCountQuery(tableName: string, x: Record)
    ensures var c := CountWhereQuery(tableName, None);
      && c.value.text == "SELECT COUNT(*) FROM [" + tableName + "] WHERE (1=1)" && c.value.holds(x)
  {
    var rest := "FROM [" + tableName + "] WHERE (" + "1=1" + ")";
    assert CountWhereQuery(tableName, None).value.text == "SELECT COUNT(*)" + " " + rest;
  }

  // ---------------------------------------------------------------------------
  // Facts about the table operations

  lemma {:induction false} FilterDistinct(rows: seq<Record>, p: Record -> bool)
    requires DistinctIds(rows)
    ensures DistinctIds(Filter(rows, p))
  {
    if rows != [] {
      var rest := rows[1..];
      assert DistinctIds(rest) by {
        forall i, j | 0 <= i < j < |rest| ensures rest[i].id != rest[j].id {
          assert rest[i] == rows[i + 1] && rest[j] == rows[j + 1];
        }
      }
      FilterDistinct(rest, p);
      var kept := Filter(rest, p);
      forall k | 0 <= k < |kept| ensures kept[k].id != rows[0].id {
        assert kept[k] in rest;
        var i :| 0 <= i < |rest| && rest[i] == kept[k];
        assert rows[i + 1] == kept[k];
      }
    }
  }

  /** Filtering on an Id finds what FindById finds. */
  lemma {:induction false} FilterById(rows: seq<Record>, p: Record -> bool, id: Guid)
    requires forall x: Record :: p(x) <==> x.id == id
    ensures FindById(rows, id) == (if Filter(rows, p) == [] then None else Some(Filter(rows, p)[0]))
  {
    if rows != [] {
      FilterById(rows[1..], p, id);
    }
  }

  lemma {:induction false} FilterNone(rows: seq<Record>, p: Record -> bool)
    requires forall j :: 0 <= j < |rows| ==> !p(rows[j])
    ensures Filter(rows, p) == []
  {
    if rows != [] {
      assert forall j :: 0 <= j < |rows[1..]| ==> rows[1..][j] == rows[j + 1];
      FilterNone(rows[1..], p);
    }
  }

  lemma {:induction false} FilterOne(rows: seq<Record>, p: Record -> bool, i: nat)
    requires i < |rows| && forall j :: 0 <= j < |rows| ==> (p(rows[j]) <==> j == i)
    ensures Filter(rows, p) == [rows[i]]
  {
    assert forall j :: 0 <= j < |rows[1..]| ==> rows[1..][j] == rows[j + 1];
    if i == 0 {
      FilterNone(rows[1..], p);
    } else {
      FilterOne(rows[1..], p, i - 1);
    }
  }

  /** On a table with distinct Ids a filter on one Id keeps at most one row. */
  lemma FilterByIdAtMostOne(rows: seq<Record>, p: Record -> bool, id: Guid)
    requires DistinctIds(rows)
    requires forall x: Record :: p(x) ==> x.id == id
    ensures |Filter(rows, p)| <= 1
  {
    FilterDistinct(rows, p);
  }

  /** Appending a persistable row with a new Id keeps the table valid, and the row is then found by its Id. */
  lemma AppendNewRow(rows: seq<Record>, row: Record)
    requires DistinctIds(rows) && Persisted(rows)
    requires Persistable(row) && !HasId(rows, row.id)
    ensures DistinctIds(rows + [row]) && Persisted(rows + [row])
    ensures FindById(rows + [row], row.id) == Some(row)
  {
    var grown := rows + [row];
    forall i, j | 0 <= i < j < |grown| ensures grown[i].id != grown[j].id {
      assert grown[i] == rows[i];
      if j < |rows| {
        assert grown[j] == rows[j];
      }
    }
    FindByIdAppend(rows, row);
  }

  lemma {:induction false} FindByIdAppend(rows: seq<Record>, r: Record)
    requires !HasId(rows, r.id)
    ensures FindById(rows + [r], r.id) == Some(r)
  {
    if rows != [] {
      assert (rows + [r])[1..] == rows[1..] + [r];
      assert !HasId(rows[1..], r.id) by {
        forall i | 0 <= i < |rows[1..]| ensures rows[1..][i].id != r.id {
          assert rows[1..][i] == rows[i + 1];
        }
      }
      FindByIdAppend(rows[1..], r);
    }
  }

  /** The page at offset o of length l followed by the page at o + l of length l' is the page at o of length l + l'. */
  lemma PagesTile(s: seq<Record>, offset: nat, l1: nat, l2: nat)
    ensures Window(s, offset, l1) + Window(s, offset + l1, l2) == Window(s, offset, l1 + l2)
  {
  }

  /** The rows whose Id differs from id, in table order. */
  function WithoutId(rows: seq<Record>, id: Guid): (kept: seq<Record>)
    ensures |kept| <= |rows| && !HasId(kept, id)
    ensures forall x :: x in kept <==> x in rows && x.id != id
  {
    var kept := Filter(rows, (x: Record) => x.id != id);
    assert forall i :: 0 <= i < |kept| ==> kept[i] in kept;
    kept
  }

  /** The table after writing `row` over the row with the same Id. */
  function ReplaceById(rows: seq<Record>, row: Record): (r: seq<Record>)
    ensures |r| == |rows|
    ensures forall i :: 0 <= i < |rows| ==> r[i] == if rows[i].id == row.id then row else rows[i]
  {
    seq(|rows|, i requires 0 <= i < |rows| => if rows[i].id == row.id then row else rows[i])
  }

  /** The filter `Id = @Id AND ETag = 'etag'` of the guarded UPDATE. */
  function Guard(id: Guid, etag: Option<string>): Record -> bool {
    (x: Record) => x.id == id && x.etag == etag
  }

  /**
   * What `UPDATE ... WHERE Id = @Id AND ETag = 'oldEtag'` does: writes `row`
   * over each row with its Id and the old ETag, and reports how many it wrote.
   */
  function GuardedWrite(rows: seq<Record>, row: Record, oldEtag: Option<string>): (w: (seq<Record>, nat))
    ensures |w.0| == |rows| && w.1 <= |rows|
    ensures forall i :: 0 <= i < |rows| ==> w.0[i] == rows[i] || w.0[i] == row
    ensures w.1 == 0 ==> w.0 == rows
  {
    assert forall i :: 0 <= i < |rows| && Guard(row.id, oldEtag)(rows[i]) ==> rows[i] in Filter(rows, Guard(row.id, oldEtag));
    (seq(|rows|, i requires 0 <= i < |rows| => if Guard(row.id, oldEtag)(rows[i]) then row else rows[i]),
     |Filter(rows, Guard(row.id, oldEtag))|)
  }

  /** `row` written over the row with its Id, when that row is at index i and the Ids are distinct. */
  lemma ReplaceAt(rows: seq<Record>, row: Record, i: nat, j: nat)
    requires DistinctIds(rows) && i < |rows| && j < |rows| && rows[i].id == row.id
    ensures rows[j].id == row.id <==> j == i
  {
    if j < i {
      assert rows[j].id != rows[i].id;
    } else if i < j {
      assert rows[i].id != rows[j].id;
    }
  }

  /** When the stored row still carries the old ETag the guarded write replaces exactly that row. */
  lemma GuardedWriteHits(rows: seq<Record>, row: Record, stored: Record)
    requires DistinctIds(rows)
    requires FindById(rows, row.id) == Some(stored)
    ensures GuardedWrite(rows, row, stored.etag) == (ReplaceById(rows, row), 1)
  {
    var p := Guard(row.id, stored.etag);
    var i :| 0 <= i < |rows| && rows[i] == stored;
    var written := GuardedWrite(rows, row, stored.etag).0;
    var replaced := ReplaceById(rows, row);
    forall j | 0 <= j < |rows| ensures written[j] == replaced[j] && (p(rows[j]) <==> j == i) {
      ReplaceAt(rows, row, i, j);
    }
    assert written == replaced;
    FilterOne(rows, p, i);
  }

  /** When the stored row carries another ETag the guarded write hits nothing. */
  lemma GuardedWriteMisses(rows: seq<Record>, row: Record, stored: Record, oldEtag: Option<string>)
    requires DistinctIds(rows)
    requires FindById(rows, row.id) == Some(stored) && stored.etag != oldEtag
    ensures GuardedWrite(rows, row, oldEtag) == (rows, 0)
  {
    var p := Guard(row.id, oldEtag);
    var i :| 0 <= i < |rows| && rows[i] == stored;
    forall j | 0 <= j < |rows| ensures !p(rows[j]) {
      ReplaceAt(rows, row, i, j);
    }
    FilterNone(rows, p);
    assert GuardedWrite(rows, row, oldEtag).0 == rows;
  }

  ghost predicate Persisted(rows: seq<Record>) {
    forall i :: 0 <= i < |rows| ==> Persistable(rows[i])
  }

  // ---------------------------------------------------------------------------

  /** T-SQL's equality comparison. `==` is not an operator of the language. */
  const SqlEquals: string := "="

  /**
   * SingleTableHandler: CRUD and search for one record type. `sent` lists
   * the write statements issued to the database, in order. `firstColumn` is
   * the sort key of the table's first column, the one `SELECT *` lists
   * first; the table's definition decides it (Id in the column order of
   * the INSERT).
   */
  class SingleTableHandler {
    const meta: Metadata
    const firstColumn: Record -> int
    var rows: seq<Record>
    var sent: seq<string>

    /** The primary key holds and every stored record has an Id and an ETag. */
    ghost predicate Valid()
      reads this
    {
      DistinctIds(rows) && Persisted(rows)
    }

    constructor (meta: Metadata, firstColumn: Record -> int)
      ensures Valid() && this.meta == meta && this.firstColumn == firstColumn && rows == [] && sent == []
    {
      this.meta := meta;
      this.firstColumn := firstColumn;
      rows := [];
      sent := [];
    }

    // Search ------------------------------------------------------------------
    //
    // `ties` is the order among rows of equal key that the database happens
    // to produce for that one query; it promises none, so it is an input.

    /** CountItemsAdvanced: the number of rows the fragment selects. */
    function CountItemsAdvanced(selectFirst: Option<string>, selectRest: Option<Condition>): (r: Result<int>)
      reads this
      ensures r.Success? <==> !IsNullOrWhiteSpace(selectFirst) && !IsNullOrWhiteSpace(RestText(selectRest))
      ensures r.Failure? ==> r.error == InvalidArgument
      ensures r.Success? ==> r.value == |Filter(rows, selectRest.value.holds)|
    {
      var q := CountAdvancedQuery(selectFirst, selectRest);
      if q.Failure? then Failure(q.error) else Success(RunCount(rows, q.value))
    }

    /** CountItemsWhere: the number of rows the condition selects; all rows without one. */
    function CountItemsWhere(where: Option<Condition>): (r: Result<int>)
      reads this
      ensures r == Success(|Filter(rows, where.GetOr(MatchAll).holds)|)
      ensures where.None? ==> r == Success(|rows|)
    {
      var c := where.GetOr(MatchAll);
      var rest := "FROM [" + meta.tableName + "] WHERE (" + c.text + ")";
      NotWhiteSpaceAt("SELECT COUNT(*)", 0);
      NotWhiteSpaceAt(rest, 0);
      assert where.None? ==> Filter(rows, c.holds) == rows by {
        if where.None? {
          FilterAll(rows, c.holds);
        }
      }
      CountItemsAdvanced(Some("SELECT COUNT(*)"), Some(Condition(rest, c.holds)))
    }

    /**
     * SearchInternalAsync: one page of the statement's rows in the requested
     * order. The argument contracts fail with InvalidArgument; a zero limit passes them
     * and the database refuses the query.
     */
    function SearchInternal(select: Option<Select>, orderBy: Option<Ordering>, offset: int, limit: int,
                            ties: Record -> int): (r: Result<seq<Record>>)
      reads this
      ensures r.Success? <==> offset >= 0 && limit > 0 && !IsNullOrWhiteSpace(StatementText(select))
      ensures r.Failure? ==>
        r.error == if offset < 0 || limit < 0 || IsNullOrWhiteSpace(StatementText(select)) then InvalidArgument
                   else ExecutionFailed
      ensures r.Success? ==>
        && |r.value| <= limit
        && r.value == Window(SortByKey(Filter(rows, select.value.holds), KeyOf(orderBy, select.value.firstColumn), ties),
                             offset, limit)
    {
      var q := PagedQuery(select, orderBy, offset, limit);
      if q.Failure? then Failure(q.error) else Run(rows, q.value, ties)
    }

    /** SearchInternalWhereAsync: as SearchInternal on `SELECT * FROM [T] WHERE (where)`. */
    function SearchInternalWhere(where: Option<Condition>, orderBy: Option<Ordering>, offset: int, limit: int,
                                 ties: Record -> int): (r: Result<seq<Record>>)
      reads this
      ensures r.Success? <==> offset >= 0 && limit > 0
      ensures r.Failure? ==> r.error == if offset < 0 || limit < 0 then InvalidArgument else ExecutionFailed
      ensures r.Success? ==>
        && |r.value| <= limit
        && r.value == Window(SortByKey(Filter(rows, where.GetOr(MatchAll).holds), KeyOf(orderBy, firstColumn), ties),
                             offset, limit)
    {
      if offset < 0 || limit < 0 then Failure(InvalidArgument)
      else SearchInternal(Some(WhereSelect(meta.tableName, firstColumn, where)), orderBy, offset, limit, ties)
    }

    /** The envelope SearchWhereAsync and SearchAdvancedAsync build from the data and the count. */
    static function Envelope(data: seq<Record>, offset: int, limit: int, total: int): (e: PageEnvelope)
      ensures e.data == data && e.pageInfo.returned == |data|
      ensures e.pageInfo.offset == offset && e.pageInfo.limit == limit && e.pageInfo.total == total
    {
      PageEnvelope(data, PageInfo(offset, limit, |data|, total))
    }

    /**
     * SearchWhereAsync (both overloads): a page of the rows the condition
     * selects, with Offset and Limit echoed, Returned the page's length and
     * Total the count under the same condition.
     */
    function SearchWhere(where: Option<Condition>, orderBy: Option<Ordering>, offset: int, limit: int,
                         ties: Record -> int): (r: Result<PageEnvelope>)
      reads this
      ensures r.Success? <==> offset >= 0 && limit > 0
      ensures r.Failure? ==> r.error == if offset < 0 || limit < 0 then InvalidArgument else ExecutionFailed
      ensures r.Success? ==>
        var matching := Filter(rows, where.GetOr(MatchAll).holds);
        && r.value.data == Window(SortByKey(matching, KeyOf(orderBy, firstColumn), ties), offset, limit)
        && r.value.pageInfo == PageInfo(offset, limit, |r.value.data|, |matching|)
        && r.value.pageInfo.returned <= limit
    {
      if offset < 0 || limit < 0 then Failure(InvalidArgument)
      else
        var total := CountItemsWhere(where);
        var data := SearchInternalWhere(where, orderBy, offset, limit, ties);
        if data.Failure? then Failure(data.error)
        else Success(Envelope(data.value, offset, limit, total.value))
    }

    /** SearchAllAsync: SearchWhere without a condition. */
    function SearchAll(orderBy: Option<Ordering>, offset: int, limit: int, ties: Record -> int): (r: Result<PageEnvelope>)
      reads this
      ensures r.Success? <==> offset >= 0 && limit > 0
      ensures r.Failure? ==> r.error == if offset < 0 || limit < 0 then InvalidArgument else ExecutionFailed
      ensures r.Success? ==>
        && r.value.data == Window(SortByKey(rows, KeyOf(orderBy, firstColumn), ties), offset, limit)
        && r.value.pageInfo == PageInfo(offset, limit, |r.value.data|, |rows|)
    {
      if offset < 0 || limit < 0 then Failure(InvalidArgument)
      else
        FilterAll(rows, MatchAll.holds);
        SearchWhere(None, orderBy, offset, limit, ties)
    }

    /**
     * SearchAdvancedAsync: Total counts with `countFirst selectRest`, the data
     * come from `selectFirst selectRest`, both over the rows the fragment
     * selects. `leading` is the key of the first column selectFirst lists.
     * selectFirst is not checked: a null or blank one leaves a data statement
     * that starts with the FROM of selectRest, which the database refuses
     * after the count has run.
     */
    function SearchAdvanced(countFirst: Option<string>, selectFirst: Option<string>, selectRest: Option<Condition>,
                            leading: Record -> int, orderBy: Option<Ordering>, offset: int, limit: int,
                            ties: Record -> int): (r: Result<PageEnvelope>)
      reads this
      ensures r.Success? <==>
        && offset >= 0 && limit > 0
        && !IsNullOrWhiteSpace(countFirst) && !IsNullOrWhiteSpace(RestText(selectRest))
        && !IsNullOrWhiteSpace(selectFirst)
      ensures r.Failure? ==>
        r.error == if offset < 0 || limit < 0 || IsNullOrWhiteSpace(countFirst) || IsNullOrWhiteSpace(RestText(selectRest))
                   then InvalidArgument else ExecutionFailed
      ensures r.Success? ==>
        var matching := Filter(rows, selectRest.value.holds);
        && r.value.data == Window(SortByKey(matching, KeyOf(orderBy, leading), ties), offset, limit)
        && r.value.pageInfo == PageInfo(offset, limit, |r.value.data|, |matching|)
        && r.value.pageInfo.returned <= limit
    {
      if offset < 0 || limit < 0 then Failure(InvalidArgument)
      else
        var total := CountItemsAdvanced(countFirst, selectRest);
        if total.Failure? then Failure(total.error)
        else if IsNullOrWhiteSpace(selectFirst) then Failure(ExecutionFailed)
        else
          var text := OrEmpty(selectFirst) + " " + selectRest.value.text;
          NotBlankAfter(OrEmpty(selectFirst) + " ", selectRest.value.text);
          var data := SearchInternal(Some(Select(text, selectRest.value.holds, leading)), orderBy, offset, limit, ties);
          if data.Failure? then Failure(data.error)
          else Success(Envelope(data.value, offset, limit, total.value))
    }

    /** SearchFirstAdvancedAsync: the first row of the statement under the ordering, if any. */
    function SearchFirstAdvanced(select: Option<Select>, orderBy: Option<Ordering>, ties: Record -> int)
      : (r: Result<Option<Record>>)
      reads this
      ensures r.Success? <==> !IsNullOrWhiteSpace(StatementText(select))
      ensures r.Failure? ==> r.error == InvalidArgument
      ensures r.Success? ==>
        var matching := Filter(rows, select.value.holds);
        var key := KeyOf(orderBy, select.value.firstColumn);
        && (r.value.None? <==> matching == [])
        && (r.value.Some? ==>
              && r.value.value in matching
              && (forall y :: y in matching ==> key(r.value.value) <= key(y))
              && r.value.value == SortByKey(matching, key, ties)[0])
    {
      var found := SearchInternal(select, orderBy, 0, 1, ties);
      if found.Failure? then Failure(found.error)
      else
        var matching := Filter(rows, select.value.holds);
        if matching == [] then SingleOrDefault(found.value)
        else
          FirstIsLeast(matching, KeyOf(orderBy, select.value.firstColumn), ties);
          SingleOrDefault(found.value)
    }

    /** SearchFirstWhereAsync: the first row the condition selects, under the ordering. */
    function SearchFirstWhere(where: Option<Condition>, orderBy: Option<Ordering>, ties: Record -> int)
      : (r: Result<Option<Record>>)
      reads this
      ensures r.Success?
      ensures
        var matching := Filter(rows, where.GetOr(MatchAll).holds);
        var key := KeyOf(orderBy, firstColumn);
        && (r.value.None? <==> matching == [])
        && (r.value.Some? ==>
              && r.value.value in matching
              && (forall y :: y in matching ==> key(r.value.value) <= key(y))
              && r.value.value == SortByKey(matching, key, ties)[0])
    {
      var found := SearchInternalWhere(where, orderBy, 0, 1, ties);
      var matching := Filter(rows, where.GetOr(MatchAll).holds);
      if matching == [] then SingleOrDefault(found.value)
      else
        FirstIsLeast(matching, KeyOf(orderBy, firstColumn), ties);
        SingleOrDefault(found.value)
    }

    /**
     * SearchAdvancedSingle: a row of the statement with the least first
     * column, or nothing. Several matching rows are not an error: only one
     * is fetched.
     */
    function SearchAdvancedSingle(select: Option<Select>, ties: Record -> int): (r: Result<Option<Record>>)
      reads this
      ensures r.Success? <==> !IsNullOrWhiteSpace(StatementText(select))
      ensures r.Failure? ==> r.error == InvalidArgument
      ensures r.Success? ==>
        var matching := Filter(rows, select.value.holds);
        && (r.value.None? <==> matching == [])
        && (r.value.Some? ==>
              && r.value.value in matching
              && forall y :: y in matching ==> select.value.firstColumn(r.value.value) <= select.value.firstColumn(y))
    {
      SearchFirstAdvanced(select, None, ties)
    }

    /** SearchWhereSingle: a row of the condition with the least first column, or nothing. */
    function SearchWhereSingle(where: Option<Condition>, ties: Record -> int): (r: Result<Option<Record>>)
      reads this
      ensures r.Success?
      ensures
        var matching := Filter(rows, where.GetOr(MatchAll).holds);
        && (r.value.None? <==> matching == [])
        && (r.value.Some? ==>
              && r.value.value in matching
              && forall y :: y in matching ==> firstColumn(r.value.value) <= firstColumn(y))
    {
      SearchAdvancedSingle(Some(WhereSelect(meta.tableName, firstColumn, where)), ties)
    }

    /**
     * ReadAsync: the row with the Id, or nothing; the empty Guid is rejected.
     * At most one row matches, so the order among ties plays no part.
     */
    function Read(id: Guid): (r: Result<Option<Record>>)
      requires Valid()
      reads this
      ensures id == EmptyGuid ==> r == Failure(InvalidArgument)
      ensures id != EmptyGuid ==> r == Success(FindById(rows, id))
    {
      if id == EmptyGuid then Failure(InvalidArgument)
      else
        var byId := Condition("Id = @Id", (x: Record) => x.id == id);
        FilterById(rows, byId.holds, id);
        FilterByIdAtMostOne(rows, byId.holds, id);
        SortShort(Filter(rows, byId.holds), firstColumn, (x: Record) => 0);
        SearchWhereSingle(Some(byId), (x: Record) => 0)
    }

    // Create, update, delete --------------------------------------------------

    /**
     * CreateAsync: an empty Id is replaced by `newId`, the ETag is always the
     * text of `newTag`; the object is changed in place before the INSERT. A
     * duplicate Id is refused by the database. The result is the row read back.
     */
    method Create(item: DatabaseItem, newId: Guid, newTag: Guid) returns (r: Result<Option<Record>>)
      requires Valid() && item.meta == meta && newId != EmptyGuid
      modifies this, item
      ensures Valid()
      ensures item.id == (if old(item.id) == EmptyGuid then newId else old(item.id))
      ensures item.etag == Some(GuidText(newTag)) && item.values == old(item.values)
      ensures item.Validate() == None
      ensures sent == old(sent) + [Helper.Create(meta)]
      ensures HasId(old(rows), item.id) ==> r == Failure(ExecutionFailed) && rows == old(rows)
      ensures !HasId(old(rows), item.id) ==>
        && rows == old(rows) + [item.Snapshot()]
        && r == Success(Some(item.Snapshot()))
    {
      if item.id == EmptyGuid {
        item.id := newId;
      }
      item.etag := Some(GuidText(newTag));
      // RequireValidatedAndNotNull never fails here: both properties were just set.
      assert item.Validate() == None;
      sent := sent + [Helper.Create(meta)];
      if HasId(rows, item.id) {
        r := Failure(ExecutionFailed);
        return;
      }
      var row := item.Snapshot();
      AppendNewRow(rows, row);
      rows := rows + [row];
      r := Read(item.id);
    }

    /** The object would be written: it validates, its row exists and still carries its ETag. */
    predicate Admits(item: DatabaseItem)
      reads this, item
    {
      item.Validate() == None && FindById(rows, item.id).Some? && FindById(rows, item.id).value.etag == item.etag
    }

    /**
     * InternalUpdateAsync, with the ETag comparison of the guarded UPDATE
     * written `op`. An invalid object is refused, a missing row is NotFound,
     * a stored ETag other than the object's is Conflict; all three leave the
     * table, the statements and the object as they were. Otherwise the
     * object gets the ETag `newTag` and the UPDATE is sent. With `=` it
     * writes the object over its row; any other operator makes the database
     * refuse the statement, and no row changes.
     */
    method InternalUpdate(item: DatabaseItem, newTag: Guid, op: string) returns (r: Outcome)
      requires Valid() && item.meta == meta
      requires item.etag != Some(GuidText(newTag))
      modifies this, item
      ensures Valid()
      ensures item.id == old(item.id) && item.values == old(item.values)
      ensures old(item.Validate()) != None ==>
        r == Failed(ValidationFailed) && rows == old(rows) && sent == old(sent) && item.etag == old(item.etag)
      ensures old(item.Validate()) == None && FindById(old(rows), item.id).None? ==>
        r == Failed(NotFound) && rows == old(rows) && sent == old(sent) && item.etag == old(item.etag)
      ensures (old(item.Validate()) == None && FindById(old(rows), item.id).Some?
               && FindById(old(rows), item.id).value.etag != old(item.etag)) ==>
        r == Failed(Conflict) && rows == old(rows) && sent == old(sent) && item.etag == old(item.etag)
      ensures old(Admits(item)) ==>
        && item.etag == Some(GuidText(newTag)) && item.etag != old(item.etag)
        && sent == old(sent) + [Helper.UpdateComparing(meta, op, OrEmpty(old(item.etag)))]
      ensures old(Admits(item)) && op == SqlEquals ==> r == Done && rows == ReplaceById(old(rows), item.Snapshot())
      ensures old(Admits(item)) && op != SqlEquals ==> r == Failed(ExecutionFailed) && rows == old(rows)
    {
      if item.Validate() != None {
        r := Failed(ValidationFailed);
        return;
      }
      var current := Read(item.id);
      if current.value.None? {
        r := Failed(NotFound);
        return;
      }
      var stored := current.value.value;
      if stored.etag != item.etag {
        r := Failed(Conflict);
        return;
      }
      item.etag := Some(GuidText(newTag));
      var row := item.Snapshot();
      sent := sent + [Helper.UpdateComparing(meta, op, OrEmpty(stored.etag))];
      if op != SqlEquals {
        r := Failed(ExecutionFailed);
        return;
      }
      GuardedWriteHits(rows, row, stored);
      var written := GuardedWrite(rows, row, stored.etag);
      ReplaceKeepsTableValid(rows, row);
      rows := written.0;
      if written.1 == 0 {
        r := Failed(Conflict);
        return;
      }
      r := Done;
    }

    /**
     * UpdateAsync with the UPDATE it is evidently meant to send, comparing
     * the ETag with `=`: optimistic concurrency. The refusals are those of
     * InternalUpdate; otherwise the object's row is replaced and the result
     * is the row read back.
     */
    method Update(item: DatabaseItem, newTag: Guid) returns (r: Result<Option<Record>>)
      requires Valid() && item.meta == meta
      requires item.etag != Some(GuidText(newTag))
      modifies this, item
      ensures Valid()
      ensures item.id == old(item.id) && item.values == old(item.values)
      ensures old(item.Validate()) != None ==>
        r == Failure(ValidationFailed) && rows == old(rows) && sent == old(sent) && item.etag == old(item.etag)
      ensures old(item.Validate()) == None && FindById(old(rows), item.id).None? ==>
        r == Failure(NotFound) && rows == old(rows) && sent == old(sent) && item.etag == old(item.etag)
      ensures (old(item.Validate()) == None && FindById(old(rows), item.id).Some?
               && FindById(old(rows), item.id).value.etag != old(item.etag)) ==>
        r == Failure(Conflict) && rows == old(rows) && sent == old(sent) && item.etag == old(item.etag)
      ensures old(Admits(item)) ==>
        && item.etag == Some(GuidText(newTag)) && item.etag != old(item.etag)
        && rows == ReplaceById(old(rows), item.Snapshot())
        && sent == old(sent) + [Helper.UpdateCorrected(meta, OrEmpty(old(item.etag)))]
        && r == Success(Some(item.Snapshot()))
    {
      var done := InternalUpdate(item, newTag, SqlEquals);
      if done.Failed? {
        r := Failure(done.error);
        return;
      }
      ReplacedIsFound(old(rows), item.Snapshot());
      r := Read(item.id);
    }

    /**
     * UpdateAsync as written: the UPDATE compares the ETag with `==`, which
     * the database refuses. No update ever writes a row. One that passes the
     * guards fails with ExecutionFailed, after the object got its new ETag.
     */
    method UpdateAsWritten(item: DatabaseItem, newTag: Guid) returns (r: Result<Option<Record>>)
      requires Valid() && item.meta == meta
      requires item.etag != Some(GuidText(newTag))
      modifies this, item
      ensures Valid() && rows == old(rows) && r.Failure?
      ensures item.id == old(item.id) && item.values == old(item.values)
      ensures old(item.Validate()) != None ==> r == Failure(ValidationFailed)
      ensures old(item.Validate()) == None && FindById(old(rows), item.id).None? ==> r == Failure(NotFound)
      ensures (old(item.Validate()) == None && FindById(old(rows), item.id).Some?
               && FindById(old(rows), item.id).value.etag != old(item.etag)) ==> r == Failure(Conflict)
      ensures !old(Admits(item)) ==> sent == old(sent) && item.etag == old(item.etag)
      ensures old(Admits(item)) ==>
        && r == Failure(ExecutionFailed)
        && item.etag == Some(GuidText(newTag)) && item.etag != old(item.etag)
        && sent == old(sent) + [Helper.Update(meta, OrEmpty(old(item.etag)))]
    {
      var done := InternalUpdate(item, newTag, "==");
      if done.Failed? {
        r := Failure(done.error);
        return;
      }
      r := Success(None);
    }

    /**
     * DeleteAsync: the empty Guid is rejected before anything is sent;
     * otherwise the row with the Id is removed if there is one, and an absent
     * Id is no error.
     */
    method Delete(id: Guid) returns (r: Outcome)
      requires Valid()
      modifies this
      ensures Valid()
      ensures id == EmptyGuid ==> r == Failed(InvalidArgument) && rows == old(rows) && sent == old(sent)
      ensures id != EmptyGuid ==>
        && r == Done
        && rows == WithoutId(old(rows), id)
        && sent == old(sent) + [Helper.Delete(meta)]
    {
      if id == EmptyGuid {
        r := Failed(InvalidArgument);
        return;
      }
      sent := sent + [Helper.Delete(meta)];
      FilterDistinct(rows, (x: Record) => x.id != id);
      rows := WithoutId(rows, id);
      r := Done;
    }
  }

  /** A string that ends in a part that is not blank is not blank. */
  lemma NotBlankAfter(head: string, tail: string)
    requires !IsNullOrWhiteSpace(Some(tail))
    ensures !IsNullOrWhiteSpace(Some(head + tail))
  {
    var i :| 0 <= i < |tail| && !IsWhiteSpace(tail[i]);
    assert (head + tail)[|head| + i] == tail[i];
  }

  lemma {:induction false} FilterAll(rows: seq<Record>, p: Record -> bool)
    requires forall x: Record :: p(x)
    ensures Filter(rows, p) == rows
  {
    if rows != [] {
      FilterAll(rows[1..], p);
      assert rows == [rows[0]] + rows[1..];
    }
  }

  lemma ReplacedIsFound(rows: seq<Record>, row: Record)
    requires DistinctIds(rows) && HasId(rows, row.id)
    ensures FindById(ReplaceById(rows, row), row.id) == Some(row)
  {
    var written := ReplaceById(rows, row);
    var i :| 0 <= i < |rows| && rows[i].id == row.id;
    FindByIdPosition(written, i);
  }

  /** Writing a persistable row over the row with its Id keeps the Ids distinct and every row persistable. */
  lemma ReplaceKeepsTableValid(rows: seq<Record>, row: Record)
    requires DistinctIds(rows) && Persisted(rows) && Persistable(row)
    ensures DistinctIds(ReplaceById(rows, row)) && Persisted(ReplaceById(rows, row))
  {
    var written := ReplaceById(rows, row);
    assert forall i :: 0 <= i < |rows| ==> written[i].id == rows[i].id;
  }

  lemma {:induction false} FindByIdPosition(rows: seq<Record>, i: nat)
    requires i < |rows| && forall j :: 0 <= j < i ==> rows[j].id != rows[i].id
    ensures FindById(rows, rows[i].id) == Some(rows[i])
  {
    if i > 0 {
      FindByIdPosition(rows[1..], i - 1);
    }
  }

  // ---------------------------------------------------------------------------
  // Paging

  /**
   * Consecutive pages of one search concatenate to the longer page, and
   * every page reports the same Total, whatever order each query gives to
   * ties, provided the key tells the matching rows apart (TiesCanRepeatARow
   * shows what goes wrong otherwise). A zero limit fails.
   */
  lemma ConsecutivePages(h: SingleTableHandler, where: Option<Condition>, orderBy: Option<Ordering>,
                         offset: nat, l1: nat, l2: nat, t1: Record -> int, t2: Record -> int, t: Record -> int)
    requires KeyDistinguishes(Filter(h.rows, where.GetOr(MatchAll).holds), KeyOf(orderBy, h.firstColumn))
    ensures var p1, p2, p := h.SearchWhere(where, orderBy, offset, l1, t1),
                             h.SearchWhere(where, orderBy, offset + l1, l2, t2),
                             h.SearchWhere(where, orderBy, offset, l1 + l2, t);
      && (p1.Success? <==> l1 > 0) && (p2.Success? <==> l2 > 0) && (p.Success? <==> l1 + l2 > 0)
      && (l1 > 0 && l2 > 0 ==>
            && p1.value.data + p2.value.data == p.value.data
            && p1.value.pageInfo.total == p2.value.pageInfo.total == p.value.pageInfo.total)
  {
    var matching := Filter(h.rows, where.GetOr(MatchAll).holds);
    var key := KeyOf(orderBy, h.firstColumn);
    TiesIrrelevant(matching, key, t1, t);
    TiesIrrelevant(matching, key, t2, t);
    PagesTile(SortByKey(matching, key, t), offset, l1, l2);
  }

  /** A page from offset 0 with a positive limit at least Total holds every matching row, each once. */
  lemma FullPage(h: SingleTableHandler, where: Option<Condition>, orderBy: Option<Ordering>, limit: nat,
                 ties: Record -> int)
    requires limit >= |Filter(h.rows, where.GetOr(MatchAll).holds)|
    ensures var p := h.SearchWhere(where, orderBy, 0, limit, ties);
      && (limit == 0 ==> p == Failure(ExecutionFailed))
      && (limit > 0 ==>
            && p.Success?
            && p.value.pageInfo.returned == p.value.pageInfo.total
            && multiset(p.value.data) == multiset(Filter(h.rows, where.GetOr(MatchAll).holds)))
  {
    var sorted := SortByKey(Filter(h.rows, where.GetOr(MatchAll).holds), KeyOf(orderBy, h.firstColumn), ties);
    assert Window(sorted, 0, limit) == sorted;
  }

  /** Every row of a page satisfies the condition, and the page is in ORDER BY order. */
  lemma PageMatchesAndIsOrdered(h: SingleTableHandler, where: Option<Condition>, orderBy: Option<Ordering>,
                                offset: nat, limit: nat, ties: Record -> int)
    ensures var p := h.SearchWhere(where, orderBy, offset, limit, ties);
      && (p.Success? <==> limit > 0)
      && (p.Success? ==>
            && (forall x :: x in p.value.data ==> x in h.rows && where.GetOr(MatchAll).holds(x))
            && SortedBy(p.value.data, KeyOf(orderBy, h.firstColumn)))
  {
    var matching := Filter(h.rows, where.GetOr(MatchAll).holds);
    WindowOfSorted(matching, KeyOf(orderBy, h.firstColumn), ties, offset, limit);
  }

  // ---------------------------------------------------------------------------
  // Optimistic concurrency

  /**
   * Two objects read from the same row: the first update wins, and the
   * second, still carrying the ETag both were read with, is refused with
   * Conflict and leaves the table as the first update left it.
   */
  method LostUpdateRefused(h: SingleTableHandler, first: DatabaseItem, second: DatabaseItem, tag1: Guid, tag2: Guid)
      returns (r1: Result<Option<Record>>, r2: Result<Option<Record>>)
    requires h.Valid() && first.meta == h.meta && second.meta == h.meta && first != second
    requires first.Validate() == None && first.id == second.id && first.etag == second.etag
    requires FindById(h.rows, first.id).Some? && FindById(h.rows, first.id).value.etag == first.etag
    requires first.etag != Some(GuidText(tag1)) && second.etag != Some(GuidText(tag2))
    modifies h, first, second
    ensures r1 == Success(Some(first.Snapshot())) && r2 == Failure(Conflict)
    ensures h.rows == ReplaceById(old(h.rows), first.Snapshot())
    ensures second.etag == old(second.etag)
  {
    r1 := h.Update(first, tag1);
    ReplacedIsFound(old(h.rows), first.Snapshot());
    r2 := h.Update(second, tag2);
  }
}
