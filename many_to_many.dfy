/**
 * The ordered many-to-many relation table and its sort-order renumbering.
 *
 * A link row relates a First item to a Second item under a relation type.
 * Each side carries a rank: FirstSortOrder orders the links that share a
 * FirstId, SecondSortOrder the links that share a SecondId, both among
 * the links of one TypeId. A scope is therefore (side, that side's Id,
 * TypeId), and the ranks of a scope are meant to be exactly 1..N.
 */
module ManyToMany {
  import opened Wrappers
  import opened Guids

  /** FirstOrSecond: the column-name prefix of a side. */
  function FirstOrSecond(first: bool): (prefix: string)
    ensures first <==> prefix == "First"
    ensures !first <==> prefix == "Second"
  {
    if first then "First" else "Second"
  }

  /** The two sides have different prefixes, so their columns never coincide. */
  lemma FirstOrSecondDistinct(a: bool, b: bool)
    ensures FirstOrSecond(a) == FirstOrSecond(b) <==> a == b
    ensures FirstOrSecond(a) + "SortOrder" == FirstOrSecond(b) + "SortOrder" <==> a == b
  {
    if a != b {
      assert FirstOrSecond(a)[0] != FirstOrSecond(b)[0];
      assert (FirstOrSecond(a) + "SortOrder")[0] != (FirstOrSecond(b) + "SortOrder")[0];
    }
  }

  /** One relation row; a sort order may be null. */
  datatype Link = Link(id: Guid, etag: Option<string>, typeId: Guid, firstId: Guid, secondId: Guid,
                       firstSortOrder: Option<int>, secondSortOrder: Option<int>)

  function SideId(l: Link, first: bool): Guid {
    if first then l.firstId else l.secondId
  }

  function Rank(l: Link, first: bool): Option<int> {
    if first then l.firstSortOrder else l.secondSortOrder
  }

  /** The link with the rank of one side replaced. */
  function WithRank(l: Link, first: bool, r: Option<int>): (m: Link)
    ensures Rank(m, first) == r && Rank(m, !first) == Rank(l, !first)
    ensures m.id == l.id && m.etag == l.etag && m.typeId == l.typeId
    ensures m.firstId == l.firstId && m.secondId == l.secondId
  {
    if first then l.(firstSortOrder := r) else l.(secondSortOrder := r)
  }

  predicate InScope(l: Link, first: bool, id: Guid, typeId: Guid) {
    SideId(l, first) == id && l.typeId == typeId
  }

  /** The rank a link puts into a scope: none when it is outside or its rank is null. */
  function Contribution(l: Link, first: bool, id: Guid, typeId: Guid): multiset<int> {
    if InScope(l, first, id, typeId) && Rank(l, first).Some? then multiset{Rank(l, first).value} else multiset{}
  }

  /** The non-null ranks of a scope, with their multiplicities. */
  function Ranks(rows: seq<Link>, first: bool, id: Guid, typeId: Guid): multiset<int> {
    if rows == [] then multiset{} else Contribution(rows[0], first, id, typeId) + Ranks(rows[1..], first, id, typeId)
  }

  /** The ranks 1..n, each once. */
  function Interval(n: nat): multiset<int> {
    if n == 0 then multiset{} else Interval(n - 1) + multiset{n}
  }

  lemma {:induction false} IntervalCount(n: nat, k: int)
    ensures Interval(n)[k] == if 1 <= k <= n then 1 else 0
  {
    if n > 0 {
      IntervalCount(n - 1, k);
    }
  }

  /** A link of the table in the scope with a non-null rank puts that rank into the scope's ranks. */
  lemma {:induction false} RankInRanks(rows: seq<Link>, x: Link, first: bool, id: Guid, typeId: Guid)
    requires x in rows && InScope(x, first, id, typeId) && Rank(x, first).Some?
    ensures Rank(x, first).value in Ranks(rows, first, id, typeId)
  {
    if rows[0] != x {
      RankInRanks(rows[1..], x, first, id, typeId);
    }
  }

  lemma {:induction false} RanksAppend(rows: seq<Link>, l: Link, first: bool, id: Guid, typeId: Guid)
    ensures Ranks(rows + [l], first, id, typeId) == Ranks(rows, first, id, typeId) + Contribution(l, first, id, typeId)
  {
    if rows == [] {
      assert rows + [l] == [l];
    } else {
      assert (rows + [l])[1..] == rows[1..] + [l];
      RanksAppend(rows[1..], l, first, id, typeId);
    }
  }

  /**
   * `MAX(<side>SortOrder)` over the scope: NULL (None) when the scope has
   * no non-null rank, otherwise its largest rank.
   */
  function MaxRank(rows: seq<Link>, first: bool, id: Guid, typeId: Guid): (m: Option<int>)
    ensures m.None? <==> Ranks(rows, first, id, typeId) == multiset{}
    ensures m.Some? ==> m.value in Ranks(rows, first, id, typeId)
    ensures m.Some? ==> forall k :: k in Ranks(rows, first, id, typeId) ==> k <= m.value
  {
    if rows == [] then None
    else
      var rest := MaxRank(rows[1..], first, id, typeId);
      var x := rows[0];
      if InScope(x, first, id, typeId) && Rank(x, first).Some? then
        if rest.None? || rest.value < Rank(x, first).value then Rank(x, first) else rest
      else rest
  }

  /** On contiguous ranks 1..n the maximum read back (NULL read as 0) is n. */
  lemma ContiguousMax(rows: seq<Link>, first: bool, id: Guid, typeId: Guid, n: nat)
    requires Ranks(rows, first, id, typeId) == Interval(n)
    ensures MaxRank(rows, first, id, typeId).GetOr(0) == n
  {
    var m := MaxRank(rows, first, id, typeId);
    if n == 0 {
      assert Interval(0) == multiset{};
    } else {
      IntervalCount(n, n);
      IntervalCount(n, m.value);
    }
  }

  // ---------------------------------------------------------------------------
  // The range shift

  predicate InRange(k: int, lo: int, hi: Option<int>) {
    lo <= k && (hi.None? || k <= hi.value)
  }

  /** The rows `WHERE [<side>Id] = @Id AND <side>SortOrder >= @FirstValue [AND <= @LastValue] AND TypeId = @TypeId`. */
  predicate Shifts(l: Link, first: bool, id: Guid, typeId: Guid, lo: int, hi: Option<int>) {
    InScope(l, first, id, typeId) && Rank(l, first).Some? && InRange(Rank(l, first).value, lo, hi)
  }

  /**
   * One row under ShiftSortOrder's UPDATE: a selected row gets its rank moved
   * by delta and the ETag NEWID() gives it (`stamp` of its Id); any other row
   * stays as it is.
   */
  function ShiftOne(l: Link, first: bool, id: Guid, typeId: Guid, lo: int, hi: Option<int>, delta: int,
                    stamp: Guid -> string): (m: Link)
    ensures !InScope(l, first, id, typeId) ==> m == l
    ensures m.id == l.id && m.typeId == l.typeId && m.firstId == l.firstId && m.secondId == l.secondId
    ensures Rank(m, !first) == Rank(l, !first)
  {
    if Shifts(l, first, id, typeId, lo, hi) then
      WithRank(l, first, Some(Rank(l, first).value + delta)).(etag := Some(stamp(l.id)))
    else l
  }

  /** ShiftSortOrder's UPDATE over the whole table. */
  function ShiftRows(rows: seq<Link>, first: bool, id: Guid, typeId: Guid, lo: int, hi: Option<int>, delta: int,
                     stamp: Guid -> string): (shifted: seq<Link>)
    ensures |shifted| == |rows|
    ensures forall i :: 0 <= i < |rows| ==> shifted[i] == ShiftOne(rows[i], first, id, typeId, lo, hi, delta, stamp)
  {
    if rows == [] then []
    else [ShiftOne(rows[0], first, id, typeId, lo, hi, delta, stamp)] + ShiftRows(rows[1..], first, id, typeId, lo, hi, delta, stamp)
  }

  lemma ContributionShift(x: Link, first: bool, id: Guid, typeId: Guid, lo: int, hi: Option<int>, delta: int,
                          stamp: Guid -> string, k: int)
    ensures var c, s := Contribution(x, first, id, typeId),
                        Contribution(ShiftOne(x, first, id, typeId, lo, hi, delta, stamp), first, id, typeId);
      s[k] == (if InRange(k, lo, hi) then 0 else c[k]) + (if InRange(k - delta, lo, hi) then c[k - delta] else 0)
  {
  }

  /**
   * The number of times rank k occurs after a shift of lo..hi by delta, in
   * terms of the occurrences before it.
   */
  function ShiftedCount(before: multiset<int>, lo: int, hi: Option<int>, delta: int, k: int): nat {
    (if InRange(k, lo, hi) then 0 else before[k]) + (if InRange(k - delta, lo, hi) then before[k - delta] else 0)
  }

  /**
   * How a shift changes the scope's ranks: a rank k is held afterwards by
   * the rows that held it outside the range, plus those that held k - delta
   * inside it.
   */
  lemma {:induction false} ShiftCount(rows: seq<Link>, first: bool, id: Guid, typeId: Guid, lo: int, hi: Option<int>,
                                      delta: int, stamp: Guid -> string, k: int)
    ensures var before, after := Ranks(rows, first, id, typeId),
                                 Ranks(ShiftRows(rows, first, id, typeId, lo, hi, delta, stamp), first, id, typeId);
      after[k] == ShiftedCount(before, lo, hi, delta, k)
  {
    if rows != [] {
      var shifted := ShiftRows(rows, first, id, typeId, lo, hi, delta, stamp);
      assert shifted[1..] == ShiftRows(rows[1..], first, id, typeId, lo, hi, delta, stamp);
      ShiftCount(rows[1..], first, id, typeId, lo, hi, delta, stamp, k);
      ContributionShift(rows[0], first, id, typeId, lo, hi, delta, stamp, k);
    }
  }

  /** ShiftCount for every rank at once. */
  lemma ShiftCountAll(rows: seq<Link>, first: bool, id: Guid, typeId: Guid, lo: int, hi: Option<int>,
                      delta: int, stamp: Guid -> string, before: multiset<int>, after: multiset<int>)
    requires before == Ranks(rows, first, id, typeId)
    requires after == Ranks(ShiftRows(rows, first, id, typeId, lo, hi, delta, stamp), first, id, typeId)
    ensures forall k :: after[k] == ShiftedCount(before, lo, hi, delta, k)
  {
    forall k ensures after[k] == ShiftedCount(before, lo, hi, delta, k) {
      ShiftCount(rows, first, id, typeId, lo, hi, delta, stamp, k);
    }
  }

  /** A shift in one scope leaves the ranks of every other scope, on either side, as they were. */
  lemma {:induction false} ShiftOtherScope(rows: seq<Link>, first: bool, id: Guid, typeId: Guid, lo: int, hi: Option<int>,
                                           delta: int, stamp: Guid -> string, first': bool, id': Guid, typeId': Guid)
    requires first' != first || id' != id || typeId' != typeId
    ensures Ranks(ShiftRows(rows, first, id, typeId, lo, hi, delta, stamp), first', id', typeId')
         == Ranks(rows, first', id', typeId')
  {
    if rows != [] {
      var shifted := ShiftRows(rows, first, id, typeId, lo, hi, delta, stamp);
      assert shifted[1..] == ShiftRows(rows[1..], first, id, typeId, lo, hi, delta, stamp);
      ShiftOtherScope(rows[1..], first, id, typeId, lo, hi, delta, stamp, first', id', typeId');
    }
  }

  /** When every rank of the scope lies below lo, an open-ended shift from lo changes no row. */
  lemma {:induction false} ShiftNoneAbove(rows: seq<Link>, first: bool, id: Guid, typeId: Guid, lo: int, delta: int,
                                          stamp: Guid -> string)
    requires forall k :: k in Ranks(rows, first, id, typeId) ==> k < lo
    ensures ShiftRows(rows, first, id, typeId, lo, None, delta, stamp) == rows
  {
    if rows != [] {
      var rest := Ranks(rows[1..], first, id, typeId);
      assert forall k :: k in rest ==> k in Ranks(rows, first, id, typeId);
      ShiftNoneAbove(rows[1..], first, id, typeId, lo, delta, stamp);
      assert !Shifts(rows[0], first, id, typeId, lo, None) by {
        if InScope(rows[0], first, id, typeId) && Rank(rows[0], first).Some? {
          assert Rank(rows[0], first).value in Ranks(rows, first, id, typeId);
        }
      }
      assert rows == [rows[0]] + rows[1..];
    }
  }

  // ---------------------------------------------------------------------------
  // Link identity

  function LinkIds(rows: seq<Link>): set<Guid> {
    if rows == [] then {} else {rows[0].id} + LinkIds(rows[1..])
  }

  /** The primary key of the relation table: no Id occurs twice. */
  predicate UniqueLinks(rows: seq<Link>) {
    rows == [] || (rows[0].id !in LinkIds(rows[1..]) && UniqueLinks(rows[1..]))
  }

  lemma {:induction false} InLinkIds(rows: seq<Link>, x: Link)
    requires x in rows
    ensures x.id in LinkIds(rows)
  {
    if rows[0] != x {
      InLinkIds(rows[1..], x);
    }
  }

  /** The first row with the given link Id. */
  function FindLink(rows: seq<Link>, linkId: Guid): (found: Option<Link>)
    ensures found.None? <==> linkId !in LinkIds(rows)
    ensures found.Some? ==> found.value in rows && found.value.id == linkId
  {
    if rows == [] then None else if rows[0].id == linkId then Some(rows[0]) else FindLink(rows[1..], linkId)
  }

  lemma {:induction false} ShiftKeepsLinks(rows: seq<Link>, first: bool, id: Guid, typeId: Guid, lo: int, hi: Option<int>,
                                           delta: int, stamp: Guid -> string)
    ensures LinkIds(ShiftRows(rows, first, id, typeId, lo, hi, delta, stamp)) == LinkIds(rows)
    ensures UniqueLinks(rows) ==> UniqueLinks(ShiftRows(rows, first, id, typeId, lo, hi, delta, stamp))
  {
    if rows != [] {
      var shifted := ShiftRows(rows, first, id, typeId, lo, hi, delta, stamp);
      assert shifted[1..] == ShiftRows(rows[1..], first, id, typeId, lo, hi, delta, stamp);
      ShiftKeepsLinks(rows[1..], first, id, typeId, lo, hi, delta, stamp);
    }
  }

  lemma {:induction false} ShiftFindsLink(rows: seq<Link>, first: bool, id: Guid, typeId: Guid, lo: int, hi: Option<int>,
                                          delta: int, stamp: Guid -> string, linkId: Guid)
    ensures FindLink(ShiftRows(rows, first, id, typeId, lo, hi, delta, stamp), linkId)
         == if FindLink(rows, linkId).None? then None
            else Some(ShiftOne(FindLink(rows, linkId).value, first, id, typeId, lo, hi, delta, stamp))
  {
    if rows != [] {
      var shifted := ShiftRows(rows, first, id, typeId, lo, hi, delta, stamp);
      assert shifted[1..] == ShiftRows(rows[1..], first, id, typeId, lo, hi, delta, stamp);
      ShiftFindsLink(rows[1..], first, id, typeId, lo, hi, delta, stamp, linkId);
    }
  }

  /** The table after writing rank v on one side of the link with Id linkId. */
  function SetRank(rows: seq<Link>, linkId: Guid, first: bool, v: int): (written: seq<Link>)
    ensures |written| == |rows| && LinkIds(written) == LinkIds(rows)
    ensures forall i :: 0 <= i < |rows| ==>
      written[i] == if rows[i].id == linkId then WithRank(rows[i], first, Some(v)) else rows[i]
  {
    if rows == [] then []
    else [if rows[0].id == linkId then WithRank(rows[0], first, Some(v)) else rows[0]] + SetRank(rows[1..], linkId, first, v)
  }

  lemma {:induction false} SetRankKeepsUnique(rows: seq<Link>, linkId: Guid, first: bool, v: int)
    ensures UniqueLinks(rows) ==> UniqueLinks(SetRank(rows, linkId, first, v))
  {
    if rows != [] {
      assert SetRank(rows, linkId, first, v)[1..] == SetRank(rows[1..], linkId, first, v);
      SetRankKeepsUnique(rows[1..], linkId, first, v);
    }
  }

  lemma {:induction false} SetRankAbsent(rows: seq<Link>, linkId: Guid, first: bool, v: int)
    requires linkId !in LinkIds(rows)
    ensures SetRank(rows, linkId, first, v) == rows
  {
    if rows != [] {
      SetRankAbsent(rows[1..], linkId, first, v);
    }
  }

  /** Writing rank v over rank r of one link in the scope trades one r for one v among the scope's ranks. */
  lemma {:induction false} SetRankCount(rows: seq<Link>, linkId: Guid, first: bool, id: Guid, typeId: Guid, r: int, v: int)
    requires UniqueLinks(rows)
    requires FindLink(rows, linkId).Some?
    requires InScope(FindLink(rows, linkId).value, first, id, typeId) && Rank(FindLink(rows, linkId).value, first) == Some(r)
    ensures Ranks(SetRank(rows, linkId, first, v), first, id, typeId) + multiset{r}
         == Ranks(rows, first, id, typeId) + multiset{v}
  {
    var written, tail := SetRank(rows, linkId, first, v), SetRank(rows[1..], linkId, first, v);
    var head, before, after := Contribution(rows[0], first, id, typeId), Ranks(rows[1..], first, id, typeId),
                               Ranks(tail, first, id, typeId);
    assert written[1..] == tail;
    var head' := Contribution(written[0], first, id, typeId);
    assert Ranks(written, first, id, typeId) == head' + after;
    assert Ranks(rows, first, id, typeId) == head + before;
    if rows[0].id == linkId {
      SetRankAbsent(rows[1..], linkId, first, v);
      assert after == before;
      assert head' == multiset{v};
      assert head == multiset{r};
    } else {
      assert written[0] == rows[0];
      SetRankCount(rows[1..], linkId, first, id, typeId, r, v);
      MultisetShift(head, after, before, r, v);
    }
  }

  lemma MultisetShift(h: multiset<int>, a: multiset<int>, b: multiset<int>, r: int, v: int)
    requires a + multiset{r} == b + multiset{v}
    ensures h + a + multiset{r} == h + b + multiset{v}
  {
    assert h + a + multiset{r} == h + (a + multiset{r});
  }

  /** Writing a rank keeps the primary key, and the link is found again with its new rank. */
  lemma {:induction false} SetRankKeepsLinks(rows: seq<Link>, linkId: Guid, first: bool, v: int)
    requires UniqueLinks(rows) && FindLink(rows, linkId).Some?
    ensures UniqueLinks(SetRank(rows, linkId, first, v))
    ensures FindLink(SetRank(rows, linkId, first, v), linkId) == Some(WithRank(FindLink(rows, linkId).value, first, Some(v)))
  {
    var written := SetRank(rows, linkId, first, v);
    assert written[1..] == SetRank(rows[1..], linkId, first, v);
    if rows[0].id == linkId {
      SetRankAbsent(rows[1..], linkId, first, v);
    } else {
      SetRankKeepsLinks(rows[1..], linkId, first, v);
    }
  }

  /** The link that a shift selects is found afterwards with its rank moved by delta. */
  lemma ShiftedLink(rows: seq<Link>, first: bool, id: Guid, typeId: Guid, lo: int, hi: Option<int>,
                    delta: int, stamp: Guid -> string, linkId: Guid)
    requires FindLink(rows, linkId).Some? && Shifts(FindLink(rows, linkId).value, first, id, typeId, lo, hi)
    ensures var x, y := FindLink(rows, linkId).value, FindLink(ShiftRows(rows, first, id, typeId, lo, hi, delta, stamp), linkId);
      && y.Some? && InScope(y.value, first, id, typeId)
      && Rank(y.value, first) == Some(Rank(x, first).value + delta)
      && y.value.etag == Some(stamp(linkId))
  {
    ShiftFindsLink(rows, first, id, typeId, lo, hi, delta, stamp, linkId);
  }

  /**
   * Shifting a range that holds the link's rank c and then writing t over it:
   * the scope trades the link's shifted rank m = c + delta for t.
   */
  lemma ShiftThenSetRank(rows: seq<Link>, first: bool, id: Guid, typeId: Guid, lo: int, hi: Option<int>,
                         delta: int, stamp: Guid -> string, linkId: Guid, c: int, m: int, t: int)
    requires m == c + delta
    requires UniqueLinks(rows) && FindLink(rows, linkId).Some?
    requires InScope(FindLink(rows, linkId).value, first, id, typeId) && Rank(FindLink(rows, linkId).value, first) == Some(c)
    requires InRange(c, lo, hi)
    ensures var shifted := ShiftRows(rows, first, id, typeId, lo, hi, delta, stamp);
      Ranks(SetRank(shifted, linkId, first, t), first, id, typeId) + multiset{m}
      == Ranks(shifted, first, id, typeId) + multiset{t}
  {
    var shifted := ShiftRows(rows, first, id, typeId, lo, hi, delta, stamp);
    ShiftKeepsLinks(rows, first, id, typeId, lo, hi, delta, stamp);
    ShiftedLink(rows, first, id, typeId, lo, hi, delta, stamp, linkId);
    SetRankCount(shifted, linkId, first, id, typeId, m, t);
  }

  // ---------------------------------------------------------------------------
  // Contiguity of ranks

  /**
   * Inserting at rank r of a scope with ranks 1..n, where 1 <= r <= n + 1:
   * the shift from r up, plus the new link at r, gives exactly 1..n + 1.
   */
  lemma InsertKeepsContiguity(rows: seq<Link>, first: bool, id: Guid, typeId: Guid, n: nat, r: int, stamp: Guid -> string)
    requires Ranks(rows, first, id, typeId) == Interval(n) && 1 <= r <= n + 1
    ensures Ranks(ShiftRows(rows, first, id, typeId, r, None, 1, stamp), first, id, typeId) + multiset{r} == Interval(n + 1)
  {
    var before := Ranks(rows, first, id, typeId);
    var after := Ranks(ShiftRows(rows, first, id, typeId, r, None, 1, stamp), first, id, typeId);
    ShiftCountAll(rows, first, id, typeId, r, None, 1, stamp, before, after);
    InsertCount(before, after, n, r);
  }

  /** The counting behind an insertion: shifting r.. up by one within 1..n frees exactly r. */
  lemma InsertCount(before: multiset<int>, after: multiset<int>, n: nat, r: int)
    requires before == Interval(n) && 1 <= r <= n + 1
    requires forall k :: after[k] == ShiftedCount(before, r, None, 1, k)
    ensures after + multiset{r} == Interval(n + 1)
  {
    forall k ensures (after + multiset{r})[k] == Interval(n + 1)[k] {
      assert after[k] == ShiftedCount(before, r, None, 1, k);
      IntervalCount(n, k);
      IntervalCount(n, k - 1);
      IntervalCount(n + 1, k);
    }
  }

  /**
   * A rank beyond n + 1 is not clamped to n + 1: nothing shifts and the scope
   * ends up with a gap.
   */
  lemma InsertBeyondEndLeavesGap(rows: seq<Link>, first: bool, id: Guid, typeId: Guid, n: nat, r: int, stamp: Guid -> string)
    requires Ranks(rows, first, id, typeId) == Interval(n) && r > n + 1
    ensures ShiftRows(rows, first, id, typeId, r, None, 1, stamp) == rows
    ensures Ranks(rows, first, id, typeId) + multiset{r} != Interval(n + 1)
  {
    forall k | k in Ranks(rows, first, id, typeId) ensures k < r {
      IntervalCount(n, k);
    }
    ShiftNoneAbove(rows, first, id, typeId, r, 1, stamp);
    IntervalCount(n, r);
    IntervalCount(n + 1, r);
  }

  /**
   * The counting behind both moves: shifting lo..hi by delta within 1..n and
   * then trading the moved link's shifted rank m for t gives 1..n back.
   */
  lemma MoveCount(before: multiset<int>, mid: multiset<int>, final: multiset<int>, n: nat,
                  lo: int, hi: int, delta: int, m: int, t: int)
    requires before == Interval(n) && 1 <= lo <= hi <= n
    requires (delta == -1 && m == lo - 1 && t == hi) || (delta == 1 && m == hi + 1 && t == lo)
    requires forall k :: mid[k] == ShiftedCount(before, lo, Some(hi), delta, k)
    requires final + multiset{m} == mid + multiset{t}
    ensures final == Interval(n)
  {
    forall k ensures final[k] == Interval(n)[k] {
      MoveCountAt(final, mid, n, lo, hi, delta, m, t, k);
    }
  }

  /** MoveCount at one rank k. */
  lemma MoveCountAt(final: multiset<int>, mid: multiset<int>, n: nat, lo: int, hi: int, delta: int, m: int, t: int, k: int)
    requires 1 <= lo <= hi <= n
    requires (delta == -1 && m == lo - 1 && t == hi) || (delta == 1 && m == hi + 1 && t == lo)
    requires mid[k] == ShiftedCount(Interval(n), lo, Some(hi), delta, k)
    requires (final + multiset{m})[k] == (mid + multiset{t})[k]
    ensures final[k] == Interval(n)[k]
  {
    IntervalCount(n, k);
    IntervalCount(n, k - delta);
    MoveCountOnCounts(n, lo, hi, delta, m, t, k, final[k], mid[k], Interval(n)[k], Interval(n)[k - delta]);
  }

  /** MoveCount at one rank k, on the counts alone. */
  lemma MoveCountOnCounts(n: nat, lo: int, hi: int, delta: int, m: int, t: int, k: int, f: int, md: int, b: int, b': int)
    requires 1 <= lo <= hi <= n
    requires (delta == -1 && m == lo - 1 && t == hi) || (delta == 1 && m == hi + 1 && t == lo)
    requires b == (if 1 <= k <= n then 1 else 0) && b' == (if 1 <= k - delta <= n then 1 else 0)
    requires md == (if lo <= k <= hi then 0 else b) + (if lo <= k - delta <= hi then b' else 0)
    requires f + (if k == m then 1 else 0) == md + (if k == t then 1 else 0)
    ensures f == if 1 <= k <= n then 1 else 0
  {
  }

  /** MoveCount applied to the shift of a scope holding 1..n. */
  lemma ShiftMoveCount(rows: seq<Link>, first: bool, id: Guid, typeId: Guid, lo: int, hi: int, delta: int,
                       stamp: Guid -> string, n: nat, mid: multiset<int>, final: multiset<int>, m: int, t: int)
    requires Ranks(rows, first, id, typeId) == Interval(n) && 1 <= lo <= hi <= n
    requires (delta == -1 && m == lo - 1 && t == hi) || (delta == 1 && m == hi + 1 && t == lo)
    requires mid == Ranks(ShiftRows(rows, first, id, typeId, lo, Some(hi), delta, stamp), first, id, typeId)
    requires final + multiset{m} == mid + multiset{t}
    ensures final == Interval(n)
  {
    var before := Ranks(rows, first, id, typeId);
    ShiftCountAll(rows, first, id, typeId, lo, Some(hi), delta, stamp, before, mid);
    MoveCount(before, mid, final, n, lo, hi, delta, m, t);
  }

  /** A move from c down to a larger t: the ranks c..t move left by one, then the moved link takes t. */
  lemma MoveRightKeepsContiguity(rows: seq<Link>, first: bool, id: Guid, typeId: Guid, n: nat, linkId: Guid,
                                 c: int, t: int, stamp: Guid -> string)
    requires UniqueLinks(rows) && Ranks(rows, first, id, typeId) == Interval(n)
    requires FindLink(rows, linkId).Some?
    requires InScope(FindLink(rows, linkId).value, first, id, typeId) && Rank(FindLink(rows, linkId).value, first) == Some(c)
    requires 1 <= c < t <= n
    ensures Ranks(SetRank(ShiftRows(rows, first, id, typeId, c, Some(t), -1, stamp), linkId, first, t), first, id, typeId)
         == Interval(n)
  {
    var shifted := ShiftRows(rows, first, id, typeId, c, Some(t), -1, stamp);
    var mid := Ranks(shifted, first, id, typeId);
    var final := Ranks(SetRank(shifted, linkId, first, t), first, id, typeId);
    var m := c - 1;
    ShiftThenSetRank(rows, first, id, typeId, c, Some(t), -1, stamp, linkId, c, m, t);
    assert final + multiset{m} == mid + multiset{t};
    ShiftMoveCount(rows, first, id, typeId, c, t, -1, stamp, n, mid, final, m, t);
  }

  /** A move from c up to a smaller t: the ranks t..c move right by one, then the moved link takes t. */
  lemma MoveLeftKeepsContiguity(rows: seq<Link>, first: bool, id: Guid, typeId: Guid, n: nat, linkId: Guid,
                                c: int, t: int, stamp: Guid -> string)
    requires UniqueLinks(rows) && Ranks(rows, first, id, typeId) == Interval(n)
    requires FindLink(rows, linkId).Some?
    requires InScope(FindLink(rows, linkId).value, first, id, typeId) && Rank(FindLink(rows, linkId).value, first) == Some(c)
    requires 1 <= t < c <= n
    ensures Ranks(SetRank(ShiftRows(rows, first, id, typeId, t, Some(c), 1, stamp), linkId, first, t), first, id, typeId)
         == Interval(n)
  {
    var shifted := ShiftRows(rows, first, id, typeId, t, Some(c), 1, stamp);
    var mid := Ranks(shifted, first, id, typeId);
    var final := Ranks(SetRank(shifted, linkId, first, t), first, id, typeId);
    var m := c + 1;
    ShiftThenSetRank(rows, first, id, typeId, t, Some(c), 1, stamp, linkId, c, m, t);
    assert final + multiset{m} == mid + multiset{t};
    ShiftMoveCount(rows, first, id, typeId, t, c, 1, stamp, n, mid, final, m, t);
  }

  // ---------------------------------------------------------------------------
  // MakeRoomForSortOrder

  /**
   * The rank MakeRoomForSortOrder returns: the requested rank, or for a null
   * request one past the scope's maximum (NULL read as 0) when inserting and
   * the maximum itself when moving.
   */
  function Target(rows: seq<Link>, first: bool, id: Guid, typeId: Guid, newValue: Option<int>,
                  currentValue: Option<int>): (t: int)
    ensures newValue.Some? ==> t == newValue.value
    ensures newValue.None? && currentValue.None? ==> t == MaxRank(rows, first, id, typeId).GetOr(0) + 1
    ensures newValue.None? && currentValue.Some? ==> t == MaxRank(rows, first, id, typeId).GetOr(0)
  {
    var next := 1 + MaxRank(rows, first, id, typeId).GetOr(0);
    var v := newValue.GetOr(next);
    if currentValue.Some? && newValue.None? then v - 1 else v
  }

  /**
   * The table after MakeRoomForSortOrder: an insertion (no current rank)
   * shifts the target and everything above it up by one; a move from c
   * shifts c..t down by one when t > c, t..c up by one when t < c, and
   * nothing when t = c.
   */
  function Room(rows: seq<Link>, first: bool, id: Guid, typeId: Guid, newValue: Option<int>,
                currentValue: Option<int>, stamp: Guid -> string): (room: seq<Link>)
    ensures |room| == |rows| && LinkIds(room) == LinkIds(rows)
    ensures UniqueLinks(rows) ==> UniqueLinks(room)
    ensures forall i :: 0 <= i < |rows| && !InScope(rows[i], first, id, typeId) ==> room[i] == rows[i]
    ensures forall i :: 0 <= i < |rows| ==>
      && room[i].id == rows[i].id && room[i].typeId == rows[i].typeId
      && room[i].firstId == rows[i].firstId && room[i].secondId == rows[i].secondId
      && Rank(room[i], !first) == Rank(rows[i], !first)
    ensures newValue.None? && currentValue.None? ==> room == rows
    ensures currentValue.Some? && Target(rows, first, id, typeId, newValue, currentValue) == currentValue.value ==> room == rows
  {
    var t := Target(rows, first, id, typeId, newValue, currentValue);
    var lo, hi, delta :=
      if currentValue.None? then t else if t > currentValue.value then currentValue.value else t,
      if currentValue.None? then None else if t > currentValue.value then Some(t) else currentValue,
      if currentValue.Some? && t > currentValue.value then -1 else 1;
    if currentValue.Some? && t == currentValue.value then rows
    else
      ShiftKeepsLinks(rows, first, id, typeId, lo, hi, delta, stamp);
      if newValue.None? && currentValue.None? then
        ShiftNoneAbove(rows, first, id, typeId, lo, delta, stamp);
        ShiftRows(rows, first, id, typeId, lo, hi, delta, stamp)
      else
        ShiftRows(rows, first, id, typeId, lo, hi, delta, stamp)
  }

  /**
   * Insertion into a scope holding 1..n at a requested rank in 1..n + 1, or
   * at the null rank (read as n + 1): the returned rank plus the scope after
   * the shift is exactly 1..n + 1.
   */
  lemma InsertRoomKeepsContiguity(rows: seq<Link>, first: bool, id: Guid, typeId: Guid, n: nat,
                                  newValue: Option<int>, stamp: Guid -> string)
    requires Ranks(rows, first, id, typeId) == Interval(n)
    requires newValue.None? || 1 <= newValue.value <= n + 1
    ensures Target(rows, first, id, typeId, newValue, None) == newValue.GetOr(n + 1)
    ensures Ranks(Room(rows, first, id, typeId, newValue, None, stamp), first, id, typeId) + multiset{newValue.GetOr(n + 1)}
         == Interval(n + 1)
  {
    ContiguousMax(rows, first, id, typeId, n);
    InsertKeepsContiguity(rows, first, id, typeId, n, newValue.GetOr(n + 1), stamp);
  }

  /**
   * A move of one link of a scope holding 1..n, to a requested rank in 1..n
   * or to the null rank (read as n, the last place): once the room is made
   * and the link's rank written, the scope holds exactly 1..n again.
   */
  lemma MoveKeepsContiguity(rows: seq<Link>, first: bool, id: Guid, typeId: Guid, n: nat, linkId: Guid,
                            newValue: Option<int>, stamp: Guid -> string)
    requires UniqueLinks(rows) && Ranks(rows, first, id, typeId) == Interval(n)
    requires FindLink(rows, linkId).Some?
    requires InScope(FindLink(rows, linkId).value, first, id, typeId) && Rank(FindLink(rows, linkId).value, first).Some?
    requires newValue.None? || 1 <= newValue.value <= n
    ensures var c := Rank(FindLink(rows, linkId).value, first);
            var t := Target(rows, first, id, typeId, newValue, c);
      && 1 <= t <= n && (newValue.None? ==> t == n)
      && Ranks(SetRank(Room(rows, first, id, typeId, newValue, c, stamp), linkId, first, t), first, id, typeId) == Interval(n)
  {
    var x := FindLink(rows, linkId).value;
    var c := Rank(x, first).value;
    var t := Target(rows, first, id, typeId, newValue, Some(c));
    MoveTargetInRange(rows, first, id, typeId, n, x, newValue);
    var room := Room(rows, first, id, typeId, newValue, Some(c), stamp);
    var final := Ranks(SetRank(room, linkId, first, t), first, id, typeId);
    if t == c {
      assert room == rows;
      SetRankCount(rows, linkId, first, id, typeId, c, c);
      assert final + multiset{c} == Interval(n) + multiset{c};
      MultisetCancel(final, Interval(n), c);
    } else if t > c {
      assert room == ShiftRows(rows, first, id, typeId, c, Some(t), -1, stamp);
      MoveRightKeepsContiguity(rows, first, id, typeId, n, linkId, c, t, stamp);
    } else {
      assert room == ShiftRows(rows, first, id, typeId, t, Some(c), 1, stamp);
      MoveLeftKeepsContiguity(rows, first, id, typeId, n, linkId, c, t, stamp);
    }
  }

  lemma MultisetCancel(a: multiset<int>, b: multiset<int>, c: int)
    requires a + multiset{c} == b + multiset{c}
    ensures a == b
  {
    assert a == (a + multiset{c}) - multiset{c};
  }

  /** The current rank of a link of a scope holding 1..n lies in 1..n, and so does its move target. */
  lemma MoveTargetInRange(rows: seq<Link>, first: bool, id: Guid, typeId: Guid, n: nat, x: Link, newValue: Option<int>)
    requires Ranks(rows, first, id, typeId) == Interval(n)
    requires x in rows && InScope(x, first, id, typeId) && Rank(x, first).Some?
    requires newValue.None? || 1 <= newValue.value <= n
    ensures 1 <= Rank(x, first).value <= n
    ensures var t := Target(rows, first, id, typeId, newValue, Rank(x, first));
      1 <= t <= n && (newValue.None? ==> t == n)
  {
    RankInRanks(rows, x, first, id, typeId);
    IntervalCount(n, Rank(x, first).value);
    ContiguousMax(rows, first, id, typeId, n);
  }

  // ---------------------------------------------------------------------------
  // Writing links back

  /** Every row with the given Id gets the given ETag; nothing else changes. */
  function Restamp(rows: seq<Link>, linkId: Guid, etag: Option<string>): (stamped: seq<Link>)
    ensures |stamped| == |rows| && LinkIds(stamped) == LinkIds(rows)
    ensures UniqueLinks(rows) ==> UniqueLinks(stamped)
    ensures forall i :: 0 <= i < |rows| ==> stamped[i] == if rows[i].id == linkId then rows[i].(etag := etag) else rows[i]
  {
    if rows == [] then []
    else [if rows[0].id == linkId then rows[0].(etag := etag) else rows[0]] + Restamp(rows[1..], linkId, etag)
  }

  /** An ETag is not part of any rank, so restamping keeps the ranks of every scope. */
  lemma {:induction false} RestampKeepsRanks(rows: seq<Link>, linkId: Guid, etag: Option<string>,
                                             first: bool, id: Guid, typeId: Guid)
    ensures Ranks(Restamp(rows, linkId, etag), first, id, typeId) == Ranks(rows, first, id, typeId)
  {
    if rows != [] {
      assert Restamp(rows, linkId, etag)[1..] == Restamp(rows[1..], linkId, etag);
      RestampKeepsRanks(rows[1..], linkId, etag, first, id, typeId);
    }
  }

  /** Every row with the link's Id replaced by the link. */
  function ReplaceLink(rows: seq<Link>, l: Link): (replaced: seq<Link>)
    ensures |replaced| == |rows|
    ensures forall i :: 0 <= i < |rows| ==> replaced[i] == if rows[i].id == l.id then l else rows[i]
  {
    if rows == [] then [] else [if rows[0].id == l.id then l else rows[0]] + ReplaceLink(rows[1..], l)
  }

  /**
   * The base class's Update on a link: NotFound when no row has its Id,
   * Conflict when the stored ETag is not the link's, otherwise the row
   * replaced by the link carrying the new ETag.
   */
  function UpdateLink(rows: seq<Link>, item: Link, newEtag: string): (r: Result<seq<Link>>)
    ensures r.Failure? <==> FindLink(rows, item.id).None? || FindLink(rows, item.id).value.etag != item.etag
    ensures FindLink(rows, item.id).None? ==> r == Failure(NotFound)
    ensures FindLink(rows, item.id).Some? && FindLink(rows, item.id).value.etag != item.etag ==> r == Failure(Conflict)
    ensures r.Success? ==> r.value == ReplaceLink(rows, item.(etag := Some(newEtag)))
    ensures r.Success? ==> FindLink(r.value, item.id) == Some(item.(etag := Some(newEtag)))
  {
    var current := FindLink(rows, item.id);
    if current.None? then Failure(NotFound)
    else if current.value.etag != item.etag then Failure(Conflict)
    else
      ReplaceLinkFinds(rows, item.(etag := Some(newEtag)));
      Success(ReplaceLink(rows, item.(etag := Some(newEtag))))
  }

  /** After the write, the link is found by its Id as written. */
  lemma {:induction false} ReplaceLinkFinds(rows: seq<Link>, l: Link)
    requires l.id in LinkIds(rows)
    ensures FindLink(ReplaceLink(rows, l), l.id) == Some(l)
  {
    if rows[0].id != l.id {
      assert ReplaceLink(rows, l)[1..] == ReplaceLink(rows[1..], l);
      assert rows == [rows[0]] + rows[1..];
      assert l.id in LinkIds(rows[1..]);
      ReplaceLinkFinds(rows[1..], l);
    }
  }

  /**
   * A move as written: make room, then hand the link as it was read, with its
   * new rank, to the optimistic Update.
   */
  function MoveAsWritten(rows: seq<Link>, first: bool, typeId: Guid, x: Link, newValue: Option<int>,
                         stamp: Guid -> string, newEtag: string): (r: Result<seq<Link>>)
    ensures r.Failure? ==> r.error == NotFound || r.error == Conflict
    ensures r.Success? ==> FindLink(r.value, x.id).Some? && FindLink(r.value, x.id).value.etag == Some(newEtag)
  {
    var t := Target(rows, first, SideId(x, first), typeId, newValue, Rank(x, first));
    var room := Room(rows, first, SideId(x, first), typeId, newValue, Rank(x, first), stamp);
    UpdateLink(room, WithRank(x, first, Some(t)), newEtag)
  }

  /**
   * Every move that shifts anything includes the moved link's own row in the
   * shifted range, so the shift gives that row a new ETag and the Update of
   * the link as it was read is refused with Conflict.
   */
  lemma MoveAsWrittenConflicts(rows: seq<Link>, first: bool, typeId: Guid, x: Link, newValue: Option<int>,
                               stamp: Guid -> string, newEtag: string)
    requires FindLink(rows, x.id) == Some(x) && x.typeId == typeId && Rank(x, first).Some?
    requires Target(rows, first, SideId(x, first), typeId, newValue, Rank(x, first)) != Rank(x, first).value
    requires x.etag != Some(stamp(x.id))
    ensures MoveAsWritten(rows, first, typeId, x, newValue, stamp, newEtag) == Failure(Conflict)
  {
    var id, c := SideId(x, first), Rank(x, first).value;
    var t := Target(rows, first, id, typeId, newValue, Rank(x, first));
    var room := Room(rows, first, id, typeId, newValue, Rank(x, first), stamp);
    if t > c {
      assert room == ShiftRows(rows, first, id, typeId, c, Some(t), -1, stamp);
      ShiftedLink(rows, first, id, typeId, c, Some(t), -1, stamp, x.id);
    } else {
      assert room == ShiftRows(rows, first, id, typeId, t, Some(c), 1, stamp);
      ShiftedLink(rows, first, id, typeId, t, Some(c), 1, stamp, x.id);
    }
    assert FindLink(room, x.id).value.etag != WithRank(x, first, Some(t)).etag;
  }

  /** The base class's Create: a fresh Id when the link has none, and always a fresh ETag. */
  function Stored(item: Link, newId: Guid, newTag: Guid): (stored: Link)
    requires newId != EmptyGuid
    ensures stored.id != EmptyGuid && stored.etag == Some(GuidText(newTag))
    ensures item.id != EmptyGuid ==> stored.id == item.id
    ensures stored.(id := item.id, etag := item.etag) == item
  {
    item.(id := if item.id == EmptyGuid then newId else item.id, etag := Some(GuidText(newTag)))
  }

  lemma {:induction false} LinkIdsAppend(rows: seq<Link>, l: Link)
    ensures LinkIds(rows + [l]) == LinkIds(rows) + {l.id}
    ensures UniqueLinks(rows) && l.id !in LinkIds(rows) ==> UniqueLinks(rows + [l])
  {
    if rows == [] {
      assert rows + [l] == [l];
    } else {
      assert (rows + [l])[1..] == rows[1..] + [l];
      LinkIdsAppend(rows[1..], l);
    }
  }

  /** The insert of the stored link; a second row with the same Id fails the primary key. */
  function Persist(rows: seq<Link>, item: Link, newId: Guid, newTag: Guid): (out: (seq<Link>, Result<Link>))
    requires newId != EmptyGuid
    ensures out.1.Failure? <==> Stored(item, newId, newTag).id in LinkIds(rows)
    ensures out.1.Failure? ==> out == (rows, Failure(ExecutionFailed))
    ensures out.1.Success? ==> out == (rows + [Stored(item, newId, newTag)], Success(Stored(item, newId, newTag)))
    ensures UniqueLinks(rows) ==> UniqueLinks(out.0)
  {
    var stored := Stored(item, newId, newTag);
    LinkIdsAppend(rows, stored);
    if stored.id in LinkIds(rows) then (rows, Failure(ExecutionFailed)) else (rows + [stored], Success(stored))
  }

  // ---------------------------------------------------------------------------
  // Placing a new link

  /**
   * The room made for a new link and the link with its two ranks: first on
   * the First side of its FirstId, then on side `secondSide` of its SecondId,
   * each MakeRoomForSortOrder call seeing the table the previous one left.
   * Create passes `true` for the second call; the evident intent, and what
   * UpdateSortOrder passes, is `false`.
   */
  function Placed(rows: seq<Link>, item: Link, typeId: Guid, secondSide: bool, stamp: Guid -> string)
    : (out: (seq<Link>, Link))
    ensures LinkIds(out.0) == LinkIds(rows) && (UniqueLinks(rows) ==> UniqueLinks(out.0))
    ensures out.1 == item.(firstSortOrder := out.1.firstSortOrder, secondSortOrder := out.1.secondSortOrder)
    ensures out.1.firstSortOrder == Some(Target(rows, true, item.firstId, typeId, item.firstSortOrder, None))
  {
    var first := Target(rows, true, item.firstId, typeId, item.firstSortOrder, None);
    var rows1 := Room(rows, true, item.firstId, typeId, item.firstSortOrder, None, stamp);
    var second := Target(rows1, secondSide, item.secondId, typeId, item.secondSortOrder, None);
    var rows2 := Room(rows1, secondSide, item.secondId, typeId, item.secondSortOrder, None, stamp);
    (rows2, item.(firstSortOrder := Some(first), secondSortOrder := Some(second)))
  }

  /**
   * Creating a link of the handler's type where its First scope holds 1..n1
   * and its Second scope 1..n2, each requested rank null or at most one past
   * the end: with the second room made on the Second side, afterwards the
   * First scope holds exactly 1..n1 + 1 and the Second scope 1..n2 + 1.
   */
  lemma CreateKeepsContiguity(rows: seq<Link>, item: Link, typeId: Guid, n1: nat, n2: nat, stamp: Guid -> string)
    requires item.typeId == typeId
    requires Ranks(rows, true, item.firstId, typeId) == Interval(n1)
    requires Ranks(rows, false, item.secondId, typeId) == Interval(n2)
    requires item.firstSortOrder.None? || 1 <= item.firstSortOrder.value <= n1 + 1
    requires item.secondSortOrder.None? || 1 <= item.secondSortOrder.value <= n2 + 1
    ensures var placed := Placed(rows, item, typeId, false, stamp);
      && placed.1.firstSortOrder == Some(item.firstSortOrder.GetOr(n1 + 1))
      && placed.1.secondSortOrder == Some(item.secondSortOrder.GetOr(n2 + 1))
      && Ranks(placed.0 + [placed.1], true, item.firstId, typeId) == Interval(n1 + 1)
      && Ranks(placed.0 + [placed.1], false, item.secondId, typeId) == Interval(n2 + 1)
  {
    var a, b := item.firstId, item.secondId;
    var t1 := item.firstSortOrder.GetOr(n1 + 1);
    var t2 := item.secondSortOrder.GetOr(n2 + 1);
    var rows1 := Room(rows, true, a, typeId, item.firstSortOrder, None, stamp);
    var rows2 := Room(rows1, false, b, typeId, item.secondSortOrder, None, stamp);
    InsertRoomKeepsContiguity(rows, true, a, typeId, n1, item.firstSortOrder, stamp);
    RoomOtherScope(rows, true, a, typeId, item.firstSortOrder, stamp, false, b, typeId);
    InsertRoomKeepsContiguity(rows1, false, b, typeId, n2, item.secondSortOrder, stamp);
    RoomOtherScope(rows1, false, b, typeId, item.secondSortOrder, stamp, true, a, typeId);
    var placed := Placed(rows, item, typeId, false, stamp);
    assert placed == (rows2, item.(firstSortOrder := Some(t1), secondSortOrder := Some(t2)));
    AppendRanked(rows2, placed.1, true, a, typeId, t1, n1);
    AppendRanked(rows2, placed.1, false, b, typeId, t2, n2);
  }

  /** Room for an insertion on one side leaves every scope of the other side as it was. */
  lemma RoomOtherScope(rows: seq<Link>, first: bool, id: Guid, typeId: Guid, newValue: Option<int>, stamp: Guid -> string,
                       first': bool, id': Guid, typeId': Guid)
    requires first' != first
    ensures Ranks(Room(rows, first, id, typeId, newValue, None, stamp), first', id', typeId') == Ranks(rows, first', id', typeId')
  {
    var t := Target(rows, first, id, typeId, newValue, None);
    assert Room(rows, first, id, typeId, newValue, None, stamp) == ShiftRows(rows, first, id, typeId, t, None, 1, stamp);
    ShiftOtherScope(rows, first, id, typeId, t, None, 1, stamp, first', id', typeId');
  }

  /** Appending a link ranked t in a scope whose ranks plus t are 1..n + 1 makes them 1..n + 1. */
  lemma AppendRanked(rows: seq<Link>, l: Link, first: bool, id: Guid, typeId: Guid, t: int, n: nat)
    requires Ranks(rows, first, id, typeId) + multiset{t} == Interval(n + 1)
    requires InScope(l, first, id, typeId) && Rank(l, first) == Some(t)
    ensures Ranks(rows + [l], first, id, typeId) == Interval(n + 1)
  {
    RanksAppend(rows, l, first, id, typeId);
  }

  /**
   * The example behind the Create finding: a table with one link (Id 10) of
   * type 7 from item 1 to item 2, ranked first on both sides, and a new link
   * from item 3 to item 2 with both ranks null.
   */
  const ExampleRows: seq<Link> := [Link(10, Some("e"), 7, 1, 2, Some(1), Some(1))]
  const ExampleItem: Link := Link(11, None, 7, 3, 2, None, None)

  /** Item 3 has no links yet, item 2 has one on the Second side and none on the First. */
  lemma ExampleScopes()
    ensures Ranks(ExampleRows, true, 3, 7) == Interval(0)
    ensures Ranks(ExampleRows, false, 2, 7) == Interval(1)
    ensures Ranks(ExampleRows, true, 2, 7) == multiset{}
  {
    var row := ExampleRows[0];
    assert ExampleRows[1..] == [];
    assert Contribution(row, true, 3, 7) == multiset{};
    assert Contribution(row, false, 2, 7) == multiset{1};
    assert Contribution(row, true, 2, 7) == multiset{};
  }

  /**
   * Create as written on the example: the second room is made in the First
   * scope of item 2, which is empty, so the new link is ranked 1 among the
   * links to item 2 as well, and that scope holds rank 1 twice.
   */
  lemma CreateAsWrittenRepeatsRank(stamp: Guid -> string)
    ensures var asWritten := Placed(ExampleRows, ExampleItem, 7, true, stamp);
      && asWritten.1.secondSortOrder == Some(1)
      && Ranks(asWritten.0 + [asWritten.1], false, 2, 7) == multiset{1, 1}
      && Ranks(asWritten.0 + [asWritten.1], false, 2, 7) != Interval(2)
  {
    var rows, item := ExampleRows, ExampleItem;
    ExampleScopes();
    var placed := item.(firstSortOrder := Some(1), secondSortOrder := Some(1));
    assert Target(rows, true, 3, 7, None, None) == 1;
    assert Room(rows, true, 3, 7, None, None, stamp) == rows;
    assert Target(rows, true, 2, 7, None, None) == 1;
    assert Room(rows, true, 2, 7, None, None, stamp) == rows;
    assert Placed(rows, item, 7, true, stamp) == (rows, placed);
    RanksAppend(rows, placed, false, 2, 7);
    assert Contribution(placed, false, 2, 7) == multiset{1};
    IntervalCount(2, 1);
  }

  /** The intended Create on the same example ranks the new link 2 among the links to item 2. */
  lemma CreateIntendedOnExample(stamp: Guid -> string)
    ensures var intended := Placed(ExampleRows, ExampleItem, 7, false, stamp);
      && intended.1.secondSortOrder == Some(2)
      && Ranks(intended.0 + [intended.1], false, 2, 7) == Interval(2)
  {
    ExampleScopes();
    CreateKeepsContiguity(ExampleRows, ExampleItem, 7, 0, 1, stamp);
  }

  // ---------------------------------------------------------------------------
  // Reading a pair, notifying the endpoints, deleting

  predicate LinksPair(l: Link, firstId: Guid, secondId: Guid, typeId: Guid) {
    l.firstId == firstId && l.secondId == secondId && l.typeId == typeId
  }

  /**
   * `FirstId = @FirstId AND SecondId = @SecondId AND TypeId = @TypeId`: the
   * first row that links the pair under the type, if any.
   */
  function FindPair(rows: seq<Link>, firstId: Guid, secondId: Guid, typeId: Guid): (found: Option<Link>)
    ensures found.None? <==> forall i :: 0 <= i < |rows| ==> !LinksPair(rows[i], firstId, secondId, typeId)
    ensures found.Some? ==> found.value in rows && LinksPair(found.value, firstId, secondId, typeId)
    ensures found.Some? && UniqueLinks(rows) ==> FindLink(rows, found.value.id) == found
  {
    if rows == [] then None
    else if LinksPair(rows[0], firstId, secondId, typeId) then Some(rows[0])
    else
      var rest := FindPair(rows[1..], firstId, secondId, typeId);
      if rest.Some? then
        InLinkIds(rows[1..], rest.value);
        rest
      else rest
  }

  /**
   * What a relation handler knows of the table at one end: the Ids of its
   * items, and the name of its primary-id column for the relation type
   * (NameOfPrimaryIdColumn), when it has one.
   */
  datatype Endpoint = Endpoint(ids: set<Guid>, primaryIdColumn: Option<string>)

  /** An UpdatePrimaryId call on the First or the Second table: item `itemId` gets primary id `primaryId`. */
  datatype PrimaryUpdate = PrimaryUpdate(onFirstTable: bool, itemId: Guid, primaryId: Guid)

  /** The UpdatePrimaryId calls made, in order, and whether MaybeUpdatePrimaryId raised an assertion failure. */
  datatype PrimaryNotices = PrimaryNotices(updates: seq<PrimaryUpdate>, outcome: Outcome)

  /**
   * MaybeUpdatePrimaryId: a link ranked first among the links of its FirstId
   * makes its FirstId the primary id of its Second item, and one ranked first
   * among the links of its SecondId makes its SecondId the primary id of its
   * First item, each only when that table has a primary-id column; an item
   * that does not exist is an assertion failure, which ends the operation.
   */
  function MaybeUpdatePrimaryId(item: Link, firstEnd: Endpoint, secondEnd: Endpoint): (n: PrimaryNotices)
    ensures |n.updates| <= 2
    ensures n.outcome == Done <==>
      && (item.firstSortOrder == Some(1) ==> item.secondId in secondEnd.ids)
      && (item.secondSortOrder == Some(1) ==> item.firstId in firstEnd.ids)
    ensures n.outcome != Done ==> n.outcome == Failed(AssertionFailed)
    ensures PrimaryUpdate(false, item.secondId, item.firstId) in n.updates <==>
      item.firstSortOrder == Some(1) && item.secondId in secondEnd.ids && secondEnd.primaryIdColumn.Some?
    ensures PrimaryUpdate(true, item.firstId, item.secondId) in n.updates <==>
      && item.secondSortOrder == Some(1) && item.firstId in firstEnd.ids && firstEnd.primaryIdColumn.Some?
      && (item.firstSortOrder == Some(1) ==> item.secondId in secondEnd.ids)
    ensures forall u :: u in n.updates ==>
      u == PrimaryUpdate(false, item.secondId, item.firstId) || u == PrimaryUpdate(true, item.firstId, item.secondId)
  {
    var toSecond := PrimaryUpdate(false, item.secondId, item.firstId);
    var toFirst := PrimaryUpdate(true, item.firstId, item.secondId);
    if item.firstSortOrder == Some(1) && item.secondId !in secondEnd.ids then PrimaryNotices([], Failed(AssertionFailed))
    else
      var updates := if item.firstSortOrder == Some(1) && secondEnd.primaryIdColumn.Some? then [toSecond] else [];
      if item.secondSortOrder == Some(1) && item.firstId !in firstEnd.ids then PrimaryNotices(updates, Failed(AssertionFailed))
      else
        PrimaryNotices(updates + (if item.secondSortOrder == Some(1) && firstEnd.primaryIdColumn.Some? then [toFirst] else []), Done)
  }

  /** A row DeleteRelationshipsForDeletedId removes: of the type, and with the Id on either side. */
  predicate Refers(l: Link, id: Guid, typeId: Guid) {
    l.typeId == typeId && (l.firstId == id || l.secondId == id)
  }

  /** The table without the rows that refer to `id` under the type, in their order. */
  function Unrelated(rows: seq<Link>, id: Guid, typeId: Guid): (kept: seq<Link>)
    ensures |kept| <= |rows|
    ensures forall l :: l in kept <==> l in rows && !Refers(l, id, typeId)
    ensures LinkIds(kept) <= LinkIds(rows) && (UniqueLinks(rows) ==> UniqueLinks(kept))
  {
    if rows == [] then []
    else if Refers(rows[0], id, typeId) then Unrelated(rows[1..], id, typeId)
    else [rows[0]] + Unrelated(rows[1..], id, typeId)
  }

  /**
   * What the database does with the cascade DELETE, whose filter compares
   * TypeId with the relation type's Guid. Quoted, the Guid is a literal and
   * the statement removes the rows that refer to `id` under the type. Spliced
   * in bare, it is no T-SQL literal: its hexadecimal groups read as column
   * names, or as a subtraction of numbers whose int result cannot be compared
   * with a uniqueidentifier, so the statement fails and removes nothing.
   */
  function ExecuteCascade(rows: seq<Link>, id: Guid, typeId: Guid, quoted: bool): (r: Result<seq<Link>>)
    ensures !quoted <==> r == Failure(ExecutionFailed)
    ensures quoted ==> r.Success? && forall l :: l in r.value <==> l in rows && !Refers(l, id, typeId)
  {
    if quoted then Success(Unrelated(rows, id, typeId)) else Failure(ExecutionFailed)
  }

  /** The cascade touches only its own relation type: scopes of every other type keep their ranks. */
  lemma {:induction false} UnrelatedKeepsOtherTypes(rows: seq<Link>, id: Guid, typeId: Guid,
                                                    first: bool, id': Guid, typeId': Guid)
    requires typeId' != typeId
    ensures Ranks(Unrelated(rows, id, typeId), first, id', typeId') == Ranks(rows, first, id', typeId')
  {
    if rows != [] {
      UnrelatedKeepsOtherTypes(rows[1..], id, typeId, first, id', typeId');
      if !Refers(rows[0], id, typeId) {
        assert Unrelated(rows, id, typeId)[1..] == Unrelated(rows[1..], id, typeId);
      }
    }
  }

  // ---------------------------------------------------------------------------
  // UpdateSortOrder

  /** The link UpdateSortOrder creates when the pair has none: of the type, with the requested rank on one side. */
  function FreshLink(typeId: Guid, first: bool, firstId: Guid, secondId: Guid, newSortOrder: Option<int>): Link {
    Link(EmptyGuid, None, typeId, firstId, secondId, if first then newSortOrder else None, if first then None else newSortOrder)
  }

  /** The link a move writes: its new rank on the moved side and the Update's fresh ETag. */
  function Moved(x: Link, first: bool, t: int, newTag: Guid): Link {
    WithRank(x, first, Some(t)).(etag := Some(GuidText(newTag)))
  }

  /**
   * UpdateSortOrder up to MaybeUpdatePrimaryId, as the table it leaves and
   * the link it returns:
   * - no link for the pair: room on both sides, then the insert;
   * - the requested rank is the link's rank (null equal to null): nothing;
   * - the link has a null rank on that side: `.Value` fails;
   * - otherwise the move, written over the row as the shift left it with the
   *   Update's fresh ETag.
   */
  function SortOrderUpdate(rows: seq<Link>, typeId: Guid, first: bool, firstId: Guid, secondId: Guid,
                           newSortOrder: Option<int>, newId: Guid, newTag: Guid, stamp: Guid -> string)
    : (out: (seq<Link>, Result<Link>))
    requires newId != EmptyGuid
    ensures UniqueLinks(rows) ==> UniqueLinks(out.0)
  {
    match FindPair(rows, firstId, secondId, typeId)
    case None =>
      var placed := Placed(rows, FreshLink(typeId, first, firstId, secondId, newSortOrder), typeId, false, stamp);
      Persist(placed.0, placed.1, newId, newTag)
    case Some(x) =>
      if Rank(x, first) == newSortOrder then (rows, Success(x))
      else if Rank(x, first).None? then (rows, Failure(InvalidOperation))
      else
        var t := Target(rows, first, SideId(x, first), typeId, newSortOrder, Rank(x, first));
        var room := Room(rows, first, SideId(x, first), typeId, newSortOrder, Rank(x, first), stamp);
        SetRankKeepsUnique(room, x.id, first, t);
        (Restamp(SetRank(room, x.id, first, t), x.id, Some(GuidText(newTag))), Success(Moved(x, first, t, newTag)))
  }

  lemma {:induction false} RestampFinds(rows: seq<Link>, linkId: Guid, etag: Option<string>)
    ensures FindLink(Restamp(rows, linkId, etag), linkId)
         == if FindLink(rows, linkId).None? then None else Some(FindLink(rows, linkId).value.(etag := etag))
  {
    if rows != [] {
      assert Restamp(rows, linkId, etag)[1..] == Restamp(rows[1..], linkId, etag);
      RestampFinds(rows[1..], linkId, etag);
    }
  }

  /** Appending a link or the same link with another Id and ETag adds the same rank to every scope. */
  lemma StoredKeepsRanks(rows: seq<Link>, l: Link, stored: Link, first: bool, id: Guid, typeId: Guid)
    requires stored.(id := l.id, etag := l.etag) == l
    ensures Ranks(rows + [stored], first, id, typeId) == Ranks(rows + [l], first, id, typeId)
  {
    RanksAppend(rows, stored, first, id, typeId);
    RanksAppend(rows, l, first, id, typeId);
  }

  /** A move returns exactly the row it leaves in the table. */
  lemma MoveWritesLink(rows: seq<Link>, typeId: Guid, first: bool, firstId: Guid, secondId: Guid,
                       newSortOrder: Option<int>, newId: Guid, newTag: Guid, stamp: Guid -> string)
    requires newId != EmptyGuid && UniqueLinks(rows)
    requires FindPair(rows, firstId, secondId, typeId).Some?
    ensures var out := SortOrderUpdate(rows, typeId, first, firstId, secondId, newSortOrder, newId, newTag, stamp);
      out.1.Success? ==> FindLink(out.0, out.1.value.id) == Some(out.1.value)
  {
    var x := FindPair(rows, firstId, secondId, typeId).value;
    if Rank(x, first) != newSortOrder && Rank(x, first).Some? {
      var t := Target(rows, first, SideId(x, first), typeId, newSortOrder, Rank(x, first));
      MoveFinds(rows, first, SideId(x, first), typeId, newSortOrder, x, stamp, t, Some(GuidText(newTag)));
    }
  }

  /** After the room is made, the rank written and the row restamped, the link is found with the new rank and ETag. */
  lemma MoveFinds(rows: seq<Link>, first: bool, id: Guid, typeId: Guid, newValue: Option<int>, x: Link,
                  stamp: Guid -> string, t: int, etag: Option<string>)
    requires UniqueLinks(rows) && FindLink(rows, x.id) == Some(x)
    requires InScope(x, first, id, typeId) && Rank(x, first).Some?
    requires t == Target(rows, first, id, typeId, newValue, Rank(x, first))
    ensures var room := Room(rows, first, id, typeId, newValue, Rank(x, first), stamp);
      FindLink(Restamp(SetRank(room, x.id, first, t), x.id, etag), x.id) == Some(WithRank(x, first, Some(t)).(etag := etag))
  {
    var c := Rank(x, first).value;
    var room := Room(rows, first, id, typeId, newValue, Rank(x, first), stamp);
    if t > c {
      assert room == ShiftRows(rows, first, id, typeId, c, Some(t), -1, stamp);
      ShiftFindsLink(rows, first, id, typeId, c, Some(t), -1, stamp, x.id);
    } else if t < c {
      assert room == ShiftRows(rows, first, id, typeId, t, Some(c), 1, stamp);
      ShiftFindsLink(rows, first, id, typeId, t, Some(c), 1, stamp, x.id);
    }
    var y := FindLink(room, x.id).value;
    assert WithRank(y, first, Some(t)).(etag := etag) == WithRank(x, first, Some(t)).(etag := etag);
    SetRankKeepsLinks(room, x.id, first, t);
    RestampFinds(SetRank(room, x.id, first, t), x.id, etag);
  }

  /**
   * A move in a scope holding 1..n, to a rank in 1..n or to the null rank,
   * leaves that scope holding exactly 1..n.
   */
  lemma UpdateSortOrderMoveKeepsContiguity(rows: seq<Link>, typeId: Guid, first: bool, firstId: Guid, secondId: Guid,
                                           newSortOrder: Option<int>, newId: Guid, newTag: Guid, stamp: Guid -> string, n: nat)
    requires newId != EmptyGuid && UniqueLinks(rows)
    requires FindPair(rows, firstId, secondId, typeId).Some?
    requires Ranks(rows, first, if first then firstId else secondId, typeId) == Interval(n)
    requires newSortOrder.None? || 1 <= newSortOrder.value <= n
    ensures var out := SortOrderUpdate(rows, typeId, first, firstId, secondId, newSortOrder, newId, newTag, stamp);
      Ranks(out.0, first, if first then firstId else secondId, typeId) == Interval(n)
  {
    var x := FindPair(rows, firstId, secondId, typeId).value;
    var id := SideId(x, first);
    if Rank(x, first) != newSortOrder && Rank(x, first).Some? {
      var t := Target(rows, first, id, typeId, newSortOrder, Rank(x, first));
      var room := Room(rows, first, id, typeId, newSortOrder, Rank(x, first), stamp);
      MoveKeepsContiguity(rows, first, id, typeId, n, x.id, newSortOrder, stamp);
      RestampKeepsRanks(SetRank(room, x.id, first, t), x.id, Some(GuidText(newTag)), first, id, typeId);
    }
  }

  /**
   * Creating the link of a new pair where its First scope holds 1..n1 and
   * its Second scope 1..n2, the requested rank null or at most one past the
   * end of its side: when the insert succeeds, the scopes hold exactly
   * 1..n1 + 1 and 1..n2 + 1.
   */
  lemma UpdateSortOrderCreateKeepsContiguity(rows: seq<Link>, typeId: Guid, first: bool, firstId: Guid, secondId: Guid,
                                             newSortOrder: Option<int>, newId: Guid, newTag: Guid, stamp: Guid -> string,
                                             n1: nat, n2: nat)
    requires newId != EmptyGuid
    requires FindPair(rows, firstId, secondId, typeId).None?
    requires Ranks(rows, true, firstId, typeId) == Interval(n1) && Ranks(rows, false, secondId, typeId) == Interval(n2)
    requires newSortOrder.None? || 1 <= newSortOrder.value <= (if first then n1 else n2) + 1
    ensures var out := SortOrderUpdate(rows, typeId, first, firstId, secondId, newSortOrder, newId, newTag, stamp);
      out.1.Success? ==>
        && Ranks(out.0, true, firstId, typeId) == Interval(n1 + 1)
        && Ranks(out.0, false, secondId, typeId) == Interval(n2 + 1)
  {
    var item := FreshLink(typeId, first, firstId, secondId, newSortOrder);
    var placed := Placed(rows, item, typeId, false, stamp);
    var out := SortOrderUpdate(rows, typeId, first, firstId, secondId, newSortOrder, newId, newTag, stamp);
    assert out == Persist(placed.0, placed.1, newId, newTag);
    if out.1.Success? {
      var stored := Stored(placed.1, newId, newTag);
      assert out.0 == placed.0 + [stored];
      assert Ranks(placed.0 + [placed.1], true, firstId, typeId) == Interval(n1 + 1)
          && Ranks(placed.0 + [placed.1], false, secondId, typeId) == Interval(n2 + 1) by {
        CreateKeepsContiguity(rows, item, typeId, n1, n2, stamp);
      }
      StoredKeepsRanks(placed.0, placed.1, stored, true, firstId, typeId);
      StoredKeepsRanks(placed.0, placed.1, stored, false, secondId, typeId);
    }
  }

  /**
   * The end of Create and UpdateSortOrder: a failed write ends the operation
   * before any primary id is touched; a link that was written goes through
   * MaybeUpdatePrimaryId, whose assertion failure replaces the result.
   */
  function Finish(written: Result<Link>, firstEnd: Endpoint, secondEnd: Endpoint): (out: (Result<Link>, PrimaryNotices))
    ensures written.Failure? ==> out == (written, PrimaryNotices([], Done))
    ensures written.Success? ==> out.1 == MaybeUpdatePrimaryId(written.value, firstEnd, secondEnd)
    ensures out.0.Success? <==> written.Success? && out.1.outcome == Done
    ensures out.0.Success? ==> out.0 == written
    ensures written.Success? && out.0.Failure? ==> out.0 == Failure(AssertionFailed)
  {
    if written.Failure? then (written, PrimaryNotices([], Done))
    else
      var notices := MaybeUpdatePrimaryId(written.value, firstEnd, secondEnd);
      (if notices.outcome == Done then written else Failure(AssertionFailed), notices)
  }

  // ---------------------------------------------------------------------------
  // The handler

  /**
   * The handler of one relation table for one relation type. `rows` is the
   * table. The ETag that NEWID() gives a shifted row is `stamp` of its Id;
   * the fresh Id and ETag of the base class's Create and Update are
   * parameters.
   */
  class ManyToManyTableHandler {
    const tableName: string
    const typeId: Guid
    var rows: seq<Link>

    /** The primary key holds. */
    predicate Valid()
      reads this
    {
      UniqueLinks(rows)
    }

    constructor (tableName: string, typeId: Guid)
      ensures this.tableName == tableName && this.typeId == typeId && rows == [] && Valid()
    {
      this.tableName := tableName;
      this.typeId := typeId;
      rows := [];
    }

    /** ReadMaxSortOrder: `MAX(<side>SortOrder)` over the scope, 0 when it is NULL. */
    function ReadMaxSortOrder(first: bool, id: Guid): (m: int)
      reads this
      ensures Ranks(rows, first, id, typeId) == multiset{} ==> m == 0
      ensures Ranks(rows, first, id, typeId) != multiset{} ==>
        m in Ranks(rows, first, id, typeId) && forall k :: k in Ranks(rows, first, id, typeId) ==> k <= m
    {
      MaxRank(rows, first, id, typeId).GetOr(0)
    }

    /** ReadByFirstIdAndSecondId: the link of the pair under the handler's type, or None. */
    function ReadByFirstIdAndSecondId(firstId: Guid, secondId: Guid): (found: Option<Link>)
      reads this
      ensures found.None? <==> forall i :: 0 <= i < |rows| ==> !LinksPair(rows[i], firstId, secondId, typeId)
      ensures found.Some? ==> found.value in rows && LinksPair(found.value, firstId, secondId, typeId)
    {
      FindPair(rows, firstId, secondId, typeId)
    }

    /**
     * ShiftSortOrder: one UPDATE moving the ranks firstValue.. (up to
     * lastValue when given) of the scope by one, down when shiftLeft.
     */
    method ShiftSortOrder(first: bool, shiftLeft: bool, id: Guid, firstValue: int, lastValue: Option<int>,
                          stamp: Guid -> string)
      requires Valid()
      modifies this
      ensures Valid()
      ensures rows == ShiftRows(old(rows), first, id, typeId, firstValue, lastValue, if shiftLeft then -1 else 1, stamp)
    {
      ShiftKeepsLinks(rows, first, id, typeId, firstValue, lastValue, if shiftLeft then -1 else 1, stamp);
      rows := ShiftRows(rows, first, id, typeId, firstValue, lastValue, if shiftLeft then -1 else 1, stamp);
    }

    /** MakeRoomForSortOrder: the rank to write, with the room for it made. */
    method MakeRoomForSortOrder(first: bool, oneId: Guid, newValue: Option<int>, currentValue: Option<int>,
                                stamp: Guid -> string) returns (r: int)
      requires Valid()
      modifies this
      ensures Valid()
      ensures r == Target(old(rows), first, oneId, typeId, newValue, currentValue)
      ensures rows == Room(old(rows), first, oneId, typeId, newValue, currentValue, stamp)
    {
      var nextFirstSortOrder := 1 + ReadMaxSortOrder(first, oneId);
      var newValueNotNull := newValue.GetOr(nextFirstSortOrder);
      if currentValue.Some? {
        // a move rather than an insertion
        if newValue.None? {
          newValueNotNull := newValueNotNull - 1;
        }
        if newValueNotNull == currentValue.value {
          return newValueNotNull;
        }
        if newValueNotNull > currentValue.value {
          ShiftSortOrder(first, true, oneId, currentValue.value, Some(newValueNotNull), stamp);
        } else {
          ShiftSortOrder(first, false, oneId, newValueNotNull, currentValue, stamp);
        }
        return newValueNotNull;
      }
      ShiftSortOrder(first, false, oneId, newValueNotNull, None, stamp);
      return newValueNotNull;
    }

    /** The base class's Create: the stored link is inserted unless its Id is taken. */
    method Insert(item: Link, newId: Guid, newTag: Guid) returns (r: Result<Link>)
      requires Valid() && newId != EmptyGuid
      modifies this
      ensures Valid()
      ensures (rows, r) == Persist(old(rows), item, newId, newTag)
    {
      var stored := Stored(item, newId, newTag);
      if stored.id in LinkIds(rows) {
        return Failure(ExecutionFailed);
      }
      LinkIdsAppend(rows, stored);
      rows := rows + [stored];
      r := Success(stored);
    }

    /**
     * Create, with the second room made on the Second side (see
     * CreateAsWrittenRepeatsRank for the code as written).
     */
    method Create(item: Link, newId: Guid, newTag: Guid, stamp: Guid -> string, firstEnd: Endpoint, secondEnd: Endpoint)
      returns (r: Result<Link>, notices: PrimaryNotices)
      requires Valid() && newId != EmptyGuid
      modifies this
      ensures Valid()
      ensures var placed := Placed(old(rows), item, typeId, false, stamp);
              var out := Persist(placed.0, placed.1, newId, newTag);
        rows == out.0 && (r, notices) == Finish(out.1, firstEnd, secondEnd)
    {
      var ranked := item;
      var firstSortOrder := MakeRoomForSortOrder(true, item.firstId, item.firstSortOrder, None, stamp);
      ranked := ranked.(firstSortOrder := Some(firstSortOrder));
      var secondSortOrder := MakeRoomForSortOrder(false, item.secondId, item.secondSortOrder, None, stamp);
      ranked := ranked.(secondSortOrder := Some(secondSortOrder));
      var written := Insert(ranked, newId, newTag);
      r, notices := Finish(written, firstEnd, secondEnd).0, Finish(written, firstEnd, secondEnd).1;
    }

    /**
     * UpdateSortOrder: create the pair's link with the requested rank on one
     * side, or move the existing link to it; then the primary ids.
     */
    method UpdateSortOrder(first: bool, firstId: Guid, secondId: Guid, newSortOrder: Option<int>,
                           newId: Guid, newTag: Guid, stamp: Guid -> string, firstEnd: Endpoint, secondEnd: Endpoint)
      returns (r: Result<Link>, notices: PrimaryNotices)
      requires Valid() && newId != EmptyGuid
      modifies this
      ensures Valid()
      ensures var out := SortOrderUpdate(old(rows), typeId, first, firstId, secondId, newSortOrder, newId, newTag, stamp);
        rows == out.0 && (r, notices) == Finish(out.1, firstEnd, secondEnd)
    {
      var doUpdate, doCreate := false, false;
      var found := ReadByFirstIdAndSecondId(firstId, secondId);
      var item: Link;
      if found.None? {
        doCreate := true;
        var firstSortOrder := MakeRoomForSortOrder(true, firstId, if first then newSortOrder else None, None, stamp);
        var secondSortOrder := MakeRoomForSortOrder(false, secondId, if first then None else newSortOrder, None, stamp);
        item := Link(EmptyGuid, None, typeId, firstId, secondId, Some(firstSortOrder), Some(secondSortOrder));
      } else {
        item := found.value;
        if Rank(item, first) != newSortOrder {
          if Rank(item, first).None? {
            // `.Value` of a null sort order
            r, notices := Failure(InvalidOperation), PrimaryNotices([], Done);
            return;
          }
          var currentValue := Rank(item, first).value;
          var t := MakeRoomForSortOrder(first, SideId(item, first), newSortOrder, Some(currentValue), stamp);
          item := WithRank(item, first, Some(t));
          doUpdate := true;
        }
      }
      var written := Success(item);
      if doUpdate {
        // the Update of the row as the shift left it: the new rank and a fresh ETag
        var t := Rank(item, first).value;
        SetRankKeepsUnique(rows, item.id, first, t);
        rows := Restamp(SetRank(rows, item.id, first, t), item.id, Some(GuidText(newTag)));
        written := Success(Moved(found.value, first, t, newTag));
      } else if doCreate {
        written := Insert(item, newId, newTag);
      }
      r, notices := Finish(written, firstEnd, secondEnd).0, Finish(written, firstEnd, secondEnd).1;
    }

    /**
     * DeleteRelationshipsForDeletedId with the type's Guid quoted, as it is
     * evidently meant: remove every link of the handler's type to or from `id`.
     */
    method DeleteRelationshipsForDeletedId(id: Guid)
      requires Valid()
      modifies this
      ensures Valid()
      ensures rows == Unrelated(old(rows), id, typeId)
    {
      var executed := ExecuteCascade(rows, id, typeId, true);
      rows := executed.value;
    }

    /**
     * DeleteRelationshipsForDeletedId as written: the type's Guid is spliced
     * into the DELETE unquoted, so the database refuses the statement and no
     * link is ever removed.
     */
    method DeleteRelationshipsForDeletedIdAsWritten(id: Guid) returns (r: Outcome)
      requires Valid()
      modifies this
      ensures Valid() && rows == old(rows)
      ensures r == Failed(ExecutionFailed)
    {
      var executed := ExecuteCascade(rows, id, typeId, false);
      r := Failed(executed.error);
    }
  }
}
