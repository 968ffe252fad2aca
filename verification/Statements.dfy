// Statements that scan a whole table: every row is visited once, in ascending order of key, and exactly those that match change.
module Statements {
  import opened Base
  import opened Records
  import opened BPlus
  import opened ScanOrder
  import opened Scan

  /** An assignment: the column, and what becomes of it given the row as it then is. */
  datatype Change = Change(col: nat, value: Record -> Entry)

  /** A row after the first n assignments, each of which sees what those before it did. */
  function Changed(r: Record, changes: seq<Change>, n: nat): (c: Record)
    requires n <= |changes| && forall i :: 0 <= i < |changes| ==> changes[i].col < |r.entries|
    ensures c.key == r.key && |c.entries| == |r.entries|
  {
    if n == 0 then r
    else
      var b := Changed(r, changes, n - 1);
      Record(r.key, b.entries[changes[n - 1].col := changes[n - 1].value(b)])
  }

  ghost predicate Assignable(c: map<Key, Record>, changes: seq<Change>) {
    forall k, i {:trigger c[k], changes[i]} :: k in c && 0 <= i < |changes| ==> changes[i].col < |c[k].entries|
  }

  /** Rows visited in ascending order of key, up to this one: every row of c that far, once. */
  ghost predicate Visited(rows: seq<Record>, c: map<Key, Record>, upTo: int) {
    && SortedRecords(rows)
    && (forall r {:trigger r in rows} :: r in rows ==> r.key in c && c[r.key] == r && r.key <= upTo)
    && (forall k {:trigger k in c} :: k in c && k <= upTo ==> c[k] in rows)
  }

  ghost predicate Keyed(c: map<Key, Record>) { forall k {:trigger c[k]} :: k in c ==> c[k].key == k }

  /** Without the rows up to this one that match. */
  ghost function Without(c: map<Key, Record>, matches: Record -> bool, upTo: int): map<Key, Record> {
    map k | k in c && (k > upTo || !matches(c[k])) :: c[k]
  }

  /** With the rows up to this one that match changed. */
  ghost function With(c: map<Key, Record>, matches: Record -> bool, changes: seq<Change>, upTo: int): map<Key, Record>
    requires Assignable(c, changes)
  {
    map k | k in c :: if k <= upTo && matches(c[k]) then Changed(c[k], changes, |changes|) else c[k]
  }

  /** Every row that is to change fits in a page at every step. */
  ghost predicate ChangesFit(c: map<Key, Record>, matches: Record -> bool, changes: seq<Change>, upTo: int, keySize: nat, capacity: nat)
    requires Assignable(c, changes)
  {
    forall k, n {:trigger Changed(c[k], changes, n)} :: k in c && k <= upTo && matches(c[k]) && 0 < n <= |changes| ==>
      RecordBytes(keySize, Changed(c[k], changes, n)) <= capacity
  }

  /** A row that is to change outgrew a page after the first n assignments: rows before it are changed, it is as those left it,
      and rows after it are as they were. */
  ghost predicate StoppedAt(c: map<Key, Record>, now: map<Key, Record>, matches: Record -> bool, changes: seq<Change>, keySize: nat, capacity: nat,
                            k: Key, n: nat)
    requires Assignable(c, changes)
  {
    && k in c && matches(c[k]) && n < |changes| && RecordBytes(keySize, Changed(c[k], changes, n + 1)) > capacity
    && (forall m {:trigger Changed(c[k], changes, m)} :: 0 < m <= n ==> RecordBytes(keySize, Changed(c[k], changes, m)) <= capacity)
    && ChangesFit(c, matches, changes, k - 1, keySize, capacity)
    && now == With(c, matches, changes, k - 1)[k := Changed(c[k], changes, n)]
  }

  /** now has the same rows as c above upTo, and the next of them is r. */
  lemma NextVisited(rows: seq<Record>, c: map<Key, Record>, now: map<Key, Record>, upTo: int, r: Record)
    requires Visited(rows, c, upTo) && Keyed(c) && IsNext(now, upTo, r)
    requires forall k {:trigger k in now} {:trigger k in c} :: k > upTo ==> (k in now <==> k in c) && (k in c ==> now[k] == c[k])
    ensures upTo < r.key && r.key in c && c[r.key] == r && Visited(rows + [r], c, r.key)
    ensures forall k {:trigger k in c} :: k in c && upTo < k <= r.key ==> k == r.key
  {
    var all := rows + [r];
    assert r.key in now;
    forall k | k in c && upTo < k <= r.key ensures k == r.key { assert k in now; }
    forall k | k in c && k <= r.key ensures c[k] in all { if k <= upTo { assert c[k] in rows; } else { assert c[k] == r; assert all[|rows|] == r; } }
    forall i, j | 0 <= i < j < |all| ensures all[i].key < all[j].key { if j == |rows| { assert rows[i] in rows; } }
  }

  lemma AllVisited(rows: seq<Record>, c: map<Key, Record>, now: map<Key, Record>, upTo: int)
    requires Visited(rows, c, upTo) && Exhausted(now, upTo)
    requires forall k {:trigger k in now} {:trigger k in c} :: k > upTo ==> (k in now <==> k in c)
    ensures forall k :: k in c ==> k <= upTo
    ensures Visited(rows, c, KEY_LIMIT)
  {
    forall k | k in c ensures k <= upTo { assert k > upTo ==> k in now; }
  }

  lemma TableKeyed(t: Table)
    requires t.Valid()
    ensures Keyed(t.contents)
  {
    forall k | k in t.contents ensures t.contents[k].key == k { assert TableContents.Kept(t.pages, t.filed, t.contents, k); }
  }

  /** SELECT: the rows that match, in ascending order of key. */
  method SelectWhere(s: Scanner, matches: Record -> bool) returns (rows: seq<Record>, ghost visited: seq<Record>)
    requires s.Valid() && s.Fresh()
    modifies s
    ensures Visited(visited, s.tbl.contents, KEY_LIMIT) && rows == Filtered(visited, matches)
  {
    hide Table.Valid, Scanner.OnPage, Scanner.AfterPage, Visited, Filtered;
    NoRows(s.tbl.contents, matches);
    TableKeyed(s.tbl);
    rows, visited := [], [];
    while true
      invariant s.Valid() && Visited(visited, s.tbl.contents, s.at) && rows == Filtered(visited, matches)
      decreases KEY_LIMIT - s.at
    {
      ghost var upTo := s.at;
      var more := s.Advance();
      if !more {
        AllVisited(visited, s.tbl.contents, s.tbl.contents, upTo);
        return;
      }
      var row := s.page[s.slotIdx];
      NextVisited(visited, s.tbl.contents, s.tbl.contents, upTo, row);
      FilterNext(visited, row, matches);
      visited := visited + [row];
      if matches(row) { rows := rows + [row]; }
    }
  }

  lemma NoRows(c: map<Key, Record>, matches: Record -> bool)
    ensures Visited([], c, -1) && Filtered([], matches) == []
  {
  }

  lemma FilterNext(rows: seq<Record>, r: Record, matches: Record -> bool)
    ensures Filtered(rows + [r], matches) == Filtered(rows, matches) + if matches(r) then [r] else []
  {
    assert (rows + [r])[..|rows|] == rows;
  }

  ghost function Filtered(rows: seq<Record>, matches: Record -> bool): seq<Record> {
    if rows == [] then []
    else Filtered(rows[..|rows| - 1], matches) + if matches(Last(rows)) then [Last(rows)] else []
  }

  lemma {:induction false} FilteredHas(rows: seq<Record>, matches: Record -> bool)
    requires SortedRecords(rows)
    ensures SortedRecords(Filtered(rows, matches)) && forall r {:trigger r in rows} :: r in Filtered(rows, matches) <==> r in rows && matches(r)
  {
    if rows != [] {
      var front := rows[..|rows| - 1];
      FilteredHas(front, matches);
      assert rows == front + [Last(rows)];
      var kept := Filtered(front, matches);
      forall r | r in kept ensures r.key < Last(rows).key {
        assert r in front;
        var i :| 0 <= i < |front| && front[i] == r;
        assert rows[i] == r;
      }
    }
  }

  /** What SELECT gives are exactly the rows that match, each once, in ascending order. */
  lemma Selected(c: map<Key, Record>, visited: seq<Record>, matches: Record -> bool)
    requires Visited(visited, c, KEY_LIMIT) && Keyed(c)
    ensures SortedRecords(Filtered(visited, matches))
    ensures forall r {:trigger r in Filtered(visited, matches)} :: r in Filtered(visited, matches) <==> r.key in c && c[r.key] == r && matches(r)
  {
    FilteredHas(visited, matches);
    forall r ensures r in Filtered(visited, matches) <==> r.key in c && c[r.key] == r && matches(r) {
      if r.key in c && c[r.key] == r { assert r in visited; }
      assert r in visited <==> r.key in c && c[r.key] == r;
    }
  }

  /** DELETE: every row is visited once and exactly those that match go, whatever pages and leaves that does away with. */
  method DeleteWhere(s: Scanner, matches: Record -> bool) returns (ghost visited: seq<Record>)
    requires s.Valid() && s.Fresh()
    modifies s, s.tbl
    ensures s.tbl.Valid() && Visited(visited, old(s.tbl.contents), KEY_LIMIT)
    ensures s.tbl.contents == map k | k in old(s.tbl.contents) && !matches(old(s.tbl.contents)[k]) :: old(s.tbl.contents)[k]
  {
    hide Table.Valid, Scanner.OnPage, Scanner.AfterPage, Visited, Without;
    NoneGone(s.tbl.contents, matches);
    ghost var c := s.tbl.contents;
    TableKeyed(s.tbl);
    visited := [];
    while true
      invariant s.Valid() && Visited(visited, c, s.at) && s.tbl.contents == Without(c, matches, s.at)
      decreases KEY_LIMIT - s.at
    {
      ghost var upTo := s.at;
      WithoutAbove(c, matches, upTo);
      var more := s.Advance();
      if !more {
        AllVisited(visited, c, s.tbl.contents, upTo);
        AllGone(c, matches, upTo);
        return;
      }
      var row := s.page[s.slotIdx];
      NextVisited(visited, c, s.tbl.contents, upTo, row);
      visited := visited + [row];
      if !matches(row) {
        OneKept(c, matches, upTo, row);
        continue;
      }
      var ok := s.DeleteRow();
      OneGone(c, matches, upTo, row);
    }
  }

  lemma NoneGone(c: map<Key, Record>, matches: Record -> bool)
    ensures Visited([], c, -1) && Without(c, matches, -1) == c
  {
  }

  lemma WithoutAbove(c: map<Key, Record>, matches: Record -> bool, upTo: int)
    ensures var w := Without(c, matches, upTo);
            forall k {:trigger k in w} {:trigger k in c} :: k > upTo ==> (k in w <==> k in c) && (k in c ==> w[k] == c[k])
  {
  }

  lemma AllGone(c: map<Key, Record>, matches: Record -> bool, upTo: int)
    requires forall k :: k in c ==> k <= upTo
    ensures Without(c, matches, upTo) == map k | k in c && !matches(c[k]) :: c[k]
  {
  }

  lemma OneKept(c: map<Key, Record>, matches: Record -> bool, upTo: int, r: Record)
    requires r.key in c && c[r.key] == r && !matches(r) && upTo < r.key && forall k {:trigger k in c} :: k in c && upTo < k <= r.key ==> k == r.key
    ensures Without(c, matches, r.key) == Without(c, matches, upTo)
  {
  }

  lemma OneGone(c: map<Key, Record>, matches: Record -> bool, upTo: int, r: Record)
    requires r.key in c && c[r.key] == r && matches(r) && upTo < r.key && forall k {:trigger k in c} :: k in c && upTo < k <= r.key ==> k == r.key
    ensures Without(c, matches, r.key) == Without(c, matches, upTo) - {r.key}
  {
  }

  /** UPDATE: every row is visited once and exactly those that match change, whatever pages that splits. ok is false, and the
      statement is to be rolled back, if a row outgrows a page. */
  method UpdateWhere(s: Scanner, matches: Record -> bool, changes: seq<Change>) returns (ok: bool, ghost visited: seq<Record>, ghost stuck: Key, ghost done: nat)
    requires s.Valid() && s.Fresh() && Assignable(s.tbl.contents, changes)
    modifies s, s.tbl
    ensures s.tbl.Valid() && ok == ChangesFit(old(s.tbl.contents), matches, changes, KEY_LIMIT, s.tbl.keySize, s.tbl.capacity)
    ensures ok ==> Visited(visited, old(s.tbl.contents), KEY_LIMIT)
    ensures ok ==> s.tbl.contents == With(old(s.tbl.contents), matches, changes, KEY_LIMIT)
    ensures !ok ==> StoppedAt(old(s.tbl.contents), s.tbl.contents, matches, changes, s.tbl.keySize, s.tbl.capacity, stuck, done)
  {
    hide Table.Valid, Scanner.OnPage, Scanner.AfterPage, RecordBytes, Visited, With, ChangesFit, RowFits, Changed, StoppedAt;
    stuck, done := 0, 0;
    ghost var c := s.tbl.contents;
    TableKeyed(s.tbl);
    NoneYet(c, matches, changes, s.tbl.keySize, s.tbl.capacity);
    visited := [];
    while true
      invariant s.Valid() && Visited(visited, c, s.at) && s.tbl.contents == With(c, matches, changes, s.at)
      invariant ChangesFit(c, matches, changes, s.at, s.tbl.keySize, s.tbl.capacity)
      decreases KEY_LIMIT - s.at
    {
      ghost var upTo := s.at;
      WithAbove(c, matches, changes, upTo);
      var more := s.Advance();
      if !more {
        AllVisited(visited, c, s.tbl.contents, upTo);
        AllRows(c, matches, changes, upTo, s.tbl.keySize, s.tbl.capacity);
        return true, visited, stuck, done;
      }
      var row := s.page[s.slotIdx];
      NextVisited(visited, c, s.tbl.contents, upTo, row);
      visited := visited + [row];
      if matches(row) {
        ok, done := UpdateRow(s, changes, row);
        if !ok {
          stuck := row.key;
          SomeTooLarge(c, matches, changes, row, s.tbl.keySize, s.tbl.capacity);
          StoppedThere(c, matches, changes, upTo, row, done, s.tbl.keySize, s.tbl.capacity);
          return;
        }
        RowChanged(c, matches, changes, upTo, row);
      } else {
        RowPassed(c, matches, changes, upTo, row);
      }
      MoreFit(c, matches, changes, upTo, row, s.tbl.keySize, s.tbl.capacity);
    }
  }

  ghost predicate RowFits(r: Record, changes: seq<Change>, keySize: nat, capacity: nat)
    requires forall i :: 0 <= i < |changes| ==> changes[i].col < |r.entries|
  {
    forall n {:trigger Changed(r, changes, n)} :: 0 < n <= |changes| ==> RecordBytes(keySize, Changed(r, changes, n)) <= capacity
  }

  /** The row fits a page after each of the first n assignments, but not after the next. */
  ghost predicate StuckAfter(r: Record, changes: seq<Change>, n: nat, keySize: nat, capacity: nat)
    requires forall i :: 0 <= i < |changes| ==> changes[i].col < |r.entries|
  {
    && n < |changes| && RecordBytes(keySize, Changed(r, changes, n + 1)) > capacity
    && forall m {:trigger Changed(r, changes, m)} :: 0 < m <= n ==> RecordBytes(keySize, Changed(r, changes, m)) <= capacity
  }

  lemma StoppedThere(c: map<Key, Record>, matches: Record -> bool, changes: seq<Change>, upTo: int, r: Record, n: nat, keySize: nat, capacity: nat)
    requires Assignable(c, changes) && r.key in c && c[r.key] == r && matches(r) && upTo < r.key
    requires forall k {:trigger k in c} :: k in c && upTo < k <= r.key ==> k == r.key
    requires (forall i :: 0 <= i < |changes| ==> changes[i].col < |r.entries|) && StuckAfter(r, changes, n, keySize, capacity)
    requires ChangesFit(c, matches, changes, upTo, keySize, capacity)
    ensures StoppedAt(c, With(c, matches, changes, upTo)[r.key := Changed(r, changes, n)], matches, changes, keySize, capacity, r.key, n)
  {
    hide RecordBytes, Changed;
    assert With(c, matches, changes, upTo) == With(c, matches, changes, r.key - 1);
  }

  /** The assignments to one row. */
  method UpdateRow(s: Scanner, changes: seq<Change>, row: Record) returns (ok: bool, ghost done: nat)
    requires s.Valid() && s.OnRow() && s.page[s.slotIdx] == row && forall i :: 0 <= i < |changes| ==> changes[i].col < |row.entries|
    modifies s, s.tbl
    ensures s.tbl.Valid() && ok == RowFits(row, changes, s.tbl.keySize, s.tbl.capacity) && s.at == old(s.at)
    ensures ok ==> s.Valid() && s.tbl.contents == old(s.tbl.contents)[row.key := Changed(row, changes, |changes|)]
    ensures !ok ==> StuckAfter(row, changes, done, s.tbl.keySize, s.tbl.capacity) && s.tbl.contents == old(s.tbl.contents)[row.key := Changed(row, changes, done)]
  {
    hide Table.Valid, Scanner.OnPage, Scanner.AfterPage, RecordBytes;
    done := 0;
    var i := 0;
    while i < |changes|
      invariant 0 <= i == done <= |changes| && s.Valid() && s.OnRow() && s.at == old(s.at) && s.page[s.slotIdx] == Changed(row, changes, i)
      invariant s.tbl.contents == old(s.tbl.contents)[row.key := Changed(row, changes, i)]
      invariant forall n {:trigger Changed(row, changes, n)} :: 0 < n <= i ==> RecordBytes(s.tbl.keySize, Changed(row, changes, n)) <= s.tbl.capacity
    {
      ok := s.UpdateCol(changes[i].col, changes[i].value(s.page[s.slotIdx]));
      assert Changed(row, changes, i + 1).key == row.key;
      if !ok { return; }
      i := i + 1;
      done := i;
    }
    ok := true;
  }

  lemma AllRows(c: map<Key, Record>, matches: Record -> bool, changes: seq<Change>, upTo: int, keySize: nat, capacity: nat)
    requires Assignable(c, changes) && ChangesFit(c, matches, changes, upTo, keySize, capacity) && forall k :: k in c ==> k <= upTo
    ensures ChangesFit(c, matches, changes, KEY_LIMIT, keySize, capacity)
    ensures With(c, matches, changes, KEY_LIMIT) == With(c, matches, changes, upTo)
  {
    hide RecordBytes;
  }

  lemma NoneYet(c: map<Key, Record>, matches: Record -> bool, changes: seq<Change>, keySize: nat, capacity: nat)
    requires Assignable(c, changes)
    ensures Visited([], c, -1) && With(c, matches, changes, -1) == c && ChangesFit(c, matches, changes, -1, keySize, capacity)
  {
  }

  lemma WithAbove(c: map<Key, Record>, matches: Record -> bool, changes: seq<Change>, upTo: int)
    requires Assignable(c, changes)
    ensures var w := With(c, matches, changes, upTo);
            forall k {:trigger k in w} {:trigger k in c} :: k > upTo ==> (k in w <==> k in c) && (k in c ==> w[k] == c[k])
  {
  }

  lemma SomeTooLarge(c: map<Key, Record>, matches: Record -> bool, changes: seq<Change>, r: Record, keySize: nat, capacity: nat)
    requires Assignable(c, changes) && r.key in c && c[r.key] == r && matches(r)
    requires (forall i :: 0 <= i < |changes| ==> changes[i].col < |r.entries|) && !RowFits(r, changes, keySize, capacity)
    ensures !ChangesFit(c, matches, changes, KEY_LIMIT, keySize, capacity)
  {
    hide RecordBytes;
    var n :| 0 < n <= |changes| && RecordBytes(keySize, Changed(r, changes, n)) > capacity;
    assert Changed(c[r.key], changes, n) == Changed(r, changes, n);
  }

  lemma RowChanged(c: map<Key, Record>, matches: Record -> bool, changes: seq<Change>, upTo: int, r: Record)
    requires Assignable(c, changes) && r.key in c && c[r.key] == r && matches(r) && upTo < r.key
    requires forall k {:trigger k in c} :: k in c && upTo < k <= r.key ==> k == r.key
    ensures forall i :: 0 <= i < |changes| ==> changes[i].col < |r.entries|
    ensures With(c, matches, changes, r.key) == With(c, matches, changes, upTo)[r.key := Changed(r, changes, |changes|)]
  {
    assert forall i :: 0 <= i < |changes| ==> changes[i].col < |c[r.key].entries|;
  }

  lemma RowPassed(c: map<Key, Record>, matches: Record -> bool, changes: seq<Change>, upTo: int, r: Record)
    requires Assignable(c, changes) && r.key in c && c[r.key] == r && !matches(r) && upTo < r.key
    requires forall k {:trigger k in c} :: k in c && upTo < k <= r.key ==> k == r.key
    ensures With(c, matches, changes, r.key) == With(c, matches, changes, upTo)
  {
  }

  lemma MoreFit(c: map<Key, Record>, matches: Record -> bool, changes: seq<Change>, upTo: int, r: Record, keySize: nat, capacity: nat)
    requires Assignable(c, changes) && r.key in c && c[r.key] == r && upTo < r.key
    requires forall k {:trigger k in c} :: k in c && upTo < k <= r.key ==> k == r.key
    requires ChangesFit(c, matches, changes, upTo, keySize, capacity)
    requires matches(r) ==> (forall i :: 0 <= i < |changes| ==> changes[i].col < |r.entries|) && RowFits(r, changes, keySize, capacity)
    ensures ChangesFit(c, matches, changes, r.key, keySize, capacity)
  {
    hide RecordBytes;
  }
}
