/**
 The exporter registry (identity/exporters.py) with its append-only mirror and the boot-time reload
 (identity/persistence.py).
 */
module Exporters {
  import opened Options
  import opened FiniteSets
  import opened Filtering
  import opened Orders

  datatype ExporterRecord = ExporterRecord(workspace: string, user: string, number: nat, name: string, createdAt: int)

  /** One row of the mirror table. */
  datatype Row = Row(record: ExporterRecord, deleted: bool, mirroredAt: int)

  /** Live exporters of each workspace, in the order of their registration. */
  type Registry = map<string, seq<ExporterRecord>>

  function ListOf(reg: Registry, workspace: string): seq<ExporterRecord> {
    if workspace in reg then reg[workspace] else []
  }

  function Key(r: ExporterRecord): (string, nat) {
    (r.workspace, r.number)
  }

  predicate HasNumber(list: seq<ExporterRecord>, number: nat) {
    exists i :: 0 <= i < |list| && list[i].number == number
  }

  /** `number` is the least positive one that no record of the list uses. */
  ghost predicate LeastFree(list: seq<ExporterRecord>, number: nat) {
    number >= 1 && !HasNumber(list, number) && forall k | 1 <= k < number :: HasNumber(list, k)
  }

  ghost predicate WellNumbered(reg: Registry) {
    forall w | w in reg ::
      && (forall i | 0 <= i < |reg[w]| :: reg[w][i].workspace == w && reg[w][i].number >= 1)
      && (forall i, j | 0 <= i < j < |reg[w]| :: reg[w][i].number != reg[w][j].number)
  }

  // ---------------------------------------------------------------- the reload

  /** LIMIT 1 BY key: the first row of each key, in the order given. */
  function FirstPerKey(rows: seq<Row>): seq<Row> {
    if rows == [] then []
    else
      var front, last := FirstPerKey(rows[..|rows| - 1]), rows[|rows| - 1];
      if HasKey(front, Key(last.record)) then front else front + [last]
  }

  function LiveRow(workspace: string): Row -> Option<ExporterRecord> {
    (row: Row) => if !row.deleted && row.record.workspace == workspace then Some(row.record) else None
  }

  function OtherKey(key: (string, nat)): Row -> Option<Row> {
    (row: Row) => if Key(row.record) != key then Some(row) else None
  }

  function OtherNumber(number: nat): ExporterRecord -> Option<ExporterRecord> {
    (r: ExporterRecord) => if r.number != number then Some(r) else None
  }

  /** The live rows of one workspace, in the order given. */
  function LiveIn(rows: seq<Row>, workspace: string): seq<ExporterRecord> {
    FilterMap(rows, LiveRow(workspace))
  }

  /** Deleting one number from a list. */
  function Dropping(list: seq<ExporterRecord>, number: nat): seq<ExporterRecord> {
    FilterMap(list, OtherNumber(number))
  }

  /** Rows as ClickHouse returns them for ORDER BY mirrored_at DESC. */
  ghost predicate NewestFirst(rows: seq<Row>, log: seq<Row>) {
    multiset(rows) == multiset(log) && forall i, j | 0 <= i < j < |rows| :: rows[i].mirroredAt >= rows[j].mirroredAt
  }

  ghost predicate Increasing(log: seq<Row>) {
    forall i, j | 0 <= i < j < |log| :: log[i].mirroredAt < log[j].mirroredAt
  }

  lemma NewestIsHead(rows: seq<Row>, log: seq<Row>)
    requires NewestFirst(rows, log) && Increasing(log) && log != []
    ensures rows != [] && rows[0] == log[|log| - 1]
  {
    assert |rows| == |multiset(rows)| == |multiset(log)| == |log|;
    assert log[|log| - 1] in multiset(rows) && rows[0] in multiset(log);
    var i :| 0 <= i < |rows| && rows[i] == log[|log| - 1];
    var j :| 0 <= j < |log| && log[j] == rows[0];
  }

  lemma TailStaysNewestFirst(rows: seq<Row>, log: seq<Row>)
    requires NewestFirst(rows, log) && Increasing(log) && log != [] && rows != [] && rows[0] == log[|log| - 1]
    ensures NewestFirst(rows[1..], log[..|log| - 1]) && Increasing(log[..|log| - 1])
  {
    DropEnds(rows, log);
  }

  /** With increasing write times the query can only return the log backwards. */
  lemma {:induction false} NewestFirstIsReversed(rows: seq<Row>, log: seq<Row>)
    requires NewestFirst(rows, log) && Increasing(log)
    ensures rows == Reversed(log)
    decreases |log|
  {
    assert |rows| == |multiset(rows)| == |multiset(log)| == |log|;
    if log != [] {
      var n := |log| - 1;
      NewestIsHead(rows, log);
      TailStaysNewestFirst(rows, log);
      NewestFirstIsReversed(rows[1..], log[..n]);
      assert rows == [rows[0]] + rows[1..];
    }
  }

  /** Appending one row to the log puts it first and hides the older rows of its key. */
  lemma {:induction false} LatestOfAppend(row: Row, rows: seq<Row>)
    ensures FirstPerKey([row] + rows) == [row] + FilterMap(FirstPerKey(rows), OtherKey(Key(row.record)))
  {
    hide FilterMap, HasKey;
    var all := [row] + rows;
    if rows == [] {
      assert FilterMap(FirstPerKey(rows), OtherKey(Key(row.record))) == [] by {
        FilterMapNone(OtherKey(Key(row.record)));
      }
      NoKeys(Key(row.record));
      assert all[..0] == [];
    } else {
      var front, last := rows[..|rows| - 1], rows[|rows| - 1];
      assert all[..|all| - 1] == [row] + front && all[|all| - 1] == last;
      LatestOfAppend(row, front);
      SeenAlready(row, FirstPerKey(front), last);
      FilterMapAppend(FirstPerKey(front), last, OtherKey(Key(row.record)));
    }
  }

  lemma FilterMapNone(f: Row -> Option<Row>)
    ensures FilterMap([], f) == []
  {
  }

  lemma NoKeys(key: (string, nat))
    ensures !HasKey([], key)
  {
  }

  predicate HasKey(rows: seq<Row>, key: (string, nat)) {
    exists i :: 0 <= i < |rows| && Key(rows[i].record) == key
  }

  lemma SeenAlready(row: Row, seen: seq<Row>, last: Row)
    ensures var k := Key(row.record);
            HasKey([row] + FilterMap(seen, OtherKey(k)), Key(last.record))
            <==> Key(last.record) == k || HasKey(seen, Key(last.record))
  {
    var k := Key(row.record);
    var kept := FilterMap(seen, OtherKey(k));
    var before := [row] + kept;
    if Key(last.record) == k {
      assert Key(before[0].record) == k;
    } else if i :| 0 <= i < |seen| && Key(seen[i].record) == Key(last.record) {
      FilterMapMembers(seen, OtherKey(k), seen[i]);
      assert OtherKey(k)(seen[i]) == Some(seen[i]);
      var j :| 0 <= j < |kept| && kept[j] == seen[i];
      assert before[j + 1] == seen[i];
    } else {
      forall j | 0 <= j < |before|
        ensures Key(before[j].record) != Key(last.record)
      {
        if j > 0 {
          FilterMapMembers(seen, OtherKey(k), before[j]);
          assert kept[j - 1] == before[j];
        }
      }
    }
  }

  lemma {:induction false} LiveInOtherKeys(rows: seq<Row>, key: (string, nat), workspace: string)
    ensures LiveIn(FilterMap(rows, OtherKey(key)), workspace)
         == if key.0 == workspace then Dropping(LiveIn(rows, workspace), key.1) else LiveIn(rows, workspace)
  {
    if rows != [] {
      var front, last := rows[..|rows| - 1], rows[|rows| - 1];
      LiveInOtherKeys(front, key, workspace);
      var kept, live := FilterMap(front, OtherKey(key)), LiveIn(front, workspace);
      if Key(last.record) != key {
        assert FilterMap(rows, OtherKey(key)) == kept + [last];
        FilterMapAppend(kept, last, LiveRow(workspace));
      } else {
        assert FilterMap(rows, OtherKey(key)) == kept;
      }
      if !last.deleted && last.record.workspace == workspace {
        assert LiveIn(rows, workspace) == live + [last.record];
        FilterMapAppend(live, last.record, OtherNumber(key.1));
      } else {
        assert LiveIn(rows, workspace) == live;
      }
    }
  }

  /** What a reload restores for a workspace. */
  function Reloaded(log: seq<Row>, workspace: string): seq<ExporterRecord> {
    LiveIn(FirstPerKey(Reversed(log)), workspace)
  }

  /** The mirror mirrors: for every workspace a reload restores exactly the live exporters, in whatever order. */
  ghost predicate Mirrors(reg: Registry, log: seq<Row>) {
    forall w :: multiset(Reloaded(log, w)) == multiset(ListOf(reg, w))
  }

  /** Mirrored numbers are positive. */
  ghost predicate Positive(log: seq<Row>) {
    forall i | 0 <= i < |log| :: log[i].record.number >= 1
  }

  /** What every operation and every reload keeps. */
  ghost predicate Consistent(reg: Registry, log: seq<Row>) {
    WellNumbered(reg) && Mirrors(reg, log) && Positive(log)
  }

  lemma ReloadedAppend(log: seq<Row>, row: Row, workspace: string)
    ensures Reloaded(log + [row], workspace)
         == (if !row.deleted && row.record.workspace == workspace then [row.record] else [])
            + (if row.record.workspace == workspace then Dropping(Reloaded(log, workspace), row.record.number)
               else Reloaded(log, workspace))
  {
    hide FirstPerKey, Dropping;
    var latest, key := FirstPerKey(Reversed(log)), Key(row.record);
    ReversedAppend(log, row);
    LatestOfAppend(row, Reversed(log));
    FilterMapConcat([row], FilterMap(latest, OtherKey(key)), LiveRow(workspace));
    FilterMapOne(row, LiveRow(workspace));
    LiveInOtherKeys(latest, key, workspace);
  }

  lemma DroppingAbsent(list: seq<ExporterRecord>, number: nat)
    requires !HasNumber(list, number)
    ensures Dropping(list, number) == list
  {
    assert forall i | 0 <= i < |list| :: list[i].number != number;
    FilterMapIdentity(list, OtherNumber(number));
  }

  lemma SameNumbers(a: seq<ExporterRecord>, b: seq<ExporterRecord>, number: nat)
    requires multiset(a) == multiset(b)
    ensures HasNumber(a, number) <==> HasNumber(b, number)
  {
    assert forall r :: r in a <==> r in multiset(a);
    assert forall r :: r in b <==> r in multiset(b);
    if i :| 0 <= i < |a| && a[i].number == number {
      assert a[i] in b;
    }
    if i :| 0 <= i < |b| && b[i].number == number {
      assert b[i] in a;
    }
  }

  /** Registering under a number that is free keeps the mirror exact, whether the number was ever used before or not. */
  lemma RegisterMirrors(reg: Registry, log: seq<Row>, r: ExporterRecord, at: int)
    requires Mirrors(reg, log) && !HasNumber(ListOf(reg, r.workspace), r.number)
    ensures Mirrors(reg[r.workspace := ListOf(reg, r.workspace) + [r]], log + [Row(r, false, at)])
  {
    hide Reloaded, Dropping, HasNumber;
    var after, list := reg[r.workspace := ListOf(reg, r.workspace) + [r]], ListOf(reg, r.workspace);
    SameNumbers(Reloaded(log, r.workspace), list, r.number);
    DroppingAbsent(Reloaded(log, r.workspace), r.number);
    forall w
      ensures multiset(Reloaded(log + [Row(r, false, at)], w)) == multiset(ListOf(after, w))
    {
      ReloadedAppend(log, Row(r, false, at), w);
    }
  }

  lemma DeleteMirrors(reg: Registry, log: seq<Row>, r: ExporterRecord, at: int)
    requires Mirrors(reg, log) && r.workspace in reg
    ensures Mirrors(reg[r.workspace := Dropping(reg[r.workspace], r.number)], log + [Row(r, true, at)])
  {
    hide Reloaded;
    var after := reg[r.workspace := Dropping(reg[r.workspace], r.number)];
    FilterMapPermutes(Reloaded(log, r.workspace), reg[r.workspace], OtherNumber(r.number));
    hide Dropping;
    forall w
      ensures multiset(Reloaded(log + [Row(r, true, at)], w)) == multiset(ListOf(after, w))
    {
      ReloadedAppend(log, Row(r, true, at), w);
    }
  }

  // ---------------------------------------------------------------- the registry

  ghost function NumbersOf(list: seq<ExporterRecord>): set<int> {
    set i | 0 <= i < |list| :: list[i].number as int
  }

  lemma {:induction false} NumbersSize(list: seq<ExporterRecord>)
    ensures |NumbersOf(list)| <= |list|
  {
    if list == [] {
      assert NumbersOf(list) == {};
    } else {
      var front, last := list[..|list| - 1], list[|list| - 1];
      NumbersSize(front);
      assert NumbersOf(list) <= NumbersOf(front) + {last.number as int};
      SubsetSize(NumbersOf(list), NumbersOf(front) + {last.number as int});
    }
  }

  /** Pigeonhole: if 1..n-1 are all used the list has at least n - 1 records. */
  lemma UsedNumbers(list: seq<ExporterRecord>, n: nat)
    requires n >= 1 && forall k | 1 <= k < n :: HasNumber(list, k)
    ensures n - 1 <= |list|
  {
    NumbersSize(list);
    forall k | k in Interval(1, n - 1)
      ensures k in NumbersOf(list)
    {
      assert HasNumber(list, k);
      var i :| 0 <= i < |list| && list[i].number == k;
    }
    SubsetSize(Interval(1, n - 1), NumbersOf(list));
  }

  /** Removing the record at i is dropping its number. */
  lemma DropAt(list: seq<ExporterRecord>, i: nat)
    requires i < |list|
    requires forall a, b | 0 <= a < b < |list| :: list[a].number != list[b].number
    ensures Dropping(list, list[i].number) == list[..i] + list[i + 1..]
  {
    hide FilterMap;
    var f, left, right := OtherNumber(list[i].number), list[..i], list[i + 1..];
    assert list == left + [list[i]] + right;
    FilterMapConcat(left + [list[i]], right, f);
    FilterMapConcat(left, [list[i]], f);
    FilterMapOne(list[i], f);
    FilterMapIdentity(left, f);
    FilterMapIdentity(right, f);
  }

  /** Every record in the registry of the workspace belongs to the user. */
  predicate OwnsAll(list: seq<ExporterRecord>, user: string) {
    forall i | 0 <= i < |list| :: list[i].user == user
  }

  // ---------------------------------------------------------------- what the query can return

  /** The first row of a key. */
  function FirstOf(rows: seq<Row>, key: (string, nat)): Option<Row> {
    if rows == [] then None
    else
      var before, last := FirstOf(rows[..|rows| - 1], key), rows[|rows| - 1];
      if before.Some? then before else if Key(last.record) == key then Some(last) else None
  }

  function Live(row: Row): Option<ExporterRecord> {
    if row.deleted then None else Some(row.record)
  }

  /** What a key comes to: the exporter of its first row, unless that is deleted or missing. */
  function Restored(rows: seq<Row>, key: (string, nat)): Option<ExporterRecord> {
    var first := FirstOf(rows, key);
    if first.Some? then Live(first.value) else None
  }

  lemma {:induction false} FirstOfFacts(rows: seq<Row>, key: (string, nat))
    ensures FirstOf(rows, key).Some? <==> HasKey(rows, key)
    ensures FirstOf(rows, key).Some? ==> FirstOf(rows, key).value in rows && Key(FirstOf(rows, key).value.record) == key
  {
    if rows != [] {
      var front, last := rows[..|rows| - 1], rows[|rows| - 1];
      FirstOfFacts(front, key);
      assert rows == front + [last];
      KeyOfLonger(front, last, key);
    }
  }

  lemma {:induction false} FirstPerKeyMembers(rows: seq<Row>, r: Row)
    ensures r in FirstPerKey(rows) <==> FirstOf(rows, Key(r.record)) == Some(r)
    ensures HasKey(FirstPerKey(rows), Key(r.record)) <==> HasKey(rows, Key(r.record))
  {
    if rows != [] {
      var front, last := rows[..|rows| - 1], rows[|rows| - 1];
      FirstPerKeyMembers(front, r);
      FirstPerKeyMembers(front, last);
      FirstOfFacts(front, Key(r.record));
      FirstOfFacts(front, Key(last.record));
      assert rows == front + [last];
      KeysGrow(front, last);
      KeysGrow(FirstPerKey(front), last);
      KeyOfLonger(front, last, Key(r.record));
      KeyOfLonger(FirstPerKey(front), last, Key(r.record));
    }
  }

  lemma {:induction false} KeyOfLonger(rows: seq<Row>, row: Row, key: (string, nat))
    ensures HasKey(rows + [row], key) <==> HasKey(rows, key) || Key(row.record) == key
  {
    KeysGrow(rows, row);
    var longer := rows + [row];
    if i :| 0 <= i < |longer| && Key(longer[i].record) == key {
      assert i < |rows| ==> Key(rows[i].record) == key;
    }
  }

  /** What a workspace gets back, counted: each record once, exactly if it is what its key comes to. */
  lemma {:induction false} LiveCount(rows: seq<Row>, workspace: string, r: ExporterRecord)
    ensures multiset(LiveIn(FirstPerKey(rows), workspace))[r]
         == if r.workspace == workspace && Restored(rows, Key(r)) == Some(r) then 1 else 0
  {
    var list := LiveIn(FirstPerKey(rows), workspace);
    FirstPerKeyDistinct(rows);
    DistinctNumbers(FirstPerKey(rows), workspace);
    AtMostOnce(list, r);
    hide LiveIn, FirstPerKey, Restored;
    assert r in list <==> multiset(list)[r] > 0;
    if r in list {
      LiveRestored(rows, workspace, r);
    } else if r.workspace == workspace && Restored(rows, Key(r)) == Some(r) {
      RestoredLive(rows, r);
    }
  }

  lemma {:induction false} LiveRestored(rows: seq<Row>, workspace: string, r: ExporterRecord)
    requires r in LiveIn(FirstPerKey(rows), workspace)
    ensures r.workspace == workspace && Restored(rows, Key(r)) == Some(r)
  {
    var latest := FirstPerKey(rows);
    FilterMapMembers(latest, LiveRow(workspace), r);
    var i :| 0 <= i < |latest| && LiveRow(workspace)(latest[i]) == Some(r);
    FirstPerKeyMembers(rows, latest[i]);
  }

  lemma {:induction false} RestoredLive(rows: seq<Row>, r: ExporterRecord)
    requires Restored(rows, Key(r)) == Some(r)
    ensures r in LiveIn(FirstPerKey(rows), r.workspace)
  {
    var latest, first := FirstPerKey(rows), FirstOf(rows, Key(r)).value;
    FirstOfFacts(rows, Key(r));
    FirstPerKeyMembers(rows, first);
    FilterMapMembers(latest, LiveRow(r.workspace), r);
    var i :| 0 <= i < |latest| && latest[i] == first;
    assert LiveRow(r.workspace)(latest[i]) == Some(r);
  }

  lemma {:induction false} DistinctNumbers(rows: seq<Row>, workspace: string)
    requires KeysDistinct(rows)
    ensures var list := LiveIn(rows, workspace);
            && (forall r | r in list :: r.workspace == workspace && HasKey(rows, Key(r)))
            && (forall i, j | 0 <= i < j < |list| :: list[i].number != list[j].number)
  {
    if rows != [] {
      var front, last := rows[..|rows| - 1], rows[|rows| - 1];
      DistinctNumbers(front, workspace);
      KeysGrow(front, last);
      assert front + [last] == rows;
      KeyIsNew(rows, |rows| - 1);
    }
  }

  lemma {:induction false} AtMostOnce(list: seq<ExporterRecord>, r: ExporterRecord)
    requires forall i, j | 0 <= i < j < |list| :: list[i].number != list[j].number
    ensures multiset(list)[r] <= 1
  {
    if list != [] {
      var front, last := list[..|list| - 1], list[|list| - 1];
      AtMostOnce(front, r);
      assert list == front + [last];
      if last == r {
        assert r !in front;
      }
    }
  }

  /** The last row of the exporter's key in the log is its own and not a tombstone. */
  ghost predicate IsLive(log: seq<Row>, r: ExporterRecord) {
    exists i :: LastRow(log, i, r)
  }

  ghost predicate LastRow(log: seq<Row>, i: int, r: ExporterRecord) {
    && 0 <= i < |log| && log[i].record == r && !log[i].deleted
    && forall j | i < j < |log| :: log[j].record.workspace != r.workspace || log[j].record.number != r.number
  }

  /** A mirrored registry lists exactly the exporters whose last row in the log is live, each once. */
  lemma {:induction false} MirrorsExactly(reg: Registry, log: seq<Row>, workspace: string, r: ExporterRecord)
    requires Mirrors(reg, log)
    ensures multiset(ListOf(reg, workspace))[r] == if r.workspace == workspace && IsLive(log, r) then 1 else 0
  {
    assert multiset(Reloaded(log, workspace)) == multiset(ListOf(reg, workspace));
    LiveCount(Reversed(log), workspace, r);
    LastRowExactly(log, r);
  }

  lemma {:induction false} LiveMembers(reg: Registry, log: seq<Row>)
    requires Consistent(reg, log)
    ensures forall w, r :: r in ListOf(reg, w) <==> r.workspace == w && IsLive(log, r)
  {
    forall w, r
      ensures r in ListOf(reg, w) <==> r.workspace == w && IsLive(log, r)
    {
      MirrorsExactly(reg, log, w, r);
      assert r in ListOf(reg, w) <==> multiset(ListOf(reg, w))[r] > 0;
    }
  }

  lemma {:induction false} LastRowExactly(log: seq<Row>, r: ExporterRecord)
    ensures IsLive(log, r) <==> Restored(Reversed(log), Key(r)) == Some(r)
  {
    hide FirstOf, Reversed;
    if i :| LastRow(log, i, r) {
      assert Key(log[i].record) == Key(r);
      assert forall j | i < j < |log| :: Key(log[j].record) != Key(log[i].record);
      LastOfKey(log, i);
    }
    if Restored(Reversed(log), Key(r)) == Some(r) {
      FirstOfFacts(Reversed(log), Key(r));
      ReversedMembers(log);
      var m :| 0 <= m < |log| && Key(log[m].record) == Key(r);
      var i := LastFrom(log, Key(r), m);
      LastOfKey(log, i);
      assert LastRow(log, i, r);
    }
  }

  lemma {:induction false} LastFrom(log: seq<Row>, key: (string, nat), m: nat) returns (i: nat)
    requires m < |log| && Key(log[m].record) == key
    ensures i < |log| && Key(log[i].record) == key && forall j | i < j < |log| :: Key(log[j].record) != key
    decreases |log| - m
  {
    i := m;
    if j :| m < j < |log| && Key(log[j].record) == key {
      i := LastFrom(log, key, j);
    }
  }

  /** Two results restore the same exporters everywhere exactly if every key comes to the same in both. */
  lemma {:induction false} SameRestoreExactly(a: seq<Row>, b: seq<Row>)
    ensures (forall w :: multiset(LiveIn(FirstPerKey(a), w)) == multiset(LiveIn(FirstPerKey(b), w)))
       <==> (forall k :: Restored(a, k) == Restored(b, k))
  {
    if forall k :: Restored(a, k) == Restored(b, k) {
      forall w
        ensures multiset(LiveIn(FirstPerKey(a), w)) == multiset(LiveIn(FirstPerKey(b), w))
      {
        forall r
          ensures multiset(LiveIn(FirstPerKey(a), w))[r] == multiset(LiveIn(FirstPerKey(b), w))[r]
        {
          LiveCount(a, w, r);
          LiveCount(b, w, r);
        }
      }
    }
    if forall w :: multiset(LiveIn(FirstPerKey(a), w)) == multiset(LiveIn(FirstPerKey(b), w)) {
      forall k
        ensures Restored(a, k) == Restored(b, k)
      {
        RestoredFromCounts(a, b, k);
        RestoredFromCounts(b, a, k);
      }
    }
  }

  lemma {:induction false} RestoredFromCounts(a: seq<Row>, b: seq<Row>, k: (string, nat))
    requires multiset(LiveIn(FirstPerKey(a), k.0)) == multiset(LiveIn(FirstPerKey(b), k.0))
    ensures Restored(a, k).Some? ==> Restored(b, k) == Restored(a, k)
  {
    if Restored(a, k).Some? {
      FirstOfFacts(a, k);
      var r := Restored(a, k).value;
      LiveCount(a, k.0, r);
      LiveCount(b, k.0, r);
    }
  }

  /** The row at i has the greatest time of its key. */
  ghost predicate NewestOfKey(log: seq<Row>, i: nat)
    requires i < |log|
  {
    forall j | 0 <= j < |log| && Key(log[j].record) == Key(log[i].record) :: log[j].mirroredAt <= log[i].mirroredAt
  }

  /** For every key, all rows with its greatest time come to the same as its last row: both deleted, or one exporter. */
  ghost predicate TiesAgree(log: seq<Row>) {
    forall i | 0 <= i < |log| && NewestOfKey(log, i) ::
      Live(log[i]) == Restored(Reversed(log), Key(log[i].record))
  }

  /** The rows of one key have increasing times; different keys may share them. */
  ghost predicate KeyIncreasing(log: seq<Row>) {
    forall i, j | 0 <= i < j < |log| && Key(log[i].record) == Key(log[j].record) ::
      log[i].mirroredAt < log[j].mirroredAt
  }

  lemma {:induction false} FirstOfCons(x: Row, rows: seq<Row>, key: (string, nat))
    ensures FirstOf([x] + rows, key) == if Key(x.record) == key then Some(x) else FirstOf(rows, key)
  {
    var all := [x] + rows;
    if rows == [] {
      assert all[..0] == [] && FirstOf([], key) == None;
    } else {
      assert all[..|all| - 1] == [x] + rows[..|rows| - 1];
      FirstOfCons(x, rows[..|rows| - 1], key);
    }
  }

  /** The last row of a key comes first in the reversed log. */
  lemma {:induction false} LastOfKey(log: seq<Row>, i: nat)
    requires i < |log| && forall j | i < j < |log| :: Key(log[j].record) != Key(log[i].record)
    ensures FirstOf(Reversed(log), Key(log[i].record)) == Some(log[i])
  {
    var n := |log| - 1;
    FirstOfCons(log[n], Reversed(log[..n]), Key(log[i].record));
    if i < n {
      LastOfKey(log[..n], i);
    }
  }

  /** Increasing times within each key leave no ties. */
  lemma {:induction false} KeyIncreasingSuffices(log: seq<Row>)
    requires KeyIncreasing(log)
    ensures TiesAgree(log)
  {
    forall i | 0 <= i < |log| && NewestOfKey(log, i)
      ensures Live(log[i]) == Restored(Reversed(log), Key(log[i].record))
    {
      LastOfKey(log, i);
    }
  }

  lemma {:induction false} FirstOfIsNewest(rows: seq<Row>, key: (string, nat), j: nat)
    requires forall a, b | 0 <= a < b < |rows| :: rows[a].mirroredAt >= rows[b].mirroredAt
    requires j < |rows| && Key(rows[j].record) == key
    ensures FirstOf(rows, key).Some? && rows[j].mirroredAt <= FirstOf(rows, key).value.mirroredAt
  {
    var n := |rows| - 1;
    FirstOfFacts(rows, key);
    FirstOfFacts(rows[..n], key);
    if j < n {
      FirstOfIsNewest(rows[..n], key, j);
    } else if FirstOf(rows[..n], key).Some? {
      var k :| 0 <= k < n && rows[..n][k] == FirstOf(rows[..n], key).value;
      assert rows[k].mirroredAt >= rows[j].mirroredAt;
    }
  }

  /** If ties agree, every result of the query restores what the log says. */
  lemma {:induction false} QueryRestores(log: seq<Row>, rows: seq<Row>)
    requires NewestFirst(rows, log) && TiesAgree(log)
    ensures forall w :: multiset(LiveIn(FirstPerKey(rows), w)) == multiset(Reloaded(log, w))
  {
    RowsOfLog(rows, log);
    ReversedMembers(log);
    forall k
      ensures Restored(rows, k) == Restored(Reversed(log), k)
    {
      QueryRestoresKey(log, rows, k);
    }
    SameRestoreExactly(rows, Reversed(log));
  }

  lemma {:induction false} ReversedMembers<T>(s: seq<T>)
    ensures forall x :: x in Reversed(s) <==> x in s
  {
    if s != [] {
      ReversedMembers(s[..|s| - 1]);
    }
  }

  lemma {:induction false} SameKeys(a: seq<Row>, b: seq<Row>, k: (string, nat))
    requires forall r :: r in a <==> r in b
    ensures HasKey(a, k) <==> HasKey(b, k)
  {
    if i :| 0 <= i < |a| && Key(a[i].record) == k {
      assert a[i] in b;
    }
    if i :| 0 <= i < |b| && Key(b[i].record) == k {
      assert b[i] in a;
    }
  }

  lemma {:induction false} QueryRestoresKey(log: seq<Row>, rows: seq<Row>, k: (string, nat))
    requires NewestFirst(rows, log) && TiesAgree(log)
    requires (forall r :: r in rows <==> r in log) && (forall r :: r in Reversed(log) <==> r in log)
    ensures Restored(rows, k) == Restored(Reversed(log), k)
  {
    FirstOfFacts(rows, k);
    FirstOfFacts(Reversed(log), k);
    SameKeys(rows, Reversed(log), k);
    if FirstOf(rows, k).Some? {
      var x := FirstOf(rows, k).value;
      assert x in log;
      var i :| 0 <= i < |log| && log[i] == x;
      forall j | 0 <= j < |log| && Key(log[j].record) == Key(log[i].record)
        ensures log[j].mirroredAt <= log[i].mirroredAt
      {
        assert log[j] in rows;
        var m :| 0 <= m < |rows| && rows[m] == log[j];
        FirstOfIsNewest(rows, k, m);
      }
      assert NewestOfKey(log, i);
    }
  }

  predicate Newer(a: Row, b: Row) {
    a.mirroredAt >= b.mirroredAt
  }

  /** A result of the query in which a given row comes before all others of its time. */
  function Favoring(log: seq<Row>, i: nat): seq<Row>
    requires i < |log|
  {
    Insert(log[i], Sort(log[..i] + log[i + 1..], Newer), Newer)
  }

  lemma {:induction false} FavoringIsResult(log: seq<Row>, i: nat)
    requires i < |log|
    ensures NewestFirst(Favoring(log, i), log)
  {
    var rest := log[..i] + log[i + 1..];
    assert [log[i]] + rest == [([log[i]] + rest)[0]] + ([log[i]] + rest)[1..];
    assert ([log[i]] + rest)[1..] == rest;
    assert Favoring(log, i) == Sort([log[i]] + rest, Newer);
    SortPermutes([log[i]] + rest, Newer);
    assert log == log[..i] + [log[i]] + log[i + 1..];
    assert TotalPreorder(Newer);
    SortSorts([log[i]] + rest, Newer);
  }

  /** A row with the greatest time of its key comes first of its key in the result that favors it. */
  lemma {:induction false} FavoredIsFirst(x: Row, s: seq<Row>)
    requires forall y | y in s && Key(y.record) == Key(x.record) :: y.mirroredAt <= x.mirroredAt
    ensures FirstOf(Insert(x, s, Newer), Key(x.record)) == Some(x)
  {
    if s == [] || Newer(x, s[0]) {
      FirstOfCons(x, s, Key(x.record));
      assert s == [] ==> [x] + s == [x];
    } else {
      assert s[0] in s && forall y | y in s[1..] :: y in s;
      FavoredIsFirst(x, s[1..]);
      FirstOfCons(s[0], Insert(x, s[1..], Newer), Key(x.record));
    }
  }

  /**
   The round trip holds exactly when ties agree: then every result the query may return restores, workspace by
   workspace, the live exporters, and otherwise some result does not.
   */
  lemma {:induction false} ReloadRestoresExactly(reg: Registry, log: seq<Row>)
    requires Mirrors(reg, log)
    ensures (forall rows | NewestFirst(rows, log) :: RestoresAll(reg, rows)) <==> TiesAgree(log)
  {
    if TiesAgree(log) {
      forall rows | NewestFirst(rows, log)
        ensures RestoresAll(reg, rows)
      {
        QueryRestores(log, rows);
      }
    } else {
      var i :| 0 <= i < |log| && NewestOfKey(log, i) && Live(log[i]) != Restored(Reversed(log), Key(log[i].record));
      TieBreaks(reg, log, i);
    }
  }

  /** The result of the query gives back exactly the live exporters. */
  ghost predicate RestoresAll(reg: Registry, rows: seq<Row>) {
    forall w :: multiset(LiveIn(FirstPerKey(rows), w)) == multiset(ListOf(reg, w))
  }

  lemma {:induction false} TieBreaks(reg: Registry, log: seq<Row>, i: nat)
    requires Mirrors(reg, log) && i < |log| && NewestOfKey(log, i)
    requires Live(log[i]) != Restored(Reversed(log), Key(log[i].record))
    ensures NewestFirst(Favoring(log, i), log) && !RestoresAll(reg, Favoring(log, i))
  {
    var rows, rest := Favoring(log, i), log[..i] + log[i + 1..];
    FavoringIsResult(log, i);
    SortPermutes(rest, Newer);
    forall y | y in Sort(rest, Newer) && Key(y.record) == Key(log[i].record)
      ensures y.mirroredAt <= log[i].mirroredAt
    {
      assert y in rest;
      var j :| 0 <= j < |log| && log[j] == y;
    }
    FavoredIsFirst(log[i], Sort(rest, Newer));
    if RestoresAll(reg, rows) {
      RestoredKeys(reg, log, rows, Key(log[i].record));
      assert false;
    }
  }

  lemma {:induction false} RestoredKeys(reg: Registry, log: seq<Row>, rows: seq<Row>, k: (string, nat))
    requires Mirrors(reg, log) && RestoresAll(reg, rows)
    ensures Restored(rows, k) == Restored(Reversed(log), k)
  {
    forall w
      ensures multiset(LiveIn(FirstPerKey(rows), w)) == multiset(LiveIn(FirstPerKey(Reversed(log)), w))
    {
      assert multiset(Reloaded(log, w)) == multiset(ListOf(reg, w));
    }
    SameRestoreExactly(rows, Reversed(log));
  }

  /** Registered and deleted within one second: a result of the query may bring the exporter back. */
  lemma {:induction false} TieResurrects(r: ExporterRecord, at: int)
    ensures var log := [Row(r, false, at), Row(r, true, at)];
            && NewestFirst(log, log) && !TiesAgree(log)
            && Restored(log, Key(r)) == Some(r) && Restored(Reversed(log), Key(r)) == None
  {
    var log := [Row(r, false, at), Row(r, true, at)];
    FirstOfCons(log[0], [log[1]], Key(r));
    assert log == [log[0]] + [log[1]];
    LastOfKey(log, 1);
    assert NewestOfKey(log, 0);
  }

  // ---------------------------------------------------------------- runs over many process generations

  datatype State = State(reg: Registry, log: seq<Row>)

  /** What can happen: a restart loses the registry and refills it from some result of the query. */
  datatype Op =
    | Register(user: string, workspace: string, clean: string, now: int, at: int)
    | Delete(user: string, workspace: string, number: nat, at: int)
    | Restart(rows: seq<Row>)

  ghost predicate Next(s: State, op: Op, t: State) {
    match op
    case Register(user, workspace, clean, now, at) =>
      if 1 <= |clean| <= 64 then
        exists number: nat :: LeastFree(ListOf(s.reg, workspace), number)
          && t == Registered(s, ExporterRecord(workspace, user, number, clean, now), at)
      else t == s
    case Delete(user, workspace, number, at) =>
      var list := ListOf(s.reg, workspace);
      if OwnsAll(list, user) && HasNumber(list, number) then
        exists i :: 0 <= i < |list| && list[i].number == number && t == Deleted(s, list[i], at)
      else t == s
    case Restart(rows) =>
      t.log == s.log && NewestFirst(rows, s.log) && Holds(t.reg, FirstPerKey(rows))
  }

  function Registered(s: State, r: ExporterRecord, at: int): State {
    State(s.reg[r.workspace := ListOf(s.reg, r.workspace) + [r]], s.log + [Row(r, false, at)])
  }

  function Deleted(s: State, r: ExporterRecord, at: int): State {
    State(s.reg[r.workspace := Dropping(ListOf(s.reg, r.workspace), r.number)], s.log + [Row(r, true, at)])
  }

  lemma RegisteredConsistent(s: State, r: ExporterRecord, at: int)
    requires Consistent(s.reg, s.log) && LeastFree(ListOf(s.reg, r.workspace), r.number)
    ensures Consistent(Registered(s, r, at).reg, Registered(s, r, at).log)
  {
    RegisterMirrors(s.reg, s.log, r, at);
    hide Mirrors;
  }

  lemma DeletedConsistent(s: State, i: nat, workspace: string, at: int)
    requires Consistent(s.reg, s.log) && i < |ListOf(s.reg, workspace)|
    ensures var t := Deleted(s, ListOf(s.reg, workspace)[i], at); Consistent(t.reg, t.log)
  {
    var list := ListOf(s.reg, workspace);
    assert list[i].workspace == workspace;
    DeleteMirrors(s.reg, s.log, list[i], at);
    DropAt(list, i);
    hide Mirrors, Dropping;
  }

  /** A refilled registry satisfies everything the operations rely on. */
  lemma {:induction false} RestartConsistent(reg: Registry, log: seq<Row>, rows: seq<Row>)
    requires Positive(log) && TiesAgree(log) && NewestFirst(rows, log) && Holds(reg, FirstPerKey(rows))
    ensures Consistent(reg, log)
  {
    RowsOfLog(rows, log);
    RestartNumbered(reg, rows);
    QueryRestores(log, rows);
    RestartMirrors(reg, log, rows);
    hide WellNumbered, Mirrors, Positive;
  }

  /** When all times differ the lists also come back in the order of the log, newest write first. */
  lemma {:induction false} RestartOrdered(reg: Registry, log: seq<Row>, rows: seq<Row>)
    requires NewestFirst(rows, log) && Holds(reg, FirstPerKey(rows))
    ensures Increasing(log) ==> forall w :: ListOf(reg, w) == Reloaded(log, w)
  {
    if Increasing(log) {
      NewestFirstIsReversed(rows, log);
    }
  }

  lemma {:induction false} RowsOfLog(rows: seq<Row>, log: seq<Row>)
    requires multiset(rows) == multiset(log)
    ensures forall r :: r in rows <==> r in log
  {
    assert forall r :: r in rows <==> r in multiset(rows);
    assert forall r :: r in log <==> r in multiset(log);
  }

  lemma {:induction false} RestartNumbered(reg: Registry, rows: seq<Row>)
    requires Holds(reg, FirstPerKey(rows)) && forall r | r in rows :: r.record.number >= 1
    ensures WellNumbered(reg)
  {
    FirstPerKeyDistinct(rows);
    FirstPerKeyRows(rows);
    forall w | w in reg
      ensures forall i | 0 <= i < |reg[w]| :: reg[w][i].workspace == w && reg[w][i].number >= 1
      ensures forall i, j | 0 <= i < j < |reg[w]| :: reg[w][i].number != reg[w][j].number
    {
      assert reg[w] == ListOf(reg, w);
      LiveNumbered(FirstPerKey(rows), w);
    }
  }

  lemma {:induction false} RestartMirrors(reg: Registry, log: seq<Row>, rows: seq<Row>)
    requires Holds(reg, FirstPerKey(rows))
    requires forall w :: multiset(LiveIn(FirstPerKey(rows), w)) == multiset(Reloaded(log, w))
    ensures Mirrors(reg, log)
  {
    hide LiveIn, FirstPerKey, Reloaded;
  }

  lemma {:induction false} FirstPerKeyRows(rows: seq<Row>)
    ensures forall r | r in FirstPerKey(rows) :: r in rows
  {
    if rows != [] {
      FirstPerKeyRows(rows[..|rows| - 1]);
    }
  }

  /** Live rows under different keys give different positive numbers of the workspace. */
  lemma {:induction false} LiveNumbered(rows: seq<Row>, workspace: string)
    requires KeysDistinct(rows) && forall r | r in rows :: r.record.number >= 1
    ensures var list := LiveIn(rows, workspace);
            && (forall r | r in list :: r.workspace == workspace && r.number >= 1 && HasKey(rows, Key(r)))
            && (forall i, j | 0 <= i < j < |list| :: list[i].number != list[j].number)
  {
    if rows != [] {
      var front, last := rows[..|rows| - 1], rows[|rows| - 1];
      LiveNumbered(front, workspace);
      KeysGrow(front, last);
      assert front + [last] == rows;
      KeyIsNew(rows, |rows| - 1);
    }
  }

  ghost predicate IsRun(states: seq<State>, ops: seq<Op>) {
    && |states| == |ops| + 1 && states[0] == State(map[], [])
    && (forall k | 0 <= k < |ops| :: Next(states[k], ops[k], states[k + 1]))
    && (forall k | 0 <= k < |ops| && ops[k].Restart? :: TiesAgree(states[k].log))
  }

  lemma NextConsistent(s: State, op: Op, t: State)
    requires Consistent(s.reg, s.log) && Next(s, op, t) && (op.Restart? ==> TiesAgree(s.log))
    ensures Consistent(t.reg, t.log)
  {
    match op
    case Register(user, workspace, clean, now, at) =>
      if 1 <= |clean| <= 64 {
        var number: nat :| LeastFree(ListOf(s.reg, workspace), number)
          && t == Registered(s, ExporterRecord(workspace, user, number, clean, now), at);
        RegisteredConsistent(s, ExporterRecord(workspace, user, number, clean, now), at);
      }
    case Delete(user, workspace, number, at) =>
      var list := ListOf(s.reg, workspace);
      if OwnsAll(list, user) && HasNumber(list, number) {
        var i :| 0 <= i < |list| && list[i].number == number && t == Deleted(s, list[i], at);
        DeletedConsistent(s, i, workspace, at);
      }
    case Restart(rows) =>
      RestartConsistent(t.reg, t.log, rows);
  }

  /**
   In every state of every run of registrations, deletions and restarts: numbers are unique and the mirror is exact.
   */
  lemma {:induction false} RunConsistent(states: seq<State>, ops: seq<Op>, k: nat)
    requires IsRun(states, ops) && k < |states|
    ensures Consistent(states[k].reg, states[k].log)
  {
    if k > 0 {
      RunConsistent(states, ops, k - 1);
      NextConsistent(states[k - 1], ops[k - 1], states[k]);
    }
  }

  /** A restart at any point of any run, from any result the query may return, restores exactly the live exporters. */
  lemma RestartLosesNothing(states: seq<State>, ops: seq<Op>, k: nat)
    requires IsRun(states, ops) && k < |ops| && ops[k].Restart?
    ensures forall w :: multiset(ListOf(states[k + 1].reg, w)) == multiset(ListOf(states[k].reg, w))
  {
    RunConsistent(states, ops, k);
    var s, t := states[k], states[k + 1];
    assert Next(s, ops[k], t);
    RestartConsistent(t.reg, t.log, ops[k].rows);
    forall w
      ensures multiset(ListOf(t.reg, w)) == multiset(ListOf(s.reg, w))
    {
      assert multiset(Reloaded(s.log, w)) == multiset(ListOf(s.reg, w));
    }
  }

  // ---------------------------------------------------------------- the registry object

  class ExporterRegistry {
    var byWorkspace: Registry
    var log: seq<Row>  // the mirror table

    ghost predicate Valid()
      reads this
    {
      Consistent(byWorkspace, log)
    }

    ghost function Now(): State
      reads this
    {
      State(byWorkspace, log)
    }

    /** A new process on an existing mirror table, empty for the first one. */
    constructor (log: seq<Row>)
      ensures byWorkspace == map[] && this.log == log
      ensures log == [] ==> Valid()
    {
      byWorkspace, this.log := map[], log;
    }

    /**
     Register under the least free number; `clean` is the stripped name, `now` and `at` are the two clock readings.
     */
    method Register(user: string, workspace: string, clean: string, now: int, at: int)
      returns (r: Option<ExporterRecord>)
      requires Valid()
      modifies this
      ensures Valid()
      ensures r.None? <==> !(1 <= |clean| <= 64)
      ensures r.Some? ==>
                var list := ListOf(old(byWorkspace), workspace);
                && r.value.number >= 1 && (forall i | 0 <= i < |list| :: list[i].number != r.value.number)
                && forall k | 1 <= k < r.value.number :: HasNumber(list, k)
      ensures r.None? ==> byWorkspace == old(byWorkspace) && log == old(log)
      ensures r.Some? ==>
                && r.value == ExporterRecord(workspace, user, r.value.number, clean, now)
                && byWorkspace == old(byWorkspace)[workspace := ListOf(old(byWorkspace), workspace) + [r.value]]
                && log == old(log) + [Row(r.value, false, at)]
      ensures Next(old(Now()), Op.Register(user, workspace, clean, now, at), Now())
    {
      if clean == "" || |clean| > 64 {
        return None;
      }
      var existing := ListOf(byWorkspace, workspace);
      var number := FreeNumber(existing);
      var record := ExporterRecord(workspace, user, number, clean, now);
      RegisteredConsistent(Now(), record, at);
      assert forall i | 0 <= i < |existing| :: existing[i].number != number;
      hide Consistent, LeastFree, HasNumber;
      byWorkspace := byWorkspace[workspace := existing + [record]];
      log := log + [Row(record, false, at)];
      r := Some(record);
    }

    method FreeNumber(list: seq<ExporterRecord>) returns (number: nat)
      ensures LeastFree(list, number)
    {
      number := 1;
      while HasNumber(list, number)
        invariant number >= 1
        invariant forall k | 1 <= k < number :: HasNumber(list, k)
        decreases |list| + 1 - number
      {
        UsedNumbers(list, number + 1);
        number := number + 1;
      }
    }

    /** The workspace's exporters for their owner; None hides a foreign workspace. */
    method ListOwned(user: string, workspace: string) returns (r: Option<seq<ExporterRecord>>)
      ensures var list := ListOf(byWorkspace, workspace);
              && (r.None? <==> exists i :: 0 <= i < |list| && list[i].user != user)
              && (r.Some? ==> r.value == list)
    {
      var records := ListOf(byWorkspace, workspace);
      if exists i :: 0 <= i < |records| && records[i].user != user {
        return None;
      }
      r := Some(records);
    }

    method GetOwned(user: string, workspace: string, number: nat) returns (r: Option<ExporterRecord>)
      requires Valid()
      ensures var list := ListOf(byWorkspace, workspace);
              && (r.None? <==>
                    || (exists i :: 0 <= i < |list| && list[i].user != user)
                    || (forall i | 0 <= i < |list| :: list[i].number != number))
              && (r.Some? ==> r.value in list && r.value.number == number)
    {
      var listed := ListOwned(user, workspace);
      if listed.None? {
        return None;
      }
      for i := 0 to |listed.value|
        invariant forall k | 0 <= k < i :: listed.value[k].number != number
      {
        if listed.value[i].number == number {
          return Some(listed.value[i]);
        }
      }
      r := None;
    }

    /** Remove one exporter, owner only. */
    method Delete(user: string, workspace: string, number: nat, at: int) returns (r: Option<ExporterRecord>)
      requires Valid()
      modifies this
      ensures Valid()
      ensures var list := ListOf(old(byWorkspace), workspace);
              && (r.None? <==>
                    || (exists i :: 0 <= i < |list| && list[i].user != user)
                    || (forall i | 0 <= i < |list| :: list[i].number != number))
              && (r.None? ==> byWorkspace == old(byWorkspace) && log == old(log))
              && (r.Some? ==>
                    && log == old(log) + [Row(r.value, true, at)]
                    && exists i :: 0 <= i < |list| && list[i] == r.value && r.value.number == number
                         && byWorkspace == old(byWorkspace)[workspace := list[..i] + list[i + 1..]])
      ensures Next(old(Now()), Op.Delete(user, workspace, number, at), Now())
    {
      hide Consistent, Dropping;
      if workspace !in byWorkspace {
        return None;
      }
      var records := byWorkspace[workspace];
      if exists i :: 0 <= i < |records| && records[i].user != user {
        return None;
      }
      for i := 0 to |records|
        invariant byWorkspace == old(byWorkspace) && log == old(log)
        invariant forall k | 0 <= k < i :: records[k].number != number
      {
        if records[i].number == number {
          RemoveRecord(workspace, i, at);
          assert Now() == Deleted(old(Now()), records[i], at) && records == ListOf(old(Now()).reg, workspace);
          return Some(records[i]);
        }
      }
      r := None;
    }

    method RemoveRecord(workspace: string, i: nat, at: int)
      requires Valid() && workspace in byWorkspace && i < |byWorkspace[workspace]|
      modifies this
      ensures Valid()
      ensures var list := old(byWorkspace)[workspace];
              && byWorkspace == old(byWorkspace)[workspace := list[..i] + list[i + 1..]]
              && log == old(log) + [Row(list[i], true, at)]
              && Now() == Deleted(old(Now()), list[i], at)
    {
      var records := byWorkspace[workspace];
      DropAt(records, i);
      DeletedConsistent(Now(), i, workspace, at);
      assert records[i].workspace == workspace;
      hide Consistent, Dropping;
      byWorkspace := byWorkspace[workspace := records[..i] + records[i + 1..]];
      log := log + [Row(records[i], true, at)];
    }

    method Restore(record: ExporterRecord)
      modifies this`byWorkspace
      ensures byWorkspace == old(byWorkspace)[record.workspace := ListOf(old(byWorkspace), record.workspace) + [record]]
    {
      byWorkspace := byWorkspace[record.workspace := ListOf(byWorkspace, record.workspace) + [record]];
    }

    /**
     Boot: fill this empty registry from the query result, the newest row of each key first. Afterwards the registry is
     ready for every operation.
     */
    method Reload(rows: seq<Row>)
      requires byWorkspace == map[] && Positive(log) && TiesAgree(log) && NewestFirst(rows, log)
      modifies this`byWorkspace
      ensures Valid() && Holds(byWorkspace, FirstPerKey(rows))
      ensures forall w, r :: r in ListOf(byWorkspace, w) <==> r.workspace == w && IsLive(log, r)
      ensures Increasing(log) ==> forall w :: ListOf(byWorkspace, w) == Reloaded(log, w)
      ensures forall s: State | s.log == log :: Next(s, Restart(rows), Now())
    {
      hide NewestFirst, Positive, TiesAgree, Consistent, Increasing, Holds, FirstPerKey, Reloaded;
      RestoreAll(rows);
      RestartConsistent(byWorkspace, log, rows);
      RestartOrdered(byWorkspace, log, rows);
      LiveMembers(byWorkspace, log);
    }

    method RestoreAll(rows: seq<Row>)
      requires byWorkspace == map[]
      modifies this`byWorkspace
      ensures Holds(byWorkspace, FirstPerKey(rows))
    {
      var latest := FirstPerKey(rows);
      FirstPerKeyDistinct(rows);
      assert Holds(byWorkspace, latest[..0]);
      hide FirstPerKey, Holds, HasKey, KeysDistinct;
      var seen: set<(string, nat)> := {};
      for i := 0 to |latest|
        invariant Holds(byWorkspace, latest[..i])
        invariant forall k | k in seen :: HasKey(latest[..i], k)
      {
        assert latest[..i + 1] == latest[..i] + [latest[i]];
        KeyIsNew(latest, i);
        seen := RestoreRow(latest[..i], latest[i], seen);
      }
      assert latest[..|latest|] == latest;
    }

    /** One row of the result: deleted ones, and keys seen before, are skipped. */
    method RestoreRow(ghost done: seq<Row>, row: Row, seen: set<(string, nat)>) returns (now: set<(string, nat)>)
      requires Holds(byWorkspace, done) && !HasKey(done, Key(row.record)) && forall k | k in seen :: HasKey(done, k)
      modifies this`byWorkspace
      ensures Holds(byWorkspace, done + [row]) && forall k | k in now :: HasKey(done + [row], k)
    {
      HoldsOneMore(byWorkspace, done, row);
      KeysGrow(done, row);
      hide Holds, HasKey;
      now := seen;
      if !(row.deleted || Key(row.record) in seen) {
        now := seen + {Key(row.record)};
        Restore(row.record);
      }
    }
  }

  /** The registry holds, for every workspace, the live rows in their order. */
  ghost predicate Holds(reg: Registry, rows: seq<Row>) {
    forall w :: ListOf(reg, w) == LiveIn(rows, w)
  }

  lemma HoldsOneMore(reg: Registry, rows: seq<Row>, row: Row)
    requires Holds(reg, rows)
    ensures row.deleted ==> Holds(reg, rows + [row])
    ensures !row.deleted ==>
              Holds(reg[row.record.workspace := ListOf(reg, row.record.workspace) + [row.record]], rows + [row])
  {
    forall w
      ensures LiveIn(rows + [row], w)
           == LiveIn(rows, w) + (if !row.deleted && row.record.workspace == w then [row.record] else [])
    {
      FilterMapAppend(rows, row, LiveRow(w));
    }
  }

  lemma KeysGrow(rows: seq<Row>, row: Row)
    ensures HasKey(rows + [row], Key(row.record))
    ensures forall k | HasKey(rows, k) :: HasKey(rows + [row], k)
  {
    var longer := rows + [row];
    assert Key(longer[|rows|].record) == Key(row.record);
    forall k | HasKey(rows, k)
      ensures HasKey(longer, k)
    {
      var i :| 0 <= i < |rows| && Key(rows[i].record) == k;
      assert Key(longer[i].record) == k;
    }
  }

  ghost predicate KeysDistinct(rows: seq<Row>) {
    forall i, j | 0 <= i < j < |rows| :: Key(rows[i].record) != Key(rows[j].record)
  }

  lemma KeyIsNew(rows: seq<Row>, i: nat)
    requires KeysDistinct(rows) && i < |rows|
    ensures !HasKey(rows[..i], Key(rows[i].record))
  {
  }

  lemma {:induction false} FirstPerKeyDistinct(rows: seq<Row>)
    ensures KeysDistinct(FirstPerKey(rows))
  {
    if rows != [] {
      FirstPerKeyDistinct(rows[..|rows| - 1]);
    }
  }
}
