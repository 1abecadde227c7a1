/**
 Byte-exact deduplication over a dictionary keyed by observation time, shared by the scalar and the
 kline parser, and why the result does not depend on the order of the records.  How one record is read
 is a parameter.
 */
module Deduplication {
  import opened Wrappers
  import opened SortedInts

  /**
   One record on its own: its observation key, checked before duplicates are looked at, and its row,
   checked after.
   */
  datatype Grammar<!R, F> = Grammar(key: string -> Result<int, F>, row: string -> Result<R, F>, time: R -> int) {
    /** A row carries the key of its record. */
    ghost predicate Timed() {
      forall raw :: key(raw).Ok? && row(raw).Ok? ==> time(row(raw).value) == key(raw).value
    }
  }

  datatype ParseFault<F> = BadRecord(fault: F) | Conflict

  datatype ParseResult<R> = ParseResult(
    rows: seq<R>, sourceRows: nat, distinctRows: nat, duplicateRows: nat, sourceOrdered: bool,
    duplicateHashes: seq<string>)

  /** A record that is acceptable on its own. */
  predicate ValidRecord<R, F>(g: Grammar<R, F>, raw: string) {
    g.key(raw).Ok? && g.row(raw).Ok?
  }

  // ---------- which sources are accepted ----------

  ghost predicate AllValid<R, F>(g: Grammar<R, F>, records: seq<string>) {
    forall i :: 0 <= i < |records| ==> ValidRecord(g, records[i])
  }

  /** Records with the same observation key are the same bytes. */
  ghost predicate NoConflict<R, F>(g: Grammar<R, F>, records: seq<string>)
    requires AllValid(g, records)
  {
    forall i, j :: 0 <= i < j < |records| && g.key(records[i]) == g.key(records[j]) ==> records[i] == records[j]
  }

  ghost predicate Acceptable<R, F>(g: Grammar<R, F>, records: seq<string>) {
    AllValid(g, records) && NoConflict(g, records)
  }

  // ---------- what an accepted source gives ----------

  function Key<R, F>(g: Grammar<R, F>, raw: string): int
    requires ValidRecord(g, raw)
  {
    g.key(raw).value
  }

  function Row<R, F>(g: Grammar<R, F>, raw: string): R
    requires ValidRecord(g, raw)
  {
    g.row(raw).value
  }

  ghost predicate Increasing<R, F>(g: Grammar<R, F>, rows: seq<R>) {
    forall i, j :: 0 <= i < j < |rows| ==> g.time(rows[i]) < g.time(rows[j])
  }

  /** The rows are those of the records, each once, by time. */
  ghost predicate RowsOf<R, F>(rows: seq<R>, g: Grammar<R, F>, records: seq<string>)
    requires AllValid(g, records)
  {
    && Increasing(g, rows)
    && (forall i :: 0 <= i < |rows| ==> FromRecord(rows[i], g, records))
    && (forall i :: 0 <= i < |records| ==> Row(g, records[i]) in rows)
  }

  ghost predicate FromRecord<R, F>(row: R, g: Grammar<R, F>, records: seq<string>)
    requires AllValid(g, records)
  {
    exists i :: 0 <= i < |records| && Row(g, records[i]) == row
  }

  ghost predicate Ordered<R, F>(g: Grammar<R, F>, records: seq<string>)
    requires AllValid(g, records)
  {
    forall i :: 0 <= i < |records| - 1 ==> Key(g, records[i]) <= Key(g, records[i + 1])
  }

  /** A row's time is in a sequence of strictly increasing rows at one place only. */
  lemma {:induction false} SameRowsSameSequence<R, F>(g: Grammar<R, F>, r: seq<R>, s: seq<R>)
    requires Increasing(g, r) && Increasing(g, s) && (forall x :: x in r <==> x in s)
    ensures r == s
    decreases |r| + |s|
  {
    assert r != [] ==> r[0] in r;
    assert s != [] ==> s[0] in s;
    if r != [] && s != [] {
      FirstRow(g, r, s);
      RestRows(g, r, s);
      SameRowsSameSequence(g, r[1..], s[1..]);
      assert r == [r[0]] + r[1..] && s == [s[0]] + s[1..];
    }
  }

  lemma FirstRow<R, F>(g: Grammar<R, F>, r: seq<R>, s: seq<R>)
    requires r != [] && s != [] && Increasing(g, r) && Increasing(g, s) && (forall x :: x in r <==> x in s)
    ensures r[0] == s[0]
  {
    assert r[0] in r && s[0] in s;
    AtLeastFirst(g, s, r[0]);
    AtLeastFirst(g, r, s[0]);
  }

  /** The first row is the earliest. */
  lemma AtLeastFirst<R, F>(g: Grammar<R, F>, s: seq<R>, x: R)
    requires Increasing(g, s) && x in s
    ensures s != [] && g.time(s[0]) <= g.time(x) && (g.time(s[0]) == g.time(x) ==> s[0] == x)
  {
    var i :| 0 <= i < |s| && s[i] == x;
    assert i > 0 ==> g.time(s[0]) < g.time(s[i]);
  }

  lemma RestRows<R, F>(g: Grammar<R, F>, r: seq<R>, s: seq<R>)
    requires r != [] && s != [] && Increasing(g, r) && Increasing(g, s) && (forall x :: x in r <==> x in s) && r[0] == s[0]
    ensures Increasing(g, r[1..]) && Increasing(g, s[1..]) && (forall x :: x in r[1..] <==> x in s[1..])
  {
    forall x
      ensures x in r[1..] <==> x in s[1..]
    {
      RestMember(g, r, x);
      RestMember(g, s, x);
    }
  }

  lemma RestMember<R, F>(g: Grammar<R, F>, r: seq<R>, x: R)
    requires r != [] && Increasing(g, r)
    ensures x in r[1..] <==> x in r && x != r[0]
  {
    if x in r[1..] {
      var i :| 0 <= i < |r[1..]| && r[1..][i] == x;
      assert r[i + 1] == x && g.time(r[0]) < g.time(r[i + 1]);
    }
    if x in r && x != r[0] {
      var i :| 0 <= i < |r| && r[i] == x;
      assert r[1..][i - 1] == x;
    }
  }

  // ---------- reordering ----------

  /** The same raw records in any order. */
  ghost predicate Reordered(records: seq<string>, records': seq<string>) {
    multiset(records) == multiset(records')
  }

  lemma ReorderedMembers(records: seq<string>, records': seq<string>)
    requires Reordered(records, records')
    ensures |records| == |records'| && forall x :: x in records <==> x in records'
  {
    assert |multiset(records)| == |records| && |multiset(records')| == |records'|;
    assert forall x :: x in records <==> x in multiset(records);
    assert forall x :: x in records' <==> x in multiset(records');
  }

  lemma AcceptableByMembers<R, F>(g: Grammar<R, F>, records: seq<string>)
    ensures Acceptable(g, records) <==>
      (forall x :: x in records ==> ValidRecord(g, x))
      && (forall x, y :: x in records && y in records && g.key(x) == g.key(y) ==> x == y)
  {
    assert (forall x :: x in records ==> ValidRecord(g, x)) <==> AllValid(g, records);
    if Acceptable(g, records) {
      forall x, y | x in records && y in records && g.key(x) == g.key(y)
        ensures x == y
      {
        var i :| 0 <= i < |records| && records[i] == x;
        var j :| 0 <= j < |records| && records[j] == y;
      }
    }
  }

  /** Any reordering of the records is accepted or refused alike and gives the same rows. */
  lemma OrderIsIrrelevant<R, F>(g: Grammar<R, F>, records: seq<string>, records': seq<string>, rows: seq<R>, rows': seq<R>)
    requires Reordered(records, records')
    ensures Acceptable(g, records) <==> Acceptable(g, records')
    ensures Acceptable(g, records) && Acceptable(g, records') && RowsOf(rows, g, records) && RowsOf(rows', g, records') ==> rows == rows'
  {
    hide ValidRecord, Reordered;
    ReorderedMembers(records, records');
    AcceptableByMembers(g, records);
    AcceptableByMembers(g, records');
    if Acceptable(g, records) && Acceptable(g, records') && RowsOf(rows, g, records) && RowsOf(rows', g, records') {
      RowsInclude(g, records, records', rows, rows');
      RowsInclude(g, records', records, rows', rows);
      SameRowsSameSequence(g, rows, rows');
    }
  }

  lemma RowsInclude<R, F>(g: Grammar<R, F>, records: seq<string>, records': seq<string>, rows: seq<R>, rows': seq<R>)
    requires AllValid(g, records) && AllValid(g, records') && (forall x :: x in records ==> x in records')
    requires RowsOf(rows, g, records) && RowsOf(rows', g, records')
    ensures forall x :: x in rows ==> x in rows'
  {
    hide ValidRecord, Increasing;
    forall x | x in rows
      ensures x in rows'
    {
      var k :| 0 <= k < |rows| && rows[k] == x;
      assert FromRecord(rows[k], g, records);
      var i :| 0 <= i < |records| && Row(g, records[i]) == x;
      assert records[i] in records';
      var j :| 0 <= j < |records'| && records'[j] == records[i];
      assert Row(g, records'[j]) in rows';
    }
  }

  // ---------- the loop ----------

  type Unique<R> = map<int, (string, R)>

  /** The dictionary holds exactly the keys of the first n records, with their bytes and rows. */
  ghost predicate Collected<R, F>(unique: Unique<R>, keys: seq<int>, g: Grammar<R, F>, records: seq<string>, n: nat) {
    && n <= |records| && AllValid(g, records[..n])
    && (forall i :: 0 <= i < n ==> Held(unique, g, records[i]))
    && (forall t :: t in unique <==> t in keys)
    && (forall t :: t in unique ==> FromFirst(unique, g, records, n, t))
    && (forall i, j :: 0 <= i < j < |keys| ==> keys[i] != keys[j])
  }

  ghost predicate Held<R, F>(unique: Unique<R>, g: Grammar<R, F>, raw: string) {
    ValidRecord(g, raw) && Key(g, raw) in unique && unique[Key(g, raw)] == (raw, Row(g, raw))
  }

  ghost predicate FromFirst<R, F>(unique: Unique<R>, g: Grammar<R, F>, records: seq<string>, n: nat, t: int)
    requires t in unique
  {
    exists i :: 0 <= i < n <= |records| && ValidRecord(g, records[i]) && Key(g, records[i]) == t && unique[t] == (records[i], Row(g, records[i]))
  }

  lemma HeldStays<R, F>(unique: Unique<R>, g: Grammar<R, F>, raw: string, t: int, entry: (string, R))
    requires Held(unique, g, raw) && t !in unique
    ensures Held(unique[t := entry], g, raw)
  {
    hide ValidRecord;
  }

  /** A new observation key. */
  lemma CollectNew<R, F>(unique: Unique<R>, keys: seq<int>, g: Grammar<R, F>, records: seq<string>, n: nat)
    requires Collected(unique, keys, g, records, n) && n < |records| && ValidRecord(g, records[n]) && Key(g, records[n]) !in unique
    ensures Collected(unique[Key(g, records[n]) := (records[n], Row(g, records[n]))], keys + [Key(g, records[n])], g, records, n + 1)
  {
    hide ValidRecord;
    var t, entry := Key(g, records[n]), (records[n], Row(g, records[n]));
    var more := unique[t := entry];
    MoreValid(g, records, n);
    forall i | 0 <= i < n
      ensures Held(more, g, records[i])
    {
      HeldStays(unique, g, records[i], t, entry);
    }
    forall s | s in more
      ensures FromFirst(more, g, records, n + 1, s)
    {
      if s != t {
        assert FromFirst(unique, g, records, n, s);
      }
    }
    assert t !in keys;
  }

  lemma MoreValid<R, F>(g: Grammar<R, F>, records: seq<string>, n: nat)
    requires n < |records| && AllValid(g, records[..n]) && ValidRecord(g, records[n])
    ensures AllValid(g, records[..n + 1])
  {
    hide ValidRecord;
    var more := records[..n + 1];
    forall i | 0 <= i < |more|
      ensures ValidRecord(g, more[i])
    {
      if i < n {
        assert ValidRecord(g, records[..n][i]);
      }
    }
  }

  /** The same bytes again. */
  lemma CollectAgain<R, F>(unique: Unique<R>, keys: seq<int>, g: Grammar<R, F>, records: seq<string>, n: nat, t: int)
    requires Collected(unique, keys, g, records, n) && n < |records| && g.key(records[n]).Ok? && g.key(records[n]).value == t
    requires t in unique && unique[t].0 == records[n]
    ensures ValidRecord(g, records[n]) && Collected(unique, keys, g, records, n + 1)
  {
    hide ValidRecord;
    assert FromFirst(unique, g, records, n, t);
    var i :| 0 <= i < n && ValidRecord(g, records[i]) && Key(g, records[i]) == t && unique[t] == (records[i], Row(g, records[i]));
    assert records[i] == records[n];
    assert Held(unique, g, records[i]);
    MoreValid(g, records, n);
    forall s | s in unique
      ensures FromFirst(unique, g, records, n + 1, s)
    {
      assert FromFirst(unique, g, records, n, s);
    }
  }

  /** Different bytes under a known key. */
  lemma ConflictRefused<R, F>(unique: Unique<R>, keys: seq<int>, g: Grammar<R, F>, records: seq<string>, n: nat, t: int)
    requires Collected(unique, keys, g, records, n) && n < |records| && g.key(records[n]).Ok? && g.key(records[n]).value == t
    requires t in unique && unique[t].0 != records[n]
    ensures !Acceptable(g, records)
  {
    hide ValidRecord;
    assert FromFirst(unique, g, records, n, t);
    var i :| 0 <= i < n && ValidRecord(g, records[i]) && Key(g, records[i]) == t && unique[t] == (records[i], Row(g, records[i]));
    AcceptableByMembers(g, records);
    KeyIs(g, records[i], t);
    assert records[i] in records && records[n] in records;
  }

  lemma KeyIs<R, F>(g: Grammar<R, F>, raw: string, t: int)
    requires ValidRecord(g, raw) && Key(g, raw) == t
    ensures g.key(raw) == Ok(t)
  {
      }

  lemma InvalidRefused<R, F>(g: Grammar<R, F>, records: seq<string>, n: nat)
    requires n < |records| && !ValidRecord(g, records[n])
    ensures !Acceptable(g, records)
  {
    hide ValidRecord;
  }

  // ---------- the rows by time ----------

  method RowsByTime<R, F>(unique: Unique<R>, keys: seq<int>, ghost g: Grammar<R, F>, ghost records: seq<string>) returns (rows: seq<R>)
    requires Collected(unique, keys, g, records, |records|)
    requires g.Timed()
    ensures AllValid(g, records) && RowsOf(rows, g, records) && |rows| == |keys|
  {
    hide ValidRecord, Collected;
    var sorted := Sorted(keys);
    CollectedKeys(unique, keys, g, records);
    Sorts(keys);
    rows := [];
    for i := 0 to |sorted|
      invariant |rows| == i && forall k :: 0 <= k < i ==> sorted[k] in unique && rows[k] == unique[sorted[k]].1
    {
      assert sorted[i] in sorted;
      rows := rows + [unique[sorted[i]].1];
    }
    RowsAreRight(unique, keys, sorted, rows, g, records);
  }

  lemma CollectedKeys<R, F>(unique: Unique<R>, keys: seq<int>, g: Grammar<R, F>, records: seq<string>)
    requires Collected(unique, keys, g, records, |records|)
    ensures AllValid(g, records) && (forall t :: t in unique <==> t in keys)
    ensures forall i, j :: 0 <= i < j < |keys| ==> keys[i] != keys[j]
  {
    hide ValidRecord;
    assert records[..|records|] == records;
  }

  lemma RowFromFirst<R, F>(unique: Unique<R>, keys: seq<int>, g: Grammar<R, F>, records: seq<string>, t: int)
    requires g.Timed() && Collected(unique, keys, g, records, |records|) && AllValid(g, records) && t in unique
    ensures g.time(unique[t].1) == t && FromRecord(unique[t].1, g, records)
  {
    hide ValidRecord;
    assert FromFirst(unique, g, records, |records|, t);
    var i :| 0 <= i < |records| && ValidRecord(g, records[i]) && Key(g, records[i]) == t && unique[t] == (records[i], Row(g, records[i]));
    RowTime(g, records[i]);
  }

  lemma RowTime<R, F>(g: Grammar<R, F>, raw: string)
    requires g.Timed() && ValidRecord(g, raw)
    ensures g.time(Row(g, raw)) == Key(g, raw)
  {
  }

  lemma HeldAt<R, F>(unique: Unique<R>, keys: seq<int>, g: Grammar<R, F>, records: seq<string>, i: nat)
    requires Collected(unique, keys, g, records, |records|) && i < |records|
    ensures Held(unique, g, records[i])
  {
    hide Held;
  }

  lemma RowsAreRight<R, F>(unique: Unique<R>, keys: seq<int>, sorted: seq<int>, rows: seq<R>, g: Grammar<R, F>, records: seq<string>)
    requires g.Timed() && Collected(unique, keys, g, records, |records|) && AllValid(g, records)
    requires Ascending(sorted) && (forall t :: t in sorted <==> t in unique) && |rows| == |sorted|
    requires forall k :: 0 <= k < |rows| ==> sorted[k] in unique && rows[k] == unique[sorted[k]].1
    ensures RowsOf(rows, g, records)
  {
    hide ValidRecord, Collected, FromRecord;
    forall k | 0 <= k < |rows|
      ensures g.time(rows[k]) == sorted[k] && FromRecord(rows[k], g, records)
    {
      RowFromFirst(unique, keys, g, records, sorted[k]);
    }
    forall i | 0 <= i < |records|
      ensures Row(g, records[i]) in rows
    {
      HeldAt(unique, keys, g, records, i);
      assert Key(g, records[i]) in sorted;
      var k :| 0 <= k < |sorted| && sorted[k] == Key(g, records[i]);
      assert rows[k] == Row(g, records[i]);
    }
  }

  // ---------- the operation ----------

  lemma OrderNext<R, F>(g: Grammar<R, F>, records: seq<string>, n: nat)
    requires 0 < n < |records| && AllValid(g, records[..n]) && AllValid(g, records[..n + 1])
    ensures ValidRecord(g, records[n - 1]) && ValidRecord(g, records[n])
    ensures Ordered(g, records[..n + 1]) <==> Ordered(g, records[..n]) && Key(g, records[n - 1]) <= Key(g, records[n])
  {
    hide ValidRecord;
    assert records[..n][n - 1] == records[n - 1] && records[..n + 1][n] == records[n];
    var x, y := records[..n], records[..n + 1];
    assert forall i :: 0 <= i < n ==> x[i] == y[i];
    if Ordered(g, y) {
      forall i | 0 <= i < n - 1
        ensures Key(g, x[i]) <= Key(g, x[i + 1])
      {
        assert Key(g, y[i]) <= Key(g, y[i + 1]);
      }
      assert Key(g, y[n - 1]) <= Key(g, y[n - 1 + 1]);
    }
    if Ordered(g, x) && Key(g, records[n - 1]) <= Key(g, records[n]) {
      forall i | 0 <= i < n
        ensures Key(g, y[i]) <= Key(g, y[i + 1])
      {
        if i < n - 1 {
          assert Key(g, x[i]) <= Key(g, x[i + 1]);
        }
      }
    }
  }

  lemma OneOrdered<R, F>(g: Grammar<R, F>, records: seq<string>, n: nat)
    requires n <= 1 && n <= |records| && AllValid(g, records[..n])
    ensures Ordered(g, records[..n])
  {
    hide ValidRecord;
  }

  /** The last key seen, and whether keys never went back so far. */
  ghost predicate Tracked<R, F>(previous: Option<int>, ordered: bool, g: Grammar<R, F>, records: seq<string>, n: nat)
  {
    && n <= |records| && AllValid(g, records[..n])
    && (previous.None? <==> n == 0)
    && (n > 0 ==> LastKey(g, records, n) == previous)
    && (ordered <==> Ordered(g, records[..n]))
  }

  ghost function LastKey<R, F>(g: Grammar<R, F>, records: seq<string>, n: nat): Option<int>
    requires 0 < n <= |records| && AllValid(g, records[..n])
  {
    assert ValidRecord(g, records[..n][n - 1]);
    Some(Key(g, records[n - 1]))
  }

  ghost predicate HasKey<R, F>(g: Grammar<R, F>, raw: string, time: int) {
    ValidRecord(g, raw) && Key(g, raw) == time
  }

  lemma TrackNext<R, F>(previous: Option<int>, ordered: bool, g: Grammar<R, F>, records: seq<string>, n: nat, time: int)
    requires Tracked(previous, ordered, g, records, n)
    requires n < |records| && AllValid(g, records[..n + 1]) && HasKey(g, records[n], time)
    ensures Tracked(Some(time), ordered && (previous.None? || previous.value <= time), g, records, n + 1)
  {
    hide ValidRecord, Ordered;
    if n == 0 {
      OneOrdered(g, records, 0);
      OneOrdered(g, records, 1);
    } else {
      OrderNext(g, records, n);
    }
  }

  lemma AfterRecord<R, F>(unique: Unique<R>, keys: seq<int>, previous: Option<int>, ordered: bool, g: Grammar<R, F>, records: seq<string>, n: nat, time: int)
    requires n < |records| && Collected(unique, keys, g, records, n + 1) && g.key(records[n]) == Ok(time)
    requires Tracked(previous, ordered, g, records, n)
    ensures Tracked(Some(time), ordered && (previous.None? || previous.value <= time), g, records, n + 1)
  {
    hide Tracked, Collected, ValidRecord;
    CollectedPrefix(unique, keys, g, records, n + 1);
    KeyValue(g, records[n]);
    TrackNext(previous, ordered, g, records, n, time);
  }

  // ---------- duplicates and refusals, record by record ----------

  /** The records that occur already earlier, in order. */
  function Repeats(records: seq<string>): (r: seq<string>)
    ensures |r| <= |records|
  {
    if records == [] then []
    else
      var n := |records| - 1;
      Repeats(records[..n]) + if records[n] in records[..n] then [records[n]] else []
  }

  function Hashed(sha: string -> string, texts: seq<string>): (h: seq<string>)
    ensures |h| == |texts| && forall i :: 0 <= i < |h| ==> h[i] == sha(texts[i])
  {
    seq(|texts|, i requires 0 <= i < |texts| => sha(texts[i]))
  }

  ghost predicate KeySeen<R, F>(g: Grammar<R, F>, records: seq<string>, n: nat, t: int) {
    exists i :: 0 <= i < n && i < |records| && g.key(records[i]) == Ok(t)
  }

  /** What is wrong with record n when the ones before it are acceptable. */
  ghost predicate RefusedAt<R, F>(fault: ParseFault<F>, g: Grammar<R, F>, records: seq<string>, n: nat) {
    && n < |records| && Acceptable(g, records[..n])
    && match fault
       case BadRecord(f) =>
         || g.key(records[n]) == Err(f)
         || (g.key(records[n]).Ok? && g.row(records[n]) == Err(f) && !KeySeen(g, records, n, g.key(records[n]).value))
       case Conflict =>
         && g.key(records[n]).Ok? && KeySeen(g, records, n, g.key(records[n]).value)
         && records[n] !in records[..n]
  }

  ghost predicate FirstRefusal<R, F>(fault: ParseFault<F>, g: Grammar<R, F>, records: seq<string>) {
    exists n: nat :: RefusedAt(fault, g, records, n)
  }

  lemma CollectedKnows<R, F>(unique: Unique<R>, keys: seq<int>, g: Grammar<R, F>, records: seq<string>, n: nat, t: int)
    requires Collected(unique, keys, g, records, n)
    ensures t in unique <==> KeySeen(g, records, n, t)
  {
    hide ValidRecord;
    if t in unique {
      assert FromFirst(unique, g, records, n, t);
      var i :| 0 <= i < n && ValidRecord(g, records[i]) && Key(g, records[i]) == t;
      KeyIs(g, records[i], t);
    }
    if i :| 0 <= i < n && i < |records| && g.key(records[i]) == Ok(t) {
      assert Held(unique, g, records[i]);
    }
  }

  lemma CollectedAcceptable<R, F>(unique: Unique<R>, keys: seq<int>, g: Grammar<R, F>, records: seq<string>, n: nat)
    requires Collected(unique, keys, g, records, n)
    ensures n <= |records| && Acceptable(g, records[..n])
  {
    hide ValidRecord, Held, FromFirst;
    var front := records[..n];
    assert front[..n] == front;
    forall t | t in unique
      ensures FromFirst(unique, g, front, n, t)
    {
      FromFirstPrefix(unique, g, records, n, t);
    }
    NoConflictLeft(unique, keys, g, front);
  }

  lemma FromFirstPrefix<R, F>(unique: Unique<R>, g: Grammar<R, F>, records: seq<string>, n: nat, t: int)
    requires n <= |records| && t in unique && FromFirst(unique, g, records, n, t)
    ensures FromFirst(unique, g, records[..n], n, t)
  {
    hide ValidRecord;
    var i :| 0 <= i < n && ValidRecord(g, records[i]) && Key(g, records[i]) == t && unique[t] == (records[i], Row(g, records[i]));
    assert records[..n][i] == records[i];
  }

  /** The bytes under a known key are those of an earlier record, and a record under a new key is new. */
  lemma CollectedBytes<R, F>(unique: Unique<R>, keys: seq<int>, g: Grammar<R, F>, records: seq<string>, n: nat, t: int)
    requires Collected(unique, keys, g, records, n) && n < |records| && g.key(records[n]) == Ok(t)
    ensures records[n] in records[..n] <==> t in unique && unique[t].0 == records[n]
  {
    hide ValidRecord;
    if t in unique {
      assert FromFirst(unique, g, records, n, t);
      var i :| 0 <= i < n && ValidRecord(g, records[i]) && Key(g, records[i]) == t && unique[t] == (records[i], Row(g, records[i]));
      assert records[..n][i] == records[i];
    }
    if records[n] in records[..n] {
      var i :| 0 <= i < n && records[..n][i] == records[n];
      assert Held(unique, g, records[i]);
      KeyValue(g, records[i]);
    }
  }

  lemma NoRepeats(sha: string -> string)
    ensures Hashed(sha, Repeats([])) == []
  {
  }

  lemma NextRepeat(sha: string -> string, records: seq<string>, n: nat)
    requires n < |records|
    ensures Hashed(sha, Repeats(records[..n + 1])) ==
            Hashed(sha, Repeats(records[..n])) + if records[n] in records[..n] then [sha(records[n])] else []
  {
    assert records[..n + 1][..n] == records[..n];
  }

  lemma RecordRefused<R, F>(fault: ParseFault<F>, unique: Unique<R>, keys: seq<int>, g: Grammar<R, F>, records: seq<string>, n: nat)
    requires Collected(unique, keys, g, records, n) && n < |records|
    requires match fault
             case BadRecord(f) =>
               || g.key(records[n]) == Err(f)
               || (g.key(records[n]).Ok? && g.row(records[n]) == Err(f) && g.key(records[n]).value !in unique)
             case Conflict =>
               g.key(records[n]).Ok? && g.key(records[n]).value in unique && unique[g.key(records[n]).value].0 != records[n]
    ensures FirstRefusal(fault, g, records)
  {
    hide Collected, Acceptable, KeySeen;
    CollectedAcceptable(unique, keys, g, records, n);
    if g.key(records[n]).Ok? {
      CollectedKnows(unique, keys, g, records, n, g.key(records[n]).value);
      CollectedBytes(unique, keys, g, records, n, g.key(records[n]).value);
    }
    assert RefusedAt(fault, g, records, n);
  }

  /** One pass over the raw records. */
  method ParseRecords<R, F>(g: Grammar<R, F>, records: seq<string>, sha: string -> string) returns (r: Result<ParseResult<R>, ParseFault<F>>)
    requires g.Timed()
    ensures r.Ok? <==> Acceptable(g, records)
    ensures r.Ok? ==>
      && RowsOf(r.value.rows, g, records)
      && r.value.sourceRows == |records| && r.value.distinctRows == |r.value.rows|
      && r.value.sourceRows == r.value.distinctRows + r.value.duplicateRows
      && |r.value.duplicateHashes| == r.value.duplicateRows
      && r.value.duplicateHashes == Hashed(sha, Repeats(records))
      && (r.value.sourceOrdered <==> Ordered(g, records))
    ensures r.Err? ==> FirstRefusal(r.error, g, records)
  {
    hide FirstRefusal, Repeats, Hashed;
    hide Collected, Tracked, Acceptable, RowsOf, AllValid, ValidRecord, Key, Row, Ordered;
    var unique: Unique<R> := map[];
    var keys: seq<int> := [];
    var hashes: seq<string> := [];
    var previous: Option<int> := None;
    var ordered := true;
    Start(g, records);
    NoRepeats(sha);
    assert records[..0] == [];
    for n := 0 to |records|
      invariant Collected(unique, keys, g, records, n) && |keys| + |hashes| == n
      invariant Tracked(previous, ordered, g, records, n)
      invariant hashes == Hashed(sha, Repeats(records[..n]))
    {
      var raw := records[n];
      var key := g.key(raw);
      NextRepeat(sha, records, n);
      if key.Err? {
        RecordRefused(BadRecord(key.error), unique, keys, g, records, n);
        NoKey(g, raw);
        InvalidRefused(g, records, n);
        return Err(BadRecord(key.error));
      }
      var time := key.value;
      CollectedBytes(unique, keys, g, records, n, time);
      ghost var was, wasOrdered := previous, ordered;
      if previous.Some? && time < previous.value {
        ordered := false;
      }
      previous := Some(time);
      if time in unique {
        if unique[time].0 != raw {
          ConflictRefused(unique, keys, g, records, n, time);
          RecordRefused(Conflict, unique, keys, g, records, n);
          return Err(Conflict);
        }
        CollectAgain(unique, keys, g, records, n, time);
        hashes := hashes + [sha(raw)];
      } else {
        var row := g.row(raw);
        if row.Err? {
          RecordRefused(BadRecord(row.error), unique, keys, g, records, n);
          NoRow(g, raw);
          InvalidRefused(g, records, n);
          return Err(BadRecord(row.error));
        }
        HasRow(g, raw);
        CollectNew(unique, keys, g, records, n);
        unique := unique[time := (raw, row.value)];
        keys := keys + [time];
      }
      AfterRecord(unique, keys, was, wasOrdered, g, records, n, time);
    }
    assert records[..|records|] == records;
    var rows := RowsByTime(unique, keys, g, records);
    NoConflictLeft(unique, keys, g, records);
    TrackedAll(previous, ordered, g, records);
    r := Ok(ParseResult(rows, |records|, |keys|, |hashes|, ordered, hashes));
  }

  lemma Start<R, F>(g: Grammar<R, F>, records: seq<string>)
    ensures Collected(map[], [], g, records, 0)
    ensures Tracked(None, true, g, records, 0)
  {
  }

  lemma NoKey<R, F>(g: Grammar<R, F>, raw: string)
    requires g.key(raw).Err?
    ensures !ValidRecord(g, raw)
  {
  }

  lemma NoRow<R, F>(g: Grammar<R, F>, raw: string)
    requires g.key(raw).Ok? && g.row(raw).Err?
    ensures !ValidRecord(g, raw)
  {
  }

  lemma HasRow<R, F>(g: Grammar<R, F>, raw: string)
    requires g.key(raw).Ok? && g.row(raw).Ok?
    ensures ValidRecord(g, raw) && Key(g, raw) == g.key(raw).value && Row(g, raw) == g.row(raw).value
  {
  }

  lemma KeyValue<R, F>(g: Grammar<R, F>, raw: string)
    requires ValidRecord(g, raw)
    ensures g.key(raw).Ok? && Key(g, raw) == g.key(raw).value
  {
  }

  lemma CollectedPrefix<R, F>(unique: Unique<R>, keys: seq<int>, g: Grammar<R, F>, records: seq<string>, n: nat)
    requires Collected(unique, keys, g, records, n) && 0 < n
    ensures n <= |records| && AllValid(g, records[..n]) && ValidRecord(g, records[n - 1])
  {
    hide ValidRecord;
    assert ValidRecord(g, records[..n][n - 1]);
  }

  lemma NoConflictLeft<R, F>(unique: Unique<R>, keys: seq<int>, g: Grammar<R, F>, records: seq<string>)
    requires Collected(unique, keys, g, records, |records|)
    ensures Acceptable(g, records)
  {
    hide Collected, ValidRecord;
    CollectedKeys(unique, keys, g, records);
    forall i, j | 0 <= i < j < |records| && g.key(records[i]) == g.key(records[j])
      ensures records[i] == records[j]
    {
      HeldAt(unique, keys, g, records, i);
      HeldAt(unique, keys, g, records, j);
      KeyValue(g, records[i]);
      KeyValue(g, records[j]);
    }
  }

  lemma TrackedAll<R, F>(previous: Option<int>, ordered: bool, g: Grammar<R, F>, records: seq<string>)
    requires AllValid(g, records) && Tracked(previous, ordered, g, records, |records|)
    ensures ordered <==> Ordered(g, records)
  {
    hide ValidRecord, AllValid;
    assert records[..|records|] == records;
  }
}
