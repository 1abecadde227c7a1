/**
 Aggregation of minutes into bars: ordering checks, epoch-aligned buckets, completeness gates and exact
 sums in a decimal context of eighty digits.
 */
module Aggregation {
  import opened Wrappers
  import opened Arith
  import opened Digits
  import opened ReportRounding
  import opened Q18
  import opened Bars
  import opened SortedInts

  const MINUTE: int := 60_000
  const INT64_MAX: int := 0x7fff_ffff_ffff_ffff
  const CONTEXT_PRECISION: nat := 80
  const CANONICAL_DIGITS: nat := 38

  datatype Fault =
    | UnorderedMinutes(time: int) | DuplicateOpenTime(time: int)
    | IncompleteGroup(bucket: int) | NonzeroIgnore(bucket: int, count: nat)
    | VolumeOverflow(field: Field) | CountOverflow

  // ---------- exact sums ----------

  /** Addition in the decimal context: exact up to eighty digits, half-even beyond. */
  function ContextAdd(a: int, b: int): int {
    var s := a + b;
    if Magnitude(s) < Pow10(CONTEXT_PRECISION) then s
    else
      var dropped: int := |NatText(Magnitude(s))| - CONTEXT_PRECISION;
      if dropped <= 0 then s else HalfEven(s, Pow10(dropped)) * Pow10(dropped)
  }

  /** Coefficients of at most thirty-eight digits, as decimal128(38,18) holds them. */
  predicate Fits(x: int) {
    Magnitude(x) < Pow10(CANONICAL_DIGITS)
  }

  ghost predicate Canonical(row: Row) {
    Fits(row.baseVolume) && Fits(row.quoteVolume) && Fits(row.takerBase) && Fits(row.takerQuote)
  }

  /** Lists short enough that no canonical sum can reach eighty digits. */
  ghost predicate Storable(rows: seq<Row>) {
    |rows| <= Pow10(CONTEXT_PRECISION - CANONICAL_DIGITS) && forall i :: 0 <= i < |rows| ==> Canonical(rows[i])
  }

  lemma {:induction false} TotalBound(rows: seq<Row>, f: Field, limit: nat)
    requires forall i :: 0 <= i < |rows| ==> Magnitude(Get(rows[i], f)) <= limit
    ensures Magnitude(Total(rows, f)) <= |rows| * limit
  {
    hide Get;
    if rows != [] {
      TotalBound(rows[..|rows| - 1], f, limit);
      assert |rows| * limit == (|rows| - 1) * limit + limit;
    }
  }

  lemma ProductBound(n: nat, limit: nat, p: nat, q: nat)
    requires n <= p && limit < q
    ensures n * limit <= p * q && (p > 0 ==> n * limit < p * q)
  {
    assert n * limit <= p * limit;
    assert p * q == p * limit + p * (q - limit);
  }

  /** No addition along the way is rounded. */
  lemma SumsStayExact(rows: seq<Row>, f: Field)
    requires Storable(rows) && f != Trades
    ensures Magnitude(Total(rows, f)) < Pow10(CONTEXT_PRECISION)
  {
    hide Pow10, Get;
    forall i | 0 <= i < |rows|
      ensures Magnitude(Get(rows[i], f)) <= Pow10(CANONICAL_DIGITS) - 1
    {
      assert Canonical(rows[i]);
      FieldFits(rows[i], f);
    }
    TotalBound(rows, f, Pow10(CANONICAL_DIGITS) - 1);
    ProductBound(|rows|, Pow10(CANONICAL_DIGITS) - 1, Pow10(CONTEXT_PRECISION - CANONICAL_DIGITS), Pow10(CANONICAL_DIGITS));
    Pow10Adds(CONTEXT_PRECISION - CANONICAL_DIGITS, CANONICAL_DIGITS);
  }

  lemma FieldFits(row: Row, f: Field)
    requires Canonical(row) && f != Trades
    ensures Fits(Get(row, f))
  {
    hide Fits;
  }

  /** The loop in the wide context computes the exact total, then checks that it can be stored. */
  method ExactVolumeSum(members: seq<Row>, field: Field) returns (r: Result<int, Fault>)
    requires Storable(members) && field != Trades
    ensures r == if Fits(Total(members, field)) then Ok(Total(members, field)) else Err(VolumeOverflow(field))
  {
    hide Pow10, Get;
    var total := 0;
    for i := 0 to |members|
      invariant total == Total(members[..i], field)
    {
      StorablePrefix(members, i + 1);
      SumsStayExact(members[..i + 1], field);
      assert members[..i + 1][..i] == members[..i];
      total := ContextAdd(total, Get(members[i], field));
    }
    assert members[..|members|] == members;
    r := if Magnitude(total) >= Pow10(CANONICAL_DIGITS) then Err(VolumeOverflow(field)) else Ok(total);
  }

  lemma StorablePrefix(rows: seq<Row>, n: nat)
    requires Storable(rows) && n <= |rows|
    ensures Storable(rows[..n])
  {
    hide Pow10, Canonical;
  }

  method ExactTradeCount(members: seq<Row>) returns (r: Result<int, Fault>)
    ensures r == if 0 <= Total(members, Trades) <= INT64_MAX then Ok(Total(members, Trades)) else Err(CountOverflow)
  {
    var total := 0;
    for i := 0 to |members|
      invariant total == Total(members[..i], Trades)
    {
      assert members[..i + 1][..i] == members[..i];
      total := total + members[i].tradeCount;
    }
    assert members[..|members|] == members;
    r := if total < 0 || total > INT64_MAX then Err(CountOverflow) else Ok(total);
  }

  // ---------- order ----------

  /** The first place where open times do not strictly ascend. */
  function Disorder(rows: seq<Row>): Option<Fault> {
    if |rows| <= 1 then None
    else
      var earlier := Disorder(rows[..|rows| - 1]);
      var a, b := rows[|rows| - 2].openTime, rows[|rows| - 1].openTime;
      if earlier.Some? then earlier
      else if b < a then Some(UnorderedMinutes(b))
      else if b == a then Some(DuplicateOpenTime(b))
      else None
  }

  ghost predicate AscendingTimes(rows: seq<Row>) {
    forall i, j :: 0 <= i < j < |rows| ==> rows[i].openTime < rows[j].openTime
  }

  /** Strictly ascending neighbours are exactly strictly ascending rows. */
  lemma {:induction false} OrderedMeansAscending(rows: seq<Row>)
    ensures Disorder(rows).None? <==> AscendingTimes(rows)
  {
    if |rows| > 1 {
      var n := |rows|;
      var front := rows[..n - 1];
      OrderedMeansAscending(front);
      assert front[n - 2] == rows[n - 2];
      if Disorder(rows).None? {
        forall i, j | 0 <= i < j < n
          ensures rows[i].openTime < rows[j].openTime
        {
          assert i < n - 1 ==> rows[i] == front[i];
          assert j < n - 1 ==> rows[j] == front[j];
        }
      }
    }
  }

  // ---------- buckets ----------

  function Bucket(time: int, timeframe: int): int
    requires timeframe > 0
  {
    time - time % timeframe
  }

  datatype Group = Group(bucket: int, members: seq<Row>)

  /** Maximal runs of rows that share a bucket, in order. */
  function Groups(rows: seq<Row>, timeframe: int): (g: seq<Group>)
    requires timeframe > 0
    ensures forall i :: 0 <= i < |g| ==> g[i].members != []
    ensures rows != [] ==> g != [] && g[|g| - 1].bucket == Bucket(rows[|rows| - 1].openTime, timeframe)
  {
    if rows == [] then []
    else
      var row := rows[|rows| - 1];
      AddRow(Groups(rows[..|rows| - 1], timeframe), Bucket(row.openTime, timeframe), row)
  }

  function AddRow(g: seq<Group>, bucket: int, row: Row): seq<Group> {
    if g != [] && g[|g| - 1].bucket == bucket
    then g[..|g| - 1] + [Group(bucket, g[|g| - 1].members + [row])]
    else g + [Group(bucket, [row])]
  }

  // ---------- one bar ----------

  ghost predicate Contiguous(members: seq<Row>, bucket: int, timeframe: int)
    requires members != []
  {
    && members[0].openTime == bucket
    && (forall i :: 0 <= i < |members| - 1 ==> members[i + 1].openTime - members[i].openTime == MINUTE)
    && members[|members| - 1].openTime == bucket + timeframe - MINUTE
  }

  /** How many members carry a source_ignore other than "0". */
  function Offenders(members: seq<Row>): nat {
    if members == [] then 0
    else Offenders(members[..|members| - 1]) + if members[|members| - 1].sourceIgnore != "0" then 1 else 0
  }

  function BarOf(members: seq<Row>, identity: seq<string>, bucket: int, timeframe: int): Row
    requires members != []
  {
    Row(identity, bucket, bucket + timeframe - 1, bucket + timeframe,
        members[0].open, MaxHigh(members), MinLow(members), members[|members| - 1].close,
        Total(members, BaseVolume), Total(members, QuoteVolume), Total(members, Trades),
        Total(members, TakerBase), Total(members, TakerQuote), "0")
  }

  /** A complete clean group whose totals can be stored gives its bar; otherwise the first gate that fails. */
  ghost function GroupResult(g: Group, identity: seq<string>, timeframe: int): Result<Row, Fault>
    requires g.members != []
  {
    if |g.members| != timeframe / MINUTE || !Contiguous(g.members, g.bucket, timeframe) then Err(IncompleteGroup(g.bucket))
    else if Offenders(g.members) > 0 then Err(NonzeroIgnore(g.bucket, Offenders(g.members)))
    else if !Fits(Total(g.members, BaseVolume)) then Err(VolumeOverflow(BaseVolume))
    else if !Fits(Total(g.members, QuoteVolume)) then Err(VolumeOverflow(QuoteVolume))
    else if !(0 <= Total(g.members, Trades) <= INT64_MAX) then Err(CountOverflow)
    else if !Fits(Total(g.members, TakerBase)) then Err(VolumeOverflow(TakerBase))
    else if !Fits(Total(g.members, TakerQuote)) then Err(VolumeOverflow(TakerQuote))
    else Ok(BarOf(g.members, identity, g.bucket, timeframe))
  }

  /** Exactly the clean minutes of the bucket, one by one, with totals that can be stored. */
  ghost predicate FullGroup(members: seq<Row>, bucket: int, timeframe: int) {
    && timeframe == 60_000 * |members|
    && (forall i :: 0 <= i < |members| ==> members[i].openTime == MinuteOf(bucket, i) && members[i].sourceIgnore == "0")
    && (forall f :: f in [BaseVolume, QuoteVolume, TakerBase, TakerQuote] ==> -(Pow10(38) as int) < Total(members, f) < Pow10(38))
    && 0 <= Total(members, Trades) < 0x8000_0000_0000_0000
  }

  /** The instant of the i-th minute of a bucket. */
  function MinuteOf(bucket: int, i: nat): int {
    bucket + 60_000 * i
  }

  lemma {:induction false} ContiguousPrefix(members: seq<Row>, bucket: int, n: nat)
    requires n < |members| && members[0].openTime == bucket
    requires forall i :: 0 <= i < n ==> members[i + 1].openTime - members[i].openTime == MINUTE
    ensures forall i :: 0 <= i <= n ==> members[i].openTime == MinuteOf(bucket, i)
  {
    if n > 0 {
      ContiguousPrefix(members, bucket, n - 1);
      assert members[n - 1 + 1].openTime - members[n - 1].openTime == MINUTE;
    }
  }

  lemma ContiguousMeans(members: seq<Row>, bucket: int, timeframe: int)
    requires members != []
    ensures |members| == timeframe / MINUTE && Contiguous(members, bucket, timeframe) <==>
      timeframe == 60_000 * |members| && forall i :: 0 <= i < |members| ==> members[i].openTime == MinuteOf(bucket, i)
  {
    if Contiguous(members, bucket, timeframe) {
      ContiguousPrefix(members, bucket, |members| - 1);
      assert members[|members| - 1].openTime == MinuteOf(bucket, |members| - 1);
    }
  }

  lemma {:induction false} NoOffenders(members: seq<Row>)
    ensures Offenders(members) == 0 <==> forall i :: 0 <= i < |members| ==> members[i].sourceIgnore == "0"
  {
    if members != [] {
      NoOffenders(members[..|members| - 1]);
    }
  }

  lemma FitsMeans(x: int)
    ensures Fits(x) <==> -(Pow10(38) as int) < x < Pow10(38)
  {
    hide Pow10;
  }

  /** A group becomes a bar exactly when it is full, clean and storable. */
  lemma GroupAccepted(g: Group, identity: seq<string>, timeframe: int)
    requires g.members != []
    ensures GroupResult(g, identity, timeframe).Ok? <==> FullGroup(g.members, g.bucket, timeframe)
  {
    hide Contiguous, Offenders, Total, Pow10, Fits, MaxHigh, MinLow;
    ContiguousMeans(g.members, g.bucket, timeframe);
    NoOffenders(g.members);
    var f := [BaseVolume, QuoteVolume, TakerBase, TakerQuote];
    assert f[0] in f && f[1] in f && f[2] in f && f[3] in f;
    FitsMeans(Total(g.members, BaseVolume));
    FitsMeans(Total(g.members, QuoteVolume));
    FitsMeans(Total(g.members, TakerBase));
    FitsMeans(Total(g.members, TakerQuote));
  }

  /** The bars of the groups in order, or the fault of the first group that has one. */
  ghost function GroupBars(groups: seq<Group>, identity: seq<string>, timeframe: int): (r: Result<seq<Row>, Fault>)
    requires forall i :: 0 <= i < |groups| ==> groups[i].members != []
    ensures r.Ok? ==> |r.value| == |groups|
  {
    if groups == [] then Ok([])
    else
      var front :- GroupBars(groups[..|groups| - 1], identity, timeframe);
      var bar :- GroupResult(groups[|groups| - 1], identity, timeframe);
      Ok(front + [bar])
  }

  /** What aggregation returns. */
  ghost function Aggregated(minutes: seq<Row>, identity: seq<string>, timeframe: int): Result<seq<Row>, Fault>
    requires timeframe > 0
  {
    match Disorder(minutes)
    case Some(fault) => Err(fault)
    case None => GroupBars(Groups(minutes, timeframe), identity, timeframe)
  }

  // ---------- grouping keeps order ----------

  lemma BucketBounds(t: int, timeframe: int)
    requires timeframe > 0
    ensures Bucket(t, timeframe) == t / timeframe * timeframe
    ensures Bucket(t, timeframe) <= t < Bucket(t, timeframe) + timeframe
  {
  }

  lemma BucketMonotone(s: int, t: int, timeframe: int)
    requires timeframe > 0 && s <= t
    ensures Bucket(s, timeframe) <= Bucket(t, timeframe)
  {
    BucketBounds(s, timeframe);
    BucketBounds(t, timeframe);
    MulDistributes(s / timeframe, t / timeframe, timeframe);
    if s / timeframe > t / timeframe {
      MulAtLeast(s / timeframe - t / timeframe, 1, timeframe);
    }
  }

  ghost predicate AscendingBuckets(g: seq<Group>) {
    forall i, j :: 0 <= i < j < |g| ==> g[i].bucket < g[j].bucket
  }

  lemma {:induction false} GroupsAscending(rows: seq<Row>, timeframe: int)
    requires timeframe > 0 && AscendingTimes(rows)
    ensures AscendingBuckets(Groups(rows, timeframe))
  {
    hide Bucket;
    if rows != [] {
      var front := rows[..|rows| - 1];
      GroupsAscending(front, timeframe);
      if front != [] {
        BucketMonotone(front[|front| - 1].openTime, rows[|rows| - 1].openTime, timeframe);
      }
      AddedAscending(Groups(front, timeframe), Bucket(rows[|rows| - 1].openTime, timeframe), rows[|rows| - 1]);
    }
  }

  lemma AddedAscending(g: seq<Group>, bucket: int, row: Row)
    requires AscendingBuckets(g) && (g != [] ==> g[|g| - 1].bucket <= bucket)
    ensures AscendingBuckets(AddRow(g, bucket, row))
  {
  }

  /** The dictionary holds exactly the groups. */
  ghost predicate Holds(grouped: map<int, seq<Row>>, g: seq<Group>) {
    && (forall i :: 0 <= i < |g| ==> g[i].bucket in grouped && grouped[g[i].bucket] == g[i].members)
    && (forall b :: b in grouped ==> HasBucket(g, b))
  }

  ghost predicate HasBucket(g: seq<Group>, bucket: int) {
    exists i :: 0 <= i < |g| && g[i].bucket == bucket
  }

  lemma AddRowKeeps(g: seq<Group>, bucket: int, row: Row, b: int)
    requires b == bucket || HasBucket(g, b)
    ensures HasBucket(AddRow(g, bucket, row), b)
  {
    var g' := AddRow(g, bucket, row);
    if b == bucket {
      assert g'[|g'| - 1].bucket == b;
    } else {
      var i :| 0 <= i < |g| && g[i].bucket == b;
      assert g'[i].bucket == b;
    }
  }

  lemma RowGrouped(grouped: map<int, seq<Row>>, g: seq<Group>, bucket: int, row: Row)
    requires Holds(grouped, g) && AscendingBuckets(g) && (g != [] ==> g[|g| - 1].bucket <= bucket)
    ensures bucket in grouped <==> g != [] && g[|g| - 1].bucket == bucket
    ensures var members := if bucket in grouped then grouped[bucket] + [row] else [row];
      Holds(grouped[bucket := members], AddRow(g, bucket, row))
  {
    hide HasBucket;
    assert bucket in grouped ==> g != [] && g[|g| - 1].bucket == bucket by {
      if bucket in grouped {
        LastBucket(g, bucket);
      }
    }
    forall b | b == bucket || b in grouped
      ensures HasBucket(AddRow(g, bucket, row), b)
    {
      AddRowKeeps(g, bucket, row, b);
    }
  }

  lemma LastBucket(g: seq<Group>, bucket: int)
    requires AscendingBuckets(g) && HasBucket(g, bucket) && (g != [] ==> g[|g| - 1].bucket <= bucket)
    ensures g != [] && g[|g| - 1].bucket == bucket
  {
  }

  // ---------- the operations ----------

  /** The times ascend strictly before place i, and not from there to the next. */
  ghost predicate BreaksAt(minutes: seq<Row>, i: nat) {
    && 0 < i < |minutes| && AscendingTimes(minutes[..i]) && minutes[i].openTime <= minutes[i - 1].openTime
  }

  /** Going back is one fault, repeating a time another. */
  function BreakFault(minutes: seq<Row>, i: nat): Fault
    requires 0 < i < |minutes|
  {
    var here, before := minutes[i].openTime, minutes[i - 1].openTime;
    if here < before then UnorderedMinutes(here) else DuplicateOpenTime(here)
  }

  method CheckOrder(minutes: seq<Row>) returns (fault: Option<Fault>)
    ensures fault == Disorder(minutes)
    ensures fault.None? <==> AscendingTimes(minutes)
    ensures fault.Some? ==> exists i: nat :: BreaksAt(minutes, i) && fault.value == BreakFault(minutes, i)
  {
    hide AscendingTimes;
    OrderedMeansAscending(minutes);
    fault := None;
    for i := 0 to |minutes|
      invariant fault == Disorder(minutes[..i]) == None
    {
      assert minutes[..i + 1][..i] == minutes[..i];
      OrderedMeansAscending(minutes[..i]);
      assert i > 0 && minutes[i].openTime <= minutes[i - 1].openTime ==> BreaksAt(minutes, i);
      if i > 0 && minutes[i].openTime < minutes[i - 1].openTime {
        DisorderStays(minutes, i + 1);
        return Some(UnorderedMinutes(minutes[i].openTime));
      }
      if i > 0 && minutes[i].openTime == minutes[i - 1].openTime {
        DisorderStays(minutes, i + 1);
        return Some(DuplicateOpenTime(minutes[i].openTime));
      }
    }
    assert minutes[..|minutes|] == minutes;
  }

  lemma {:induction false} DisorderStays(rows: seq<Row>, n: nat)
    requires n <= |rows| && Disorder(rows[..n]).Some?
    ensures Disorder(rows) == Disorder(rows[..n])
    decreases |rows|
  {
    if n == |rows| {
      assert rows[..n] == rows;
    } else {
      var front := rows[..|rows| - 1];
      assert front[..n] == rows[..n];
      DisorderStays(front, n);
    }
  }

  method CheckContiguous(members: seq<Row>, bucket: int, timeframe: int) returns (ok: bool)
    requires members != []
    ensures ok == Contiguous(members, bucket, timeframe)
  {
    if members[0].openTime != bucket {
      return false;
    }
    for i := 1 to |members|
      invariant forall k :: 0 <= k < i - 1 ==> members[k + 1].openTime - members[k].openTime == MINUTE
    {
      if members[i].openTime - members[i - 1].openTime != MINUTE {
        assert members[i - 1 + 1].openTime - members[i - 1].openTime != MINUTE;
        return false;
      }
    }
    ok := members[|members| - 1].openTime == bucket + timeframe - MINUTE;
  }

  method CountOffenders(members: seq<Row>) returns (n: nat)
    ensures n == Offenders(members)
  {
    n := 0;
    for i := 0 to |members|
      invariant n == Offenders(members[..i])
    {
      assert members[..i + 1][..i] == members[..i];
      if members[i].sourceIgnore != "0" {
        n := n + 1;
      }
    }
    assert members[..|members|] == members;
  }

  method AggregateGroup(members: seq<Row>, identity: seq<string>, bucket: int, timeframe: int) returns (r: Result<Row, Fault>)
    requires members != [] && Storable(members)
    ensures r == GroupResult(Group(bucket, members), identity, timeframe)
    ensures r.Ok? <==> FullGroup(members, bucket, timeframe)
    ensures r.Ok? ==> var bar := r.value;
      && bar.identity == identity && bar.openTime == bucket && bar.closeTime == bucket + timeframe - 1
      && bar.availableTime == bucket + timeframe && bar.sourceIgnore == "0"
      && bar.open == members[0].open && bar.close == members[|members| - 1].close
      && (forall i :: 0 <= i < |members| ==> bar.low <= members[i].low && members[i].high <= bar.high)
      && (exists i :: 0 <= i < |members| && members[i].high == bar.high)
      && (exists i :: 0 <= i < |members| && members[i].low == bar.low)
      && bar.baseVolume == Total(members, BaseVolume) && bar.quoteVolume == Total(members, QuoteVolume)
      && bar.takerBase == Total(members, TakerBase) && bar.takerQuote == Total(members, TakerQuote)
      && bar.tradeCount == Total(members, Trades)
  {
    hide Fits, Contiguous, Offenders, Total, MaxHigh, MinLow, Storable, FullGroup;
    GroupAccepted(Group(bucket, members), identity, timeframe);
    if |members| != timeframe / MINUTE {
      return Err(IncompleteGroup(bucket));
    }
    var contiguous := CheckContiguous(members, bucket, timeframe);
    if !contiguous {
      return Err(IncompleteGroup(bucket));
    }
    var offenders := CountOffenders(members);
    if offenders > 0 {
      return Err(NonzeroIgnore(bucket, offenders));
    }
    var high, low := MaxHigh(members), MinLow(members);
    var baseVolume :- ExactVolumeSum(members, BaseVolume);
    var quoteVolume :- ExactVolumeSum(members, QuoteVolume);
    var tradeCount :- ExactTradeCount(members);
    var takerBase :- ExactVolumeSum(members, TakerBase);
    var takerQuote :- ExactVolumeSum(members, TakerQuote);
    r := Ok(Row(identity, bucket, bucket + timeframe - 1, bucket + timeframe,
                members[0].open, high, low, members[|members| - 1].close,
                baseVolume, quoteVolume, tradeCount, takerBase, takerQuote, "0"));
  }

  /** Groups minutes in a dictionary by bucket. */
  method GroupMinutes(minutes: seq<Row>, timeframe: int) returns (keys: seq<int>, grouped: map<int, seq<Row>>)
    requires timeframe > 0 && AscendingTimes(minutes)
    ensures Holds(grouped, Groups(minutes, timeframe))
    ensures keys == BucketsOf(Groups(minutes, timeframe))
  {
    hide Bucket, Holds, AscendingBuckets, Groups, AddRow;
    keys, grouped := [], map[];
    NothingGrouped(timeframe);
    assert minutes[..0] == [];
    for i := 0 to |minutes|
      invariant Holds(grouped, Groups(minutes[..i], timeframe))
      invariant keys == BucketsOf(Groups(minutes[..i], timeframe))
    {
      ghost var g := Groups(minutes[..i], timeframe);
      var bucket := Bucket(minutes[i].openTime, timeframe);
      NextMinute(minutes, timeframe, i);
      RowGrouped(grouped, g, bucket, minutes[i]);
      AddedBuckets(g, bucket, minutes[i]);
      if bucket in grouped {
        grouped := grouped[bucket := grouped[bucket] + [minutes[i]]];
      } else {
        keys := keys + [bucket];
        grouped := grouped[bucket := [minutes[i]]];
      }
    }
    assert minutes[..|minutes|] == minutes;
  }

  function BucketsOf(g: seq<Group>): (b: seq<int>)
    ensures |b| == |g| && forall i :: 0 <= i < |g| ==> b[i] == g[i].bucket
  {
    seq(|g|, i requires 0 <= i < |g| => g[i].bucket)
  }

  lemma NothingGrouped(timeframe: int)
    requires timeframe > 0
    ensures Groups([], timeframe) == [] && Holds(map[], [])
  {
  }

  lemma AddedBuckets(g: seq<Group>, bucket: int, row: Row)
    ensures BucketsOf(AddRow(g, bucket, row)) == if g != [] && g[|g| - 1].bucket == bucket then BucketsOf(g) else BucketsOf(g) + [bucket]
  {
  }

  lemma NextMinute(minutes: seq<Row>, timeframe: int, i: nat)
    requires timeframe > 0 && AscendingTimes(minutes) && i < |minutes|
    ensures var g := Groups(minutes[..i], timeframe);
      && AscendingBuckets(g)
      && (g != [] ==> g[|g| - 1].bucket <= Bucket(minutes[i].openTime, timeframe))
      && Groups(minutes[..i + 1], timeframe) == AddRow(g, Bucket(minutes[i].openTime, timeframe), minutes[i])
  {
    hide Bucket;
    GroupsAscending(minutes[..i], timeframe);
    assert minutes[..i + 1][..i] == minutes[..i];
    if i > 0 {
      BucketMonotone(minutes[i - 1].openTime, minutes[i].openTime, timeframe);
    }
  }

  ghost predicate FromRows(members: seq<Row>, rows: seq<Row>) {
    |members| <= |rows| && forall i :: 0 <= i < |members| ==> members[i] in rows
  }

  lemma FromMoreRows(members: seq<Row>, rows: seq<Row>, row: Row)
    requires FromRows(members, rows)
    ensures FromRows(members, rows + [row]) && FromRows(members + [row], rows + [row])
  {
  }

  ghost predicate AllFromRows(g: seq<Group>, rows: seq<Row>) {
    forall k :: 0 <= k < |g| ==> FromRows(g[k].members, rows)
  }

  lemma AddedFromRows(g: seq<Group>, bucket: int, row: Row, rows: seq<Row>)
    requires AllFromRows(g, rows)
    ensures AllFromRows(AddRow(g, bucket, row), rows + [row])
  {
    hide FromRows;
    AloneFromRows(rows, row);
    forall k | 0 <= k < |g|
      ensures FromRows(g[k].members, rows + [row]) && FromRows(g[k].members + [row], rows + [row])
    {
      FromMoreRows(g[k].members, rows, row);
    }
  }

  /** Members of groups are rows of the input. */
  lemma {:induction false} GroupsOfRows(rows: seq<Row>, timeframe: int)
    requires timeframe > 0
    ensures AllFromRows(Groups(rows, timeframe), rows)
  {
    hide Bucket, FromRows, AddRow, AllFromRows;
    if rows == [] {
      NoGroups(timeframe);
    } else {
      var n := |rows| - 1;
      GroupsOfRows(rows[..n], timeframe);
      AddedFromRows(Groups(rows[..n], timeframe), Bucket(rows[n].openTime, timeframe), rows[n], rows[..n]);
      assert rows == rows[..n] + [rows[n]];
    }
  }

  lemma NoGroups(timeframe: int)
    requires timeframe > 0
    ensures AllFromRows(Groups([], timeframe), [])
  {
  }

  lemma AloneFromRows(rows: seq<Row>, row: Row)
    ensures FromRows([row], rows + [row])
  {
  }

  lemma GroupStorable(rows: seq<Row>, timeframe: int, k: nat)
    requires timeframe > 0 && Storable(rows) && k < |Groups(rows, timeframe)|
    ensures Storable(Groups(rows, timeframe)[k].members)
  {
    hide Bucket, Canonical, Pow10, Groups;
    GroupsOfRows(rows, timeframe);
    assert FromRows(Groups(rows, timeframe)[k].members, rows);
  }

  /** Checks order, groups by bucket, and turns each group into a bar in bucket order. */
  method AggregateTimeframe(minutes: seq<Row>, identity: seq<string>, timeframe: int) returns (r: Result<seq<Row>, Fault>)
    requires timeframe > 0 && Storable(minutes)
    ensures r == Aggregated(minutes, identity, timeframe)
  {
    hide Holds, Storable, GroupResult, Groups, Sorted, AscendingBuckets, AscendingTimes;
    var disorder := CheckOrder(minutes);
    if disorder.Some? {
      return Err(disorder.value);
    }
    OrderedMeansAscending(minutes);
    var keys, grouped := GroupMinutes(minutes, timeframe);
    ghost var groups := Groups(minutes, timeframe);
    GroupsAscending(minutes, timeframe);
    KeysSorted(groups);
    var buckets := Sorted(keys);
    var bars: seq<Row> := [];
    for k := 0 to |buckets|
      invariant GroupBars(groups[..k], identity, timeframe) == Ok(bars)
    {
      Lookup(grouped, groups, k);
      var members := grouped[buckets[k]];
      GroupStorable(minutes, timeframe, k);
      assert groups[k] == Group(buckets[k], members);
      assert groups[..k + 1][..k] == groups[..k];
      var bar := AggregateGroup(members, identity, buckets[k], timeframe);
      if bar.Err? {
        GroupFaultStays(groups, identity, timeframe, k + 1);
        return Err(bar.error);
      }
      bars := bars + [bar.value];
    }
    assert groups[..|groups|] == groups;
    r := Ok(bars);
  }

  lemma KeysSorted(groups: seq<Group>)
    requires AscendingBuckets(groups)
    ensures Sorted(BucketsOf(groups)) == BucketsOf(groups)
  {
    SortedAlready(BucketsOf(groups));
  }

  lemma Lookup(grouped: map<int, seq<Row>>, groups: seq<Group>, k: nat)
    requires Holds(grouped, groups) && k < |groups|
    ensures groups[k].bucket in grouped && grouped[groups[k].bucket] == groups[k].members
  {
  }

  lemma {:induction false} GroupFaultStays(groups: seq<Group>, identity: seq<string>, timeframe: int, k: nat)
    requires forall i :: 0 <= i < |groups| ==> groups[i].members != []
    requires k <= |groups| && GroupBars(groups[..k], identity, timeframe).Err?
    ensures GroupBars(groups, identity, timeframe) == GroupBars(groups[..k], identity, timeframe)
    decreases |groups|
  {
    hide GroupResult;
    if k == |groups| {
      assert groups[..k] == groups;
    } else {
      var front := groups[..|groups| - 1];
      assert front[..k] == groups[..k];
      GroupFaultStays(front, identity, timeframe, k);
    }
  }
}
