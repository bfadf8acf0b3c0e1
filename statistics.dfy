/** The statistics queries of database/database.go: the live per-status report over the order
    table, the date-range report over the persisted daily rollups, the on-demand window totals
    a rollup is computed from, and the "already computed" guard. */
module Statistics {
  import opened Schema
  import opened Tables

  /** The status labels the live report always lists, in the order it appends missing ones. */
  const ReportLabels: seq<string> := ["waiting", "pending", "success", "failed"]

  function HasStatus(s: OnChainStatus): Order -> bool {
    (o: Order) => o.onChainStatus == s
  }

  function OrderSize(o: Order): int {
    o.size
  }

  /** The row the grouped query yields for status `s`: its label, COUNT(1) and SUM(size). */
  function Tally(orders: seq<Order>, s: OnChainStatus): Result {
    var g := Select(orders, HasStatus(s));
    Result(s.Label(), |g|, SumOf(g, OrderSize))
  }

  /** The tally of every known status, in report order. */
  function Tallies(orders: seq<Order>): seq<Result> {
    seq(|AllStatuses|, k requires 0 <= k < |AllStatuses| => Tally(orders, AllStatuses[k]))
  }

  predicate Occupied(x: Result) {
    x.totals > 0
  }

  /** GROUP BY on_chain_status: one row for each status that some order is in. */
  function GroupByStatus(orders: seq<Order>): seq<Result> {
    Select(Tallies(orders), Occupied)
  }

  predicate Listed(results: seq<Result>, name: string) {
    exists i :: 0 <= i < |results| && results[i].status == name
  }

  /** What the zero-fill loop leaves after visiting `labels`: each label not yet listed gets an
      all-zero row appended. */
  function ZeroFill(results: seq<Result>, labels: seq<string>): seq<Result>
    decreases |labels|
  {
    if labels == [] then results
    else
      var prev := ZeroFill(results, labels[..|labels| - 1]);
      var s := labels[|labels| - 1];
      if Listed(prev, s) then prev else prev + [Result(s, 0, 0)]
  }

  /** GetOrderRealTimeStatistic (before JSON encoding): the grouped rows followed by a zero row
      for every known status no order is in. The report holds exactly the tallies of the four
      statuses, each once. */
  method GetOrderRealTimeStatistic(orders: seq<Order>) returns (results: seq<Result>)
    ensures results == ZeroFill(GroupByStatus(orders), ReportLabels)
    ensures multiset(results) == multiset(Tallies(orders))
    ensures |GroupByStatus(orders)| <= |results|
    ensures results[..|GroupByStatus(orders)|] == GroupByStatus(orders)
  {
    results := GroupByStatus(orders);
    var status := ReportLabels;
    for k := 0 to |status|
      invariant results == ZeroFill(GroupByStatus(orders), status[..k])
    {
      var s := status[k];
      var flag := true;
      for i := 0 to |results|
        invariant flag <==> forall j :: 0 <= j < i ==> results[j].status != s
      {
        if s == results[i].status {
          flag := false;
        }
      }
      assert status[..k + 1][..k] == status[..k];
      if flag {
        results := results + [Result(s, 0, 0)];
      }
    }
    assert status[..|status|] == status;
    ReportIsTallies(orders);
    ZeroFillKeepsGroups(GroupByStatus(orders), ReportLabels);
  }

  /** The zero fill only appends. */
  lemma {:induction false} ZeroFillKeepsGroups(results: seq<Result>, labels: seq<string>)
    ensures |ZeroFill(results, labels)| >= |results|
    ensures ZeroFill(results, labels)[..|results|] == results
    decreases |labels|
  {
    if labels != [] {
      ZeroFillKeepsGroups(results, labels[..|labels| - 1]);
    }
  }

  predicate Distinct(labels: seq<string>) {
    forall a, b :: 0 <= a < b < |labels| ==> labels[a] != labels[b]
  }

  /** Rows labelled as `labels` lists them, where a row without orders is all zero. */
  ghost predicate Shaped(T: seq<Result>, labels: seq<string>) {
    && |T| == |labels|
    && (forall k :: 0 <= k < |T| ==> T[k].status == labels[k])
    && (forall k :: 0 <= k < |T| && !Occupied(T[k]) ==> T[k] == Result(labels[k], 0, 0))
  }

  /** The tallies are shaped as the report: a status nobody is in tallies to the all-zero row
      the fill appends for it. */
  lemma TalliesShaped(orders: seq<Order>)
    ensures Shaped(Tallies(orders), ReportLabels)
    ensures Distinct(ReportLabels)
  {
    var T := Tallies(orders);
    StatusLabelsAreReportLabels();
    forall k | 0 <= k < |T| ensures T[k].status == ReportLabels[k] && (!Occupied(T[k]) ==> T[k] == Result(ReportLabels[k], 0, 0)) {
      EmptyTallyZero(orders, AllStatuses[k]);
    }
    ReportLabelsDistinct();
  }

  lemma StatusLabelsAreReportLabels()
    ensures |AllStatuses| == |ReportLabels|
    ensures forall k :: 0 <= k < |AllStatuses| ==> AllStatuses[k].Label() == ReportLabels[k]
  {
  }

  /** A status nobody is in tallies to zero orders of zero size. */
  lemma EmptyTallyZero(orders: seq<Order>, s: OnChainStatus)
    ensures Tally(orders, s).status == s.Label()
    ensures Tally(orders, s).totals == 0 ==> Tally(orders, s) == Result(s.Label(), 0, 0)
  {
    var g := Select(orders, HasStatus(s));
    if |g| == 0 {
      assert g == [];
    }
  }

  /** While the fill has visited the first `j` labels, the label at `j` is listed exactly when
      its row has orders. */
  lemma ListedIffOccupied(T: seq<Result>, labels: seq<string>, prev: seq<Result>, j: nat)
    requires Shaped(T, labels) && Distinct(labels) && j < |T|
    requires multiset(prev) == multiset(T[..j]) + multiset(Select(T[j..], Occupied))
    ensures Listed(prev, labels[j]) <==> Occupied(T[j])
  {
    if Occupied(T[j]) {
      OccupiedIsListed(T, labels, prev, j);
    }
    if Listed(prev, labels[j]) {
      ListedIsOccupied(T, labels, prev, j);
    }
  }

  lemma OccupiedIsListed(T: seq<Result>, labels: seq<string>, prev: seq<Result>, j: nat)
    requires Shaped(T, labels) && j < |T| && Occupied(T[j])
    requires multiset(prev) == multiset(T[..j]) + multiset(Select(T[j..], Occupied))
    ensures Listed(prev, labels[j])
  {
    assert T[j] in T[j..];
    assert T[j] in multiset(prev);
    var i :| 0 <= i < |prev| && prev[i] == T[j];
  }

  lemma ListedIsOccupied(T: seq<Result>, labels: seq<string>, prev: seq<Result>, j: nat)
    requires Shaped(T, labels) && Distinct(labels) && j < |T| && Listed(prev, labels[j])
    requires multiset(prev) == multiset(T[..j]) + multiset(Select(T[j..], Occupied))
    ensures Occupied(T[j])
  {
    var i :| 0 <= i < |prev| && prev[i].status == labels[j];
    assert prev[i] in multiset(prev);
    forall m | 0 <= m < j ensures T[..j][m] != prev[i] {
      assert T[..j][m] == T[m];
    }
    assert prev[i] in Select(T[j..], Occupied);
    var m :| 0 <= m < |T[j..]| && T[j..][m] == prev[i];
    assert T[j + m] == prev[i];
  }

  /** One more visited label: the fill appends a zero row unless the label is listed. */
  lemma ZeroFillUnfold(results: seq<Result>, labels: seq<string>)
    requires labels != []
    ensures ZeroFill(results, labels) ==
      var prev := ZeroFill(results, labels[..|labels| - 1]);
      if Listed(prev, labels[|labels| - 1]) then prev else prev + [Result(labels[|labels| - 1], 0, 0)]
  {
  }

  /** The grouped rows from index `k - 1` on: that row, if it has orders, then the grouped rows
      from index `k` on. */
  lemma SelectFrom(T: seq<Result>, k: nat)
    requires 0 < k <= |T|
    ensures Select(T[k - 1..], Occupied) == (if Occupied(T[k - 1]) then [T[k - 1]] else []) + Select(T[k..], Occupied)
    ensures multiset(Select(T[k - 1..], Occupied)) ==
      if Occupied(T[k - 1]) then multiset{T[k - 1]} + multiset(Select(T[k..], Occupied))
      else multiset(Select(T[k..], Occupied))
  {
    assert T[k - 1..][1..] == T[k..];
  }

  /** The step of the fill at label `k - 1`: it appends that row exactly when the row has no
      orders. */
  lemma ZeroFillStep(T: seq<Result>, labels: seq<string>, k: nat)
    requires Shaped(T, labels) && Distinct(labels) && 0 < k <= |T|
    requires multiset(ZeroFill(Select(T, Occupied), labels[..k - 1])) ==
      multiset(T[..k - 1]) + multiset(Select(T[k - 1..], Occupied))
    ensures ZeroFill(Select(T, Occupied), labels[..k]) ==
      var prev := ZeroFill(Select(T, Occupied), labels[..k - 1]);
      if Occupied(T[k - 1]) then prev else prev + [T[k - 1]]
  {
    var G := Select(T, Occupied);
    var prefix := labels[..k];
    assert prefix[..k - 1] == labels[..k - 1] && prefix[k - 1] == labels[k - 1];
    ZeroFillUnfold(G, prefix);
    ListedIffOccupied(T, labels, ZeroFill(G, labels[..k - 1]), k - 1);
  }

  /** The multiset bookkeeping of one fill step. */
  lemma StepMultiset(prev: seq<Result>, next: seq<Result>, done: multiset<Result>, t: Result,
                     before: multiset<Result>, after: multiset<Result>, occupied: bool)
    requires multiset(prev) == done + before
    requires next == if occupied then prev else prev + [t]
    requires before == if occupied then multiset{t} + after else after
    ensures multiset(next) == done + multiset{t} + after
  {
  }

  /** After the first `k` labels the fill holds the first `k` rows and the grouped rows of the
      others. */
  lemma {:induction false} ZeroFillPrefix(T: seq<Result>, labels: seq<string>, k: nat)
    requires Shaped(T, labels) && Distinct(labels) && k <= |T|
    ensures multiset(ZeroFill(Select(T, Occupied), labels[..k])) ==
      multiset(T[..k]) + multiset(Select(T[k..], Occupied))
  {
    if k == 0 {
      assert labels[..0] == [];
      assert T[0..] == T;
    } else {
      ZeroFillPrefix(T, labels, k - 1);
      ZeroFillStep(T, labels, k);
      SelectFrom(T, k);
      TakeOneMore(T, k);
      StepMultiset(ZeroFill(Select(T, Occupied), labels[..k - 1]), ZeroFill(Select(T, Occupied), labels[..k]),
                   multiset(T[..k - 1]), T[k - 1], multiset(Select(T[k - 1..], Occupied)),
                   multiset(Select(T[k..], Occupied)), Occupied(T[k - 1]));
    }
  }

  /** Filling from no rows lists one zero row per label, in label order. */
  lemma {:induction false} ZeroFillFromNothing(G: seq<Result>, labels: seq<string>)
    requires G == [] && Distinct(labels)
    ensures ZeroFill(G, labels) == ZeroRows(labels)
    decreases |labels|
  {
    if labels != [] {
      var init := labels[..|labels| - 1];
      ZeroFillFromNothing(G, init);
      assert !Listed(ZeroFill(G, init), labels[|labels| - 1]);
      assert ZeroRows(labels) == ZeroRows(init) + [Result(labels[|labels| - 1], 0, 0)];
    }
  }

  /** One zero row per label. */
  function ZeroRows(labels: seq<string>): seq<Result> {
    seq(|labels|, i requires 0 <= i < |labels| => Result(labels[i], 0, 0))
  }

  /** The live report is a permutation of the four status tallies. */
  lemma ReportIsTallies(orders: seq<Order>)
    ensures multiset(ZeroFill(GroupByStatus(orders), ReportLabels)) == multiset(Tallies(orders))
  {
    var T := Tallies(orders);
    TalliesShaped(orders);
    ZeroFillPrefix(T, ReportLabels, 4);
    assert ReportLabels[..4] == ReportLabels;
    assert T[..4] == T;
    assert T[4..] == [];
  }

  /** Every known status is reported once, with its true count and size, and nothing else is. */
  lemma ReportCoversEveryStatus(orders: seq<Order>)
    ensures |ZeroFill(GroupByStatus(orders), ReportLabels)| == 4
    ensures forall s: OnChainStatus :: Tally(orders, s) in ZeroFill(GroupByStatus(orders), ReportLabels)
    ensures forall x :: x in ZeroFill(GroupByStatus(orders), ReportLabels) ==>
      exists s: OnChainStatus :: x == Tally(orders, s)
  {
    ReportIsTallies(orders);
    PermutationOfTallies(orders, ZeroFill(GroupByStatus(orders), ReportLabels));
  }

  /** Any permutation of the four tallies holds each status's tally and nothing else. */
  lemma PermutationOfTallies(orders: seq<Order>, r: seq<Result>)
    requires multiset(r) == multiset(Tallies(orders))
    ensures |r| == 4
    ensures forall s: OnChainStatus :: Tally(orders, s) in r
    ensures forall x :: x in r ==> exists s: OnChainStatus :: x == Tally(orders, s)
  {
    var T := Tallies(orders);
    assert |r| == |multiset(r)| == |multiset(T)| == 4;
    forall s: OnChainStatus ensures Tally(orders, s) in r {
      var k := match s
        case WaitOnChain => 0
        case PendingOnChain => 1
        case SuccOnChain => 2
        case FailedOnChain => 3;
      assert T[k] == Tally(orders, s);
      assert T[k] in multiset(r);
    }
    forall x | x in r ensures exists s: OnChainStatus :: x == Tally(orders, s) {
      assert x in multiset(T);
      var k :| 0 <= k < 4 && T[k] == x;
      assert x == Tally(orders, AllStatuses[k]);
    }
  }

  /** With no orders no status is occupied, so GROUP BY yields no row. */
  lemma NoOrdersNoGroups(orders: seq<Order>)
    requires orders == []
    ensures GroupByStatus(orders) == []
  {
    var T := Tallies(orders);
    forall x | x in T ensures !Occupied(x) {
      var k :| 0 <= k < |T| && T[k] == x;
      assert Select(orders, HasStatus(AllStatuses[k])) == [];
    }
    SelectNone(T, Occupied);
  }

  /** On an empty order table the report is four zero rows in label order. */
  lemma EmptyTableReport(orders: seq<Order>)
    requires orders == []
    ensures ZeroFill(GroupByStatus(orders), ReportLabels) ==
      [Result("waiting", 0, 0), Result("pending", 0, 0), Result("success", 0, 0), Result("failed", 0, 0)]
  {
    NoOrdersNoGroups(orders);
    ReportLabelsDistinct();
    ZeroFillFromNothing(GroupByStatus(orders), ReportLabels);
    ReportZeroRows();
  }

  lemma ReportZeroRows()
    ensures ZeroRows(ReportLabels) ==
      [Result("waiting", 0, 0), Result("pending", 0, 0), Result("success", 0, 0), Result("failed", 0, 0)]
  {
  }

  lemma ReportLabelsDistinct()
    ensures Distinct(ReportLabels)
  {
  }

  /** The bound a failed parse leaves: the zero time. */
  function ParsedOrZero(t: Option<int>): int {
    match t
    case None => ZeroTime
    case Some(v) => v
  }

  function InDays(lo: int, hi: int): OrderStatistic -> bool {
    (s: OrderStatistic) => lo <= s.date <= hi
  }

  ghost predicate DatesAscending(s: seq<OrderStatistic>) {
    forall i, j :: 0 <= i < j < |s| ==> s[i].date <= s[j].date
  }

  lemma PrependAscending(x: OrderStatistic, s: seq<OrderStatistic>)
    requires DatesAscending(s)
    requires forall y :: y in multiset(s) ==> x.date <= y.date
    ensures DatesAscending([x] + s)
  {
    forall i, j | 0 <= i < j < |[x] + s| ensures ([x] + s)[i].date <= ([x] + s)[j].date {
      assert ([x] + s)[j] == s[j - 1];
      assert s[j - 1] in multiset(s);
    }
  }

  /** In a date-ascending sequence the first row precedes every other. */
  lemma FirstIsEarliest(sorted: seq<OrderStatistic>)
    requires DatesAscending(sorted) && sorted != []
    ensures forall y :: y in multiset(sorted[1..]) ==> sorted[0].date <= y.date
  {
    forall y | y in multiset(sorted[1..]) ensures sorted[0].date <= y.date {
      var j :| 0 <= j < |sorted[1..]| && sorted[1..][j] == y;
      assert y == sorted[j + 1];
    }
  }

  /** `x` placed into a date-ascending sequence ahead of the rows that do not precede it. */
  function InsertByDate(x: OrderStatistic, sorted: seq<OrderStatistic>): (r: seq<OrderStatistic>)
    ensures multiset(r) == multiset(sorted) + multiset{x}
    ensures DatesAscending(sorted) ==> DatesAscending(r)
  {
    if sorted == [] || x.date <= sorted[0].date then
      InsertFirst(x, sorted);
      [x] + sorted
    else
      var rest := InsertByDate(x, sorted[1..]);
      InsertAfterFirst(x, sorted, rest);
      [sorted[0]] + rest
  }

  /** The first branch of InsertByDate: `x` goes in front. */
  lemma InsertFirst(x: OrderStatistic, sorted: seq<OrderStatistic>)
    requires sorted == [] || x.date <= sorted[0].date
    ensures DatesAscending(sorted) ==> DatesAscending([x] + sorted)
  {
    if DatesAscending(sorted) && sorted != [] {
      FirstIsEarliest(sorted);
      assert sorted == [sorted[0]] + sorted[1..];
      PrependAscending(x, sorted);
    }
  }

  /** The second branch of InsertByDate: the first row stays in front of the rest with `x`. */
  lemma InsertAfterFirst(x: OrderStatistic, sorted: seq<OrderStatistic>, rest: seq<OrderStatistic>)
    requires sorted != [] && sorted[0].date < x.date
    requires multiset(rest) == multiset(sorted[1..]) + multiset{x}
    requires DatesAscending(sorted[1..]) ==> DatesAscending(rest)
    ensures multiset([sorted[0]] + rest) == multiset(sorted) + multiset{x}
    ensures DatesAscending(sorted) ==> DatesAscending([sorted[0]] + rest)
  {
    assert sorted == [sorted[0]] + sorted[1..];
    if DatesAscending(sorted) {
      assert DatesAscending(sorted[1..]);
      FirstIsEarliest(sorted);
      PrependAscending(sorted[0], rest);
    }
  }

  /** ORDER BY date: a date-ascending permutation of `s`. */
  function SortByDate(s: seq<OrderStatistic>): (r: seq<OrderStatistic>)
    ensures multiset(r) == multiset(s)
    ensures DatesAscending(r)
  {
    if s == [] then []
    else
      assert s == [s[0]] + s[1..];
      InsertByDate(s[0], SortByDate(s[1..]))
  }

  /** A persisted rollup as the date-range report shows it: tagged with the success label. */
  function Rollup(s: OrderStatistic): DailyStatistic {
    DailyStatistic(s.date, Result(SuccOnChain.Label(), s.totals, s.totalDataSize))
  }

  function Rollups(s: seq<OrderStatistic>): seq<DailyStatistic> {
    seq(|s|, i requires 0 <= i < |s| => Rollup(s[i]))
  }

  /** Rolling up a permutation of `window` reports each row of `window` and nothing else. */
  lemma RollupsOfPermutation(window: seq<OrderStatistic>, sorted: seq<OrderStatistic>)
    requires multiset(sorted) == multiset(window)
    ensures |Rollups(sorted)| == |window|
    ensures forall s :: s in window <==> Rollup(s) in Rollups(sorted)
    ensures forall d :: d in Rollups(sorted) ==> exists s :: s in window && d == Rollup(s)
  {
    var res := Rollups(sorted);
    assert |sorted| == |multiset(sorted)| == |multiset(window)| == |window|;
    forall s ensures s in window <==> Rollup(s) in res {
      if Rollup(s) in res {
        var k :| 0 <= k < |res| && res[k] == Rollup(s);
        assert sorted[k] == s;
        assert s in multiset(sorted);
      }
      if s in window {
        assert s in multiset(sorted);
        var k :| 0 <= k < |sorted| && sorted[k] == s;
        assert res[k] == Rollup(s);
      }
    }
    forall d | d in res ensures exists s :: s in window && d == Rollup(s) {
      var k :| 0 <= k < |res| && res[k] == d;
      assert sorted[k] in multiset(window);
    }
  }

  /** Rolling up keeps date order and tags every row "success". */
  lemma RollupsAscending(sorted: seq<OrderStatistic>)
    requires DatesAscending(sorted)
    ensures forall i, j :: 0 <= i < j < |Rollups(sorted)| ==> Rollups(sorted)[i].date <= Rollups(sorted)[j].date
    ensures forall d :: d in Rollups(sorted) ==> d.result.status == "success"
  {
  }

  /** The date-range report: the rollups of the rows of `stats` dated within `[lo, hi]`, one
      per row, in date order, each tagged "success". */
  lemma RollupsInRange(stats: seq<OrderStatistic>, lo: int, hi: int)
    ensures |Rollups(SortByDate(Select(stats, InDays(lo, hi))))| == |Select(stats, InDays(lo, hi))|
    ensures forall s :: s in stats && lo <= s.date <= hi <==> Rollup(s) in Rollups(SortByDate(Select(stats, InDays(lo, hi))))
    ensures forall d :: d in Rollups(SortByDate(Select(stats, InDays(lo, hi)))) ==> exists s :: s in stats && d == Rollup(s)
    ensures var res := Rollups(SortByDate(Select(stats, InDays(lo, hi))));
      forall i, j :: 0 <= i < j < |res| ==> res[i].date <= res[j].date
    ensures forall d :: d in Rollups(SortByDate(Select(stats, InDays(lo, hi)))) ==> d.result.status == "success"
  {
    var window := Select(stats, InDays(lo, hi));
    var sorted := SortByDate(window);
    RollupsOfPermutation(window, sorted);
    RollupsAscending(sorted);
    forall d | d in Rollups(sorted) ensures exists s :: s in stats && d == Rollup(s) {
      var s :| s in window && d == Rollup(s);
    }
  }

  /** One more row rolled up extends the report by its rollup. */
  lemma RollupsSnoc(s: seq<OrderStatistic>, i: nat)
    requires i < |s|
    ensures Rollups(s[..i + 1]) == Rollups(s[..i]) + [Rollup(s[i])]
  {
    assert Rollups(s[..i + 1])[i] == Rollup(s[i]);
  }

  /** GetOrderStatisticByDate: the rollups dated within the (inclusive) range, in date order,
      each tagged "success". A bound that did not parse counts as the zero time. */
  method GetOrderStatisticByDate(stats: seq<OrderStatistic>, r: DateRange) returns (res: seq<DailyStatistic>)
    ensures |res| == |Select(stats, InDays(ParsedOrZero(r.start), ParsedOrZero(r.end)))|
    ensures forall s :: s in stats && ParsedOrZero(r.start) <= s.date <= ParsedOrZero(r.end) <==> Rollup(s) in res
    ensures forall d :: d in res ==> exists s :: s in stats && d == Rollup(s)
    ensures forall i, j :: 0 <= i < j < |res| ==> res[i].date <= res[j].date
    ensures forall d :: d in res ==> d.result.status == "success"
  {
    var start := ParsedOrZero(r.start);
    var end := ParsedOrZero(r.end);
    var orderstatistics := SortByDate(Select(stats, InDays(start, end)));
    res := [];
    for i := 0 to |orderstatistics|
      invariant res == Rollups(orderstatistics[..i])
    {
      RollupsSnoc(orderstatistics, i);
      res := res + [DailyStatistic(orderstatistics[i].date,
                                   Result(SuccOnChain.Label(), orderstatistics[i].totals, orderstatistics[i].totalDataSize))];
    }
    assert orderstatistics[..|orderstatistics|] == orderstatistics;
    RollupsInRange(stats, start, end);
  }

  function SettledIn(start: int, end: int): Order -> bool {
    (o: Order) => start <= o.updatedAt < end && o.onChainStatus == SuccOnChain
  }

  function UpdatedIn(start: int, end: int): Order -> bool {
    (o: Order) => start <= o.updatedAt < end
  }

  /** The orders settled within a window are the success group of the orders updated in it. */
  lemma SettledIsWindowSuccess(orders: seq<Order>, start: int, end: int)
    ensures Select(orders, SettledIn(start, end)) == Select(Select(orders, UpdatedIn(start, end)), HasStatus(SuccOnChain))
  {
    SelectSelect(orders, UpdatedIn(start, end), HasStatus(SuccOnChain), SettledIn(start, end));
  }

  /** GetDailyStatisticByDate: the count and size of the orders that reached success within
      `[start, end)` (by their last update), as one row with an empty status label, or no row
      at all when there are none. The row is the success tally of the live report taken over
      the orders updated within the window. */
  function GetDailyStatisticByDate(orders: seq<Order>, tr: TimeRange): (r: seq<Result>)
    ensures |r| <= 1
    ensures r == [] <==> forall o :: o in orders ==> !(tr.start <= o.updatedAt < tr.end && o.onChainStatus == SuccOnChain)
    ensures r != [] ==> r[0].status == "" && 0 < r[0].totals <= |orders|
    ensures r != [] ==>
      var window := Tally(Select(orders, UpdatedIn(tr.start, tr.end)), SuccOnChain);
      r[0].totals == window.totals && r[0].totalDataSize == window.totalDataSize
  {
    var g := Select(orders, SettledIn(tr.start, tr.end));
    assert g != [] ==> g[0] in g;
    SettledIsWindowSuccess(orders, tr.start, tr.end);
    if g == [] then [] else [Result("", |g|, SumOf(g, OrderSize))]
  }

  /** The count and size a window reports, 0 when it reports no row. */
  function WindowCount(r: seq<Result>): int {
    if r == [] then 0 else r[0].totals
  }

  function WindowSize(r: seq<Result>): int {
    if r == [] then 0 else r[0].totalDataSize
  }

  /** Adjacent windows add up: the totals of `[a, c)` are those of `[a, b)` plus `[b, c)`. */
  lemma WindowsAdd(orders: seq<Order>, a: int, b: int, c: int)
    requires a <= b <= c
    ensures WindowCount(GetDailyStatisticByDate(orders, TimeRange(a, c))) ==
      WindowCount(GetDailyStatisticByDate(orders, TimeRange(a, b))) + WindowCount(GetDailyStatisticByDate(orders, TimeRange(b, c)))
    ensures WindowSize(GetDailyStatisticByDate(orders, TimeRange(a, c))) ==
      WindowSize(GetDailyStatisticByDate(orders, TimeRange(a, b))) + WindowSize(GetDailyStatisticByDate(orders, TimeRange(b, c)))
  {
    SelectSplit(orders, SettledIn(a, c), SettledIn(a, b), SettledIn(b, c), OrderSize);
  }

  /** A window spanning every update reports what the live report tallies for success. */
  lemma WholeWindowIsSuccessTally(orders: seq<Order>, tr: TimeRange)
    requires forall o :: o in orders ==> tr.start <= o.updatedAt < tr.end
    ensures WindowCount(GetDailyStatisticByDate(orders, tr)) == Tally(orders, SuccOnChain).totals
    ensures WindowSize(GetDailyStatisticByDate(orders, tr)) == Tally(orders, SuccOnChain).totalDataSize
  {
    SelectExt(orders, SettledIn(tr.start, tr.end), HasStatus(SuccOnChain));
  }

  function StatIn(start: int, end: int): OrderStatistic -> bool {
    (s: OrderStatistic) => start <= s.date < end
  }

  /** WhetherExec: true exactly when no rollup is dated within `[start, end)`, i.e. the day
      still has to be computed. */
  function WhetherExec(stats: seq<OrderStatistic>, tr: TimeRange): (r: bool)
    ensures r <==> forall s :: s in stats ==> !(tr.start <= s.date < tr.end)
  {
    var found := Select(stats, StatIn(tr.start, tr.end));
    assert found != [] ==> found[0] in found;
    found == []
  }

  /** The guard is true before any rollup exists, and false once a rollup dated within the
      range is persisted; persisting never turns it back to true. */
  lemma WhetherExecGuard(stats: seq<OrderStatistic>, tr: TimeRange, s: OrderStatistic)
    ensures WhetherExec([], tr)
    ensures tr.start <= s.date < tr.end ==> !WhetherExec(stats + [s], tr)
    ensures WhetherExec(stats + [s], tr) ==> WhetherExec(stats, tr)
  {
    assert s in stats + [s];
    assert forall x :: x in stats ==> x in stats + [s];
  }
}
