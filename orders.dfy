/** The order ledger of database/database.go: every query over the `orders` table as a
    function of the table's rows (kept in auto-increment id order), and every UPDATE statement
    as a function from the old rows to the new ones. `Store.Database` applies the updates. */
module OrderLedger {
  import opened Schema
  import opened Tables

  /** LIMIT of the two submission queues. */
  const NeedOnChainBatch: nat := 2000

  /** The table invariant of an auto-increment key: ids strictly ascending in row order. */
  ghost predicate IdsAscending(rows: seq<Order>) {
    forall i, j :: 0 <= i < j < |rows| ==> rows[i].id < rows[j].id
  }

  ghost predicate IdsDescending(rows: seq<Order>) {
    forall i, j :: 0 <= i < j < |rows| ==> rows[i].id > rows[j].id
  }

  /** `r` is the page ORDER BY id ASC LIMIT n takes from the selection `s`: ascending ids from
      `s`, and any row of `s` it leaves out lies above every id on a full page. */
  ghost predicate IsLowestPage(s: seq<Order>, n: nat, r: seq<Order>) {
    && |r| <= n
    && IdsAscending(r)
    && (forall x :: x in r ==> x in s)
    && (forall x :: x in s && x !in r ==> |r| == n && forall y :: y in r ==> y.id < x.id)
  }

  /** `r` is the page ORDER BY id DESC LIMIT n takes from `s`: descending ids from `s`, and
      any row of `s` it leaves out lies below every id on a full page. */
  ghost predicate IsHighestPage(s: seq<Order>, n: nat, r: seq<Order>) {
    && |r| <= n
    && IdsDescending(r)
    && (forall x :: x in r ==> x in s)
    && (forall x :: x in s && x !in r ==> |r| == n && forall y :: y in r ==> x.id < y.id)
  }

  lemma {:induction false} SelectKeepsAscending(rows: seq<Order>, p: Order -> bool)
    requires IdsAscending(rows)
    ensures IdsAscending(Select(rows, p))
  {
    if rows != [] {
      SelectKeepsAscending(rows[1..], p);
      var rest := Select(rows[1..], p);
      if p(rows[0]) {
        forall x | x in rest
          ensures rows[0].id < x.id
        {
          var k :| 0 <= k < |rows[1..]| && rows[1..][k] == x;
          assert rows[k + 1] == x;
        }
        PrependAscending(rows[0], rest);
      } else {
        assert Select(rows, p) == rest;
      }
    }
  }

  lemma PrependAscending(h: Order, rest: seq<Order>)
    requires IdsAscending(rest)
    requires forall x :: x in rest ==> h.id < x.id
    ensures IdsAscending([h] + rest)
  {
    var s := [h] + rest;
    forall i, j | 0 <= i < j < |s| ensures s[i].id < s[j].id {
      assert s[j] == rest[j - 1] && s[j] in rest;
      if i > 0 {
        assert s[i] == rest[i - 1];
      }
    }
  }

  lemma AscendingPage(s: seq<Order>, n: nat)
    requires IdsAscending(s)
    ensures IsLowestPage(s, n, Limit(s, n))
  {
    var r := Limit(s, n);
    forall x | x in s && x !in r
      ensures |r| == n && forall y :: y in r ==> y.id < x.id
    {
      var j :| 0 <= j < |s| && s[j] == x;
      forall i | 0 <= i < |r|
        ensures s[i] != x
      {
        assert r[i] == s[i] && r[i] in r;
      }
      forall y | y in r
        ensures y.id < x.id
      {
        var m :| 0 <= m < |r| && r[m] == y;
        assert s[m] == y;
      }
    }
  }

  /** The descending page holds the last |page| rows of `s`. */
  lemma TopPageHoldsSuffix(s: seq<Order>, n: nat, j: nat)
    requires j < |s|
    ensures |s| - |Limit(Reverse(s), n)| <= j ==> s[j] in Limit(Reverse(s), n)
  {
    var r := Limit(Reverse(s), n);
    if |s| - |r| <= j {
      assert r[|s| - 1 - j] == s[j];
    }
  }

  lemma DescendingPage(s: seq<Order>, n: nat)
    requires IdsAscending(s)
    ensures IsHighestPage(s, n, Limit(Reverse(s), n))
  {
    var r := Limit(Reverse(s), n);
    TopPageOrder(s, n);
    forall x | x in s && x !in r
      ensures |r| == n && forall y :: y in r ==> x.id < y.id
    {
      var j :| 0 <= j < |s| && s[j] == x;
      TopPageHoldsSuffix(s, n, j);
      forall y | y in r
        ensures x.id < y.id
      {
        var m :| 0 <= m < |r| && r[m] == y;
        TopPageAt(s, n, m);
      }
    }
  }

  lemma TopPageAt(s: seq<Order>, n: nat, m: nat)
    requires m < |Limit(Reverse(s), n)|
    ensures Limit(Reverse(s), n)[m] == s[|s| - 1 - m]
  {
  }

  lemma TopPageOrder(s: seq<Order>, n: nat)
    requires IdsAscending(s)
    ensures IdsDescending(Limit(Reverse(s), n))
    ensures forall x :: x in Limit(Reverse(s), n) ==> x in s
  {
    var r := Limit(Reverse(s), n);
    forall i, j | 0 <= i < j < |r|
      ensures r[i].id > r[j].id
    {
      TopPageAt(s, n, i);
      TopPageAt(s, n, j);
    }
    forall x | x in r
      ensures x in s
    {
      var m :| 0 <= m < |r| && r[m] == x;
      TopPageAt(s, n, m);
    }
  }

  // ---------------------------------------------------------------- payment and expiry

  /** GetOpenOrders: the most recent (`Last`, highest id) unpaid order of the item, or "not found". */
  function GetOpenOrders(rows: seq<Order>, itemId: string): (r: Option<Order>)
    requires IdsAscending(rows)
    ensures r.None? <==> forall o :: o in rows ==> !(o.itemId == itemId && o.paymentStatus == UnPayment)
    ensures r.Some? ==> r.value in rows && r.value.itemId == itemId && r.value.paymentStatus == UnPayment
    ensures r.Some? ==> forall o :: o in rows && o.itemId == itemId && o.paymentStatus == UnPayment ==> o.id <= r.value.id
  {
    var p := (o: Order) => o.itemId == itemId && o.paymentStatus == UnPayment;
    var open := Select(rows, p);
    assert open != [] ==> open[0] in open;
    if open == [] then None
    else
      assert IdsAscending(open) by { SelectKeepsAscending(rows, p); }
      Some(open[|open| - 1])
  }

  /** An unpaid order appended under a fresh, highest id becomes the item's open order. */
  lemma NewestUnpaidIsOpen(rows: seq<Order>, o: Order)
    requires IdsAscending(rows)
    requires forall x :: x in rows ==> x.id < o.id
    requires o.paymentStatus == UnPayment
    ensures IdsAscending(rows + [o])
    ensures GetOpenOrders(rows + [o], o.itemId) == Some(o)
  {
    var after := rows + [o];
    assert forall i :: 0 <= i < |rows| ==> after[i] == rows[i] && after[i] in rows;
    assert o in after;
  }

  /** GetExpiredOrders: the unpaid orders whose payment deadline is before `now`. */
  function GetExpiredOrders(rows: seq<Order>, now: int): (r: seq<Order>)
    ensures forall o :: o in r <==> o in rows && o.paymentStatus == UnPayment && o.paymentExpiredTime < now
    ensures multiset(r) <= multiset(rows)
  {
    var expired := (o: Order) => o.paymentStatus == UnPayment && o.paymentExpiredTime < now;
    SelectSubMultiset(rows, expired);
    Select(rows, expired)
  }

  /** ExistPaidOrd, an inverted probe: true when NO paid order exists for the item. */
  function ExistPaidOrd(rows: seq<Order>, itemId: string): (r: bool)
    ensures r <==> forall o :: o in rows ==> !(o.itemId == itemId && o.paymentStatus == SuccPayment)
  {
    var paid := Select(rows, (o: Order) => o.itemId == itemId && o.paymentStatus == SuccPayment);
    assert paid != [] ==> paid[0] in paid;
    paid == []
  }

  /** IsLatestUnpaidOrd, an inverted probe: true when no unpaid order of the item expires
      after `curExpiredTime`. */
  function IsLatestUnpaidOrd(rows: seq<Order>, itemId: string, curExpiredTime: int): (r: bool)
    ensures r <==> forall o :: o in rows ==>
      !(o.itemId == itemId && o.paymentStatus == UnPayment && o.paymentExpiredTime > curExpiredTime)
  {
    var later := Select(rows, (o: Order) => o.itemId == itemId && o.paymentStatus == UnPayment && o.paymentExpiredTime > curExpiredTime);
    assert later != [] ==> later[0] in later;
    later == []
  }

  // ---------------------------------------------------------------- submission

  /** GetNeedOnChainOrders (`sorted` false) and GetNeedOnChainOrdersSorted (`sorted` true):
      at most 2000 paid orders still waiting for submission, from the chosen queue. */
  function GetNeedOnChainOrders(rows: seq<Order>, sorted: bool): (r: seq<Order>)
    ensures |r| <= NeedOnChainBatch
    ensures forall o :: o in r ==>
      o in rows && o.paymentStatus == SuccPayment && o.onChainStatus == WaitOnChain && o.sort == sorted
    ensures |r| < NeedOnChainBatch ==>
      forall o :: (o in rows && o.paymentStatus == SuccPayment && o.onChainStatus == WaitOnChain && o.sort == sorted) ==> o in r
    ensures multiset(r) <= multiset(rows)
  {
    var p := (o: Order) => o.paymentStatus == SuccPayment && o.onChainStatus == WaitOnChain && o.sort == sorted;
    SelectSubMultiset(rows, p);
    Limit(Select(rows, p), NeedOnChainBatch)
  }

  /** ExistProcessedOrderItem: the first (lowest id) order of the item that is pending or
      settled on chain, when there is one. */
  function ExistProcessedOrderItem(rows: seq<Order>, itemId: string): (r: Option<Order>)
    requires IdsAscending(rows)
    ensures r.None? <==> forall o :: o in rows ==>
      !(o.itemId == itemId && (o.onChainStatus == PendingOnChain || o.onChainStatus == SuccOnChain))
    ensures r.Some? ==> r.value in rows && r.value.itemId == itemId &&
                        (r.value.onChainStatus == PendingOnChain || r.value.onChainStatus == SuccOnChain)
    ensures r.Some? ==>
      forall o :: (o in rows && o.itemId == itemId && (o.onChainStatus == PendingOnChain || o.onChainStatus == SuccOnChain)) ==>
        r.value.id <= o.id
  {
    var p := (o: Order) => o.itemId == itemId && (o.onChainStatus == PendingOnChain || o.onChainStatus == SuccOnChain);
    var processed := Select(rows, p);
    assert processed != [] ==> processed[0] in processed;
    if processed == [] then None
    else
      assert IdsAscending(processed) by { SelectKeepsAscending(rows, p); }
      Some(processed[0])
  }

  // ---------------------------------------------------------------- pagination

  /** Cursor of a descending listing: a cursor at or below 0 means "from the newest". */
  function DescCursor(cursorId: int): int {
    if cursorId <= 0 then MaxInt64 else cursorId
  }

  /** Cursor of an ascending listing: a cursor at or below 0 means "from the oldest". */
  function AscCursor(cursorId: int): nat {
    if cursorId <= 0 then 0 else cursorId
  }

  /** Upper case of a rune as `unicode.ToUpper` gives it for every rune whose upper case is an
      ASCII letter: the ASCII lower-case letters, U+0131 (dotless i) and U+017F (long s). Any
      other rune is kept; its upper case, when it has one, is not ASCII. */
  function UpperRune(c: char): char {
    if 'a' <= c <= 'z' then (c as int - 32) as char
    else if c == '\U{0131}' then 'I'
    else if c == '\U{017F}' then 'S'
    else c
  }

  function ToUpper(s: string): string {
    seq(|s|, i requires 0 <= i < |s| => UpperRune(s[i]))
  }

  /** `strings.ToUpper(sort) == "ASC"`. */
  predicate SortIsAsc(sort: string) {
    ToUpper(sort) == "ASC"
  }

  /** Exactly these spellings select the ascending listing: each letter in either case, and
      the long s for the S. */
  lemma SortIsAscSpellings(sort: string)
    ensures SortIsAsc(sort) <==>
      |sort| == 3 && sort[0] in "aA" && sort[1] in "sS\U{017F}" && sort[2] in "cC"
  {
    if |sort| == 3 && sort[0] in "aA" && sort[1] in "sS\U{017F}" && sort[2] in "cC" {
      assert ToUpper(sort) == "ASC";
    }
    if SortIsAsc(sort) {
      var up := ToUpper(sort);
      assert |sort| == 3;
      assert up[0] == 'A' && up[1] == 'S' && up[2] == 'C';
    }
  }

  /** Filter of the ascending API-key listing. */
  function ApiKeyAfter(apiKey: string, cursor: int): Order -> bool {
    (o: Order) => o.apiKey == apiKey && o.id > cursor
  }

  /** Filter of the descending API-key listing. */
  function ApiKeyBefore(apiKey: string, cursor: int): Order -> bool {
    (o: Order) => o.apiKey == apiKey && o.id < cursor
  }

  function Above(bound: int): Order -> bool {
    (o: Order) => o.id > bound
  }

  /** GetOrdersBySigner: the `num` newest orders of the signer below the cursor that have not
      failed on chain, newest first. */
  function GetOrdersBySigner(rows: seq<Order>, signer: string, cursorId: int, num: nat): (r: seq<Order>)
    requires IdsAscending(rows)
    ensures |r| <= num && IdsDescending(r)
    ensures forall o :: o in r ==>
      o in rows && o.signer == signer && o.onChainStatus != FailedOnChain && o.id < DescCursor(cursorId)
    ensures forall o :: (o in rows && o.signer == signer && o.onChainStatus != FailedOnChain && o.id < DescCursor(cursorId) && o !in r) ==>
      |r| == num && forall x :: x in r ==> o.id < x.id
  {
    var listed := Select(rows, SignerBefore(signer, DescCursor(cursorId)));
    SignerPage(rows, signer, DescCursor(cursorId), num);
    Limit(Reverse(listed), num)
  }

  function SignerBefore(signer: string, cursor: int): Order -> bool {
    (o: Order) => o.id < cursor && o.signer == signer && o.onChainStatus != FailedOnChain
  }

  /** The signer's page is the highest-id page of the signer's live orders below the cursor. */
  lemma SignerPage(rows: seq<Order>, signer: string, cursor: int, num: nat)
    requires IdsAscending(rows)
    ensures var r := Limit(Reverse(Select(rows, SignerBefore(signer, cursor))), num);
      && |r| <= num && IdsDescending(r)
      && (forall o :: o in r ==> o in rows && o.signer == signer && o.onChainStatus != FailedOnChain && o.id < cursor)
      && (forall o :: (o in rows && o.signer == signer && o.onChainStatus != FailedOnChain && o.id < cursor && o !in r) ==>
            |r| == num && forall x :: x in r ==> o.id < x.id)
  {
    var listed := Select(rows, SignerBefore(signer, cursor));
    SelectKeepsAscending(rows, SignerBefore(signer, cursor));
    DescendingPage(listed, num);
  }

  /** The ascending branch of GetOrdersByApiKey: ids above the cursor, oldest first. */
  function AscendingListing(rows: seq<Order>, apiKey: string, cursorId: int, pageSize: nat): (r: seq<Order>)
    ensures forall o :: o in r ==> o in rows && o.apiKey == apiKey && o.id > AscCursor(cursorId)
  {
    Limit(Select(rows, ApiKeyAfter(apiKey, AscCursor(cursorId))), pageSize)
  }

  /** The descending branch of GetOrdersByApiKey: ids below the cursor, newest first. */
  function DescendingListing(rows: seq<Order>, apiKey: string, cursorId: int, pageSize: nat): (r: seq<Order>)
    ensures forall o :: o in r ==> o in rows && o.apiKey == apiKey && o.id < DescCursor(cursorId)
  {
    var listed := Select(rows, ApiKeyBefore(apiKey, DescCursor(cursorId)));
    Limit(Reverse(listed), pageSize)
  }

  /** GetOrdersByApiKey: with `sort` "ASC" in any case, the `pageSize` oldest orders of the key
      above the cursor, oldest first; otherwise the `pageSize` newest below it, newest first. */
  function GetOrdersByApiKey(rows: seq<Order>, apiKey: string, cursorId: int, pageSize: nat, sort: string): (r: seq<Order>)
    requires IdsAscending(rows)
    ensures SortIsAsc(sort) ==> IsLowestPage(Select(rows, ApiKeyAfter(apiKey, AscCursor(cursorId))), pageSize, r)
    ensures !SortIsAsc(sort) ==> IsHighestPage(Select(rows, ApiKeyBefore(apiKey, DescCursor(cursorId))), pageSize, r)
  {
    if SortIsAsc(sort) then
      assert IsLowestPage(Select(rows, ApiKeyAfter(apiKey, AscCursor(cursorId))), pageSize,
                          AscendingListing(rows, apiKey, cursorId, pageSize)) by {
        SelectKeepsAscending(rows, ApiKeyAfter(apiKey, AscCursor(cursorId)));
        AscendingPage(Select(rows, ApiKeyAfter(apiKey, AscCursor(cursorId))), pageSize);
      }
      AscendingListing(rows, apiKey, cursorId, pageSize)
    else
      assert IsHighestPage(Select(rows, ApiKeyBefore(apiKey, DescCursor(cursorId))), pageSize,
                           DescendingListing(rows, apiKey, cursorId, pageSize)) by {
        SelectKeepsAscending(rows, ApiKeyBefore(apiKey, DescCursor(cursorId)));
        DescendingPage(Select(rows, ApiKeyBefore(apiKey, DescCursor(cursorId))), pageSize);
      }
      DescendingListing(rows, apiKey, cursorId, pageSize)
  }

  /** Every row's id is at most the id of the table's last row. */
  lemma IdAtMostLast(rows: seq<Order>, o: Order)
    requires IdsAscending(rows) && o in rows
    ensures o.id <= rows[|rows| - 1].id
  {
    var i :| 0 <= i < |rows| && rows[i] == o;
    if i < |rows| - 1 {
      assert rows[i].id < rows[|rows| - 1].id;
    }
  }

  /** A client paging through an API key's orders with sort "ASC": each call feeds the last id
      of the previous page back as the cursor, until a page comes back empty. */
  function WalkAsc(rows: seq<Order>, apiKey: string, cursorId: int, pageSize: nat): seq<Order>
    requires IdsAscending(rows) && pageSize > 0
    decreases if rows == [] then 0 else rows[|rows| - 1].id - cursorId
  {
    var page := AscendingListing(rows, apiKey, cursorId, pageSize);
    if page == [] then []
    else
      var last := page[|page| - 1];
      assert last in page;
      assert last.id <= rows[|rows| - 1].id by { IdAtMostLast(rows, last); }
      page + WalkAsc(rows, apiKey, last.id, pageSize)
  }

  /** The ascending listing of GetOrdersByApiKey is what WalkAsc pages through. */
  lemma AscIsAscendingListing(rows: seq<Order>, apiKey: string, cursorId: int, pageSize: nat)
    requires IdsAscending(rows)
    ensures GetOrdersByApiKey(rows, apiKey, cursorId, pageSize, "ASC") == AscendingListing(rows, apiKey, cursorId, pageSize)
  {
    assert ToUpper("ASC") == "ASC";
  }

  /** In an ascending sequence the rows above its `k`-th id are the rows after it. */
  lemma AboveIsSuffix(listed: seq<Order>, k: nat)
    requires IdsAscending(listed) && 0 < k <= |listed|
    ensures Select(listed, Above(listed[k - 1].id)) == listed[k..]
  {
    var q := Above(listed[k - 1].id);
    assert forall i :: 0 <= i < k ==> !q(listed[i]);
    assert forall i :: k <= i < |listed| ==> q(listed[i]);
    SelectSuffix(listed, q, k);
  }

  /** The orders of the key above the last id of a page are the rest of the listing. */
  lemma RestAfterPage(rows: seq<Order>, apiKey: string, c: int, k: nat)
    requires IdsAscending(rows)
    requires 0 < k <= |Select(rows, ApiKeyAfter(apiKey, c))|
    ensures var listed := Select(rows, ApiKeyAfter(apiKey, c));
      Select(rows, ApiKeyAfter(apiKey, listed[k - 1].id)) == listed[k..]
  {
    var listed := Select(rows, ApiKeyAfter(apiKey, c));
    var bound := listed[k - 1].id;
    assert bound > c by {
      assert listed[k - 1] in listed;
    }
    assert forall x :: x in rows ==> ApiKeyAfter(apiKey, bound)(x) == (ApiKeyAfter(apiKey, c)(x) && Above(bound)(x));
    SelectSelect(rows, ApiKeyAfter(apiKey, c), Above(bound), ApiKeyAfter(apiKey, bound));
    SelectKeepsAscending(rows, ApiKeyAfter(apiKey, c));
    AboveIsSuffix(listed, k);
  }

  /** One page of the ascending walk: it is the head of the listing, and the listing above its
      last id is the rest. */
  lemma AscPageStep(rows: seq<Order>, apiKey: string, cursorId: int, pageSize: nat)
    requires IdsAscending(rows) && pageSize > 0
    requires AscendingListing(rows, apiKey, cursorId, pageSize) != []
    ensures var page := AscendingListing(rows, apiKey, cursorId, pageSize);
      var listed := Select(rows, ApiKeyAfter(apiKey, AscCursor(cursorId)));
      var last := page[|page| - 1];
      && |page| <= |listed| && page == listed[..|page|]
      && AscCursor(last.id) == last.id
      && last.id <= rows[|rows| - 1].id
      && Select(rows, ApiKeyAfter(apiKey, last.id)) == listed[|page|..]
  {
    var c := AscCursor(cursorId);
    var listed := Select(rows, ApiKeyAfter(apiKey, c));
    var page := AscendingListing(rows, apiKey, cursorId, pageSize);
    var k := |page|;
    var last := page[k - 1];
    assert last == listed[k - 1] && last in rows && last.id > c by {
      assert last in page;
    }
    IdAtMostLast(rows, last);
    RestAfterPage(rows, apiKey, c, k);
  }

  /** Paging from any cursor returns every order of the key above the cursor, in table order. */
  lemma {:induction false} WalkAscFromCursor(rows: seq<Order>, apiKey: string, cursorId: int, pageSize: nat)
    requires IdsAscending(rows) && pageSize > 0
    ensures WalkAsc(rows, apiKey, cursorId, pageSize) == Select(rows, ApiKeyAfter(apiKey, AscCursor(cursorId)))
    decreases if rows == [] then 0 else rows[|rows| - 1].id - cursorId
  {
    var listed := Select(rows, ApiKeyAfter(apiKey, AscCursor(cursorId)));
    var page := AscendingListing(rows, apiKey, cursorId, pageSize);
    if page != [] {
      AscPageStep(rows, apiKey, cursorId, pageSize);
      var k := |page|;
      var last := page[k - 1];
      WalkAscFromCursor(rows, apiKey, last.id, pageSize);
      assert WalkAsc(rows, apiKey, cursorId, pageSize) == listed[..k] + listed[k..];
      PrefixThenSuffix(listed, k);
    } else {
      assert |listed| == 0;
    }
  }

  /** Paging from cursor 0 visits every order of the API key exactly once, in ascending id order. */
  lemma WalkAscVisitsEveryOrder(rows: seq<Order>, apiKey: string, pageSize: nat)
    requires IdsAscending(rows) && pageSize > 0
    requires forall o :: o in rows ==> o.id > 0
    ensures IdsAscending(WalkAsc(rows, apiKey, 0, pageSize))
    ensures forall o :: o in WalkAsc(rows, apiKey, 0, pageSize) <==> o in rows && o.apiKey == apiKey
  {
    WalkAscFromCursor(rows, apiKey, 0, pageSize);
    SelectKeepsAscending(rows, ApiKeyAfter(apiKey, 0));
  }

  // ---------------------------------------------------------------- updates

  /** UPDATE of UpdateOrdToExpiredStatus: the order with that id becomes Expired and Failed on
      chain; gorm stamps `updated_at`. */
  function ExpireOrder(rows: seq<Order>, id: nat, now: int): seq<Order> {
    seq(|rows|, i requires 0 <= i < |rows| =>
      if rows[i].id == id
      then rows[i].(paymentStatus := ExpiredPayment, onChainStatus := FailedOnChain, updatedAt := now)
      else rows[i])
  }

  /** UPDATE of UpdateOrderPay: payment status and payment reference of the order with that id. */
  function PayOrder(rows: seq<Order>, id: nat, paymentId: string, status: PaymentStatus, now: int): seq<Order> {
    seq(|rows|, i requires 0 <= i < |rows| =>
      if rows[i].id == id
      then rows[i].(paymentStatus := status, paymentId := paymentId, updatedAt := now)
      else rows[i])
  }

  /** UPDATE of UpdateOrdOnChainStatus: the on-chain status of EVERY order of the item. */
  function SetOnChainStatus(rows: seq<Order>, itemId: string, status: OnChainStatus, now: int): seq<Order> {
    seq(|rows|, i requires 0 <= i < |rows| =>
      if rows[i].itemId == itemId
      then rows[i].(onChainStatus := status, updatedAt := now)
      else rows[i])
  }

  /** After UpdateOrdToExpiredStatus(id) the sweep no longer returns that order, for any `now`,
      and returns every other order it returned before. */
  lemma ExpireOrderLeavesSweep(rows: seq<Order>, id: nat, t: int, now: int)
    ensures forall o :: o in GetExpiredOrders(ExpireOrder(rows, id, t), now) <==>
      o in GetExpiredOrders(rows, now) && o.id != id
  {
    var after := ExpireOrder(rows, id, t);
    forall o | o in GetExpiredOrders(rows, now) && o.id != id
      ensures o in after
    {
      var i :| 0 <= i < |rows| && rows[i] == o;
      assert after[i] == o;
    }
  }

  /** Expiring an order twice leaves the same table as expiring it once. */
  lemma ExpireOrderIdempotent(rows: seq<Order>, id: nat, now: int)
    ensures ExpireOrder(ExpireOrder(rows, id, now), id, now) == ExpireOrder(rows, id, now)
  {
  }

  /** Once an order of the item is confirmed paid, the duplicate probe refuses a new order. */
  lemma PaidOrderBlocksNewOrder(rows: seq<Order>, id: nat, paymentId: string, itemId: string, now: int)
    requires exists o :: o in rows && o.id == id && o.itemId == itemId
    ensures !ExistPaidOrd(PayOrder(rows, id, paymentId, SuccPayment, now), itemId)
  {
    var o :| o in rows && o.id == id && o.itemId == itemId;
    var i :| 0 <= i < |rows| && rows[i] == o;
    assert PayOrder(rows, id, paymentId, SuccPayment, now)[i].paymentStatus == SuccPayment;
  }

  /** Marking an item's orders pending on chain takes all of them out of both submission
      queues and makes the item show up as already processed. */
  lemma SubmissionLeavesQueues(rows: seq<Order>, itemId: string, now: int, sorted: bool)
    requires IdsAscending(rows)
    requires exists o :: o in rows && o.itemId == itemId
    ensures forall o :: o in GetNeedOnChainOrders(SetOnChainStatus(rows, itemId, PendingOnChain, now), sorted) ==> o.itemId != itemId
    ensures ExistProcessedOrderItem(SetOnChainStatus(rows, itemId, PendingOnChain, now), itemId).Some?
  {
    SubmittedItemIsProcessed(rows, itemId, now);
    SetOnChainStatusCoversItem(rows, itemId, PendingOnChain, now);
  }

  /** After UpdateOrdOnChainStatus every order of the item is in the new status. */
  lemma SetOnChainStatusCoversItem(rows: seq<Order>, itemId: string, status: OnChainStatus, now: int)
    ensures forall x :: x in SetOnChainStatus(rows, itemId, status, now) && x.itemId == itemId ==> x.onChainStatus == status
  {
    var after := SetOnChainStatus(rows, itemId, status, now);
    forall x | x in after && x.itemId == itemId ensures x.onChainStatus == status {
      var j :| 0 <= j < |after| && after[j] == x;
    }
  }

  lemma SubmittedItemIsProcessed(rows: seq<Order>, itemId: string, now: int)
    requires IdsAscending(rows)
    requires exists o :: o in rows && o.itemId == itemId
    ensures IdsAscending(SetOnChainStatus(rows, itemId, PendingOnChain, now))
    ensures ExistProcessedOrderItem(SetOnChainStatus(rows, itemId, PendingOnChain, now), itemId).Some?
  {
    var after := SetOnChainStatus(rows, itemId, PendingOnChain, now);
    assert forall i :: 0 <= i < |after| ==> after[i].id == rows[i].id;
    var o :| o in rows && o.itemId == itemId;
    var i :| 0 <= i < |rows| && rows[i] == o;
    assert after[i] in after && after[i].itemId == itemId && after[i].onChainStatus == PendingOnChain;
  }
}
