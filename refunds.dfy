/** The refund-receipt bookkeeping of database/database.go. The receipt table is keyed by the
    raw id of the payment it refunds and is kept in raw-id order, the order in which the store
    returns its last row. */
module Refunds {
  import opened Schema
  import opened Tables

  /** GetReceiptsByStatus only looks one day back: 24 hours in milliseconds. */
  const RefundWindowMillis: int := 24 * 60 * 60 * 1000

  ghost predicate RawIdsAscending(rows: seq<ReceiptEverTx>) {
    forall i, j :: 0 <= i < j < |rows| ==> rows[i].rawId < rows[j].rawId
  }

  predicate HasReceipt(rows: seq<ReceiptEverTx>, rawId: nat) {
    exists x :: x in rows && x.rawId == rawId
  }

  /** InsertReceiptTx: an insert that does nothing on a raw-id conflict. The new row takes its
      place in raw-id order. */
  function InsertReceiptTx(rows: seq<ReceiptEverTx>, tx: ReceiptEverTx): (r: seq<ReceiptEverTx>)
    requires RawIdsAscending(rows)
    ensures RawIdsAscending(r)
    ensures HasReceipt(rows, tx.rawId) ==> r == rows
    ensures !HasReceipt(rows, tx.rawId) ==> |r| == |rows| + 1
    ensures !HasReceipt(rows, tx.rawId) ==> forall x :: x in r <==> x in rows || x == tx
  {
    if rows == [] then [tx]
    else if rows[0].rawId == tx.rawId then
      assert rows[0] in rows;
      rows
    else if tx.rawId < rows[0].rawId then
      AbsentBelowFirst(rows, tx.rawId);
      ConsAscending(tx, rows);
      [tx] + rows
    else
      var rest := InsertReceiptTx(rows[1..], tx);
      InsertReceiptTxStep(rows, tx, rest);
      [rows[0]] + rest
  }

  /** The step of InsertReceiptTx past the first receipt: inserting into the rest and keeping
      the first receipt in front inserts into the whole table. */
  lemma InsertReceiptTxStep(rows: seq<ReceiptEverTx>, tx: ReceiptEverTx, rest: seq<ReceiptEverTx>)
    requires RawIdsAscending(rows) && rows != [] && rows[0].rawId < tx.rawId
    requires RawIdsAscending(rest)
    requires HasReceipt(rows[1..], tx.rawId) ==> rest == rows[1..]
    requires !HasReceipt(rows[1..], tx.rawId) ==> |rest| == |rows[1..]| + 1
    requires !HasReceipt(rows[1..], tx.rawId) ==> forall x :: x in rest <==> x in rows[1..] || x == tx
    ensures RawIdsAscending([rows[0]] + rest)
    ensures HasReceipt(rows, tx.rawId) ==> [rows[0]] + rest == rows
    ensures !HasReceipt(rows, tx.rawId) ==> |[rows[0]] + rest| == |rows| + 1
    ensures !HasReceipt(rows, tx.rawId) ==> forall x :: x in [rows[0]] + rest <==> x in rows || x == tx
  {
    HasReceiptPastFirst(rows, tx.rawId);
    assert rows == [rows[0]] + rows[1..];
    FirstBelowRest(rows, tx, rest);
    ConsAscending(rows[0], rest);
  }

  lemma AbsentBelowFirst(rows: seq<ReceiptEverTx>, rawId: nat)
    requires RawIdsAscending(rows) && rows != [] && rawId < rows[0].rawId
    ensures !HasReceipt(rows, rawId)
  {
    forall x | x in rows ensures x.rawId != rawId {
      var i :| 0 <= i < |rows| && rows[i] == x;
    }
  }

  lemma HasReceiptPastFirst(rows: seq<ReceiptEverTx>, rawId: nat)
    requires rows != [] && rows[0].rawId != rawId
    ensures HasReceipt(rows, rawId) == HasReceipt(rows[1..], rawId)
  {
    if HasReceipt(rows, rawId) {
      var x :| x in rows && x.rawId == rawId;
      var i :| 0 <= i < |rows| && rows[i] == x;
      assert x == rows[1..][i - 1];
    }
  }

  lemma FirstBelowRest(rows: seq<ReceiptEverTx>, tx: ReceiptEverTx, rest: seq<ReceiptEverTx>)
    requires RawIdsAscending(rows) && rows != [] && rows[0].rawId < tx.rawId
    requires forall x :: x in rest ==> x in rows[1..] || x == tx
    ensures forall x :: x in rest ==> rows[0].rawId < x.rawId
  {
    forall x | x in rest ensures rows[0].rawId < x.rawId {
      if x != tx {
        var i :| 0 <= i < |rows[1..]| && rows[1..][i] == x;
        assert rows[0].rawId < rows[i + 1].rawId;
      }
    }
  }

  lemma ConsAscending(h: ReceiptEverTx, rest: seq<ReceiptEverTx>)
    requires RawIdsAscending(rest)
    requires forall x :: x in rest ==> h.rawId < x.rawId
    ensures RawIdsAscending([h] + rest)
  {
    var s := [h] + rest;
    forall i, j | 0 <= i < j < |s| ensures s[i].rawId < s[j].rawId {
      if i == 0 {
        assert s[j] == rest[j - 1];
        assert s[j] in rest;
      } else {
        assert s[i] == rest[i - 1] && s[j] == rest[j - 1];
      }
    }
  }

  /** GetLastEverRawId: the highest raw id ever recorded, 0 for an empty table. */
  function GetLastEverRawId(rows: seq<ReceiptEverTx>): (r: nat)
    requires RawIdsAscending(rows)
    ensures rows == [] ==> r == 0
    ensures rows != [] ==> HasReceipt(rows, r)
    ensures forall x :: x in rows ==> x.rawId <= r
  {
    if rows == [] then 0
    else
      var last := rows[|rows| - 1];
      assert last in rows;
      assert forall x :: x in rows ==> x.rawId <= last.rawId by {
        forall x | x in rows ensures x.rawId <= last.rawId {
          var i :| 0 <= i < |rows| && rows[i] == x;
        }
      }
      last.rawId
  }

  /** GetReceiptsByStatus: the receipts in `status` created less than a day before `nowMillis`. */
  function GetReceiptsByStatus(rows: seq<ReceiptEverTx>, status: ReceiptStatus, nowMillis: int): (r: seq<ReceiptEverTx>)
    ensures forall x :: x in r <==> x in rows && x.status == status && x.nonce > nowMillis - RefundWindowMillis
    ensures multiset(r) <= multiset(rows)
  {
    var recent := (x: ReceiptEverTx) => x.status == status && x.nonce > nowMillis - RefundWindowMillis;
    SelectSubMultiset(rows, recent);
    Select(rows, recent)
  }

  /** UPDATE of UpdateReceiptStatus: the status of the receipt with that raw id. */
  function SetReceiptStatus(rows: seq<ReceiptEverTx>, rawId: nat, status: ReceiptStatus): seq<ReceiptEverTx> {
    seq(|rows|, i requires 0 <= i < |rows| => if rows[i].rawId == rawId then rows[i].(status := status) else rows[i])
  }

  /** UPDATE of UpdateRefundErr: the receipt with that raw id enters the error state with a message. */
  function MarkRefundError(rows: seq<ReceiptEverTx>, rawId: nat, errMsg: string): seq<ReceiptEverTx> {
    seq(|rows|, i requires 0 <= i < |rows| =>
      if rows[i].rawId == rawId then rows[i].(status := RefundErr, errMsg := errMsg) else rows[i])
  }

  /** Recording a receipt twice is the same as recording it once. */
  lemma InsertReceiptTxIdempotent(rows: seq<ReceiptEverTx>, tx: ReceiptEverTx)
    requires RawIdsAscending(rows)
    ensures InsertReceiptTx(InsertReceiptTx(rows, tx), tx) == InsertReceiptTx(rows, tx)
  {
    var once := InsertReceiptTx(rows, tx);
    if !HasReceipt(rows, tx.rawId) {
      assert tx in once;
    }
  }

  /** The scan cursor after an insert is the larger of the old cursor and the new raw id. */
  lemma InsertAdvancesLastRawId(rows: seq<ReceiptEverTx>, tx: ReceiptEverTx)
    requires RawIdsAscending(rows)
    ensures GetLastEverRawId(InsertReceiptTx(rows, tx)) ==
      if rows == [] || GetLastEverRawId(rows) < tx.rawId then tx.rawId else GetLastEverRawId(rows)
  {
    var after := InsertReceiptTx(rows, tx);
    var m := GetLastEverRawId(after);
    var x :| x in after && x.rawId == m;
    if rows != [] {
      var old_m := GetLastEverRawId(rows);
      var y :| y in rows && y.rawId == old_m;
      if HasReceipt(rows, tx.rawId) {
      } else {
        assert y in after && tx in after;
      }
    } else {
      assert after == [tx];
    }
  }

  /** After UpdateRefundErr a receipt is listed under the error state (while it is recent) and
      under no other state; every other receipt keeps its listing. */
  lemma RefundErrorMovesListing(rows: seq<ReceiptEverTx>, rawId: nat, errMsg: string, status: ReceiptStatus, nowMillis: int)
    ensures forall x :: x in GetReceiptsByStatus(MarkRefundError(rows, rawId, errMsg), status, nowMillis) && x.rawId == rawId ==>
      status == RefundErr && x.errMsg == errMsg
    ensures forall x :: x in GetReceiptsByStatus(rows, status, nowMillis) && x.rawId != rawId ==>
      x in GetReceiptsByStatus(MarkRefundError(rows, rawId, errMsg), status, nowMillis)
    ensures forall x :: x in rows && x.rawId == rawId && x.nonce > nowMillis - RefundWindowMillis ==>
      x.(status := RefundErr, errMsg := errMsg) in GetReceiptsByStatus(MarkRefundError(rows, rawId, errMsg), RefundErr, nowMillis)
  {
    var after := MarkRefundError(rows, rawId, errMsg);
    forall x | x in GetReceiptsByStatus(after, status, nowMillis) && x.rawId == rawId
      ensures status == RefundErr && x.errMsg == errMsg
    {
      var i :| 0 <= i < |after| && after[i] == x;
    }
    forall x | x in GetReceiptsByStatus(rows, status, nowMillis) && x.rawId != rawId
      ensures x in GetReceiptsByStatus(after, status, nowMillis)
    {
      var i :| 0 <= i < |rows| && rows[i] == x;
      assert after[i] == x;
    }
    forall x | x in rows && x.rawId == rawId && x.nonce > nowMillis - RefundWindowMillis
      ensures x.(status := RefundErr, errMsg := errMsg) in GetReceiptsByStatus(after, RefundErr, nowMillis)
    {
      var i :| 0 <= i < |rows| && rows[i] == x;
      assert after[i] == x.(status := RefundErr, errMsg := errMsg);
    }
  }

  /** UpdateReceiptStatus moves the receipt to the new status's listing and keeps every other
      receipt where it was. */
  lemma SetReceiptStatusMovesListing(rows: seq<ReceiptEverTx>, rawId: nat, status: ReceiptStatus, nowMillis: int)
    ensures forall x :: x in rows && x.rawId == rawId && x.nonce > nowMillis - RefundWindowMillis ==>
      x.(status := status) in GetReceiptsByStatus(SetReceiptStatus(rows, rawId, status), status, nowMillis)
    ensures forall s, x :: x in GetReceiptsByStatus(SetReceiptStatus(rows, rawId, status), s, nowMillis) && x.rawId == rawId ==>
      s == status
  {
    var after := SetReceiptStatus(rows, rawId, status);
    forall x | x in rows && x.rawId == rawId && x.nonce > nowMillis - RefundWindowMillis
      ensures x.(status := status) in GetReceiptsByStatus(after, status, nowMillis)
    {
      var i :| 0 <= i < |rows| && rows[i] == x;
      assert after[i] == x.(status := status);
    }
    forall s, x | x in GetReceiptsByStatus(after, s, nowMillis) && x.rawId == rawId
      ensures s == status
    {
      var i :| 0 <= i < |after| && after[i] == x;
    }
  }
}
