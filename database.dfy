/** The ledger store of database/database.go: one object owning every table. Its methods are
    the INSERT and UPDATE operations, each reassigning the table it writes to the image of the
    old contents under the matching update function; the queries are the functions of the
    component modules applied to the fields. */
module Store {
  import opened Schema
  import OrderLedger
  import Settlement
  import Refunds
  import PriceCache

  /** A new order row: the store assigns the next auto-increment id and stamps both timestamps
      with `now` when the caller left them unset (the zero time). */
  function NewOrder(order: Order, id: nat, now: int): Order {
    order.(id := id,
           createdAt := if order.createdAt == ZeroTime then now else order.createdAt,
           updatedAt := if order.updatedAt == ZeroTime then now else order.updatedAt)
  }

  class Database {
    var orders: seq<Order>
    var nextOrderId: nat
    var arTxs: seq<OnChainTx>
    var nextArTxId: nat
    var receipts: seq<ReceiptEverTx>
    var prices: map<string, real>
    var statistics: seq<OrderStatistic>
    /** Ids of the transactions KafkaOnChainDone has marked published. */
    ghost var published: set<nat>

    /** The key invariants: auto-increment ids are positive, ascending and below the next id to
        hand out; receipts stay in raw-id order; a published transaction keeps its flag. */
    ghost predicate Valid()
      reads this
    {
      && 0 < nextOrderId && 0 < nextArTxId
      && OrderLedger.IdsAscending(orders)
      && (forall o :: o in orders ==> 0 < o.id < nextOrderId)
      && Settlement.TxIdsAscending(arTxs)
      && (forall t :: t in arTxs ==> 0 < t.id < nextArTxId)
      && Refunds.RawIdsAscending(receipts)
      && (forall t :: t in arTxs && t.id in published ==> t.kafka)
      && (forall id :: id in published ==> id < nextArTxId)
    }

    /** An empty store over an existing table of daily rollups, which is written outside this
        component. */
    constructor(statistics: seq<OrderStatistic>)
      ensures Valid()
      ensures orders == [] && arTxs == [] && receipts == [] && prices == map[]
      ensures this.statistics == statistics
      ensures published == {}
    {
      orders := [];
      nextOrderId := 1;
      arTxs := [];
      nextArTxId := 1;
      receipts := [];
      prices := map[];
      this.statistics := statistics;
      published := {};
    }

    /** InsertOrder: the order is appended under the next id; an unpaid one becomes its item's
        open order. */
    method InsertOrder(order: Order, now: int)
      requires Valid()
      modifies this`orders, this`nextOrderId
      ensures Valid()
      ensures orders == old(orders) + [NewOrder(order, old(nextOrderId), now)]
      ensures nextOrderId == old(nextOrderId) + 1
      ensures order.paymentStatus == UnPayment ==>
        OrderLedger.GetOpenOrders(orders, order.itemId) == Some(NewOrder(order, old(nextOrderId), now))
    {
      var created := NewOrder(order, nextOrderId, now);
      if order.paymentStatus == UnPayment {
        OrderLedger.NewestUnpaidIsOpen(orders, created);
      }
      orders := orders + [created];
      nextOrderId := nextOrderId + 1;
    }

    /** UpdateOrdToExpiredStatus: only the order with that id changes, and the expiry sweep
        stops returning it. */
    method UpdateOrdToExpiredStatus(id: nat, now: int)
      requires Valid()
      modifies this`orders
      ensures Valid()
      ensures orders == OrderLedger.ExpireOrder(old(orders), id, now)
      ensures |orders| == |old(orders)|
      ensures forall i :: 0 <= i < |orders| && old(orders)[i].id != id ==> orders[i] == old(orders)[i]
      ensures forall t :: forall o :: o in OrderLedger.GetExpiredOrders(orders, t) ==> o.id != id
    {
      orders := OrderLedger.ExpireOrder(orders, id, now);
      forall t ensures forall o :: o in OrderLedger.GetExpiredOrders(orders, t) ==> o.id != id {
        OrderLedger.ExpireOrderLeavesSweep(old(orders), id, now, t);
      }
    }

    /** UpdateOrderPay. */
    method UpdateOrderPay(id: nat, everHash: string, paymentStatus: PaymentStatus, now: int)
      requires Valid()
      modifies this`orders
      ensures Valid()
      ensures orders == OrderLedger.PayOrder(old(orders), id, everHash, paymentStatus, now)
    {
      orders := OrderLedger.PayOrder(orders, id, everHash, paymentStatus, now);
    }

    /** UpdateOrdOnChainStatus: every order of the item takes the new on-chain status. */
    method UpdateOrdOnChainStatus(itemId: string, status: OnChainStatus, now: int)
      requires Valid()
      modifies this`orders
      ensures Valid()
      ensures orders == OrderLedger.SetOnChainStatus(old(orders), itemId, status, now)
    {
      orders := OrderLedger.SetOnChainStatus(orders, itemId, status, now);
    }

    /** InsertPrices. */
    method InsertPrices(tps: seq<TokenPrice>)
      requires Valid()
      modifies this`prices
      ensures Valid()
      ensures prices == PriceCache.InsertPrices(old(prices), tps)
    {
      prices := PriceCache.InsertPrices(prices, tps);
    }

    /** UpdatePrice. */
    method UpdatePrice(symbol: string, newPrice: real)
      requires Valid()
      modifies this`prices
      ensures Valid()
      ensures prices == PriceCache.UpdatePrice(old(prices), symbol, newPrice)
    {
      prices := PriceCache.UpdatePrice(prices, symbol, newPrice);
    }

    /** InsertReceiptTx. */
    method InsertReceiptTx(tx: ReceiptEverTx)
      requires Valid()
      modifies this`receipts
      ensures Valid()
      ensures receipts == Refunds.InsertReceiptTx(old(receipts), tx)
    {
      receipts := Refunds.InsertReceiptTx(receipts, tx);
    }

    /** UpdateReceiptStatus. */
    method UpdateReceiptStatus(rawId: nat, status: ReceiptStatus)
      requires Valid()
      modifies this`receipts
      ensures Valid()
      ensures receipts == Refunds.SetReceiptStatus(old(receipts), rawId, status)
    {
      receipts := Refunds.SetReceiptStatus(receipts, rawId, status);
    }

    /** UpdateRefundErr. */
    method UpdateRefundErr(rawId: nat, errMsg: string)
      requires Valid()
      modifies this`receipts
      ensures Valid()
      ensures receipts == Refunds.MarkRefundError(old(receipts), rawId, errMsg)
    {
      receipts := Refunds.MarkRefundError(receipts, rawId, errMsg);
    }

    /** InsertArTx: the transaction is appended under the next id. */
    method InsertArTx(tx: OnChainTx)
      requires Valid()
      modifies this`arTxs, this`nextArTxId
      ensures Valid()
      ensures arTxs == old(arTxs) + [tx.(id := old(nextArTxId))]
      ensures nextArTxId == old(nextArTxId) + 1
    {
      arTxs := arTxs + [tx.(id := nextArTxId)];
      nextArTxId := nextArTxId + 1;
    }

    /** UpdateArTxStatus: the block fields change only when a proof is given. */
    method UpdateArTxStatus(arId: string, status: OnChainStatus, arTxStatus: Option<TxStatus>)
      requires Valid()
      modifies this`arTxs
      ensures Valid()
      ensures arTxs == Settlement.ConfirmTx(old(arTxs), arId, status, arTxStatus)
    {
      Settlement.ConfirmTxKeeps(arTxs, arId, status, arTxStatus, published, nextArTxId);
      arTxs := Settlement.ConfirmTx(arTxs, arId, status, arTxStatus);
    }

    /** UpdateArTx. */
    method UpdateArTx(id: nat, arId: string, curHeight: int, dataSize: string, reward: string, status: OnChainStatus)
      requires Valid()
      modifies this`arTxs
      ensures Valid()
      ensures arTxs == Settlement.RecordSubmission(old(arTxs), id, arId, curHeight, dataSize, reward, status)
    {
      Settlement.RecordSubmissionKeeps(arTxs, id, arId, curHeight, dataSize, reward, status, published, nextArTxId);
      arTxs := Settlement.RecordSubmission(arTxs, id, arId, curHeight, dataSize, reward, status);
    }

    /** KafkaOnChainDone: the transaction is marked published, and from then on no batch of
        GetKafkaOnChains holds a transaction ever marked. */
    method KafkaOnChainDone(id: nat)
      requires Valid()
      modifies this`arTxs, this`published
      ensures Valid()
      ensures arTxs == Settlement.MarkPublished(old(arTxs), id)
      ensures published == old(published) + (if id < old(nextArTxId) then {id} else {})
      ensures forall t :: t in Settlement.GetKafkaOnChains(arTxs) ==> t.id != id && t.id !in published
    {
      Settlement.MarkPublishedKeeps(arTxs, id, published, nextArTxId);
      Settlement.MarkPublishedExcludes(arTxs, id);
      arTxs := Settlement.MarkPublished(arTxs, id);
      if id < nextArTxId {
        published := published + {id};
      }
      Settlement.PublishedNeverSelected(arTxs, published);
    }
  }
}
