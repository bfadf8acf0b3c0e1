/** The chain settlement tracker of database/database.go: queries over the on-chain
    transaction table as functions of its rows (kept in auto-increment id order), and its
    UPDATE statements as functions from the old rows to the new ones. */
module Settlement {
  import opened Schema
  import opened Tables

  /** Transactions at or below this block height predate the chain-history cutover and are
      never published downstream. */
  const KafkaCutoverHeight: int := 1188855

  /** LIMIT of one publication batch. */
  const KafkaBatch: nat := 10

  ghost predicate TxIdsAscending(rows: seq<OnChainTx>) {
    forall i, j :: 0 <= i < j < |rows| ==> rows[i].id < rows[j].id
  }

  /** A transaction the publisher still has to announce. */
  predicate Publishable(t: OnChainTx) {
    t.blockHeight > KafkaCutoverHeight && !t.kafka && t.status == SuccOnChain
  }

  /** GetArTxByStatus: every transaction in the given status. */
  function GetArTxByStatus(rows: seq<OnChainTx>, status: OnChainStatus): (r: seq<OnChainTx>)
    ensures forall t :: t in r <==> t in rows && t.status == status
    ensures multiset(r) <= multiset(rows)
  {
    var p := (t: OnChainTx) => t.status == status;
    SelectSubMultiset(rows, p);
    Select(rows, p)
  }

  /** GetKafkaOnChains: at most ten confirmed, unpublished transactions above the cutover. */
  function GetKafkaOnChains(rows: seq<OnChainTx>): (r: seq<OnChainTx>)
    ensures |r| <= KafkaBatch
    ensures forall t :: t in r ==>
      t in rows && t.blockHeight > KafkaCutoverHeight && !t.kafka && t.status == SuccOnChain
    ensures |r| < KafkaBatch ==> forall t :: t in rows && Publishable(t) ==> t in r
    ensures multiset(r) <= multiset(rows)
  {
    SelectSubMultiset(rows, Publishable);
    Limit(Select(rows, Publishable), KafkaBatch)
  }

  /** UPDATE of UpdateArTxStatus: the status of every transaction with that chain id, and its
      block hash and height only when a confirmation proof is supplied. */
  function ConfirmTx(rows: seq<OnChainTx>, arId: string, status: OnChainStatus, proof: Option<TxStatus>): seq<OnChainTx> {
    seq(|rows|, i requires 0 <= i < |rows| =>
      if rows[i].arId != arId then rows[i]
      else match proof
        case None => rows[i].(status := status)
        case Some(p) => rows[i].(status := status, blockId := p.blockIndepHash, blockHeight := p.blockHeight))
  }

  /** UPDATE of UpdateArTx: submission bookkeeping of the transaction with that id. */
  function RecordSubmission(rows: seq<OnChainTx>, id: nat, arId: string, curHeight: int,
                            dataSize: string, reward: string, status: OnChainStatus): seq<OnChainTx> {
    seq(|rows|, i requires 0 <= i < |rows| =>
      if rows[i].id == id
      then rows[i].(arId := arId, curHeight := curHeight, dataSize := dataSize, reward := reward, status := status)
      else rows[i])
  }

  /** UPDATE of KafkaOnChainDone: the transaction with that id is marked published. */
  function MarkPublished(rows: seq<OnChainTx>, id: nat): seq<OnChainTx> {
    seq(|rows|, i requires 0 <= i < |rows| => if rows[i].id == id then rows[i].(kafka := true) else rows[i])
  }

  /** UpdateArTxStatus always sets the status of the matching rows; their block hash and
      height change only with a proof, and every other field and row is left alone. */
  lemma ConfirmTxFields(rows: seq<OnChainTx>, arId: string, status: OnChainStatus, proof: Option<TxStatus>, i: nat)
    requires i < |rows|
    ensures |ConfirmTx(rows, arId, status, proof)| == |rows|
    ensures var t, u := rows[i], ConfirmTx(rows, arId, status, proof)[i];
      if t.arId != arId then u == t
      else
        && u.status == status
        && u.id == t.id && u.arId == t.arId && u.curHeight == t.curHeight && u.dataSize == t.dataSize
        && u.reward == t.reward && u.kafka == t.kafka
        && (proof.None? ==> u.blockId == t.blockId && u.blockHeight == t.blockHeight)
        && (proof.Some? ==> u.blockId == proof.value.blockIndepHash && u.blockHeight == proof.value.blockHeight)
  {
  }

  /** A confirmation with a proof above the cutover makes a not yet published transaction
      a candidate for the publisher. */
  lemma ConfirmedTxBecomesPublishable(rows: seq<OnChainTx>, arId: string, p: TxStatus, i: nat)
    requires i < |rows| && rows[i].arId == arId && !rows[i].kafka
    requires p.blockHeight > KafkaCutoverHeight
    ensures ConfirmTx(rows, arId, SuccOnChain, Some(p))[i] in Select(ConfirmTx(rows, arId, SuccOnChain, Some(p)), Publishable)
  {
    var after := ConfirmTx(rows, arId, SuccOnChain, Some(p));
    assert Publishable(after[i]);
  }

  /** After KafkaOnChainDone(id) the publisher never selects that transaction. */
  lemma MarkPublishedExcludes(rows: seq<OnChainTx>, id: nat)
    ensures forall t :: t in GetKafkaOnChains(MarkPublished(rows, id)) ==> t.id != id
  {
    var after := MarkPublished(rows, id);
    forall t | t in GetKafkaOnChains(after)
      ensures t.id != id
    {
      var i :| 0 <= i < |after| && after[i] == t;
    }
  }

  /** UpdateArTxStatus keeps every id in place and every published flag set. */
  lemma ConfirmTxKeeps(rows: seq<OnChainTx>, arId: string, status: OnChainStatus, proof: Option<TxStatus>,
                       published: set<nat>, next: nat)
    requires TxIdsAscending(rows)
    requires forall t :: t in rows ==> 0 < t.id < next
    requires forall t :: t in rows && t.id in published ==> t.kafka
    ensures TxIdsAscending(ConfirmTx(rows, arId, status, proof))
    ensures forall t :: t in ConfirmTx(rows, arId, status, proof) ==> 0 < t.id < next
    ensures forall t :: t in ConfirmTx(rows, arId, status, proof) && t.id in published ==> t.kafka
  {
    var after := ConfirmTx(rows, arId, status, proof);
    assert forall i :: 0 <= i < |after| ==> after[i].id == rows[i].id && after[i].kafka == rows[i].kafka && rows[i] in rows;
    forall t | t in after ensures 0 < t.id < next && (t.id in published ==> t.kafka) {
      var i :| 0 <= i < |after| && after[i] == t;
    }
  }

  /** UpdateArTx keeps every id in place and every published flag set. */
  lemma RecordSubmissionKeeps(rows: seq<OnChainTx>, id: nat, arId: string, curHeight: int, dataSize: string,
                              reward: string, status: OnChainStatus, published: set<nat>, next: nat)
    requires TxIdsAscending(rows)
    requires forall t :: t in rows ==> 0 < t.id < next
    requires forall t :: t in rows && t.id in published ==> t.kafka
    ensures TxIdsAscending(RecordSubmission(rows, id, arId, curHeight, dataSize, reward, status))
    ensures forall t :: t in RecordSubmission(rows, id, arId, curHeight, dataSize, reward, status) ==> 0 < t.id < next
    ensures forall t :: t in RecordSubmission(rows, id, arId, curHeight, dataSize, reward, status) && t.id in published ==> t.kafka
  {
    var after := RecordSubmission(rows, id, arId, curHeight, dataSize, reward, status);
    assert forall i :: 0 <= i < |after| ==> after[i].id == rows[i].id && after[i].kafka == rows[i].kafka && rows[i] in rows;
    forall t | t in after ensures 0 < t.id < next && (t.id in published ==> t.kafka) {
      var i :| 0 <= i < |after| && after[i] == t;
    }
  }

  /** KafkaOnChainDone keeps every id in place and every flag set, and sets the flag of `id`. */
  lemma MarkPublishedKeeps(rows: seq<OnChainTx>, id: nat, published: set<nat>, next: nat)
    requires TxIdsAscending(rows)
    requires forall t :: t in rows ==> 0 < t.id < next
    requires forall t :: t in rows && t.id in published ==> t.kafka
    ensures TxIdsAscending(MarkPublished(rows, id))
    ensures forall t :: t in MarkPublished(rows, id) ==> 0 < t.id < next
    ensures forall t :: t in MarkPublished(rows, id) && (t.id in published || t.id == id) ==> t.kafka
  {
    var after := MarkPublished(rows, id);
    assert forall i :: 0 <= i < |after| ==> after[i].id == rows[i].id && rows[i] in rows;
    forall t | t in after ensures 0 < t.id < next && (t.id in published || t.id == id ==> t.kafka) {
      var i :| 0 <= i < |after| && after[i] == t;
    }
  }

  /** KafkaOnChainDone is idempotent. */
  lemma MarkPublishedIdempotent(rows: seq<OnChainTx>, id: nat)
    ensures MarkPublished(MarkPublished(rows, id), id) == MarkPublished(rows, id)
  {
  }

  /** No update of the transaction table clears the published flag. */
  lemma PublishedFlagSticky(rows: seq<OnChainTx>, id: nat, arId: string, curHeight: int, dataSize: string,
                            reward: string, status: OnChainStatus, proof: Option<TxStatus>, i: nat)
    requires i < |rows| && rows[i].kafka
    ensures ConfirmTx(rows, arId, status, proof)[i].kafka
    ensures RecordSubmission(rows, id, arId, curHeight, dataSize, reward, status)[i].kafka
    ensures MarkPublished(rows, id)[i].kafka
  {
  }

  /** While every transaction whose id is in `published` carries the flag, the publisher
      selects none of them. */
  lemma PublishedNeverSelected(rows: seq<OnChainTx>, published: set<nat>)
    requires forall t :: t in rows && t.id in published ==> t.kafka
    ensures forall t :: t in GetKafkaOnChains(rows) ==> t.id !in published
  {
  }
}
