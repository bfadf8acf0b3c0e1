/** Records of the bundling node's ledger and the closed status vocabularies they use.
    Every table row is a value; the tables themselves live in `Store.Database`. */
module Schema {

  /** Outcome of a lookup that may find no row: `None` is the store's "record not found". */
  datatype Option<T> = None | Some(value: T)

  /** Largest signed 64-bit integer, the far end of the id space used as a default cursor. */
  const MaxInt64: int := 0x7FFF_FFFF_FFFF_FFFF

  /** Payment state of an order. */
  datatype PaymentStatus = UnPayment | SuccPayment | ExpiredPayment

  /** Settlement state of an order, and confirmation state of an on-chain transaction. */
  datatype OnChainStatus = WaitOnChain | PendingOnChain | SuccOnChain | FailedOnChain
  {
    /** The label the store keeps in the `on_chain_status` / `status` columns. */
    function Label(): string
    {
      match this
      case WaitOnChain => "waiting"
      case PendingOnChain => "pending"
      case SuccOnChain => "success"
      case FailedOnChain => "failed"
    }
  }

  /** Go's zero time, 0001-01-01 00:00:00 UTC, in Unix seconds. Every timestamp of the model
      is an instant in Unix seconds, and this is the value of one that was never set: the
      timestamp of a new row the caller left unset, and a date that fails to parse. */
  const ZeroTime: int := -62135596800

  /** The four known on-chain statuses in the order the statistics report lists them. */
  const AllStatuses: seq<OnChainStatus> := [WaitOnChain, PendingOnChain, SuccOnChain, FailedOnChain]

  /** One storage-purchase request. `id` is the store's auto-increment key. */
  datatype Order = Order(
    id: nat,
    itemId: string,
    apiKey: string,
    signer: string,
    paymentStatus: PaymentStatus,
    paymentId: string,
    paymentExpiredTime: int,
    onChainStatus: OnChainStatus,
    sort: bool,
    size: int,
    createdAt: int,
    updatedAt: int)

  /** Confirmation proof reported by the chain node: the block's hash and height. */
  datatype TxStatus = TxStatus(blockIndepHash: string, blockHeight: int)

  /** One ledger-anchoring transaction. `kafka` records that the event was published. */
  datatype OnChainTx = OnChainTx(
    id: nat,
    arId: string,
    curHeight: int,
    dataSize: string,
    reward: string,
    status: OnChainStatus,
    blockId: string,
    blockHeight: int,
    kafka: bool)

  /** Status of a refund receipt: the terminal error state, or any other named state the refund
      workflow writes. `Other` names a state other than the error state: the error state is
      always written as `RefundErr`. */
  datatype ReceiptStatus = RefundErr | Other(name: string)

  /** One refund receipt, keyed by its raw id; `nonce` is its creation time in milliseconds. */
  datatype ReceiptEverTx = ReceiptEverTx(rawId: nat, nonce: int, status: ReceiptStatus, errMsg: string)

  /** A cached token price, keyed by symbol. */
  datatype TokenPrice = TokenPrice(symbol: string, price: real)

  /** A persisted daily rollup; `date` is the instant (Unix seconds) at which its day starts. */
  datatype OrderStatistic = OrderStatistic(date: int, totals: int, totalDataSize: int)

  /** One row of a statistics report. */
  datatype Result = Result(status: string, totals: int, totalDataSize: int)

  /** One day of a rollup report. */
  datatype DailyStatistic = DailyStatistic(date: int, result: Result)

  /** A half-open range `[start, end)` of instants in Unix seconds. */
  datatype TimeRange = TimeRange(start: int, end: int)

  /** An inclusive range of days whose bounds were parsed from `yyyymmdd` text, each as the
      instant its day starts; `None` is a bound whose text did not parse. */
  datatype DateRange = DateRange(start: Option<int>, end: Option<int>)
}
