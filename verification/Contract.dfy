/** The store contract: keys, requests, results and the checks every backend runs first. */
module Contract {
  import opened Prelude

  datatype BudgetUnit = Requests | Tokens | Credits | Cents | Bytes | Messages | Custom(value: string)

  datatype BudgetKey = BudgetKey(provider: string, domain: string, resource: string, subject: string)

  datatype StoreKey = StoreKey(policyName: string, budgetKey: BudgetKey, unit: BudgetUnit)

  /** Inclusive start and exclusive end of a budget window. Instants are nanoseconds since the epoch. */
  datatype Window = Window(start: int, end: int)

  datatype CounterKey = CounterKey(storeKey: StoreKey, window: Window)

  /** The two counters of a window; `Used` is what a policy sees. */
  datatype Counter = Counter(committed: nat, reserved: nat) {
    function Used(): u64 {
      SatAdd(committed, reserved)
    }
  }

  const EMPTY_COUNTER := Counter(0, 0)

  datatype StoreError =
    | ReservationNotFound
    | ReservationExpired
    | InvalidInput(message: string)
    | Other(message: string)

  /** The refusal of a value that does not fit a backend's signed integers. */
  function TooLarge(name: string): StoreError {
    InvalidInput(name + " is too large for backend integer")
  }

  datatype StoreReservation = StoreReservation(id: nat, expiresAt: int)

  /** Denied when there is no reservation. */
  datatype ReservationResult = ReservationResult(reservation: Option<StoreReservation>, usage: Counter) {
    predicate Allowed() {
      reservation.Some?
    }
  }

  type ReserveAnswer = Result<ReservationResult, StoreError>

  type FinishAnswer = Result<(), StoreError>

  datatype ReserveRequest = ReserveRequest(
    key: StoreKey,
    amount: u64,
    hardLimit: u64,
    effectiveLimit: u64,
    ttl: int,
    window: Window,
    idempotencyKey: Option<string>,
    now: int)
  {
    function Target(): CounterKey {
      CounterKey(key, window)
    }

    function ExpiresAt(): int {
      now + ttl
    }

    function Validate(): (r: FinishAnswer) {
      if amount == 0 then Err(InvalidInput("amount must be greater than zero"))
      else if effectiveLimit > hardLimit then Err(InvalidInput("effective limit must not exceed hard limit"))
      else if ttl <= 0 then Err(InvalidInput("reservation ttl must be positive"))
      else Ok(())
    }
  }
}
