/**
 The ETH supply snapshot: its wire form (decimal strings, two of them in Gwei),
 its decoded form (exact integers, all in Wei), and the exact supply numerator
 `execution + beacon balances - beacon deposits` that is later scaled to ETH.
 */
module EthSupply {
  import opened Wrappers
  import Decimal

  /** Wei per Gwei, the value of the imported `WEI_PER_GWEI_JSBI` constant. */
  const WeiPerGwei: nat := 1_000_000_000

  /** Wire form, as received from the supply-parts endpoint. */
  datatype BeaconBalancesWire = BeaconBalancesWire(balancesSum: string, slot: int)
  datatype BeaconDepositsWire = BeaconDepositsWire(depositsSum: string, slot: int)
  datatype ExecutionBalancesWire = ExecutionBalancesWire(balancesSum: string, blockNumber: int)
  datatype EthSupplyWire = EthSupplyWire(
    beaconBalancesSum: BeaconBalancesWire,
    beaconDepositsSum: BeaconDepositsWire,
    executionBalancesSum: ExecutionBalancesWire)

  /** Decoded form: every quantity an exact integer number of Wei. */
  datatype BeaconBalances = BeaconBalances(balancesSum: int, slot: int)
  datatype BeaconDeposits = BeaconDeposits(depositsSum: int, slot: int)
  datatype ExecutionBalances = ExecutionBalances(balancesSum: int, blockNumber: int)
  datatype Supply = Supply(
    beaconBalancesSum: BeaconBalances,
    beaconDepositsSum: BeaconDeposits,
    executionBalancesSum: ExecutionBalances)

  /** The field whose decimal string failed to parse. */
  datatype DecodeError = BadDepositsSum | BadBeaconBalancesSum | BadExecutionBalancesSum

  /** Whether every quantity of a wire snapshot is a strict decimal literal. */
  predicate WellFormed(w: EthSupplyWire) {
    && Decimal.IsDecimal(w.beaconDepositsSum.depositsSum)
    && Decimal.IsDecimal(w.beaconBalancesSum.balancesSum)
    && Decimal.IsDecimal(w.executionBalancesSum.balancesSum)
  }

  /**
   Decodes a wire snapshot. The fields are evaluated in the order the source's
   object literal lists them (deposits, beacon balances, execution balances),
   so a failure names the first malformed one in that order.
   */
  function Decode(w: EthSupplyWire): (r: Result<Supply, DecodeError>)
    ensures r.Success? <==> WellFormed(w)
    ensures r.Success? ==>
      && r.value.beaconDepositsSum.depositsSum == Decimal.Value(w.beaconDepositsSum.depositsSum) * WeiPerGwei
      && r.value.beaconBalancesSum.balancesSum == Decimal.Value(w.beaconBalancesSum.balancesSum) * WeiPerGwei
      && r.value.executionBalancesSum.balancesSum == Decimal.Value(w.executionBalancesSum.balancesSum)
      && r.value.beaconDepositsSum.slot == w.beaconDepositsSum.slot
      && r.value.beaconBalancesSum.slot == w.beaconBalancesSum.slot
      && r.value.executionBalancesSum.blockNumber == w.executionBalancesSum.blockNumber
    ensures r.Failure? ==>
      (r.error == BadDepositsSum <==> !Decimal.IsDecimal(w.beaconDepositsSum.depositsSum))
    ensures r == Failure(BadBeaconBalancesSum) <==>
      Decimal.IsDecimal(w.beaconDepositsSum.depositsSum) && !Decimal.IsDecimal(w.beaconBalancesSum.balancesSum)
    ensures r == Failure(BadExecutionBalancesSum) <==>
      && Decimal.IsDecimal(w.beaconDepositsSum.depositsSum)
      && Decimal.IsDecimal(w.beaconBalancesSum.balancesSum)
      && !Decimal.IsDecimal(w.executionBalancesSum.balancesSum)
  {
    match Decimal.Parse(w.beaconDepositsSum.depositsSum)
    case None => Failure(BadDepositsSum)
    case Some(depositsGwei) =>
      match Decimal.Parse(w.beaconBalancesSum.balancesSum)
      case None => Failure(BadBeaconBalancesSum)
      case Some(balancesGwei) =>
        match Decimal.Parse(w.executionBalancesSum.balancesSum)
        case None => Failure(BadExecutionBalancesSum)
        case Some(executionWei) =>
          Success(Supply(
            BeaconBalances(balancesGwei * WeiPerGwei, w.beaconBalancesSum.slot),
            BeaconDeposits(depositsGwei * WeiPerGwei, w.beaconDepositsSum.slot),
            ExecutionBalances(executionWei, w.executionBalancesSum.blockNumber)))
  }

  /** Whether a decoded snapshot is one the wire form can carry: non-negative, Gwei fields whole Gwei. */
  predicate Encodable(s: Supply) {
    && s.beaconDepositsSum.depositsSum >= 0 && s.beaconDepositsSum.depositsSum % WeiPerGwei == 0
    && s.beaconBalancesSum.balancesSum >= 0 && s.beaconBalancesSum.balancesSum % WeiPerGwei == 0
    && s.executionBalancesSum.balancesSum >= 0
  }

  /** The wire form of a decoded snapshot, as the endpoint would send it. */
  function Encode(s: Supply): (w: EthSupplyWire)
    requires Encodable(s)
    ensures WellFormed(w)
  {
    EthSupplyWire(
      BeaconBalancesWire(Decimal.Print(s.beaconBalancesSum.balancesSum / WeiPerGwei), s.beaconBalancesSum.slot),
      BeaconDepositsWire(Decimal.Print(s.beaconDepositsSum.depositsSum / WeiPerGwei), s.beaconDepositsSum.slot),
      ExecutionBalancesWire(Decimal.Print(s.executionBalancesSum.balancesSum), s.executionBalancesSum.blockNumber))
  }

  /** Decoding loses nothing: every encodable snapshot survives encode-then-decode exactly. */
  lemma DecodeEncode(s: Supply)
    requires Encodable(s)
    ensures Decode(Encode(s)) == Success(s)
  {
    Decimal.ParsePrint(s.beaconBalancesSum.balancesSum / WeiPerGwei);
    Decimal.ParsePrint(s.beaconDepositsSum.depositsSum / WeiPerGwei);
    Decimal.ParsePrint(s.executionBalancesSum.balancesSum);
  }

  /** Every successful decode yields an encodable snapshot: the Gwei fields are whole Gwei. */
  lemma DecodeIsEncodable(w: EthSupplyWire)
    requires Decode(w).Success?
    ensures Encodable(Decode(w).value)
  {
  }

  /**
   The exact supply in Wei before the lossy scaling to ETH: execution balances
   plus beacon balances, minus beacon deposits. Not clamped; may be negative.
   */
  function SupplyWei(s: Supply): int {
    s.executionBalancesSum.balancesSum + s.beaconBalancesSum.balancesSum - s.beaconDepositsSum.depositsSum
  }

  /** The exact supply of a wire snapshot, in terms of the numbers its strings spell. */
  lemma SupplyWeiOfWire(w: EthSupplyWire)
    requires WellFormed(w)
    ensures SupplyWei(Decode(w).value) ==
      Decimal.Value(w.executionBalancesSum.balancesSum)
      + WeiPerGwei * (Decimal.Value(w.beaconBalancesSum.balancesSum) - Decimal.Value(w.beaconDepositsSum.depositsSum))
  {
  }

  /** Deposits exceeding balances give a negative supply; nothing clamps it. */
  lemma SupplyMayBeNegative()
    ensures SupplyWei(Supply(BeaconBalances(0, 0), BeaconDeposits(WeiPerGwei, 0), ExecutionBalances(0, 0))) < 0
  {
  }

  /** Raising the wire execution balance by `delta` Wei raises the supply by exactly `delta`. */
  lemma SupplyLinearInExecution(w: EthSupplyWire, w': EthSupplyWire, delta: nat)
    requires WellFormed(w) && WellFormed(w')
    requires w'.beaconBalancesSum == w.beaconBalancesSum && w'.beaconDepositsSum == w.beaconDepositsSum
    requires Decimal.Value(w'.executionBalancesSum.balancesSum) == Decimal.Value(w.executionBalancesSum.balancesSum) + delta
    ensures SupplyWei(Decode(w').value) == SupplyWei(Decode(w).value) + delta
  {
  }

  /** Raising the wire deposit sum by `delta` Gwei lowers the supply by exactly `delta` * 10^9 Wei. */
  lemma SupplyLinearInDeposits(w: EthSupplyWire, w': EthSupplyWire, delta: nat)
    requires WellFormed(w) && WellFormed(w')
    requires w'.beaconBalancesSum == w.beaconBalancesSum && w'.executionBalancesSum == w.executionBalancesSum
    requires Decimal.Value(w'.beaconDepositsSum.depositsSum) == Decimal.Value(w.beaconDepositsSum.depositsSum) + delta
    ensures SupplyWei(Decode(w').value) == SupplyWei(Decode(w).value) - delta * WeiPerGwei
  {
  }

  /** Raising the wire beacon balance by `delta` Gwei raises the supply by exactly `delta` * 10^9 Wei. */
  lemma SupplyLinearInBeaconBalances(w: EthSupplyWire, w': EthSupplyWire, delta: nat)
    requires WellFormed(w) && WellFormed(w')
    requires w'.beaconDepositsSum == w.beaconDepositsSum && w'.executionBalancesSum == w.executionBalancesSum
    requires Decimal.Value(w'.beaconBalancesSum.balancesSum) == Decimal.Value(w.beaconBalancesSum.balancesSum) + delta
    ensures SupplyWei(Decode(w').value) == SupplyWei(Decode(w).value) + delta * WeiPerGwei
  {
  }
}
