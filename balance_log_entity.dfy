/**
 * One row of the append-only balance_log table: the absolute balance of one (address, asset)
 * pair right after one transaction.
 */
module BalanceLogEntity {
  import opened Optional

  /** The policy id recorded for lovelace. */
  const AdaPolicyId: string := "ADA"

  /**
   * The columns of a row other than the generated id and the creation time stamp. Only
   * stakeKeyHash and assetName are nullable; assetName is absent for lovelace.
   */
  datatype Snapshot = Snapshot(
    address: string,
    paymentScriptHash: string,
    stakeKeyHash: Option<string>,
    txHash: string,
    slot: int,
    blockHeight: int,
    policyId: string,
    assetName: Option<string>,
    quantity: int,             // the balance after this transaction, not a delta
    isProgrammableToken: bool)

  /** A stored row: the identity the database assigned, and the columns. */
  datatype Entry = Entry(id: nat, snap: Snapshot)

  /** What a balance is about: an address and an asset (policy id, optional asset name). */
  datatype AssetKey = AssetKey(address: string, policyId: string, assetName: Option<string>)

  /** The columns of the unique constraint unique_balance_entry. */
  datatype UniqueKey = UniqueKey(address: string, policyId: string, assetName: Option<string>, txHash: string)

  function KeyOf(s: Snapshot): AssetKey {
    AssetKey(s.address, s.policyId, s.assetName)
  }

  function UniqueKeyOf(s: Snapshot): UniqueKey {
    UniqueKey(s.address, s.policyId, s.assetName, s.txHash)
  }

  /** The declared column lengths of the table. */
  predicate ColumnsFit(s: Snapshot) {
    && |s.address| <= 200
    && |s.paymentScriptHash| <= 56
    && (s.stakeKeyHash.Some? ==> |s.stakeKeyHash.value| <= 56)
    && |s.txHash| <= 64
    && |s.policyId| <= 56
    && (s.assetName.Some? ==> |s.assetName.value| <= 128)
  }
}
