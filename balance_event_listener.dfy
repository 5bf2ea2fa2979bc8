/**
 * BalanceEventListener: turns a block's address-UTxO event into balance-log rows. Per
 * transaction, the consumed and produced UTxOs at monitored addresses are folded into one net
 * change per `address|policyId|assetName`, and each change is appended as the new absolute
 * balance (the latest stored balance plus the change).
 */
module BalanceEventListener {
  import opened Optional
  import opened BalanceLogEntity
  import opened BalanceLogRepository
  import opened BalanceService

  /** One asset of a UTxO: its unit (policy id followed by asset name, or "lovelace") and amount. */
  datatype Amt = Amt(unit: string, quantity: int)

  /** The output a transaction input spends. */
  datatype UtxoId = UtxoId(txHash: string, outputIndex: int)

  /** A UTxO as the indexer stores it: the owner's address and the assets it holds. */
  datatype Utxo = Utxo(ownerAddr: string, amounts: seq<Amt>)

  datatype TxInputOutputs = TxInputOutputs(txHash: string, inputs: seq<UtxoId>, outputs: seq<Utxo>)

  /** The event metadata the listener reads (slot, block height) and the transactions. */
  datatype AddressUtxoEvent = AddressUtxoEvent(slot: int, blockHeight: int, txInputOutputs: seq<TxInputOutputs>)

  datatype AddressComponents = AddressComponents(fullAddress: string, paymentScriptHash: string,
                                                 stakeKeyHash: Option<string>)

  /**
   * The collaborators, as values: the programmable-logic script hash of every loaded protocol
   * params row, the UTxO store (utxoRepository.findById), AddressUtil.decompose (an address
   * missing from the map decomposes to null) and registryService.isTokenRegistered.
   */
  datatype Env = Env(
    progLogicScriptHashes: seq<string>,
    utxos: map<UtxoId, Utxo>,
    addresses: map<string, AddressComponents>,
    registeredPolicies: set<string>)

  /** The length of a policy id in hex characters (28 bytes). */
  const PolicyIdLength := 56

  /**
   * The unit of an asset as (policyId, assetName): "lovelace" is ADA without a name; otherwise
   * the first 56 characters are the policy id and the rest, if any, the asset name. A shorter
   * unit is rejected (None) and its amount skipped.
   */
  function ParseUnit(unit: string): (r: Option<(string, Option<string>)>)
    ensures r.None? <==> unit != "lovelace" && |unit| < PolicyIdLength
    ensures unit == "lovelace" ==> r == Some((AdaPolicyId, None))
    ensures r.Some? && unit != "lovelace" ==>
      && |r.value.0| == PolicyIdLength && r.value.1 != Some("")
      && unit == r.value.0 + (if r.value.1.Some? then r.value.1.value else "")
  {
    if unit == "lovelace" then Some((AdaPolicyId, None))
    else if |unit| >= PolicyIdLength then
      Some((unit[..PolicyIdLength], if |unit| > PolicyIdLength then Some(unit[PolicyIdLength..]) else None))
    else None
  }

  /** The unit an asset is written with on chain: the inverse of ParseUnit. */
  function UnitOf(policyId: string, assetName: Option<string>): string {
    if policyId == AdaPolicyId && assetName.None? then "lovelace"
    else policyId + (if assetName.Some? then assetName.value else "")
  }

  /** Every accepted unit is the unit of what it parses to. */
  lemma UnitOfParseUnit(unit: string)
    requires ParseUnit(unit).Some?
    ensures UnitOf(ParseUnit(unit).value.0, ParseUnit(unit).value.1) == unit
  {
    if unit != "lovelace" {
      assert ParseUnit(unit).value.0 != AdaPolicyId;
    }
  }

  /** ParseUnit reads back lovelace and every 56-character policy with an optional non-empty name. */
  lemma ParseUnitOf(policyId: string, assetName: Option<string>)
    requires (policyId == AdaPolicyId && assetName.None?)
             || (|policyId| == PolicyIdLength && assetName != Some(""))
    ensures ParseUnit(UnitOf(policyId, assetName)) == Some((policyId, assetName))
  {
    var u := UnitOf(policyId, assetName);
    if |policyId| == PolicyIdLength {
      assert u[..PolicyIdLength] == policyId;
      if assetName.Some? {
        assert u[PolicyIdLength..] == assetName.value;
      }
    }
  }

  /** Java string concatenation writes a null asset name as "null". */
  function AssetNameText(assetName: Option<string>): string {
    if assetName.Some? then assetName.value else "null"
  }

  /** The key of the per-transaction map: `address + "|" + policyId + "|" + assetName`. */
  function ChangeKey(address: string, policyId: string, assetName: Option<string>): string {
    address + "|" + policyId + "|" + AssetNameText(assetName)
  }

  /** Text without a separator splits back off a separated key at its first separator. */
  lemma SplitAtSeparator(x: string, y: string, x': string, y': string)
    requires '|' !in x && '|' !in x' && x + "|" + y == x' + "|" + y'
    ensures x == x' && y == y'
  {
    var k, k' := x + "|" + y, x' + "|" + y';
    assert k[|x|] == '|' && k'[|x'|] == '|';
    assert x == k[..|x|] && x' == k'[..|x'|];
    assert y == k[|x| + 1..] && y' == k'[|x'| + 1..];
  }

  /**
   * With no separator in the addresses and policy ids (bech32 text and hex), the key tells
   * changes apart by address, policy id and asset-name text.
   */
  lemma ChangeKeyInjective(a: string, p: string, n: Option<string>, a': string, p': string, n': Option<string>)
    requires '|' !in a && '|' !in p && '|' !in a' && '|' !in p'
    requires ChangeKey(a, p, n) == ChangeKey(a', p', n')
    ensures a == a' && p == p' && AssetNameText(n) == AssetNameText(n')
  {
    var t, t' := AssetNameText(n), AssetNameText(n');
    assert ChangeKey(a, p, n) == a + "|" + (p + "|" + t);
    assert ChangeKey(a', p', n') == a' + "|" + (p' + "|" + t');
    SplitAtSeparator(a, p + "|" + t, a', p' + "|" + t');
    SplitAtSeparator(p, t, p', t');
  }

  /**
   * The key does not tell a missing asset name from the name "null": a unit of exactly 56
   * characters and the same unit followed by "null" share one change.
   */
  lemma NullNameSharesKey(address: string, policyId: string)
    ensures ChangeKey(address, policyId, None) == ChangeKey(address, policyId, Some("null"))
    ensures KeyOf(Snapshot(address, "", None, "", 0, 0, policyId, None, 0, false))
            != KeyOf(Snapshot(address, "", None, "", 0, 0, policyId, Some("null"), 0, false))
  {
  }

  /**
   * The running change of one (address, asset) within a transaction; the address data and the
   * asset come from the first amount that created it (computeIfAbsent).
   */
  datatype BalanceChange = BalanceChange(
    address: string,
    paymentScriptHash: string,
    stakeKeyHash: Option<string>,
    policyId: string,
    assetName: Option<string>,
    netChange: int)

  function KeyOfChange(c: BalanceChange): string {
    ChangeKey(c.address, c.policyId, c.assetName)
  }

  /** The map of changes, in the order its keys were first touched, holds each key once. */
  predicate KeysDistinct(cs: seq<BalanceChange>) {
    forall i, j :: 0 <= i < j < |cs| ==> KeyOfChange(cs[i]) != KeyOfChange(cs[j])
  }

  /** `r` extends the map `cs`: each key of `cs` stays where it was, and new keys only follow. */
  predicate Extends(cs: seq<BalanceChange>, r: seq<BalanceChange>) {
    |cs| <= |r| && forall i :: 0 <= i < |cs| ==> KeyOfChange(r[i]) == KeyOfChange(cs[i])
  }

  /** The position of `key` in the map of changes, if it is there. */
  function Find(cs: seq<BalanceChange>, key: string): (r: Option<nat>)
    ensures r.Some? ==> r.value < |cs| && KeyOfChange(cs[r.value]) == key
    ensures r.None? <==> forall j :: 0 <= j < |cs| ==> KeyOfChange(cs[j]) != key
  {
    if cs == [] then None
    else
      var init := cs[..|cs| - 1];
      assert forall j :: 0 <= j < |init| ==> init[j] == cs[j];
      match Find(init, key)
      case Some(i) => Some(i)
      case None => if KeyOfChange(cs[|cs| - 1]) == key then Some(|cs| - 1) else None
  }

  /** Two maps with the same keys at the same positions find every key at the same position. */
  lemma {:induction false} FindSameKeys(cs: seq<BalanceChange>, ds: seq<BalanceChange>, key: string)
    requires |cs| == |ds| && forall j :: 0 <= j < |cs| ==> KeyOfChange(cs[j]) == KeyOfChange(ds[j])
    ensures Find(cs, key) == Find(ds, key)
  {
    if cs != [] {
      FindSameKeys(cs[..|cs| - 1], ds[..|ds| - 1], key);
    }
  }

  lemma FindAppend(cs: seq<BalanceChange>, c: BalanceChange, key: string)
    ensures Find(cs + [c], key) == if Find(cs, key).Some? then Find(cs, key)
                                  else if KeyOfChange(c) == key then Some(|cs|) else None
  {
    assert (cs + [c])[..|cs|] == cs;
  }

  /** The net change the map holds for `key`; zero for a key it does not hold. */
  function NetOf(cs: seq<BalanceChange>, key: string): int {
    match Find(cs, key)
    case Some(i) => cs[i].netChange
    case None => 0
  }

  /** The key an amount is counted under, None for a unit that is rejected. */
  function AmountKey(comps: AddressComponents, a: Amt): Option<string> {
    match ParseUnit(a.unit)
    case Some((policyId, assetName)) => Some(ChangeKey(comps.fullAddress, policyId, assetName))
    case None => None
  }

  /** One step of processUtxo: add an output amount to its key's change, or subtract an input's. */
  function AddAmount(cs: seq<BalanceChange>, comps: AddressComponents, a: Amt, isOutput: bool): (r: seq<BalanceChange>)
    ensures Extends(cs, r) && |r| <= |cs| + 1
  {
    match ParseUnit(a.unit)
    case None => cs
    case Some((policyId, assetName)) =>
      var delta := if isOutput then a.quantity else -a.quantity;
      match Find(cs, ChangeKey(comps.fullAddress, policyId, assetName))
      case Some(i) => cs[i := cs[i].(netChange := cs[i].netChange + delta)]
      case None =>
        cs + [BalanceChange(comps.fullAddress, comps.paymentScriptHash, comps.stakeKeyHash, policyId, assetName, delta)]
  }

  /** One amount moves its key's change by the amount and no other key's. */
  lemma AddAmountNet(cs: seq<BalanceChange>, comps: AddressComponents, a: Amt, isOutput: bool, key: string)
    ensures var delta := if isOutput then a.quantity else -a.quantity;
      NetOf(AddAmount(cs, comps, a, isOutput), key) == NetOf(cs, key) + (if AmountKey(comps, a) == Some(key) then delta else 0)
  {
    AddAmountFind(cs, comps, a, isOutput, key);
  }

  /** One amount adds its own key to the map, if it is not there yet, and no other key. */
  lemma AddAmountFind(cs: seq<BalanceChange>, comps: AddressComponents, a: Amt, isOutput: bool, key: string)
    ensures Find(AddAmount(cs, comps, a, isOutput), key)
            == if Find(cs, key).None? && AmountKey(comps, a) == Some(key) then Some(|cs|) else Find(cs, key)
  {
    match ParseUnit(a.unit)
    case None =>
    case Some((policyId, assetName)) =>
      var k := ChangeKey(comps.fullAddress, policyId, assetName);
      match Find(cs, k)
      case Some(i) =>
        FindSameKeys(cs, AddAmount(cs, comps, a, isOutput), key);
      case None =>
        var c := BalanceChange(comps.fullAddress, comps.paymentScriptHash, comps.stakeKeyHash, policyId, assetName,
                               if isOutput then a.quantity else -a.quantity);
        FindAppend(cs, c, key);
  }

  /** An amount never gives the map a second entry for a key. */
  lemma AddAmountDistinct(cs: seq<BalanceChange>, comps: AddressComponents, a: Amt, isOutput: bool)
    requires KeysDistinct(cs)
    ensures KeysDistinct(AddAmount(cs, comps, a, isOutput))
  {
    match ParseUnit(a.unit)
    case None =>
    case Some((policyId, assetName)) =>
      var r := AddAmount(cs, comps, a, isOutput);
      match Find(cs, ChangeKey(comps.fullAddress, policyId, assetName))
      case Some(i) =>
        assert forall j :: 0 <= j < |cs| ==> KeyOfChange(r[j]) == KeyOfChange(cs[j]);
      case None =>
  }

  /** processUtxo: every amount of one UTxO, in order. */
  function ProcessUtxo(cs: seq<BalanceChange>, amounts: seq<Amt>, comps: AddressComponents, isOutput: bool)
    : (r: seq<BalanceChange>)
    ensures Extends(cs, r) && |r| <= |cs| + |amounts|
    decreases |amounts|
  {
    if amounts == [] then cs
    else AddAmount(ProcessUtxo(cs, amounts[..|amounts| - 1], comps, isOutput), comps, amounts[|amounts| - 1], isOutput)
  }

  /** The sum of the amounts of a UTxO counted under `key`. */
  function AmountTotal(amounts: seq<Amt>, comps: AddressComponents, key: string): int
    decreases |amounts|
  {
    if amounts == [] then 0
    else
      var a := amounts[|amounts| - 1];
      AmountTotal(amounts[..|amounts| - 1], comps, key) + (if AmountKey(comps, a) == Some(key) then a.quantity else 0)
  }

  predicate AmountsTouch(amounts: seq<Amt>, comps: AddressComponents, key: string) {
    exists j :: 0 <= j < |amounts| && AmountKey(comps, amounts[j]) == Some(key)
  }

  lemma AmountsTouchLast(amounts: seq<Amt>, comps: AddressComponents, key: string)
    requires amounts != []
    ensures AmountsTouch(amounts, comps, key) <==>
      AmountsTouch(amounts[..|amounts| - 1], comps, key) || AmountKey(comps, amounts[|amounts| - 1]) == Some(key)
  {
    var init := amounts[..|amounts| - 1];
    if AmountsTouch(amounts, comps, key) && AmountKey(comps, amounts[|amounts| - 1]) != Some(key) {
      var j :| 0 <= j < |amounts| && AmountKey(comps, amounts[j]) == Some(key);
      assert init[j] == amounts[j];
    }
    if AmountsTouch(init, comps, key) {
      var j :| 0 <= j < |init| && AmountKey(comps, init[j]) == Some(key);
      assert amounts[j] == init[j];
    }
  }

  /** The amounts of a UTxO move a key's change by their total for that key. */
  lemma {:induction false} ProcessUtxoNet(cs: seq<BalanceChange>, amounts: seq<Amt>, comps: AddressComponents,
                                          isOutput: bool, key: string)
    ensures NetOf(ProcessUtxo(cs, amounts, comps, isOutput), key)
            == NetOf(cs, key) + (if isOutput then AmountTotal(amounts, comps, key) else -AmountTotal(amounts, comps, key))
    decreases |amounts|
  {
    if amounts != [] {
      var init := amounts[..|amounts| - 1];
      ProcessUtxoNet(cs, init, comps, isOutput, key);
      AddAmountNet(ProcessUtxo(cs, init, comps, isOutput), comps, amounts[|amounts| - 1], isOutput, key);
    }
  }

  /** After a UTxO the map holds a key exactly if it held it before or the UTxO touches it. */
  lemma {:induction false} ProcessUtxoFind(cs: seq<BalanceChange>, amounts: seq<Amt>, comps: AddressComponents,
                                           isOutput: bool, key: string)
    ensures Find(ProcessUtxo(cs, amounts, comps, isOutput), key).Some? <==>
      Find(cs, key).Some? || AmountsTouch(amounts, comps, key)
    decreases |amounts|
  {
    if amounts != [] {
      var init := amounts[..|amounts| - 1];
      ProcessUtxoFind(cs, init, comps, isOutput, key);
      AddAmountFind(ProcessUtxo(cs, init, comps, isOutput), comps, amounts[|amounts| - 1], isOutput, key);
      AmountsTouchLast(amounts, comps, key);
    }
  }

  lemma {:induction false} ProcessUtxoDistinct(cs: seq<BalanceChange>, amounts: seq<Amt>, comps: AddressComponents,
                                               isOutput: bool)
    requires KeysDistinct(cs)
    ensures KeysDistinct(ProcessUtxo(cs, amounts, comps, isOutput))
    decreases |amounts|
  {
    if amounts != [] {
      var init := amounts[..|amounts| - 1];
      ProcessUtxoDistinct(cs, init, comps, isOutput);
      AddAmountDistinct(ProcessUtxo(cs, init, comps, isOutput), comps, amounts[|amounts| - 1], isOutput);
    }
  }

  /** The decomposition of an address whose payment credential is a monitored script; None otherwise. */
  function Monitored(env: Env, address: string): (r: Option<AddressComponents>)
    ensures r.Some? ==> address in env.addresses && r.value == env.addresses[address]
                        && r.value.paymentScriptHash in env.progLogicScriptHashes
    ensures address in env.addresses && env.addresses[address].paymentScriptHash in env.progLogicScriptHashes ==> r.Some?
  {
    if address in env.addresses && env.addresses[address].paymentScriptHash in env.progLogicScriptHashes
    then Some(env.addresses[address])
    else None
  }

  /** The UTxO an input spends and its monitored address; None when it is unknown or not monitored. */
  function SpentUtxo(env: Env, input: UtxoId): (r: Option<(Utxo, AddressComponents)>)
    ensures r.Some? ==> input in env.utxos && r.value.0 == env.utxos[input]
                        && Monitored(env, r.value.0.ownerAddr) == Some(r.value.1)
    ensures input in env.utxos && Monitored(env, env.utxos[input].ownerAddr).Some? ==> r.Some?
  {
    if input in env.utxos then
      match Monitored(env, env.utxos[input].ownerAddr)
      case Some(comps) => Some((env.utxos[input], comps))
      case None => None
    else None
  }

  function ProcessInput(env: Env, cs: seq<BalanceChange>, input: UtxoId): (r: seq<BalanceChange>)
    ensures Extends(cs, r)
  {
    match SpentUtxo(env, input)
    case Some((utxo, comps)) => ProcessUtxo(cs, utxo.amounts, comps, false)
    case None => cs
  }

  function ProcessOutput(env: Env, cs: seq<BalanceChange>, output: Utxo): (r: seq<BalanceChange>)
    ensures Extends(cs, r)
  {
    match Monitored(env, output.ownerAddr)
    case Some(comps) => ProcessUtxo(cs, output.amounts, comps, true)
    case None => cs
  }

  function ProcessInputs(env: Env, cs: seq<BalanceChange>, inputs: seq<UtxoId>): (r: seq<BalanceChange>)
    ensures Extends(cs, r)
    decreases |inputs|
  {
    if inputs == [] then cs
    else ProcessInput(env, ProcessInputs(env, cs, inputs[..|inputs| - 1]), inputs[|inputs| - 1])
  }

  function ProcessOutputs(env: Env, cs: seq<BalanceChange>, outputs: seq<Utxo>): (r: seq<BalanceChange>)
    ensures Extends(cs, r)
    decreases |outputs|
  {
    if outputs == [] then cs
    else ProcessOutput(env, ProcessOutputs(env, cs, outputs[..|outputs| - 1]), outputs[|outputs| - 1])
  }

  /** The map of changes of one transaction, built fresh: inputs first, then outputs. */
  function TxChanges(env: Env, tx: TxInputOutputs): (r: seq<BalanceChange>)
    ensures KeysDistinct(r)
  {
    ProcessInputsDistinct(env, [], tx.inputs);
    ProcessOutputsDistinct(env, ProcessInputs(env, [], tx.inputs), tx.outputs);
    ProcessOutputs(env, ProcessInputs(env, [], tx.inputs), tx.outputs)
  }

  /** What the monitored inputs of a transaction take from `key`. */
  function InputTotal(env: Env, inputs: seq<UtxoId>, key: string): int
    decreases |inputs|
  {
    if inputs == [] then 0
    else
      InputTotal(env, inputs[..|inputs| - 1], key)
      + match SpentUtxo(env, inputs[|inputs| - 1])
        case Some((utxo, comps)) => AmountTotal(utxo.amounts, comps, key)
        case None => 0
  }

  /** What the monitored outputs of a transaction give to `key`. */
  function OutputTotal(env: Env, outputs: seq<Utxo>, key: string): int
    decreases |outputs|
  {
    if outputs == [] then 0
    else
      OutputTotal(env, outputs[..|outputs| - 1], key)
      + match Monitored(env, outputs[|outputs| - 1].ownerAddr)
        case Some(comps) => AmountTotal(outputs[|outputs| - 1].amounts, comps, key)
        case None => 0
  }

  predicate InputTouches(env: Env, input: UtxoId, key: string) {
    SpentUtxo(env, input).Some? && AmountsTouch(SpentUtxo(env, input).value.0.amounts, SpentUtxo(env, input).value.1, key)
  }

  predicate OutputTouches(env: Env, output: Utxo, key: string) {
    Monitored(env, output.ownerAddr).Some? && AmountsTouch(output.amounts, Monitored(env, output.ownerAddr).value, key)
  }

  predicate InputsTouch(env: Env, inputs: seq<UtxoId>, key: string) {
    exists j :: 0 <= j < |inputs| && InputTouches(env, inputs[j], key)
  }

  predicate OutputsTouch(env: Env, outputs: seq<Utxo>, key: string) {
    exists j :: 0 <= j < |outputs| && OutputTouches(env, outputs[j], key)
  }

  /** Some accepted amount of a monitored input or output of the transaction is counted under `key`. */
  predicate TxTouches(env: Env, tx: TxInputOutputs, key: string) {
    InputsTouch(env, tx.inputs, key) || OutputsTouch(env, tx.outputs, key)
  }

  lemma InputsTouchLast(env: Env, inputs: seq<UtxoId>, key: string)
    requires inputs != []
    ensures InputsTouch(env, inputs, key) <==>
      InputsTouch(env, inputs[..|inputs| - 1], key) || InputTouches(env, inputs[|inputs| - 1], key)
  {
    var init := inputs[..|inputs| - 1];
    assert forall j :: 0 <= j < |init| ==> init[j] == inputs[j];
  }

  lemma OutputsTouchLast(env: Env, outputs: seq<Utxo>, key: string)
    requires outputs != []
    ensures OutputsTouch(env, outputs, key) <==>
      OutputsTouch(env, outputs[..|outputs| - 1], key) || OutputTouches(env, outputs[|outputs| - 1], key)
  {
    var init := outputs[..|outputs| - 1];
    assert forall j :: 0 <= j < |init| ==> init[j] == outputs[j];
  }

  lemma {:induction false} ProcessInputsNet(env: Env, cs: seq<BalanceChange>, inputs: seq<UtxoId>, key: string)
    ensures NetOf(ProcessInputs(env, cs, inputs), key) == NetOf(cs, key) - InputTotal(env, inputs, key)
    decreases |inputs|
  {
    if inputs != [] {
      var init := inputs[..|inputs| - 1];
      ProcessInputsNet(env, cs, init, key);
      match SpentUtxo(env, inputs[|inputs| - 1])
      case Some((utxo, comps)) => ProcessUtxoNet(ProcessInputs(env, cs, init), utxo.amounts, comps, false, key);
      case None =>
    }
  }

  lemma {:induction false} ProcessInputsFind(env: Env, cs: seq<BalanceChange>, inputs: seq<UtxoId>, key: string)
    ensures Find(ProcessInputs(env, cs, inputs), key).Some? <==>
      Find(cs, key).Some? || InputsTouch(env, inputs, key)
    decreases |inputs|
  {
    if inputs != [] {
      var init := inputs[..|inputs| - 1];
      ProcessInputsFind(env, cs, init, key);
      InputsTouchLast(env, inputs, key);
      match SpentUtxo(env, inputs[|inputs| - 1])
      case Some((utxo, comps)) => ProcessUtxoFind(ProcessInputs(env, cs, init), utxo.amounts, comps, false, key);
      case None =>
    }
  }

  lemma {:induction false} ProcessInputsDistinct(env: Env, cs: seq<BalanceChange>, inputs: seq<UtxoId>)
    requires KeysDistinct(cs)
    ensures KeysDistinct(ProcessInputs(env, cs, inputs))
    decreases |inputs|
  {
    if inputs != [] {
      var init := inputs[..|inputs| - 1];
      ProcessInputsDistinct(env, cs, init);
      match SpentUtxo(env, inputs[|inputs| - 1])
      case Some((utxo, comps)) => ProcessUtxoDistinct(ProcessInputs(env, cs, init), utxo.amounts, comps, false);
      case None =>
    }
  }

  lemma {:induction false} ProcessOutputsNet(env: Env, cs: seq<BalanceChange>, outputs: seq<Utxo>, key: string)
    ensures NetOf(ProcessOutputs(env, cs, outputs), key) == NetOf(cs, key) + OutputTotal(env, outputs, key)
    decreases |outputs|
  {
    if outputs != [] {
      var init := outputs[..|outputs| - 1];
      ProcessOutputsNet(env, cs, init, key);
      match Monitored(env, outputs[|outputs| - 1].ownerAddr)
      case Some(comps) => ProcessUtxoNet(ProcessOutputs(env, cs, init), outputs[|outputs| - 1].amounts, comps, true, key);
      case None =>
    }
  }

  lemma {:induction false} ProcessOutputsFind(env: Env, cs: seq<BalanceChange>, outputs: seq<Utxo>, key: string)
    ensures Find(ProcessOutputs(env, cs, outputs), key).Some? <==>
      Find(cs, key).Some? || OutputsTouch(env, outputs, key)
    decreases |outputs|
  {
    if outputs != [] {
      var init := outputs[..|outputs| - 1];
      ProcessOutputsFind(env, cs, init, key);
      OutputsTouchLast(env, outputs, key);
      match Monitored(env, outputs[|outputs| - 1].ownerAddr)
      case Some(comps) => ProcessUtxoFind(ProcessOutputs(env, cs, init), outputs[|outputs| - 1].amounts, comps, true, key);
      case None =>
    }
  }

  lemma {:induction false} ProcessOutputsDistinct(env: Env, cs: seq<BalanceChange>, outputs: seq<Utxo>)
    requires KeysDistinct(cs)
    ensures KeysDistinct(ProcessOutputs(env, cs, outputs))
    decreases |outputs|
  {
    if outputs != [] {
      var init := outputs[..|outputs| - 1];
      ProcessOutputsDistinct(env, cs, init);
      match Monitored(env, outputs[|outputs| - 1].ownerAddr)
      case Some(comps) => ProcessUtxoDistinct(ProcessOutputs(env, cs, init), outputs[|outputs| - 1].amounts, comps, true);
      case None =>
    }
  }

  /** A key's change is what monitored outputs bring minus what spent monitored inputs take. */
  lemma TxChangesNet(env: Env, tx: TxInputOutputs, key: string)
    ensures NetOf(TxChanges(env, tx), key) == OutputTotal(env, tx.outputs, key) - InputTotal(env, tx.inputs, key)
  {
    ProcessInputsNet(env, [], tx.inputs, key);
    ProcessOutputsNet(env, ProcessInputs(env, [], tx.inputs), tx.outputs, key);
  }

  /** A key has a change exactly when some monitored input or output of the transaction carries it. */
  lemma TxChangesFind(env: Env, tx: TxInputOutputs, key: string)
    ensures Find(TxChanges(env, tx), key).Some? <==> TxTouches(env, tx, key)
  {
    ProcessInputsFind(env, [], tx.inputs, key);
    ProcessOutputsFind(env, ProcessInputs(env, [], tx.inputs), tx.outputs, key);
  }

  lemma ProcessUtxoStep(cs: seq<BalanceChange>, amounts: seq<Amt>, i: nat, comps: AddressComponents, isOutput: bool)
    requires i < |amounts|
    ensures ProcessUtxo(cs, amounts[..i + 1], comps, isOutput)
            == AddAmount(ProcessUtxo(cs, amounts[..i], comps, isOutput), comps, amounts[i], isOutput)
  {
    assert amounts[..i + 1][..i] == amounts[..i];
  }

  /** The body of processUtxo's loop: computeIfAbsent, then add or subtract the amount. */
  method ApplyAmount(changes: seq<BalanceChange>, comps: AddressComponents, amount: Amt, isOutput: bool)
    returns (r: seq<BalanceChange>)
    ensures r == AddAmount(changes, comps, amount, isOutput)
  {
    r := changes;
    var parsed := ParseUnit(amount.unit);
    if parsed.None? {
      return;
    }
    var (policyId, assetName) := parsed.value;
    var found := Find(r, ChangeKey(comps.fullAddress, policyId, assetName));
    var k;
    if found.Some? {
      k := found.value;
    } else {
      r := r + [BalanceChange(comps.fullAddress, comps.paymentScriptHash, comps.stakeKeyHash, policyId, assetName, 0)];
      k := |r| - 1;
    }
    if isOutput {
      r := r[k := r[k].(netChange := r[k].netChange + amount.quantity)];
    } else {
      r := r[k := r[k].(netChange := r[k].netChange - amount.quantity)];
    }
  }

  /** processUtxo as the source writes it: a loop over the amounts updating the map. */
  method AccumulateUtxo(changes: seq<BalanceChange>, amounts: seq<Amt>, comps: AddressComponents, isOutput: bool)
    returns (r: seq<BalanceChange>)
    ensures r == ProcessUtxo(changes, amounts, comps, isOutput)
  {
    r := changes;
    var i := 0;
    while i < |amounts|
      invariant 0 <= i <= |amounts|
      invariant r == ProcessUtxo(changes, amounts[..i], comps, isOutput)
    {
      ProcessUtxoStep(changes, amounts, i, comps, isOutput);
      r := ApplyAmount(r, comps, amounts[i], isOutput);
      i := i + 1;
    }
    assert amounts[..i] == amounts;
  }

  /** The two loops of processEvent that fill a transaction's fresh map of changes. */
  method CollectChanges(env: Env, tx: TxInputOutputs) returns (changes: seq<BalanceChange>)
    ensures changes == TxChanges(env, tx)
  {
    changes := [];
    var i := 0;
    while i < |tx.inputs|
      invariant 0 <= i <= |tx.inputs|
      invariant changes == ProcessInputs(env, [], tx.inputs[..i])
    {
      var input := tx.inputs[i];
      if input in env.utxos {
        var utxo := env.utxos[input];
        var comps := Monitored(env, utxo.ownerAddr);
        if comps.Some? {
          changes := AccumulateUtxo(changes, utxo.amounts, comps.value, false);
        }
      }
      assert tx.inputs[..i + 1][..i] == tx.inputs[..i];
      i := i + 1;
    }
    assert tx.inputs[..i] == tx.inputs;
    var j := 0;
    while j < |tx.outputs|
      invariant 0 <= j <= |tx.outputs|
      invariant changes == ProcessOutputs(env, ProcessInputs(env, [], tx.inputs), tx.outputs[..j])
    {
      var output := tx.outputs[j];
      var comps := Monitored(env, output.ownerAddr);
      if comps.Some? {
        changes := AccumulateUtxo(changes, output.amounts, comps.value, true);
      }
      assert tx.outputs[..j + 1][..j] == tx.outputs[..j];
      j := j + 1;
    }
    assert tx.outputs[..j] == tx.outputs;
  }

  /** The quantity of the latest stored balance of (address, asset); zero if there is none. */
  function BalanceBefore(log: seq<Entry>, address: string, policyId: string, assetName: Option<string>): (r: int)
    ensures (forall y :: y in log ==> !Matches(AddressAndAsset(address, policyId, assetName), y.snap)) ==> r == 0
    ensures (exists y :: y in log && Matches(AddressAndAsset(address, policyId, assetName), y.snap)) ==>
      exists y :: y in log && Matches(AddressAndAsset(address, policyId, assetName), y.snap) && y.snap.quantity == r
  {
    match Newest(log, AddressAndAsset(address, policyId, assetName))
    case Some(p) => p.snap.quantity
    case None => 0
  }

  /** The row recorded for one change: the new absolute balance, stamped with the transaction. */
  function NewRow(log: seq<Entry>, c: BalanceChange, txHash: string, slot: int, blockHeight: int,
                  registered: set<string>): (r: Snapshot)
    ensures UniqueKeyOf(r) == ChangeRowKey(c, txHash)
    ensures r.quantity - BalanceBefore(log, c.address, c.policyId, c.assetName) == c.netChange
    ensures r.isProgrammableToken <==> c.policyId in registered
  {
    Snapshot(c.address, c.paymentScriptHash, c.stakeKeyHash, txHash, slot, blockHeight, c.policyId, c.assetName,
             BalanceBefore(log, c.address, c.policyId, c.assetName) + c.netChange, c.policyId in registered)
  }

  /** The unique-constraint columns of the row a change is recorded in. */
  function ChangeRowKey(c: BalanceChange, txHash: string): UniqueKey {
    UniqueKey(c.address, c.policyId, c.assetName, txHash)
  }

  predicate HasRow(log: seq<Entry>, k: UniqueKey) {
    exists j :: 0 <= j < |log| && UniqueKeyOf(log[j].snap) == k
  }

  /** Every change of the map has a stored row with the transaction's hash. */
  predicate ChangesRecorded(log: seq<Entry>, cs: seq<BalanceChange>, txHash: string) {
    forall i :: 0 <= i < |cs| ==> HasRow(log, ChangeRowKey(cs[i], txHash))
  }

  lemma RecordedGrows(a: seq<Entry>, b: seq<Entry>, cs: seq<BalanceChange>, txHash: string)
    requires a <= b && ChangesRecorded(a, cs, txHash)
    ensures ChangesRecorded(b, cs, txHash)
  {
    forall i | 0 <= i < |cs| ensures HasRow(b, ChangeRowKey(cs[i], txHash)) {
      assert HasRow(a, ChangeRowKey(cs[i], txHash));
      var k :| 0 <= k < |a| && UniqueKeyOf(a[k].snap) == ChangeRowKey(cs[i], txHash);
      assert b[k] == a[k];
    }
  }

  lemma ChangesRecordedSnoc(log: seq<Entry>, cs: seq<BalanceChange>, txHash: string)
    requires cs != []
    requires ChangesRecorded(log, cs[..|cs| - 1], txHash) && HasRow(log, ChangeRowKey(cs[|cs| - 1], txHash))
    ensures ChangesRecorded(log, cs, txHash)
  {
    forall i | 0 <= i < |cs| - 1 ensures HasRow(log, ChangeRowKey(cs[i], txHash)) {
      assert cs[..|cs| - 1][i] == cs[i];
    }
  }

  /** append leaves a row with the argument's unique-constraint columns. */
  lemma AppendRowHasRow(t: Table, s: Snapshot)
    ensures HasRow(AppendRow(t, s).0.entries, UniqueKeyOf(s))
  {
  }

  /** balanceChanges.forEach: one append per change, in the map's order; the log only grows. */
  function RecordChanges(t: Table, cs: seq<BalanceChange>, txHash: string, slot: int, blockHeight: int,
                         registered: set<string>): (r: Table)
    ensures t.entries <= r.entries
    decreases |cs|
  {
    if cs == [] then t
    else
      var mid := RecordChanges(t, cs[..|cs| - 1], txHash, slot, blockHeight, registered);
      var r := AppendRow(mid, NewRow(mid.entries, cs[|cs| - 1], txHash, slot, blockHeight, registered)).0;
      assert mid.entries <= r.entries;
      r
  }

  lemma {:induction false} RecordChangesWellFormed(t: Table, cs: seq<BalanceChange>, txHash: string, slot: int,
                                                   blockHeight: int, registered: set<string>)
    requires WellFormed(t)
    ensures WellFormed(RecordChanges(t, cs, txHash, slot, blockHeight, registered))
    decreases |cs|
  {
    if cs != [] {
      RecordChangesWellFormed(t, cs[..|cs| - 1], txHash, slot, blockHeight, registered);
    }
  }

  lemma {:induction false} RecordChangesKeysUnique(t: Table, cs: seq<BalanceChange>, txHash: string, slot: int,
                                                   blockHeight: int, registered: set<string>)
    requires KeysUnique(t.entries)
    ensures KeysUnique(RecordChanges(t, cs, txHash, slot, blockHeight, registered).entries)
    decreases |cs|
  {
    if cs != [] {
      RecordChangesKeysUnique(t, cs[..|cs| - 1], txHash, slot, blockHeight, registered);
    }
  }

  /** After recording, every change of the map has a row of this transaction. */
  lemma {:induction false} RecordChangesRecorded(t: Table, cs: seq<BalanceChange>, txHash: string, slot: int,
                                                 blockHeight: int, registered: set<string>)
    ensures ChangesRecorded(RecordChanges(t, cs, txHash, slot, blockHeight, registered).entries, cs, txHash)
    decreases |cs|
  {
    if cs != [] {
      var init := cs[..|cs| - 1];
      var mid := RecordChanges(t, init, txHash, slot, blockHeight, registered);
      var r := RecordChanges(t, cs, txHash, slot, blockHeight, registered);
      RecordChangesRecorded(t, init, txHash, slot, blockHeight, registered);
      RecordedGrows(mid.entries, r.entries, init, txHash);
      var s := NewRow(mid.entries, cs[|cs| - 1], txHash, slot, blockHeight, registered);
      assert UniqueKeyOf(s) == ChangeRowKey(cs[|cs| - 1], txHash);
      AppendRowHasRow(mid, s);
      ChangesRecordedSnoc(r.entries, cs, txHash);
    }
  }

  /** One transaction: its map of changes, recorded with its hash and the event's slot and block. */
  function ProcessTx(t: Table, env: Env, slot: int, blockHeight: int, tx: TxInputOutputs): (r: Table)
    ensures t.entries <= r.entries
  {
    RecordChanges(t, TxChanges(env, tx), tx.txHash, slot, blockHeight, env.registeredPolicies)
  }

  /** The transactions of an event in order. */
  function ProcessTxs(t: Table, env: Env, slot: int, blockHeight: int, txs: seq<TxInputOutputs>): (r: Table)
    ensures t.entries <= r.entries
    decreases |txs|
  {
    if txs == [] then t
    else ProcessTx(ProcessTxs(t, env, slot, blockHeight, txs[..|txs| - 1]), env, slot, blockHeight, txs[|txs| - 1])
  }

  lemma {:induction false} ProcessTxsKeepsInvariants(t: Table, env: Env, slot: int, blockHeight: int,
                                                     txs: seq<TxInputOutputs>)
    ensures WellFormed(t) ==> WellFormed(ProcessTxs(t, env, slot, blockHeight, txs))
    ensures KeysUnique(t.entries) ==> KeysUnique(ProcessTxs(t, env, slot, blockHeight, txs).entries)
    decreases |txs|
  {
    if txs != [] {
      var mid := ProcessTxs(t, env, slot, blockHeight, txs[..|txs| - 1]);
      var tx := txs[|txs| - 1];
      ProcessTxsKeepsInvariants(t, env, slot, blockHeight, txs[..|txs| - 1]);
      if WellFormed(mid) {
        RecordChangesWellFormed(mid, TxChanges(env, tx), tx.txHash, slot, blockHeight, env.registeredPolicies);
      }
      if KeysUnique(mid.entries) {
        RecordChangesKeysUnique(mid, TxChanges(env, tx), tx.txHash, slot, blockHeight, env.registeredPolicies);
      }
    }
  }

  /** Every transaction of `txs` is recorded in the log. */
  predicate TxsRecorded(log: seq<Entry>, env: Env, txs: seq<TxInputOutputs>) {
    forall k :: 0 <= k < |txs| ==> ChangesRecorded(log, TxChanges(env, txs[k]), txs[k].txHash)
  }

  lemma TxsRecordedSnoc(a: seq<Entry>, b: seq<Entry>, env: Env, txs: seq<TxInputOutputs>)
    requires txs != [] && a <= b
    requires TxsRecorded(a, env, txs[..|txs| - 1])
    requires ChangesRecorded(b, TxChanges(env, txs[|txs| - 1]), txs[|txs| - 1].txHash)
    ensures TxsRecorded(b, env, txs)
  {
    forall k | 0 <= k < |txs| - 1 ensures ChangesRecorded(b, TxChanges(env, txs[k]), txs[k].txHash) {
      assert txs[..|txs| - 1][k] == txs[k];
      RecordedGrows(a, b, TxChanges(env, txs[k]), txs[k].txHash);
    }
  }

  /** After an event every one of its transactions is recorded. */
  lemma {:induction false} ProcessTxsRecorded(t: Table, env: Env, slot: int, blockHeight: int, txs: seq<TxInputOutputs>)
    ensures TxsRecorded(ProcessTxs(t, env, slot, blockHeight, txs).entries, env, txs)
    decreases |txs|
  {
    if txs != [] {
      var init, tx := txs[..|txs| - 1], txs[|txs| - 1];
      var mid := ProcessTxs(t, env, slot, blockHeight, init);
      ProcessTxsRecorded(t, env, slot, blockHeight, init);
      RecordChangesRecorded(mid, TxChanges(env, tx), tx.txHash, slot, blockHeight, env.registeredPolicies);
      TxsRecordedSnoc(mid.entries, ProcessTxs(t, env, slot, blockHeight, txs).entries, env, txs);
    }
  }

  /** processEvent: nothing is recorded before any protocol params are loaded. */
  function EventSpec(t: Table, env: Env, ev: AddressUtxoEvent): (r: Table)
    ensures t.entries <= r.entries
  {
    if env.progLogicScriptHashes == [] then t else ProcessTxs(t, env, ev.slot, ev.blockHeight, ev.txInputOutputs)
  }

  lemma RecordChangesStep(t: Table, cs: seq<BalanceChange>, i: nat, txHash: string, slot: int, blockHeight: int,
                          registered: set<string>)
    requires i < |cs|
    ensures var mid := RecordChanges(t, cs[..i], txHash, slot, blockHeight, registered);
      RecordChanges(t, cs[..i + 1], txHash, slot, blockHeight, registered)
      == AppendRow(mid, NewRow(mid.entries, cs[i], txHash, slot, blockHeight, registered)).0
  {
    assert cs[..i + 1][..i] == cs[..i];
  }

  /** `getLatestBalance(...).map(BalanceLogEntity::getQuantity).orElse(BigInteger.ZERO)`. */
  method LatestQuantity(repo: BalanceLogTable, change: BalanceChange) returns (q: int)
    ensures q == BalanceBefore(repo.entries, change.address, change.policyId, change.assetName)
  {
    var latest := GetLatestBalance(repo.entries, change.address, change.policyId, change.assetName);
    LatestIsNewest(repo.entries, change.address, change.policyId, change.assetName);
    q := if latest.Some? then latest.value.snap.quantity else 0;
  }

  /** The body of the forEach over the map of changes: read the latest balance, append the new one. */
  method SaveChange(repo: BalanceLogTable, change: BalanceChange, txHash: string, slot: int, blockHeight: int,
                    registered: set<string>)
    requires repo.Valid()
    modifies repo
    ensures repo.Valid()
    ensures repo.State() == AppendRow(old(repo.State()), NewRow(old(repo.entries), change, txHash, slot, blockHeight, registered)).0
  {
    var previousBalance := LatestQuantity(repo, change);
    var entry := Snapshot(change.address, change.paymentScriptHash, change.stakeKeyHash, txHash, slot, blockHeight,
                          change.policyId, change.assetName, previousBalance + change.netChange,
                          change.policyId in registered);
    assert entry == NewRow(repo.entries, change, txHash, slot, blockHeight, registered);
    var saved := Append(repo, entry);
  }

  /** The forEach over the map of changes, in the map's order. */
  method SaveChanges(repo: BalanceLogTable, changes: seq<BalanceChange>, txHash: string, slot: int,
                     blockHeight: int, registered: set<string>)
    requires repo.Valid()
    modifies repo
    ensures repo.Valid()
    ensures repo.State() == RecordChanges(old(repo.State()), changes, txHash, slot, blockHeight, registered)
  {
    ghost var t0 := repo.State();
    var i := 0;
    while i < |changes|
      invariant 0 <= i <= |changes|
      invariant repo.Valid()
      invariant repo.State() == RecordChanges(t0, changes[..i], txHash, slot, blockHeight, registered)
    {
      RecordChangesStep(t0, changes, i, txHash, slot, blockHeight, registered);
      SaveChange(repo, changes[i], txHash, slot, blockHeight, registered);
      i := i + 1;
    }
    assert changes[..i] == changes;
  }

  lemma ProcessTxsStep(t: Table, env: Env, slot: int, blockHeight: int, txs: seq<TxInputOutputs>, k: nat)
    requires k < |txs|
    ensures ProcessTxs(t, env, slot, blockHeight, txs[..k + 1])
            == ProcessTx(ProcessTxs(t, env, slot, blockHeight, txs[..k]), env, slot, blockHeight, txs[k])
  {
    assert txs[..k + 1][..k] == txs[..k];
  }

  /** processEvent: every transaction of the event, each with a fresh map of changes. */
  method ProcessEvent(repo: BalanceLogTable, env: Env, ev: AddressUtxoEvent)
    requires repo.Valid()
    modifies repo
    ensures repo.Valid()
    ensures repo.State() == EventSpec(old(repo.State()), env, ev)
  {
    if env.progLogicScriptHashes == [] {
      return;
    }
    ghost var t0 := repo.State();
    var k := 0;
    while k < |ev.txInputOutputs|
      invariant 0 <= k <= |ev.txInputOutputs|
      invariant repo.Valid()
      invariant repo.State() == ProcessTxs(t0, env, ev.slot, ev.blockHeight, ev.txInputOutputs[..k])
    {
      var tx := ev.txInputOutputs[k];
      var changes := CollectChanges(env, tx);
      ProcessTxsStep(t0, env, ev.slot, ev.blockHeight, ev.txInputOutputs, k);
      SaveChanges(repo, changes, tx.txHash, ev.slot, ev.blockHeight, env.registeredPolicies);
      k := k + 1;
    }
    assert ev.txInputOutputs[..k] == ev.txInputOutputs;
  }

  /** Every run of processEvent keeps the log's ids increasing and its keys unique. */
  lemma EventKeepsInvariants(t: Table, env: Env, ev: AddressUtxoEvent)
    ensures WellFormed(t) ==> WellFormed(EventSpec(t, env, ev))
    ensures KeysUnique(t.entries) ==> KeysUnique(EventSpec(t, env, ev).entries)
  {
    ProcessTxsKeepsInvariants(t, env, ev.slot, ev.blockHeight, ev.txInputOutputs);
  }

  /** Without protocol params no transaction of the event is looked at. */
  lemma NoProtocolParamsRecordsNothing(t: Table, env: Env, ev: AddressUtxoEvent)
    requires env.progLogicScriptHashes == []
    ensures EventSpec(t, env, ev) == t
  {
  }

  /** A change already recorded for this transaction leaves the log as it is. */
  lemma ChangesRecordedInit(log: seq<Entry>, cs: seq<BalanceChange>, txHash: string)
    requires cs != [] && ChangesRecorded(log, cs, txHash)
    ensures ChangesRecorded(log, cs[..|cs| - 1], txHash) && HasRow(log, ChangeRowKey(cs[|cs| - 1], txHash))
  {
    var init := cs[..|cs| - 1];
    forall i | 0 <= i < |init| ensures HasRow(log, ChangeRowKey(init[i], txHash)) {
      assert init[i] == cs[i];
    }
  }

  lemma {:induction false} RecordRecordedUnchanged(t: Table, cs: seq<BalanceChange>, txHash: string, slot: int,
                                                   blockHeight: int, registered: set<string>)
    requires ChangesRecorded(t.entries, cs, txHash)
    ensures RecordChanges(t, cs, txHash, slot, blockHeight, registered) == t
    decreases |cs|
  {
    if cs != [] {
      ChangesRecordedInit(t.entries, cs, txHash);
      RecordRecordedUnchanged(t, cs[..|cs| - 1], txHash, slot, blockHeight, registered);
      var s := NewRow(t.entries, cs[|cs| - 1], txHash, slot, blockHeight, registered);
      assert UniqueKeyOf(s) == ChangeRowKey(cs[|cs| - 1], txHash);
      assert Recorded(t.entries, s);
    }
  }

  lemma TxsRecordedInit(log: seq<Entry>, env: Env, txs: seq<TxInputOutputs>)
    requires txs != [] && TxsRecorded(log, env, txs)
    ensures TxsRecorded(log, env, txs[..|txs| - 1])
    ensures ChangesRecorded(log, TxChanges(env, txs[|txs| - 1]), txs[|txs| - 1].txHash)
  {
    var init := txs[..|txs| - 1];
    forall k | 0 <= k < |init| ensures ChangesRecorded(log, TxChanges(env, init[k]), init[k].txHash) {
      assert init[k] == txs[k];
    }
  }

  lemma {:induction false} RecordedTxsUnchanged(t: Table, env: Env, slot: int, blockHeight: int, txs: seq<TxInputOutputs>)
    requires TxsRecorded(t.entries, env, txs)
    ensures ProcessTxs(t, env, slot, blockHeight, txs) == t
    decreases |txs|
  {
    if txs != [] {
      var tx := txs[|txs| - 1];
      TxsRecordedInit(t.entries, env, txs);
      RecordedTxsUnchanged(t, env, slot, blockHeight, txs[..|txs| - 1]);
      RecordRecordedUnchanged(t, TxChanges(env, tx), tx.txHash, slot, blockHeight, env.registeredPolicies);
    }
  }

  /** Delivering a transaction again, in this or a later event, changes nothing. */
  lemma ReprocessTxUnchanged(t: Table, env: Env, slot: int, blockHeight: int, tx: TxInputOutputs,
                             slot': int, blockHeight': int)
    ensures var t1 := ProcessTx(t, env, slot, blockHeight, tx);
      ProcessTx(t1, env, slot', blockHeight', tx) == t1
  {
    var cs := TxChanges(env, tx);
    RecordChangesRecorded(t, cs, tx.txHash, slot, blockHeight, env.registeredPolicies);
    RecordRecordedUnchanged(ProcessTx(t, env, slot, blockHeight, tx), cs, tx.txHash, slot', blockHeight',
                            env.registeredPolicies);
  }

  /** Processing the same event twice records what processing it once does. */
  lemma ReprocessEventUnchanged(t: Table, env: Env, ev: AddressUtxoEvent)
    ensures EventSpec(EventSpec(t, env, ev), env, ev) == EventSpec(t, env, ev)
  {
    if env.progLogicScriptHashes != [] {
      ProcessTxsRecorded(t, env, ev.slot, ev.blockHeight, ev.txInputOutputs);
      RecordedTxsUnchanged(EventSpec(t, env, ev), env, ev.slot, ev.blockHeight, ev.txInputOutputs);
    }
  }

  /** No stored row carries the transaction's hash: the transaction is seen for the first time. */
  predicate NoRowOfTx(log: seq<Entry>, txHash: string) {
    forall j :: 0 <= j < |log| ==> log[j].snap.txHash != txHash
  }

  /** The rows the changes of a first-seen transaction get, numbered from the next id. */
  function FreshRows(t: Table, cs: seq<BalanceChange>, txHash: string, slot: int, blockHeight: int,
                     registered: set<string>): seq<Entry>
  {
    seq(|cs|, i requires 0 <= i < |cs| => Entry(t.nextId + i, NewRow(t.entries, cs[i], txHash, slot, blockHeight, registered)))
  }

  /** Row i of the fresh rows records change i with id nextId + i. */
  lemma FreshRowsAt(t: Table, cs: seq<BalanceChange>, txHash: string, slot: int, blockHeight: int,
                    registered: set<string>, i: nat)
    requires i < |cs|
    ensures |FreshRows(t, cs, txHash, slot, blockHeight, registered)| == |cs|
    ensures FreshRows(t, cs, txHash, slot, blockHeight, registered)[i]
            == Entry(t.nextId + i, NewRow(t.entries, cs[i], txHash, slot, blockHeight, registered))
  {
  }

  /** The columns of fresh row i that do not depend on the stored balance. */
  lemma FreshRowsKeyAt(t: Table, cs: seq<BalanceChange>, txHash: string, slot: int, blockHeight: int,
                       registered: set<string>, i: nat)
    requires i < |cs|
    ensures |FreshRows(t, cs, txHash, slot, blockHeight, registered)| == |cs|
    ensures var e := FreshRows(t, cs, txHash, slot, blockHeight, registered)[i];
      && e.id == t.nextId + i && e.snap.slot == slot
      && RowChangeKey(e.snap) == KeyOfChange(cs[i])
      && AddressAndAsset(e.snap.address, e.snap.policyId, e.snap.assetName)
         == AddressAndAsset(cs[i].address, cs[i].policyId, cs[i].assetName)
  {
    FreshRowsAt(t, cs, txHash, slot, blockHeight, registered, i);
  }

  /** The columns of fresh row i, one by one. */
  lemma FreshRowFields(t: Table, cs: seq<BalanceChange>, txHash: string, slot: int, blockHeight: int,
                       registered: set<string>, i: nat)
    requires i < |cs|
    ensures |FreshRows(t, cs, txHash, slot, blockHeight, registered)| == |cs|
    ensures var e := FreshRows(t, cs, txHash, slot, blockHeight, registered)[i];
      && e.id == t.nextId + i
      && e.snap.txHash == txHash && e.snap.slot == slot && e.snap.blockHeight == blockHeight
      && e.snap.isProgrammableToken == (e.snap.policyId in registered)
      && RowChangeKey(e.snap) == KeyOfChange(cs[i])
      && e.snap.quantity == BalanceBefore(t.entries, e.snap.address, e.snap.policyId, e.snap.assetName) + cs[i].netChange
  {
    FreshRowsAt(t, cs, txHash, slot, blockHeight, registered, i);
  }

  lemma SnocIndex(x: seq<Entry>, last: Entry, y: seq<Entry>, i: nat)
    requires y == x + [last] && i <= |x|
    ensures y[i] == if i < |x| then x[i] else last
  {
  }

  lemma FreshRowsLength(t: Table, cs: seq<BalanceChange>, txHash: string, slot: int, blockHeight: int,
                        registered: set<string>)
    ensures |FreshRows(t, cs, txHash, slot, blockHeight, registered)| == |cs|
  {
  }

  lemma KeysDistinctInit(cs: seq<BalanceChange>)
    requires cs != [] && KeysDistinct(cs)
    ensures KeysDistinct(cs[..|cs| - 1])
  {
    var init := cs[..|cs| - 1];
    forall i, j | 0 <= i < j < |init| ensures KeyOfChange(init[i]) != KeyOfChange(init[j]) {
      assert init[i] == cs[i] && init[j] == cs[j];
    }
  }

  /** Rows that do not match a criterion do not change what it selects. */
  lemma {:induction false} SelectSkip(a: seq<Entry>, b: seq<Entry>, c: Criterion)
    requires forall j :: 0 <= j < |b| ==> !Matches(c, b[j].snap)
    ensures Select(a + b, c) == Select(a, c)
    decreases |b|
  {
    if b == [] {
      assert a + b == a;
    } else {
      var init, last := b[..|b| - 1], b[|b| - 1];
      assert forall j :: 0 <= j < |init| ==> !Matches(c, init[j].snap) by {
        forall j | 0 <= j < |init| ensures !Matches(c, init[j].snap) {
          assert init[j] == b[j];
        }
      }
      SelectSkip(a, init, c);
      ConcatSnoc(a, b);
      SelectAppendOther(a + init, last, c, a + b);
    }
  }

  lemma ConcatSnoc(a: seq<Entry>, b: seq<Entry>)
    requires b != []
    ensures a + b == (a + b[..|b| - 1]) + [b[|b| - 1]]
  {
    assert b == b[..|b| - 1] + [b[|b| - 1]];
  }

  lemma SelectAppendOther(log: seq<Entry>, e: Entry, c: Criterion, x: seq<Entry>)
    requires x == log + [e] && !Matches(c, e.snap)
    ensures Select(x, c) == Select(log, c)
  {
    SelectAppend(log, e, c);
  }

  /** getLatestBalance depends only on the rows of the (address, asset) it asks for. */
  lemma LatestOfSameRows(log1: seq<Entry>, log2: seq<Entry>, address: string, policyId: string, assetName: Option<string>)
    requires Select(log1, AddressAndAsset(address, policyId, assetName)) == Select(log2, AddressAndAsset(address, policyId, assetName))
    ensures GetLatestBalance(log1, address, policyId, assetName) == GetLatestBalance(log2, address, policyId, assetName)
  {
  }

  /** The rows rows of the first changes do not belong to the (address, asset) of a later change. */
  lemma FreshRowsSkipLater(t: Table, cs: seq<BalanceChange>, txHash: string, slot: int, blockHeight: int,
                           registered: set<string>, c: BalanceChange, rows: seq<Entry>)
    requires cs != [] && KeysDistinct(cs)
    requires c == cs[|cs| - 1] && rows == FreshRows(t, cs[..|cs| - 1], txHash, slot, blockHeight, registered)
    ensures forall j :: 0 <= j < |rows| ==> !Matches(AddressAndAsset(c.address, c.policyId, c.assetName), rows[j].snap)
  {
    var n := |cs| - 1;
    FreshRowsLength(t, cs[..n], txHash, slot, blockHeight, registered);
    forall j | 0 <= j < |rows| ensures !Matches(AddressAndAsset(c.address, c.policyId, c.assetName), rows[j].snap) {
      FreshRowsAt(t, cs[..n], txHash, slot, blockHeight, registered, j);
      assert cs[..n][j] == cs[j];
      assert KeyOfChange(cs[j]) != KeyOfChange(c);
    }
  }

  /** Rows of other assets leave the balance before a change as it was. */
  lemma BalanceBeforeSkip(log: seq<Entry>, rows: seq<Entry>, address: string, policyId: string, assetName: Option<string>)
    requires forall j :: 0 <= j < |rows| ==> !Matches(AddressAndAsset(address, policyId, assetName), rows[j].snap)
    ensures BalanceBefore(log + rows, address, policyId, assetName) == BalanceBefore(log, address, policyId, assetName)
  {
    SelectSkip(log, rows, AddressAndAsset(address, policyId, assetName));
    LatestOfSameRows(log + rows, log, address, policyId, assetName);
    LatestIsNewest(log + rows, address, policyId, assetName);
    LatestIsNewest(log, address, policyId, assetName);
  }

  lemma NewRowSkip(log: seq<Entry>, rows: seq<Entry>, c: BalanceChange, txHash: string, slot: int, blockHeight: int,
                   registered: set<string>)
    requires forall j :: 0 <= j < |rows| ==> !Matches(AddressAndAsset(c.address, c.policyId, c.assetName), rows[j].snap)
    ensures NewRow(log + rows, c, txHash, slot, blockHeight, registered) == NewRow(log, c, txHash, slot, blockHeight, registered)
  {
    BalanceBeforeSkip(log, rows, c.address, c.policyId, c.assetName);
  }

  /** A row of a first-seen transaction whose (address, asset) no other row of it has is not stored yet. */
  lemma FreshNotRecorded(log: seq<Entry>, rows: seq<Entry>, c: BalanceChange, txHash: string, slot: int,
                         blockHeight: int, registered: set<string>)
    requires NoRowOfTx(log, txHash)
    requires forall j :: 0 <= j < |rows| ==> !Matches(AddressAndAsset(c.address, c.policyId, c.assetName), rows[j].snap)
    ensures !Recorded(log + rows, NewRow(log, c, txHash, slot, blockHeight, registered))
  {
    var all := log + rows;
    var key := UniqueKey(c.address, c.policyId, c.assetName, txHash);
    forall j | 0 <= j < |all| ensures UniqueKeyOf(all[j].snap) != key {
      if j >= |log| {
        assert all[j] == rows[j - |log|];
      } else {
        assert all[j] == log[j];
      }
    }
  }

  /** A first-seen transaction's change whose (address, asset) no earlier row of it has is stored anew. */
  lemma AppendFreshRow(x: Table, t: Table, rows: seq<Entry>, c: BalanceChange, txHash: string, slot: int,
                       blockHeight: int, registered: set<string>)
    requires NoRowOfTx(t.entries, txHash)
    requires forall j :: 0 <= j < |rows| ==> !Matches(AddressAndAsset(c.address, c.policyId, c.assetName), rows[j].snap)
    requires x == AppendRow(Table(t.entries + rows, t.nextId + |rows|), NewRow(t.entries + rows, c, txHash, slot, blockHeight, registered)).0
    ensures x.nextId == t.nextId + |rows| + 1
    ensures x.entries == (t.entries + rows) + [Entry(t.nextId + |rows|, NewRow(t.entries, c, txHash, slot, blockHeight, registered))]
  {
    NewRowSkip(t.entries, rows, c, txHash, slot, blockHeight, registered);
    var s := NewRow(t.entries, c, txHash, slot, blockHeight, registered);
    FreshNotRecorded(t.entries, rows, c, txHash, slot, blockHeight, registered);
    AppendNewRow(x, Table(t.entries + rows, t.nextId + |rows|), s);
  }

  lemma AppendNewRow(x: Table, t: Table, s: Snapshot)
    requires !Recorded(t.entries, s) && x == AppendRow(t, s).0
    ensures x.nextId == t.nextId + 1 && x.entries == t.entries + [Entry(t.nextId, s)]
  {
    var r := AppendRow(t, s);
    assert r.1.Some?;
  }

  /**
   * A transaction seen for the first time appends one row per change, in order, numbered from
   * the next id: each the latest balance before the transaction plus the change.
   */
  lemma {:induction false} RecordFreshChanges(t: Table, cs: seq<BalanceChange>, txHash: string, slot: int,
                                              blockHeight: int, registered: set<string>)
    requires NoRowOfTx(t.entries, txHash) && KeysDistinct(cs)
    ensures var r := RecordChanges(t, cs, txHash, slot, blockHeight, registered);
      && r.nextId == t.nextId + |cs|
      && r.entries == t.entries + FreshRows(t, cs, txHash, slot, blockHeight, registered)
    decreases |cs|
  {
    if cs == [] {
      assert FreshRows(t, cs, txHash, slot, blockHeight, registered) == [];
      assert t.entries + [] == t.entries;
    } else {
      var n := |cs| - 1;
      KeysDistinctInit(cs);
      RecordFreshChanges(t, cs[..n], txHash, slot, blockHeight, registered);
      var rows := FreshRows(t, cs[..n], txHash, slot, blockHeight, registered);
      RecordFreshStep(t, cs, txHash, slot, blockHeight, registered, rows);
    }
  }

  /** The inductive step of RecordFreshChanges, with the rows of the first changes named. */
  lemma RecordFreshStep(t: Table, cs: seq<BalanceChange>, txHash: string, slot: int, blockHeight: int,
                        registered: set<string>, rows: seq<Entry>)
    requires NoRowOfTx(t.entries, txHash) && KeysDistinct(cs) && cs != []
    requires rows == FreshRows(t, cs[..|cs| - 1], txHash, slot, blockHeight, registered)
    requires var m := RecordChanges(t, cs[..|cs| - 1], txHash, slot, blockHeight, registered);
      && m.nextId == t.nextId + |cs[..|cs| - 1]|
      && m.entries == t.entries + rows
    ensures var r := RecordChanges(t, cs, txHash, slot, blockHeight, registered);
      && r.nextId == t.nextId + |cs|
      && r.entries == t.entries + FreshRows(t, cs, txHash, slot, blockHeight, registered)
  {
    var c := cs[|cs| - 1];
    FreshRowsLength(t, cs[..|cs| - 1], txHash, slot, blockHeight, registered);
    TableOfFields(RecordChanges(t, cs[..|cs| - 1], txHash, slot, blockHeight, registered), t.entries + rows, t.nextId + |rows|);
    FreshRowsSkipLater(t, cs, txHash, slot, blockHeight, registered, c, rows);
    RecordChangesAfter(t, cs, txHash, slot, blockHeight, registered, rows);
    var r := RecordChanges(t, cs, txHash, slot, blockHeight, registered);
    AppendFreshRow(r, t, rows, c, txHash, slot, blockHeight, registered);
    var last := Entry(t.nextId + |rows|, NewRow(t.entries, c, txHash, slot, blockHeight, registered));
    FreshRowsSnoc(t, cs, txHash, slot, blockHeight, registered, rows, last);
    SnocAssoc(t.entries, rows, last, r.entries, FreshRows(t, cs, txHash, slot, blockHeight, registered));
  }

  /** RecordChanges for one more change, once the table for the first ones is known. */
  lemma RecordChangesAfter(t: Table, cs: seq<BalanceChange>, txHash: string, slot: int, blockHeight: int,
                           registered: set<string>, rows: seq<Entry>)
    requires cs != []
    requires RecordChanges(t, cs[..|cs| - 1], txHash, slot, blockHeight, registered) == Table(t.entries + rows, t.nextId + |rows|)
    ensures RecordChanges(t, cs, txHash, slot, blockHeight, registered)
            == AppendRow(Table(t.entries + rows, t.nextId + |rows|),
                         NewRow(t.entries + rows, cs[|cs| - 1], txHash, slot, blockHeight, registered)).0
  {
  }

  lemma FreshRowsSnoc(t: Table, cs: seq<BalanceChange>, txHash: string, slot: int, blockHeight: int,
                      registered: set<string>, rows: seq<Entry>, last: Entry)
    requires cs != []
    requires rows == FreshRows(t, cs[..|cs| - 1], txHash, slot, blockHeight, registered)
    requires last == Entry(t.nextId + |cs| - 1, NewRow(t.entries, cs[|cs| - 1], txHash, slot, blockHeight, registered))
    ensures FreshRows(t, cs, txHash, slot, blockHeight, registered) == rows + [last]
  {
    var all := FreshRows(t, cs, txHash, slot, blockHeight, registered);
    forall k | 0 <= k < |cs| - 1 ensures all[k] == rows[k] {
      assert cs[..|cs| - 1][k] == cs[k];
    }
  }

  lemma TableOfFields(m: Table, entries: seq<Entry>, nextId: nat)
    requires m.entries == entries && m.nextId == nextId
    ensures m == Table(entries, nextId)
  {
  }

  lemma SnocAssoc(a: seq<Entry>, rows: seq<Entry>, last: Entry, x: seq<Entry>, y: seq<Entry>)
    requires x == (a + rows) + [last] && y == rows + [last]
    ensures x == a + y
  {
  }

  /** The key of the change a stored row was recorded from. */
  function RowChangeKey(s: Snapshot): string {
    ChangeKey(s.address, s.policyId, s.assetName)
  }

  /** With distinct keys, a change is found at its own position. */
  lemma FindDistinct(cs: seq<BalanceChange>, i: nat)
    requires KeysDistinct(cs) && i < |cs|
    ensures Find(cs, KeyOfChange(cs[i])) == Some(i)
    ensures NetOf(cs, KeyOfChange(cs[i])) == cs[i].netChange
  {
    var r := Find(cs, KeyOfChange(cs[i]));
    assert r.Some?;
  }

  lemma ConcatIndex(a: seq<Entry>, b: seq<Entry>, x: seq<Entry>, i: nat)
    requires x == a + b && i < |b|
    ensures |x| == |a| + |b| && x[|a| + i] == b[i]
  {
  }

  /** A first-seen transaction appends exactly the fresh rows of its changes. */
  lemma FreshTxShape(t: Table, env: Env, slot: int, blockHeight: int, tx: TxInputOutputs)
    requires NoRowOfTx(t.entries, tx.txHash)
    ensures var r := ProcessTx(t, env, slot, blockHeight, tx);
      var cs := TxChanges(env, tx);
      && KeysDistinct(cs)
      && r.nextId == t.nextId + |cs|
      && |r.entries| == |t.entries| + |cs|
      && r.entries == t.entries + FreshRows(t, cs, tx.txHash, slot, blockHeight, env.registeredPolicies)
  {
    var cs := TxChanges(env, tx);
    RecordFreshChanges(t, cs, tx.txHash, slot, blockHeight, env.registeredPolicies);
    FreshRowsLength(t, cs, tx.txHash, slot, blockHeight, env.registeredPolicies);
  }

  /** Row i of the changes of a first-seen transaction, as RecordChanges stores it. */
  lemma RecordedFreshRow(t: Table, cs: seq<BalanceChange>, txHash: string, slot: int, blockHeight: int,
                         registered: set<string>, i: nat)
    requires NoRowOfTx(t.entries, txHash) && KeysDistinct(cs) && i < |cs|
    ensures var r := RecordChanges(t, cs, txHash, slot, blockHeight, registered);
      && |r.entries| == |t.entries| + |cs|
      && var e := r.entries[|t.entries| + i];
         && e.id == t.nextId + i
         && e.snap.txHash == txHash && e.snap.slot == slot && e.snap.blockHeight == blockHeight
         && e.snap.isProgrammableToken == (e.snap.policyId in registered)
         && RowChangeKey(e.snap) == KeyOfChange(cs[i])
         && e.snap.quantity == BalanceBefore(t.entries, e.snap.address, e.snap.policyId, e.snap.assetName) + cs[i].netChange
  {
    RecordFreshChanges(t, cs, txHash, slot, blockHeight, registered);
    FreshTableRow(RecordChanges(t, cs, txHash, slot, blockHeight, registered), t, cs, txHash, slot, blockHeight,
                  registered, i);
  }

  /** Row i of a table that extends `t` by the fresh rows of `cs`. */
  lemma FreshTableRow(r: Table, t: Table, cs: seq<BalanceChange>, txHash: string, slot: int, blockHeight: int,
                      registered: set<string>, i: nat)
    requires r.entries == t.entries + FreshRows(t, cs, txHash, slot, blockHeight, registered) && i < |cs|
    ensures |r.entries| == |t.entries| + |cs|
    ensures var e := r.entries[|t.entries| + i];
      && e.id == t.nextId + i
      && e.snap.txHash == txHash && e.snap.slot == slot && e.snap.blockHeight == blockHeight
      && e.snap.isProgrammableToken == (e.snap.policyId in registered)
      && RowChangeKey(e.snap) == KeyOfChange(cs[i])
      && e.snap.quantity == BalanceBefore(t.entries, e.snap.address, e.snap.policyId, e.snap.assetName) + cs[i].netChange
  {
    FreshRowFields(t, cs, txHash, slot, blockHeight, registered, i);
    ConcatIndex(t.entries, FreshRows(t, cs, txHash, slot, blockHeight, registered), r.entries, i);
  }

  /** Row i of a first-seen transaction: id nextId + i, the transaction's hash, slot and block, and the registry flag of its policy. */
  lemma FreshTxRowStamp(t: Table, env: Env, slot: int, blockHeight: int, tx: TxInputOutputs, i: nat)
    requires NoRowOfTx(t.entries, tx.txHash)
    requires i < |TxChanges(env, tx)|
    ensures var r := ProcessTx(t, env, slot, blockHeight, tx);
      && |r.entries| == |t.entries| + |TxChanges(env, tx)|
      && var e := r.entries[|t.entries| + i];
         && e.id == t.nextId + i
         && e.snap.txHash == tx.txHash && e.snap.slot == slot && e.snap.blockHeight == blockHeight
         && e.snap.isProgrammableToken == (e.snap.policyId in env.registeredPolicies)
  {
    RecordedFreshRow(t, TxChanges(env, tx), tx.txHash, slot, blockHeight, env.registeredPolicies, i);
  }

  /**
   * Row i of a first-seen transaction is for a key the transaction touches, and holds the balance
   * before it plus what monitored outputs brought minus what spent monitored inputs took for that key.
   */
  lemma FreshTxRow(t: Table, env: Env, slot: int, blockHeight: int, tx: TxInputOutputs, i: nat)
    requires NoRowOfTx(t.entries, tx.txHash)
    requires i < |TxChanges(env, tx)|
    ensures var r := ProcessTx(t, env, slot, blockHeight, tx);
      && |r.entries| == |t.entries| + |TxChanges(env, tx)|
      && var e := r.entries[|t.entries| + i];
         var k := RowChangeKey(e.snap);
         && TxTouches(env, tx, k)
         && e.snap.quantity == BalanceBefore(t.entries, e.snap.address, e.snap.policyId, e.snap.assetName)
                              + OutputTotal(env, tx.outputs, k) - InputTotal(env, tx.inputs, k)
  {
    RecordedFreshRow(t, TxChanges(env, tx), tx.txHash, slot, blockHeight, env.registeredPolicies, i);
    TxChangeNet(env, tx, i);
  }

  /** The keys a first-seen transaction records rows for are exactly the keys it touches. */
  lemma FreshTxCovers(t: Table, env: Env, slot: int, blockHeight: int, tx: TxInputOutputs, key: string)
    requires NoRowOfTx(t.entries, tx.txHash)
    ensures var r := ProcessTx(t, env, slot, blockHeight, tx);
      TxTouches(env, tx, key) <==> exists i :: |t.entries| <= i < |r.entries| && RowChangeKey(r.entries[i].snap) == key
  {
    var r := ProcessTx(t, env, slot, blockHeight, tx);
    if TxTouches(env, tx, key) {
      var i := TouchedKeyHasRow(t, env, slot, blockHeight, tx, key);
    }
    if exists i :: |t.entries| <= i < |r.entries| && RowChangeKey(r.entries[i].snap) == key {
      var i :| |t.entries| <= i < |r.entries| && RowChangeKey(r.entries[i].snap) == key;
      RowKeyIsTouched(t, env, slot, blockHeight, tx, i);
    }
  }

  lemma TouchedKeyHasRow(t: Table, env: Env, slot: int, blockHeight: int, tx: TxInputOutputs, key: string) returns (i: nat)
    requires NoRowOfTx(t.entries, tx.txHash) && TxTouches(env, tx, key)
    ensures var r := ProcessTx(t, env, slot, blockHeight, tx);
      |t.entries| <= i < |r.entries| && RowChangeKey(r.entries[i].snap) == key
  {
    var cs := TxChanges(env, tx);
    FreshTxShape(t, env, slot, blockHeight, tx);
    FreshRowsKeys(t, cs, tx.txHash, slot, blockHeight, env.registeredPolicies);
    TxChangesFind(env, tx, key);
    i := KeyedRowAt(t.entries, FreshRows(t, cs, tx.txHash, slot, blockHeight, env.registeredPolicies), cs,
                    ProcessTx(t, env, slot, blockHeight, tx).entries, key);
  }

  /** The fresh rows carry the keys, ids and slot of their changes, position by position. */
  lemma FreshRowsKeys(t: Table, cs: seq<BalanceChange>, txHash: string, slot: int, blockHeight: int,
                      registered: set<string>)
    ensures var rows := FreshRows(t, cs, txHash, slot, blockHeight, registered);
      && |rows| == |cs|
      && forall j :: 0 <= j < |rows| ==>
           && rows[j].id == t.nextId + j && rows[j].snap.slot == slot
           && RowChangeKey(rows[j].snap) == KeyOfChange(cs[j])
           && AddressAndAsset(rows[j].snap.address, rows[j].snap.policyId, rows[j].snap.assetName)
              == AddressAndAsset(cs[j].address, cs[j].policyId, cs[j].assetName)
  {
    FreshRowsLength(t, cs, txHash, slot, blockHeight, registered);
    forall j | 0 <= j < |cs| ensures
      var e := FreshRows(t, cs, txHash, slot, blockHeight, registered)[j];
      && e.id == t.nextId + j && e.snap.slot == slot
      && RowChangeKey(e.snap) == KeyOfChange(cs[j])
      && AddressAndAsset(e.snap.address, e.snap.policyId, e.snap.assetName)
         == AddressAndAsset(cs[j].address, cs[j].policyId, cs[j].assetName)
    {
      FreshRowsKeyAt(t, cs, txHash, slot, blockHeight, registered, j);
    }
  }

  /** The position of a found key's row after the stored rows. */
  lemma KeyedRowAt(prior: seq<Entry>, rows: seq<Entry>, cs: seq<BalanceChange>, entries: seq<Entry>, key: string)
    returns (i: nat)
    requires entries == prior + rows && |rows| == |cs| && Find(cs, key).Some?
    requires forall j :: 0 <= j < |rows| ==> RowChangeKey(rows[j].snap) == KeyOfChange(cs[j])
    ensures |prior| <= i < |entries| && RowChangeKey(entries[i].snap) == key
  {
    var j := Find(cs, key).value;
    i := |prior| + j;
    assert entries[i] == rows[j];
  }

  lemma RowKeyIsTouched(t: Table, env: Env, slot: int, blockHeight: int, tx: TxInputOutputs, i: nat)
    requires NoRowOfTx(t.entries, tx.txHash)
    requires |t.entries| <= i < |ProcessTx(t, env, slot, blockHeight, tx).entries|
    ensures TxTouches(env, tx, RowChangeKey(ProcessTx(t, env, slot, blockHeight, tx).entries[i].snap))
  {
    FreshTxShape(t, env, slot, blockHeight, tx);
    FreshTableRowTouched(ProcessTx(t, env, slot, blockHeight, tx), t, env, slot, blockHeight, tx, i);
  }

  lemma FreshTableRowTouched(r: Table, t: Table, env: Env, slot: int, blockHeight: int, tx: TxInputOutputs, i: nat)
    requires r.entries == t.entries + FreshRows(t, TxChanges(env, tx), tx.txHash, slot, blockHeight, env.registeredPolicies)
    requires |t.entries| <= i < |r.entries|
    ensures TxTouches(env, tx, RowChangeKey(r.entries[i].snap))
  {
    FreshTableRow(r, t, TxChanges(env, tx), tx.txHash, slot, blockHeight, env.registeredPolicies, i - |t.entries|);
    TxChangeNet(env, tx, i - |t.entries|);
  }

  /** The batch rows ahead of row i belong to other balances than row i's change. */
  lemma AheadRowsOtherBalances(rows: seq<Entry>, cs: seq<BalanceChange>, i: nat)
    requires KeysDistinct(cs) && |rows| == |cs| && i < |cs|
    requires forall j :: 0 <= j < |rows| ==>
      AddressAndAsset(rows[j].snap.address, rows[j].snap.policyId, rows[j].snap.assetName)
      == AddressAndAsset(cs[j].address, cs[j].policyId, cs[j].assetName)
    ensures var ahead := rows[..i];
      forall j :: 0 <= j < |ahead| ==> !Matches(AddressAndAsset(cs[i].address, cs[i].policyId, cs[i].assetName), ahead[j].snap)
  {
    var ahead := rows[..i];
    forall j | 0 <= j < |ahead|
      ensures !Matches(AddressAndAsset(cs[i].address, cs[i].policyId, cs[i].assetName), ahead[j].snap)
    {
      assert ahead[j] == rows[j];
      assert KeyOfChange(cs[j]) != KeyOfChange(cs[i]);
    }
  }

  /** A row's difference from its prior balance is the change it was recorded with. */
  lemma DiffOfRecordedRow(e: Entry, log: seq<Entry>, p: Option<Entry>, delta: int)
    requires p == GetLatestBalance(log, e.snap.address, e.snap.policyId, e.snap.assetName)
    requires e.snap.quantity == BalanceBefore(log, e.snap.address, e.snap.policyId, e.snap.assetName) + delta
    ensures CalculateBalanceDiff(e, p) == delta
  {
    LatestIsNewest(log, e.snap.address, e.snap.policyId, e.snap.assetName);
  }

  /**
   * For a transaction seen for the first time, in a block no earlier than any stored row, the
   * difference between a recorded row and its prior balance is the row's net change: what the
   * transaction's monitored outputs brought minus what its spent monitored inputs took.
   */
  lemma RecordedDiffIsNetChange(t: Table, env: Env, slot: int, blockHeight: int, tx: TxInputOutputs, i: nat)
    requires WellFormed(t) && NoRowOfTx(t.entries, tx.txHash)
    requires forall j :: 0 <= j < |t.entries| ==> t.entries[j].snap.slot <= slot
    requires i < |TxChanges(env, tx)|
    ensures var r := ProcessTx(t, env, slot, blockHeight, tx);
      && |r.entries| == |t.entries| + |TxChanges(env, tx)|
      && var e := r.entries[|t.entries| + i];
         var k := RowChangeKey(e.snap);
         CalculateBalanceDiff(e, PriorBalance(r.entries, e)) == OutputTotal(env, tx.outputs, k) - InputTotal(env, tx.inputs, k)
  {
    var cs := TxChanges(env, tx);
    var r := ProcessTx(t, env, slot, blockHeight, tx);
    FreshTxShape(t, env, slot, blockHeight, tx);
    FreshTableDiff(r, t, cs, tx.txHash, slot, blockHeight, env.registeredPolicies, i);
    TxChangeNet(env, tx, i);
  }

  /** Change i of a transaction's map is its outputs' total minus its inputs' total for that key. */
  lemma TxChangeNet(env: Env, tx: TxInputOutputs, i: nat)
    requires i < |TxChanges(env, tx)|
    ensures var c := TxChanges(env, tx)[i];
      && TxTouches(env, tx, KeyOfChange(c))
      && c.netChange == OutputTotal(env, tx.outputs, KeyOfChange(c)) - InputTotal(env, tx.inputs, KeyOfChange(c))
  {
    var cs := TxChanges(env, tx);
    TxChangesNet(env, tx, KeyOfChange(cs[i]));
    TxChangesFind(env, tx, KeyOfChange(cs[i]));
    FindDistinct(cs, i);
  }

  /** RecordedDiffIsNetChange for a table that extends `t` by the fresh rows of `cs`. */
  lemma FreshTableDiff(r: Table, t: Table, cs: seq<BalanceChange>, txHash: string, slot: int, blockHeight: int,
                       registered: set<string>, i: nat)
    requires r.entries == t.entries + FreshRows(t, cs, txHash, slot, blockHeight, registered)
    requires WellFormed(t) && KeysDistinct(cs) && i < |cs|
    requires forall j :: 0 <= j < |t.entries| ==> t.entries[j].snap.slot <= slot
    ensures |r.entries| == |t.entries| + |cs|
    ensures var e := r.entries[|t.entries| + i];
      && RowChangeKey(e.snap) == KeyOfChange(cs[i])
      && CalculateBalanceDiff(e, PriorBalance(r.entries, e)) == cs[i].netChange
  {
    var rows := FreshRows(t, cs, txHash, slot, blockHeight, registered);
    FreshRowsKeys(t, cs, txHash, slot, blockHeight, registered);
    FreshTableRow(r, t, cs, txHash, slot, blockHeight, registered, i);
    ConcatIndex(t.entries, rows, r.entries, i);
    var e := rows[i];
    PriorOfBatchRow(t.entries, rows, cs, i, t.nextId, slot);
    DiffOfRecordedRow(e, t.entries, PriorBalance(r.entries, e), cs[i].netChange);
  }

  /**
   * For row i of a batch written at one slot, with consecutive ids after every stored id and one
   * row per distinct key, the prior balance is the latest stored balance of its key.
   */
  lemma PriorOfBatchRow(prior: seq<Entry>, rows: seq<Entry>, cs: seq<BalanceChange>, i: nat, base: nat, slot: int)
    requires forall j :: 0 <= j < |prior| ==> prior[j].id < base && prior[j].snap.slot <= slot
    requires forall j :: 0 <= j < |rows| ==> rows[j].id == base + j && rows[j].snap.slot == slot
    requires KeysDistinct(cs) && |rows| == |cs| && i < |cs|
    requires forall j :: 0 <= j < |rows| ==>
      AddressAndAsset(rows[j].snap.address, rows[j].snap.policyId, rows[j].snap.assetName)
      == AddressAndAsset(cs[j].address, cs[j].policyId, cs[j].assetName)
    ensures var e := rows[i];
      PriorBalance(prior + rows, e) == GetLatestBalance(prior, e.snap.address, e.snap.policyId, e.snap.assetName)
  {
    var e := rows[i];
    RowsOlderThanBatchRow(prior, rows, i, base, slot);
    AheadRowsOtherBalances(rows, cs, i);
    SelectSkip(prior, rows[..i], AddressAndAsset(e.snap.address, e.snap.policyId, e.snap.assetName));
    LatestOfSameRows(prior + rows[..i], prior, e.snap.address, e.snap.policyId, e.snap.assetName);
  }
}
