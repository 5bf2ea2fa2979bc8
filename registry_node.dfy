/**
 * One node of the on-chain registry: a sorted singly-linked set of programmable-token policy
 * ids, each node a UTxO whose inline datum carries the node's key, the key of its successor
 * and the transfer-logic scripts of the token. The head node has the empty key.
 */
module RegistryNode {
  import opened Optional
  import opened JavaStrings
  import opened Hex

  /** The record RegistryNode; every field is hexadecimal text (policy ids, script hashes). */
  datatype RegistryNode = RegistryNode(
    key: string,
    next: string,
    transferLogicScript: string,
    thirdPartyTransferLogicScript: string,
    globalStatePolicyId: string)

  /** The part of Plutus data the registry datum uses: constructors and byte strings. */
  datatype PlutusData = Constr(tag: nat, fields: seq<PlutusData>) | Bytes(bytes: seq<byte>)

  /** `node.toBuilder().next(next).build()`: the copy of a node with another successor. */
  function WithNext(n: RegistryNode, next: string): (r: RegistryNode)
    ensures r.next == next
    ensures r.key == n.key && r.transferLogicScript == n.transferLogicScript
    ensures r.thirdPartyTransferLogicScript == n.thirdPartyTransferLogicScript
    ensures r.globalStatePolicyId == n.globalStatePolicyId
  {
    n.(next := next)
  }

  /** The datum of the head node: only the successor is written. */
  function HeadDatum(next: seq<byte>): PlutusData {
    Constr(0, [Bytes([]), Bytes(next), Constr(0, [Bytes([])]), Constr(0, [Bytes([])]), Bytes([])])
  }

  /**
   * toPlutusData. A null or blank key gives the head form, which ignores the transfer-logic
   * fields; any other key gives the full form, each field hex-decoded. None stands for the
   * exception decodeHexString throws on text that is not hex.
   */
  function ToPlutusData(n: RegistryNode): (r: Option<PlutusData>)
    ensures r.Some? ==> r.value.Constr? && r.value.tag == 0 && |r.value.fields| == 5
    ensures r.Some? ==> DecodeHex(n.next).Some? && r.value.fields[1] == Bytes(DecodeHex(n.next).value)
    ensures IsBlank(n.key) ==> (r.Some? <==> IsHex(n.next))
    ensures IsBlank(n.key) && r.Some? ==> r.value == HeadDatum(DecodeHex(n.next).value)
    ensures !IsBlank(n.key) ==>
      (r.Some? <==> IsHex(n.key) && IsHex(n.next) && IsHex(n.transferLogicScript)
                    && IsHex(n.thirdPartyTransferLogicScript) && IsHex(n.globalStatePolicyId))
    ensures !IsBlank(n.key) && r.Some? ==>
      && r.value.fields[0] == Bytes(DecodeHex(n.key).value)
      && r.value.fields[2] == Constr(1, [Bytes(DecodeHex(n.transferLogicScript).value)])
      && r.value.fields[3] == Constr(1, [Bytes(DecodeHex(n.thirdPartyTransferLogicScript).value)])
      && r.value.fields[4] == Bytes(DecodeHex(n.globalStatePolicyId).value)
  {
    if IsBlank(n.key) then
      match DecodeHex(n.next)
      case Some(next) => Some(HeadDatum(next))
      case None => None
    else
      match (DecodeHex(n.key), DecodeHex(n.next), DecodeHex(n.transferLogicScript),
             DecodeHex(n.thirdPartyTransferLogicScript), DecodeHex(n.globalStatePolicyId))
      case (Some(key), Some(next), Some(transfer), Some(thirdParty), Some(globalState)) =>
        Some(Constr(0, [Bytes(key), Bytes(next), Constr(1, [Bytes(transfer)]),
                        Constr(1, [Bytes(thirdParty)]), Bytes(globalState)]))
      case _ => None
  }

  /**
   * A reference reader of the datum, the inverse of ToPlutusData: it writes every byte string
   * back as lower-case hex. (The repository's own RegistryNodeParser is not part of this model.)
   */
  function FromPlutusData(d: PlutusData): Option<RegistryNode> {
    match d
    case Constr(0, fs) =>
      if |fs| == 5 && fs[0].Bytes? && fs[1].Bytes? && fs[4].Bytes?
         && fs[2].Constr? && |fs[2].fields| == 1 && fs[2].fields[0].Bytes?
         && fs[3].Constr? && |fs[3].fields| == 1 && fs[3].fields[0].Bytes?
      then Some(RegistryNode(EncodeHex(fs[0].bytes), EncodeHex(fs[1].bytes),
                             EncodeHex(fs[2].fields[0].bytes), EncodeHex(fs[3].fields[0].bytes),
                             EncodeHex(fs[4].bytes)))
      else None
    case _ => None
  }

  /** Every field of the node is text that encodeHexString could have written. */
  predicate LowerHexFields(n: RegistryNode) {
    IsLowerHex(n.key) && IsLowerHex(n.next) && IsLowerHex(n.transferLogicScript)
    && IsLowerHex(n.thirdPartyTransferLogicScript) && IsLowerHex(n.globalStatePolicyId)
  }

  lemma LowerHexIsNotBlank(s: string)
    requires IsLowerHex(s) && s != ""
    ensures !IsBlank(s)
  {
    assert !IsWhitespace(s[0]);
  }

  /** A regular node with lower-case hex fields survives encoding and decoding unchanged. */
  lemma RegularRoundTrip(n: RegistryNode)
    requires LowerHexFields(n) && n.key != ""
    ensures ToPlutusData(n).Some? && FromPlutusData(ToPlutusData(n).value) == Some(n)
  {
    LowerHexIsNotBlank(n.key);
    EncodeDecode(n.key);
    EncodeDecode(n.next);
    EncodeDecode(n.transferLogicScript);
    EncodeDecode(n.thirdPartyTransferLogicScript);
    EncodeDecode(n.globalStatePolicyId);
  }

  /** The head node keeps only its successor: the other fields read back empty. */
  lemma HeadRoundTrip(n: RegistryNode)
    requires n.key == "" && IsLowerHex(n.next)
    ensures ToPlutusData(n).Some?
    ensures FromPlutusData(ToPlutusData(n).value) == Some(RegistryNode("", n.next, "", "", ""))
  {
    EncodeDecode(n.next);
    LowerHexIsHex(n.next);
  }

  /** The transfer-logic fields of a head node do not reach its datum. */
  lemma HeadIgnoresTransferLogic(n: RegistryNode, m: RegistryNode)
    requires IsBlank(n.key) && IsBlank(m.key) && n.next == m.next
    ensures ToPlutusData(n) == ToPlutusData(m)
  {
  }

  /** Rewriting a node's successor changes only the second field of its datum. */
  lemma WithNextChangesOnlyField1(n: RegistryNode, next: string)
    requires ToPlutusData(n).Some? && IsHex(next)
    ensures ToPlutusData(WithNext(n, next)).Some?
    ensures var d, d' := ToPlutusData(n).value, ToPlutusData(WithNext(n, next)).value;
      && d'.fields[1] == Bytes(DecodeHex(next).value)
      && forall i :: 0 <= i < 5 && i != 1 ==> d'.fields[i] == d.fields[i]
  {
  }
}
