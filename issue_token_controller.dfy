/**
 * The registry part of IssueTokenController.register: the membership check over the registry
 * UTxOs, the search for the node whose interval holds the new policy id, and the two datums
 * of the splice; the payee rules of register and mint; and the pre-balance hook that moves a
 * fee payer's first output to the end.
 */
module IssueTokenController {
  import opened Optional
  import opened JavaStrings
  import opened Hex
  import opened RegistryNode

  /** A UTxO at the registry spend script, with what the node parser made of its inline datum. */
  datatype RegistryUtxo = RegistryUtxo(outRef: string, node: Option<RegistryNode>)

  /** `node.key < key < node.next` under String.compareTo: `key` falls strictly inside the node's interval. */
  predicate IsGap(n: RegistryNode, key: string) {
    Less(n.key, key) && Less(key, n.next)
  }

  /** The two filters register runs over the registry UTxOs; an unparseable datum passes neither. */
  datatype Search = KeyEquals | GapFor

  predicate Hit(s: Search, u: RegistryUtxo, key: string) {
    && u.node.Some?
    && match s
       case KeyEquals => u.node.value.key == key
       case GapFor => IsGap(u.node.value, key)
  }

  /** The stream's findAny, taken as the first match in stream order. */
  function FindFirst(registry: seq<RegistryUtxo>, s: Search, key: string): (r: Option<nat>)
    ensures r.Some? ==> r.value < |registry| && Hit(s, registry[r.value], key)
    ensures r.Some? ==> forall j :: 0 <= j < r.value ==> !Hit(s, registry[j], key)
    ensures r.None? <==> forall j :: 0 <= j < |registry| ==> !Hit(s, registry[j], key)
  {
    if registry == [] then None
    else if Hit(s, registry[0], key) then Some(0)
    else
      var rest := FindFirst(registry[1..], s, key);
      assert forall j :: 1 <= j < |registry| ==> registry[j] == registry[1..][j - 1];
      match rest
      case None => None
      case Some(i) => Some(i + 1)
  }

  /** A validator of a substandard as SubstandardService returns it: the hash of its script, in hex. */
  datatype SubstandardValidator = SubstandardValidator(scriptHash: string)

  /** The validators SubstandardService knows, by substandard name and validator title. */
  type Catalog = map<(string, string), SubstandardValidator>

  /** getSubstandardValidator; a null name or title finds nothing. */
  function GetSubstandardValidator(catalog: Catalog, name: Option<string>, title: Option<string>)
    : (r: Option<SubstandardValidator>)
    ensures r.Some? <==> name.Some? && title.Some? && (name.value, title.value) in catalog
    ensures r.Some? ==> r.value == catalog[(name.value, title.value)]
  {
    if name.Some? && title.Some? && (name.value, title.value) in catalog then Some(catalog[(name.value, title.value)])
    else None
  }

  /** The fields of a registration request the controller reads (null is None). */
  datatype RegisterRequest = RegisterRequest(
    registrarAddress: string,
    recipientAddress: Option<string>,
    substandardName: Option<string>,
    substandardIssueContractName: Option<string>,
    substandardTransferContractName: Option<string>,
    substandardThirdPartyContractName: Option<string>)

  /**
   * The third-party transfer-logic hash as lines 151-154 compute it: the validator of the
   * substandard whose title is the substandard's own name, or "" when there is none.
   */
  function ThirdPartyHashAsWritten(catalog: Catalog, req: RegisterRequest): (r: string)
    ensures r != "" ==> req.substandardName.Some?
                        && var n := req.substandardName.value;
                           (n, n) in catalog && r == catalog[(n, n)].scriptHash
    ensures req.substandardName.Some? && (req.substandardName.value, req.substandardName.value) in catalog ==>
      r == catalog[(req.substandardName.value, req.substandardName.value)].scriptHash
  {
    match req.substandardName
    case None => ""
    case Some(name) =>
      match GetSubstandardValidator(catalog, Some(name), Some(name))
      case Some(v) => v.scriptHash
      case None => ""
  }

  /** The third-party hash as the request means it: the validator it names as third-party contract. */
  function ThirdPartyHash(catalog: Catalog, req: RegisterRequest): (r: string)
    ensures r != "" ==>
      && req.substandardName.Some? && req.substandardThirdPartyContractName.Some?
      && var key := (req.substandardName.value, req.substandardThirdPartyContractName.value);
         key in catalog && r == catalog[key].scriptHash
  {
    match GetSubstandardValidator(catalog, req.substandardName, req.substandardThirdPartyContractName)
    case Some(v) => v.scriptHash
    case None => ""
  }

  /** The corrected lookup yields the requested validator's hash, and "" exactly when it is unknown. */
  lemma ThirdPartyHashOfRequested(catalog: Catalog, req: RegisterRequest, name: string, title: string)
    requires req.substandardName == Some(name) && req.substandardThirdPartyContractName == Some(title)
    ensures (name, title) in catalog ==> ThirdPartyHash(catalog, req) == catalog[(name, title)].scriptHash
    ensures (name, title) !in catalog ==> ThirdPartyHash(catalog, req) == ""
  {
  }

  /** As written, the third-party contract named in the request never influences the hash. */
  lemma AsWrittenIgnoresThirdPartyName(catalog: Catalog, req: RegisterRequest, title: Option<string>)
    ensures ThirdPartyHashAsWritten(catalog, req)
            == ThirdPartyHashAsWritten(catalog, req.(substandardThirdPartyContractName := title))
  {
  }

  /**
   * A substandard "blacklist" whose third-party validator is titled "blacklist_thirdparty": the
   * request names it, yet the lookup as written finds no validator titled "blacklist", so the
   * node register plans records "" where the requested lookup gives "ab01".
   */
  lemma AsWrittenLosesThirdPartyHash()
    ensures var catalog := map[("blacklist", "blacklist_issue") := SubstandardValidator("ef03"),
                               ("blacklist", "blacklist_transfer") := SubstandardValidator("cd02"),
                               ("blacklist", "blacklist_thirdparty") := SubstandardValidator("ab01")];
      var req := RegisterRequest("addr_registrar", None, Some("blacklist"), Some("blacklist_issue"),
                                 Some("blacklist_transfer"), Some("blacklist_thirdparty"));
      var r := Register(catalog, req, "aa", [RegistryUtxo("r0", Some(RegistryNode("", "ff", "", "", "")))]);
      && ThirdPartyHashAsWritten(catalog, req) == "" && ThirdPartyHash(catalog, req) == "ab01"
      && r.Planned? && r.plan.mintDatum.thirdPartyTransferLogicScript == ""
  {
    var catalog := map[("blacklist", "blacklist_issue") := SubstandardValidator("ef03"),
                       ("blacklist", "blacklist_transfer") := SubstandardValidator("cd02"),
                       ("blacklist", "blacklist_thirdparty") := SubstandardValidator("ab01")];
    var req := RegisterRequest("addr_registrar", None, Some("blacklist"), Some("blacklist_issue"),
                               Some("blacklist_transfer"), Some("blacklist_thirdparty"));
    var head := RegistryNode("", "ff", "", "", "");
    var registry := [RegistryUtxo("r0", Some(head))];
    assert ("blacklist", "blacklist") !in catalog;
    assert ContractsFound(catalog, req);
    assert !Hit(KeyEquals, registry[0], "aa");
    EmptyIsLeast("aa");
    assert Less("aa", "ff") by {
      assert CompareTo("aa", "ff") < 0;
    }
    assert Hit(GapFor, registry[0], "aa");
    assert IsHex("ff") && IsHex("aa") && IsHex("cd02") && IsHex("");
    assert IsLowerHex("aa");
    assert ToPlutusData(head).Some?;
    RegisterEncodesHexInputs(catalog, req, "aa", registry);
  }

  /** The payee of register: the registrar when the recipient is null or blank. */
  function RegisterPayee(recipient: Option<string>, registrar: string): (r: string)
    ensures r == registrar || (recipient == Some(r) && !IsBlank(r))
    ensures !IsBlank(registrar) ==> !IsBlank(r)
  {
    if recipient.None? || IsBlank(recipient.value) then registrar else recipient.value
  }

  /** The recipient of mint: the issuer only when the recipient is null. */
  function MintRecipient(recipient: Option<string>, issuer: string): (r: string)
    ensures recipient.Some? ==> r == recipient.value
    ensures recipient.None? ==> r == issuer
  {
    match recipient
    case None => issuer
    case Some(a) => a
  }

  /** The two fallback rules choose differently exactly for a blank recipient other than the fallback address. */
  lemma PayeeRulesDiffer(recipient: Option<string>, fallback: string)
    ensures RegisterPayee(recipient, fallback) != MintRecipient(recipient, fallback)
            <==> recipient.Some? && IsBlank(recipient.value) && recipient.value != fallback
    ensures RegisterPayee(recipient, fallback) == fallback || RegisterPayee(recipient, fallback) == MintRecipient(recipient, fallback)
    ensures recipient.Some? && !IsBlank(recipient.value) ==> RegisterPayee(recipient, fallback) == recipient.value
  {
  }

  /** The node register creates for `key`: it takes over the gap node's successor. */
  function NewNode(key: string, gap: RegistryNode, transfer: string, thirdParty: string): (r: RegistryNode)
    ensures r.key == key && r.next == gap.next && r.globalStatePolicyId == ""
    ensures IsGap(gap, key) ==> Less(gap.key, r.key) && Less(r.key, r.next)
  {
    RegistryNode(key, gap.next, transfer, thirdParty, "")
  }

  /** The transaction register plans: the registry UTxO it spends and the two datums it writes. */
  datatype InsertionPlan = InsertionPlan(gap: RegistryUtxo, spendDatum: RegistryNode, mintDatum: RegistryNode,
                                         payee: string)

  datatype RegisterResult =
    | ContractsMissing                      // 400 "substandard issuance or transfer contract are empty"
    | AlreadyRegistered(policyId: string)   // 400 "Token policy %s already registered"
    | NoNodeToReplace                       // 500 "could not find node to replace"
    | DatumNotEncodable(plan: InsertionPlan) // 500 from the catch: toPlutusData met a field that is not hex
    | Planned(plan: InsertionPlan)

  /** Both datums of a plan go through toPlutusData without an exception. */
  predicate PlanEncodes(p: InsertionPlan) {
    ToPlutusData(p.spendDatum).Some? && ToPlutusData(p.mintDatum).Some?
  }

  /** The substandard validators register needs before it looks at the registry. */
  predicate ContractsFound(catalog: Catalog, req: RegisterRequest)
    ensures ContractsFound(catalog, req) <==>
      && req.substandardName.Some? && req.substandardIssueContractName.Some? && req.substandardTransferContractName.Some?
      && (req.substandardName.value, req.substandardIssueContractName.value) in catalog
      && (req.substandardName.value, req.substandardTransferContractName.value) in catalog
  {
    && GetSubstandardValidator(catalog, req.substandardName, req.substandardIssueContractName).Some?
    && GetSubstandardValidator(catalog, req.substandardName, req.substandardTransferContractName).Some?
  }

  /**
   * register, from the substandard lookups to the datums, for the policy id `policyId` of the
   * token's issuance script. The new node records the third-party hash as lines 151-154 look it
   * up. The datums are encoded when the transaction is composed; a field that is not hex makes
   * that throw, which the catch turns into a 500.
   */
  function Register(catalog: Catalog, req: RegisterRequest, policyId: string, registry: seq<RegistryUtxo>)
    : (r: RegisterResult)
    ensures r.ContractsMissing? <==> !ContractsFound(catalog, req)
    ensures r.AlreadyRegistered? <==>
      ContractsFound(catalog, req) && exists j :: 0 <= j < |registry| && Hit(KeyEquals, registry[j], policyId)
    ensures r.AlreadyRegistered? ==> r.policyId == policyId
    ensures r.NoNodeToReplace? <==>
      && ContractsFound(catalog, req)
      && (forall j :: 0 <= j < |registry| ==> !Hit(KeyEquals, registry[j], policyId))
      && (forall j :: 0 <= j < |registry| ==> !Hit(GapFor, registry[j], policyId))
    ensures r.Planned? ==> PlanEncodes(r.plan)
    ensures r.DatumNotEncodable? ==> !PlanEncodes(r.plan)
    ensures r.Planned? || r.DatumNotEncodable? ==>
      var p := r.plan;
      var transfer := GetSubstandardValidator(catalog, req.substandardName, req.substandardTransferContractName).value;
      && p.gap in registry && p.gap.node.Some? && IsGap(p.gap.node.value, policyId)
      && p.spendDatum == WithNext(p.gap.node.value, policyId)
      && p.mintDatum == RegistryNode(policyId, p.gap.node.value.next, transfer.scriptHash,
                                     ThirdPartyHashAsWritten(catalog, req), "")
      && p.payee == RegisterPayee(req.recipientAddress, req.registrarAddress)
  {
    var transfer := GetSubstandardValidator(catalog, req.substandardName, req.substandardTransferContractName);
    if !ContractsFound(catalog, req) then ContractsMissing
    else if FindFirst(registry, KeyEquals, policyId).Some? then AlreadyRegistered(policyId)
    else
      match FindFirst(registry, GapFor, policyId)
      case None => NoNodeToReplace
      case Some(i) =>
        var gap := registry[i].node.value;
        var plan := InsertionPlan(registry[i], WithNext(gap, policyId),
                                  NewNode(policyId, gap, transfer.value.scriptHash, ThirdPartyHashAsWritten(catalog, req)),
                                  RegisterPayee(req.recipientAddress, req.registrarAddress));
        if PlanEncodes(plan) then Planned(plan) else DatumNotEncodable(plan)
  }

  /** The hex inputs of register: a lower-case hex policy id and hex script hashes in the catalog. */
  predicate HexInputs(catalog: Catalog, policyId: string) {
    IsLowerHex(policyId) && policyId != "" && forall k :: k in catalog ==> IsHex(catalog[k].scriptHash)
  }

  /** With hex inputs and registry nodes that encode, register never fails on encoding. */
  lemma RegisterEncodesHexInputs(catalog: Catalog, req: RegisterRequest, policyId: string, registry: seq<RegistryUtxo>)
    requires HexInputs(catalog, policyId)
    requires forall j :: 0 <= j < |registry| && registry[j].node.Some? ==> ToPlutusData(registry[j].node.value).Some?
    ensures !Register(catalog, req, policyId, registry).DatumNotEncodable?
  {
    var r := Register(catalog, req, policyId, registry);
    if r.Planned? || r.DatumNotEncodable? {
      var p := r.plan;
      var gap := p.gap.node.value;
      var transfer := GetSubstandardValidator(catalog, req.substandardName, req.substandardTransferContractName).value;
      var third := ThirdPartyHashAsWritten(catalog, req);
      assert IsHex(third) by {
        if third != "" {
          var v := GetSubstandardValidator(catalog, req.substandardName, req.substandardName);
          assert v.Some? && third == v.value.scriptHash;
        }
      }
      PlanDatumsEncode(gap, policyId, transfer.scriptHash, third);
      assert p.mintDatum == NewNode(policyId, gap, transfer.scriptHash, third);
      assert PlanEncodes(p);
    }
  }

  /**
   * Both datums of a plan encode when the gap node does and the hashes are hex: the rewritten
   * node differs from the gap only in field 1, and the new node is in the regular form with an
   * empty global-state field.
   */
  lemma PlanDatumsEncode(gap: RegistryNode, key: string, transfer: string, thirdParty: string)
    requires ToPlutusData(gap).Some?
    requires IsLowerHex(key) && key != "" && IsHex(transfer) && IsHex(thirdParty)
    ensures ToPlutusData(WithNext(gap, key)).Some?
    ensures var d, d' := ToPlutusData(gap).value, ToPlutusData(WithNext(gap, key)).value;
      && d'.fields[1] == Bytes(DecodeHex(key).value)
      && forall i :: 0 <= i < 5 && i != 1 ==> d'.fields[i] == d.fields[i]
    ensures ToPlutusData(NewNode(key, gap, transfer, thirdParty))
            == Some(Constr(0, [Bytes(DecodeHex(key).value), Bytes(DecodeHex(gap.next).value),
                               Constr(1, [Bytes(DecodeHex(transfer).value)]),
                               Constr(1, [Bytes(DecodeHex(thirdParty).value)]), Bytes([])]))
  {
    LowerHexIsHex(key);
    LowerHexIsNotBlank(key);
    WithNextChangesOnlyField1(gap, key);
  }

  // The registry as a chain: the nodes in key order, from the head to the tail sentinel.

  /** The head has the empty key, each node's next is the key of the node after it, and every key is below its next. */
  predicate Chain(nodes: seq<RegistryNode>) {
    && |nodes| >= 1 && nodes[0].key == ""
    && (forall i :: 0 <= i < |nodes| ==> Less(nodes[i].key, nodes[i].next))
    && (forall i :: 0 <= i < |nodes| - 1 ==> nodes[i].next == nodes[i + 1].key)
  }

  function Keys(nodes: seq<RegistryNode>): set<string> {
    set i | 0 <= i < |nodes| :: nodes[i].key
  }

  /** The next of the last node: the tail sentinel above every key. */
  function TailKey(nodes: seq<RegistryNode>): string
    requires |nodes| >= 1
  {
    nodes[|nodes| - 1].next
  }

  /** The keys of a chain increase strictly along it. */
  lemma {:induction false} ChainKeysIncrease(nodes: seq<RegistryNode>, i: nat, j: nat)
    requires Chain(nodes) && i < j < |nodes|
    ensures Less(nodes[i].key, nodes[j].key)
    decreases j - i
  {
    if j > i + 1 {
      ChainKeysIncrease(nodes, i, j - 1);
      LessTransitive(nodes[i].key, nodes[j - 1].key, nodes[j].key);
    }
  }

  /** From a node below `k`, some node at or after it has `k` in its gap. */
  lemma {:induction false} GapAtOrAfter(nodes: seq<RegistryNode>, k: string, i: nat) returns (g: nat)
    requires Chain(nodes) && k !in Keys(nodes) && Less(k, TailKey(nodes))
    requires i < |nodes| && Less(nodes[i].key, k)
    ensures i <= g < |nodes| && IsGap(nodes[g], k)
    decreases |nodes| - i
  {
    if i == |nodes| - 1 {
      g := i;
    } else {
      assert nodes[i + 1].key in Keys(nodes);
      LessTotal(k, nodes[i + 1].key);
      if Less(k, nodes[i + 1].key) {
        g := i;
      } else {
        g := GapAtOrAfter(nodes, k, i + 1);
      }
    }
  }

  /** At most one node of a chain has `k` in its gap. */
  lemma GapUnique(nodes: seq<RegistryNode>, k: string, a: nat, b: nat)
    requires Chain(nodes) && a < b < |nodes|
    requires IsGap(nodes[a], k)
    ensures !IsGap(nodes[b], k)
  {
    if IsGap(nodes[b], k) {
      if a + 1 < b {
        ChainKeysIncrease(nodes, a + 1, b);
        LessTransitive(nodes[a + 1].key, nodes[b].key, k);
      }
      LessAsymmetric(k, nodes[a + 1].key);
    }
  }

  /**
   * A key absent from a chain and below its tail lies in the gap of exactly one node; this is
   * why register's findAny over the gap filter has one candidate node.
   */
  lemma GapOfAbsentKey(nodes: seq<RegistryNode>, k: string) returns (g: nat)
    requires Chain(nodes) && k !in Keys(nodes) && Less(k, TailKey(nodes))
    ensures g < |nodes| && IsGap(nodes[g], k)
    ensures forall j :: 0 <= j < |nodes| && IsGap(nodes[j], k) ==> j == g
  {
    assert nodes[0].key in Keys(nodes);
    EmptyIsLeast(k);
    g := GapAtOrAfter(nodes, k, 0);
    forall j | 0 <= j < |nodes| && IsGap(nodes[j], k) ensures j == g {
      if j < g { GapUnique(nodes, k, j, g); }
      if g < j { GapUnique(nodes, k, g, j); }
    }
  }

  /** A key already in a chain lies in no node's gap. */
  lemma RegisteredKeyHasNoGap(nodes: seq<RegistryNode>, m: nat, j: nat)
    requires Chain(nodes) && m < |nodes| && j < |nodes|
    ensures !IsGap(nodes[j], nodes[m].key)
  {
    var k := nodes[m].key;
    if IsGap(nodes[j], k) {
      if j == m {
        LessIrreflexive(k);
      } else if m < j {
        ChainKeysIncrease(nodes, m, j);
        LessAsymmetric(k, nodes[j].key);
      } else {
        if j + 1 < m {
          ChainKeysIncrease(nodes, j + 1, m);
          LessAsymmetric(k, nodes[j + 1].key);
        } else {
          LessIrreflexive(k);
        }
      }
    }
  }

  /** The chain after register's transaction: the gap node rewritten, then the new node. */
  function Splice(nodes: seq<RegistryNode>, g: nat, added: RegistryNode): (r: seq<RegistryNode>)
    requires g < |nodes|
    ensures |r| == |nodes| + 1
    ensures forall j :: 0 <= j < g ==> r[j] == nodes[j]
    ensures r[g] == WithNext(nodes[g], added.key) && r[g + 1] == added
    ensures forall j :: g < j < |nodes| ==> r[j + 1] == nodes[j]
  {
    nodes[..g] + [WithNext(nodes[g], added.key), added] + nodes[g + 1..]
  }

  /** Splicing a new node into its gap keeps a chain, with the same tail. */
  lemma SpliceKeepsChain(nodes: seq<RegistryNode>, g: nat, added: RegistryNode)
    requires Chain(nodes) && g < |nodes| && IsGap(nodes[g], added.key) && added.next == nodes[g].next
    ensures Chain(Splice(nodes, g, added))
    ensures TailKey(Splice(nodes, g, added)) == TailKey(nodes)
  {
    var r := Splice(nodes, g, added);
    forall i | 0 <= i < |r| - 1 ensures r[i].next == r[i + 1].key {
      if i > g + 1 {
        assert r[i] == nodes[i - 1] && r[i + 1] == nodes[i];
      } else if i == g + 1 {
        assert r[i + 1] == nodes[g + 1];
      }
    }
    forall i | 0 <= i < |r| ensures Less(r[i].key, r[i].next) {
      if i > g + 1 {
        assert r[i] == nodes[i - 1];
      }
    }
    if g == |nodes| - 1 {
      assert r[|r| - 1] == added;
    } else {
      assert r[|r| - 1] == nodes[|nodes| - 1];
    }
  }

  /** Splicing adds exactly the new key to the chain's keys. */
  lemma SpliceAddsKey(nodes: seq<RegistryNode>, g: nat, added: RegistryNode)
    requires g < |nodes|
    ensures Keys(Splice(nodes, g, added)) == Keys(nodes) + {added.key}
  {
    var r := Splice(nodes, g, added);
    forall x | x in Keys(r) ensures x in Keys(nodes) + {added.key} {
      var i :| 0 <= i < |r| && r[i].key == x;
      if i < g {
      } else if i == g {
        assert nodes[g].key == x;
      } else if i > g + 1 {
        assert r[i] == nodes[i - 1];
      }
    }
    forall x | x in Keys(nodes) + {added.key} ensures x in Keys(r) {
      if x == added.key {
        assert r[g + 1].key == x;
      } else {
        var i :| 0 <= i < |nodes| && nodes[i].key == x;
        if i <= g {
          assert r[i].key == x;
        } else {
          assert r[i + 1].key == x;
        }
      }
    }
  }

  /** The registry UTxOs are a view of a chain: their parsed nodes are exactly its nodes. */
  predicate ViewOf(registry: seq<RegistryUtxo>, nodes: seq<RegistryNode>) {
    && (forall i :: 0 <= i < |registry| && registry[i].node.Some? ==> registry[i].node.value in nodes)
    && (forall j :: 0 <= j < |nodes| ==> exists i :: 0 <= i < |registry| && registry[i].node == Some(nodes[j]))
  }

  /** Over a view of a chain, register rejects exactly the keys already in the chain. */
  lemma RegisterRejectsExactlyMembers(catalog: Catalog, req: RegisterRequest, policyId: string,
                                      registry: seq<RegistryUtxo>, nodes: seq<RegistryNode>)
    requires Chain(nodes) && ViewOf(registry, nodes) && ContractsFound(catalog, req)
    ensures Register(catalog, req, policyId, registry).AlreadyRegistered? <==> policyId in Keys(nodes)
  {
    if policyId in Keys(nodes) {
      var m :| 0 <= m < |nodes| && nodes[m].key == policyId;
      var i :| 0 <= i < |registry| && registry[i].node == Some(nodes[m]);
      assert Hit(KeyEquals, registry[i], policyId);
    } else {
      forall j | 0 <= j < |registry| ensures !Hit(KeyEquals, registry[j], policyId) {
        if registry[j].node.Some? {
          var n := registry[j].node.value;
          assert n in nodes;
          var m :| 0 <= m < |nodes| && nodes[m] == n;
          assert n.key in Keys(nodes);
        }
      }
    }
  }

  /**
   * Over a view of a chain, register builds a plan for every absent key below the tail, and with
   * hex inputs the plan encodes; the plan spends the one node whose gap holds the key, and the
   * planned datums splice into a chain with exactly one more key.
   */
  lemma RegisterPlansSplice(catalog: Catalog, req: RegisterRequest, policyId: string,
                            registry: seq<RegistryUtxo>, nodes: seq<RegistryNode>) returns (g: nat)
    requires Chain(nodes) && ViewOf(registry, nodes) && ContractsFound(catalog, req)
    requires policyId !in Keys(nodes) && Less(policyId, TailKey(nodes))
    ensures var r := Register(catalog, req, policyId, registry);
      r.Planned? || r.DatumNotEncodable?
    ensures HexInputs(catalog, policyId) && (forall j :: 0 <= j < |nodes| ==> ToPlutusData(nodes[j]).Some?) ==>
      Register(catalog, req, policyId, registry).Planned?
    ensures var p := Register(catalog, req, policyId, registry).plan;
      && g < |nodes| && p.gap.node == Some(nodes[g])
      && (forall j :: 0 <= j < |nodes| && IsGap(nodes[j], policyId) ==> j == g)
      && Splice(nodes, g, p.mintDatum)[g] == p.spendDatum
      && Chain(Splice(nodes, g, p.mintDatum))
      && Keys(Splice(nodes, g, p.mintDatum)) == Keys(nodes) + {policyId}
  {
    g := GapOfAbsentKey(nodes, policyId);
    RegisterRejectsExactlyMembers(catalog, req, policyId, registry, nodes);
    var i :| 0 <= i < |registry| && registry[i].node == Some(nodes[g]);
    assert Hit(GapFor, registry[i], policyId);
    var r := Register(catalog, req, policyId, registry);
    assert r.Planned? || r.DatumNotEncodable?;
    if HexInputs(catalog, policyId) && (forall j :: 0 <= j < |nodes| ==> ToPlutusData(nodes[j]).Some?) {
      forall j | 0 <= j < |registry| && registry[j].node.Some? ensures ToPlutusData(registry[j].node.value).Some? {
        var n := registry[j].node.value;
        assert n in nodes;
      }
      RegisterEncodesHexInputs(catalog, req, policyId, registry);
    }
    var p := r.plan;
    var n := p.gap.node.value;
    assert n in nodes;
    var m :| 0 <= m < |nodes| && nodes[m] == n;
    assert m == g;
    SpliceKeepsChain(nodes, g, p.mintDatum);
    SpliceAddsKey(nodes, g, p.mintDatum);
  }

  // The pre-balance hook of register and mint.

  /** An output of the composed transaction; only its address matters to the hook. */
  datatype TxOutput = TxOutput(address: string, value: seq<(string, int)>)

  /** The outputs after the hook: the first moves to the end when it pays the fee payer. */
  function Rotated(outputs: seq<TxOutput>, feePayer: string): (r: seq<TxOutput>)
    requires outputs != []
    ensures multiset(r) == multiset(outputs)
  {
    if outputs[0].address == feePayer then
      assert outputs == [outputs[0]] + outputs[1..];
      outputs[1..] + [outputs[0]]
    else outputs
  }

  /** The hook moves the fee payer's first output to the end and keeps every other one in order. */
  lemma RotatedMovesFeePayerOutput(outputs: seq<TxOutput>, feePayer: string)
    requires outputs != []
    ensures |Rotated(outputs, feePayer)| == |outputs|
    ensures outputs[0].address == feePayer ==>
      Rotated(outputs, feePayer)[|outputs| - 1] == outputs[0]
      && forall i :: 1 <= i < |outputs| ==> Rotated(outputs, feePayer)[i - 1] == outputs[i]
    ensures outputs[0].address != feePayer ==> Rotated(outputs, feePayer) == outputs
  {
    var r := Rotated(outputs, feePayer);
    assert |multiset(r)| == |r| && |multiset(outputs)| == |outputs|;
  }

  /** The transaction body the hook edits in place. */
  class TransactionBody {
    var outputs: seq<TxOutput>

    constructor(outputs: seq<TxOutput>)
      ensures this.outputs == outputs
    {
      this.outputs := outputs;
    }

    /**
     * `if (outputs.getFirst().getAddress().equals(feePayer)) outputs.addLast(outputs.removeFirst())`;
     * false is the NoSuchElementException of getFirst on no outputs, which leaves them as they were.
     */
    method PreBalance(feePayer: string) returns (ok: bool)
      modifies this
      ensures ok <==> old(outputs) != []
      ensures ok ==> outputs == Rotated(old(outputs), feePayer)
      ensures !ok ==> outputs == old(outputs)
    {
      if outputs == [] {
        return false;
      }
      if outputs[0].address == feePayer {
        var first := outputs[0];
        outputs := outputs[1..];
        outputs := outputs + [first];
      }
      ok := true;
    }
  }
}
