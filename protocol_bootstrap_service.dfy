/**
 * ProtocolBootstrapService: the protocol versions the service knows, by the hash of their
 * bootstrap transaction, the version used when a request names none, and the compiled code of
 * the protocol's validators by title.
 */
module ProtocolBootstrap {
  import opened Optional

  /** One protocol version; only its bootstrap transaction hash matters to the service. */
  datatype ProtocolBootstrapParams = ProtocolBootstrapParams(txHash: string, parameters: string)

  /** A validator of the protocol blueprint (plutus.json). */
  datatype Validator = Validator(title: string, compiledCode: string)

  /** The map after `put`ting every element of `list` into `m` in order. */
  function PutAll(m: map<string, ProtocolBootstrapParams>, list: seq<ProtocolBootstrapParams>)
    : (r: map<string, ProtocolBootstrapParams>)
    ensures r.Keys == m.Keys + set i | 0 <= i < |list| :: list[i].txHash
    decreases |list|
  {
    if list == [] then m
    else
      var init, last := list[..|list| - 1], list[|list| - 1];
      var r := PutAll(m, init)[last.txHash := last];
      assert forall i :: 0 <= i < |init| ==> init[i] == list[i];
      r
  }

  /** An element of `list` with hash `k` that no later element shares. */
  predicate LastWithHash(list: seq<ProtocolBootstrapParams>, k: string, i: int) {
    0 <= i < |list| && list[i].txHash == k && forall j :: i < j < |list| ==> list[j].txHash != k
  }

  /** For a hash in the list, the map holds the last element with that hash: the later duplicate wins. */
  lemma {:induction false} PutAllLastWins(m: map<string, ProtocolBootstrapParams>, list: seq<ProtocolBootstrapParams>, i: nat)
    requires i < |list| && LastWithHash(list, list[i].txHash, i)
    ensures list[i].txHash in PutAll(m, list) && PutAll(m, list)[list[i].txHash] == list[i]
    decreases |list|
  {
    var init, last := list[..|list| - 1], list[|list| - 1];
    if i < |list| - 1 {
      assert LastWithHash(init, init[i].txHash, i) by {
        forall j | i < j < |init| ensures init[j].txHash != init[i].txHash {
          assert init[j] == list[j];
        }
      }
      PutAllLastWins(m, init, i);
    }
  }

  /** Hashes the list does not mention keep the entries they had. */
  lemma {:induction false} PutAllKeepsOthers(m: map<string, ProtocolBootstrapParams>, list: seq<ProtocolBootstrapParams>, k: string)
    requires k in m && forall j :: 0 <= j < |list| ==> list[j].txHash != k
    ensures k in PutAll(m, list) && PutAll(m, list)[k] == m[k]
    decreases |list|
  {
    if list != [] {
      var init := list[..|list| - 1];
      assert forall j :: 0 <= j < |init| ==> init[j] == list[j];
      PutAllKeepsOthers(m, init, k);
    }
  }

  /** Starting from no entries, every entry is stored under its own hash. */
  lemma {:induction false} PutAllKeyedByHash(list: seq<ProtocolBootstrapParams>)
    ensures forall k :: k in PutAll(map[], list) ==> PutAll(map[], list)[k].txHash == k
    decreases |list|
  {
    if list != [] {
      PutAllKeyedByHash(list[..|list| - 1]);
    }
  }

  /** The default version: a configured non-empty hash found in the map, else the first element (None: getFirst on an empty list throws). */
  function SelectDefault(m: map<string, ProtocolBootstrapParams>, list: seq<ProtocolBootstrapParams>,
                         defaultTxHash: Option<string>): (r: Option<ProtocolBootstrapParams>)
    ensures r.None? <==> list == [] && !(defaultTxHash.Some? && defaultTxHash.value != "" && defaultTxHash.value in m)
    ensures r.Some? ==> r.value in m.Values || (list != [] && r.value == list[0])
  {
    if defaultTxHash.Some? && defaultTxHash.value != "" && defaultTxHash.value in m then Some(m[defaultTxHash.value])
    else if list == [] then None
    else Some(list[0])
  }

  /** The three cases of the default selection, and the only failure. */
  lemma SelectDefaultCases(m: map<string, ProtocolBootstrapParams>, list: seq<ProtocolBootstrapParams>,
                           defaultTxHash: Option<string>)
    ensures var r := SelectDefault(m, list, defaultTxHash);
      && (defaultTxHash.Some? && defaultTxHash.value != "" && defaultTxHash.value in m ==> r == Some(m[defaultTxHash.value]))
      && (defaultTxHash.Some? && defaultTxHash.value != "" && defaultTxHash.value !in m && list != [] ==> r == Some(list[0]))
      && ((defaultTxHash.None? || defaultTxHash.value == "") && list != [] ==> r == Some(list[0]))
      && (r.None? <==> list == [] && !(defaultTxHash.Some? && defaultTxHash.value != "" && defaultTxHash.value in m))
  {
  }

  /** Loaded from the list alone, a found default hash selects the list's last element with that hash. */
  lemma DefaultIsLastWithHash(list: seq<ProtocolBootstrapParams>, defaultTxHash: string)
    requires defaultTxHash != ""
    ensures var r := SelectDefault(PutAll(map[], list), list, Some(defaultTxHash));
      (exists i :: 0 <= i < |list| && list[i].txHash == defaultTxHash) ==>
        r.Some? && r.value.txHash == defaultTxHash && exists i :: LastWithHash(list, defaultTxHash, i) && r.value == list[i]
  {
    if exists i :: 0 <= i < |list| && list[i].txHash == defaultTxHash {
      var i :| 0 <= i < |list| && list[i].txHash == defaultTxHash;
      var last := LastIndex(list, defaultTxHash, i);
      PutAllLastWins(map[], list, last);
    }
  }

  /** The last index at or after `i` holding hash `k`. */
  lemma {:induction false} LastIndex(list: seq<ProtocolBootstrapParams>, k: string, i: nat) returns (last: nat)
    requires i < |list| && list[i].txHash == k
    ensures i <= last && LastWithHash(list, k, last)
    decreases |list| - i
  {
    if exists j :: i < j < |list| && list[j].txHash == k {
      var j :| i < j < |list| && list[j].txHash == k;
      last := LastIndex(list, k, j);
    } else {
      last := i;
    }
  }

  /** The first validator titled `title`, taken as the stream's findAny. */
  function FindContract(validators: seq<Validator>, title: string): (r: Option<string>)
    ensures r.Some? ==> exists i :: 0 <= i < |validators| && validators[i].title == title && validators[i].compiledCode == r.value
    ensures r.None? <==> forall i :: 0 <= i < |validators| ==> validators[i].title != title
  {
    if validators == [] then None
    else if validators[0].title == title then Some(validators[0].compiledCode)
    else
      assert forall i :: 1 <= i < |validators| ==> validators[i] == validators[1..][i - 1];
      FindContract(validators[1..], title)
  }

  class ProtocolBootstrapService {
    /** The configured programmable.token.default.txHash (None: not set). */
    const defaultTxHash: Option<string>
    var protocolBootstrapParams: Option<ProtocolBootstrapParams>
    var bootstrapsByTxHash: map<string, ProtocolBootstrapParams>
    var validators: seq<Validator>

    constructor(defaultTxHash: Option<string>)
      ensures this.defaultTxHash == defaultTxHash
      ensures protocolBootstrapParams == None && bootstrapsByTxHash == map[] && validators == []
    {
      this.defaultTxHash := defaultTxHash;
      protocolBootstrapParams := None;
      bootstrapsByTxHash := map[];
      validators := [];
    }

    /**
     * init, given the parsed bootstrap list and blueprint validators. False is the exception of
     * getFirst on an empty list: the map is filled, but neither the default nor the blueprint is set.
     */
    method Init(list: seq<ProtocolBootstrapParams>, plutus: seq<Validator>) returns (ok: bool)
      modifies this
      ensures bootstrapsByTxHash == PutAll(old(bootstrapsByTxHash), list)
      ensures ok <==> SelectDefault(bootstrapsByTxHash, list, defaultTxHash).Some?
      ensures ok ==> protocolBootstrapParams == SelectDefault(bootstrapsByTxHash, list, defaultTxHash)
                     && validators == plutus
      ensures !ok ==> protocolBootstrapParams == old(protocolBootstrapParams) && validators == old(validators)
    {
      var m0 := bootstrapsByTxHash;
      var i := 0;
      while i < |list|
        invariant 0 <= i <= |list|
        invariant bootstrapsByTxHash == PutAll(m0, list[..i])
        invariant protocolBootstrapParams == old(protocolBootstrapParams) && validators == old(validators)
      {
        assert list[..i + 1][..i] == list[..i];
        bootstrapsByTxHash := bootstrapsByTxHash[list[i].txHash := list[i]];
        i := i + 1;
      }
      assert list[..i] == list;
      var selected := SelectDefault(bootstrapsByTxHash, list, defaultTxHash);
      if selected.None? {
        return false;
      }
      protocolBootstrapParams := selected;
      validators := plutus;
      ok := true;
    }

    /** getProtocolBootstrapParamsByTxHash. */
    function ByTxHash(txHash: string): (r: Option<ProtocolBootstrapParams>)
      reads this
      ensures r.Some? <==> txHash in bootstrapsByTxHash
      ensures r.Some? ==> r.value == bootstrapsByTxHash[txHash]
    {
      if txHash in bootstrapsByTxHash then Some(bootstrapsByTxHash[txHash]) else None
    }

    /** getAllBootstraps: a copy of the map. */
    function AllBootstraps(): (r: map<string, ProtocolBootstrapParams>)
      reads this
      ensures r == bootstrapsByTxHash
    {
      bootstrapsByTxHash
    }

    /** getProtocolContract: the compiled code of a validator with exactly that title. */
    function GetProtocolContract(contractTitle: string): (r: Option<string>)
      reads this
      ensures r.Some? ==> exists i :: 0 <= i < |validators| && validators[i].title == contractTitle
                                     && validators[i].compiledCode == r.value
      ensures r.None? <==> forall i :: 0 <= i < |validators| ==> validators[i].title != contractTitle
    {
      FindContract(validators, contractTitle)
    }
  }

  /** After loading a list into an empty map, a hash can be looked up exactly when the list has it, and finds its last element. */
  lemma LookupAfterLoad(list: seq<ProtocolBootstrapParams>, k: string)
    ensures k in PutAll(map[], list) <==> exists i :: 0 <= i < |list| && list[i].txHash == k
    ensures (exists i :: 0 <= i < |list| && list[i].txHash == k) ==>
      exists i :: LastWithHash(list, k, i) && PutAll(map[], list)[k] == list[i]
  {
    if exists i :: 0 <= i < |list| && list[i].txHash == k {
      var i :| 0 <= i < |list| && list[i].txHash == k;
      var last := LastIndex(list, k, i);
      PutAllLastWins(map[], list, last);
    }
  }
}
