/**
 * The balance_log table and the queries of BalanceLogRepository. The table is a sequence of
 * stored rows in insertion order plus the next identity value; every query is a function of
 * that sequence.
 */
module BalanceLogRepository {
  import opened Optional
  import opened BalanceLogEntity
  import opened BalanceLogOrder

  /** The WHERE clauses of the queries. A null stake key column never equals a parameter. */
  datatype Criterion =
    | AddressAndAsset(address: string, policyId: string, assetName: Option<string>)
    | Address(address: string)
    | PaymentScript(paymentScriptHash: string)
    | StakeKey(stakeKeyHash: string)
    | PaymentScriptAndStakeKey(paymentScriptHash: string, stakeKeyHash: string)
    | ProgrammableAtAddress(address: string)
    | TxHash(txHash: string)

  predicate Matches(c: Criterion, s: Snapshot)
    ensures Matches(c, s) && (c.StakeKey? || c.PaymentScriptAndStakeKey?) ==> s.stakeKeyHash == Some(c.stakeKeyHash)
    ensures Matches(c, s) && c.AddressAndAsset? ==> s.assetName == c.assetName
    ensures Matches(c, s) && c.ProgrammableAtAddress? ==> s.isProgrammableToken
  {
    match c
    // `assetName = :assetName OR (assetName IS NULL AND :assetName IS NULL)`
    case AddressAndAsset(a, p, n) => s.address == a && s.policyId == p && s.assetName == n
    case Address(a) => s.address == a
    case PaymentScript(h) => s.paymentScriptHash == h
    case StakeKey(h) => s.stakeKeyHash == Some(h)
    case PaymentScriptAndStakeKey(p, h) => s.paymentScriptHash == p && s.stakeKeyHash == Some(h)
    case ProgrammableAtAddress(a) => s.address == a && s.isProgrammableToken
    case TxHash(t) => s.txHash == t
  }

  /** The rows that satisfy a WHERE clause, each as often as it is stored. */
  function Select(log: seq<Entry>, c: Criterion): (r: seq<Entry>)
    ensures forall x :: multiset(r)[x] == if Matches(c, x.snap) then multiset(log)[x] else 0
    ensures forall x :: x in r <==> x in log && Matches(c, x.snap)
  {
    if log == [] then []
    else
      var init, last := log[..|log| - 1], log[|log| - 1];
      assert log == init + [last];
      var r := Select(init, c);
      if Matches(c, last.snap) then r + [last] else r
  }

  lemma SelectAppend(log: seq<Entry>, e: Entry, c: Criterion)
    ensures Select(log + [e], c) == if Matches(c, e.snap) then Select(log, c) + [e] else Select(log, c)
  {
    assert (log + [e])[..|log|] == log;
  }

  /** Row identities grow with insertion order (an IDENTITY column). */
  predicate IdsIncreasing(log: seq<Entry>) {
    forall i, j :: 0 <= i < j < |log| ==> log[i].id < log[j].id
  }

  lemma IncreasingIdsDistinct(log: seq<Entry>, x: Entry, y: Entry)
    requires IdsIncreasing(log) && x in log && y in log && x != y
    ensures x.id != y.id
  {
    var a :| 0 <= a < |log| && log[a] == x;
    var b :| 0 <= b < |log| && log[b] == y;
  }

  /** `e` has the greatest id among the rows of `pool` about its (address, asset). */
  predicate IsLatestOfAsset(pool: seq<Entry>, e: Entry) {
    forall x :: x in pool && KeyOf(x.snap) == KeyOf(e.snap) ==> x.id <= e.id
  }

  /** The rows of `s` whose id is `MAX(id)` of their group in `pool`. */
  function KeepLatest(s: seq<Entry>, pool: seq<Entry>): (r: seq<Entry>)
    ensures forall x :: multiset(r)[x] == if IsLatestOfAsset(pool, x) then multiset(s)[x] else 0
    ensures forall x :: x in r <==> x in s && IsLatestOfAsset(pool, x)
  {
    if s == [] then []
    else
      var init, last := s[..|s| - 1], s[|s| - 1];
      assert s == init + [last];
      var r := KeepLatest(init, pool);
      if IsLatestOfAsset(pool, last) then r + [last] else r
  }

  /** `x` satisfies `c` and no row satisfying `c` about the same (address, asset) has a greater id. */
  predicate IsLatestMatching(log: seq<Entry>, c: Criterion, x: Entry) {
    && x in log && Matches(c, x.snap)
    && forall y :: y in log && Matches(c, y.snap) && KeyOf(y.snap) == KeyOf(x.snap) ==> y.id <= x.id
  }

  /**
   * The shape shared by the "latest per asset" queries: the rows satisfying `c` whose id is the
   * `MAX(id)` of the rows satisfying `c` grouped by (address, policyId, assetName), in slot
   * order. The address-scoped queries group by (policyId, assetName) only, which is the same
   * grouping once the address is fixed by `c`.
   */
  function LatestRows(log: seq<Entry>, c: Criterion): (r: seq<Entry>)
    ensures Sorted(SlotDesc, r)
    ensures forall x :: x in r <==> IsLatestMatching(log, c, x)
    ensures multiset(r) <= multiset(log)
  {
    var sel := Select(log, c);
    KeptAreLatestMatching(log, c);
    KeptAreStored(log, c);
    SortKeepsLatest(log, c, KeepLatest(sel, sel));
    Sort(SlotDesc, KeepLatest(sel, sel))
  }

  /** Sorting the kept rows keeps which rows they are. */
  lemma SortKeepsLatest(log: seq<Entry>, c: Criterion, k: seq<Entry>)
    requires forall x :: x in k <==> IsLatestMatching(log, c, x)
    requires multiset(k) <= multiset(log)
    ensures forall x :: x in Sort(SlotDesc, k) <==> IsLatestMatching(log, c, x)
    ensures multiset(Sort(SlotDesc, k)) <= multiset(log)
  {
    var r := Sort(SlotDesc, k);
    forall x ensures x in r <==> x in k {
      assert x in r <==> x in multiset(r);
      assert x in k <==> x in multiset(k);
    }
  }

  lemma KeptAreLatestMatching(log: seq<Entry>, c: Criterion)
    ensures var sel := Select(log, c);
      forall x :: x in KeepLatest(sel, sel) <==> IsLatestMatching(log, c, x)
  {
  }

  lemma KeptAreStored(log: seq<Entry>, c: Criterion)
    ensures var sel := Select(log, c);
      multiset(KeepLatest(sel, sel)) <= multiset(log)
  {
    var sel := Select(log, c);
    forall x ensures multiset(KeepLatest(sel, sel))[x] <= multiset(log)[x] {}
  }

  lemma {:induction false} LatestOfAssetExists(pool: seq<Entry>, y: Entry) returns (m: Entry)
    requires y in pool
    ensures m in pool && KeyOf(m.snap) == KeyOf(y.snap) && y.id <= m.id && IsLatestOfAsset(pool, m)
    decreases |pool|
  {
    var init, last := pool[..|pool| - 1], pool[|pool| - 1];
    assert pool == init + [last];
    if y in init {
      var m0 := LatestOfAssetExists(init, y);
      if KeyOf(last.snap) == KeyOf(y.snap) && last.id > m0.id {
        m := last;
      } else {
        m := m0;
      }
    } else if exists x :: x in init && KeyOf(x.snap) == KeyOf(y.snap) && x.id > y.id {
      var x :| x in init && KeyOf(x.snap) == KeyOf(y.snap) && x.id > y.id;
      m := LatestOfAssetExists(init, x);
    } else {
      m := y;
    }
  }

  /** Every asset that has a row satisfying `c` appears among the latest rows. */
  lemma LatestRowsCoverEveryAsset(log: seq<Entry>, c: Criterion, y: Entry)
    requires y in log && Matches(c, y.snap)
    ensures exists x :: x in LatestRows(log, c) && KeyOf(x.snap) == KeyOf(y.snap) && y.id <= x.id
  {
    var sel := Select(log, c);
    var m := LatestOfAssetExists(sel, y);
    assert m in LatestRows(log, c);
  }

  lemma {:induction false} IncreasingCountsOnce(log: seq<Entry>, x: Entry)
    requires IdsIncreasing(log)
    ensures multiset(log)[x] <= 1
    decreases |log|
  {
    if log != [] {
      var init, last := log[..|log| - 1], log[|log| - 1];
      assert log == init + [last];
      IncreasingCountsOnce(init, x);
      if x == last {
        assert x !in init;
      }
    }
  }

  lemma TwoPositions(s: seq<Entry>, i: int, j: int)
    requires 0 <= i < j < |s| && s[i] == s[j]
    ensures multiset(s)[s[i]] >= 2
  {
    assert s == s[..j] + [s[j]] + s[j + 1..];
    assert s[i] in s[..j];
  }

  /** Over unique ids the latest rows hold one row per asset. */
  lemma LatestRowsOnePerAsset(log: seq<Entry>, c: Criterion)
    requires IdsIncreasing(log)
    ensures var r := LatestRows(log, c);
      forall i, j :: 0 <= i < j < |r| ==> KeyOf(r[i].snap) != KeyOf(r[j].snap)
  {
    var r := LatestRows(log, c);
    forall i, j | 0 <= i < j < |r| ensures KeyOf(r[i].snap) != KeyOf(r[j].snap) {
      if KeyOf(r[i].snap) == KeyOf(r[j].snap) {
        assert r[i] in r && r[j] in r;
        assert r[i].id == r[j].id;
        var a :| 0 <= a < |log| && log[a] == r[i];
        var b :| 0 <= b < |log| && log[b] == r[j];
        assert a == b;
        TwoPositions(r, i, j);
        IncreasingCountsOnce(log, r[i]);
        assert false;
      }
    }
  }

  /** findLatestByAddressAndAsset: the newest `page` rows of one (address, asset). */
  function FindLatestByAddressAndAsset(log: seq<Entry>, address: string, policyId: string,
                                       assetName: Option<string>, page: PageSize): (r: seq<Entry>)
    ensures Sorted(NewestFirst, r)
    ensures forall x :: x in r ==>
      x in log && x.snap.address == address && x.snap.policyId == policyId && x.snap.assetName == assetName
    ensures var all := Select(log, AddressAndAsset(address, policyId, assetName));
      && |r| == (if page < |all| then page else |all|)
      && forall x, y :: x in r && y in multiset(all) - multiset(r) ==> Before(NewestFirst, x, y)
  {
    Page(NewestFirst, Select(log, AddressAndAsset(address, policyId, assetName)), page)
  }

  /** findHistoryByAddressAndAsset: like the latest query, ordered by slot only. */
  function FindHistoryByAddressAndAsset(log: seq<Entry>, address: string, policyId: string,
                                        assetName: Option<string>, page: PageSize): (r: seq<Entry>)
    ensures Sorted(SlotDesc, r)
    ensures forall x :: x in r ==>
      x in log && x.snap.address == address && x.snap.policyId == policyId && x.snap.assetName == assetName
    ensures var all := Select(log, AddressAndAsset(address, policyId, assetName));
      && |r| == (if page < |all| then page else |all|)
      && forall x, y :: x in r && y in multiset(all) - multiset(r) ==> x.snap.slot >= y.snap.slot
  {
    var all := Select(log, AddressAndAsset(address, policyId, assetName));
    PageWithin(SlotDesc, all, page);
    PageBySlot(all, page);
    Page(SlotDesc, all, page)
  }

  /** findAllByAddressOrderBySlotDesc: the newest `page` rows of an address, every asset. */
  function FindAllByAddressOrderBySlotDesc(log: seq<Entry>, address: string, page: PageSize): (r: seq<Entry>)
    ensures Sorted(SlotDesc, r)
    ensures forall x :: x in r ==> x in log && x.snap.address == address
    ensures var all := Select(log, Address(address));
      && |r| == (if page < |all| then page else |all|)
      && forall x, y :: x in r && y in multiset(all) - multiset(r) ==> x.snap.slot >= y.snap.slot
  {
    var all := Select(log, Address(address));
    PageWithin(SlotDesc, all, page);
    PageBySlot(all, page);
    Page(SlotDesc, all, page)
  }

  /** findAllLatestByAddress: for each asset of the address, its row with the greatest id. */
  function FindAllLatestByAddress(log: seq<Entry>, address: string): (r: seq<Entry>)
    ensures Sorted(SlotDesc, r)
    ensures forall x :: x in r <==> IsLatestMatching(log, Address(address), x)
    ensures forall x :: x in r ==> x.snap.address == address
  {
    LatestRows(log, Address(address))
  }

  /** findAllLatestByPaymentScriptHash: per (address, asset) under the script, the greatest id. */
  function FindAllLatestByPaymentScriptHash(log: seq<Entry>, paymentScriptHash: string): (r: seq<Entry>)
    ensures Sorted(SlotDesc, r)
    ensures forall x :: x in r <==> IsLatestMatching(log, PaymentScript(paymentScriptHash), x)
    ensures forall x :: x in r ==> x.snap.paymentScriptHash == paymentScriptHash
  {
    LatestRows(log, PaymentScript(paymentScriptHash))
  }

  /** findAllLatestByStakeKeyHash: rows without a stake key never appear. */
  function FindAllLatestByStakeKeyHash(log: seq<Entry>, stakeKeyHash: string): (r: seq<Entry>)
    ensures Sorted(SlotDesc, r)
    ensures forall x :: x in r <==> IsLatestMatching(log, StakeKey(stakeKeyHash), x)
    ensures forall x :: x in r ==> x.snap.stakeKeyHash == Some(stakeKeyHash)
  {
    LatestRows(log, StakeKey(stakeKeyHash))
  }

  function FindAllLatestByPaymentScriptHashAndStakeKeyHash(log: seq<Entry>, paymentScriptHash: string,
                                                           stakeKeyHash: string): (r: seq<Entry>)
    ensures Sorted(SlotDesc, r)
    ensures forall x :: x in r <==>
      IsLatestMatching(log, PaymentScriptAndStakeKey(paymentScriptHash, stakeKeyHash), x)
    ensures forall x :: x in r ==>
      x.snap.paymentScriptHash == paymentScriptHash && x.snap.stakeKeyHash == Some(stakeKeyHash)
  {
    LatestRowsMatch(log, PaymentScriptAndStakeKey(paymentScriptHash, stakeKeyHash));
    LatestRows(log, PaymentScriptAndStakeKey(paymentScriptHash, stakeKeyHash))
  }

  /** Only programmable rows are considered, both for the filter and for each group's MAX(id). */
  function FindProgrammableTokenBalancesByAddress(log: seq<Entry>, address: string): (r: seq<Entry>)
    ensures Sorted(SlotDesc, r)
    ensures forall x :: x in r <==> IsLatestMatching(log, ProgrammableAtAddress(address), x)
    ensures forall x :: x in r ==> x.snap.address == address && x.snap.isProgrammableToken
  {
    ProgrammableLatestRows(log, address);
    LatestRows(log, ProgrammableAtAddress(address))
  }

  lemma ProgrammableLatestRows(log: seq<Entry>, address: string)
    ensures forall x :: x in LatestRows(log, ProgrammableAtAddress(address)) ==>
      x.snap.address == address && x.snap.isProgrammableToken
  {
    LatestRowsMatch(log, ProgrammableAtAddress(address));
    MatchingProgrammable(LatestRows(log, ProgrammableAtAddress(address)), address);
  }

  lemma MatchingProgrammable(r: seq<Entry>, address: string)
    requires forall x :: x in r ==> Matches(ProgrammableAtAddress(address), x.snap)
    ensures forall x :: x in r ==> x.snap.address == address && x.snap.isProgrammableToken
  {
  }

  lemma LatestRowsMatch(log: seq<Entry>, c: Criterion)
    ensures forall x :: x in LatestRows(log, c) ==> x in log && Matches(c, x.snap)
  {
  }

  /** findAllByTxHash: every row of the transaction, as often as stored, by (address, asset). */
  function FindAllByTxHash(log: seq<Entry>, txHash: string): (r: seq<Entry>)
    ensures Sorted(ByAssetKey, r)
    ensures forall x :: multiset(r)[x] == if x.snap.txHash == txHash then multiset(log)[x] else 0
  {
    Sort(ByAssetKey, Select(log, TxHash(txHash)))
  }

  /**
   * existsByAddressAndPolicyIdAndAssetNameAndTxHash. A derived query turns a null argument into
   * `IS NULL`, so a null asset name matches exactly the rows without one.
   */
  predicate ExistsByAddressAndPolicyIdAndAssetNameAndTxHash(log: seq<Entry>, address: string, policyId: string,
                                                           assetName: Option<string>, txHash: string)
    ensures ExistsByAddressAndPolicyIdAndAssetNameAndTxHash(log, address, policyId, assetName, txHash) <==>
      exists i :: 0 <= i < |log| && UniqueKeyOf(log[i].snap) == UniqueKey(address, policyId, assetName, txHash)
  {
    if log == [] then false
    else
      var init, last := log[..|log| - 1], log[|log| - 1];
      assert forall i :: 0 <= i < |init| ==> init[i] == log[i];
      UniqueKeyOf(last.snap) == UniqueKey(address, policyId, assetName, txHash)
      || ExistsByAddressAndPolicyIdAndAssetNameAndTxHash(init, address, policyId, assetName, txHash)
  }

  /** The stored rows and the next value of the identity column. */
  datatype Table = Table(entries: seq<Entry>, nextId: nat)

  predicate WellFormed(t: Table) {
    IdsIncreasing(t.entries) && forall i :: 0 <= i < |t.entries| ==> t.entries[i].id < t.nextId
  }

  /**
   * unique_balance_entry rejects a row whose (address, policyId, assetName, txHash) is already
   * stored; as in SQL, null asset names never collide, so lovelace rows are not protected by it.
   */
  predicate ViolatesUniqueEntry(log: seq<Entry>, s: Snapshot) {
    s.assetName.Some? && exists i :: 0 <= i < |log| && UniqueKeyOf(log[i].snap) == UniqueKeyOf(s)
  }

  /** JpaRepository.save of a new entity: the row gets the next id; None is the constraint error. */
  function SaveRow(t: Table, s: Snapshot): (r: (Table, Option<Entry>))
    ensures r.1.None? <==> ViolatesUniqueEntry(t.entries, s)
    ensures r.1.None? ==> r.0 == t
    ensures r.1.Some? ==> r.1.value == Entry(t.nextId, s) && r.0.entries == t.entries + [r.1.value]
    ensures WellFormed(t) ==> WellFormed(r.0)
  {
    if ViolatesUniqueEntry(t.entries, s) then (t, None)
    else
      var e := Entry(t.nextId, s);
      (Table(t.entries + [e], t.nextId + 1), Some(e))
  }

  /** The balance_log table. */
  class BalanceLogTable {
    var entries: seq<Entry>
    var nextId: nat

    function State(): Table
      reads this
    {
      Table(entries, nextId)
    }

    predicate Valid()
      reads this
    {
      WellFormed(State())
    }

    constructor()
      ensures Valid() && entries == []
    {
      entries := [];
      nextId := 1;
    }

    method Save(s: Snapshot) returns (r: Option<Entry>)
      requires Valid()
      modifies this
      ensures Valid()
      ensures (State(), r) == SaveRow(old(State()), s)
    {
      if ViolatesUniqueEntry(entries, s) {
        r := None;
      } else {
        var e := Entry(nextId, s);
        entries := entries + [e];
        nextId := nextId + 1;
        r := Some(e);
      }
    }
  }
}
