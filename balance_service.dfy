/**
 * BalanceService: the idempotent append to the balance log and the read operations built on the
 * repository queries.
 */
module BalanceService {
  import opened Optional
  import opened BalanceLogEntity
  import opened BalanceLogOrder
  import opened BalanceLogRepository

  /** No two stored rows share (address, policyId, assetName, txHash), null asset names included. */
  predicate KeysUnique(log: seq<Entry>) {
    forall i, j :: 0 <= i < j < |log| ==> UniqueKeyOf(log[i].snap) != UniqueKeyOf(log[j].snap)
  }

  predicate Recorded(log: seq<Entry>, s: Snapshot) {
    ExistsByAddressAndPolicyIdAndAssetNameAndTxHash(log, s.address, s.policyId, s.assetName, s.txHash)
  }

  /**
   * append: a row whose four key columns are already stored is not saved (None: the argument
   * comes back without an id); any other row is saved with the next id. Because the check also
   * covers null asset names, the log keeps every key unique, which the SQL constraint alone
   * would not do for lovelace rows.
   */
  function AppendRow(t: Table, s: Snapshot): (r: (Table, Option<Entry>))
    ensures r.1.None? <==> Recorded(t.entries, s)
    ensures r.1.None? ==> r.0 == t
    ensures r.1.Some? ==>
      r.1.value == Entry(t.nextId, s) && r.0 == Table(t.entries + [Entry(t.nextId, s)], t.nextId + 1)
    ensures Recorded(r.0.entries, s)
    ensures WellFormed(t) ==> WellFormed(r.0)
    ensures KeysUnique(t.entries) ==> KeysUnique(r.0.entries)
  {
    if Recorded(t.entries, s) then (t, None)
    else
      var r := SaveRow(t, s);
      assert r.0.entries[|t.entries|] == Entry(t.nextId, s);
      r
  }

  method Append(repo: BalanceLogTable, s: Snapshot) returns (r: Option<Entry>)
    requires repo.Valid()
    modifies repo
    ensures repo.Valid()
    ensures (repo.State(), r) == AppendRow(old(repo.State()), s)
  {
    if ExistsByAddressAndPolicyIdAndAssetNameAndTxHash(repo.entries, s.address, s.policyId, s.assetName, s.txHash) {
      return None;
    }
    r := repo.Save(s);
  }

  /** Appending the same row twice stores it once; the second append changes nothing. */
  lemma AppendTwiceStoresOnce(t: Table, s: Snapshot)
    ensures var t1 := AppendRow(t, s).0;
      && AppendRow(t1, s) == (t1, None)
      && t1.entries == t.entries + (if Recorded(t.entries, s) then [] else [Entry(t.nextId, s)])
  {
  }

  /** getLatestBalance: the row of the (address, asset) with the greatest slot, then id. */
  function GetLatestBalance(log: seq<Entry>, address: string, policyId: string,
                            assetName: Option<string>): (r: Option<Entry>)
    ensures r.None? <==> forall y :: y in log ==> !Matches(AddressAndAsset(address, policyId, assetName), y.snap)
    ensures r.Some? ==> r.value in log && Matches(AddressAndAsset(address, policyId, assetName), r.value.snap)
    ensures r.Some? ==> forall y :: (y in log && Matches(AddressAndAsset(address, policyId, assetName), y.snap))
                                    ==> Before(NewestFirst, r.value, y)
    ensures r.Some? && IdsIncreasing(log) ==>
      forall y :: (y in log && Matches(AddressAndAsset(address, policyId, assetName), y.snap) && y != r.value)
                  ==> (y.snap.slot < r.value.snap.slot || (y.snap.slot == r.value.snap.slot && y.id < r.value.id))
  {
    var c := AddressAndAsset(address, policyId, assetName);
    var all := Select(log, c);
    var rows := FindLatestByAddressAndAsset(log, address, policyId, assetName, 1);
    if all == [] then
      None
    else
      PageOfOne(NewestFirst, all);
      var x := rows[0];
      assert IdsIncreasing(log) ==> forall y :: y in log && y != x ==> y.id != x.id by {
        if IdsIncreasing(log) {
          forall y | y in log && y != x ensures y.id != x.id {
            IncreasingIdsDistinct(log, x, y);
          }
        }
      }
      Some(x)
  }

  /**
   * The newest row matching `c`, scanning the rows in the order they were stored: the one with
   * the greatest slot, then id, a later row winning a tie.
   */
  function Newest(log: seq<Entry>, c: Criterion): (r: Option<Entry>)
    ensures r.None? <==> forall y :: y in log ==> !Matches(c, y.snap)
    ensures r.Some? ==> r.value in log && Matches(c, r.value.snap)
    ensures r.Some? ==> forall y :: y in log && Matches(c, y.snap) ==> Before(NewestFirst, r.value, y)
    decreases |log|
  {
    if log == [] then None
    else
      var init, last := log[..|log| - 1], log[|log| - 1];
      assert log == init + [last];
      var rest := Newest(init, c);
      if !Matches(c, last.snap) then rest
      else if rest.None? then Some(last)
      else if Before(NewestFirst, last, rest.value) then
        assert forall y :: y in init && Matches(c, y.snap) ==> Before(NewestFirst, last, y) by {
          forall y | y in init && Matches(c, y.snap) ensures Before(NewestFirst, last, y) {
            BeforeTransitive(NewestFirst, last, rest.value, y);
          }
        }
        BeforeTotal(NewestFirst, last, last);
        Some(last)
      else
        BeforeTotal(NewestFirst, last, rest.value);
        rest
  }

  /** The newest matching row is the first of the selected rows in the order NewestFirst. */
  lemma {:induction false} NewestIsTop(log: seq<Entry>, c: Criterion)
    ensures Newest(log, c) == if Select(log, c) == [] then None else Some(Top(NewestFirst, Select(log, c)))
    decreases |log|
  {
    if log != [] {
      var init, last := log[..|log| - 1], log[|log| - 1];
      assert log == init + [last];
      NewestIsTop(init, c);
      SelectAppend(init, last, c);
      if Matches(c, last.snap) && Select(init, c) != [] {
        TopSnoc(NewestFirst, Select(init, c), last);
      }
    }
  }

  /** getLatestBalance, which asks the repository for one row, finds the newest row of the (address, asset). */
  lemma LatestIsNewest(log: seq<Entry>, address: string, policyId: string, assetName: Option<string>)
    ensures GetLatestBalance(log, address, policyId, assetName) == Newest(log, AddressAndAsset(address, policyId, assetName))
  {
    var c := AddressAndAsset(address, policyId, assetName);
    var all := Select(log, c);
    NewestIsTop(log, c);
    if all != [] {
      SortHeadIsTop(NewestFirst, all);
    }
  }

  /** getBalanceHistory: None stands for the exception PageRequest.of throws for a limit below 1. */
  function GetBalanceHistory(log: seq<Entry>, address: string, policyId: string,
                             assetName: Option<string>, limit: int): (r: Option<seq<Entry>>)
    ensures r.Some? <==> limit >= 1
    ensures r.Some? ==> |r.value| <= limit && Sorted(SlotDesc, r.value)
    ensures r.Some? ==> forall x :: x in r.value ==> x in log && Matches(AddressAndAsset(address, policyId, assetName), x.snap)
    ensures r.Some? ==> var all := Select(log, AddressAndAsset(address, policyId, assetName));
      && |r.value| == (if limit < |all| then limit else |all|)
      && forall x, y :: x in r.value && y in multiset(all) - multiset(r.value) ==> x.snap.slot >= y.snap.slot
  {
    if limit < 1 then None else Some(FindHistoryByAddressAndAsset(log, address, policyId, assetName, limit))
  }

  /** getAllBalanceHistory: the same over every asset of the address. */
  function GetAllBalanceHistory(log: seq<Entry>, address: string, limit: int): (r: Option<seq<Entry>>)
    ensures r.Some? <==> limit >= 1
    ensures r.Some? ==> |r.value| <= limit && Sorted(SlotDesc, r.value)
    ensures r.Some? ==> forall x :: x in r.value ==> x in log && x.snap.address == address
    ensures r.Some? ==> var all := Select(log, Address(address));
      && |r.value| == (if limit < |all| then limit else |all|)
      && forall x, y :: x in r.value && y in multiset(all) - multiset(r.value) ==> x.snap.slot >= y.snap.slot
  {
    if limit < 1 then None else Some(FindAllByAddressOrderBySlotDesc(log, address, limit))
  }

  /**
   * What a "latest per asset" read promises of its rows `r`: each is the greatest-id row of its
   * (address, asset) among the rows satisfying `c`; every asset with a row satisfying `c` is
   * present; and over unique ids no asset appears twice.
   */
  predicate OneLatestPerAsset(log: seq<Entry>, c: Criterion, r: seq<Entry>) {
    && (forall x :: x in r ==> IsLatestMatching(log, c, x))
    && (forall y :: y in log && Matches(c, y.snap) ==> HasLaterOfAsset(r, y))
    && (IdsIncreasing(log) ==> forall i, j :: 0 <= i < j < |r| ==> KeyOf(r[i].snap) != KeyOf(r[j].snap))
  }

  /** Some row of `r` is about the (address, asset) of `y` and is no older than it. */
  predicate HasLaterOfAsset(r: seq<Entry>, y: Entry) {
    exists x :: x in r && KeyOf(x.snap) == KeyOf(y.snap) && y.id <= x.id
  }

  lemma LatestRowsPerAsset(log: seq<Entry>, c: Criterion)
    ensures OneLatestPerAsset(log, c, LatestRows(log, c))
  {
    forall y | y in log && Matches(c, y.snap) ensures HasLaterOfAsset(LatestRows(log, c), y) {
      LatestRowsCoverEveryAsset(log, c, y);
    }
    if IdsIncreasing(log) {
      LatestRowsOnePerAsset(log, c);
    }
  }

  /** getAllLatestBalances: one row per asset of the address, the most recently stored. */
  function GetAllLatestBalances(log: seq<Entry>, address: string): (r: seq<Entry>)
    ensures OneLatestPerAsset(log, Address(address), r)
    ensures forall x :: x in r ==> x.snap.address == address
  {
    LatestRowsPerAsset(log, Address(address));
    FindAllLatestByAddress(log, address)
  }

  /** getLatestBalancesByPaymentScript: only rows under that payment script. */
  function GetLatestBalancesByPaymentScript(log: seq<Entry>, paymentScriptHash: string): (r: seq<Entry>)
    ensures OneLatestPerAsset(log, PaymentScript(paymentScriptHash), r)
    ensures forall x :: x in r ==> x.snap.paymentScriptHash == paymentScriptHash
  {
    LatestRowsPerAsset(log, PaymentScript(paymentScriptHash));
    FindAllLatestByPaymentScriptHash(log, paymentScriptHash)
  }

  /** getLatestBalancesByStakeKey: only rows carrying that stake key. */
  function GetLatestBalancesByStakeKey(log: seq<Entry>, stakeKeyHash: string): (r: seq<Entry>)
    ensures OneLatestPerAsset(log, StakeKey(stakeKeyHash), r)
    ensures forall x :: x in r ==> x.snap.stakeKeyHash == Some(stakeKeyHash)
  {
    LatestRowsPerAsset(log, StakeKey(stakeKeyHash));
    FindAllLatestByStakeKeyHash(log, stakeKeyHash)
  }

  /** getLatestBalancesByPaymentScriptAndStakeKey: only rows matching both. */
  function GetLatestBalancesByPaymentScriptAndStakeKey(log: seq<Entry>, paymentScriptHash: string,
                                                       stakeKeyHash: string): (r: seq<Entry>)
    ensures OneLatestPerAsset(log, PaymentScriptAndStakeKey(paymentScriptHash, stakeKeyHash), r)
    ensures forall x :: x in r ==>
      x.snap.paymentScriptHash == paymentScriptHash && x.snap.stakeKeyHash == Some(stakeKeyHash)
  {
    LatestRowsPerAsset(log, PaymentScriptAndStakeKey(paymentScriptHash, stakeKeyHash));
    FindAllLatestByPaymentScriptHashAndStakeKeyHash(log, paymentScriptHash, stakeKeyHash)
  }

  /**
   * getProgrammableTokenBalances: only programmable rows, and a programmable asset's row is its
   * latest programmable one even when a later row of it is not flagged.
   */
  function GetProgrammableTokenBalances(log: seq<Entry>, address: string): (r: seq<Entry>)
    ensures OneLatestPerAsset(log, ProgrammableAtAddress(address), r)
    ensures forall x :: x in r ==> x.snap.address == address && x.snap.isProgrammableToken
  {
    LatestRowsPerAsset(log, ProgrammableAtAddress(address));
    FindProgrammableTokenBalancesByAddress(log, address)
  }

  /** getBalancesByTransaction: with unique keys, one row per (address, asset) of the transaction. */
  function GetBalancesByTransaction(log: seq<Entry>, txHash: string): (r: seq<Entry>)
    ensures Sorted(ByAssetKey, r)
    ensures forall x :: x in r <==> x in log && x.snap.txHash == txHash
    ensures IdsIncreasing(log) && KeysUnique(log) ==>
      forall i, j :: 0 <= i < j < |r| ==> KeyOf(r[i].snap) != KeyOf(r[j].snap)
  {
    var r := FindAllByTxHash(log, txHash);
    assert forall x :: x in r <==> x in log && x.snap.txHash == txHash by {
      forall x ensures x in r <==> x in log && x.snap.txHash == txHash {
        assert x in r <==> multiset(r)[x] > 0;
      }
    }
    assert IdsIncreasing(log) && KeysUnique(log) ==>
      forall i, j :: 0 <= i < j < |r| ==> KeyOf(r[i].snap) != KeyOf(r[j].snap) by {
      if IdsIncreasing(log) && KeysUnique(log) {
        forall i, j | 0 <= i < j < |r| ensures KeyOf(r[i].snap) != KeyOf(r[j].snap) {
          if KeyOf(r[i].snap) == KeyOf(r[j].snap) {
            assert r[i] in r && r[j] in r;
            var a :| 0 <= a < |log| && log[a] == r[i];
            var b :| 0 <= b < |log| && log[b] == r[j];
            assert UniqueKeyOf(log[a].snap) == UniqueKeyOf(log[b].snap);
            assert a == b;
            TwoPositions(r, i, j);
            IncreasingCountsOnce(log, r[i]);
            assert false;
          }
        }
      }
    }
    r
  }

  /** calculateBalanceDiff: the change from the previous row, or the whole balance for a first row. */
  function CalculateBalanceDiff(current: Entry, previous: Option<Entry>): (r: int)
    ensures previous.None? ==> r == current.snap.quantity
    ensures previous.Some? ==> previous.value.snap.quantity + r == current.snap.quantity
  {
    if previous.None? then current.snap.quantity
    else current.snap.quantity - previous.value.snap.quantity
  }

  /** The first row of `s`, in order, whose id differs from `id`. */
  function FirstWithOtherId(s: seq<Entry>, id: nat): (r: Option<Entry>)
    ensures r.None? <==> forall x :: x in s ==> x.id == id
    ensures r.Some? ==>
      exists k :: 0 <= k < |s| && s[k] == r.value && r.value.id != id && forall j :: 0 <= j < k ==> s[j].id == id
  {
    if s == [] then None
    else if s[0].id != id then Some(s[0])
    else
      var r := FirstWithOtherId(s[1..], id);
      assert s == [s[0]] + s[1..];
      assert r.Some? ==>
        exists k :: 0 <= k < |s| && s[k] == r.value && r.value.id != id && forall j :: 0 <= j < k ==> s[j].id == id by {
        if r.Some? {
          var k :| 0 <= k < |s[1..]| && s[1..][k] == r.value && r.value.id != id
            && forall j :: 0 <= j < k ==> s[1..][j].id == id;
          assert s[k + 1] == r.value;
          assert forall j :: 0 < j < k + 1 ==> s[j] == s[1..][j - 1];
        }
      }
      r
  }

  /**
   * getPreviousBalance: among the two newest rows of the entry's (address, asset) by slot, the
   * first whose id is not the entry's own.
   */
  function PreviousBalance(log: seq<Entry>, e: Entry): (r: Option<Entry>)
    ensures r.Some? ==> r.value in log && KeyOf(r.value.snap) == KeyOf(e.snap) && r.value.id != e.id
  {
    FirstWithOtherId(FindHistoryByAddressAndAsset(log, e.snap.address, e.snap.policyId, e.snap.assetName, 2), e.id)
  }

  method GetPreviousBalance(repo: BalanceLogTable, e: Entry) returns (r: Option<Entry>)
    ensures r == PreviousBalance(repo.entries, e)
  {
    var history := FindHistoryByAddressAndAsset(repo.entries, e.snap.address, e.snap.policyId, e.snap.assetName, 2);
    var i := 0;
    while i < |history|
      invariant 0 <= i <= |history|
      invariant FirstWithOtherId(history, e.id) == FirstWithOtherId(history[i..], e.id)
    {
      if history[i].id != e.id {
        return Some(history[i]);
      }
      assert history[i..][1..] == history[i + 1..];
      i := i + 1;
    }
    return None;
  }

  /**
   * The rows of one (address, asset) are at most one per slot and in slot order: the shape the
   * listener produces when no two transactions of one slot change the same balance.
   */
  predicate SlotsIncrease(log: seq<Entry>, k: AssetKey) {
    forall i, j :: 0 <= i < j < |log| && KeyOf(log[i].snap) == k && KeyOf(log[j].snap) == k
      ==> log[i].snap.slot < log[j].snap.slot
  }

  /**
   * For a row just appended at a later slot than every stored row of its asset, the previous
   * balance is the latest balance before the append, and the difference is the recorded change.
   */
  lemma PreviousOfAppended(log: seq<Entry>, e: Entry)
    requires IdsIncreasing(log + [e]) && SlotsIncrease(log + [e], KeyOf(e.snap))
    ensures PreviousBalance(log + [e], e) == GetLatestBalance(log, e.snap.address, e.snap.policyId, e.snap.assetName)
  {
    if Select(log, AddressAndAsset(e.snap.address, e.snap.policyId, e.snap.assetName)) == [] {
      PreviousOfFirstRow(log, e);
    } else {
      PreviousOfLaterRow(log, e);
    }
  }

  /** The first row of a balance has no previous balance, and nothing was stored before it. */
  lemma PreviousOfFirstRow(log: seq<Entry>, e: Entry)
    requires IdsIncreasing(log + [e]) && SlotsIncrease(log + [e], KeyOf(e.snap))
    requires Select(log, AddressAndAsset(e.snap.address, e.snap.policyId, e.snap.assetName)) == []
    ensures PreviousBalance(log + [e], e) == None
    ensures GetLatestBalance(log, e.snap.address, e.snap.policyId, e.snap.assetName) == None
  {
    var h := HistoryAfterAppend(log, e);
    assert FirstWithOtherId(h, e.id) == None;
    assert forall y :: y in log ==> !Matches(AddressAndAsset(e.snap.address, e.snap.policyId, e.snap.assetName), y.snap);
  }

  /** A later row's previous balance is the latest balance stored before it. */
  lemma PreviousOfLaterRow(log: seq<Entry>, e: Entry)
    requires IdsIncreasing(log + [e]) && SlotsIncrease(log + [e], KeyOf(e.snap))
    requires Select(log, AddressAndAsset(e.snap.address, e.snap.policyId, e.snap.assetName)) != []
    ensures PreviousBalance(log + [e], e) == GetLatestBalance(log, e.snap.address, e.snap.policyId, e.snap.assetName)
  {
    var h := HistoryAfterAppend(log, e);
    FirstWithOtherIdOfPair(h, e.id);
    assert PreviousBalance(log + [e], e) == Some(h[1]);
    NewestBySlotIsLatest(log, e, h[1]);
  }

  lemma FirstWithOtherIdOfPair(h: seq<Entry>, id: nat)
    requires |h| == 2 && h[0].id == id && h[1].id != id
    ensures FirstWithOtherId(h, id) == Some(h[1])
  {
    assert h[1..][0] == h[1];
  }

  /** Under distinct slots the row of greatest slot is the latest balance. */
  lemma NewestBySlotIsLatest(log: seq<Entry>, e: Entry, p: Entry)
    requires SlotsIncrease(log + [e], KeyOf(e.snap))
    requires var prior := Select(log, AddressAndAsset(e.snap.address, e.snap.policyId, e.snap.assetName));
      p in prior && forall y :: y in prior && y != p ==> p.snap.slot >= y.snap.slot
    ensures GetLatestBalance(log, e.snap.address, e.snap.policyId, e.snap.assetName) == Some(p)
  {
    var g := GetLatestBalance(log, e.snap.address, e.snap.policyId, e.snap.assetName);
    var q := g.value;
    assert Before(NewestFirst, q, p);
    if p != q {
      SlotsDistinct(log + [e], KeyOf(e.snap), p, q);
    }
  }

  /** The two newest rows by slot right after `e` is appended: `e`, then the newest earlier row. */
  lemma HistoryAfterAppend(log: seq<Entry>, e: Entry) returns (h: seq<Entry>)
    requires IdsIncreasing(log + [e]) && SlotsIncrease(log + [e], KeyOf(e.snap))
    ensures var prior := Select(log, AddressAndAsset(e.snap.address, e.snap.policyId, e.snap.assetName));
      && h == FindHistoryByAddressAndAsset(log + [e], e.snap.address, e.snap.policyId, e.snap.assetName, 2)
      && (prior == [] ==> h == [e])
      && (prior != [] ==> |h| == 2 && h[0] == e && h[1] in prior && h[1].id != e.id
                          && forall y :: y in prior && y != h[1] ==> h[1].snap.slot >= y.snap.slot)
  {
    var prior := Select(log, AddressAndAsset(e.snap.address, e.snap.policyId, e.snap.assetName));
    AppendedIsNewest(log, e);
    AppendedIsUnique(log, e);
    HistoryAfterAppendIsPage(log, e);
    h := PageOfTwoAfterAppend(prior, e);
  }

  lemma AppendedIsNewest(log: seq<Entry>, e: Entry)
    requires IdsIncreasing(log + [e]) && SlotsIncrease(log + [e], KeyOf(e.snap))
    ensures forall y :: y in log ==> y.id < e.id && (KeyOf(y.snap) == KeyOf(e.snap) ==> y.snap.slot < e.snap.slot)
  {
    var log' := log + [e];
    forall y | y in log ensures y.id < e.id && (KeyOf(y.snap) == KeyOf(e.snap) ==> y.snap.slot < e.snap.slot) {
      var a :| 0 <= a < |log| && log[a] == y;
      assert log'[a] == y && log'[|log|] == e;
    }
  }

  lemma AppendedIsUnique(log: seq<Entry>, e: Entry)
    requires forall y :: y in log ==> y.id < e.id && (KeyOf(y.snap) == KeyOf(e.snap) ==> y.snap.slot < e.snap.slot)
    ensures var all := Select(log, AddressAndAsset(e.snap.address, e.snap.policyId, e.snap.assetName)) + [e];
      e in all && multiset(all)[e] == 1 && forall y :: y in all && y != e ==> y.snap.slot < e.snap.slot
  {
    assert e !in Select(log, AddressAndAsset(e.snap.address, e.snap.policyId, e.snap.assetName));
  }

  lemma HistoryAfterAppendIsPage(log: seq<Entry>, e: Entry)
    ensures var c := AddressAndAsset(e.snap.address, e.snap.policyId, e.snap.assetName);
      FindHistoryByAddressAndAsset(log + [e], e.snap.address, e.snap.policyId, e.snap.assetName, 2)
      == Page(SlotDesc, Select(log, c) + [e], 2)
  {
    SelectAppend(log, e, AddressAndAsset(e.snap.address, e.snap.policyId, e.snap.assetName));
  }

  lemma SlotsDistinct(log: seq<Entry>, k: AssetKey, p: Entry, q: Entry)
    requires SlotsIncrease(log, k) && p in log && q in log && p != q
    requires KeyOf(p.snap) == k && KeyOf(q.snap) == k
    ensures p.snap.slot != q.snap.slot
  {
    var a :| 0 <= a < |log| && log[a] == p;
    var b :| 0 <= b < |log| && log[b] == q;
  }

  /**
   * getPreviousBalance of a row that is not its balance's newest returns a newer row: the page
   * of two holds the newest rows, and the first whose id differs is the one stored after it.
   */
  lemma PreviousOfOlderRowIsNewer(e1: Entry, e2: Entry)
    requires KeyOf(e1.snap) == KeyOf(e2.snap) && e1.id != e2.id && e1.snap.slot < e2.snap.slot
    ensures PreviousBalance([e1, e2], e1) == Some(e2)
    ensures e2.snap.slot > e1.snap.slot
  {
    var h := HistoryOfPair(e1, e2);
    assert [e1] + [e2] == [e1, e2];
    assert h[0] == e2;
  }

  /** The history page of two rows of one balance, newest first. */
  lemma HistoryOfPair(e1: Entry, e2: Entry) returns (h: seq<Entry>)
    requires KeyOf(e1.snap) == KeyOf(e2.snap) && e1.id != e2.id && e1.snap.slot < e2.snap.slot
    ensures h == FindHistoryByAddressAndAsset([e1] + [e2], e1.snap.address, e1.snap.policyId, e1.snap.assetName, 2)
    ensures |h| == 2 && h[0] == e2
  {
    SelectOne(e1, AddressAndAsset(e1.snap.address, e1.snap.policyId, e1.snap.assetName));
    HistoryAfterAppendIsPage([e1], e2);
    PairCounts(e1, e2);
    h := PageOfTwoAfterAppend([e1], e2);
  }

  lemma SelectOne(e: Entry, c: Criterion)
    requires Matches(c, e.snap)
    ensures Select([e], c) == [e]
  {
    SelectAppend([], e, c);
    assert [] + [e] == [e];
  }

  lemma PairCounts(e1: Entry, e2: Entry)
    requires e1.id != e2.id
    ensures multiset([e1] + [e2])[e2] == 1
    ensures forall y :: y in [e1] + [e2] && y != e2 ==> y == e1
  {
    assert [e1] + [e2] == [e1, e2];
  }

  /** `y` comes before `e` in the balance's history: an earlier slot, or the same slot and a smaller id. */
  predicate Older(y: Entry, e: Entry) {
    y.snap.slot < e.snap.slot || (y.snap.slot == e.snap.slot && y.id < e.id)
  }

  /** The stored rows that come before `e`, in stored order. */
  function RowsOlderThan(log: seq<Entry>, e: Entry): (r: seq<Entry>)
    ensures forall x :: x in r <==> x in log && Older(x, e)
    decreases |log|
  {
    if log == [] then []
    else
      var last := log[|log| - 1];
      assert log == log[..|log| - 1] + [last];
      var init := RowsOlderThan(log[..|log| - 1], e);
      if Older(last, e) then init + [last] else init
  }

  /**
   * The previous balance as documented ("the entry before this one"): the newest row of the same
   * balance that comes before `e`, or none when `e` is its first row.
   */
  function PriorBalance(log: seq<Entry>, e: Entry): (r: Option<Entry>)
    ensures r.Some? ==> r.value in log && KeyOf(r.value.snap) == KeyOf(e.snap) && Older(r.value, e)
    ensures r.None? <==> forall y :: y in log && KeyOf(y.snap) == KeyOf(e.snap) ==> !Older(y, e)
    ensures r.Some? ==> forall y :: y in log && KeyOf(y.snap) == KeyOf(e.snap) && Older(y, e) ==> Before(NewestFirst, r.value, y)
  {
    GetLatestBalance(RowsOlderThan(log, e), e.snap.address, e.snap.policyId, e.snap.assetName)
  }

  /** For the first of two rows of one balance, PriorBalance finds nothing, as documented. */
  lemma PriorOfFirstRow(e1: Entry, e2: Entry)
    requires KeyOf(e1.snap) == KeyOf(e2.snap) && e1.snap.slot < e2.snap.slot
    ensures PriorBalance([e1, e2], e1) == None
  {
  }

  lemma {:induction false} RowsOlderConcat(a: seq<Entry>, b: seq<Entry>, e: Entry)
    ensures RowsOlderThan(a + b, e) == RowsOlderThan(a, e) + RowsOlderThan(b, e)
    decreases |b|
  {
    if b == [] {
      assert a + b == a;
    } else {
      var init := b[..|b| - 1];
      RowsOlderConcat(a, init, e);
      assert (a + b)[..|a + b| - 1] == a + init;
    }
  }

  lemma {:induction false} RowsOlderAll(log: seq<Entry>, e: Entry)
    requires forall j :: 0 <= j < |log| ==> Older(log[j], e)
    ensures RowsOlderThan(log, e) == log
    decreases |log|
  {
    if log != [] {
      var init := log[..|log| - 1];
      assert forall j :: 0 <= j < |init| ==> init[j] == log[j];
      RowsOlderAll(init, e);
    }
  }

  lemma {:induction false} RowsOlderNone(log: seq<Entry>, e: Entry)
    requires forall j :: 0 <= j < |log| ==> !Older(log[j], e)
    ensures RowsOlderThan(log, e) == []
    decreases |log|
  {
    if log != [] {
      var init := log[..|log| - 1];
      assert forall j :: 0 <= j < |init| ==> init[j] == log[j];
      RowsOlderNone(init, e);
    }
  }

  /** For a row appended after every stored row, the prior balance is the latest balance before it. */
  lemma PriorOfAppended(log: seq<Entry>, e: Entry)
    requires forall j :: 0 <= j < |log| ==> Older(log[j], e)
    ensures PriorBalance(log + [e], e) == GetLatestBalance(log, e.snap.address, e.snap.policyId, e.snap.assetName)
  {
    RowsOlderConcat(log, [e], e);
    RowsOlderAll(log, e);
    RowsOlderNone([e], e);
    assert log + [] == log;
  }

  /**
   * For row i of a batch written at one slot with consecutive ids after every stored id, the rows
   * before it are the stored ones (none at a later slot) and the batch rows ahead of it.
   */
  lemma RowsOlderThanBatchRow(prior: seq<Entry>, rows: seq<Entry>, i: nat, base: nat, slot: int)
    requires forall j :: 0 <= j < |prior| ==> prior[j].id < base && prior[j].snap.slot <= slot
    requires forall j :: 0 <= j < |rows| ==> rows[j].id == base + j && rows[j].snap.slot == slot
    requires i < |rows|
    ensures RowsOlderThan(prior + rows, rows[i]) == prior + rows[..i]
  {
    var e := rows[i];
    RowsOlderConcat(prior, rows, e);
    RowsOlderAll(prior, e);
    BatchRowsOlder(rows, i, base, slot);
  }

  /** Within a batch at one slot with consecutive ids, the rows before row i are the ones ahead of it. */
  lemma BatchRowsOlder(rows: seq<Entry>, i: nat, base: nat, slot: int)
    requires forall j :: 0 <= j < |rows| ==> rows[j].id == base + j && rows[j].snap.slot == slot
    requires i < |rows|
    ensures RowsOlderThan(rows, rows[i]) == rows[..i]
  {
    var e := rows[i];
    SplitAt(rows, i);
    RowsOlderConcat(rows[..i], rows[i..], e);
    BatchAheadOlder(rows, i, base, slot);
    BatchLaterNotOlder(rows, i, base, slot);
    assert rows[..i] + [] == rows[..i];
  }

  lemma SplitAt(s: seq<Entry>, i: nat)
    requires i <= |s|
    ensures s == s[..i] + s[i..]
  {
  }

  lemma BatchAheadOlder(rows: seq<Entry>, i: nat, base: nat, slot: int)
    requires forall j :: 0 <= j < |rows| ==> rows[j].id == base + j && rows[j].snap.slot == slot
    requires i < |rows|
    ensures RowsOlderThan(rows[..i], rows[i]) == rows[..i]
  {
    var ahead := rows[..i];
    assert forall j :: 0 <= j < |ahead| ==> ahead[j] == rows[j];
    RowsOlderAll(ahead, rows[i]);
  }

  lemma BatchLaterNotOlder(rows: seq<Entry>, i: nat, base: nat, slot: int)
    requires forall j :: 0 <= j < |rows| ==> rows[j].id == base + j && rows[j].snap.slot == slot
    requires i < |rows|
    ensures RowsOlderThan(rows[i..], rows[i]) == []
  {
    var later := rows[i..];
    assert forall j :: 0 <= j < |later| ==> later[j] == rows[i + j];
    RowsOlderNone(later, rows[i]);
  }
}
