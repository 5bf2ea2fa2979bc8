/**
 * The two ORDER BY clauses of the balance-log queries, as total preorders on entries, and the
 * sorting and paging the database applies to a query's rows.
 */
module BalanceLogOrder {
  import opened Optional
  import opened JavaStrings
  import opened BalanceLogEntity

  /**
   * NewestFirst is `ORDER BY slot DESC, id DESC`; SlotDesc is `ORDER BY slot DESC`, which leaves
   * the rows of one slot in an order the database chooses (the sort below fixes one);
   * ByAssetKey is `ORDER BY address, policyId, assetName` in an order of the model's choosing:
   * character order with a null name first, where the database's collation decides the real one.
   */
  datatype Ordering = NewestFirst | SlotDesc | ByAssetKey

  /** Null before any name; otherwise String.compareTo. */
  predicate AssetNameAtMost(a: Option<string>, b: Option<string>) {
    match (a, b)
    case (None, _) => true
    case (Some(_), None) => false
    case (Some(x), Some(y)) => x == y || Less(x, y)
  }

  predicate AssetKeyAtMost(a: Snapshot, b: Snapshot) {
    || Less(a.address, b.address)
    || (a.address == b.address && Less(a.policyId, b.policyId))
    || (a.address == b.address && a.policyId == b.policyId && AssetNameAtMost(a.assetName, b.assetName))
  }

  /** `a` may come before `b` in the order `o`. */
  predicate Before(o: Ordering, a: Entry, b: Entry) {
    match o
    case NewestFirst => a.snap.slot > b.snap.slot || (a.snap.slot == b.snap.slot && a.id >= b.id)
    case SlotDesc => a.snap.slot >= b.snap.slot
    case ByAssetKey => AssetKeyAtMost(a.snap, b.snap)
  }

  lemma BeforeTotal(o: Ordering, a: Entry, b: Entry)
    ensures Before(o, a, b) || Before(o, b, a)
  {
    if o == ByAssetKey {
      LessTotal(a.snap.address, b.snap.address);
      LessTotal(a.snap.policyId, b.snap.policyId);
      if a.snap.assetName.Some? && b.snap.assetName.Some? {
        LessTotal(a.snap.assetName.value, b.snap.assetName.value);
      }
    }
  }

  lemma AssetNameAtMostTransitive(a: Option<string>, b: Option<string>, c: Option<string>)
    requires AssetNameAtMost(a, b) && AssetNameAtMost(b, c)
    ensures AssetNameAtMost(a, c)
  {
    if a.Some? && b.Some? && c.Some? && a != b && b != c {
      LessTransitive(a.value, b.value, c.value);
    }
  }

  lemma BeforeTransitive(o: Ordering, a: Entry, b: Entry, c: Entry)
    requires Before(o, a, b) && Before(o, b, c)
    ensures Before(o, a, c)
  {
    if o == ByAssetKey {
      var x, y, z := a.snap, b.snap, c.snap;
      if Less(x.address, y.address) && Less(y.address, z.address) {
        LessTransitive(x.address, y.address, z.address);
      } else if x.address == y.address && y.address == z.address {
        if Less(x.policyId, y.policyId) && Less(y.policyId, z.policyId) {
          LessTransitive(x.policyId, y.policyId, z.policyId);
        } else if x.policyId == y.policyId && y.policyId == z.policyId {
          AssetNameAtMostTransitive(x.assetName, y.assetName, z.assetName);
        }
      }
    }
  }

  /** Under NewestFirst two entries that may each come first have the same id. */
  lemma NewestFirstAntisymmetric(a: Entry, b: Entry)
    requires Before(NewestFirst, a, b) && Before(NewestFirst, b, a)
    ensures a.id == b.id
  {
  }

  predicate Sorted(o: Ordering, s: seq<Entry>) {
    forall i, j :: 0 <= i < j < |s| ==> Before(o, s[i], s[j])
  }

  /** Places `e` before the first element it may precede. */
  function Insert(o: Ordering, e: Entry, s: seq<Entry>): (r: seq<Entry>)
    requires Sorted(o, s)
    ensures Sorted(o, r)
    ensures multiset(r) == multiset(s) + multiset{e}
  {
    if s == [] then [e]
    else if Before(o, e, s[0]) then
      PrecedesSorted(o, e, s);
      [e] + s
    else
      BeforeTotal(o, e, s[0]);
      var rest := Insert(o, e, s[1..]);
      assert s == [s[0]] + s[1..];
      assert forall j :: 0 <= j < |s[1..]| ==> Before(o, s[0], s[1..][j]) by {
        forall j | 0 <= j < |s[1..]| ensures Before(o, s[0], s[1..][j]) {
          assert s[1..][j] == s[j + 1];
        }
      }
      HeadPrecedesInserted(o, s[0], e, s[1..], rest);
      [s[0]] + rest
  }

  /** An element that may precede the head of a sorted sequence may precede all of it. */
  lemma PrecedesSorted(o: Ordering, e: Entry, s: seq<Entry>)
    requires Sorted(o, s) && s != [] && Before(o, e, s[0])
    ensures forall j :: 0 <= j < |s| ==> Before(o, e, s[j])
  {
    forall j | 0 < j < |s| ensures Before(o, e, s[j]) {
      BeforeTransitive(o, e, s[0], s[j]);
    }
  }

  /** An element that precedes all of `tail` and `e` precedes every permutation of them. */
  lemma HeadPrecedesInserted(o: Ordering, h: Entry, e: Entry, tail: seq<Entry>, rest: seq<Entry>)
    requires forall j :: 0 <= j < |tail| ==> Before(o, h, tail[j])
    requires Before(o, h, e) && multiset(rest) == multiset(tail) + multiset{e}
    ensures forall j :: 0 <= j < |rest| ==> Before(o, h, rest[j])
  {
    forall j | 0 <= j < |rest| ensures Before(o, h, rest[j]) {
      assert rest[j] in multiset(rest);
      if rest[j] != e {
        assert rest[j] in multiset(tail);
        var k :| 0 <= k < |tail| && tail[k] == rest[j];
      }
    }
  }

  /** The rows of a query in the order `o`: a sorted permutation of `s`. */
  function Sort(o: Ordering, s: seq<Entry>): (r: seq<Entry>)
    ensures Sorted(o, r)
    ensures multiset(r) == multiset(s)
    ensures |r| == |s|
  {
    if s == [] then []
    else
      assert s == s[..|s| - 1] + [s[|s| - 1]];
      var r := Insert(o, s[|s| - 1], Sort(o, s[..|s| - 1]));
      assert |multiset(r)| == |r| && |multiset(s)| == |s|;
      r
  }

  /** The row that comes first in the order `o`, a later row of `s` winning a tie. */
  function Top(o: Ordering, s: seq<Entry>): (r: Entry)
    requires s != []
    ensures r in s
    decreases |s|
  {
    if |s| == 1 then s[0]
    else
      var rest := Top(o, s[..|s| - 1]);
      assert rest in s[..|s| - 1];
      if Before(o, s[|s| - 1], rest) then s[|s| - 1] else rest
  }

  lemma TopSnoc(o: Ordering, s: seq<Entry>, e: Entry)
    requires s != []
    ensures Top(o, s + [e]) == if Before(o, e, Top(o, s)) then e else Top(o, s)
  {
    assert (s + [e])[..|s|] == s;
  }

  /** Inserting into a sorted sequence puts `e` first exactly when it may precede the old head. */
  lemma InsertHead(o: Ordering, e: Entry, s: seq<Entry>)
    requires Sorted(o, s) && s != []
    ensures Insert(o, e, s)[0] == if Before(o, e, s[0]) then e else s[0]
  {
  }

  /** The sort puts the row `Top` picks first. */
  lemma {:induction false} SortHeadIsTop(o: Ordering, s: seq<Entry>)
    requires s != []
    ensures Sort(o, s)[0] == Top(o, s)
    decreases |s|
  {
    var init, last := s[..|s| - 1], s[|s| - 1];
    if |s| > 1 {
      SortHeadIsTop(o, init);
      InsertHead(o, last, Sort(o, init));
    }
  }

  /** The page of size `n` starting at offset 0 (PageRequest.of(0, n)). */
  type PageSize = n: int | n >= 1 witness 1

  function Take(s: seq<Entry>, n: PageSize): (r: seq<Entry>)
    ensures |r| == if n < |s| then n else |s|
    ensures r == s[..|r|]
  {
    if n < |s| then s[..n] else s
  }

  /** The first rows of a query in the order `o`: the `n` rows that come first among `s`. */
  function Page(o: Ordering, s: seq<Entry>, n: PageSize): (r: seq<Entry>)
    ensures Sorted(o, r)
    ensures |r| == if n < |s| then n else |s|
    ensures multiset(r) <= multiset(s)
    ensures forall x, y :: x in r && y in multiset(s) - multiset(r) ==> Before(o, x, y)
  {
    var sorted := Sort(o, s);
    var r := Take(sorted, n);
    PrefixPrecedesRest(o, sorted, |r|);
    r
  }

  /** A prefix of a sorted sequence is sorted and may precede every row left out of it. */
  lemma PrefixPrecedesRest(o: Ordering, sorted: seq<Entry>, k: nat)
    requires Sorted(o, sorted) && k <= |sorted|
    ensures Sorted(o, sorted[..k])
    ensures multiset(sorted[..k]) <= multiset(sorted)
    ensures forall x, y :: x in sorted[..k] && y in multiset(sorted) - multiset(sorted[..k]) ==> Before(o, x, y)
  {
    var r, rest := sorted[..k], sorted[k..];
    assert sorted == r + rest;
    assert multiset(sorted) == multiset(r) + multiset(rest);
    forall x, y | x in r && y in multiset(sorted) - multiset(r) ensures Before(o, x, y) {
      assert y in rest;
      var i :| 0 <= i < k && r[i] == x;
      var j :| 0 <= j < |rest| && rest[j] == y;
      assert sorted[i] == x && sorted[k + j] == y;
    }
  }

  /** In a page by slot, no row left out has a greater slot than a row on the page. */
  lemma PageBySlot(s: seq<Entry>, n: PageSize)
    ensures forall x, y :: x in Page(SlotDesc, s, n) && y in multiset(s) - multiset(Page(SlotDesc, s, n))
                           ==> x.snap.slot >= y.snap.slot
  {
  }

  /** Every row of a page is a row of the query. */
  lemma PageWithin(o: Ordering, s: seq<Entry>, n: PageSize)
    ensures forall x :: x in Page(o, s, n) ==> x in s
  {
    var r := Page(o, s, n);
    forall x | x in r ensures x in s {
      assert x in multiset(r);
    }
  }

  /** A page of one row holds a row that may precede every row of `s`. */
  lemma PageOfOne(o: Ordering, s: seq<Entry>)
    requires s != []
    ensures |Page(o, s, 1)| == 1 && Page(o, s, 1)[0] in s
    ensures forall y :: y in s ==> Before(o, Page(o, s, 1)[0], y)
  {
    var r := Page(o, s, 1);
    var x := r[0];
    assert r == [x];
    assert x in multiset(s);
    forall y | y in s ensures Before(o, x, y) {
      assert y in multiset(s);
      if y == x {
        BeforeTotal(o, x, x);
      } else {
        assert y in multiset(s) - multiset(r);
      }
    }
  }

  /**
   * When one row of `s` has a strictly greater slot than all others, the page of two rows by
   * slot starts with it, followed by a row of the greatest slot among the others.
   */
  lemma PageOfTwoAfterNewest(s: seq<Entry>, e: Entry)
    requires e in s && multiset(s)[e] == 1
    requires forall y :: y in s && y != e ==> y.snap.slot < e.snap.slot
    ensures var h := Page(SlotDesc, s, 2);
      && |h| == (if |s| == 1 then 1 else 2) && h[0] == e
      && (|s| >= 2 ==> h[1] in s && h[1] != e
                       && forall y :: y in s && y != e && y != h[1] ==> h[1].snap.slot >= y.snap.slot)
  {
    var h := Page(SlotDesc, s, 2);
    NewestHeadsPage(s, e, h);
    if |s| >= 2 {
      assert h == [e, h[1]];
      SecondOfPage(s, e, h);
    }
  }

  lemma NewestHeadsPage(s: seq<Entry>, e: Entry, h: seq<Entry>)
    requires e in s && forall y :: y in s && y != e ==> y.snap.slot < e.snap.slot
    requires h == Page(SlotDesc, s, 2)
    ensures |h| == (if |s| == 1 then 1 else 2) && h[0] == e
  {
    assert h[0] in multiset(s);
    if e in h {
      var k :| 0 <= k < |h| && h[k] == e;
      if k > 0 { assert Before(SlotDesc, h[0], h[k]); }
    } else {
      assert e in multiset(s) - multiset(h);
    }
  }

  lemma SecondOfPage(s: seq<Entry>, e: Entry, h: seq<Entry>)
    requires e in s && multiset(s)[e] == 1
    requires h == Page(SlotDesc, s, 2) && |h| == 2 && h == [e, h[1]]
    ensures h[1] in s && h[1] != e
    ensures forall y :: y in s && y != e && y != h[1] ==> h[1].snap.slot >= y.snap.slot
  {
    assert h[1] in multiset(s);
    assert multiset(h) == multiset{e, h[1]};
    forall y | y in s && y != e && y != h[1] ensures h[1].snap.slot >= y.snap.slot {
      assert multiset(h)[y] == 0;
      assert y in multiset(s) - multiset(h);
    }
  }

  /** PageOfTwoAfterNewest for rows stored before a newer one. */
  lemma PageOfTwoAfterAppend(prior: seq<Entry>, e: Entry) returns (h: seq<Entry>)
    requires multiset(prior + [e])[e] == 1
    requires forall y :: y in prior + [e] && y != e ==> y.snap.slot < e.snap.slot
    ensures h == Page(SlotDesc, prior + [e], 2)
    ensures prior == [] ==> h == [e]
    ensures prior != [] ==>
      |h| == 2 && h[0] == e && h[1] in prior && forall y :: y in prior && y != h[1] ==> h[1].snap.slot >= y.snap.slot
  {
    PageOfTwoAfterNewest(prior + [e], e);
    h := Page(SlotDesc, prior + [e], 2);
  }

  /** The first element of a sorted sequence may precede every element of it. */
  lemma SortedHeadFirst(o: Ordering, s: seq<Entry>, y: Entry)
    requires Sorted(o, s) && |s| > 0 && y in s
    ensures Before(o, s[0], y)
  {
    var j :| 0 <= j < |s| && s[j] == y;
    if j == 0 { BeforeTotal(o, y, y); }
  }
}
