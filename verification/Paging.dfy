/** Ranked listings and their pages: which answers the missing tie-break leaves open, what laying
    pages end to end gives all the same, and when it gives what one request would have. */
module Paging {
  import opened Models
  import opened Tables
  import opened QueryBuilder

  // ---- Listing rows one by one ----

  ghost predicate RanksFirst(t: RoomTable, keys: set<Id>, m: Id)
    requires keys <= t.Keys
  {
    m in keys && forall k :: k in keys ==> RanksBefore(t[m], t[k])
  }

  lemma {:induction false} SomeRowRanksFirst(t: RoomTable, keys: set<Id>)
    requires keys != {} && keys <= t.Keys
    ensures exists m :: RanksFirst(t, keys, m)
    decreases |keys|
  {
    var k :| k in keys;
    if keys == {k} {
      assert RanksFirst(t, keys, k);
    } else {
      SomeRowRanksFirst(t, keys - {k});
      var n :| RanksFirst(t, keys - {k}, n);
      assert RanksFirst(t, keys, if RanksBefore(t[n], t[k]) then n else k);
    }
  }

  /** The rows listed so far are those no longer left, each once. */
  ghost predicate Listed(listing: seq<RoomRow>, t: RoomTable, keys: set<Id>, left: set<Id>) {
    left <= keys <= t.Keys && IsListing(listing, t, keys - left)
  }

  /** They are ranked, and all before what is left. */
  ghost predicate RankedBefore(listing: seq<RoomRow>, t: RoomTable, left: set<Id>)
    requires left <= t.Keys
  {
    Ranked(listing) && forall i, k :: 0 <= i < |listing| && k in left ==> RanksBefore(listing[i], t[k])
  }

  lemma ListedExtends(listing: seq<RoomRow>, t: RoomTable, keys: set<Id>, left: set<Id>, m: Id)
    requires Listed(listing, t, keys, left) && m in left
    ensures Listed(listing + [t[m]], t, keys, left - {m})
  {
    var longer := listing + [t[m]];
    forall k | k in keys - (left - {m}) ensures t[k] in longer {
      if k == m {
        assert longer[|listing|] == t[k];
      } else {
        assert t[k] in listing;
      }
    }
  }

  lemma RankedExtends(listing: seq<RoomRow>, t: RoomTable, left: set<Id>, m: Id)
    requires left <= t.Keys && RankedBefore(listing, t, left) && RanksFirst(t, left, m)
    ensures RankedBefore(listing + [t[m]], t, left - {m})
  {
  }

  lemma RankingFrom(listing: seq<RoomRow>, t: RoomTable, keys: set<Id>, left: set<Id>) returns (whole: seq<RoomRow>)
    requires Listed(listing, t, keys, left) && RankedBefore(listing, t, left)
    ensures IsRanking(whole, t, keys)
    decreases left
  {
    if left == {} {
      assert keys - {} == keys;
      whole := listing;
    } else {
      SomeRowRanksFirst(t, left);
      var m :| RanksFirst(t, left, m);
      ListedExtends(listing, t, keys, left, m);
      RankedExtends(listing, t, left, m);
      whole := RankingFrom(listing + [t[m]], t, keys, left - {m});
    }
  }

  lemma RankingExists(t: RoomTable, keep: set<Id>) returns (whole: seq<RoomRow>)
    requires keep <= t.Keys
    ensures IsRanking(whole, t, keep)
  {
    whole := RankingFrom([], t, keep, keep);
  }

  // ---- Rankings of the same rows ----

  ghost predicate IsRanking(listing: seq<RoomRow>, t: RoomTable, keep: set<Id>) {
    IsListing(listing, t, keep) && Ranked(listing)
  }

  /** Equal in both ranking keys. */
  predicate Tied(a: RoomRow, b: RoomRow) {
    a.coef == b.coef && a.price == b.price
  }

  /** No two kept rows tie. */
  ghost predicate Untied(t: RoomTable, keep: set<Id>) {
    forall j, k :: j in t && k in t && j in keep && k in keep && j != k ==> !Tied(t[j], t[k])
  }

  ghost predicate SameKeys(a: seq<RoomRow>, b: seq<RoomRow>) {
    |a| == |b| && forall i :: 0 <= i < |a| ==> Tied(a[i], b[i])
  }

  function Swap(a: seq<RoomRow>, i: nat, j: nat): (b: seq<RoomRow>)
    requires i < |a| && j < |a|
    ensures |b| == |a|
  {
    a[i := a[j]][j := a[i]]
  }

  lemma SwapIsListing(a: seq<RoomRow>, t: RoomTable, keep: set<Id>, i: nat, j: nat)
    requires IsListing(a, t, keep) && i < |a| && j < |a|
    ensures IsListing(Swap(a, i, j), t, keep)
  {
    var b := Swap(a, i, j);
    forall k | k in keep && k in t ensures t[k] in b {
      var m :| 0 <= m < |a| && a[m] == t[k];
      assert b[if m == i then j else if m == j then i else m] == t[k];
    }
  }

  /** Tied rows may trade places. */
  lemma SwapIsRanking(a: seq<RoomRow>, t: RoomTable, keep: set<Id>, i: nat, j: nat)
    requires IsRanking(a, t, keep) && i < |a| && j < |a| && Tied(a[i], a[j])
    ensures IsRanking(Swap(a, i, j), t, keep) && SameKeys(Swap(a, i, j), a)
  {
    SwapIsListing(a, t, keep, i, j);
    RankedByKeys(Swap(a, i, j), a);
  }

  lemma RankedByKeys(a: seq<RoomRow>, b: seq<RoomRow>)
    requires SameKeys(a, b) && Ranked(b)
    ensures Ranked(a)
  {
    forall i, j | 0 <= i < j < |a| ensures RanksBefore(a[i], a[j]) {
      assert Tied(a[i], b[i]) && Tied(a[j], b[j]) && RanksBefore(b[i], b[j]);
    }
  }

  lemma PositionOf(a: seq<RoomRow>, t: RoomTable, keep: set<Id>, k: Id) returns (i: nat)
    requires IsListing(a, t, keep) && k in keep && k in t
    ensures i < |a| && a[i] == t[k]
  {
    assert t[k] in a;
    i :| 0 <= i < |a| && a[i] == t[k];
  }

  lemma DropLast(a: seq<RoomRow>, t: RoomTable, keep: set<Id>)
    requires IsListing(a, t, keep) && a != []
    ensures IsListing(a[..|a| - 1], t, keep - {a[|a| - 1].id})
    ensures Ranked(a) ==> Ranked(a[..|a| - 1])
  {
    forall k | k in keep - {a[|a| - 1].id} && k in t ensures t[k] in a[..|a| - 1] {
      assert t[k] in a;
    }
  }

  lemma LastRanksAfter(a: seq<RoomRow>, t: RoomTable, keep: set<Id>, x: RoomRow)
    requires IsRanking(a, t, keep) && x.id in keep && x.id in t && t[x.id] == x
    ensures a != [] && RanksBefore(x, a[|a| - 1])
  {
    var i :| 0 <= i < |a| && a[i] == x;
  }

  /** Ties or not, rankings of the same rows have the same keys at every position. */
  lemma {:induction false} RanksAreUnique(a: seq<RoomRow>, b: seq<RoomRow>, t: RoomTable, keep: set<Id>)
    requires IsRanking(a, t, keep) && IsRanking(b, t, keep)
    ensures SameKeys(a, b)
    decreases |a|
  {
    if b != [] {
      LastRanksAfter(a, t, keep, b[|b| - 1]);
    }
    if a != [] {
      var c := LastMoved(a, b, t, keep);
      DropLast(a, t, keep);
      RanksAreUnique(a[..|a| - 1], c[..|c| - 1], t, keep - {a[|a| - 1].id});
      LastsAdded(a, b, c);
    }
  }

  /** The last row of one ranking may be the last of the other, which is tied with it. */
  lemma LastMoved(a: seq<RoomRow>, b: seq<RoomRow>, t: RoomTable, keep: set<Id>) returns (c: seq<RoomRow>)
    requires IsRanking(a, t, keep) && IsRanking(b, t, keep) && a != []
    ensures c != [] && c[|c| - 1] == a[|a| - 1] && SameKeys(c, b)
    ensures IsRanking(c[..|c| - 1], t, keep - {a[|a| - 1].id})
  {
    var x := a[|a| - 1];
    LastRanksAfter(b, t, keep, x);
    LastRanksAfter(a, t, keep, b[|b| - 1]);
    var i := PositionOf(b, t, keep, x.id);
    c := Swap(b, i, |b| - 1);
    SwapIsRanking(b, t, keep, i, |b| - 1);
    DropLast(c, t, keep);
  }

  lemma LastsAdded(a: seq<RoomRow>, b: seq<RoomRow>, c: seq<RoomRow>)
    requires a != [] && c != [] && SameKeys(a[..|a| - 1], c[..|c| - 1])
    requires SameKeys(c, b) && c[|c| - 1] == a[|a| - 1]
    ensures SameKeys(a, b)
  {
    forall i | 0 <= i < |a| ensures Tied(a[i], b[i]) {
      assert Tied(c[i], b[i]);
      assert i < |a| - 1 ==> Tied(a[..|a| - 1][i], c[..|c| - 1][i]);
    }
  }

  /** Without ties there is one ranking. */
  lemma RankingIsUnique(a: seq<RoomRow>, b: seq<RoomRow>, t: RoomTable, keep: set<Id>)
    requires IsRanking(a, t, keep) && IsRanking(b, t, keep) && Untied(t, keep)
    ensures a == b
  {
    RanksAreUnique(a, b, t, keep);
    forall i | 0 <= i < |a| ensures a[i] == b[i] {
      assert Tied(a[i], b[i]) && t[a[i].id] == a[i] && t[b[i].id] == b[i];
    }
  }

  lemma {:induction false} ListingSize(a: seq<RoomRow>, t: RoomTable, keep: set<Id>)
    requires IsListing(a, t, keep) && keep <= t.Keys
    ensures |a| == |keep|
    decreases |a|
  {
    if keep != {} {
      var k :| k in keep;
      var i := PositionOf(a, t, keep, k);
      DropLast(a, t, keep);
      ListingSize(a[..|a| - 1], t, keep - {a[|a| - 1].id});
    }
  }

  // ---- What ORDER BY is for ----

  ghost predicate AllTied(t: RoomTable, keep: set<Id>) {
    forall j, k :: j in t && k in t && j in keep && k in keep ==> Tied(t[j], t[k])
  }

  /** The query, but for its order, means the filter. */
  ghost predicate SelectsAndPages(q: Query, args: seq<Value>, f: Filter) {
    && (forall row :: Selects(q, args, row) <==> Meets(f, row))
    && OffsetOf(q, args) == OffsetAsked(f) && LimitOf(q, args) == LimitAsked(f)
  }

  /** Every answer to the query is one the filter asks for. */
  ghost predicate AnswersTheFilter(q: Query, args: seq<Value>, f: Filter, t: RoomTable) {
    forall rows :: Answers(rows, q, args, t) ==> IsFilterPage(rows, t, f)
  }

  /** A query that means the filter but lacks the ORDER BY clause answers it on a table exactly
      when the kept rows all tie or the page is past their end. */
  lemma OrderByMattersIff(q: Query, args: seq<Value>, f: Filter, t: RoomTable)
    requires OrderByCoefThenPrice !in q && SelectsAndPages(q, args, f)
    ensures AnswersTheFilter(q, args, f, t) <==> AllTied(t, Kept(f, t)) || |Kept(f, t)| <= OffsetAsked(f)
  {
    var keep := Kept(f, t);
    assert SelectedBy(q, args, t) == keep;
    var whole := RankingExists(t, keep);
    ListingSize(whole, t, keep);
    if AllTied(t, keep) || |keep| <= OffsetAsked(f) {
      forall rows | Answers(rows, q, args, t) ensures IsFilterPage(rows, t, f) {
        var listing :| IsListing(listing, t, keep) && rows == Window(listing, OffsetAsked(f), LimitAsked(f));
        AnyOrderWillDo(listing, whole, t, keep, OffsetAsked(f), LimitAsked(f));
      }
    } else {
      var listing := WrongOrder(whole, t, keep, OffsetAsked(f), LimitAsked(f));
      var rows := Window(listing, OffsetAsked(f), LimitAsked(f));
      assert Answers(rows, q, args, t) && !IsFilterPage(rows, t, f);
    }
  }

  lemma AnyOrderWillDo(listing: seq<RoomRow>, whole: seq<RoomRow>, t: RoomTable, keep: set<Id>, offset: nat, limit: Option<nat>)
    requires IsListing(listing, t, keep) && IsRanking(whole, t, keep) && keep <= t.Keys
    requires AllTied(t, keep) || |keep| <= offset
    ensures IsPage(Window(listing, offset, limit), t, keep, true, offset, limit)
  {
    if AllTied(t, keep) {
      forall i, j | 0 <= i < j < |listing| ensures RanksBefore(listing[i], listing[j]) {
        assert t[listing[i].id] == listing[i] && t[listing[j].id] == listing[j];
      }
      assert IsRanking(listing, t, keep);
    } else {
      ListingSize(listing, t, keep);
      ListingSize(whole, t, keep);
      assert Window(listing, offset, limit) == Window(whole, offset, limit);
    }
  }

  lemma WindowBegins(a: seq<RoomRow>, offset: nat, limit: Option<nat>)
    requires offset < |a| && limit != Some(0)
    ensures Window(a, offset, limit) != [] && Window(a, offset, limit)[0] == a[offset]
  {
  }

  lemma OddRow(t: RoomTable, keep: set<Id>, row: RoomRow) returns (k: Id)
    requires !AllTied(t, keep)
    ensures k in keep && k in t && !Tied(t[k], row)
  {
    var i, j :| i in t && j in t && i in keep && j in keep && !Tied(t[i], t[j]);
    k := if Tied(t[i], row) then j else i;
  }

  /** A row put where no ranking has it. */
  lemma WrongOrder(whole: seq<RoomRow>, t: RoomTable, keep: set<Id>, offset: nat, limit: Option<nat>)
    returns (listing: seq<RoomRow>)
    requires IsRanking(whole, t, keep) && offset < |whole| && limit != Some(0) && !AllTied(t, keep)
    ensures IsListing(listing, t, keep)
    ensures !IsPage(Window(listing, offset, limit), t, keep, true, offset, limit)
  {
    var k := OddRow(t, keep, whole[offset]);
    var m := PositionOf(whole, t, keep, k);
    listing := Swap(whole, offset, m);
    SwapIsListing(whole, t, keep, offset, m);
    WindowBegins(listing, offset, limit);
    forall other | IsRanking(other, t, keep) ensures Window(listing, offset, limit) != Window(other, offset, limit) {
      RanksAreUnique(other, whole, t, keep);
      WindowBegins(other, offset, limit);
      assert Tied(other[offset], whole[offset]);
    }
  }

  // ---- Pages ----

  /** Where page k begins: k * size. */
  function PageStart(size: nat, k: nat): nat {
    if k == 0 then 0 else PageStart(size, k - 1) + size
  }

  lemma {:induction false} PageStartsGrow(size: nat, j: nat, k: nat)
    requires j <= k
    ensures PageStart(size, j) <= PageStart(size, k)
  {
    if j < k {
      PageStartsGrow(size, j, k - 1);
    }
  }

  lemma {:induction false} PageStartIsLarge(size: nat, k: nat)
    requires size > 0
    ensures PageStart(size, k) >= k
  {
    if k > 0 {
      PageStartIsLarge(size, k - 1);
    }
  }

  predicate OnPage(size: nat, k: nat, i: nat) {
    PageStart(size, k) <= i < PageStart(size, k + 1)
  }

  lemma {:induction false} PageOf(size: nat, n: nat, i: nat) returns (k: nat)
    requires i < PageStart(size, n)
    ensures k < n && OnPage(size, k, i)
  {
    if i < PageStart(size, n - 1) {
      k := PageOf(size, n - 1, i);
    } else {
      k := n - 1;
    }
  }

  lemma OnOnePage(size: nat, j: nat, k: nat, i: nat)
    requires OnPage(size, j, i) && OnPage(size, k, i)
    ensures j == k
  {
    if j < k {
      PageStartsGrow(size, j + 1, k);
    } else if k < j {
      PageStartsGrow(size, k + 1, j);
    }
  }

  /** The request for page k of a filter's rows. */
  function PageRequest(f: Filter, size: nat, k: nat): Filter {
    f.(limit := size, offset := PageStart(size, k))
  }

  /** Answers to the requests for the first pages, each on its own. */
  ghost predicate ArePages(pages: seq<seq<RoomRow>>, t: RoomTable, f: Filter, size: nat) {
    forall k :: 0 <= k < |pages| ==> IsFilterPage(pages[k], t, PageRequest(f, size, k))
  }

  /** An answer to the request for everything. */
  ghost predicate IsUnpaged(whole: seq<RoomRow>, t: RoomTable, f: Filter) {
    IsFilterPage(whole, t, f.(limit := 0, offset := 0))
  }

  lemma UnpagedIsRanking(whole: seq<RoomRow>, t: RoomTable, f: Filter)
    ensures IsUnpaged(whole, t, f) <==> IsRanking(whole, t, Kept(f, t))
  {
    assert Kept(f.(limit := 0, offset := 0), t) == Kept(f, t);
    assert forall listing: seq<RoomRow> :: Window(listing, 0, None) == listing;
  }

  lemma PageIsWindow(page: seq<RoomRow>, t: RoomTable, f: Filter, size: nat, k: nat)
    requires size > 0
    ensures IsFilterPage(page, t, PageRequest(f, size, k)) <==>
      exists whole :: IsRanking(whole, t, Kept(f, t)) && page == Window(whole, PageStart(size, k), Some(size))
  {
    assert Kept(PageRequest(f, size, k), t) == Kept(f, t);
  }

  function Concat<T>(pages: seq<seq<T>>): seq<T> {
    if pages == [] then [] else Concat(pages[..|pages| - 1]) + pages[|pages| - 1]
  }

  /** Page k shows its part of the k-th of these listings, which are equally long. */
  ghost predicate Shows<T>(pages: seq<seq<T>>, listings: seq<seq<T>>, size: nat, n: nat) {
    && |pages| == |listings|
    && forall k :: 0 <= k < |pages| ==>
         |listings[k]| == n && pages[k] == Window(listings[k], PageStart(size, k), Some(size))
  }

  lemma ShowsFront<T>(pages: seq<seq<T>>, listings: seq<seq<T>>, size: nat, n: nat)
    requires Shows(pages, listings, size, n) && pages != []
    ensures Shows(pages[..|pages| - 1], listings[..|pages| - 1], size, n)
  {
  }

  lemma {:induction false} ConcatLength<T>(pages: seq<seq<T>>, listings: seq<seq<T>>, size: nat, n: nat)
    requires Shows(pages, listings, size, n)
    ensures |Concat(pages)| == if n <= PageStart(size, |pages|) then n else PageStart(size, |pages|)
  {
    if pages != [] {
      var m := |pages| - 1;
      ShowsFront(pages, listings, size, n);
      ConcatLength(pages[..m], listings[..m], size, n);
      assert pages[m] == Window(listings[m], PageStart(size, m), Some(size));
    }
  }

  /** Pages laid end to end have, at each position, what the listing behind its page has there. */
  lemma {:induction false} ConcatAt<T>(pages: seq<seq<T>>, listings: seq<seq<T>>, size: nat, n: nat, k: nat, i: nat)
    requires Shows(pages, listings, size, n) && k < |pages| && OnPage(size, k, i) && i < n
    ensures i < |Concat(pages)| && Concat(pages)[i] == listings[k][i]
  {
    var m := |pages| - 1;
    ShowsFront(pages, listings, size, n);
    if k < m {
      ConcatAt(pages[..m], listings[..m], size, n, k, i);
    } else {
      ConcatLength(pages[..m], listings[..m], size, n);
      assert pages[m] == Window(listings[m], PageStart(size, m), Some(size));
      assert pages[m][i - PageStart(size, m)] == listings[m][i];
    }
  }

  lemma RankingBehind(page: seq<RoomRow>, t: RoomTable, f: Filter, size: nat, k: nat, whole: seq<RoomRow>)
    returns (listing: seq<RoomRow>)
    requires size > 0 && IsFilterPage(page, t, PageRequest(f, size, k)) && IsRanking(whole, t, Kept(f, t))
    ensures IsRanking(listing, t, Kept(f, t)) && SameKeys(listing, whole)
    ensures page == Window(listing, PageStart(size, k), Some(size))
  {
    PageIsWindow(page, t, f, size, k);
    listing :| IsRanking(listing, t, Kept(f, t)) && page == Window(listing, PageStart(size, k), Some(size));
    RanksAreUnique(listing, whole, t, Kept(f, t));
  }

  /** These are rankings of the kept rows, with the same keys. */
  ghost predicate AreRankings(listings: seq<seq<RoomRow>>, t: RoomTable, keep: set<Id>, whole: seq<RoomRow>) {
    forall k :: 0 <= k < |listings| ==> IsRanking(listings[k], t, keep) && SameKeys(listings[k], whole)
  }

  /** The rankings from which independent answers were cut. */
  lemma {:induction false} RankingsBehind(pages: seq<seq<RoomRow>>, t: RoomTable, f: Filter, size: nat, whole: seq<RoomRow>)
    returns (listings: seq<seq<RoomRow>>)
    requires size > 0 && ArePages(pages, t, f, size) && IsRanking(whole, t, Kept(f, t))
    ensures Shows(pages, listings, size, |whole|) && AreRankings(listings, t, Kept(f, t), whole)
  {
    if pages == [] {
      listings := [];
    } else {
      var m := |pages| - 1;
      var front := RankingsBehind(pages[..m], t, f, size, whole);
      var last := RankingBehind(pages[m], t, f, size, m, whole);
      listings := front + [last];
      ShowsOneMore(pages, front, last, size, |whole|);
    }
  }

  lemma ShowsOneMore<T>(pages: seq<seq<T>>, listings: seq<seq<T>>, last: seq<T>, size: nat, n: nat)
    requires pages != [] && Shows(pages[..|pages| - 1], listings, size, n) && |last| == n
    requires pages[|pages| - 1] == Window(last, PageStart(size, |pages| - 1), Some(size))
    ensures Shows(pages, listings + [last], size, n)
  {
    assert forall k :: 0 <= k < |pages| - 1 ==> pages[k] == pages[..|pages| - 1][k];
  }

  /** Pages cut from rankings are answers to the page requests. */
  lemma ShownPages(pages: seq<seq<RoomRow>>, listings: seq<seq<RoomRow>>, t: RoomTable, f: Filter, size: nat, n: nat)
    requires size > 0 && Shows(pages, listings, size, n)
    requires forall k :: 0 <= k < |listings| ==> IsRanking(listings[k], t, Kept(f, t))
    ensures ArePages(pages, t, f, size)
  {
    forall k | 0 <= k < |pages| ensures IsFilterPage(pages[k], t, PageRequest(f, size, k)) {
      PageIsWindow(pages[k], t, f, size, k);
      assert IsRanking(listings[k], t, Kept(f, t));
    }
  }

  /** The pages at offsets 0, L, 2L, ... of one listing. */
  function Cut<T>(whole: seq<T>, size: nat, n: nat): seq<seq<T>> {
    seq(n, k requires 0 <= k => Window(whole, PageStart(size, k), Some(size)))
  }

  /** On every table, pages cut from one ranking are answers, and laid end to end they are it. */
  lemma PagesTile(f: Filter, t: RoomTable, size: nat, n: nat, whole: seq<RoomRow>)
    requires size > 0 && IsUnpaged(whole, t, f) && PageStart(size, n) >= |whole|
    ensures ArePages(Cut(whole, size, n), t, f, size) && Concat(Cut(whole, size, n)) == whole
  {
    var pages, listings := Cut(whole, size, n), seq(n, k => whole);
    UnpagedIsRanking(whole, t, f);
    ShownPages(pages, listings, t, f, size, |whole|);
    ConcatLength(pages, listings, size, |whole|);
    forall i | 0 <= i < |whole| ensures Concat(pages)[i] == whole[i] {
      var k := PageOf(size, n, i);
      ConcatAt(pages, listings, size, |whole|, k, i);
    }
  }

  /** Independent answers laid end to end always have as many rows as the whole listing, with the
      same ranking keys at every position. */
  lemma PagesShowKeys(f: Filter, t: RoomTable, size: nat, pages: seq<seq<RoomRow>>, whole: seq<RoomRow>)
    requires size > 0 && ArePages(pages, t, f, size) && IsUnpaged(whole, t, f) && PageStart(size, |pages|) >= |whole|
    ensures SameKeys(Concat(pages), whole)
  {
    var listings := PagesAssemble(f, t, size, pages, whole);
    forall i | 0 <= i < |whole| ensures Tied(Concat(pages)[i], whole[i]) {
      var k := PageOf(size, |pages|, i);
      assert SameKeys(listings[k], whole);
    }
  }

  // ---- Ties ----

  /** Whatever the database chooses, the pages tile what it answers to the unpaged request. */
  ghost predicate AlwaysTile(f: Filter, t: RoomTable, size: nat) {
    forall pages: seq<seq<RoomRow>>, whole: seq<RoomRow> ::
      ArePages(pages, t, f, size) && IsUnpaged(whole, t, f) && PageStart(size, |pages|) >= |whole| ==>
      Concat(pages) == whole
  }

  /** All admissible answers tile exactly when no two kept rows tie. */
  lemma PagesTileIff(f: Filter, t: RoomTable, size: nat)
    requires size > 0
    ensures AlwaysTile(f, t, size) <==> Untied(t, Kept(f, t))
  {
    var keep := Kept(f, t);
    if Untied(t, keep) {
      forall pages: seq<seq<RoomRow>>, whole: seq<RoomRow>
        | ArePages(pages, t, f, size) && IsUnpaged(whole, t, f) && PageStart(size, |pages|) >= |whole|
        ensures Concat(pages) == whole
      {
        UntiedPagesTile(f, t, size, pages, whole);
      }
    } else {
      var j, k :| j in t && k in t && j in keep && k in keep && j != k && Tied(t[j], t[k]);
      var a, b := TwoRankings(t, keep, j, k);
      UnpagedIsRanking(a, t, f);
      UnpagedIsRanking(b, t, f);
      PageStartIsLarge(size, |a|);
      PagesTile(f, t, size, |a|, a);
      assert Concat(Cut(a, size, |a|)) != b;
    }
  }

  lemma UntiedPagesTile(f: Filter, t: RoomTable, size: nat, pages: seq<seq<RoomRow>>, whole: seq<RoomRow>)
    requires size > 0 && ArePages(pages, t, f, size) && IsUnpaged(whole, t, f) && PageStart(size, |pages|) >= |whole|
    requires Untied(t, Kept(f, t))
    ensures Concat(pages) == whole
  {
    var listings := PagesAssemble(f, t, size, pages, whole);
    forall i | 0 <= i < |whole| ensures Concat(pages)[i] == whole[i] {
      var k := PageOf(size, |pages|, i);
      RankingIsUnique(listings[k], whole, t, Kept(f, t));
    }
  }

  lemma TwoRankings(t: RoomTable, keep: set<Id>, j: Id, k: Id) returns (a: seq<RoomRow>, b: seq<RoomRow>)
    requires keep <= t.Keys && j in keep && k in keep && j != k && Tied(t[j], t[k])
    ensures IsRanking(a, t, keep) && IsRanking(b, t, keep) && |a| == |b| && a != b
  {
    a := RankingExists(t, keep);
    var m := PositionOf(a, t, keep, j);
    var n := PositionOf(a, t, keep, k);
    b := Swap(a, m, n);
    SwapIsRanking(a, t, keep, m, n);
    assert b[m] == t[k];
  }

  /** No two neighbours that a page break separates tie. */
  ghost predicate NoTieAcrossPages(whole: seq<RoomRow>, size: nat) {
    forall k: nat :: 0 < PageStart(size, k) < |whole| ==>
      !Tied(whole[PageStart(size, k) - 1], whole[PageStart(size, k)])
  }

  /** Whatever the database chooses, the pages show every kept row, once. */
  ghost predicate AlwaysShowOnce(f: Filter, t: RoomTable, size: nat, n: nat) {
    forall pages: seq<seq<RoomRow>> :: ArePages(pages, t, f, size) && PageStart(size, |pages|) >= n ==>
      IsListing(Concat(pages), t, Kept(f, t))
  }

  /** No row can be repeated or lost over independent page requests exactly when no tie stands
      across a page break. */
  lemma PagesShowOnceIff(f: Filter, t: RoomTable, size: nat, whole: seq<RoomRow>)
    requires size > 0 && IsUnpaged(whole, t, f)
    ensures AlwaysShowOnce(f, t, size, |whole|) <==> NoTieAcrossPages(whole, size)
  {
    if NoTieAcrossPages(whole, size) {
      forall pages: seq<seq<RoomRow>> | ArePages(pages, t, f, size) && PageStart(size, |pages|) >= |whole|
        ensures IsListing(Concat(pages), t, Kept(f, t))
      {
        PagesShowOnce(f, t, size, pages, whole);
      }
    } else {
      var k: nat :| 0 < PageStart(size, k) < |whole| && Tied(whole[PageStart(size, k) - 1], whole[PageStart(size, k)]);
      var pages := PagesRepeat(f, t, size, k, whole);
      assert ArePages(pages, t, f, size);
    }
  }

  /** Rows tied in a ranking tie with all between them. */
  lemma TieBetween(whole: seq<RoomRow>, i: nat, m: nat, j: nat)
    requires Ranked(whole) && i < m <= j < |whole| && Tied(whole[i], whole[j])
    ensures Tied(whole[m - 1], whole[m])
  {
    assert i < m - 1 ==> RanksBefore(whole[i], whole[m - 1]);
    assert RanksBefore(whole[m - 1], whole[m]);
    assert m < j ==> RanksBefore(whole[m], whole[j]);
  }

  lemma TiesStayOnPage(whole: seq<RoomRow>, size: nat, k: nat, i: nat, j: nat)
    requires Ranked(whole) && NoTieAcrossPages(whole, size) && i < |whole| && j < |whole|
    requires Tied(whole[i], whole[j]) && OnPage(size, k, i)
    ensures OnPage(size, k, j)
  {
    if j < PageStart(size, k) {
      TieBetween(whole, j, PageStart(size, k), i);
    } else if j >= PageStart(size, k + 1) {
      TieBetween(whole, i, PageStart(size, k + 1), j);
    }
  }

  /** If no tie stands across a page break, a row is on the same page in every ranking. */
  lemma SamePage(a: seq<RoomRow>, b: seq<RoomRow>, size: nat, k: nat, i: nat, j: nat)
    requires SameKeys(a, b) && Ranked(b) && NoTieAcrossPages(b, size)
    requires i < |a| && j < |b| && a[i] == b[j] && OnPage(size, k, i)
    ensures OnPage(size, k, j)
  {
    assert Tied(a[i], b[i]);
    TiesStayOnPage(b, size, k, i, j);
  }

  /** Rows shown page by page from these rankings, which share their keys with `whole`. */
  ghost predicate Assembled(shown: seq<RoomRow>, listings: seq<seq<RoomRow>>, size: nat, t: RoomTable, keep: set<Id>, whole: seq<RoomRow>) {
    && |shown| == |whole| <= PageStart(size, |listings|)
    && AreRankings(listings, t, keep, whole)
    && forall k: nat, i: nat :: k < |listings| && OnPage(size, k, i) && i < |shown| ==> shown[i] == listings[k][i]
  }

  lemma PagesAssemble(f: Filter, t: RoomTable, size: nat, pages: seq<seq<RoomRow>>, whole: seq<RoomRow>)
    returns (listings: seq<seq<RoomRow>>)
    requires size > 0 && ArePages(pages, t, f, size) && IsUnpaged(whole, t, f) && PageStart(size, |pages|) >= |whole|
    ensures IsRanking(whole, t, Kept(f, t)) && |listings| == |pages|
    ensures Assembled(Concat(pages), listings, size, t, Kept(f, t), whole)
  {
    UnpagedIsRanking(whole, t, f);
    listings := RankingsBehind(pages, t, f, size, whole);
    ConcatLength(pages, listings, size, |whole|);
    forall k: nat, i: nat | k < |listings| && OnPage(size, k, i) && i < |whole| ensures Concat(pages)[i] == listings[k][i] {
      ConcatAt(pages, listings, size, |whole|, k, i);
    }
  }

  lemma PagesShowOnce(f: Filter, t: RoomTable, size: nat, pages: seq<seq<RoomRow>>, whole: seq<RoomRow>)
    requires size > 0 && ArePages(pages, t, f, size) && IsUnpaged(whole, t, f) && PageStart(size, |pages|) >= |whole|
    requires NoTieAcrossPages(whole, size)
    ensures IsListing(Concat(pages), t, Kept(f, t))
  {
    var keep, shown := Kept(f, t), Concat(pages);
    var listings := PagesAssemble(f, t, size, pages, whole);
    forall i | 0 <= i < |shown| ensures IsRowOf(shown[i], t, keep) {
      ShownIsKept(t, keep, listings, size, whole, shown, i);
    }
    forall i, j | 0 <= i < j < |shown| ensures shown[i].id != shown[j].id {
      ShownOnce(t, keep, listings, size, whole, shown, i, j);
    }
    forall x | x in keep && x in t ensures t[x] in shown {
      KeptIsShown(t, keep, listings, size, whole, shown, x);
    }
  }

  ghost predicate IsRowOf(row: RoomRow, t: RoomTable, keep: set<Id>) {
    row.id in t && row.id in keep && t[row.id] == row
  }

  lemma ShownIsKept(t: RoomTable, keep: set<Id>, listings: seq<seq<RoomRow>>, size: nat, whole: seq<RoomRow>,
                    shown: seq<RoomRow>, i: nat)
    requires Assembled(shown, listings, size, t, keep, whole) && i < |shown|
    ensures IsRowOf(shown[i], t, keep)
  {
    var k := PageOf(size, |listings|, i);
    assert IsRanking(listings[k], t, keep) && SameKeys(listings[k], whole);
  }

  lemma KeptIsShown(t: RoomTable, keep: set<Id>, listings: seq<seq<RoomRow>>, size: nat, whole: seq<RoomRow>,
                    shown: seq<RoomRow>, x: Id)
    requires Assembled(shown, listings, size, t, keep, whole) && IsRanking(whole, t, keep)
    requires NoTieAcrossPages(whole, size) && x in keep && x in t
    ensures t[x] in shown
  {
    var j := PositionOf(whole, t, keep, x);
    var k := PageOf(size, |listings|, j);
    var i := FoundOnPage(t, keep, listings[k], size, whole, k, j);
    assert shown[i] == listings[k][i];
  }

  /** A row of page k of one ranking is on page k of the others. */
  lemma FoundOnPage(t: RoomTable, keep: set<Id>, a: seq<RoomRow>, size: nat, whole: seq<RoomRow>, k: nat, j: nat)
    returns (i: nat)
    requires IsRanking(whole, t, keep) && IsRanking(a, t, keep) && SameKeys(a, whole) && NoTieAcrossPages(whole, size)
    requires j < |whole| && OnPage(size, k, j)
    ensures i < |a| && a[i] == whole[j] && OnPage(size, k, i)
  {
    i := PositionOf(a, t, keep, whole[j].id);
    assert Tied(a[i], whole[i]);
    TiesStayOnPage(whole, size, k, j, i);
  }

  lemma ShownOnce(t: RoomTable, keep: set<Id>, listings: seq<seq<RoomRow>>, size: nat, whole: seq<RoomRow>,
                  shown: seq<RoomRow>, i: nat, j: nat)
    requires Assembled(shown, listings, size, t, keep, whole) && IsRanking(whole, t, keep)
    requires NoTieAcrossPages(whole, size) && i < j < |shown|
    ensures shown[i].id != shown[j].id
  {
    if shown[i].id == shown[j].id {
      ShownIsKept(t, keep, listings, size, whole, shown, i);
      ShownIsKept(t, keep, listings, size, whole, shown, j);
      var k := PageOf(size, |listings|, i);
      var l := PageOf(size, |listings|, j);
      var m := PositionOf(whole, t, keep, shown[i].id);
      SamePage(listings[k], whole, size, k, i, m);
      SamePage(listings[l], whole, size, l, j, m);
      OnOnePage(size, k, l, m);
    }
  }

  /** A tie across the break before page k: the row before the break may also open page k. */
  lemma PagesRepeat(f: Filter, t: RoomTable, size: nat, k: nat, whole: seq<RoomRow>) returns (pages: seq<seq<RoomRow>>)
    requires size > 0 && IsUnpaged(whole, t, f)
    requires 0 < PageStart(size, k) < |whole| && Tied(whole[PageStart(size, k) - 1], whole[PageStart(size, k)])
    ensures ArePages(pages, t, f, size) && PageStart(size, |pages|) >= |whole|
    ensures !IsListing(Concat(pages), t, Kept(f, t))
  {
    var n, m := |whole|, PageStart(size, k);
    UnpagedIsRanking(whole, t, f);
    SwapIsRanking(whole, t, Kept(f, t), m - 1, m);
    var swapped := Swap(whole, m - 1, m);
    pages := CutTwo(whole, swapped, size, n, k);
    CutTwoArePages(whole, swapped, t, f, size, n, k);
    var listings := CutTwoShows(whole, swapped, size, n, k);
    AtTheBreak(pages, listings, size, n, k);
    RepeatedRow(Concat(pages), t, Kept(f, t), m);
  }

  lemma CutTwoArePages(a: seq<RoomRow>, b: seq<RoomRow>, t: RoomTable, f: Filter, size: nat, n: nat, k: nat)
    requires size > 0 && IsRanking(a, t, Kept(f, t)) && IsRanking(b, t, Kept(f, t))
    ensures ArePages(CutTwo(a, b, size, n, k), t, f, size)
  {
    forall i: nat | i < n ensures IsFilterPage(CutTwo(a, b, size, n, k)[i], t, PageRequest(f, size, i)) {
      PageIsWindow(Window(if i < k then a else b, PageStart(size, i), Some(size)), t, f, size, i);
    }
  }

  lemma CutTwoShows<T>(a: seq<T>, b: seq<T>, size: nat, n: nat, k: nat) returns (listings: seq<seq<T>>)
    requires |a| == |b| == n
    ensures Shows(CutTwo(a, b, size, n, k), listings, size, n)
    ensures forall i :: 0 <= i < n ==> listings[i] == if i < k then a else b
  {
    listings := seq(n, i => if i < k then a else b);
  }

  lemma AtTheBreak<T>(pages: seq<seq<T>>, listings: seq<seq<T>>, size: nat, n: nat, k: nat)
    requires size > 0 && 0 < PageStart(size, k) < n && |pages| == n && Shows(pages, listings, size, n)
    ensures 0 < k < n == |Concat(pages)| <= PageStart(size, n)
    ensures var m := PageStart(size, k);
      Concat(pages)[m - 1] == listings[k - 1][m - 1] && Concat(pages)[m] == listings[k][m]
  {
    BreakIsWithin(size, n, k);
    ConcatLength(pages, listings, size, n);
    ConcatAt(pages, listings, size, n, k - 1, PageStart(size, k) - 1);
    ConcatAt(pages, listings, size, n, k, PageStart(size, k));
  }

  lemma RepeatedRow(a: seq<RoomRow>, t: RoomTable, keep: set<Id>, m: nat)
    requires 0 < m < |a| && a[m - 1] == a[m]
    ensures !IsListing(a, t, keep)
  {
  }

  lemma BreakIsWithin(size: nat, n: nat, k: nat)
    requires size > 0 && 0 < PageStart(size, k) < n
    ensures 0 < k < n <= PageStart(size, n)
    ensures OnPage(size, k - 1, PageStart(size, k) - 1) && OnPage(size, k, PageStart(size, k))
  {
    PageStartIsLarge(size, k);
    PageStartIsLarge(size, n);
  }

  /** The first k pages of one listing, the rest of another. */
  function CutTwo<T>(a: seq<T>, b: seq<T>, size: nat, n: nat, k: nat): seq<seq<T>> {
    seq(n, i requires 0 <= i => Window(if i < k then a else b, PageStart(size, i), Some(size)))
  }

  /** With pages of one row, this row may be all of page p and all of the next. */
  ghost predicate MayRepeat(row: RoomRow, t: RoomTable, f: Filter, p: nat) {
    IsFilterPage([row], t, PageRequest(f, 1, p)) && IsFilterPage([row], t, PageRequest(f, 1, p + 1))
  }

  /** Of any two kept rows that tie, in any table, pages of one row may show one twice running. */
  lemma TiedPagesMayRepeat(f: Filter, t: RoomTable, j: Id, k: Id)
    requires j in Kept(f, t) && k in Kept(f, t) && j != k && Tied(t[j], t[k])
    ensures exists p: nat :: MayRepeat(t[j], t, f, p)
  {
    var keep := Kept(f, t);
    var a := RankingExists(t, keep);
    var m := PositionOf(a, t, keep, j);
    var n := PositionOf(a, t, keep, k);
    TiedRowRepeats(a, t, f, m, n);
  }

  lemma TiedRowRepeats(a: seq<RoomRow>, t: RoomTable, f: Filter, m: nat, n: nat)
    requires IsRanking(a, t, Kept(f, t)) && m < |a| && n < |a| && m != n && Tied(a[m], a[n])
    ensures exists p: nat :: MayRepeat(a[m], t, f, p)
  {
    if m < n {
      TieBetween(a, m, m + 1, n);
      MovedOneOn(a, t, f, m);
    } else {
      TieBetween(a, n, m, m);
      MovedOneBack(a, t, f, m);
    }
  }

  lemma MovedOneOn(a: seq<RoomRow>, t: RoomTable, f: Filter, m: nat)
    requires IsRanking(a, t, Kept(f, t)) && m + 1 < |a| && Tied(a[m], a[m + 1])
    ensures MayRepeat(a[m], t, f, m)
  {
    SwapIsRanking(a, t, Kept(f, t), m, m + 1);
    PageOfOne(a, t, f, m);
    PageOfOne(Swap(a, m, m + 1), t, f, m + 1);
  }

  lemma MovedOneBack(a: seq<RoomRow>, t: RoomTable, f: Filter, m: nat)
    requires IsRanking(a, t, Kept(f, t)) && 0 < m < |a| && Tied(a[m - 1], a[m])
    ensures MayRepeat(a[m], t, f, m - 1)
  {
    SwapIsRanking(a, t, Kept(f, t), m - 1, m);
    PageOfOne(a, t, f, m);
    PageOfOne(Swap(a, m - 1, m), t, f, m - 1);
  }

  lemma PageOfOne(a: seq<RoomRow>, t: RoomTable, f: Filter, p: nat)
    requires IsRanking(a, t, Kept(f, t)) && p < |a|
    ensures IsFilterPage([a[p]], t, PageRequest(f, 1, p))
  {
    PagesOfOne(p);
    PageIsWindow([a[p]], t, f, 1, p);
    assert Window(a, p, Some(1)) == [a[p]];
  }

  lemma {:induction false} PagesOfOne(p: nat)
    ensures PageStart(1, p) == p
  {
    if p > 0 {
      PagesOfOne(p - 1);
    }
  }
}
