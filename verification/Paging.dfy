/** Clients that fetch LIST_NETWORKS page by page, while the list may change between the pages. */
module Paging {
  import opened Wrappers
  import opened NetworkConfig
  import opened ListNetworks

  /** Every row fits into a page by itself. */
  ghost predicate RowsFit(l: seq<Net>, buflen: nat) {
    forall n :: n in l ==> |HEADER| + |Row(n)| < buflen
  }

  ghost predicate Ordered(l: seq<Net>) {
    Ascending(Ids(l))
  }

  /** The networks before this position are those up to the last id. */
  ghost predicate IsBehind(l: seq<Net>, last: Option<int>, k: nat) {
    if last.None? then k == 0 else forall i :: 0 <= i < |l| ==> (i < k <==> l[i].id <= last.value)
  }

  lemma {:induction false} BehindIs(l: seq<Net>, last: Option<int>) returns (k: nat)
    requires Ordered(l)
    ensures k <= |l| && Behind(l, last) == l[k..]
    ensures IsBehind(l, last, k)
  {
    if l == [] || last == None || l[0].id > last.value {
      k := 0;
      forall i | 0 < i < |l| ensures l[i].id > l[0].id {
        assert Ids(l)[0] < Ids(l)[i];
      }
    } else {
      forall i, j | 0 <= i < j < |l| - 1 ensures Ids(l[1..])[i] < Ids(l[1..])[j] {
        assert Ids(l)[i + 1] < Ids(l)[j + 1];
      }
      k := BehindIs(l[1..], last);
      k := k + 1;
    }
  }

  lemma {:induction false} FittingIsPrefix(l: seq<Net>, room: int)
    ensures Fitting(l, room) <= l
    ensures l != [] && |Row(l[0])| < room ==> Fitting(l, room) != []
  {
    if l != [] && |Row(l[0])| < room {
      FittingIsPrefix(l[1..], room - |Row(l[0])|);
      assert l == [l[0]] + l[1..];
    }
  }

  /** The position of a page within the list: it starts behind the last id, and is empty only if
      nothing is left. */
  lemma PagePosition(l: seq<Net>, last: Option<int>, buflen: nat) returns (k: nat, m: nat)
    requires Ordered(l) && RowsFit(l, buflen)
    ensures k <= m <= |l| && PageNets(l, last, buflen) == l[k..m] && (k == m ==> k == |l|)
    ensures IsBehind(l, last, k)
  {
    k := BehindIs(l, last);
    var page := PageNets(l, last, buflen);
    FittingIsPrefix(l[k..], buflen - |HEADER|);
    m := k + |page|;
    PrefixBehind(l, k, page);
    if k < |l| {
      assert l[k] in l;
    }
  }

  lemma PrefixBehind(l: seq<Net>, k: nat, p: seq<Net>)
    requires k <= |l| && p <= l[k..]
    ensures p == l[k..k + |p|]
  {
  }

  function NextLast(page: seq<Net>, last: Option<int>): Option<int> {
    if page == [] then last else Some(page[|page| - 1].id)
  }

  /** What the client receives, when the list is in turn each of the given ones at its fetches; it
      stops at an empty page. */
  function Received(lists: seq<seq<Net>>, last: Option<int>, buflen: nat): seq<Net> {
    if lists == [] then []
    else
      var page := PageNets(lists[0], last, buflen);
      if page == [] then [] else page + Received(lists[1..], NextLast(page, last), buflen)
  }

  /** The client has come to an empty page. */
  predicate Complete(lists: seq<seq<Net>>, last: Option<int>, buflen: nat) {
    lists != []
    && var page := PageNets(lists[0], last, buflen);
       page == [] || Complete(lists[1..], NextLast(page, last), buflen)
  }

  ghost predicate AllOrdered(lists: seq<seq<Net>>, buflen: nat) {
    forall l :: l in lists ==> Ordered(l) && RowsFit(l, buflen)
  }

  predicate Above(ids: seq<int>, last: Option<int>) {
    last.Some? ==> forall i :: 0 <= i < |ids| ==> ids[i] > last.value
  }

  lemma PageOrder(l: seq<Net>, last: Option<int>, buflen: nat)
    requires Ordered(l) && RowsFit(l, buflen)
    ensures var page := PageNets(l, last, buflen); Ordered(page) && Above(Ids(page), last)
  {
    var k, m := PagePosition(l, last, buflen);
    var page := PageNets(l, last, buflen);
    forall i, j | 0 <= i < j < |page| ensures Ids(page)[i] < Ids(page)[j] {
      assert Ids(l)[k + i] < Ids(l)[k + j];
    }
  }

  lemma JoinOrder(a: seq<Net>, b: seq<Net>, last: Option<int>)
    requires Ordered(a) && Ordered(b) && a != [] && Above(Ids(a), last) && Above(Ids(b), NextLast(a, last))
    ensures Ordered(a + b) && Above(Ids(a + b), last)
  {
  }

  /** However the list changes between the pages, ids are received in ascending order, so none twice. */
  lemma {:induction false} ReceivedInOrder(lists: seq<seq<Net>>, last: Option<int>, buflen: nat)
    requires AllOrdered(lists, buflen)
    ensures Ordered(Received(lists, last, buflen)) && Above(Ids(Received(lists, last, buflen)), last)
    decreases |lists|
  {
    if lists != [] {
      var page := PageNets(lists[0], last, buflen);
      PageOrder(lists[0], last, buflen);
      if page != [] {
        ReceivedInOrder(lists[1..], NextLast(page, last), buflen);
        JoinOrder(page, Received(lists[1..], NextLast(page, last), buflen), last);
      }
    }
  }

  /** A network that is in the list at every fetch is received, once the client has come to an empty
      page. */
  lemma {:induction false} PresentIsReceived(lists: seq<seq<Net>>, last: Option<int>, buflen: nat, id: int)
    requires AllOrdered(lists, buflen) && Complete(lists, last, buflen)
    requires forall l :: l in lists ==> id in Ids(l)
    requires last.Some? ==> id > last.value
    ensures id in Ids(Received(lists, last, buflen))
    decreases |lists|
  {
    var page := PageNets(lists[0], last, buflen);
    assert lists[0] in lists;
    OnPageOrBehind(lists[0], last, buflen, id);
    IdsConcat(page, Received(lists[1..], NextLast(page, last), buflen));
    if id !in Ids(page) {
      PresentIsReceived(lists[1..], NextLast(page, last), buflen, id);
    }
  }

  /** A network behind the last id is on the next page or behind that. */
  lemma OnPageOrBehind(l: seq<Net>, last: Option<int>, buflen: nat, id: int)
    requires Ordered(l) && RowsFit(l, buflen) && id in Ids(l) && (last.Some? ==> id > last.value)
    ensures var page := PageNets(l, last, buflen);
            page != [] && (id in Ids(page) || id > page[|page| - 1].id)
  {
    var page := PageNets(l, last, buflen);
    var k, m := PagePosition(l, last, buflen);
    var i :| 0 <= i < |l| && Ids(l)[i] == id;
    InSliceOrBehind(l, k, m, i);
  }

  lemma InSliceOrBehind(l: seq<Net>, k: nat, m: nat, i: nat)
    requires Ordered(l) && k < m <= |l| && k <= i < |l|
    ensures l[i].id in Ids(l[k..m]) || l[i].id > l[k..m][m - k - 1].id
  {
    if i < m {
      assert Ids(l[k..m])[i - k] == l[i].id;
    } else {
      assert Ids(l)[m - 1] < Ids(l)[i];
    }
  }

  lemma IdsConcat(a: seq<Net>, b: seq<Net>)
    ensures Ids(a + b) == Ids(a) + Ids(b)
  {
  }

  /** Only what was in the list at some fetch is received. */
  lemma {:induction false} ReceivedWasPresent(lists: seq<seq<Net>>, last: Option<int>, buflen: nat, n: Net)
    requires AllOrdered(lists, buflen) && n in Received(lists, last, buflen)
    ensures exists l :: l in lists && n in l
    decreases |lists|
  {
    var page := PageNets(lists[0], last, buflen);
    var k, m := PagePosition(lists[0], last, buflen);
    if n in page {
      assert lists[0] in lists && n in lists[0];
    } else {
      ReceivedWasPresent(lists[1..], NextLast(page, last), buflen, n);
      var l :| l in lists[1..] && n in l;
      assert l in lists;
    }
  }

  /** Between any two fetches the list is changed by adding and removing networks, if at all. */
  ghost predicate EditedBy(lists: seq<seq<Net>>, edits: seq<seq<Edit>>) {
    && |lists| == |edits| + 1
    && forall i :: 0 <= i < |edits| ==> Ids(lists[i + 1]) == Edited(Ids(lists[i]), edits[i])
  }

  lemma {:induction false} EditsKeepOrder(lists: seq<seq<Net>>, edits: seq<seq<Edit>>, i: nat)
    requires i < |lists| && EditedBy(lists, edits) && Ordered(lists[0]) && NonNegative(Ids(lists[0]))
    ensures Ordered(lists[i]) && NonNegative(Ids(lists[i]))
  {
    if i > 0 {
      EditsKeepOrder(lists, edits, i - 1);
      assert Ids(lists[(i - 1) + 1]) == Edited(Ids(lists[i - 1]), edits[i - 1]);
      EditsKeepAscending(Ids(lists[i - 1]), edits[i - 1]);
    }
  }

  function AllAdditions(edits: seq<seq<Edit>>): nat {
    if edits == [] then 0 else Additions(edits[0]) + AllAdditions(edits[1..])
  }

  /** The number of networks behind the last id. */
  function Left(l: seq<Net>, last: Option<int>): nat {
    if last.None? then |l| else CountAbove(Ids(l), last.value)
  }

  lemma {:induction false} LeftIsBehind(l: seq<Net>, last: Option<int>, k: nat)
    requires k <= |l| && IsBehind(l, last, k)
    ensures Left(l, last) == |l| - k
  {
    if last.Some? {
      CountsOf(l, last.value, k);
    }
  }

  lemma {:induction false} CountsOf(l: seq<Net>, last: int, k: nat)
    requires k <= |l| && forall i :: 0 <= i < |l| ==> (i < k <==> l[i].id <= last)
    ensures CountAbove(Ids(l), last) == |l| - k
  {
    if l != [] {
      var n := |l| - 1;
      assert Ids(l)[..n] == Ids(l[..n]);
      CountsOf(l[..n], last, if k <= n then k else n);
    }
  }

  /** A page that is not empty leaves fewer behind. */
  lemma PageLeavesFewer(l: seq<Net>, last: Option<int>, buflen: nat)
    requires Ordered(l) && RowsFit(l, buflen)
    ensures var page := PageNets(l, last, buflen);
            page != [] ==> NextLast(page, last).Some? && Left(l, NextLast(page, last)) < Left(l, last)
  {
    var page := PageNets(l, last, buflen);
    var k, m := PagePosition(l, last, buflen);
    LeftIsBehind(l, last, k);
    if k < m {
      CutAt(l, m);
      SlicesJoin(l, k, m);
      LeftIsBehind(l, NextLast(page, last), m);
    }
  }

  /** With more fetches than there are networks to come and networks added meanwhile, the client comes
      to an empty page. */
  lemma {:induction false} EmptyPageIsReached(lists: seq<seq<Net>>, edits: seq<seq<Edit>>, last: Option<int>,
                                              buflen: nat)
    requires EditedBy(lists, edits) && AllOrdered(lists, buflen)
    requires |lists| > Left(lists[0], last) + AllAdditions(edits)
    ensures Complete(lists, last, buflen)
    decreases |lists|
  {
    var page := PageNets(lists[0], last, buflen);
    var next := NextLast(page, last);
    assert lists[0] in lists;
    PageLeavesFewer(lists[0], last, buflen);
    if page != [] {
      assert edits != [];
      assert Ids(lists[0 + 1]) == Edited(Ids(lists[0]), edits[0]);
      EditsCount(Ids(lists[0]), edits[0], next.value);
      RestEditedBy(lists, edits);
      EmptyPageIsReached(lists[1..], edits[1..], next, buflen);
    }
  }

  lemma RestEditedBy(lists: seq<seq<Net>>, edits: seq<seq<Edit>>)
    requires EditedBy(lists, edits) && edits != []
    ensures EditedBy(lists[1..], edits[1..])
  {
    forall i | 0 <= i < |edits| - 1 ensures Ids(lists[1..][i + 1]) == Edited(Ids(lists[1..][i]), edits[1..][i]) {
      assert Ids(lists[(i + 1) + 1]) == Edited(Ids(lists[i + 1]), edits[i + 1]);
    }
  }

  /** Fetching pages while networks are added and removed: no id comes twice, and with one fetch more
      than there were networks at first and networks added meanwhile, the client has come to an empty
      page and has every network that was there throughout. */
  lemma PagingIsComplete(lists: seq<seq<Net>>, edits: seq<seq<Edit>>, buflen: nat, id: int)
    requires EditedBy(lists, edits) && Ordered(lists[0]) && NonNegative(Ids(lists[0]))
    requires forall l :: l in lists ==> RowsFit(l, buflen)
    ensures Ascending(Ids(Received(lists, None, buflen)))
    ensures |lists| > |lists[0]| + AllAdditions(edits) ==> Complete(lists, None, buflen)
    ensures Complete(lists, None, buflen) && (forall l :: l in lists ==> id in Ids(l)) ==>
              id in Ids(Received(lists, None, buflen))
  {
    forall l | l in lists ensures Ordered(l) {
      var i: nat :| i < |lists| && lists[i] == l;
      EditsKeepOrder(lists, edits, i);
    }
    ReceivedInOrder(lists, None, buflen);
    if |lists| > |lists[0]| + AllAdditions(edits) {
      EmptyPageIsReached(lists, edits, None, buflen);
    }
    if Complete(lists, None, buflen) && forall l :: l in lists ==> id in Ids(l) {
      PresentIsReceived(lists, None, buflen, id);
    }
  }

  // ----- an unchanged list

  /** While the list stays as it is, one fetch more than there are networks comes to the empty page, and
      the client has received exactly what lies behind the id that it started from. */
  lemma {:induction false} UnchangedIsReceived(l: seq<Net>, lists: seq<seq<Net>>, last: Option<int>, buflen: nat)
    requires Ordered(l) && RowsFit(l, buflen)
    requires |lists| > |Behind(l, last)| && forall i :: 0 <= i < |lists| ==> lists[i] == l
    ensures Complete(lists, last, buflen) && Received(lists, last, buflen) == Behind(l, last)
    decreases |lists|
  {
    var page := PageNets(l, last, buflen);
    PageThenRest(l, last, buflen);
    if page != [] {
      UnchangedIsReceived(l, lists[1..], NextLast(page, last), buflen);
    }
  }

  /** A page and what lies behind it are all that lies behind the last id. */
  lemma PageThenRest(l: seq<Net>, last: Option<int>, buflen: nat)
    requires Ordered(l) && RowsFit(l, buflen)
    ensures var page := PageNets(l, last, buflen);
            Behind(l, last) == if page == [] then [] else page + Behind(l, NextLast(page, last))
  {
    var k, m := PagePosition(l, last, buflen);
    BehindPosition(l, last, k);
    if k < m {
      CutAt(l, m);
      BehindPosition(l, Some(l[m - 1].id), m);
      SlicesJoin(l, k, m);
    }
  }

  lemma SlicesJoin(l: seq<Net>, k: nat, m: nat)
    requires k < m <= |l|
    ensures l[k..] == l[k..m] + l[m..] && l[k..m] != [] && l[k..m][|l[k..m]| - 1] == l[m - 1]
  {
  }

  /** The position behind the last id is given by the ids. */
  lemma BehindPosition(l: seq<Net>, last: Option<int>, k: nat)
    requires Ordered(l) && k <= |l| && IsBehind(l, last, k)
    ensures Behind(l, last) == l[k..]
  {
    var j := BehindIs(l, last);
    var i := if j < k then j else k;
    if last.Some? && i < |l| {
      assert i < j <==> l[i].id <= last.value;
    }
  }

  lemma CutAt(l: seq<Net>, m: nat)
    requires Ordered(l) && 0 < m <= |l|
    ensures IsBehind(l, Some(l[m - 1].id), m)
  {
    forall i | 0 <= i < |l| ensures i < m <==> l[i].id <= l[m - 1].id {
      assert i < m - 1 ==> Ids(l)[i] < Ids(l)[m - 1];
      assert i > m - 1 ==> Ids(l)[m - 1] < Ids(l)[i];
    }
  }

  /** In particular, fetching all pages of a list gives the list. */
  lemma FetchAll(l: seq<Net>, buflen: nat)
    requires Ordered(l) && RowsFit(l, buflen)
    ensures var lists := seq(|l| + 1, i => l);
            Complete(lists, None, buflen) && Received(lists, None, buflen) == l
  {
    UnchangedIsReceived(l, seq(|l| + 1, i => l), None, buflen);
  }
}
