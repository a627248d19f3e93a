/** `UsageBreakdown.init(from:)` and `ranked`: keep the 25 largest items of a stream
    without ever holding more than 26. */
module Breakdown {
  import opened Text
  import opened Numbers

  datatype Item = Item(key: Option<string>, title: Option<string>, totalTokens: Option<int>)

  const ITEM_LIMIT := 25

  /** The localised, case-insensitive "comes before" on names. */
  type Collation = (string, string) -> bool

  ghost predicate WeakOrder(less: Collation) {
    && (forall a :: !less(a, a))
    && (forall a, b, c :: less(a, b) && less(b, c) ==> less(a, c))
    && (forall a, b, c :: !less(a, b) && !less(b, c) ==> !less(a, c))
  }

  function Name(i: Item): string {
    match i.title
    case Some(l) => l
    case None => if i.key.Some? then i.key.value else ""
  }

  /** The comparison `ranked` sorts by: larger counts first, counts before none, and
      names among equals. */
  predicate Before(a: Item, b: Item, less: Collation) {
    match (a.totalTokens, b.totalTokens)
    case (Some(left), Some(right)) => if left != right then left > right else less(Name(a), Name(b))
    case (Some(_), None) => true
    case (None, Some(_)) => false
    case (None, None) => less(Name(a), Name(b))
  }

  lemma BeforeIsWeakOrder(less: Collation, a: Item, b: Item, c: Item)
    requires WeakOrder(less)
    ensures !Before(a, a, less)
    ensures Before(a, b, less) && Before(b, c, less) ==> Before(a, c, less)
    ensures !Before(a, b, less) && !Before(b, c, less) ==> !Before(a, c, less)
  {
  }

  // ---- Stable sorting ------------------------------------------------------

  /** Behind everything that need not come after `x`. */
  function Insert(s: seq<Item>, x: Item, less: Collation): seq<Item> {
    if s == [] then [x]
    else if Before(x, s[0], less) then [x] + s
    else [s[0]] + Insert(s[1..], x, less)
  }

  function Ranked(xs: seq<Item>, less: Collation): (s: seq<Item>)
    ensures |s| == |xs|
  {
    if xs == [] then [] else
    var n := |xs| - 1;
    InsertLength(Ranked(xs[..n], less), xs[n], less);
    Insert(Ranked(xs[..n], less), xs[n], less)
  }

  lemma {:induction false} InsertLength(s: seq<Item>, x: Item, less: Collation)
    ensures |Insert(s, x, less)| == |s| + 1
  {
    if s != [] && !Before(x, s[0], less) { InsertLength(s[1..], x, less); }
  }

  ghost predicate Sorted(s: seq<Item>, less: Collation) {
    forall i, j :: 0 <= i < j < |s| ==> !Before(s[j], s[i], less)
  }

  predicate Tied(a: Item, b: Item, less: Collation) {
    !Before(a, b, less) && !Before(b, a, less)
  }

  /** The items tied with `x`, in order. */
  function Class(s: seq<Item>, x: Item, less: Collation): seq<Item> {
    if s == [] then []
    else (if Tied(s[0], x, less) then [s[0]] else []) + Class(s[1..], x, less)
  }

  /** A stable sort of `xs`: in order, the same items, ties as they came. */
  ghost predicate IsStableSort(s: seq<Item>, xs: seq<Item>, less: Collation) {
    Sorted(s, less) && multiset(s) == multiset(xs) && forall x :: Class(s, x, less) == Class(xs, x, less)
  }

  lemma {:induction false} InsertIsPermutation(s: seq<Item>, x: Item, less: Collation)
    ensures multiset(Insert(s, x, less)) == multiset(s) + multiset{x}
  {
    if s == [] {
    } else {
      assert s == [s[0]] + s[1..];
      if !Before(x, s[0], less) { InsertIsPermutation(s[1..], x, less); }
    }
  }

  lemma {:induction false} InsertMembers(s: seq<Item>, x: Item, less: Collation)
    ensures forall j :: 0 <= j < |Insert(s, x, less)| ==> Insert(s, x, less)[j] == x || Insert(s, x, less)[j] in s
  {
    if s != [] && !Before(x, s[0], less) {
      InsertMembers(s[1..], x, less);
      assert forall y :: y in s[1..] ==> y in s;
    }
  }

  lemma SortedCons(y: Item, t: seq<Item>, less: Collation)
    requires Sorted(t, less) && forall j :: 0 <= j < |t| ==> !Before(t[j], y, less)
    ensures Sorted([y] + t, less)
  {
  }

  lemma {:induction false} InsertKeepsSorted(s: seq<Item>, x: Item, less: Collation)
    requires WeakOrder(less) && Sorted(s, less)
    ensures Sorted(Insert(s, x, less), less)
  {
    if s == [] {
    } else {
      if Before(x, s[0], less) {
        forall j | 0 <= j < |s| ensures !Before(s[j], x, less) {
          BeforeIsWeakOrder(less, x, s[0], x);
          BeforeIsWeakOrder(less, s[j], x, s[0]);
        }
        SortedCons(x, s, less);
      } else {
        var t := Insert(s[1..], x, less);
        InsertKeepsSorted(s[1..], x, less);
        InsertMembers(s[1..], x, less);
        forall j | 0 <= j < |t| ensures !Before(t[j], s[0], less) {
          if t[j] != x {
            var k :| 0 <= k < |s[1..]| && s[1..][k] == t[j];
            assert s[k + 1] == t[j];
          }
        }
        SortedCons(s[0], t, less);
      }
    }
  }

  lemma {:induction false} ClassAppend(a: seq<Item>, b: seq<Item>, x: Item, less: Collation)
    ensures Class(a + b, x, less) == Class(a, x, less) + Class(b, x, less)
  {
    if a == [] {
      assert a + b == b;
    } else {
      ClassAppend(a[1..], b, x, less);
      assert (a + b)[1..] == a[1..] + b;
      assert Tied(a[0], x, less) ==>
          [a[0]] + (Class(a[1..], x, less) + Class(b, x, less)) == ([a[0]] + Class(a[1..], x, less))
            + Class(b, x, less);
    }
  }

  /** A tied item is inserted behind the ones it is tied with. */
  lemma {:induction false} InsertKeepsClass(s: seq<Item>, y: Item, x: Item, less: Collation)
    requires WeakOrder(less) && Sorted(s, less)
    ensures Class(Insert(s, y, less), x, less) == Class(s, x, less) + Class([y], x, less)
  {
    if s == [] {
    } else if Before(y, s[0], less) {
      ClassCons(y, s, x, less);
      if Tied(y, x, less) { NoneTied(s, y, x, less); }
    } else {
      var more := Insert(s[1..], y, less);
      InsertKeepsClass(s[1..], y, x, less);
      ClassCons(s[0], more, x, less);
      assert s == [s[0]] + s[1..];
      ClassCons(s[0], s[1..], x, less);
      Regroup(Class([s[0]], x, less), Class(s[1..], x, less), Class([y], x, less));
    }
  }

  lemma ClassCons(a: Item, s: seq<Item>, x: Item, less: Collation)
    ensures Class([a] + s, x, less) == Class([a], x, less) + Class(s, x, less)
  {
    assert ([a] + s)[1..] == s;
  }

  lemma {:induction false} NoneTied(s: seq<Item>, y: Item, x: Item, less: Collation)
    requires WeakOrder(less) && Sorted(s, less) && s != [] && Before(y, s[0], less) && Tied(y, x, less)
    ensures Class(s, x, less) == []
  {
    BeforeIsWeakOrder(less, y, x, s[0]);
    if |s| <= 1 {
    } else {
      BeforeIsWeakOrder(less, y, s[1], s[0]);
      NoneTied(s[1..], y, x, less);
    }
  }

  /** `Ranked` is a stable sort. */
  lemma {:induction false} RankedIsStableSort(xs: seq<Item>, less: Collation)
    requires WeakOrder(less)
    ensures IsStableSort(Ranked(xs, less), xs, less)
  {
    if xs == [] {
    } else {
      var n := |xs| - 1;
      var front := Ranked(xs[..n], less);
      RankedIsStableSort(xs[..n], less);
      InsertKeepsSorted(front, xs[n], less);
      InsertIsPermutation(front, xs[n], less);
      assert xs == xs[..n] + [xs[n]];
      forall x ensures Class(Ranked(xs, less), x, less) == Class(xs, x, less) {
        InsertKeepsClass(front, xs[n], x, less);
        ClassAppend(xs[..n], [xs[n]], x, less);
      }
    }
  }

  lemma {:induction false} ClassOfMember(s: seq<Item>, k: nat, x: Item, less: Collation)
    requires k < |s| && Tied(s[k], x, less)
    ensures s[k] in Class(s, x, less)
  {
    if k == 0 {
    } else {
      ClassOfMember(s[1..], k - 1, x, less);
    }
  }

  lemma {:induction false} ClassMembers(s: seq<Item>, x: Item, less: Collation)
    ensures forall y :: y in Class(s, x, less) ==> y in s && Tied(y, x, less)
  {
    if s == [] {
    } else {
      ClassMembers(s[1..], x, less);
    }
  }

  lemma ClassTail(s: seq<Item>, x: Item, less: Collation)
    requires s != []
    ensures Class(s[1..], x, less) == if Tied(s[0], x, less) then Class(s, x, less)[1..] else Class(s, x, less)
  {
    var tail := Class(s[1..], x, less);
    assert [] + tail == tail;
  }

  /** There is only one: whatever sorting algorithm is used, if it is stable, it
      returns `Ranked`. */
  lemma {:induction false} StableSortIsUnique(a: seq<Item>, b: seq<Item>, less: Collation)
    requires WeakOrder(less) && Sorted(a, less) && Sorted(b, less)
    requires forall x :: Class(a, x, less) == Class(b, x, less)
    ensures a == b
  {
    if a == [] || b == [] {
      if a != [] { BeforeIsWeakOrder(less, a[0], a[0], a[0]); ClassOfMember(a, 0, a[0], less); }
      if b != [] { BeforeIsWeakOrder(less, b[0], b[0], b[0]); ClassOfMember(b, 0, b[0], less); }
    } else {
      SameHead(a, b, less);
      forall x ensures Class(a[1..], x, less) == Class(b[1..], x, less) {
        assert Class(a, x, less) == Class(b, x, less);
        ClassTail(a, x, less);
        ClassTail(b, x, less);
      }
      StableSortIsUnique(a[1..], b[1..], less);
      assert a == [a[0]] + a[1..] && b == [b[0]] + b[1..];
    }
  }

  lemma HeadIsLeast(a: seq<Item>, b: seq<Item>, less: Collation)
    requires WeakOrder(less) && Sorted(b, less) && a != [] && b != []
    requires Class(a, a[0], less) == Class(b, a[0], less)
    ensures !Before(a[0], b[0], less)
    ensures Class(a, a[0], less) != [] && Class(a, a[0], less)[0] == a[0]
  {
    BeforeIsWeakOrder(less, a[0], a[0], a[0]);
    assert Tied(a[0], a[0], less);
    ClassOfMember(a, 0, a[0], less);
    ClassMembers(b, a[0], less);
    assert a[0] in b;
    BeforeIsWeakOrder(less, b[0], b[0], b[0]);
  }

  lemma SameHead(a: seq<Item>, b: seq<Item>, less: Collation)
    requires WeakOrder(less) && Sorted(a, less) && Sorted(b, less) && a != [] && b != []
    requires forall x :: Class(a, x, less) == Class(b, x, less)
    ensures a[0] == b[0]
  {
    HeadIsLeast(a, b, less);
    HeadIsLeast(b, a, less);
    assert Tied(b[0], a[0], less);
    assert Class(b, a[0], less)[0] == b[0];
  }

  // ---- Streaming -----------------------------------------------------------

  /** The `k` best of `s` with a newcomer are those of the `k` best with it. */
  lemma {:induction false} TakeInsert(s: seq<Item>, x: Item, k: nat, less: Collation)
    requires k <= |s|
    ensures |Insert(s, x, less)| == |s| + 1 && |Insert(s[..k], x, less)| == k + 1
    ensures Insert(s, x, less)[..k] == Insert(s[..k], x, less)[..k]
  {
    InsertLength(s, x, less);
    InsertLength(s[..k], x, less);
    if k == 0 {
    } else {
      assert s[..k][1..] == s[1..][..k - 1];
      if !Before(x, s[0], less) {
        TakeInsert(s[1..], x, k - 1, less);
        var t, u := Insert(s[1..], x, less), Insert(s[1..][..k - 1], x, less);
        assert ([s[0]] + t)[..k] == [s[0]] + t[..k - 1];
        assert ([s[0]] + u)[..k] == [s[0]] + u[..k - 1];
      } else {
        assert ([x] + s)[..k] == [x] + s[..k - 1];
        assert ([x] + s[..k])[..k] == [x] + s[..k][..k - 1];
        assert s[..k][..k - 1] == s[..k - 1];
      }
    }
  }

  lemma {:induction false} InsertLast(s: seq<Item>, x: Item, less: Collation)
    requires forall i :: 0 <= i < |s| ==> !Before(x, s[i], less)
    ensures Insert(s, x, less) == s + [x]
  {
    if s == [] {
    } else {
      InsertLast(s[1..], x, less);
      assert s == [s[0]] + s[1..];
    }
  }

  lemma {:induction false} SortedIsFixed(s: seq<Item>, less: Collation)
    requires Sorted(s, less)
    ensures Ranked(s, less) == s
  {
    if s == [] {
    } else {
      var n := |s| - 1;
      SortedIsFixed(s[..n], less);
      InsertLast(s[..n], s[n], less);
      assert s == s[..n] + [s[n]];
    }
  }

  function Declared(omitted: Option<int>): nat {
    match omitted
    case None => 0
    case Some(n) => Max0(n)
  }

  /** What is retained ranks like everything seen so far, cut to the limit. */
  ghost predicate Retains(retained: seq<Item>, seen: seq<Item>, less: Collation) {
    |retained| == Min(ITEM_LIMIT, |seen|) && Ranked(retained, less) == Ranked(seen, less)[..|retained|]
  }

  lemma RankedSnoc(xs: seq<Item>, x: Item, less: Collation)
    ensures Ranked(xs + [x], less) == Insert(Ranked(xs, less), x, less)
  {
    assert (xs + [x])[..|xs|] == xs;
  }

  lemma RetainMore(retained: seq<Item>, seen: seq<Item>, x: Item, less: Collation)
    requires Retains(retained, seen, less) && |seen| < ITEM_LIMIT
    ensures Retains(retained + [x], seen + [x], less)
  {
    RankedSnoc(retained, x, less);
    RankedSnoc(seen, x, less);
    assert Ranked(seen, less)[..|seen|] == Ranked(seen, less);
    assert Ranked(seen + [x], less)[..|seen| + 1] == Ranked(seen + [x], less);
  }

  lemma CutBack(retained: seq<Item>, seen: seq<Item>, x: Item, less: Collation)
    requires WeakOrder(less) && Retains(retained, seen, less) && |seen| >= ITEM_LIMIT
    ensures Retains(Ranked(retained + [x], less)[..ITEM_LIMIT], seen + [x], less)
  {
    RankedSnoc(retained, x, less);
    RankedSnoc(seen, x, less);
    TakeInsert(Ranked(seen, less), x, ITEM_LIMIT, less);
    RankedIsStableSort(retained + [x], less);
    SortedIsFixed(Ranked(retained + [x], less)[..ITEM_LIMIT], less);
  }

  // ---- What is kept --------------------------------------------------------

  /** An item is listed under its title, else its key, else nothing. */
  predicate ListedAs(i: Item, name: string) {
    || i.title == Some(name)
    || (i.title == None && i.key == Some(name))
    || (i.title == None && i.key == None && name == "")
  }

  /** `b` may stand behind `a`: it has no larger count, and none if `a` has none; and of
      two with equal counts, or without, its name does not come first. */
  ghost predicate MayFollow(a: Item, b: Item, less: Collation) {
    && (b.totalTokens.Some? ==> a.totalTokens.Some? && a.totalTokens.value >= b.totalTokens.value)
    && (a.totalTokens == b.totalTokens ==>
          forall x, y :: ListedAs(a, x) && ListedAs(b, y) ==> !less(y, x))
  }

  lemma MayFollowIff(a: Item, b: Item, less: Collation)
    ensures MayFollow(a, b, less) <==> !Before(b, a, less)
  {
    assert ListedAs(a, Name(a)) && ListedAs(b, Name(b));
  }

  ghost predicate InOrder(items: seq<Item>, less: Collation) {
    forall i, j :: 0 <= i < j < |items| ==> MayFollow(items[i], items[j], less)
  }

  /** The items are in order, and with those left out make up the stream, of which none
      belongs in front of any that is kept. */
  ghost predicate Best(items: seq<Item>, rest: seq<Item>, stream: seq<Item>, less: Collation) {
    && multiset(items) + multiset(rest) == multiset(stream)
    && InOrder(items, less)
    && (forall i, j :: 0 <= i < |items| && 0 <= j < |rest| ==> MayFollow(items[i], rest[j], less))
  }

  lemma SortedIsInOrder(s: seq<Item>, less: Collation)
    requires Sorted(s, less)
    ensures InOrder(s, less)
  {
    forall i, j | 0 <= i < j < |s| ensures MayFollow(s[i], s[j], less) { MayFollowIff(s[i], s[j], less); }
  }

  lemma CutIsBest(s: seq<Item>, n: nat, less: Collation)
    requires n <= |s| && InOrder(s, less)
    ensures Best(s[..n], s[n..], s, less)
  {
    assert s == s[..n] + s[n..];
  }

  lemma RankedAreBest(stream: seq<Item>, n: nat, less: Collation)
    requires WeakOrder(less) && n <= |stream|
    ensures Best(Ranked(stream, less)[..n], Ranked(stream, less)[n..], stream, less)
  {
    RankedIsStableSort(stream, less);
    SortedIsInOrder(Ranked(stream, less), less);
    CutIsBest(Ranked(stream, less), n, less);
  }

  lemma SeenMore(stream: seq<Item>, k: nat)
    requires k < |stream|
    ensures stream[..k + 1] == stream[..k] + [stream[k]]
  {
  }

  /** Decode a stream item by item, cutting back whenever there is one too many. */
  method DecodeItems(stream: seq<Item>, declared: Option<int>, less: Collation) returns (items: seq<Item>, omitted: nat)
    requires WeakOrder(less)
    ensures items == Ranked(stream, less)[..Min(ITEM_LIMIT, |stream|)]
    ensures |items| == if |stream| <= 25 then |stream| else 25
    ensures exists rest :: Best(items, rest, stream, less)
    ensures |items| + omitted == |stream| + if declared.Some? && declared.value > 0 then declared.value else 0
  {
    var retained: seq<Item> := [];
    var decodedCount := 0;
    while decodedCount < |stream|
      invariant decodedCount <= |stream|
      invariant Retains(retained, stream[..decodedCount], less)
    {
      if decodedCount < ITEM_LIMIT {
        RetainMore(retained, stream[..decodedCount], stream[decodedCount], less);
      } else {
        CutBack(retained, stream[..decodedCount], stream[decodedCount], less);
      }
      SeenMore(stream, decodedCount);
      retained := retained + [stream[decodedCount]];
      decodedCount := decodedCount + 1;
      if |retained| > ITEM_LIMIT {
        retained := Ranked(retained, less)[..ITEM_LIMIT];
      }
    }
    assert stream[..|stream|] == stream;
    items := Ranked(retained, less);
    omitted := Declared(declared) + Max0(decodedCount - ITEM_LIMIT);
    RankedAreBest(stream, Min(ITEM_LIMIT, |stream|), less);
  }
}
