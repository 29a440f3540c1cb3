/** Sorting filenames with a comparator, as `Array.prototype.sort` does: the
    comparator is a parameter (the platform's `localeCompare`), and the sort is
    stable, as ECMAScript requires since its 2019 edition. */
module Ordering {

  /** A comparator: negative, zero or positive as a sorts before, with, or
      after b. */
  type Comparator = (string, string) -> int

  /** A consistent comparator in ECMAScript's sense: swapping the arguments
      flips the sign, and "not after" is transitive. `localeCompare` is one. */
  ghost predicate Consistent(cmp: Comparator) {
    && (forall a, b {:trigger cmp(a, b)} :: cmp(a, b) < 0 <==> cmp(b, a) > 0)
    && (forall a, b, c {:trigger cmp(a, b), cmp(b, c), cmp(a, c)} ::
          cmp(a, b) <= 0 && cmp(b, c) <= 0 ==> cmp(a, c) <= 0)
  }

  /** No element comes after a later one. */
  ghost predicate SortedBy(cmp: Comparator, s: seq<string>) {
    forall i, j {:trigger cmp(s[i], s[j])} | 0 <= i < j < |s| :: cmp(s[i], s[j]) <= 0
  }

  /** The elements of s that cmp ranks level with e, in their order in s. */
  function Peers(cmp: Comparator, s: seq<string>, e: string): (r: seq<string>)
    decreases |s|
  {
    if s == [] then []
    else (if cmp(s[0], e) == 0 then [s[0]] else []) + Peers(cmp, s[1..], e)
  }

  /** x placed before the first element it sorts strictly before. */
  function Insert(cmp: Comparator, x: string, s: seq<string>): (r: seq<string>)
    ensures |r| == |s| + 1
    decreases |s|
  {
    if s == [] then [x]
    else if cmp(x, s[0]) < 0 then [x] + s
    else [s[0]] + Insert(cmp, x, s[1..])
  }

  /** Stable insertion sort: each element goes behind the ones it ties with. */
  function Sort(cmp: Comparator, s: seq<string>): (r: seq<string>)
    ensures multiset(r) == multiset(s)
    ensures |r| == |s|
    ensures Consistent(cmp) ==> SortedBy(cmp, r)
    decreases |s|
  {
    if s == [] then []
    else
      var init, last := s[..|s| - 1], s[|s| - 1];
      assert s == init + [last];
      var sorted := Sort(cmp, init);
      InsertPermutes(cmp, last, sorted);
      InsertKeepsSorted(cmp, last, sorted);
      Insert(cmp, last, sorted)
  }

  // ---------------------------------------------------------------------------
  // Facts about consistent comparators.

  lemma Reflexive(cmp: Comparator, a: string)
    requires Consistent(cmp)
    ensures cmp(a, a) == 0
  {
  }

  /** Strictly before, then not after, is strictly before. */
  lemma BeforeThenNotAfter(cmp: Comparator, a: string, b: string, c: string)
    requires Consistent(cmp)
    requires cmp(a, b) < 0 && cmp(b, c) <= 0
    ensures cmp(a, c) < 0
  {
  }

  lemma {:induction false} InsertPermutes(cmp: Comparator, x: string, s: seq<string>)
    ensures multiset(Insert(cmp, x, s)) == multiset(s) + multiset{x}
    decreases |s|
  {
    if s != [] && cmp(x, s[0]) >= 0 {
      InsertPermutes(cmp, x, s[1..]);
      assert s == [s[0]] + s[1..];
    }
  }

  lemma InsertKeepsSorted(cmp: Comparator, x: string, s: seq<string>)
    ensures Consistent(cmp) && SortedBy(cmp, s) ==> SortedBy(cmp, Insert(cmp, x, s))
  {
    if Consistent(cmp) && SortedBy(cmp, s) {
      InsertSorted(cmp, x, s);
    }
  }

  /** Inserting into a sorted sequence keeps it sorted. */
  lemma {:induction false} InsertSorted(cmp: Comparator, x: string, s: seq<string>)
    requires Consistent(cmp) && SortedBy(cmp, s)
    ensures SortedBy(cmp, Insert(cmp, x, s))
    decreases |s|
  {
    if s == [] {
    } else if cmp(x, s[0]) < 0 {
      forall j | 0 < j < |s|
        ensures cmp(x, s[j]) <= 0
      {
        BeforeThenNotAfter(cmp, x, s[0], s[j]);
      }
    } else {
      var rest := Insert(cmp, x, s[1..]);
      assert SortedBy(cmp, s[1..]);
      InsertSorted(cmp, x, s[1..]);
      assert s == [s[0]] + s[1..];
      InsertPermutes(cmp, x, s[1..]);
      forall j | 0 <= j < |rest|
        ensures cmp(s[0], rest[j]) <= 0
      {
        assert rest[j] in multiset(rest);
        if rest[j] != x {
          assert rest[j] in s[1..];
        }
      }
    }
  }

  // ---------------------------------------------------------------------------
  // Stability, and why it pins the result down.

  lemma PeersConcat(cmp: Comparator, a: seq<string>, b: seq<string>, e: string)
    ensures Peers(cmp, a + b, e) == Peers(cmp, a, e) + Peers(cmp, b, e)
    decreases |a|
  {
    if a != [] {
      assert (a + b)[1..] == a[1..] + b;
      PeersConcat(cmp, a[1..], b, e);
    } else {
      assert a + b == b;
    }
  }

  lemma PeersCons(cmp: Comparator, y: string, rest: seq<string>, e: string)
    ensures Peers(cmp, [y] + rest, e) == (if cmp(y, e) == 0 then [y] else []) + Peers(cmp, rest, e)
  {
    assert ([y] + rest)[1..] == rest;
  }

  lemma PeerIn(cmp: Comparator, s: seq<string>, e: string, k: nat)
    requires k < |Peers(cmp, s, e)|
    ensures exists j :: 0 <= j < |s| && s[j] == Peers(cmp, s, e)[k] && cmp(s[j], e) == 0
    decreases |s|
  {
    if cmp(s[0], e) == 0 {
      if k > 0 {
        PeerIn(cmp, s[1..], e, k - 1);
      }
    } else {
      PeerIn(cmp, s[1..], e, k);
    }
  }

  lemma {:induction false} PeersOfMember(cmp: Comparator, s: seq<string>, j: nat, e: string)
    requires j < |s| && cmp(s[j], e) == 0
    ensures Peers(cmp, s, e) != []
    decreases j
  {
    if j > 0 && cmp(s[0], e) != 0 {
      PeersOfMember(cmp, s[1..], j - 1, e);
    }
  }

  /** No element of a sorted sequence starting strictly after x ties with x. */
  lemma NoPeersAfter(cmp: Comparator, x: string, s: seq<string>, e: string)
    requires Consistent(cmp) && SortedBy(cmp, s)
    requires s != [] && cmp(x, s[0]) < 0 && cmp(x, e) == 0
    ensures Peers(cmp, s, e) == []
  {
    forall j | 0 <= j < |s|
      ensures cmp(s[j], e) != 0
    {
      if j > 0 {
        BeforeThenNotAfter(cmp, x, s[0], s[j]);
      }
      NotAfterThenBefore(cmp, e, x, s[j]);
    }
    NoPeers(cmp, s, e);
  }

  lemma NotAfterThenBefore(cmp: Comparator, a: string, b: string, c: string)
    requires Consistent(cmp)
    requires cmp(b, a) == 0 && cmp(b, c) < 0
    ensures cmp(a, c) < 0 && cmp(c, a) > 0
  {
    assert cmp(a, b) <= 0;
  }

  lemma {:induction false} NoPeers(cmp: Comparator, s: seq<string>, e: string)
    requires forall j | 0 <= j < |s| :: cmp(s[j], e) != 0
    ensures Peers(cmp, s, e) == []
    decreases |s|
  {
    if s != [] {
      NoPeers(cmp, s[1..], e);
    }
  }

  lemma {:induction false} InsertPeers(cmp: Comparator, x: string, s: seq<string>, e: string)
    requires Consistent(cmp) && SortedBy(cmp, s)
    ensures Peers(cmp, Insert(cmp, x, s), e) == Peers(cmp, s, e) + (if cmp(x, e) == 0 then [x] else [])
    decreases |s|
  {
    if s == [] {
      PeersCons(cmp, x, [], e);
    } else if cmp(x, s[0]) < 0 {
      PeersCons(cmp, x, s, e);
      if cmp(x, e) == 0 {
        NoPeersAfter(cmp, x, s, e);
      }
    } else {
      var rest := Insert(cmp, x, s[1..]);
      assert Insert(cmp, x, s) == [s[0]] + rest;
      assert SortedBy(cmp, s[1..]);
      InsertPeers(cmp, x, s[1..], e);
      PeersCons(cmp, s[0], rest, e);
      assert s == [s[0]] + s[1..];
      PeersCons(cmp, s[0], s[1..], e);
    }
  }

  /** Appending one element extends its peer group, and no other. */
  lemma PeersSnoc(cmp: Comparator, init: seq<string>, last: string, e: string)
    ensures Peers(cmp, init + [last], e) == Peers(cmp, init, e) + (if cmp(last, e) == 0 then [last] else [])
  {
    PeersConcat(cmp, init, [last], e);
    assert [last][1..] == [];
  }

  /** The sort keeps every group of tied elements in its original order. */
  lemma {:induction false} SortIsStable(cmp: Comparator, s: seq<string>, e: string)
    requires Consistent(cmp)
    ensures Peers(cmp, Sort(cmp, s), e) == Peers(cmp, s, e)
    decreases |s|
  {
    if s != [] {
      var init, last := s[..|s| - 1], s[|s| - 1];
      var sorted := Sort(cmp, init);
      assert Sort(cmp, s) == Insert(cmp, last, sorted);
      SortIsStable(cmp, init, e);
      InsertPeers(cmp, last, sorted, e);
      assert s == init + [last];
      PeersSnoc(cmp, init, last, e);
    }
  }

  /** The first element of a sorted v is not after any element of a sequence
      whose first element has the same peers in v. */
  lemma HeadNotAfter(cmp: Comparator, u: seq<string>, v: seq<string>)
    requires Consistent(cmp) && SortedBy(cmp, v)
    requires u != [] && Peers(cmp, u, u[0]) == Peers(cmp, v, u[0])
    ensures v != [] && cmp(v[0], u[0]) <= 0
  {
    Reflexive(cmp, u[0]);
    PeersOfMember(cmp, u, 0, u[0]);
    PeerIn(cmp, v, u[0], 0);
    var j :| 0 <= j < |v| && cmp(v[j], u[0]) == 0;
    if j > 0 {
      assert cmp(v[0], v[j]) <= 0;
    }
  }

  /** Two sorted sequences with the same tie groups, in the same orders, are
      equal: a stable sort has exactly one possible result, so any stable
      sorting algorithm computes the same sequence as Sort. */
  lemma {:induction false} StableSortedUnique(cmp: Comparator, u: seq<string>, v: seq<string>)
    requires Consistent(cmp) && SortedBy(cmp, u) && SortedBy(cmp, v)
    requires forall e :: Peers(cmp, u, e) == Peers(cmp, v, e)
    ensures u == v
    decreases |u|
  {
    if u != [] {
      HeadNotAfter(cmp, u, v);
    }
    if v != [] {
      HeadNotAfter(cmp, v, u);
    }
    if u != [] && v != [] {
      var a, b := u[0], v[0];
      assert u == [a] + u[1..] && v == [b] + v[1..];
      PeersCons(cmp, a, u[1..], a);
      PeersCons(cmp, b, v[1..], a);
      Reflexive(cmp, a);
      assert cmp(b, a) == 0;
      assert Peers(cmp, u, a) == Peers(cmp, v, a);
      assert Peers(cmp, u, a)[0] == a && Peers(cmp, v, a)[0] == b;
      forall e
        ensures Peers(cmp, u[1..], e) == Peers(cmp, v[1..], e)
      {
        PeersCons(cmp, a, u[1..], e);
        PeersCons(cmp, b, v[1..], e);
        assert Peers(cmp, u, e) == Peers(cmp, v, e);
        var h := if cmp(a, e) == 0 then [a] else [];
        assert Peers(cmp, u[1..], e) == (h + Peers(cmp, u[1..], e))[|h|..];
        assert Peers(cmp, v[1..], e) == (h + Peers(cmp, v[1..], e))[|h|..];
      }
      assert SortedBy(cmp, u[1..]) && SortedBy(cmp, v[1..]);
      StableSortedUnique(cmp, u[1..], v[1..]);
    }
  }

  /** Sort is the only sorted, stable rearrangement of its input. */
  lemma SortCharacterized(cmp: Comparator, s: seq<string>, v: seq<string>)
    requires Consistent(cmp) && SortedBy(cmp, v)
    requires forall e :: Peers(cmp, v, e) == Peers(cmp, s, e)
    ensures v == Sort(cmp, s)
  {
    forall e
      ensures Peers(cmp, Sort(cmp, s), e) == Peers(cmp, v, e)
    {
      SortIsStable(cmp, s, e);
    }
    StableSortedUnique(cmp, Sort(cmp, s), v);
  }

  /** Comparators that agree on every pair sort every sequence alike. */
  lemma {:induction false} SortAgrees(c1: Comparator, c2: Comparator, s: seq<string>)
    requires forall a, b :: c1(a, b) == c2(a, b)
    ensures Sort(c1, s) == Sort(c2, s)
    decreases |s|
  {
    if s != [] {
      SortAgrees(c1, c2, s[..|s| - 1]);
      InsertAgrees(c1, c2, s[|s| - 1], Sort(c1, s[..|s| - 1]));
    }
  }

  lemma {:induction false} InsertAgrees(c1: Comparator, c2: Comparator, x: string, s: seq<string>)
    requires forall a, b :: c1(a, b) == c2(a, b)
    ensures Insert(c1, x, s) == Insert(c2, x, s)
    decreases |s|
  {
    if s != [] {
      InsertAgrees(c1, c2, x, s[1..]);
    }
  }
}
