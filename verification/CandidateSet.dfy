/**
  The `std::set` of candidates. It holds pointers to search states, here positions in the list of
  their keys, kept in some order by a search tree. Where a new pointer goes depends on the shape the
  tree happens to have, and where the comparator as written is no strict weak order that choice
  shows. The set is therefore a relation: everything proved here holds of every choice.
 */
module CandidateSet {
  import opened Ranking

  /** The set in iteration order; its first element is at `begin()`. */
  type Pointers = seq<nat>

  predicate Pointing(keys: seq<Key>, r: Pointers) {
    forall i :: 0 <= i < |r| ==> r[i] < |keys|
  }

  /** A place where a search for x can end: x is not put before the left neighbour, but before the right one. */
  predicate Gap(keys: seq<Key>, r: Pointers, x: nat, k: nat)
    requires x < |keys| && k <= |r| && Pointing(keys, r)
  {
    && (k > 0 ==> !Written(keys[x], keys[r[k - 1]]))
    && (k < |r| ==> Written(keys[x], keys[r[k]]))
  }

  predicate HasEqual(keys: seq<Key>, r: Pointers, x: nat)
    requires x < |keys| && Pointing(keys, r)
  {
    exists i :: 0 <= i < |r| && keys[r[i]] == keys[x]
  }

  /** x goes into a gap whose left neighbour, if any, precedes it. */
  ghost predicate InsertedAt(keys: seq<Key>, r: Pointers, x: nat, k: nat, r': Pointers)
    requires x < |keys| && Pointing(keys, r)
  {
    && k <= |r| && Gap(keys, r, x, k)
    && (k > 0 ==> Written(keys[r[k - 1]], keys[x]))
    && r' == r[..k] + [x] + r[k..]
  }

  /** A possible insertion: into some such gap, or not at all if an equivalent element is there. */
  ghost predicate MayInsert(keys: seq<Key>, r: Pointers, x: nat, r': Pointers)
    requires x < |keys| && Pointing(keys, r)
  {
    || (exists k :: InsertedAt(keys, r, x, k, r'))
    || (r' == r && HasEqual(keys, r, x))
  }

  /** A possible set after the first n candidates were inserted, in the order they were found. */
  ghost predicate MayBuild(keys: seq<Key>, n: nat, r: Pointers)
    requires n <= |keys|
  {
    if n == 0 then r == []
    else exists p :: MayBuild(keys, n - 1, p) && Pointing(keys, p) && MayInsert(keys, p, n - 1, r)
  }

  /** A candidate that some way of building the set puts at `begin()`. */
  ghost predicate MayFront(keys: seq<Key>, w: nat) {
    exists r :: MayBuild(keys, |keys|, r) && r != [] && r[0] == w
  }

  /** Where the search ended: the new element is dropped if the left neighbour does not precede it. */
  function InsertedInGap(keys: seq<Key>, r: Pointers, x: nat, k: nat): Pointers
    requires x < |keys| && k <= |r| && Pointing(keys, r)
  {
    if k > 0 && !Written(keys[r[k - 1]], keys[x]) then r else r[..k] + [x] + r[k..]
  }

  lemma GapIsPossible(keys: seq<Key>, r: Pointers, x: nat, k: nat)
    requires x < |keys| && k <= |r| && Pointing(keys, r) && Gap(keys, r, x, k)
    ensures MayInsert(keys, r, x, InsertedInGap(keys, r, x, k))
  {
    if k > 0 && !Written(keys[r[k - 1]], keys[x]) {
      UnorderedMeansEqual(keys[r[k - 1]], keys[x]);
    } else {
      assert InsertedAt(keys, r, x, k, r[..k] + [x] + r[k..]);
    }
  }

  // ---------- search trees choose gaps, and only gaps ----------

  datatype SearchTree = Leaf | Fork(left: SearchTree, element: nat, right: SearchTree)

  function InOrder(t: SearchTree): Pointers {
    match t
    case Leaf => []
    case Fork(l, e, r) => InOrder(l) + [e] + InOrder(r)
  }

  lemma OnTheLeft(keys: seq<Key>, l: Pointers, e: nat, r: Pointers, x: nat, k: nat)
    requires x < |keys| && e < |keys| && k <= |l| && Pointing(keys, l + [e] + r) && Pointing(keys, l)
    requires Gap(keys, l, x, k) && Written(keys[x], keys[e])
    ensures Gap(keys, l + [e] + r, x, k)
  {
    var s := l + [e] + r;
    assert s[|l|] == e && forall i :: 0 <= i < |l| ==> s[i] == l[i];
  }

  lemma OnTheRight(keys: seq<Key>, l: Pointers, e: nat, r: Pointers, x: nat, k: nat)
    requires x < |keys| && e < |keys| && k <= |r| && Pointing(keys, l + [e] + r) && Pointing(keys, r)
    requires Gap(keys, r, x, k) && !Written(keys[x], keys[e])
    ensures Gap(keys, l + [e] + r, x, |l| + 1 + k)
  {
    var s := l + [e] + r;
    assert s[|l|] == e && forall i :: 0 <= i < |r| ==> s[|l| + 1 + i] == r[i];
  }

  lemma Subtrees(keys: seq<Key>, l: Pointers, e: nat, r: Pointers)
    requires Pointing(keys, l + [e] + r)
    ensures Pointing(keys, l) && e < |keys| && Pointing(keys, r)
  {
    var s := l + [e] + r;
    assert s[|l|] == e;
    assert forall i :: 0 <= i < |l| ==> s[i] == l[i];
    assert forall i :: 0 <= i < |r| ==> s[|l| + 1 + i] == r[i];
  }

  /** Where the descent ends: left if the new element is put before the one met, else right. */
  function Descent(keys: seq<Key>, t: SearchTree, x: nat): (k: nat)
    requires x < |keys| && Pointing(keys, InOrder(t))
    ensures k <= |InOrder(t)|
  {
    match t
    case Leaf => 0
    case Fork(l, e, r) =>
      Subtrees(keys, InOrder(l), e, InOrder(r));
      if Written(keys[x], keys[e]) then Descent(keys, l, x)
      else |InOrder(l)| + 1 + Descent(keys, r, x)
  }

  /** Whatever the tree's shape, the descent ends in a gap. */
  lemma {:induction false} DescentEndsInGap(keys: seq<Key>, t: SearchTree, x: nat)
    requires x < |keys| && Pointing(keys, InOrder(t))
    ensures Gap(keys, InOrder(t), x, Descent(keys, t, x))
  {
    hide Gap, Pointing, Written;
    match t
    case Leaf =>
      EmptyGap(keys, x);
    case Fork(l, e, r) =>
      Subtrees(keys, InOrder(l), e, InOrder(r));
      if Written(keys[x], keys[e]) {
        DescentEndsInGap(keys, l, x);
        OnTheLeft(keys, InOrder(l), e, InOrder(r), x, Descent(keys, l, x));
      } else {
        DescentEndsInGap(keys, r, x);
        OnTheRight(keys, InOrder(l), e, InOrder(r), x, Descent(keys, r, x));
      }
  }

  lemma EmptyGap(keys: seq<Key>, x: nat)
    requires x < |keys|
    ensures Pointing(keys, []) && Gap(keys, [], x, 0)
  {
  }

  /** What a search tree does with a new element is a possible insertion. */
  lemma TreeInsertIsPossible(keys: seq<Key>, t: SearchTree, x: nat)
    requires x < |keys| && Pointing(keys, InOrder(t))
    ensures MayInsert(keys, InOrder(t), x, InsertedInGap(keys, InOrder(t), x, Descent(keys, t, x)))
  {
    DescentEndsInGap(keys, t, x);
    GapIsPossible(keys, InOrder(t), x, Descent(keys, t, x));
  }

  /** A tree whose elements are a given list, hanging from left to right. */
  function Spine(r: Pointers): (t: SearchTree)
    ensures InOrder(t) == r
  {
    if r == [] then Leaf else Fork(Leaf, r[0], Spine(r[1..]))
  }

  /** Conversely every gap is where the descent ends in some tree with these elements. */
  lemma EveryGapIsADescent(keys: seq<Key>, r: Pointers, x: nat, k: nat) returns (t: SearchTree)
    requires x < |keys| && Pointing(keys, r) && k <= |r| && Gap(keys, r, x, k)
    ensures InOrder(t) == r && Descent(keys, t, x) == k
  {
    if k == 0 {
      t := Spine(r);
    } else {
      var right := Spine(r[k..]);
      t := Fork(Spine(r[..k - 1]), r[k - 1], right);
      assert InOrder(t) == r;
      assert Descent(keys, right, x) == 0;
    }
  }

  lemma {:induction false} SomeGap(keys: seq<Key>, r: Pointers, x: nat, from: nat)
    requires x < |keys| && Pointing(keys, r) && from <= |r|
    requires from > 0 ==> !Written(keys[x], keys[r[from - 1]])
    ensures exists k: nat :: from <= k <= |r| && Gap(keys, r, x, k)
    decreases |r| - from
  {
    if from < |r| && !Written(keys[x], keys[r[from]]) {
      SomeGap(keys, r, x, from + 1);
    } else {
      assert Gap(keys, r, x, from);
    }
  }

  /** Inserting, with the tree's choice left open: any gap may be where the search ends. */
  method Insert(keys: seq<Key>, r: Pointers, x: nat) returns (r': Pointers)
    requires x < |keys| && Pointing(keys, r)
    ensures MayInsert(keys, r, x, r')
  {
    SomeGap(keys, r, x, 0);
    var k: nat :| k <= |r| && Gap(keys, r, x, k);
    GapIsPossible(keys, r, x, k);
    if k > 0 && !Written(keys[r[k - 1]], keys[x]) {
      r' := r;
    } else {
      r' := r[..k] + [x] + r[k..];
    }
  }

  // ---------- every run ----------

  lemma LastInsertion(keys: seq<Key>, n: nat, r: Pointers) returns (p: Pointers)
    requires 0 < n <= |keys| && MayBuild(keys, n, r)
    ensures MayBuild(keys, n - 1, p) && Pointing(keys, p) && MayInsert(keys, p, n - 1, r)
  {
    p :| MayBuild(keys, n - 1, p) && Pointing(keys, p) && MayInsert(keys, p, n - 1, r);
  }

  lemma AnotherInsertion(keys: seq<Key>, x: nat, p: Pointers, r: Pointers)
    requires x < |keys| && MayBuild(keys, x, p) && Pointing(keys, p) && MayInsert(keys, p, x, r)
    ensures MayBuild(keys, x + 1, r)
  {
    var n := x + 1;
    assert MayBuild(keys, n - 1, p) && MayInsert(keys, p, n - 1, r);
  }

  lemma InsertionPoint(keys: seq<Key>, r: Pointers, x: nat, r': Pointers) returns (k: nat)
    requires x < |keys| && Pointing(keys, r) && MayInsert(keys, r, x, r')
    requires r' != r || !HasEqual(keys, r, x)
    ensures InsertedAt(keys, r, x, k, r')
  {
    k :| InsertedAt(keys, r, x, k, r');
  }

  lemma NothingPoints(keys: seq<Key>)
    ensures Pointing(keys[..0], []) && Pointing(keys, [])
  {
  }

  lemma PointsAfterInsert(keys: seq<Key>, r: Pointers, x: nat, r': Pointers)
    requires x < |keys| && Pointing(keys, r) && Pointing(keys[..x], r) && MayInsert(keys, r, x, r')
    ensures Pointing(keys[..x + 1], r') && Pointing(keys, r') && r' != []
  {
    if r' != r || !HasEqual(keys, r, x) {
      var k := InsertionPoint(keys, r, x, r');
    }
  }

  /** The set points to candidates inserted so far, and is empty only before the first. */
  lemma {:induction false} BuildPoints(keys: seq<Key>, n: nat, r: Pointers)
    requires n <= |keys| && MayBuild(keys, n, r)
    ensures Pointing(keys[..n], r) && Pointing(keys, r) && (n > 0 ==> r != [])
  {
    hide MayInsert, Pointing;
    if n > 0 {
      var p := LastInsertion(keys, n, r);
      BuildPoints(keys, n - 1, p);
      PointsAfterInsert(keys, p, n - 1, r);
    } else {
      NothingPoints(keys);
    }
  }

  /** Wherever an insertion ends, the old front stays or the new element is in front of it. */
  lemma FrontAfterInsert(keys: seq<Key>, r: Pointers, x: nat, r': Pointers)
    requires x < |keys| && Pointing(keys, r) && MayInsert(keys, r, x, r')
    ensures r' != [] && (r == [] ==> r'[0] == x)
    ensures r != [] ==> r'[0] == r[0] || (r'[0] == x && Written(keys[x], keys[r[0]]))
  {
    if r' != r {
      var k := InsertionPoint(keys, r, x, r');
      assert r'[0] == if k == 0 then x else r[0];
    }
  }

  lemma InsertIsPossible(keys: seq<Key>, r: Pointers, x: nat) returns (r': Pointers)
    requires x < |keys| && Pointing(keys, r)
    ensures MayInsert(keys, r, x, r')
  {
    SomeGap(keys, r, x, 0);
    var k: nat :| k <= |r| && Gap(keys, r, x, k);
    GapIsPossible(keys, r, x, k);
    r' := InsertedInGap(keys, r, x, k);
  }

  lemma {:induction false} SomeBuild(keys: seq<Key>, n: nat) returns (r: Pointers)
    requires n <= |keys|
    ensures MayBuild(keys, n, r)
  {
    if n == 0 {
      r := [];
    } else {
      var p := SomeBuild(keys, n - 1);
      BuildPoints(keys, n - 1, p);
      r := InsertIsPossible(keys, p, n - 1);
      AnotherInsertion(keys, n - 1, p, r);
    }
  }

  /** A non-empty candidate list always has a front, which is one of the candidates. */
  lemma SomeFront(keys: seq<Key>) returns (w: nat)
    requires keys != []
    ensures MayFront(keys, w) && w < |keys|
  {
    var r := SomeBuild(keys, |keys|);
    BuildPoints(keys, |keys|, r);
    w := r[0];
  }

  lemma FrontIsCandidate(keys: seq<Key>, w: nat)
    requires MayFront(keys, w)
    ensures w < |keys|
  {
    var r :| MayBuild(keys, |keys|, r) && r != [] && r[0] == w;
    BuildPoints(keys, |keys|, r);
  }

  /** The winner goes to the front when it is inserted, in every run. */
  lemma WinnerArrives(keys: seq<Key>, b: nat, p: Pointers, r: Pointers)
    requires Best(keys, b) && MayBuild(keys, b, p) && Pointing(keys, p) && MayInsert(keys, p, b, r)
    ensures r != [] && r[0] == b
  {
    BuildPoints(keys, b, p);
    forall i | 0 <= i < |p|
      ensures Written(keys[b], keys[p[i]]) && keys[p[i]] != keys[b]
    {
      BestPrecedesEarlier(keys, b, p[i]);
    }
    var k := InsertionPoint(keys, p, b, r);
  }

  /** And it stays there, in every run, until a candidate that overtakes it is inserted. */
  lemma {:induction false} WinnerStays(keys: seq<Key>, b: nat, n: nat, r: Pointers)
    requires Best(keys, b) && b < n <= |keys| && MayBuild(keys, n, r)
    requires forall i :: b < i < n ==> !Written(keys[i], keys[b])
    ensures r != [] && r[0] == b
  {
    hide MayInsert, Best;
    var p := LastInsertion(keys, n, r);
    if n - 1 == b {
      WinnerArrives(keys, b, p, r);
    } else {
      WinnerStays(keys, b, n - 1, p);
      FrontAfterInsert(keys, p, n - 1, r);
    }
  }

  /** If some candidate overtakes it, some run ends with another one in front. */
  lemma {:induction false} WinnerMayLose(keys: seq<Key>, b: nat, i: nat, n: nat) returns (r: Pointers)
    requires Best(keys, b) && b < i < n <= |keys| && Written(keys[i], keys[b])
    ensures MayBuild(keys, n, r) && r != [] && r[0] != b
  {
    var p;
    if n - 1 == i {
      p := SomeBuild(keys, i);
    } else {
      p := WinnerMayLose(keys, b, i, n - 1);
    }
    BuildPoints(keys, n - 1, p);
    if p[0] == b {
      r := [i] + p;
      assert p[..0] == [] && p[0..] == p;
      assert InsertedAt(keys, p, i, 0, r);
    } else {
      r := InsertIsPossible(keys, p, n - 1);
      FrontAfterInsert(keys, p, n - 1, r);
    }
    AnotherInsertion(keys, n - 1, p, r);
  }

  /**
    Over all ways of building the set: the documented winner is at `begin()` in every one of them
    iff no candidate that the search finds later has longer or lexicographically greater literals.
   */
  lemma WinnerIsAlwaysInFrontIff(keys: seq<Key>)
    requires keys != []
    ensures (forall w: nat | MayFront(keys, w) :: w == BestIndex(keys)) <==> !Overtaken(keys, BestIndex(keys))
  {
    var b := BestIndex(keys);
    BestIndexIsBest(keys);
    if !Overtaken(keys, b) {
      forall w: nat | MayFront(keys, w)
        ensures w == b
      {
        var r :| MayBuild(keys, |keys|, r) && r != [] && r[0] == w;
        WinnerStays(keys, b, |keys|, r);
      }
    } else {
      var i :| b < i < |keys| && Written(keys[i], keys[b]);
      var r := WinnerMayLose(keys, b, i, |keys|);
      assert MayFront(keys, r[0]);
    }
  }

  lemma InsertInPrefix(keys: seq<Key>, more: seq<Key>, r: Pointers, x: nat, r': Pointers)
    requires x < |keys| && Pointing(keys, r) && MayInsert(keys, r, x, r')
    ensures Pointing(keys + more, r) && MayInsert(keys + more, r, x, r')
  {
    if r' != r || !HasEqual(keys, r, x) {
      var k := InsertionPoint(keys, r, x, r');
      assert InsertedAt(keys + more, r, x, k, r');
    } else {
      var i :| 0 <= i < |r| && keys[r[i]] == keys[x];
      assert (keys + more)[r[i]] == (keys + more)[x];
    }
  }

  /** A run does not look at candidates that come later. */
  lemma {:induction false} BuildInPrefix(keys: seq<Key>, more: seq<Key>, n: nat, r: Pointers)
    requires n <= |keys| && MayBuild(keys, n, r)
    ensures MayBuild(keys + more, n, r)
  {
    hide MayInsert;
    if n > 0 {
      var p := LastInsertion(keys, n, r);
      BuildInPrefix(keys, more, n - 1, p);
      InsertInPrefix(keys, more, p, n - 1, r);
      AnotherInsertion(keys + more, n - 1, p, r);
    }
  }

  // ---------- where the requirement of std::set is met ----------

  /** Each element precedes all later ones, so no two are equivalent. */
  ghost predicate Ascending(keys: seq<Key>, r: Pointers)
    requires Pointing(keys, r)
  {
    forall i, j :: 0 <= i < j < |r| ==> Written(keys[r[i]], keys[r[j]])
  }

  /** The set holds a candidate for every key among the first n, and nothing else. */
  ghost predicate Collects(keys: seq<Key>, r: Pointers, n: nat)
    requires n <= |keys|
  {
    && Pointing(keys[..n], r)
    && (forall x :: 0 <= x < n ==> HasEqual(keys, r, x))
  }

  lemma WrittenIsTransitive(a: Key, b: Key, c: Key)
    requires Aligned(a, b) && Aligned(b, c) && Aligned(a, c)
    requires Written(a, b) && Written(b, c)
    ensures Written(a, c)
  {
    WrittenIsDocumentedOrMisaligned(a, b);
    WrittenIsDocumentedOrMisaligned(b, c);
    WrittenIsDocumentedOrMisaligned(a, c);
    DocumentedIsStrictTotal(a, b, c);
  }

  lemma AscendingAfterInsert(keys: seq<Key>, r: Pointers, x: nat, k: nat, r': Pointers)
    requires PairwiseAligned(keys) && x < |keys| && Pointing(keys, r) && Ascending(keys, r)
    requires InsertedAt(keys, r, x, k, r')
    ensures Pointing(keys, r') && Ascending(keys, r')
  {
    forall i | 0 <= i < |r|
      ensures i < k ==> Written(keys[r[i]], keys[x])
      ensures i >= k ==> Written(keys[x], keys[r[i]])
    {
      if i < k - 1 {
        WrittenIsTransitive(keys[r[i]], keys[r[k - 1]], keys[x]);
      } else if i > k {
        WrittenIsTransitive(keys[x], keys[r[k]], keys[r[i]]);
      }
    }
  }

  lemma CollectsAfterInsert(keys: seq<Key>, r: Pointers, x: nat, k: nat, r': Pointers)
    requires x < |keys| && Collects(keys, r, x) && InsertedAt(keys, r, x, k, r')
    ensures Collects(keys, r', x + 1)
  {
    assert r'[k] == x;
    forall y | 0 <= y < x
      ensures HasEqual(keys, r', y)
    {
      assert HasEqual(keys, r, y);
      var i :| 0 <= i < |r| && keys[r[i]] == keys[y];
      assert r'[if i < k then i else i + 1] == r[i];
    }
  }

  lemma NothingCollected(keys: seq<Key>)
    ensures Collects(keys, [], 0)
  {
  }

  /** Every run keeps a candidate for each key it has met, aligned or not. */
  lemma {:induction false} BuildCollects(keys: seq<Key>, n: nat, r: Pointers)
    requires n <= |keys| && MayBuild(keys, n, r)
    ensures Collects(keys, r, n) && Pointing(keys, r)
  {
    hide HasEqual, InsertedAt;
    if n > 0 {
      var p := LastInsertion(keys, n, r);
      BuildCollects(keys, n - 1, p);
      if r != p || !HasEqual(keys, p, n - 1) {
        var k := InsertionPoint(keys, p, n - 1, r);
        CollectsAfterInsert(keys, p, n - 1, k, r);
      }
    } else {
      NothingCollected(keys);
    }
  }

  /** On aligned candidates every run builds an ordered set: ascending, with one element for each key. */
  lemma {:induction false} BuildIsOrderedSet(keys: seq<Key>, n: nat, r: Pointers)
    requires PairwiseAligned(keys) && n <= |keys| && MayBuild(keys, n, r)
    ensures Pointing(keys, r) && Ascending(keys, r) && Collects(keys, r, n)
  {
    hide PairwiseAligned, HasEqual, InsertedAt;
    BuildCollects(keys, n, r);
    if n > 0 {
      var p := LastInsertion(keys, n, r);
      BuildIsOrderedSet(keys, n - 1, p);
      if r != p || !HasEqual(keys, p, n - 1) {
        var k := InsertionPoint(keys, p, n - 1, r);
        AscendingAfterInsert(keys, p, n - 1, k, r);
      }
    }
  }

  /** However it was built, an ordered set of aligned candidates has the documented winner's key in front. */
  lemma OrderedSetFront(keys: seq<Key>, r: Pointers)
    requires keys != [] && PairwiseAligned(keys)
    requires Pointing(keys, r) && Ascending(keys, r) && Collects(keys, r, |keys|)
    ensures r != [] && keys[r[0]] == keys[BestIndex(keys)]
  {
    var b := BestIndex(keys);
    BestIndexIsBest(keys);
    assert HasEqual(keys, r, b);
    var i :| 0 <= i < |r| && keys[r[i]] == keys[b];
    if i > 0 {
      WrittenIsDocumentedOrMisaligned(keys[r[0]], keys[b]);
    }
  }

  ghost predicate DistinctKeys(keys: seq<Key>) {
    forall i, j :: 0 <= i < j < |keys| ==> keys[i] != keys[j]
  }

  lemma KeyIsFresh(keys: seq<Key>, r: Pointers, x: nat)
    requires DistinctKeys(keys) && x < |keys| && Pointing(keys[..x], r)
    ensures Pointing(keys, r) && !HasEqual(keys, r, x)
  {
  }

  lemma KeptByInsert(keys: seq<Key>, r: Pointers, x: nat, r': Pointers)
    requires x < |keys| && Pointing(keys, r) && MayInsert(keys, r, x, r') && !HasEqual(keys, r, x)
    requires |r| == x && forall y :: 0 <= y < x ==> y in r
    ensures |r'| == x + 1 && forall y :: 0 <= y < x + 1 ==> y in r'
  {
    var k := InsertionPoint(keys, r, x, r');
    forall y | 0 <= y < x + 1
      ensures y in r'
    {
      if y == x {
        assert r'[k] == y;
      } else {
        assert y in r;
        var i :| 0 <= i < |r| && r[i] == y;
        assert r'[if i < k then i else i + 1] == y;
      }
    }
  }

  /** Candidates with distinct keys are all kept, in every run and whatever the comparator. */
  lemma {:induction false} NothingDropped(keys: seq<Key>, n: nat, r: Pointers)
    requires n <= |keys| && MayBuild(keys, n, r) && DistinctKeys(keys)
    ensures |r| == n && forall x :: 0 <= x < n ==> x in r
  {
    hide MayInsert, DistinctKeys, HasEqual;
    if n > 0 {
      var p := LastInsertion(keys, n, r);
      BuildPoints(keys, n - 1, p);
      NothingDropped(keys, n - 1, p);
      KeyIsFresh(keys, p, n - 1);
      KeptByInsert(keys, p, n - 1, r);
    }
  }

  // ---------- which candidates can be in front ----------

  /** Put before every candidate found earlier. */
  predicate Forced(keys: seq<Key>, x: nat)
    requires x < |keys|
  {
    forall j :: 0 <= j < x ==> Written(keys[x], keys[j])
  }

  /**
    Read off the keys alone: after n candidates the last one leads if it is the first or is put before
    some leader, and an earlier leader keeps its place unless the last one is forced past it.
   */
  predicate MayLead(keys: seq<Key>, n: nat, w: nat)
    requires n <= |keys|
  {
    && w < n
    && if w == n - 1
       then n == 1 || exists v :: 0 <= v < n - 1 && MayLead(keys, n - 1, v) && Written(keys[n - 1], keys[v])
       else MayLead(keys, n - 1, w) && !Forced(keys, n - 1)
  }

  lemma ForcedToFront(keys: seq<Key>, r: Pointers, x: nat, r': Pointers)
    requires x < |keys| && Forced(keys, x) && Pointing(keys, r) && Pointing(keys[..x], r) && MayInsert(keys, r, x, r')
    ensures r' != [] && r'[0] == x
  {
    LexOrder(keys[x].literals, keys[x].literals, keys[x].literals);
    var k := InsertionPoint(keys, r, x, r');
  }

  /** Whatever is in front of a run leads. */
  lemma {:induction false} FrontLeads(keys: seq<Key>, n: nat, r: Pointers)
    requires 0 < n <= |keys| && MayBuild(keys, n, r)
    ensures r != [] && MayLead(keys, n, r[0])
  {
    hide MayInsert, Forced, Written, Pointing;
    var x := n - 1;
    var p := LastInsertion(keys, n, r);
    BuildPoints(keys, x, p);
    FrontAfterInsert(keys, p, x, r);
    if x > 0 {
      FrontLeads(keys, x, p);
      if Forced(keys, x) {
        ForcedToFront(keys, p, x, r);
      }
    }
  }

  /** From a run whose front keeps its place if the tree compares the new element with another one first. */
  lemma PastTheFront(keys: seq<Key>, p: Pointers, x: nat) returns (r: Pointers)
    requires x < |keys| && Pointing(keys, p) && Collects(keys, p, x) && p != [] && !Forced(keys, x)
    ensures MayInsert(keys, p, x, r) && r != [] && r[0] == p[0]
  {
    var j :| 0 <= j < x && !Written(keys[x], keys[j]);
    assert HasEqual(keys, p, j);
    var i :| 0 <= i < |p| && keys[p[i]] == keys[j];
    SomeGap(keys, p, x, i + 1);
    var k: nat :| i + 1 <= k <= |p| && Gap(keys, p, x, k);
    GapIsPossible(keys, p, x, k);
    r := InsertedInGap(keys, p, x, k);
  }

  lemma AtTheFront(keys: seq<Key>, p: Pointers, x: nat)
    requires x < |keys| && Pointing(keys, p) && (p != [] ==> Written(keys[x], keys[p[0]]))
    ensures MayInsert(keys, p, x, [x] + p)
  {
    assert p[..0] == [] && p[0..] == p;
    assert InsertedAt(keys, p, x, 0, [x] + p);
  }

  /** And whatever leads is in front of some run. */
  lemma {:induction false} LeaderIsFront(keys: seq<Key>, n: nat, w: nat) returns (r: Pointers)
    requires n <= |keys| && MayLead(keys, n, w)
    ensures MayBuild(keys, n, r) && r != [] && r[0] == w
  {
    hide MayInsert, Forced, Written, Collects;
    var x := n - 1;
    var p: Pointers := [];
    if w == x {
      if x > 0 {
        var v :| 0 <= v < x && MayLead(keys, x, v) && Written(keys[x], keys[v]);
        p := LeaderIsFront(keys, x, v);
        BuildPoints(keys, x, p);
      }
      r := [x] + p;
      AtTheFront(keys, p, x);
    } else {
      p := LeaderIsFront(keys, x, w);
      BuildCollects(keys, x, p);
      r := PastTheFront(keys, p, x);
    }
    AnotherInsertion(keys, x, p, r);
  }

  /** Exactly which candidates can be at `begin()`, decided without building any set. */
  lemma FrontIff(keys: seq<Key>, w: nat)
    ensures MayFront(keys, w) <==> MayLead(keys, |keys|, w)
  {
    if MayFront(keys, w) {
      var r :| MayBuild(keys, |keys|, r) && r != [] && r[0] == w;
      BuildPoints(keys, |keys|, r);
      if keys != [] {
        FrontLeads(keys, |keys|, r);
      }
    }
    if MayLead(keys, |keys|, w) {
      var r := LeaderIsFront(keys, |keys|, w);
    }
  }

  lemma {:induction false} WinnerLeadsIff(keys: seq<Key>, b: nat, n: nat)
    requires Best(keys, b) && b < n <= |keys|
    ensures MayLead(keys, n, b) <==> forall i :: b < i < n ==> !Forced(keys, i)
  {
    hide Forced, Best;
    if n == b + 1 {
      if b > 0 {
        var p := SomeBuild(keys, b);
        FrontLeads(keys, b, p);
        BestPrecedesEarlier(keys, b, p[0]);
      }
    } else {
      WinnerLeadsIff(keys, b, n - 1);
    }
  }

  /** Some run has the documented winner at `begin()` iff no candidate found later is forced past it. */
  lemma WinnerMayBeInFrontIff(keys: seq<Key>)
    requires keys != []
    ensures var b := BestIndex(keys);
            MayFront(keys, b) <==> !exists i :: b < i < |keys| && Forced(keys, i)
  {
    hide Forced;
    var b := BestIndex(keys);
    BestIndexIsBest(keys);
    FrontIff(keys, b);
    WinnerLeadsIff(keys, b, |keys|);
  }

  /** Of two candidates the second is in front, in every run, if the comparator puts it before the first. */
  lemma SecondOfTwo(keys: seq<Key>, w: nat)
    requires |keys| == 2 && Written(keys[1], keys[0])
    ensures MayFront(keys, w) <==> w == 1
  {
    hide MayFront, Written;
    FrontIff(keys, w);
    assert MayLead(keys, 1, 0);
  }

  /**
    Where the requirement of `std::set` is not met, the shape of the tree decides. These are the keys
    of `/a/{x}/{y}/d`, `/{x}/{y}/{z}/d` and `/{x}/b/c/{y}` on `/a/b/c/d`, in the order in which the
    search finds them. The second is documented to win, and so it does if the third is compared with
    the first alone; compared with the second, the third goes to the front.
   */
  lemma ShapeDecides()
    ensures var keys := [Key(2, "a..d"), Key(3, "...d"), Key(2, ".bc.")];
            Best(keys, 1) && MayFront(keys, 1) && MayFront(keys, 2)
  {
    hide MayFront, Written;
    var keys := [Key(2, "a..d"), Key(3, "...d"), Key(2, ".bc.")];
    ShapeDecidingKeys(keys[0], keys[1], keys[2]);
    FrontIff(keys, 1);
    FrontIff(keys, 2);
    assert MayLead(keys, 1, 0);
    assert MayLead(keys, 2, 1);
  }

  lemma ShapeDecidingKeys(a: Key, b: Key, c: Key)
    requires a == Key(2, "a..d") && b == Key(3, "...d") && c == Key(2, ".bc.")
    ensures Written(b, a) && Written(c, b) && Written(a, c) && !Written(c, a)
    ensures Documented(b, a) && Documented(b, c) && !Documented(b, b)
    ensures !Documented(a, b) && !Documented(c, b)
  {
    DocumentedIsStrictTotal(b, b, b);
    assert "...d"[1..] == "..d" && ".bc."[1..] == "bc.";
  }
}
