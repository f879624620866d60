/** The two orders on candidates: the one the documentation states, and the comparator as written. */
module Ranking {
  /** What both orders look at. */
  datatype Key = Key(variables: nat, literals: string)

  /** `operator>` on strings: lexicographic, a proper prefix being smaller. */
  predicate LexGreater(a: string, b: string) {
    if a == "" then false
    else if b == "" then true
    else a[0] > b[0] || (a[0] == b[0] && LexGreater(a[1..], b[1..]))
  }

  /** Most variables, then longest literals, then lexicographically greatest. */
  predicate Documented(a: Key, b: Key) {
    || a.variables > b.variables
    || (a.variables == b.variables
        && (|a.literals| > |b.literals| || (|a.literals| == |b.literals| && LexGreater(a.literals, b.literals))))
  }

  /** The comparator as written: a failed test falls through to the next one. */
  predicate Written(a: Key, b: Key) {
    if a.variables > b.variables then true
    else if |a.literals| > |b.literals| then true
    else LexGreater(a.literals, b.literals)
  }

  // ---------- the documented order ----------

  lemma {:induction false} LexOrder(a: string, b: string, c: string)
    ensures !LexGreater(a, a)
    ensures LexGreater(a, b) ==> !LexGreater(b, a)
    ensures LexGreater(a, b) && LexGreater(b, c) ==> LexGreater(a, c)
    ensures a != b ==> LexGreater(a, b) || LexGreater(b, a)
    decreases |a| + |b| + |c|
  {
    var a', b', c' := if a == "" then a else a[1..], if b == "" then b else b[1..], if c == "" then c else c[1..];
    if a != "" || b != "" || c != "" {
      LexOrder(a', b', c');
    }
    if a != "" && b != "" && a[0] == b[0] && a' == b' {
      assert a == [a[0]] + a' && b == [b[0]] + b';
    }
  }

  /** From position i on, a is ahead of b: it goes on where b ends, or has the greater character there. */
  predicate AheadAt(a: string, b: string, i: nat) {
    i < |a| && i <= |b| && a[..i] == b[..i] && (i == |b| || a[i] > b[i])
  }

  /** The comparison of strings finds the first difference, wherever it is. */
  lemma {:induction false} LexGreaterIff(a: string, b: string)
    ensures LexGreater(a, b) <==> exists i: nat :: AheadAt(a, b, i)
  {
    if a == "" {
    } else if b == "" {
      assert AheadAt(a, b, 0);
    } else {
      LexGreaterIff(a[1..], b[1..]);
      if a[0] > b[0] {
        assert AheadAt(a, b, 0);
      }
      if a[0] == b[0] && LexGreater(a[1..], b[1..]) {
        var i: nat :| AheadAt(a[1..], b[1..], i);
        assert a[..i + 1] == [a[0]] + a[1..][..i] && b[..i + 1] == [b[0]] + b[1..][..i];
        assert AheadAt(a, b, i + 1);
      }
      if i: nat :| AheadAt(a, b, i) {
        AheadInTail(a, b, i);
      }
    }
  }

  lemma AheadInTail(a: string, b: string, i: nat)
    requires a != "" && b != "" && AheadAt(a, b, i)
    ensures if i == 0 then a[0] > b[0] else a[0] == b[0] && AheadAt(a[1..], b[1..], i - 1)
  {
    if i > 0 {
      assert a[..i][0] == b[..i][0];
      assert a[1..][..i - 1] == a[..i][1..] == b[..i][1..] == b[1..][..i - 1];
    }
  }

  /** The documented order is a strict total order on keys. */
  lemma DocumentedIsStrictTotal(a: Key, b: Key, c: Key)
    ensures !Documented(a, a)
    ensures Documented(a, b) ==> !Documented(b, a)
    ensures Documented(a, b) && Documented(b, c) ==> Documented(a, c)
    ensures a != b ==> Documented(a, b) || Documented(b, a)
  {
    LexOrder(a.literals, b.literals, c.literals);
  }

  // ---------- the comparator as written ----------

  predicate AtLeast(a: Key, b: Key) {
    && a.variables >= b.variables
    && |a.literals| >= |b.literals|
    && (a.literals == b.literals || LexGreater(a.literals, b.literals))
  }

  /** The three measures do not pull the two keys in different directions. */
  predicate Aligned(a: Key, b: Key) {
    AtLeast(a, b) || AtLeast(b, a)
  }

  /** The comparator is asymmetric on a pair exactly when the three measures agree on it. */
  lemma AsymmetricIffAligned(a: Key, b: Key)
    ensures !(Written(a, b) && Written(b, a)) <==> Aligned(a, b)
  {
    LexOrder(a.literals, b.literals, a.literals);
    LexOrder(b.literals, a.literals, b.literals);
  }

  /**
    What the comparator as written adds to the documented order: exactly the reversed pairs on
    which the three measures disagree. On aligned pairs it is the documented order.
   */
  lemma WrittenIsDocumentedOrMisaligned(a: Key, b: Key)
    ensures Written(a, b) <==> Documented(a, b) || (Documented(b, a) && !Aligned(a, b))
  {
    LexOrder(a.literals, b.literals, a.literals);
    LexOrder(b.literals, a.literals, b.literals);
  }

  predicate Unordered(a: Key, b: Key) {
    !Written(a, b) && !Written(b, a)
  }

  /** Keys the comparator puts neither way round are equal. */
  lemma UnorderedMeansEqual(a: Key, b: Key)
    ensures Unordered(a, b) <==> a == b
  {
    LexOrder(a.literals, b.literals, a.literals);
  }

  /** `std::set` requires its comparator to be a strict weak order on the elements. */
  ghost predicate StrictWeakOrder(keys: seq<Key>) {
    && (forall i :: 0 <= i < |keys| ==> !Written(keys[i], keys[i]))
    && (forall i, j | 0 <= i < |keys| && 0 <= j < |keys| ::
          Written(keys[i], keys[j]) ==> !Written(keys[j], keys[i]))
    && (forall i, j, k | 0 <= i < |keys| && 0 <= j < |keys| && 0 <= k < |keys| ::
          Written(keys[i], keys[j]) && Written(keys[j], keys[k]) ==> Written(keys[i], keys[k]))
    && (forall i, j, k | 0 <= i < |keys| && 0 <= j < |keys| && 0 <= k < |keys| ::
          Unordered(keys[i], keys[j]) && Unordered(keys[j], keys[k]) ==> Unordered(keys[i], keys[k]))
  }

  ghost predicate PairwiseAligned(keys: seq<Key>) {
    forall i, j :: 0 <= i < |keys| && 0 <= j < |keys| ==> Aligned(keys[i], keys[j])
  }

  /** The requirement of `std::set` is met by exactly the candidate lists that are pairwise aligned. */
  lemma SetUsableIffAligned(keys: seq<Key>)
    ensures StrictWeakOrder(keys) <==> PairwiseAligned(keys)
  {
    if StrictWeakOrder(keys) {
      forall i, j | 0 <= i < |keys| && 0 <= j < |keys|
        ensures Aligned(keys[i], keys[j])
      {
        AsymmetricIffAligned(keys[i], keys[j]);
      }
    }
    if PairwiseAligned(keys) {
      forall i, j, k | 0 <= i < |keys| && 0 <= j < |keys| && 0 <= k < |keys|
        ensures var a, b, c := keys[i], keys[j], keys[k];
                && !Written(a, a)
                && (Written(a, b) ==> !Written(b, a))
                && (Written(a, b) && Written(b, c) ==> Written(a, c))
                && (Unordered(a, b) && Unordered(b, c) ==> Unordered(a, c))
      {
        AlignedTriple(keys[i], keys[j], keys[k]);
      }
    }
  }

  lemma AlignedTriple(a: Key, b: Key, c: Key)
    requires Aligned(a, a) && Aligned(a, b) && Aligned(b, c) && Aligned(a, c)
    ensures !Written(a, a)
    ensures Written(a, b) ==> !Written(b, a)
    ensures Written(a, b) && Written(b, c) ==> Written(a, c)
    ensures Unordered(a, b) && Unordered(b, c) ==> Unordered(a, c)
  {
    WrittenIsDocumentedOrMisaligned(a, b);
    WrittenIsDocumentedOrMisaligned(b, a);
    WrittenIsDocumentedOrMisaligned(b, c);
    WrittenIsDocumentedOrMisaligned(c, b);
    WrittenIsDocumentedOrMisaligned(a, c);
    WrittenIsDocumentedOrMisaligned(c, a);
    WrittenIsDocumentedOrMisaligned(a, a);
    DocumentedIsStrictTotal(a, b, c);
    DocumentedIsStrictTotal(b, c, a);
  }

  // ---------- the documented winner ----------

  /** Nothing is documented to precede it, and it is the first candidate with its key. */
  ghost predicate Best(keys: seq<Key>, b: nat) {
    && b < |keys|
    && (forall i :: 0 <= i < |keys| ==> !Documented(keys[i], keys[b]))
    && (forall i :: 0 <= i < b ==> keys[i] != keys[b])
  }

  function BestIndex(keys: seq<Key>): (b: nat)
    requires keys != []
    ensures b < |keys|
  {
    var n := |keys| - 1;
    if n == 0 then 0
    else
      var b := BestIndex(keys[..n]);
      if Documented(keys[n], keys[b]) then n else b
  }

  /** Every candidate list has exactly one documented winner. */
  lemma BestIsUnique(keys: seq<Key>, b: nat)
    requires keys != []
    ensures Best(keys, b) <==> b == BestIndex(keys)
  {
    BestIndexIsBest(keys);
    var c := BestIndex(keys);
    if Best(keys, b) && b != c {
      DocumentedIsStrictTotal(keys[b], keys[c], keys[b]);
      assert false;
    }
  }

  lemma {:induction false} BestIndexIsBest(keys: seq<Key>)
    requires keys != []
    ensures Best(keys, BestIndex(keys))
  {
    var n := |keys| - 1;
    if n > 0 {
      var previous, b, c := keys[..n], BestIndex(keys[..n]), BestIndex(keys);
      BestIndexIsBest(previous);
      forall i | 0 <= i < |keys|
        ensures !Documented(keys[i], keys[c])
        ensures i < c ==> keys[i] != keys[c]
      {
        assert i < n ==> !Documented(previous[i], previous[b]);
        assert i < b ==> previous[i] != previous[b];
        DocumentedIsStrictTotal(keys[i], keys[n], keys[b]);
        DocumentedIsStrictTotal(keys[n], keys[b], keys[n]);
      }
    } else {
      DocumentedIsStrictTotal(keys[0], keys[0], keys[0]);
    }
  }

  /** The winner precedes every earlier candidate, by the documentation and by the comparator. */
  lemma BestPrecedesEarlier(keys: seq<Key>, b: nat, i: nat)
    requires Best(keys, b) && i < b
    ensures Written(keys[b], keys[i])
  {
    DocumentedIsStrictTotal(keys[b], keys[i], keys[b]);
  }

  /** Some candidate found after position b is put before it by the comparator as written. */
  ghost predicate Overtaken(keys: seq<Key>, b: nat)
    requires b < |keys|
  {
    exists i :: b < i < |keys| && Written(keys[i], keys[b])
  }

  /** Aligned candidates never overtake the winner. */
  lemma AlignedIsNotOvertaken(keys: seq<Key>, b: nat)
    requires Best(keys, b) && PairwiseAligned(keys)
    ensures !Overtaken(keys, b)
  {
    forall i | b < i < |keys|
      ensures !Written(keys[i], keys[b])
    {
      WrittenIsDocumentedOrMisaligned(keys[i], keys[b]);
    }
  }
}
