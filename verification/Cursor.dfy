/**
  The index-pair iterator behind PathComponents and QueryString. The two source classes have
  the same `increment`; they differ in the separators and in what they make of a component.
 */
module Cursor {
  import opened Text

  class Iterator {
    const text: string
    const separators: set<char>
    var psep: int
    var nsep: int
    var scratch: string

    /** The state `begin` constructs before its first increment. */
    predicate Initial()
      reads this
    {
      psep == NPOS && nsep == 0
    }

    predicate Valid()
      reads this
    {
      || (psep == NPOS && nsep == NPOS)
      || (0 <= psep < |text| && nsep == FindFirstOf(text, separators, psep))
    }

    /** The components the iterator has still to yield, the current one first. */
    ghost function Remaining(): seq<string>
      requires Valid() || Initial()
      reads this
    {
      if Initial() then Fields(text, separators)
      else if psep == NPOS then []
      else Fields(text[psep..], separators)
    }

    constructor Begin(text: string, separators: set<char>)
      ensures Valid() && this.text == text && this.separators == separators
      ensures Remaining() == Fields(text, separators)
    {
      this.text := text;
      this.separators := separators;
      psep, nsep := NPOS, 0;
      scratch := "";
      new;
      Increment();
    }

    /** Comparison with `end()` of the same text. */
    predicate AtEnd()
      requires Valid()
      reads this
      ensures AtEnd() <==> Remaining() == []
    {
      psep == NPOS
    }

    method Increment()
      requires Valid() || Initial()
      modifies this`psep, this`nsep
      ensures Valid()
      ensures old(Initial()) ==> Remaining() == old(Remaining())
      ensures !old(Initial()) && old(Remaining()) != [] ==> Remaining() == old(Remaining())[1..]
      ensures !old(Initial()) && old(Remaining()) == [] ==> Remaining() == []
    {
      hide Fields, FindFirstOf;
      if psep != NPOS {
        FieldsFromCursor(text, separators, psep);
      }
      FieldsAtEnd(text, separators);
      if psep == NPOS && nsep != NPOS {
        psep := 0;
        assert text[psep..] == text;
      } else if nsep != NPOS {
        psep := nsep + 1;
      } else {
        psep := nsep;
      }
      nsep := if psep == NPOS then NPOS else FindFirstOf(text, separators, psep);
      if psep == |text| {
        psep, nsep := NPOS, NPOS;
      }
    }

    method Dereference() returns (component: string)
      requires Valid() && !AtEnd()
      modifies this`scratch
      ensures component == scratch == Remaining()[0]
    {
      scratch := if nsep != NPOS then text[psep..nsep] else text[psep..];
      component := scratch;
      FieldsFromCursor(text, separators, psep);
    }

    /** One turn of a range-based `for`: the component, copied, and the iterator moved on. */
    method Next() returns (component: string)
      requires Valid() && !AtEnd()
      modifies this
      ensures Valid()
      ensures [component] + Remaining() == old(Remaining())
    {
      component := Dereference();
      Increment();
    }
  }

  /** Searching the text that follows an index, in terms of indices into the whole text. */
  lemma FindFromCursor(text: string, separators: set<char>, p: nat)
    requires p < |text|
    ensures var n, i := FindFirstOf(text, separators, p), FindFirstOf(text[p..], separators, 0);
            if n == NPOS then i == NPOS else i == n - p
  {
    var n, i := FindFirstOf(text, separators, p), FindFirstOf(text[p..], separators, 0);
    if i != NPOS {
      assert text[p + i] == text[p..][i];
    }
    if n != NPOS {
      assert text[p..][n - p] == text[n];
    }
    if n != NPOS && i != NPOS {
      assert text[p + i] in separators;
    }
  }

  lemma FieldsAtEnd(text: string, separators: set<char>)
    ensures Fields(text[|text|..], separators) == []
  {
  }

  /** Splitting the text that follows an index, in terms of indices into the whole text. */
  lemma FieldsFromCursor(text: string, separators: set<char>, p: nat)
    requires p < |text|
    ensures var n := FindFirstOf(text, separators, p);
            Fields(text[p..], separators)
              == if n == NPOS then [text[p..]] else [text[p..n]] + Fields(text[n + 1..], separators)
  {
    hide *;
    FindFromCursor(text, separators, p);
    var n, s := FindFirstOf(text, separators, p), text[p..];
    FieldsUnfold(s, separators);
    if n != NPOS {
      assert s[..n - p] == text[p..n];
      assert s[n - p + 1..] == text[n + 1..];
    }
  }
}
