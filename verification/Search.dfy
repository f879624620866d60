/**
  The matcher's search on values. `Choices` enumerates every literal/variable choice vector for a
  path; `Frontier` explores only those that stay inside a trie. They agree on what survives.
 */
module Search {
  import opened Templates

  ghost predicate NoDuplicates<T>(s: seq<T>) {
    forall i, j :: 0 <= i < j < |s| ==> s[i] != s[j]
  }

  /** Every template of a list advanced by one slot. */
  function Append(ts: seq<Template>, slot: Slot): (r: seq<Template>)
    ensures |r| == |ts|
  {
    seq(|ts|, i requires 0 <= i < |ts| => ts[i] + [slot])
  }

  /** The members of a set, in list order. */
  function Keep(ts: seq<Template>, s: set<Template>): seq<Template> {
    if ts == [] then []
    else
      var last := ts[|ts| - 1];
      Keep(ts[..|ts| - 1], s) + (if last in s then [last] else [])
  }

  /** All templates matching the components: literal choices first, variable choices appended. */
  function Choices(cs: seq<string>): seq<Template> {
    if cs == [] then [[]]
    else
      var n := |cs| - 1;
      Append(Choices(cs[..n]), Literal(cs[n])) + Append(Choices(cs[..n]), Variable)
  }

  /** The live search states after the components, as positions in the trie. */
  function Frontier(trie: set<Template>, cs: seq<string>): seq<Template> {
    if cs == [] then [[]]
    else
      var n := |cs| - 1;
      var previous := Frontier(trie, cs[..n]);
      Keep(Append(previous, Literal(cs[n])), trie) + Keep(Append(previous, Variable), trie)
  }

  /** The variable nodes at which the search has opened a new state. */
  function Spawned(trie: set<Template>, cs: seq<string>): seq<Template> {
    if cs == [] then []
    else
      var n := |cs| - 1;
      Spawned(trie, cs[..n]) + Keep(Append(Frontier(trie, cs[..n]), Variable), trie)
  }

  /** The positions of a trie that holds the given templates. */
  function Trie(keys: set<Template>): set<Template> {
    {[]} + set k, i | k in keys && 0 <= i <= |k| :: k[..i]
  }

  predicate PrefixClosed(trie: set<Template>) {
    [] in trie && forall t :: t in trie && t != [] ==> t[..|t| - 1] in trie
  }

  function VariableNodes(trie: set<Template>): set<Template> {
    set t | t in trie && t != [] && t[|t| - 1] == Variable
  }

  // ---------- lists ----------

  lemma {:induction false} KeepMembers(ts: seq<Template>, s: set<Template>, t: Template)
    ensures t in Keep(ts, s) <==> t in ts && t in s
  {
    if ts != [] {
      var n := |ts| - 1;
      assert ts == ts[..n] + [ts[n]];
      KeepMembers(ts[..n], s, t);
    }
  }

  lemma {:induction false} KeepNoDuplicates(ts: seq<Template>, s: set<Template>)
    requires NoDuplicates(ts)
    ensures NoDuplicates(Keep(ts, s))
  {
    if ts != [] {
      var n := |ts| - 1;
      KeepNoDuplicates(ts[..n], s);
      KeepMembers(ts[..n], s, ts[n]);
    }
  }

  lemma {:induction false} KeepConcat(ts: seq<Template>, us: seq<Template>, s: set<Template>)
    ensures Keep(ts + us, s) == Keep(ts, s) + Keep(us, s)
  {
    if us == [] {
      assert ts + us == ts;
    } else {
      var n := |us| - 1;
      assert (ts + us)[..|ts + us| - 1] == ts + us[..n];
      KeepConcat(ts, us[..n], s);
    }
  }

  /** Filtering twice is filtering by the smaller set. */
  lemma {:induction false} KeepKeep(ts: seq<Template>, s: set<Template>, s': set<Template>)
    requires s' <= s
    ensures Keep(Keep(ts, s), s') == Keep(ts, s')
  {
    if ts != [] {
      var n := |ts| - 1;
      var last := if ts[n] in s then [ts[n]] else [];
      KeepKeep(ts[..n], s, s');
      KeepConcat(Keep(ts[..n], s), last, s');
      assert last != [] ==> last[..0] == [];
    }
  }

  /** Filtering looks at members only. */
  lemma {:induction false} KeepCongruent(ts: seq<Template>, s: set<Template>, s': set<Template>)
    requires forall t :: t in ts ==> (t in s <==> t in s')
    ensures Keep(ts, s) == Keep(ts, s')
  {
    if ts != [] {
      var n := |ts| - 1;
      assert ts[n] in ts;
      assert forall t :: t in ts[..n] ==> t in ts;
      KeepCongruent(ts[..n], s, s');
    }
  }

  /** Advancing then filtering, one list element at a time. */
  lemma KeepAppendStep(ts: seq<Template>, t: Template, slot: Slot, s: set<Template>)
    ensures Keep(Append(ts + [t], slot), s)
         == Keep(Append(ts, slot), s) + (if t + [slot] in s then [t + [slot]] else [])
  {
    var r := Append(ts + [t], slot);
    assert r[..|ts|] == Append(ts, slot);
    assert r[|ts|] == t + [slot];
  }

  /** In a prefix-closed trie, dead positions have no live extension. */
  lemma {:induction false} KeepAppendKeep(ts: seq<Template>, slot: Slot, trie: set<Template>)
    requires PrefixClosed(trie)
    ensures Keep(Append(Keep(ts, trie), slot), trie) == Keep(Append(ts, slot), trie)
  {
    if ts != [] {
      var n := |ts| - 1;
      var t := ts[n];
      assert ts == ts[..n] + [t];
      KeepAppendKeep(ts[..n], slot, trie);
      KeepAppendStep(ts[..n], t, slot, trie);
      if t in trie {
        KeepAppendStep(Keep(ts[..n], trie), t, slot, trie);
      } else {
        assert (t + [slot])[..|t|] == t;
        assert Keep(ts, trie) == Keep(ts[..n], trie);
      }
    }
  }

  lemma AppendNoDuplicates(ts: seq<Template>, slot: Slot)
    requires NoDuplicates(ts)
    ensures NoDuplicates(Append(ts, slot))
  {
    var r := Append(ts, slot);
    forall i, j | 0 <= i < j < |r|
      ensures r[i] != r[j]
    {
      assert r[i][..|ts[i]|] == ts[i] && r[j][..|ts[j]|] == ts[j];
    }
  }

  /** Lists that end in different slots share no element. */
  lemma AppendedListsNoDuplicates(ts: seq<Template>, s: Slot, s': Slot)
    requires NoDuplicates(ts) && s != s'
    ensures NoDuplicates(Append(ts, s) + Append(ts, s'))
  {
    AppendNoDuplicates(ts, s);
    AppendNoDuplicates(ts, s');
    var r := Append(ts, s) + Append(ts, s');
    forall i, j | 0 <= i < j < |r|
      ensures r[i] != r[j]
    {
      if i < |ts| <= j {
        assert r[i][|r[i]| - 1] == s && r[j][|r[j]| - 1] == s';
      }
    }
  }

  // ---------- the exhaustive enumeration ----------

  lemma InAppend(ts: seq<Template>, slot: Slot, t: Template)
    ensures t in Append(ts, slot) <==> t != [] && t[|t| - 1] == slot && t[..|t| - 1] in ts
  {
    var r := Append(ts, slot);
    if t in r {
      var i :| 0 <= i < |r| && r[i] == t;
      assert t[..|t| - 1] == ts[i];
    }
    if t != [] && t[|t| - 1] == slot && t[..|t| - 1] in ts {
      var i :| 0 <= i < |ts| && ts[i] == t[..|t| - 1];
      assert r[i] == t;
    }
  }

  lemma MatchesByLast(t: Template, cs: seq<string>)
    requires t != [] && cs != []
    ensures Matches(t, cs) <==> Matches(t[..|t| - 1], cs[..|cs| - 1]) && Fits(t[|t| - 1], cs[|cs| - 1])
  {
    if |t| == |cs| {
      var n := |cs| - 1;
      assert forall i :: 0 <= i < n ==> t[..n][i] == t[i] && cs[..n][i] == cs[i];
    }
  }

  /** The enumeration lists exactly the templates that match the components. */
  lemma {:induction false} ChoicesAreMatches(cs: seq<string>, t: Template)
    ensures t in Choices(cs) <==> Matches(t, cs)
  {
    if cs != [] {
      var n := |cs| - 1;
      InAppend(Choices(cs[..n]), Literal(cs[n]), t);
      InAppend(Choices(cs[..n]), Variable, t);
      if t != [] {
        ChoicesAreMatches(cs[..n], t[..|t| - 1]);
        MatchesByLast(t, cs);
      }
    }
  }

  lemma {:induction false} ChoicesNoDuplicates(cs: seq<string>)
    ensures NoDuplicates(Choices(cs))
  {
    if cs != [] {
      var n := |cs| - 1;
      ChoicesNoDuplicates(cs[..n]);
      AppendedListsNoDuplicates(Choices(cs[..n]), Literal(cs[n]), Variable);
    }
  }

  // ---------- the pruned search ----------

  /**
    Soundness and completeness of pruning: the live states are the matching choice vectors that
    are positions of the trie, each once, in enumeration order.
   */
  lemma {:induction false} FrontierIsPrunedChoices(trie: set<Template>, cs: seq<string>)
    requires PrefixClosed(trie)
    ensures Frontier(trie, cs) == Keep(Choices(cs), trie)
  {
    if cs == [] {
      var root: seq<Template> := [[]];
      assert root[..0] == [];
    } else {
      var n := |cs| - 1;
      var previous := Choices(cs[..n]);
      FrontierIsPrunedChoices(trie, cs[..n]);
      KeepAppendKeep(previous, Literal(cs[n]), trie);
      KeepAppendKeep(previous, Variable, trie);
      KeepConcat(Append(previous, Literal(cs[n])), Append(previous, Variable), trie);
    }
  }

  /** Live states sit at pairwise distinct positions, as deep as the components consumed. */
  lemma FrontierIsDistinct(trie: set<Template>, cs: seq<string>)
    requires PrefixClosed(trie)
    ensures NoDuplicates(Frontier(trie, cs))
    ensures forall t :: t in Frontier(trie, cs) <==> t in trie && Matches(t, cs)
  {
    FrontierIsPrunedChoices(trie, cs);
    ChoicesNoDuplicates(cs);
    KeepNoDuplicates(Choices(cs), trie);
    forall t
      ensures t in Frontier(trie, cs) <==> t in trie && Matches(t, cs)
    {
      KeepMembers(Choices(cs), trie, t);
      ChoicesAreMatches(cs, t);
    }
  }

  /** Both lists after one more component. */
  lemma SearchStep(trie: set<Template>, cs: seq<string>, c: string)
    ensures var live := Frontier(trie, cs);
            var added := Keep(Append(live, Variable), trie);
            && Frontier(trie, cs + [c]) == Keep(Append(live, Literal(c)), trie) + added
            && Spawned(trie, cs + [c]) == Spawned(trie, cs) + added
  {
    assert (cs + [c])[..|cs|] == cs;
  }

  /** One step opens states at distinct variable nodes, one deeper than the states they leave. */
  lemma AddedAreVariableNodes(trie: set<Template>, cs: seq<string>)
    requires PrefixClosed(trie)
    ensures var added := Keep(Append(Frontier(trie, cs), Variable), trie);
            && NoDuplicates(added)
            && forall t :: t in added ==> t in VariableNodes(trie) && |t| == |cs| + 1
  {
    var live := Frontier(trie, cs);
    FrontierIsDistinct(trie, cs);
    AppendNoDuplicates(live, Variable);
    KeepNoDuplicates(Append(live, Variable), trie);
    forall t | t in Keep(Append(live, Variable), trie)
      ensures t in VariableNodes(trie) && |t| == |cs| + 1
    {
      KeepMembers(Append(live, Variable), trie, t);
      InAppend(live, Variable, t);
    }
  }

  /** A state is opened only at a variable node of the trie, and at most once at each. */
  lemma {:induction false} SpawnedAreVariableNodes(trie: set<Template>, cs: seq<string>)
    requires PrefixClosed(trie)
    ensures NoDuplicates(Spawned(trie, cs))
    ensures forall t :: t in Spawned(trie, cs) ==> t in VariableNodes(trie) && |t| <= |cs|
  {
    if cs != [] {
      var n := |cs| - 1;
      SpawnedAreVariableNodes(trie, cs[..n]);
      AddedAreVariableNodes(trie, cs[..n]);
      ConcatNoDuplicates(Spawned(trie, cs[..n]), Keep(Append(Frontier(trie, cs[..n]), Variable), trie), n);
    }
  }

  lemma ConcatNoDuplicates(s: seq<Template>, s': seq<Template>, depth: nat)
    requires NoDuplicates(s) && NoDuplicates(s')
    requires forall t :: t in s ==> |t| <= depth
    requires forall t :: t in s' ==> |t| > depth
    ensures NoDuplicates(s + s')
  {
    var r := s + s';
    forall i, j | 0 <= i < j < |r|
      ensures r[i] != r[j]
    {
      if i < |s| <= j {
        assert r[i] in s && r[j] in s';
      }
    }
  }

  /** No exponential blow-up: the states opened never outnumber the variable nodes. */
  lemma SpawnedIsBounded(trie: set<Template>, cs: seq<string>)
    requires PrefixClosed(trie)
    ensures |Spawned(trie, cs)| <= |VariableNodes(trie)|
  {
    SpawnedAreVariableNodes(trie, cs);
    DistinctMembersFit(Spawned(trie, cs), VariableNodes(trie));
  }

  lemma {:induction false} DistinctMembersFit<T>(s: seq<T>, universe: set<T>)
    requires NoDuplicates(s)
    requires forall x :: x in s ==> x in universe
    ensures |s| <= |universe|
  {
    if s != [] {
      var n := |s| - 1;
      DistinctMembersFit(s[..n], universe - {s[n]});
    }
  }

  // ---------- tries ----------

  lemma InTrie(keys: set<Template>, t: Template)
    ensures t in Trie(keys) <==> t == [] || exists k :: k in keys && t <= k
  {
    if k :| k in keys && t <= k {
      assert t == k[..|t|];
    }
  }

  lemma TrieIsPrefixClosed(keys: set<Template>)
    ensures PrefixClosed(Trie(keys))
    ensures keys <= Trie(keys)
  {
    forall t | t in Trie(keys) && t != []
      ensures t[..|t| - 1] in Trie(keys)
    {
      InTrie(keys, t);
      InTrie(keys, t[..|t| - 1]);
      var k :| k in keys && t <= k;
      assert t[..|t| - 1] <= k;
    }
    forall k | k in keys
      ensures k in Trie(keys)
    {
      InTrie(keys, k);
    }
  }

  /** Registering one more template adds its prefixes and nothing else. */
  lemma TrieOfInsert(keys: set<Template>, k: Template)
    ensures Trie(keys + {k}) == Trie(keys) + set i | 0 <= i <= |k| :: k[..i]
  {
    forall t
      ensures t in Trie(keys + {k}) <==> t in Trie(keys) || t <= k
    {
      InTrie(keys, t);
      InTrie(keys + {k}, t);
    }
    var prefixes := set i | 0 <= i <= |k| :: k[..i];
    forall t
      ensures t in prefixes <==> t <= k
    {
      if t <= k {
        assert t == k[..|t|];
      }
    }
  }

  /**
    The pruned search meets its reference: the live states that are registered templates are the
    registered templates among all choice vectors, in the same order.
   */
  lemma SearchFindsRegistered(keys: set<Template>, cs: seq<string>)
    ensures Keep(Frontier(Trie(keys), cs), keys) == Keep(Choices(cs), keys)
  {
    TrieIsPrefixClosed(keys);
    FrontierIsPrunedChoices(Trie(keys), cs);
    KeepKeep(Choices(cs), Trie(keys), keys);
  }
}
