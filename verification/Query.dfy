/** Query and form parameters: splitting, the multimap they are kept in, and lookup by name. */
module Query {
  import opened Text
  import Cursor

  const AMPERSAND: char := '&'
  const SEMICOLON: char := ';'
  const SEPARATORS: set<char> := {AMPERSAND, SEMICOLON}

  type Pair = (string, string)

  /** `std::unordered_multimap<std::string, std::string>`; its iteration order is not modelled. */
  type Multimap = multiset<Pair>

  /** A component cut at its first '='; without one it is a key with an empty value. */
  function SplitKeyValue(component: string): Pair {
    var pos := FindFirstOf(component, {'='}, 0);
    if pos == NPOS then (component, "") else (component[..pos], component[pos + 1..])
  }

  function SplitAll(components: seq<string>): seq<Pair> {
    seq(|components|, i requires 0 <= i < |components| => SplitKeyValue(components[i]))
  }

  function QueryPairs(query: string): seq<Pair> {
    SplitAll(Fields(query, SEPARATORS))
  }

  /** The values listed under a name, in order. */
  function ValuesFor(pairs: seq<Pair>, name: string): seq<string> {
    if pairs == [] then []
    else
      var last := pairs[|pairs| - 1];
      ValuesFor(pairs[..|pairs| - 1], name) + (if last.0 == name then [last.1] else [])
  }

  lemma SplitAllStep(components: seq<string>, n: nat)
    requires n < |components|
    ensures multiset(SplitAll(components[..n + 1]))
         == multiset(SplitAll(components[..n])) + multiset{SplitKeyValue(components[n])}
  {
    assert SplitAll(components[..n + 1]) == SplitAll(components[..n]) + [SplitKeyValue(components[n])];
  }

  /** `parseQueryParameters`: every pair the iterator yields is inserted. */
  method ParseQueryParameters(query: string) returns (params: Multimap)
    ensures params == multiset(QueryPairs(query))
  {
    var it := new Cursor.Iterator.Begin(query, SEPARATORS);
    params := InsertRemaining(it);
  }

  method InsertRemaining(it: Cursor.Iterator) returns (params: Multimap)
    requires it.Valid()
    modifies it
    ensures params == multiset(SplitAll(old(it.Remaining())))
  {
    hide Fields, FindFirstOf;
    params := multiset{};
    ghost var components, done := it.Remaining(), 0;
    while !it.AtEnd()
      invariant it.Valid()
      invariant done <= |components| && it.Remaining() == components[done..]
      invariant params == multiset(SplitAll(components[..done]))
      decreases |components| - done
    {
      var component := it.Next();
      assert component == components[done];
      SplitAllStep(components, done);
      params := params + multiset{SplitKeyValue(component)};
      done := done + 1;
    }
    assert components[..done] == components;
  }

  /** `get`: the values of the range of entries equal to the name. */
  method Get(params: Multimap, name: string) returns (values: seq<string>)
    ensures forall v :: multiset(values)[v] == params[(name, v)]
  {
    values := [];
    var rest := params;
    while rest != multiset{}
      invariant rest <= params
      invariant forall v :: multiset(values)[v] + rest[(name, v)] == params[(name, v)]
      decreases |rest|
    {
      var entry :| entry in rest;
      rest := rest - multiset{entry};
      if entry.0 == name {
        values := values + [entry.1];
      }
    }
  }

  /** The multimap of a pair list holds, under each name, exactly the values listed for it. */
  lemma {:induction false} MultimapValues(pairs: seq<Pair>, name: string, v: string)
    ensures multiset(ValuesFor(pairs, name))[v] == multiset(pairs)[(name, v)]
  {
    if pairs != [] {
      var n := |pairs| - 1;
      assert pairs == pairs[..n] + [pairs[n]];
      MultimapValues(pairs[..n], name, v);
    }
  }

  /** Whatever `get` returns for a query is a rearrangement of the values listed for the name. */
  lemma GetIsValuesOfName(query: string, name: string, values: seq<string>)
    requires forall v :: multiset(values)[v] == multiset(QueryPairs(query))[(name, v)]
    ensures multiset(values) == multiset(ValuesFor(QueryPairs(query), name))
  {
    forall v
      ensures multiset(values)[v] == multiset(ValuesFor(QueryPairs(query), name))[v]
    {
      MultimapValues(QueryPairs(query), name, v);
    }
  }

  /** How a component spells a pair: `key=value` with no '=' in the key, or the key alone. */
  predicate Spells(component: string, p: Pair) {
    && Free(p.0, {'='})
    && (component == p.0 + "=" + p.1 || (p.1 == "" && component == p.0))
  }

  /** Every component spells exactly one pair, the one it is cut into. */
  lemma SplitIff(component: string, p: Pair)
    ensures SplitKeyValue(component) == p <==> Spells(component, p)
  {
    var pos := FindFirstOf(component, {'='}, 0);
    if pos != NPOS {
      assert component == component[..pos] + "=" + component[pos + 1..];
    }
    if component == p.0 + "=" + p.1 && Free(p.0, {'='}) {
      FindSkipsFreeText(p.0, p.1, {'='}, '=');
      assert component[..|p.0|] == p.0 && component[|p.0| + 1..] == p.1;
    }
  }

  /** Components that spell the pairs, with '&' or ';' between them, and perhaps one more at the end. */
  predicate Writes(components: seq<string>, marks: seq<char>, text: string, pairs: seq<Pair>) {
    && |marks| <= |components| <= |marks| + 1 && |components| == |pairs|
    && (|components| == |marks| + 1 ==> components[|marks|] != "")
    && (forall i :: 0 <= i < |marks| ==> marks[i] == '&' || marks[i] == ';')
    && (forall i :: 0 <= i < |pairs| ==> Free(components[i], {'&', ';'}) && Spells(components[i], pairs[i]))
    && text == Separate(components, marks)
  }

  ghost predicate QueryText(text: string, pairs: seq<Pair>) {
    exists components, marks :: Writes(components, marks, text, pairs)
  }

  /** A query is split into these pairs, in this order, exactly when it is a text for them. */
  lemma QueryRoundTrip(text: string, pairs: seq<Pair>)
    ensures QueryPairs(text) == pairs <==> QueryText(text, pairs)
  {
    if QueryPairs(text) == pairs {
      QueryIsWritten(text);
    }
    if QueryText(text, pairs) {
      var components, marks :| Writes(components, marks, text, pairs);
      FieldsOfSeparate(components, marks, SEPARATORS);
      forall i | 0 <= i < |pairs|
        ensures SplitKeyValue(components[i]) == pairs[i]
      {
        SplitIff(components[i], pairs[i]);
      }
    }
  }

  lemma QueryIsWritten(text: string)
    ensures QueryText(text, QueryPairs(text))
  {
    var components := Fields(text, SEPARATORS);
    var marks := SeparateFields(text, SEPARATORS);
    FieldsAreFree(text, SEPARATORS);
    forall i | 0 <= i < |components|
      ensures Free(components[i], {'&', ';'}) && Spells(components[i], QueryPairs(text)[i])
    {
      SplitIff(components[i], SplitKeyValue(components[i]));
      assert SEPARATORS == {'&', ';'};
    }
    assert Writes(components, marks, text, QueryPairs(text));
  }
}
