/** The search of `match` over the heap tree: its states, and one turn of its loop. */
module SearchStates {
  import opened Wrappers
  import opened Text
  import opened Templates
  import opened Registry
  import opened Search
  import opened CandidateSet
  import opened Matching
  import opened TrieNodes
  import Cursor

  /** One path of the search. `None` stands for the null pointer. */
  datatype SearchState = SearchState(
    cur: Node,
    variables: seq<string>,
    matched: Option<Resource>,
    methods: Option<Methods>,
    terminated: bool,
    literals: string)

  /**
    A live state stands at its template's node and has captured and spelled what that template says;
    if any component was consumed, `matched` is what that node holds. A terminated one has no match.
   */
  ghost predicate At(nodes: NodeMap, state: SearchState, t: Template, cs: seq<string>)
    reads nodes.Values
  {
    if state.terminated then state.matched == None
    else
      && t in nodes && |t| == |cs| && state.cur == nodes[t]
      && state.variables == Captures(t, cs) && state.literals == Literals(t, cs)
      && state.matched == (if cs == [] then None else nodes[t].resource)
      && (state.matched.Some? ==> state.methods == Some(nodes[t].methods))
  }

  /** The positions of the states that have not terminated. */
  ghost function Live(states: seq<SearchState>, at: seq<Template>): seq<Template>
    requires |states| == |at|
  {
    if states == [] then []
    else
      var n := |states| - 1;
      Live(states[..n], at[..n]) + (if states[n].terminated then [] else [at[n]])
  }

  /** The states handed to the candidate set. */
  function Matched(states: seq<SearchState>): seq<Found> {
    if states == [] then []
    else
      var n := |states| - 1;
      Matched(states[..n]) + FoundIn(states[n])
  }

  function FoundIn(state: SearchState): seq<Found> {
    if state.matched.Some? && state.methods.Some?
    then [Found(state.matched.value, state.methods.value, state.variables, state.literals)]
    else []
  }

  /** One state meets one component: its literal step, and the state its variable child opens. */
  method Advance(ghost nodes: NodeMap, state: SearchState, ghost t: Template, component: string, ghost cs: seq<string>)
    returns (next: SearchState, spawned: seq<SearchState>)
    requires Shape(nodes) && !state.terminated && At(nodes, state, t, cs)
    ensures next.terminated <==> t + [Literal(component)] !in nodes
    ensures At(nodes, next, t + [Literal(component)], cs + [component])
    ensures |spawned| == if t + [Variable] in nodes then 1 else 0
    ensures spawned != [] ==> !spawned[0].terminated && At(nodes, spawned[0], t + [Variable], cs + [component])
  {
    var cur := state.cur;
    ChildAt(nodes, t, Variable);
    ChildAt(nodes, t, Literal(component));
    assert (cs + [component])[..|cs|] == cs;
    assert (t + [Variable])[..|t|] == t && (t + [Literal(component)])[..|t|] == t;
    next := state.(matched := None);
    spawned := [];
    if cur.varChild != null {
      var s := SearchState(cur.varChild, state.variables + [component], cur.varChild.resource,
                           Some(cur.varChild.methods), false, state.literals + ".");
      spawned := [s];
    }
    if component !in cur.children {
      next := next.(terminated := true);
      return;
    }
    next := next.(cur := cur.children[component], literals := next.literals + component);
    if next.cur.resource.Some? {
      next := next.(matched := next.cur.resource, methods := Some(next.cur.methods));
    }
  }

  /** Component by component, a whole list of states against the templates they stand at. */
  ghost predicate AllAt(nodes: NodeMap, states: seq<SearchState>, at: seq<Template>, cs: seq<string>)
    reads nodes.Values
  {
    |at| == |states| && forall i :: 0 <= i < |states| ==> At(nodes, states[i], at[i], cs)
  }

  lemma LiveStep(states: seq<SearchState>, at: seq<Template>, state: SearchState, t: Template)
    requires |states| == |at|
    ensures state.terminated ==> Live(states + [state], at + [t]) == Live(states, at)
    ensures !state.terminated ==> Live(states + [state], at + [t]) == Live(states, at) + [t]
  {
    assert (states + [state])[..|states|] == states && (at + [t])[..|at|] == at;
  }

  lemma {:induction false} LiveConcat(states: seq<SearchState>, at: seq<Template>,
                                      states': seq<SearchState>, at': seq<Template>)
    requires |states| == |at| && |states'| == |at'|
    ensures Live(states + states', at + at') == Live(states, at) + Live(states', at')
  {
    if states' == [] {
      assert states + states' == states && at + at' == at;
    } else {
      var n := |states'| - 1;
      LiveConcat(states, at, states'[..n], at'[..n]);
      LiveConcatStep(states, at, states'[..n], at'[..n], states'[n], at'[n]);
      assert states' == states'[..n] + [states'[n]] && at' == at'[..n] + [at'[n]];
    }
  }

  lemma LiveConcatStep(states: seq<SearchState>, at: seq<Template>,
                       states': seq<SearchState>, at': seq<Template>, state: SearchState, t: Template)
    requires |states| == |at| && |states'| == |at'|
    requires Live(states + states', at + at') == Live(states, at) + Live(states', at')
    ensures Live(states + (states' + [state]), at + (at' + [t])) == Live(states, at) + Live(states' + [state], at' + [t])
  {
    hide Live;
    ConcatIsAssociative(states, states', [state]);
    ConcatIsAssociative(at, at', [t]);
    ConcatIsAssociative(Live(states, at), Live(states', at'), [t]);
    LiveStep(states + states', at + at', state, t);
    LiveStep(states', at', state, t);
  }

  /** What one round of the search has done when it has been through some of the states. */
  ghost predicate Round(trie: set<Template>, component: string,
                        before: seq<SearchState>, beforeAt: seq<Template>,
                        after: seq<SearchState>, afterAt: seq<Template>,
                        add: seq<SearchState>, addAt: seq<Template>)
  {
    && |before| == |beforeAt| && |after| == |afterAt| && |add| == |addAt|
    && Live(after, afterAt) == Keep(Append(Live(before, beforeAt), Literal(component)), trie)
    && Live(add, addAt) == addAt
    && addAt == Keep(Append(Live(before, beforeAt), Variable), trie)
  }

  /** A terminated state is passed over. */
  lemma RoundSkips(trie: set<Template>, component: string,
                   before: seq<SearchState>, beforeAt: seq<Template>,
                   after: seq<SearchState>, afterAt: seq<Template>,
                   add: seq<SearchState>, addAt: seq<Template>, state: SearchState, t: Template)
    requires Round(trie, component, before, beforeAt, after, afterAt, add, addAt)
    requires state.terminated
    ensures Round(trie, component, before + [state], beforeAt + [t], after + [state], afterAt + [t], add, addAt)
  {
    LiveStep(before, beforeAt, state, t);
    LiveStep(after, afterAt, state, t);
  }

  /** A live state takes its literal step and opens a state at its variable child. */
  lemma RoundAdvances(trie: set<Template>, component: string,
                      before: seq<SearchState>, beforeAt: seq<Template>,
                      after: seq<SearchState>, afterAt: seq<Template>,
                      add: seq<SearchState>, addAt: seq<Template>,
                      state: SearchState, t: Template, next: SearchState, spawned: seq<SearchState>)
    requires Round(trie, component, before, beforeAt, after, afterAt, add, addAt)
    requires !state.terminated
    requires next.terminated <==> t + [Literal(component)] !in trie
    requires |spawned| == if t + [Variable] in trie then 1 else 0
    requires spawned != [] ==> !spawned[0].terminated
    ensures Round(trie, component, before + [state], beforeAt + [t], after + [next], afterAt + [t + [Literal(component)]],
                  add + spawned, addAt + if spawned == [] then [] else [t + [Variable]])
  {
    LiveStep(before, beforeAt, state, t);
    LiveStep(after, afterAt, next, t + [Literal(component)]);
    KeepAppendStep(Live(before, beforeAt), t, Literal(component), trie);
    KeepAppendStep(Live(before, beforeAt), t, Variable, trie);
    if spawned == [] {
      assert add + spawned == add && addAt + [] == addAt;
    } else {
      assert spawned == [spawned[0]];
      LiveStep(add, addAt, spawned[0], t + [Variable]);
    }
  }

  /** The state of one round after k states: those before k advanced, the others untouched. */
  ghost predicate Swept(nodes: NodeMap, component: string, cs: seq<string>,
                        states: seq<SearchState>, at: seq<Template>, k: nat,
                        after: seq<SearchState>, doneAt: seq<Template>,
                        add: seq<SearchState>, addAt: seq<Template>)
    requires k <= |states| == |at|
    reads nodes.Values
  {
    && |after| == |states| && after[k..] == states[k..]
    && AllAt(nodes, after[..k], doneAt, cs + [component])
    && AllAt(nodes, add, addAt, cs + [component])
    && Round(nodes.Keys, component, states[..k], at[..k], after[..k], doneAt, add, addAt)
  }

  lemma SweepSkips(nodes: NodeMap, component: string, cs: seq<string>,
                   states: seq<SearchState>, at: seq<Template>, k: nat,
                   after: seq<SearchState>, doneAt: seq<Template>,
                   add: seq<SearchState>, addAt: seq<Template>)
    requires k < |states| == |at|
    requires Swept(nodes, component, cs, states, at, k, after, doneAt, add, addAt)
    requires states[k].terminated && At(nodes, states[k], at[k], cs)
    ensures Swept(nodes, component, cs, states, at, k + 1, after, doneAt + [at[k]], add, addAt)
  {
    assert after[k] == after[k..][0] == states[k..][0] == states[k];
    assert after[k + 1..] == after[k..][1..] == states[k + 1..];
    assert states[..k + 1] == states[..k] + [states[k]] && at[..k + 1] == at[..k] + [at[k]];
    assert after[..k + 1] == after[..k] + [states[k]];
    RoundSkips(nodes.Keys, component, states[..k], at[..k], after[..k], doneAt, add, addAt, states[k], at[k]);
  }

  lemma SweepAdvances(nodes: NodeMap, component: string, cs: seq<string>,
                      states: seq<SearchState>, at: seq<Template>, k: nat,
                      after: seq<SearchState>, doneAt: seq<Template>,
                      add: seq<SearchState>, addAt: seq<Template>,
                      next: SearchState, spawned: seq<SearchState>)
    requires k < |states| == |at|
    requires Swept(nodes, component, cs, states, at, k, after, doneAt, add, addAt)
    requires !states[k].terminated
    requires next.terminated <==> at[k] + [Literal(component)] !in nodes
    requires At(nodes, next, at[k] + [Literal(component)], cs + [component])
    requires |spawned| == if at[k] + [Variable] in nodes then 1 else 0
    requires spawned != [] ==> !spawned[0].terminated && At(nodes, spawned[0], at[k] + [Variable], cs + [component])
    ensures Swept(nodes, component, cs, states, at, k + 1, after[k := next], doneAt + [at[k] + [Literal(component)]],
                  add + spawned, addAt + if spawned == [] then [] else [at[k] + [Variable]])
  {
    hide Live, Keep, Append, At;
    var after' := after[k := next];
    assert after'[k + 1..] == after[k..][1..] == states[k..][1..] == states[k + 1..];
    assert states[..k + 1] == states[..k] + [states[k]] && at[..k + 1] == at[..k] + [at[k]];
    assert after'[..k + 1] == after[..k] + [next];
    RoundAdvances(nodes.Keys, component, states[..k], at[..k], after[..k], doneAt, add, addAt,
                  states[k], at[k], next, spawned);
  }

  lemma SweepEnds(nodes: NodeMap, component: string, cs: seq<string>,
                  states: seq<SearchState>, at: seq<Template>,
                  after: seq<SearchState>, doneAt: seq<Template>,
                  add: seq<SearchState>, addAt: seq<Template>)
    requires |states| == |at| && Swept(nodes, component, cs, states, at, |states|, after, doneAt, add, addAt)
    ensures AllAt(nodes, after + add, doneAt + addAt, cs + [component])
    ensures Live(after + add, doneAt + addAt) == Keep(Append(Live(states, at), Literal(component)), nodes.Keys)
                                               + Keep(Append(Live(states, at), Variable), nodes.Keys)
    ensures |add| == |Keep(Append(Live(states, at), Variable), nodes.Keys)|
  {
    assert after[..|states|] == after && states[..|states|] == states && at[..|states|] == at;
    LiveConcat(after, doneAt, add, addAt);
  }

  /** One round of the search loop: every state meets the component, new states are collected. */
  method Sweep(ghost nodes: NodeMap, states: seq<SearchState>, ghost at: seq<Template>,
               component: string, ghost cs: seq<string>)
    returns (after: seq<SearchState>, ghost afterAt: seq<Template>)
    requires Shape(nodes) && AllAt(nodes, states, at, cs)
    ensures AllAt(nodes, after, afterAt, cs + [component])
    ensures Live(after, afterAt) == Keep(Append(Live(states, at), Literal(component)), nodes.Keys)
                                  + Keep(Append(Live(states, at), Variable), nodes.Keys)
    ensures |after| == |states| + |Keep(Append(Live(states, at), Variable), nodes.Keys)|
  {
    after := states;
    var add: seq<SearchState> := [];
    ghost var doneAt: seq<Template>, addAt: seq<Template> := [], [];
    for k := 0 to |states|
      invariant Swept(nodes, component, cs, states, at, k, after, doneAt, add, addAt)
    {
      var state := after[k];
      assert state == after[k..][0] == states[k..][0] == states[k];
      if state.terminated {
        SweepSkips(nodes, component, cs, states, at, k, after, doneAt, add, addAt);
        doneAt := doneAt + [at[k]];
      } else {
        var next, spawned := Advance(nodes, state, at[k], component, cs);
        SweepAdvances(nodes, component, cs, states, at, k, after, doneAt, add, addAt, next, spawned);
        after := after[k := next];
        add := add + spawned;
        doneAt := doneAt + [at[k] + [Literal(component)]];
        addAt := addAt + if spawned == [] then [] else [at[k] + [Variable]];
      }
    }
    SweepEnds(nodes, component, cs, states, at, after, doneAt, add, addAt);
    after, afterAt := after + add, doneAt + addAt;
  }

  // ---------- from states to candidates ----------

  /** The states with a match are the registered templates among the live positions. */
  lemma {:induction false} MatchedAreRegistered(nodes: NodeMap, table: Table, cs: seq<string>,
                                                states: seq<SearchState>, at: seq<Template>)
    requires AllAt(nodes, states, at, cs) && Holds(nodes, table) && table.Keys <= nodes.Keys && cs != []
    ensures forall t :: t in Keep(Live(states, at), table.Keys) ==> t in table && |t| == |cs|
    ensures Matched(states) == FoundAll(table, cs, Keep(Live(states, at), table.Keys))
  {
    if states != [] {
      var n := |states| - 1;
      AllAtByLast(nodes, states, at, cs);
      MatchedAreRegistered(nodes, table, cs, states[..n], at[..n]);
      MatchedByLast(nodes, table, cs, states, at);
    }
  }

  lemma AllAtByLast(nodes: NodeMap, states: seq<SearchState>, at: seq<Template>, cs: seq<string>)
    requires AllAt(nodes, states, at, cs) && states != []
    ensures var n := |states| - 1; AllAt(nodes, states[..n], at[..n], cs) && At(nodes, states[n], at[n], cs)
  {
  }

  lemma MatchedByLast(nodes: NodeMap, table: Table, cs: seq<string>, states: seq<SearchState>, at: seq<Template>)
    requires states != [] && |at| == |states| && cs != [] && Holds(nodes, table)
    requires At(nodes, states[|states| - 1], at[|at| - 1], cs)
    requires var n := |states| - 1;
             var kept := Keep(Live(states[..n], at[..n]), table.Keys);
             && (forall t :: t in kept ==> t in table && |t| == |cs|)
             && Matched(states[..n]) == FoundAll(table, cs, kept)
    ensures forall t :: t in Keep(Live(states, at), table.Keys) ==> t in table && |t| == |cs|
    ensures Matched(states) == FoundAll(table, cs, Keep(Live(states, at), table.Keys))
  {
    hide Keep, Live, At, FoundIn, FoundAt, FoundAll, Holds;
    var n := |states| - 1;
    FoundInRegistered(nodes, table, cs, states[n], at[n]);
    LiveByLast(states, at, table.Keys);
    if !states[n].terminated && at[n] in table {
      FoundAllStep(table, cs, Keep(Live(states[..n], at[..n]), table.Keys), at[n]);
    } else {
      assert Matched(states[..n]) + [] == Matched(states[..n]);
    }
  }

  lemma FoundInRegistered(nodes: NodeMap, table: Table, cs: seq<string>, state: SearchState, t: Template)
    requires At(nodes, state, t, cs) && Holds(nodes, table) && cs != []
    ensures !state.terminated ==> |t| == |cs|
    ensures FoundIn(state) == if !state.terminated && t in table then [FoundAt(table, cs, t)] else []
  {
  }

  lemma LiveByLast(states: seq<SearchState>, at: seq<Template>, s: set<Template>)
    requires |states| == |at| && states != []
    ensures var n := |states| - 1;
            var kept := Keep(Live(states[..n], at[..n]), s);
            Keep(Live(states, at), s) == if !states[n].terminated && at[n] in s then kept + [at[n]] else kept
  {
    var n := |states| - 1;
    assert states == states[..n] + [states[n]] && at == at[..n] + [at[n]];
    LiveStep(states[..n], at[..n], states[n], at[n]);
    KeepStep(Live(states[..n], at[..n]), at[n], s);
  }

  lemma MethodsAreSet(nodes: NodeMap, states: seq<SearchState>, at: seq<Template>, cs: seq<string>)
    requires AllAt(nodes, states, at, cs)
    ensures forall k :: 0 <= k < |states| && states[k].matched.Some? ==> states[k].methods.Some?
  {
    forall k | 0 <= k < |states|
      ensures states[k].matched.Some? ==> states[k].methods.Some?
    {
      assert At(nodes, states[k], at[k], cs);
    }
  }

  lemma MatchedStep(states: seq<SearchState>, k: nat)
    requires k < |states|
    ensures Matched(states[..k + 1]) == Matched(states[..k]) + FoundIn(states[k])
  {
    assert states[..k + 1][..k] == states[..k];
  }

  lemma KeepStep(ts: seq<Template>, t: Template, s: set<Template>)
    ensures t in s ==> Keep(ts + [t], s) == Keep(ts, s) + [t]
    ensures t !in s ==> Keep(ts + [t], s) == Keep(ts, s)
  {
    assert (ts + [t])[..|ts|] == ts;
  }

  lemma FoundAllStep(table: Table, cs: seq<string>, ts: seq<Template>, t: Template)
    requires t in table && |t| == |cs| && forall u :: u in ts ==> u in table && |u| == |cs|
    ensures forall u :: u in ts + [t] ==> u in table && |u| == |cs|
    ensures FoundAll(table, cs, ts + [t]) == FoundAll(table, cs, ts) + [FoundAt(table, cs, t)]
  {
    var us := ts + [t];
    forall i | 0 <= i < |ts|
      ensures us[i] == ts[i] && ts[i] in ts
    {
    }
  }

  /** The states with a match, inserted into the set of pointers one after another. */
  method Collect(states: seq<SearchState>) returns (found: seq<Found>, candidates: Pointers)
    requires forall k :: 0 <= k < |states| && states[k].matched.Some? ==> states[k].methods.Some?
    ensures found == Matched(states)
    ensures MayBuild(Measures(found), |found|, candidates)
  {
    found, candidates := [], [];
    for k := 0 to |states|
      invariant found == Matched(states[..k])
      invariant MayBuild(Measures(found), |found|, candidates)
    {
      var state := states[k];
      MatchedStep(states, k);
      if state.matched.Some? {
        var f := Found(state.matched.value, state.methods.value, state.variables, state.literals);
        found, candidates := CollectOne(found, candidates, f);
      }
    }
    assert states[..|states|] == states;
  }

  method CollectOne(found: seq<Found>, candidates: Pointers, f: Found)
    returns (found': seq<Found>, candidates': Pointers)
    requires MayBuild(Measures(found), |found|, candidates)
    ensures found' == found + [f]
    ensures MayBuild(Measures(found'), |found'|, candidates')
  {
    hide MayBuild, MayInsert, Pointing;
    found' := found + [f];
    var keys := Measures(found');
    assert keys == Measures(found) + [Measure(f)];
    BuildInPrefix(Measures(found), [Measure(f)], |found|, candidates);
    BuildPoints(keys, |found|, candidates);
    candidates' := Insert(keys, candidates, |found|);
    AnotherInsertion(keys, |found|, candidates, candidates');
  }

  /**
    The states after some components: the live ones stand at the positions the pruned search is
    at, and one state was opened at the head and one at each variable node reached.
   */
  ghost predicate Explored(nodes: NodeMap, states: seq<SearchState>, at: seq<Template>, cs: seq<string>)
    reads nodes.Values
  {
    && AllAt(nodes, states, at, cs)
    && Live(states, at) == Frontier(nodes.Keys, cs)
    && |states| == 1 + |Spawned(nodes.Keys, cs)|
  }

  lemma ExploreStarts(nodes: NodeMap, states: seq<SearchState>, at: seq<Template>)
    requires [] in nodes && at == [[]]
    requires states == [SearchState(nodes[[]], [], None, None, false, "")]
    ensures Explored(nodes, states, at, [])
  {
    assert states[..0] == [] && at[..0] == [];
  }

  /** A round of the search, as a step from one explored path to the next. */
  method SweepOne(ghost nodes: NodeMap, states: seq<SearchState>, ghost at: seq<Template>,
                  component: string, ghost done: seq<string>)
    returns (after: seq<SearchState>, ghost afterAt: seq<Template>)
    requires Shape(nodes) && Explored(nodes, states, at, done)
    ensures Explored(nodes, after, afterAt, done + [component])
  {
    after, afterAt := Sweep(nodes, states, at, component, done);
    SearchStep(nodes.Keys, done, component);
  }

  /** One turn of the search loop: the next component is taken from the path and all states meet it. */
  method Turn(ghost nodes: NodeMap, states: seq<SearchState>, ghost at: seq<Template>,
              it: Cursor.Iterator, ghost done: seq<string>)
    returns (after: seq<SearchState>, ghost afterAt: seq<Template>)
    requires Shape(nodes) && Explored(nodes, states, at, done)
    requires it.Valid() && !it.AtEnd()
    modifies it
    ensures it.Valid() && it.Remaining() == old(it.Remaining())[1..]
    ensures Explored(nodes, after, afterAt, done + [old(it.Remaining())[0]])
  {
    var component := it.Next();
    after, afterAt := SweepOne(nodes, states, at, component, done);
  }

  method ExploreRest(ghost nodes: NodeMap, states: seq<SearchState>, ghost at: seq<Template>, it: Cursor.Iterator)
    returns (after: seq<SearchState>, ghost afterAt: seq<Template>)
    requires Shape(nodes) && Explored(nodes, states, at, []) && it.Valid()
    modifies it
    ensures Explored(nodes, after, afterAt, old(it.Remaining()))
  {
    hide *;
    ghost var cs: seq<string>, done: seq<string> := it.Remaining(), [];
    after, afterAt := states, at;
    while !it.AtEnd()
      invariant it.Valid() && Shape(nodes)
      invariant |done| <= |cs| && it.Remaining() == cs[|done|..] && done == cs[..|done|]
      invariant Explored(nodes, after, afterAt, done)
      decreases |cs| - |done|
    {
      after, afterAt := Turn(nodes, after, afterAt, it, done);
      done := done + [cs[|done|]];
    }
    assert done == cs;
  }
}
