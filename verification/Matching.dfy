/**
  What `match` computes, as a function of the registered table and the path components alone, and
  what follows for the routes an application registers.
 */
module Matching {
  import opened Wrappers
  import opened Text
  import opened Templates
  import opened Registry
  import opened Search
  import opened Ranking
  import opened CandidateSet

  /** A candidate: what a search state that ended on a registered node carries. */
  datatype Found = Found(resource: Resource, methods: Methods, variables: seq<string>, literals: string)

  /** What `match` returns. */
  datatype Match = Match(resource: Resource, methods: Methods, parameters: seq<string>)

  /** The registered templates the search ends on. The empty path never matches. */
  function CandidateTemplates(table: Table, cs: seq<string>): seq<Template> {
    if cs == [] then [] else Keep(Choices(cs), table.Keys)
  }

  function FoundAt(table: Table, cs: seq<string>, t: Template): Found
    requires t in table && |t| == |cs|
  {
    Found(table[t].resource, table[t].methods, Captures(t, cs), Literals(t, cs))
  }

  function FoundAll(table: Table, cs: seq<string>, ts: seq<Template>): (r: seq<Found>)
    requires forall t :: t in ts ==> t in table && |t| == |cs|
    ensures |r| == |ts|
  {
    seq(|ts|, i requires 0 <= i < |ts| => assert ts[i] in ts; FoundAt(table, cs, ts[i]))
  }

  function Candidates(table: Table, cs: seq<string>): seq<Found> {
    CandidatesAreMatches(table, cs);
    FoundAll(table, cs, CandidateTemplates(table, cs))
  }

  /** What both orders compare, of a candidate and of the template it stands for. */
  function Measure(f: Found): Key {
    Key(|f.variables|, f.literals)
  }

  function KeyAt(t: Template, cs: seq<string>): Key
    requires |t| == |cs|
  {
    Key(VariableCount(t), Literals(t, cs))
  }

  function Measures(found: seq<Found>): (keys: seq<Key>)
    ensures |keys| == |found|
  {
    seq(|found|, i requires 0 <= i < |found| => Measure(found[i]))
  }

  function Keys(table: Table, cs: seq<string>): seq<Key> {
    Measures(Candidates(table, cs))
  }

  function MatchOf(f: Found): Match {
    Match(f.resource, f.methods, f.variables)
  }

  function MatchAt(table: Table, cs: seq<string>, t: Template): Match
    requires t in table && |t| == |cs|
  {
    Match(table[t].resource, table[t].methods, Captures(t, cs))
  }

  /** What `match` may return once these candidates were collected: the front of a set built from them. */
  ghost predicate MayPick(found: seq<Found>, result: Option<Match>) {
    if found == [] then result == None
    else exists w: nat :: w < |found| && MayFront(Measures(found), w) && result == Some(MatchOf(found[w]))
  }

  /** What `match` may return on a path. */
  ghost predicate MayReturn(table: Table, cs: seq<string>, result: Option<Match>) {
    MayPick(Candidates(table, cs), result)
  }

  // ---------- candidates ----------

  /** The candidates are exactly the registered templates that match, each once. */
  lemma CandidatesAreMatches(table: Table, cs: seq<string>)
    ensures forall t :: t in CandidateTemplates(table, cs) <==> cs != [] && t in table && Matches(t, cs)
    ensures NoDuplicates(CandidateTemplates(table, cs))
  {
    forall t
      ensures t in CandidateTemplates(table, cs) <==> cs != [] && t in table && Matches(t, cs)
    {
      KeepMembers(Choices(cs), table.Keys, t);
      ChoicesAreMatches(cs, t);
    }
    ChoicesNoDuplicates(cs);
    KeepNoDuplicates(Choices(cs), table.Keys);
  }

  lemma CandidateAt(table: Table, cs: seq<string>, i: nat)
    requires i < |Candidates(table, cs)|
    ensures |CandidateTemplates(table, cs)| == |Keys(table, cs)| == |Candidates(table, cs)|
    ensures var t := CandidateTemplates(table, cs)[i];
            && t in table && cs != [] && Matches(t, cs)
            && MatchOf(Candidates(table, cs)[i]) == MatchAt(table, cs, t)
            && Keys(table, cs)[i] == KeyAt(t, cs)
  {
    CandidatesAreMatches(table, cs);
    var t := CandidateTemplates(table, cs)[i];
    assert t in CandidateTemplates(table, cs);
    CapturesCount(t, cs);
  }

  lemma PositionOf(table: Table, cs: seq<string>, t: Template) returns (i: nat)
    requires t in table && Matches(t, cs) && cs != []
    ensures i < |Candidates(table, cs)| && CandidateTemplates(table, cs)[i] == t
  {
    CandidatesAreMatches(table, cs);
    assert t in CandidateTemplates(table, cs);
    i :| 0 <= i < |CandidateTemplates(table, cs)| && CandidateTemplates(table, cs)[i] == t;
  }

  lemma PickedFront(found: seq<Found>, result: Option<Match>) returns (w: nat)
    requires MayPick(found, result) && result.Some?
    ensures w < |found| && MayFront(Measures(found), w) && result == Some(MatchOf(found[w]))
  {
    w :| w < |found| && MayFront(Measures(found), w) && result == Some(MatchOf(found[w]));
  }

  lemma FrontMayBePicked(found: seq<Found>, w: nat)
    requires MayFront(Measures(found), w)
    ensures w < |found| && MayPick(found, Some(MatchOf(found[w])))
  {
    FrontIsCandidate(Measures(found), w);
  }

  /** On every path there is something `match` may return. */
  lemma SomeReturn(table: Table, cs: seq<string>) returns (result: Option<Match>)
    ensures MayReturn(table, cs, result)
  {
    var found := Candidates(table, cs);
    if found == [] {
      result := None;
    } else {
      var w := SomeFront(Measures(found));
      FrontMayBePicked(found, w);
      result := Some(MatchOf(found[w]));
    }
  }

  /** `match` returns nothing iff the path is empty or no registered template matches it. */
  lemma NoMatchIff(table: Table, cs: seq<string>, result: Option<Match>)
    requires MayReturn(table, cs, result)
    ensures result == None <==> cs == [] || forall t :: t in table ==> !Matches(t, cs)
  {
    CandidatesAreMatches(table, cs);
    var ts := CandidateTemplates(table, cs);
    if ts == [] {
      assert forall t :: t !in ts;
    } else {
      assert ts[0] in ts;
    }
  }

  /**
    However the set was built, a match is a registered template that matches: it carries that
    node's resource, that same node's methods, and one captured component per variable.
   */
  lemma MatchIsRegistered(table: Table, cs: seq<string>, result: Option<Match>) returns (t: Template)
    requires MayReturn(table, cs, result) && result.Some?
    ensures cs != [] && t in table && Matches(t, cs)
    ensures result == Some(MatchAt(table, cs, t))
    ensures |result.value.parameters| == VariableCount(t)
  {
    hide Candidates, CandidateTemplates, MayFront;
    var w := PickedFront(Candidates(table, cs), result);
    CandidateAt(table, cs, w);
    t := CandidateTemplates(table, cs)[w];
    CapturesCount(t, cs);
  }

  // ---------- the documented winner ----------

  /** No registered template that matches is documented to precede this one. */
  ghost predicate DocumentedWinner(table: Table, cs: seq<string>, t: Template) {
    && cs != [] && t in table && Matches(t, cs)
    && forall u | u in table && Matches(u, cs) :: !Documented(KeyAt(u, cs), KeyAt(t, cs))
  }

  /** Every two registered templates that match the path rank the same way on all three measures. */
  ghost predicate RoutesAligned(table: Table, cs: seq<string>) {
    forall t, u | t in table && Matches(t, cs) && u in table && Matches(u, cs) ::
      Aligned(KeyAt(t, cs), KeyAt(u, cs))
  }

  /** Where `std::set` can be used at all, `match` returns the documented winner. */
  lemma MatchIsDocumentedWinner(table: Table, cs: seq<string>, result: Option<Match>) returns (t: Template)
    requires MayReturn(table, cs, result) && result.Some? && RoutesAligned(table, cs)
    ensures StrictWeakOrder(Keys(table, cs))
    ensures DocumentedWinner(table, cs, t)
    ensures result == Some(MatchAt(table, cs, t))
  {
    var keys := Keys(table, cs);
    KeysAligned(table, cs);
    SetUsableIffAligned(keys);
    var b := BestIndex(keys);
    BestIndexIsBest(keys);
    AlignedIsNotOvertaken(keys, b);
    WinnerIsAlwaysInFrontIff(keys);
    CandidateAt(table, cs, b);
    t := CandidateTemplates(table, cs)[b];
    BestIsDocumentedWinner(table, cs);
  }

  lemma KeysAligned(table: Table, cs: seq<string>)
    requires RoutesAligned(table, cs)
    ensures PairwiseAligned(Keys(table, cs))
  {
    forall i, j | 0 <= i < |Keys(table, cs)| && 0 <= j < |Keys(table, cs)|
      ensures Aligned(Keys(table, cs)[i], Keys(table, cs)[j])
    {
      CandidateAt(table, cs, i);
      CandidateAt(table, cs, j);
    }
  }

  lemma BestIsDocumentedWinner(table: Table, cs: seq<string>)
    requires Keys(table, cs) != []
    ensures BestIndex(Keys(table, cs)) < |CandidateTemplates(table, cs)|
    ensures DocumentedWinner(table, cs, CandidateTemplates(table, cs)[BestIndex(Keys(table, cs))])
  {
    var keys, ts := Keys(table, cs), CandidateTemplates(table, cs);
    var b := BestIndex(keys);
    BestIndexIsBest(keys);
    CandidateAt(table, cs, b);
    forall u | u in table && Matches(u, cs)
      ensures !Documented(KeyAt(u, cs), KeyAt(ts[b], cs))
    {
      var i := PositionOf(table, cs, u);
      CandidateAt(table, cs, i);
      assert !Documented(keys[i], keys[b]);
    }
  }

  /** The requirement of `std::set` on the candidates, stated on the registered templates. */
  lemma SetUsableIffRoutesAligned(table: Table, cs: seq<string>)
    requires cs != []
    ensures StrictWeakOrder(Keys(table, cs)) <==> RoutesAligned(table, cs)
  {
    var keys := Keys(table, cs);
    SetUsableIffAligned(keys);
    if PairwiseAligned(keys) {
      forall t, u | t in table && Matches(t, cs) && u in table && Matches(u, cs)
        ensures Aligned(KeyAt(t, cs), KeyAt(u, cs))
      {
        var i := PositionOf(table, cs, t);
        var j := PositionOf(table, cs, u);
        CandidateAt(table, cs, i);
        CandidateAt(table, cs, j);
        assert Aligned(keys[i], keys[j]);
      }
    }
    if RoutesAligned(table, cs) {
      KeysAligned(table, cs);
    }
  }

  // ---------- keys are told apart ----------

  /**
    No candidate is taken for another when components are non-empty and start with no dot: every
    set built from them points to all of them.
   */
  lemma NoCandidateIsDropped(table: Table, cs: seq<string>, r: Pointers)
    requires forall i, t, u | 0 <= i < |cs| && t in table && Matches(t, cs) && u in table && Matches(u, cs)
                              && t[i] != u[i] ::
               cs[i] != "" && cs[i][0] != '.'
    requires MayBuild(Keys(table, cs), |Keys(table, cs)|, r)
    ensures |r| == |Candidates(table, cs)| && forall x :: 0 <= x < |Candidates(table, cs)| ==> x in r
  {
    var keys, ts := Keys(table, cs), CandidateTemplates(table, cs);
    forall i, j | 0 <= i < j < |keys|
      ensures keys[i] != keys[j]
    {
      CandidateAt(table, cs, i);
      CandidateAt(table, cs, j);
      CandidatesAreMatches(table, cs);
      LiteralsDecodeUniquely(ts[i], ts[j], cs);
    }
    NothingDropped(keys, |keys|, r);
  }

  // ---------- requests for a route ----------

  /**
    The route round trip. A registered template, filled in with values that contain no slash, spells
    a path; if no other registered template matches it, `match` returns that template's own entry
    and exactly those values.
   */
  lemma RouteRoundTrip(log: Log, t: Template, values: seq<string>, result: Option<Match>)
    requires t in TableOf(log) && t != [] && |values| == VariableCount(t)
    requires forall i :: 0 <= i < |values| ==> Free(values[i], {SLASH})
    requires forall u | u in TableOf(log) && u != t :: !Matches(u, Fill(t, values))
    requires MayReturn(TableOf(log), Components(PathOf(Fill(t, values))), result)
    ensures result == Some(Match(TableOf(log)[t].resource, TableOf(log)[t].methods, values))
  {
    var cs := Fill(t, values);
    TableEntries(log, t);
    TemplateIsSlashFree(TableOf(log)[t].resource.path);
    FillIsSlashFree(t, values);
    PathRoundTrip(cs, "");
    CapturesOfFill(t, values);
    NoMatchIff(TableOf(log), cs, result);
    var u := MatchIsRegistered(TableOf(log), cs, result);
  }

  // ---------- registrations ----------

  /** Registering a template that does not match a path leaves that path's candidates and results alone. */
  lemma UnrelatedRegistration(log: Log, e: Entry, cs: seq<string>)
    requires !Matches(KeyOf(e), cs)
    ensures Candidates(TableOf(log + [e]), cs) == Candidates(TableOf(log), cs)
    ensures forall result :: MayReturn(TableOf(log + [e]), cs, result) <==> MayReturn(TableOf(log), cs, result)
  {
    TableOfExtended(log, e);
    var table, table' := TableOf(log), TableOf(log + [e]);
    forall t | t in Choices(cs)
      ensures t in table.Keys <==> t in table'.Keys
    {
      ChoicesAreMatches(cs, t);
    }
    KeepCongruent(Choices(cs), table.Keys, table'.Keys);
    var ts := CandidateTemplates(table, cs);
    assert ts == CandidateTemplates(table', cs);
    CandidatesAreMatches(table, cs);
    forall i | 0 <= i < |ts|
      ensures FoundAll(table, cs, ts)[i] == FoundAll(table', cs, ts)[i]
    {
      assert ts[i] in ts;
    }
  }

  /** Any two collision-free orders of the same registrations allow the same results on every path. */
  lemma RegistrationOrder(calls: seq<Entry>, calls': seq<Entry>, path: string)
    requires WellFormed(calls) && WellFormed(calls')
    requires forall e :: e in calls <==> e in calls'
    ensures forall result :: MayReturn(TableOf(RegisterAll(calls)), Components(path), result)
                        <==> MayReturn(TableOf(RegisterAll(calls')), Components(path), result)
  {
    CollisionFreeRun(calls);
    CollisionFreeRun(calls');
    RegistrationOrderIsIrrelevant(calls, calls');
  }

  /**
    A trailing slash leaves the components, and so the match, alone exactly on paths that are
    non-empty and do not end in a slash already.
   */
  lemma TrailingSlash(table: Table, path: string)
    ensures Components(path + "/") == Components(path) <==> path != "" && !EndsWith(path, SLASH)
    ensures path != "" && !EndsWith(path, SLASH)
        ==> forall result ::
              MayReturn(table, Components(path + "/"), result) <==> MayReturn(table, Components(path), result)
  {
    FieldsOfClosed(path, SLASH);
    assert path + "/" == path + [SLASH];
    if path == "" || EndsWith(path, SLASH) {
      assert |Components(path + "/")| == |Components(path)| + 1;
    }
  }

  // ---------- the order in which candidates are found ----------

  /** Of two candidates that differ last at a slot, the one with the literal there is found first. */
  lemma {:induction false} SearchOrder(cs: seq<string>, t: Template, u: Template, i: nat)
    requires Matches(t, cs) && Matches(u, cs) && i < |cs|
    requires t[i] != Variable && u[i] == Variable && t[i + 1..] == u[i + 1..]
    ensures Keep(Choices(cs), {t, u}) == [t, u]
  {
    hide Choices, Keep;
    var n := |cs| - 1;
    if i == n {
      SearchOrderAtLast(cs, t, u);
    } else {
      assert t[n] == t[i + 1..][n - i - 1] == u[i + 1..][n - i - 1] == u[n];
      assert t[..n][i + 1..] == t[i + 1..][..n - i - 1] == u[i + 1..][..n - i - 1] == u[..n][i + 1..];
      MatchesByLast(t, cs);
      MatchesByLast(u, cs);
      SearchOrder(cs[..n], t[..n], u[..n], i);
      SearchOrderEarlier(cs, t, u);
    }
  }

  lemma SearchOrderAtLast(cs: seq<string>, t: Template, u: Template)
    requires Matches(t, cs) && Matches(u, cs) && cs != []
    requires t[|t| - 1] != Variable && u[|u| - 1] == Variable
    ensures Keep(Choices(cs), {t, u}) == [t, u]
  {
    var n := |cs| - 1;
    var previous, c := Choices(cs[..n]), cs[n];
    assert t[n] == Literal(c) by {
      assert Fits(t[n], c);
    }
    MatchesByLast(t, cs);
    MatchesByLast(u, cs);
    ChoicesAreMatches(cs[..n], t[..n]);
    ChoicesAreMatches(cs[..n], u[..n]);
    ChoicesNoDuplicates(cs[..n]);
    KeepLast(previous, Literal(c), t, u);
    KeepLast(previous, Variable, u, t);
    assert {t, u} == {u, t};
    KeepConcat(Append(previous, Literal(c)), Append(previous, Variable), {t, u});
  }

  lemma SearchOrderEarlier(cs: seq<string>, t: Template, u: Template)
    requires Matches(t, cs) && Matches(u, cs) && cs != [] && t[|t| - 1] == u[|u| - 1]
    requires var n := |cs| - 1; Keep(Choices(cs[..n]), {t[..n], u[..n]}) == [t[..n], u[..n]]
    ensures Keep(Choices(cs), {t, u}) == [t, u]
  {
    var n := |cs| - 1;
    assert Fits(t[n], cs[n]);
    KeepAdvancedPair(Choices(cs[..n]), cs[n], t, u);
  }

  lemma KeepAdvancedPair(ts: seq<Template>, c: string, t: Template, u: Template)
    requires t != [] && u != [] && t[|t| - 1] == u[|u| - 1] && Fits(t[|t| - 1], c)
    requires Keep(ts, {t[..|t| - 1], u[..|u| - 1]}) == [t[..|t| - 1], u[..|u| - 1]]
    ensures Keep(Append(ts, Literal(c)) + Append(ts, Variable), {t, u}) == [t, u]
  {
    var slot := t[|t| - 1];
    KeepPair(ts, slot, t, u);
    AppendPair(t, u, slot);
    KeepOneSlot(ts, Literal(c), slot, {t, u});
  }

  /** Of the two advanced lists, only the one that ends in the templates' own slot contributes. */
  lemma KeepOneSlot(ts: seq<Template>, lit: Slot, slot: Slot, s: set<Template>)
    requires lit != Variable && (slot == lit || slot == Variable)
    requires forall t :: t in s ==> t != [] && t[|t| - 1] == slot
    ensures Keep(Append(ts, lit) + Append(ts, Variable), s) == Keep(Append(ts, slot), s)
  {
    KeepConcat(Append(ts, lit), Append(ts, Variable), s);
    if slot == Variable {
      KeepNone(ts, lit, s);
    } else {
      KeepNone(ts, Variable, s);
    }
  }

  lemma AppendPair(t: Template, u: Template, slot: Slot)
    requires t != [] && u != [] && t[|t| - 1] == slot && u[|u| - 1] == slot
    ensures Append([t[..|t| - 1], u[..|u| - 1]], slot) == [t, u]
  {
    assert t == t[..|t| - 1] + [slot] && u == u[..|u| - 1] + [slot];
  }

  /** In an advanced list without duplicates, only the template that ends in its slot is kept. */
  lemma {:induction false} KeepLast(ts: seq<Template>, slot: Slot, t: Template, u: Template)
    requires NoDuplicates(ts) && t != [] && u != []
    requires t[|t| - 1] == slot && u[|u| - 1] != slot
    ensures Keep(Append(ts, slot), {t, u}) == if t[..|t| - 1] in ts then [t] else []
  {
    if ts != [] {
      var n := |ts| - 1;
      assert ts == ts[..n] + [ts[n]] && ts[n] !in ts[..n];
      KeepLast(ts[..n], slot, t, u);
      KeepLastStep(ts[..n], ts[n], slot, t, u);
    }
  }

  lemma KeepLastStep(ts: seq<Template>, last: Template, slot: Slot, t: Template, u: Template)
    requires t != [] && u != [] && last !in ts
    requires t[|t| - 1] == slot && u[|u| - 1] != slot
    requires Keep(Append(ts, slot), {t, u}) == if t[..|t| - 1] in ts then [t] else []
    ensures Keep(Append(ts + [last], slot), {t, u}) == if t[..|t| - 1] in ts + [last] then [t] else []
  {
    hide Keep, Append;
    KeepAppendStep(ts, last, slot, {t, u});
    assert (last + [slot])[..|last|] == last && (last + [slot])[|last|] == slot;
    assert t == t[..|t| - 1] + [slot];
    assert (last + [slot] == t) <==> last == t[..|t| - 1];
  }

  lemma {:induction false} KeepPair(ts: seq<Template>, slot: Slot, t: Template, u: Template)
    requires t != [] && u != [] && t[|t| - 1] == slot && u[|u| - 1] == slot
    ensures Keep(Append(ts, slot), {t, u}) == Append(Keep(ts, {t[..|t| - 1], u[..|u| - 1]}), slot)
  {
    var pair := {t[..|t| - 1], u[..|u| - 1]};
    if ts != [] {
      var n := |ts| - 1;
      assert ts == ts[..n] + [ts[n]];
      KeepPair(ts[..n], slot, t, u);
      KeepAppendStep(ts[..n], ts[n], slot, {t, u});
      assert t == t[..|t| - 1] + [slot] && u == u[..|u| - 1] + [slot];
      assert (ts[n] + [slot])[..|ts[n]|] == ts[n];
      assert ts[n] + [slot] in {t, u} <==> ts[n] in pair;
    }
  }

  lemma {:induction false} KeepNone(ts: seq<Template>, slot: Slot, s: set<Template>)
    requires forall t :: t in s ==> t != [] && t[|t| - 1] != slot
    ensures Keep(Append(ts, slot), s) == []
  {
    if ts != [] {
      var n := |ts| - 1;
      assert ts == ts[..n] + [ts[n]];
      KeepNone(ts[..n], slot, s);
      KeepAppendStep(ts[..n], ts[n], slot, s);
      assert (ts[n] + [slot])[|ts[n]|] == slot;
    }
  }

  /** Two positions of a list without duplicates, seen through a filter that keeps just those two. */
  lemma {:induction false} KeepTwo(ts: seq<Template>, i: nat, j: nat)
    requires NoDuplicates(ts) && i < j < |ts|
    ensures Keep(ts, {ts[i], ts[j]}) == [ts[i], ts[j]]
  {
    var n := |ts| - 1;
    assert ts[..n][i] == ts[i];
    if j < n {
      KeepTwo(ts[..n], i, j);
      assert ts[..n][j] == ts[j];
    } else {
      KeepOne(ts[..n], i, {ts[i], ts[j]});
    }
  }

  lemma KeepEither(ts: seq<Template>, i: nat, j: nat)
    requires NoDuplicates(ts) && i < |ts| && j < |ts| && i != j
    ensures Keep(ts, {ts[i], ts[j]}) == if i < j then [ts[i], ts[j]] else [ts[j], ts[i]]
  {
    if i < j {
      KeepTwo(ts, i, j);
    } else {
      KeepTwo(ts, j, i);
      assert {ts[i], ts[j]} == {ts[j], ts[i]};
    }
  }

  lemma {:induction false} KeepOne(ts: seq<Template>, i: nat, s: set<Template>)
    requires NoDuplicates(ts) && i < |ts| && ts[i] in s
    requires forall k :: 0 <= k < |ts| && k != i ==> ts[k] !in s
    ensures Keep(ts, s) == [ts[i]]
  {
    var n := |ts| - 1;
    if i < n {
      KeepOne(ts[..n], i, s);
    } else {
      KeepNothing(ts[..n], s);
    }
  }

  lemma {:induction false} KeepNothing(ts: seq<Template>, s: set<Template>)
    requires forall k :: 0 <= k < |ts| ==> ts[k] !in s
    ensures Keep(ts, s) == []
  {
    if ts != [] {
      KeepNothing(ts[..|ts| - 1], s);
    }
  }

  /** At the last slot where the two differ, the first has a literal and the second the variable. */
  ghost predicate FoundLater(t: Template, u: Template) {
    |t| == |u| && exists i :: 0 <= i < |t| && LaterAt(t, u, i)
  }

  predicate LaterAt(t: Template, u: Template, i: nat)
    requires i < |t| == |u|
  {
    t[i] != Variable && u[i] == Variable && t[i + 1..] == u[i + 1..]
  }

  /** The search finds one candidate before another exactly when the templates say so. */
  lemma CandidateOrder(table: Table, cs: seq<string>, i: nat, j: nat)
    requires i < |CandidateTemplates(table, cs)| && j < |CandidateTemplates(table, cs)|
    ensures FoundLater(CandidateTemplates(table, cs)[i], CandidateTemplates(table, cs)[j]) <==> i < j
  {
    var ts := CandidateTemplates(table, cs);
    CandidatesAreMatches(table, cs);
    var t, u := ts[i], ts[j];
    assert t in ts && u in ts;
    if FoundLater(t, u) {
      LaterIsAfter(table, cs, i, j);
    }
    if i < j {
      assert t != u;
      LastDifference(t, u, cs);
      if FoundLater(u, t) {
        LaterIsAfter(table, cs, j, i);
        assert false;
      }
    }
  }

  lemma LaterIsAfter(table: Table, cs: seq<string>, i: nat, j: nat)
    requires i < |CandidateTemplates(table, cs)| && j < |CandidateTemplates(table, cs)|
    requires FoundLater(CandidateTemplates(table, cs)[i], CandidateTemplates(table, cs)[j])
    ensures i < j
  {
    var ts := CandidateTemplates(table, cs);
    CandidatesAreMatches(table, cs);
    var t, u := ts[i], ts[j];
    assert t in ts && u in ts;
    var k :| 0 <= k < |t| && LaterAt(t, u, k);
    SearchOrder(cs, t, u, k);
    KeepKeep(Choices(cs), table.Keys, {t, u});
    KeepEither(ts, i, j);
    assert [t, u][0] != [u, t][0];
  }

  /** Different templates that match the same path are told apart at some last slot. */
  lemma {:induction false} LastDifference(t: Template, u: Template, cs: seq<string>)
    requires Matches(t, cs) && Matches(u, cs) && t != u
    ensures FoundLater(t, u) || FoundLater(u, t)
  {
    var n := |t| - 1;
    assert Fits(t[n], cs[n]) && Fits(u[n], cs[n]);
    if t[n] != u[n] {
      assert t[n + 1..] == [] == u[n + 1..];
      assert LaterAt(t, u, n) || LaterAt(u, t, n);
    } else {
      assert t == t[..n] + [t[n]] && u == u[..n] + [u[n]];
      MatchesByLast(t, cs);
      MatchesByLast(u, cs);
      LastDifference(t[..n], u[..n], cs[..n]);
      if FoundLater(t[..n], u[..n]) {
        LaterByLast(t, u);
      } else {
        LaterByLast(u, t);
      }
    }
  }

  lemma LaterByLast(t: Template, u: Template)
    requires |t| == |u| && t != [] && t[|t| - 1] == u[|u| - 1]
    requires FoundLater(t[..|t| - 1], u[..|u| - 1])
    ensures FoundLater(t, u)
  {
    var n := |t| - 1;
    var i :| 0 <= i < n && LaterAt(t[..n], u[..n], i);
    assert t[i + 1..] == t[..n][i + 1..] + [t[n]];
    assert u[i + 1..] == u[..n][i + 1..] + [u[n]];
    assert LaterAt(t, u, i);
  }

  /** A registered template that matches, is found after t, and is put before it by the comparator. */
  ghost predicate Overtakes(table: Table, cs: seq<string>, t: Template, u: Template) {
    && u in table && Matches(u, cs) && |t| == |cs|
    && FoundLater(t, u) && Written(KeyAt(u, cs), KeyAt(t, cs))
  }

  /** The candidate the documentation chooses: of equal keys, the one the search finds first. */
  lemma BestTemplate(table: Table, cs: seq<string>) returns (b: nat, t: Template)
    requires cs != [] && exists u :: u in table && Matches(u, cs)
    ensures b < |Candidates(table, cs)| && Best(Keys(table, cs), b) && b == BestIndex(Keys(table, cs))
    ensures CandidateTemplates(table, cs)[b] == t && DocumentedWinner(table, cs, t)
    ensures forall u | u in table && Matches(u, cs) && KeyAt(u, cs) == KeyAt(t, cs) && u != t :: FoundLater(t, u)
  {
    var u :| u in table && Matches(u, cs);
    var i := PositionOf(table, cs, u);
    b := BestIndex(Keys(table, cs));
    BestIndexIsBest(Keys(table, cs));
    BestIsDocumentedWinner(table, cs);
    t := CandidateTemplates(table, cs)[b];
    EqualKeysComeLater(table, cs, b);
  }

  /**
    The exact condition, on the templates themselves. There is one documented winner (with equal
    keys, the one the search finds first). Whatever way the set is built `match` returns it, iff no
    other registered match that keeps its slots after some literal, and has the variable there, has
    longer or lexicographically greater literals.
   */
  lemma MatchIsDocumentedIffNotOvertaken(log: Log, cs: seq<string>) returns (t: Template)
    requires cs != [] && exists u :: u in TableOf(log) && Matches(u, cs)
    ensures DocumentedWinner(TableOf(log), cs, t)
    ensures forall u | u in TableOf(log) && Matches(u, cs) && KeyAt(u, cs) == KeyAt(t, cs) && u != t :: FoundLater(t, u)
    ensures (forall result | MayReturn(TableOf(log), cs, result) :: result == Some(MatchAt(TableOf(log), cs, t)))
       <==> !exists u :: Overtakes(TableOf(log), cs, t, u)
  {
    var b;
    b, t := BestTemplate(TableOf(log), cs);
    WinnerIsAlwaysInFrontIff(Keys(TableOf(log), cs));
    AlwaysReturnedIff(log, cs, b);
    CandidateAt(TableOf(log), cs, b);
    OvertakenIff(TableOf(log), cs, b);
  }

  /** The result is the same in every run iff the front is: different candidates give different results. */
  lemma AlwaysReturnedIff(log: Log, cs: seq<string>, b: nat)
    requires b < |Candidates(TableOf(log), cs)|
    ensures (forall result | MayReturn(TableOf(log), cs, result) ::
               result == Some(MatchOf(Candidates(TableOf(log), cs)[b])))
       <==> (forall w: nat | MayFront(Keys(TableOf(log), cs), w) :: w == b)
  {
    hide Candidates, MayFront, MatchOf, TableOf;
    var found, keys := Candidates(TableOf(log), cs), Keys(TableOf(log), cs);
    if forall result | MayReturn(TableOf(log), cs, result) :: result == Some(MatchOf(found[b])) {
      forall w: nat | MayFront(keys, w)
        ensures w == b
      {
        FrontMayBePicked(found, w);
        assert MayReturn(TableOf(log), cs, Some(MatchOf(found[w])));
        SameMatchIsSameCandidate(log, cs, w, b);
      }
    }
    if forall w: nat | MayFront(keys, w) :: w == b {
      forall result | MayReturn(TableOf(log), cs, result)
        ensures result == Some(MatchOf(found[b]))
      {
        var w := PickedFront(found, result);
      }
    }
  }

  lemma SameMatchIsSameCandidate(log: Log, cs: seq<string>, i: nat, j: nat)
    requires i < |Candidates(TableOf(log), cs)| && j < |Candidates(TableOf(log), cs)|
    requires MatchOf(Candidates(TableOf(log), cs)[i]) == MatchOf(Candidates(TableOf(log), cs)[j])
    ensures i == j
  {
    var table := TableOf(log);
    var ts := CandidateTemplates(table, cs);
    CandidateAt(table, cs, i);
    CandidateAt(table, cs, j);
    TableEntries(log, ts[i]);
    TableEntries(log, ts[j]);
    assert ts[i] == KeyOf(table[ts[i]]) == KeyOf(table[ts[j]]) == ts[j];
    CandidatesAreMatches(table, cs);
  }

  lemma EqualKeysComeLater(table: Table, cs: seq<string>, b: nat)
    requires cs != [] && Best(Keys(table, cs), b) && b < |CandidateTemplates(table, cs)|
    ensures var t := CandidateTemplates(table, cs)[b];
            |t| == |cs|
            && forall u | u in table && Matches(u, cs) && KeyAt(u, cs) == KeyAt(t, cs) && u != t :: FoundLater(t, u)
  {
    CandidateAt(table, cs, b);
    var t := CandidateTemplates(table, cs)[b];
    forall u | u in table && Matches(u, cs) && KeyAt(u, cs) == KeyAt(t, cs) && u != t
      ensures FoundLater(t, u)
    {
      var i := PositionOf(table, cs, u);
      CandidateAt(table, cs, i);
      CandidateOrder(table, cs, b, i);
    }
  }

  lemma OvertakenIff(table: Table, cs: seq<string>, b: nat)
    requires b < |Keys(table, cs)| && cs != []
    ensures b < |CandidateTemplates(table, cs)|
    ensures Overtaken(Keys(table, cs), b)
       <==> exists u :: Overtakes(table, cs, CandidateTemplates(table, cs)[b], u)
  {
    var keys, ts := Keys(table, cs), CandidateTemplates(table, cs);
    CandidateAt(table, cs, b);
    if Overtaken(keys, b) {
      var i :| b < i < |keys| && Written(keys[i], keys[b]);
      CandidateAt(table, cs, i);
      CandidateOrder(table, cs, b, i);
      assert Overtakes(table, cs, ts[b], ts[i]);
    }
    if u :| Overtakes(table, cs, ts[b], u) {
      var i := PositionOf(table, cs, u);
      CandidateAt(table, cs, i);
      CandidateOrder(table, cs, b, i);
      assert Written(keys[i], keys[b]);
    }
  }

  // ---------- which matches can be returned ----------

  /** One of the candidates that can be in front, by their keys alone. */
  predicate Leads(table: Table, cs: seq<string>, t: Template) {
    var ts, keys := CandidateTemplates(table, cs), Keys(table, cs);
    exists i :: 0 <= i < |ts| && ts[i] == t && MayLead(keys, |keys|, i)
  }

  lemma LeadsAt(table: Table, cs: seq<string>, i: nat)
    requires i < |Candidates(table, cs)|
    ensures |CandidateTemplates(table, cs)| == |Candidates(table, cs)|
    ensures Leads(table, cs, CandidateTemplates(table, cs)[i]) <==> MayLead(Keys(table, cs), |Keys(table, cs)|, i)
  {
    hide MayLead;
    CandidatesAreMatches(table, cs);
  }

  /** Exactly which registered templates `match` may return, decided from the registrations and the path. */
  lemma MayReturnIff(log: Log, cs: seq<string>, t: Template)
    requires cs != [] && t in TableOf(log) && Matches(t, cs)
    ensures MayReturn(TableOf(log), cs, Some(MatchAt(TableOf(log), cs, t))) <==> Leads(TableOf(log), cs, t)
  {
    hide MayFront, MayLead, Candidates, CandidateTemplates, TableOf, Leads;
    var table := TableOf(log);
    var found := Candidates(table, cs);
    var i := PositionOf(table, cs, t);
    var result := Some(MatchAt(table, cs, t));
    CandidateAt(table, cs, i);
    LeadsAt(table, cs, i);
    FrontIff(Keys(table, cs), i);
    if MayReturn(table, cs, result) {
      var w := PickedFront(found, result);
      SameMatchIsSameCandidate(log, cs, w, i);
    }
    if MayFront(Keys(table, cs), i) {
      FrontMayBePicked(found, i);
    }
  }

  /** A registered match found after t that the comparator puts before every match found before it. */
  ghost predicate Displaces(table: Table, cs: seq<string>, t: Template, u: Template) {
    && u in table && Matches(u, cs) && FoundLater(t, u)
    && forall v | v in table && Matches(v, cs) && FoundLater(v, u) :: Written(KeyAt(u, cs), KeyAt(v, cs))
  }

  lemma ForcedIff(table: Table, cs: seq<string>, i: nat)
    requires i < |Candidates(table, cs)|
    ensures |CandidateTemplates(table, cs)| == |Candidates(table, cs)| == |Keys(table, cs)|
    ensures var u := CandidateTemplates(table, cs)[i];
            && |u| == |cs|
            && (Forced(Keys(table, cs), i) <==>
                forall v | v in table && Matches(v, cs) && FoundLater(v, u) :: Written(KeyAt(u, cs), KeyAt(v, cs)))
  {
    hide Written, FoundLater, Candidates, CandidateTemplates, Keys;
    CandidateAt(table, cs, i);
    var ts, keys := CandidateTemplates(table, cs), Keys(table, cs);
    if Forced(keys, i) {
      forall v | v in table && Matches(v, cs) && FoundLater(v, ts[i])
        ensures Written(KeyAt(ts[i], cs), KeyAt(v, cs))
      {
        var j := PositionOf(table, cs, v);
        CandidateAt(table, cs, j);
        CandidateOrder(table, cs, j, i);
        assert Written(keys[i], keys[j]);
      }
    }
    if forall v | v in table && Matches(v, cs) && FoundLater(v, ts[i]) :: Written(KeyAt(ts[i], cs), KeyAt(v, cs)) {
      forall j | 0 <= j < i
        ensures Written(keys[i], keys[j])
      {
        CandidateAt(table, cs, j);
        CandidateOrder(table, cs, j, i);
      }
    }
  }

  lemma DisplacedIff(table: Table, cs: seq<string>, b: nat)
    requires b < |Candidates(table, cs)| && cs != []
    ensures |CandidateTemplates(table, cs)| == |Candidates(table, cs)| == |Keys(table, cs)|
    ensures (exists i :: b < i < |Keys(table, cs)| && Forced(Keys(table, cs), i))
       <==> exists u :: Displaces(table, cs, CandidateTemplates(table, cs)[b], u)
  {
    hide Written, FoundLater, Forced, Candidates, CandidateTemplates, Keys;
    CandidateAt(table, cs, b);
    var ts, keys := CandidateTemplates(table, cs), Keys(table, cs);
    if i: nat :| b < i < |keys| && Forced(keys, i) {
      CandidateAt(table, cs, i);
      CandidateOrder(table, cs, b, i);
      ForcedIff(table, cs, i);
      assert Displaces(table, cs, ts[b], ts[i]);
    }
    if u :| Displaces(table, cs, ts[b], u) {
      var i := PositionOf(table, cs, u);
      CandidateOrder(table, cs, b, i);
      ForcedIff(table, cs, i);
    }
  }

  /**
    Exactly when the documented winner is within reach: some way of building the set returns it, iff
    no other registered match displaces it. Otherwise it is lost in every run.
   */
  lemma WinnerMayBeReturnedIff(log: Log, cs: seq<string>) returns (t: Template)
    requires cs != [] && exists u :: u in TableOf(log) && Matches(u, cs)
    ensures DocumentedWinner(TableOf(log), cs, t)
    ensures forall u | u in TableOf(log) && Matches(u, cs) && KeyAt(u, cs) == KeyAt(t, cs) && u != t :: FoundLater(t, u)
    ensures MayReturn(TableOf(log), cs, Some(MatchAt(TableOf(log), cs, t)))
       <==> !exists u :: Displaces(TableOf(log), cs, t, u)
  {
    hide MayReturn, MayFront, MayLead, Candidates, CandidateTemplates, Displaces, Forced, Leads;
    var b;
    b, t := BestTemplate(TableOf(log), cs);
    MayReturnIff(log, cs, t);
    LeadsAt(TableOf(log), cs, b);
    FrontIff(Keys(TableOf(log), cs), b);
    WinnerMayBeInFrontIff(Keys(TableOf(log), cs));
    DisplacedIff(TableOf(log), cs, b);
  }
}
