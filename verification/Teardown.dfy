/** The explicit-stack post-order walk that frees a trie, on templates alone. */
module Teardown {
  import opened Templates
  import opened Search

  /** A stack entry: a node, and whether its children have been pushed. */
  datatype Frame = Frame(t: Template, visited: bool)

  /** The nodes an entry still accounts for: itself once visited, before that its whole subtree. */
  predicate Covers(f: Frame, d: Template) {
    if f.visited then f.t == d else f.t <= d
  }

  ghost predicate CoveredFrom(stack: seq<Frame>, i: nat, d: Template) {
    exists j :: i <= j < |stack| && Covers(stack[j], d)
  }

  /** The nodes freed so far: none twice, never the head, each after all nodes below it. */
  ghost predicate PostOrder(keys: set<Template>, order: seq<Template>) {
    && NoDuplicates(order)
    && (forall t | t in order :: t in keys && t != [])
    && (forall k, d | 0 <= k < |order| && d in keys && order[k] < d :: d in order[..k])
  }

  /** Every node but the head is freed or accounted for. */
  ghost predicate Accounted(keys: set<Template>, stack: seq<Frame>, order: seq<Template>) {
    forall d | d in keys && d != [] :: d in order || CoveredFrom(stack, 0, d)
  }

  /** No two entries account for one node, and none for a freed one. */
  ghost predicate Exclusive(stack: seq<Frame>, order: seq<Template>) {
    && (forall i, j, d | 0 <= i < j < |stack| && Covers(stack[i], d) :: !Covers(stack[j], d))
    && (forall i, d | 0 <= i < |stack| && Covers(stack[i], d) :: d !in order)
  }

  /** What lies below a visited entry is freed or accounted for further up the stack. */
  ghost predicate Above(keys: set<Template>, stack: seq<Frame>, order: seq<Template>) {
    forall i, d | 0 <= i < |stack| && stack[i].visited && d in keys && stack[i].t < d ::
      d in order || CoveredFrom(stack, i + 1, d)
  }

  /** Visited entries and freed nodes have been seen, what unvisited entries account for has not. */
  ghost predicate SeenSoFar(stack: seq<Frame>, order: seq<Template>, seen: set<Template>) {
    && (forall i, d | 0 <= i < |stack| && !stack[i].visited && Covers(stack[i], d) :: d !in seen)
    && (forall i | 0 <= i < |stack| && stack[i].visited :: stack[i].t in seen)
    && (forall d | d in order :: d in seen)
  }

  /** The state of the walk between two turns of its loop. */
  ghost predicate Walking(keys: set<Template>, stack: seq<Frame>, order: seq<Template>, seen: set<Template>) {
    && PostOrder(keys, order) && Accounted(keys, stack, order) && Exclusive(stack, order)
    && Above(keys, stack, order) && SeenSoFar(stack, order, seen)
    && (forall i | 0 <= i < |stack| :: stack[i].t in keys)
    && (if stack == [] then [] in seen else stack[0].t == [])
  }

  function Fresh(kids: seq<Template>): (r: seq<Frame>)
    ensures |r| == |kids|
  {
    seq(|kids|, i requires 0 <= i < |kids| => Frame(kids[i], false))
  }

  /** The list names the children of a node, each once. */
  ghost predicate ChildrenOf(keys: set<Template>, t: Template, kids: seq<Template>) {
    && NoDuplicates(kids)
    && forall u :: u in kids <==> u in keys && u != [] && u[..|u| - 1] == t
  }

  /** Below a node of a prefix-closed trie, every longer template goes through one child. */
  lemma {:induction false} ThroughChild(keys: set<Template>, t: Template, d: Template)
    requires PrefixClosed(keys) && d in keys && t < d
    ensures d[..|t| + 1] in keys && d[..|t| + 1] != [] && d[..|t| + 1][..|t|] == t
    decreases |d|
  {
    if |d| == |t| + 1 {
      assert d[..|t| + 1] == d;
    } else {
      var p := d[..|d| - 1];
      assert t < p && p[..|t| + 1] == d[..|t| + 1];
      ThroughChild(keys, t, p);
    }
  }

  /** The walk starts with the head alone on the stack. */
  lemma TraversalStarts(keys: set<Template>)
    requires [] in keys
    ensures Walking(keys, [Frame([], false)], [], {})
  {
    var stack := [Frame([], false)];
    forall d | d in keys && d != []
      ensures CoveredFrom(stack, 0, d)
    {
      assert Covers(stack[0], d);
    }
  }

  /** What an unvisited entry accounts for is split between the visited entry and its children. */
  lemma KidsCover(keys: set<Template>, t: Template, kids: seq<Template>, d: Template)
    requires PrefixClosed(keys) && ChildrenOf(keys, t, kids)
    ensures d in keys && t < d ==> CoveredFrom(Fresh(kids), 0, d)
    ensures CoveredFrom(Fresh(kids), 0, d) ==> t < d
  {
    if d in keys && t < d {
      ThroughChild(keys, t, d);
      var u := d[..|t| + 1];
      assert u in kids;
      var j :| 0 <= j < |kids| && kids[j] == u;
      assert Covers(Fresh(kids)[j], d);
    }
    if CoveredFrom(Fresh(kids), 0, d) {
      var j :| 0 <= j < |kids| && Covers(Fresh(kids)[j], d);
      assert kids[j] in kids;
      assert t == d[..|t|];
    }
  }

  lemma KidsExclude(keys: set<Template>, t: Template, kids: seq<Template>, i: nat, j: nat, d: Template)
    requires ChildrenOf(keys, t, kids) && i < j < |kids|
    requires Covers(Fresh(kids)[i], d)
    ensures !Covers(Fresh(kids)[j], d)
  {
    assert kids[i] in kids && kids[j] in kids;
    assert |kids[i]| == |t| + 1 && |kids[j]| == |t| + 1;
    assert kids[i] == d[..|t| + 1] != kids[j];
  }

  lemma CoveredSplit(stack: seq<Frame>, i: nat, more: seq<Frame>, d: Template)
    requires i <= |stack|
    ensures CoveredFrom(stack + more, i, d) <==> CoveredFrom(stack, i, d) || CoveredFrom(more, 0, d)
  {
    var all := stack + more;
    if CoveredFrom(stack, i, d) {
      var j :| i <= j < |stack| && Covers(stack[j], d);
      assert Covers(all[j], d);
    }
    if CoveredFrom(more, 0, d) {
      var j :| 0 <= j < |more| && Covers(more[j], d);
      assert Covers(all[|stack| + j], d);
    }
    if CoveredFrom(all, i, d) {
      var j :| i <= j < |all| && Covers(all[j], d);
      assert j < |stack| ==> Covers(stack[j], d);
      assert j >= |stack| ==> Covers(more[j - |stack|], d);
    }
  }

  /** Visiting the top entry moves what it accounts for to itself and its children. */
  lemma VisitCovers(keys: set<Template>, rest: seq<Frame>, t: Template, kids: seq<Template>, i: nat, d: Template)
    requires PrefixClosed(keys) && ChildrenOf(keys, t, kids) && d in keys && i <= |rest|
    ensures CoveredFrom(rest + [Frame(t, false)], i, d)
       ==> CoveredFrom(rest + [Frame(t, true)] + Fresh(kids), i, d)
    ensures t < d ==> CoveredFrom(rest + [Frame(t, true)] + Fresh(kids), |rest| + 1, d)
  {
    var visited := rest + [Frame(t, true)];
    CoveredSplit(rest, i, [Frame(t, false)], d);
    CoveredSplit(rest, i, [Frame(t, true)], d);
    CoveredSplit(visited, i, Fresh(kids), d);
    CoveredSplit(visited, |rest| + 1, Fresh(kids), d);
    KidsCover(keys, t, kids, d);
    if CoveredFrom([Frame(t, false)], 0, d) {
      var j :| 0 <= j < 1 && Covers([Frame(t, false)][j], d);
      if d == t {
        assert Covers([Frame(t, true)][0], d);
      } else {
        assert t < d;
      }
    }
  }

  lemma VisitKeepsAccounts(keys: set<Template>, rest: seq<Frame>, t: Template, kids: seq<Template>, order: seq<Template>)
    requires PrefixClosed(keys) && ChildrenOf(keys, t, kids)
    requires Accounted(keys, rest + [Frame(t, false)], order) && Above(keys, rest + [Frame(t, false)], order)
    ensures Accounted(keys, rest + [Frame(t, true)] + Fresh(kids), order)
    ensures Above(keys, rest + [Frame(t, true)] + Fresh(kids), order)
  {
    var stack, stack' := rest + [Frame(t, false)], rest + [Frame(t, true)] + Fresh(kids);
    forall d | d in keys && d != []
      ensures d in order || CoveredFrom(stack', 0, d)
    {
      VisitCovers(keys, rest, t, kids, 0, d);
    }
    forall i, d | 0 <= i < |stack'| && stack'[i].visited && d in keys && stack'[i].t < d
      ensures d in order || CoveredFrom(stack', i + 1, d)
    {
      if i < |rest| {
        assert stack[i] == stack'[i];
        VisitCovers(keys, rest, t, kids, i + 1, d);
      } else {
        assert i == |rest|;
        VisitCovers(keys, rest, t, kids, 0, d);
      }
    }
  }

  /** Anything accounted for after the visit was accounted for before it, by the matching entry. */
  lemma VisitAddsNothing(keys: set<Template>, rest: seq<Frame>, t: Template, kids: seq<Template>, i: nat, d: Template)
    requires ChildrenOf(keys, t, kids) && i < |rest| + 1 + |kids|
    ensures var stack' := rest + [Frame(t, true)] + Fresh(kids);
            Covers(stack'[i], d) ==>
              if i < |rest| then Covers(rest[i], d)
              else if i == |rest| then t == d
              else t < d && Covers(Fresh(kids)[i - |rest| - 1], d)
  {
    var stack' := rest + [Frame(t, true)] + Fresh(kids);
    if i > |rest| {
      var kid := kids[i - |rest| - 1];
      assert kid in kids && stack'[i] == Frame(kid, false);
      assert kid[..|t|] == t;
      assert kid <= d ==> d[..|t|] == kid[..|t|];
    }
  }

  lemma VisitKeepsExclusive(keys: set<Template>, rest: seq<Frame>, t: Template, kids: seq<Template>, order: seq<Template>)
    requires ChildrenOf(keys, t, kids) && Exclusive(rest + [Frame(t, false)], order)
    ensures Exclusive(rest + [Frame(t, true)] + Fresh(kids), order)
  {
    var stack, stack' := rest + [Frame(t, false)], rest + [Frame(t, true)] + Fresh(kids);
    forall i, d | 0 <= i < |stack'| && Covers(stack'[i], d)
      ensures d !in order
    {
      VisitAddsNothing(keys, rest, t, kids, i, d);
      assert Covers(stack[if i < |rest| then i else |rest|], d);
    }
    forall i, j, d | 0 <= i < j < |stack'| && Covers(stack'[i], d)
      ensures !Covers(stack'[j], d)
    {
      VisitExcludes(keys, rest, t, kids, order, i, j, d);
    }
  }

  lemma VisitExcludes(keys: set<Template>, rest: seq<Frame>, t: Template, kids: seq<Template>, order: seq<Template>,
                      i: nat, j: nat, d: Template)
    requires ChildrenOf(keys, t, kids) && Exclusive(rest + [Frame(t, false)], order)
    requires i < j < |rest| + 1 + |kids| && Covers((rest + [Frame(t, true)] + Fresh(kids))[i], d)
    ensures !Covers((rest + [Frame(t, true)] + Fresh(kids))[j], d)
  {
    var stack := rest + [Frame(t, false)];
    VisitAddsNothing(keys, rest, t, kids, i, d);
    VisitAddsNothing(keys, rest, t, kids, j, d);
    if i < |rest| {
      var j' := if j < |rest| then j else |rest|;
      assert Covers(stack[i], d) && !Covers(stack[j'], d);
    } else if i > |rest| {
      KidsExclude(keys, t, kids, i - |rest| - 1, j - |rest| - 1, d);
    }
  }

  lemma VisitKeepsSeen(keys: set<Template>, rest: seq<Frame>, t: Template, kids: seq<Template>,
                       order: seq<Template>, seen: set<Template>)
    requires ChildrenOf(keys, t, kids)
    requires Exclusive(rest + [Frame(t, false)], order) && SeenSoFar(rest + [Frame(t, false)], order, seen)
    ensures t !in seen
    ensures SeenSoFar(rest + [Frame(t, true)] + Fresh(kids), order, seen + {t})
  {
    var stack, stack' := rest + [Frame(t, false)], rest + [Frame(t, true)] + Fresh(kids);
    assert Covers(stack[|rest|], t);
    forall i, d | 0 <= i < |stack'| && !stack'[i].visited && Covers(stack'[i], d)
      ensures d !in seen + {t}
    {
      VisitAddsNothing(keys, rest, t, kids, i, d);
      var k := if i < |rest| then i else |rest|;
      assert Covers(stack[k], d) && !stack[k].visited;
      assert d == t ==> k == |rest|;
    }
    forall i | 0 <= i < |stack'| && stack'[i].visited
      ensures stack'[i].t in seen + {t}
    {
      assert i < |rest| ==> stack[i] == stack'[i];
    }
  }

  /** One turn on an unvisited entry: it is marked, and its children are pushed above it. */
  lemma Visit(keys: set<Template>, rest: seq<Frame>, t: Template, kids: seq<Template>,
              order: seq<Template>, seen: set<Template>)
    requires PrefixClosed(keys) && ChildrenOf(keys, t, kids)
    requires Walking(keys, rest + [Frame(t, false)], order, seen)
    ensures t in keys && t !in seen
    ensures Walking(keys, rest + [Frame(t, true)] + Fresh(kids), order, seen + {t})
  {
    var stack, stack' := rest + [Frame(t, false)], rest + [Frame(t, true)] + Fresh(kids);
    VisitKeepsAccounts(keys, rest, t, kids, order);
    VisitKeepsExclusive(keys, rest, t, kids, order);
    VisitKeepsSeen(keys, rest, t, kids, order, seen);
    assert stack[|rest|] == Frame(t, false);
    forall i | 0 <= i < |stack'|
      ensures stack'[i].t in keys
    {
      if i < |rest| {
        assert stack[i] == stack'[i];
      } else if i > |rest| {
        assert kids[i - |rest| - 1] in kids;
      }
    }
    assert stack'[0].t == stack[0].t;
  }

  lemma AboveAt(keys: set<Template>, stack: seq<Frame>, order: seq<Template>, i: nat, d: Template)
    requires Above(keys, stack, order) && i < |stack| && stack[i].visited && d in keys && stack[i].t < d
    ensures d in order || CoveredFrom(stack, i + 1, d)
  {
  }

  lemma PopFacts(keys: set<Template>, rest: seq<Frame>, t: Template, order: seq<Template>, seen: set<Template>)
    requires Walking(keys, rest + [Frame(t, true)], order, seen)
    ensures t in keys && t in seen && t !in order
    ensures t == [] <==> rest == []
    ensures forall d | d in keys && t < d :: d in order
  {
    var stack, n := rest + [Frame(t, true)], |rest|;
    assert stack[n] == Frame(t, true) && Covers(stack[n], t);
    assert stack[0].t == [] && Covers(stack[0], []);
    forall d | d in keys && t < d
      ensures d in order
    {
      AboveAt(keys, stack, order, n, d);
    }
  }

  lemma PopKeepsAccounts(keys: set<Template>, rest: seq<Frame>, t: Template, order: seq<Template>, order': seq<Template>)
    requires Accounted(keys, rest + [Frame(t, true)], order) && Above(keys, rest + [Frame(t, true)], order)
    requires forall d :: d in order' <==> d in order || (d == t && t != [])
    ensures Accounted(keys, rest, order') && Above(keys, rest, order')
  {
    var stack := rest + [Frame(t, true)];
    forall d | d in keys && d != []
      ensures d in order' || CoveredFrom(rest, 0, d)
    {
      PopCovers(rest, t, 0, d);
    }
    forall i, d | 0 <= i < |rest| && rest[i].visited && d in keys && rest[i].t < d
      ensures d in order' || CoveredFrom(rest, i + 1, d)
    {
      assert stack[i] == rest[i];
      PopCovers(rest, t, i + 1, d);
    }
  }

  lemma PopKeepsExclusive(rest: seq<Frame>, t: Template, order: seq<Template>, order': seq<Template>, seen: set<Template>)
    requires Exclusive(rest + [Frame(t, true)], order) && SeenSoFar(rest + [Frame(t, true)], order, seen)
    requires forall d :: d in order' <==> d in order || (d == t && t != [])
    ensures Exclusive(rest, order') && SeenSoFar(rest, order', seen)
  {
    var stack, n := rest + [Frame(t, true)], |rest|;
    assert stack[n] == Frame(t, true) && Covers(stack[n], t);
    assert forall i | 0 <= i < n :: stack[i] == rest[i];
    forall i, d | 0 <= i < n && Covers(rest[i], d)
      ensures d !in order'
    {
      assert Covers(stack[i], d) && !Covers(stack[n], d);
    }
  }

  /** One turn on a visited entry: it is popped, and its node freed unless it is the head. */
  lemma Pop(keys: set<Template>, rest: seq<Frame>, t: Template, order: seq<Template>, seen: set<Template>)
    requires Walking(keys, rest + [Frame(t, true)], order, seen)
    ensures t in keys && t in seen && t !in order
    ensures t == [] <==> rest == []
    ensures Walking(keys, rest, if t == [] then order else order + [t], seen)
  {
    hide Accounted, Above, Exclusive, SeenSoFar, PostOrder;
    var stack := rest + [Frame(t, true)];
    var order' := if t == [] then order else order + [t];
    PopFacts(keys, rest, t, order, seen);
    PopKeepsAccounts(keys, rest, t, order, order');
    PopKeepsExclusive(rest, t, order, order', seen);
    PopKeepsOrder(keys, t, order);
    assert forall i | 0 <= i < |rest| :: stack[i] == rest[i];
  }

  lemma PopCovers(rest: seq<Frame>, t: Template, i: nat, d: Template)
    requires i <= |rest|
    ensures CoveredFrom(rest + [Frame(t, true)], i, d) ==> d == t || CoveredFrom(rest, i, d)
  {
    CoveredSplit(rest, i, [Frame(t, true)], d);
  }

  lemma PopKeepsOrder(keys: set<Template>, t: Template, order: seq<Template>)
    requires PostOrder(keys, order) && t in keys && t !in order
    requires forall d | d in keys && t < d :: d in order
    ensures t != [] ==> PostOrder(keys, order + [t])
  {
    var order' := order + [t];
    if t != [] {
      forall k, d | 0 <= k < |order'| && d in keys && order'[k] < d
        ensures d in order'[..k]
      {
        assert k < |order| ==> order'[..k] == order[..k];
        assert k == |order| ==> order'[..k] == order;
      }
    }
  }

  /** When the stack is empty, every node but the head has been freed. */
  lemma WalkEnds(keys: set<Template>, order: seq<Template>, seen: set<Template>)
    requires Walking(keys, [], order, seen)
    ensures PostOrder(keys, order)
    ensures forall t :: t in order <==> t in keys && t != []
    ensures [] in keys ==> keys <= seen
  {
    forall t | t in keys
      ensures [] in keys ==> t in seen
    {
      assert t != [] ==> t in order;
    }
  }
}
