/** The resource matcher: registration into the trie, the search over it, and its release. */
module ResourceMatching {
  import opened Wrappers
  import opened Text
  import opened Templates
  import opened Registry
  import opened Search
  import opened CandidateSet
  import opened Matching
  import opened TrieNodes
  import opened SearchStates
  import opened Teardown
  import opened Clearing
  import Cursor

  class ResourceMatcher {
    const head: Node
    var resources: seq<Resource>
    ghost var nodes: NodeMap
    ghost var log: Log

    /**
      The node tree is the trie of the registered templates, its nodes hold exactly the registered
      entries, and `resources` lists them in registration order.
     */
    ghost predicate Valid()
      reads this, nodes.Values
    {
      && Shape(nodes) && nodes[[]] == head
      && (forall t | t in nodes :: nodes[t].alive)
      && nodes.Keys == Trie(TableOf(log).Keys)
      && Holds(nodes, TableOf(log))
      && WellFormed(log)
      && resources == ResourcesOf(log)
    }

    constructor ()
      ensures Valid() && fresh(nodes.Values)
      ensures log == []
    {
      head := new Node();
      resources, log := [], [];
      nodes := map[[] := head];
      new;
      forall t
        ensures t in Trie({}) <==> t == []
      {
        InTrie({}, t);
      }
    }

    /** One step of the insertion walk: to the child for a component, created if it is missing. */
    method Descend(cur: Node, ghost at: Template, component: string) returns (next: Node)
      requires Shape(nodes) && at in nodes && nodes[at] == cur
      modifies this`nodes, cur`children, cur`varChild
      ensures Shape(nodes)
      ensures var u := at + [SlotOf(component)];
              && u in nodes && nodes[u] == next
              && (u in old(nodes) ==> nodes == old(nodes) && unchanged(cur))
              && (u !in old(nodes) ==> nodes == old(nodes)[u := next] && fresh(next)
                                       && next.resource == None && next.alive)
    {
      ChildAt(nodes, at, SlotOf(component));
      if IsVariable(component) {
        if cur.varChild == null {
          next := AttachVariable(cur, at);
        } else {
          next := cur.varChild;
        }
      } else if component in cur.children {
        next := cur.children[component];
      } else {
        next := AttachLiteral(cur, at, component);
      }
    }

    method AttachVariable(cur: Node, ghost at: Template) returns (next: Node)
      requires Shape(nodes) && at in nodes && nodes[at] == cur && at + [Variable] !in nodes
      modifies this`nodes, cur`varChild
      ensures Shape(nodes) && nodes == old(nodes)[at + [Variable] := next]
      ensures fresh(next) && next.resource == None && next.alive
    {
      hide Shape, Tree, Normal;
      ghost var links := LinksOf(nodes);
      OnlyNodeAt(nodes, at);
      next := new Node();
      cur.varChild := next;
      assert LinksOf(nodes) == links[at := links[at].With(Variable, next)];
      LinkNode(at, Variable, next, links);
    }

    method AttachLiteral(cur: Node, ghost at: Template, component: string) returns (next: Node)
      requires Shape(nodes) && at in nodes && nodes[at] == cur && at + [Literal(component)] !in nodes
      requires !IsVariable(component)
      modifies this`nodes, cur`children
      ensures Shape(nodes) && nodes == old(nodes)[at + [Literal(component)] := next]
      ensures fresh(next) && next.resource == None && next.alive
    {
      hide Shape, Tree, Normal;
      ghost var links := LinksOf(nodes);
      OnlyNodeAt(nodes, at);
      next := new Node();
      cur.children := cur.children[component := next];
      assert LinksOf(nodes) == links[at := links[at].With(Literal(component), next)];
      LinkNode(at, Literal(component), next, links);
    }

    /** The ghost map follows a new link. */
    ghost method LinkNode(at: Template, slot: Slot, next: Node, links: LinkMap)
      requires Tree(nodes, links) && at in nodes && at + [slot] !in nodes
      requires slot.Literal? ==> !IsVariable(slot.text)
      requires next !in nodes.Values && next.children == map[] && next.varChild == null
      requires LinksOf(nodes) == links[at := links[at].With(slot, next)]
      modifies this`nodes
      ensures nodes == old(nodes)[at + [slot] := next] && Shape(nodes)
    {
      TreeAfterLink(nodes, links, at, slot, next);
      nodes := nodes[at + [slot] := next];
      assert LinksOf(nodes) == links[at := links[at].With(slot, next)][at + [slot] := NO_LINKS];
    }

    /** The matcher in the middle of an insertion, k slots of the template walked. */
    ghost predicate Walked(cur: Node, table: Table, before: NodeMap, target: Template, k: nat)
      requires k <= |target|
      reads this, nodes.Values
    {
      && PrefixClosed(before.Keys) && table.Keys <= before.Keys
      && Shape(nodes) && Holds(nodes, table) && Grown(before, nodes, target, k)
      && (forall t | t in nodes :: nodes[t].alive)
      && target[..k] in nodes && nodes[target[..k]] == cur
    }

    method WalkOne(cur: Node, component: string, ghost table: Table,
                   ghost before: NodeMap, ghost target: Template, ghost k: nat)
      returns (next: Node)
      requires k < |target| && target[k] == SlotOf(component)
      requires Walked(cur, table, before, target, k)
      modifies this`nodes, cur`children, cur`varChild
      ensures Walked(next, table, before, target, k + 1) && next in nodes.Values
      ensures forall n | n in nodes.Values :: n in old(nodes.Values) || fresh(n)
      ensures target[..k + 1] in before ==> target[..k] in before && unchanged(cur)
    {
      hide Shape, Grown, PrefixClosed, SlotOf;
      GrownFacts(before, nodes, target, k);
      next := Descend(cur, target[..k], component);
      GrownStep(before, old(nodes), target, k, nodes);
    }

    /** One turn of the insertion loop. */
    method WalkTurn(cur: Node, it: Cursor.Iterator, ghost table: Table,
                    ghost before: NodeMap, ghost cs: seq<string>, ghost k: nat)
      returns (next: Node)
      requires it.Valid() && k < |cs| && it.Remaining() == cs[k..]
      requires Walked(cur, table, before, Normalize(cs), k)
      modifies it, this`nodes, cur`children, cur`varChild
      ensures it.Valid() && it.Remaining() == cs[k + 1..]
      ensures Walked(next, table, before, Normalize(cs), k + 1) && next in nodes.Values
      ensures forall n | n in nodes.Values :: n in old(nodes.Values) || fresh(n)
      ensures var u := Normalize(cs)[..k + 1]; u in before ==> Normalize(cs)[..k] in before && unchanged(cur)
    {
      hide Walked, Fields, FindFirstOf;
      var component := it.Next();
      assert component == cs[k] && cs[k..][1..] == cs[k + 1..];
      next := WalkOne(cur, component, table, before, Normalize(cs), k);
    }

    lemma WalkStarts(cs: seq<string>, table: Table)
      requires Shape(nodes) && Holds(nodes, table) && nodes[[]] == head
      requires table.Keys <= nodes.Keys && forall t | t in nodes :: nodes[t].alive
      ensures |Normalize(cs)| == |cs|
      ensures Walked(head, table, nodes, Normalize(cs), 0) && head in nodes.Values
    {
      ShapeIsPrefixClosed(nodes);
      GrownStarts(nodes, Normalize(cs));
      assert Normalize(cs)[..0] == [];
    }

    /** The insertion loop: from the head to the node of a path's template. */
    method Walk(it: Cursor.Iterator, ghost table: Table) returns (cur: Node)
      requires it.Valid() && Shape(nodes) && Holds(nodes, table) && nodes[[]] == head
      requires table.Keys <= nodes.Keys && forall t | t in nodes :: nodes[t].alive
      modifies it, this`nodes, nodes.Values
      ensures var target := Normalize(old(it.Remaining()));
              && Walked(cur, table, old(nodes), target, |target|)
              && (target in old(nodes) ==> forall n | n in old(nodes.Values) :: unchanged(n))
      ensures forall n | n in nodes.Values :: n in old(nodes.Values) || fresh(n)
    {
      hide *;
      ghost var cs, k, before := it.Remaining(), 0, nodes;
      ghost var target := Normalize(cs);
      WalkStarts(cs, table);
      cur := head;
      while !it.AtEnd()
        invariant it.Valid()
        invariant k <= |cs| == |target| && it.Remaining() == cs[k..] && target == Normalize(cs)
        invariant Walked(cur, table, before, target, k)
        invariant cur in nodes.Values
        invariant forall n | n in nodes.Values :: n in old(nodes.Values) || fresh(n)
        invariant target[..k] in before ==> forall n | n in old(nodes.Values) :: unchanged(n)
        decreases |cs| - k
      {
        cur := WalkTurn(cur, it, table, before, cs, k);
        k := k + 1;
      }
      assert target[..k] == target;
    }

    lemma TakenOrFree(cur: Node, before: NodeMap, target: Template)
      requires Walked(cur, TableOf(log), before, target, |target|)
      ensures cur.resource.Some? <==> target in TableOf(log)
      ensures target in TableOf(log) ==> target in before && nodes == before
      ensures target in nodes && nodes[target] == cur
    {
      assert target[..|target|] == target;
    }

    /** What the last step of a registration relies on. */
    ghost predicate Ready(cur: Node, e: Entry, table: Table)
      reads this, nodes.Values
    {
      && Shape(nodes) && Holds(nodes, table) && [] in nodes && nodes[[]] == head
      && (forall t | t in nodes :: nodes[t].alive)
      && KeyOf(e) in nodes && nodes[KeyOf(e)] == cur
      && (forall t | t in nodes && t != KeyOf(e) :: nodes[t] != cur)
      && nodes.Keys == Trie(TableOf(log + [e]).Keys) && TableOf(log + [e]) == table[KeyOf(e) := e]
      && WellFormed(log + [e]) && resources + [e.resource] == ResourcesOf(log + [e])
    }

    lemma WalkedIsReady(cur: Node, e: Entry, before: NodeMap)
      requires Walked(cur, TableOf(log), before, KeyOf(e), |KeyOf(e)|) && KeyOf(e) !in TableOf(log)
      requires before.Keys == Trie(TableOf(log).Keys) && [] in before && before[[]] == head
      requires WellFormed(log) && resources == ResourcesOf(log)
      ensures Ready(cur, e, TableOf(log))
    {
      var table := TableOf(log);
      TakenOrFree(cur, before, KeyOf(e));
      OnlyNodeAt(nodes, KeyOf(e));
      TableOfExtended(log, e);
      TrieOfInsert(table.Keys, KeyOf(e));
      assert TableOf(log + [e]).Keys == table.Keys + {KeyOf(e)};
      WellFormedExtended(log, e);
    }

    method SetEntry(cur: Node, e: Entry, ghost table: Table)
      requires Ready(cur, e, table)
      modifies cur`resource, cur`methods
      ensures Shape(nodes) && Holds(nodes, table[KeyOf(e) := e])
      ensures forall t | t in nodes :: nodes[t].alive
    {
      hide Tree, Trie, TableOf, KeyOf, WellFormed, ResourcesOf;
      ghost var links := LinksOf(nodes);
      cur.resource, cur.methods := Some(e.resource), e.methods;
      assert LinksOf(nodes) == links;
    }

    /** The last step of a registration: the template's node receives its entry. */
    method Bind(cur: Node, e: Entry, ghost table: Table)
      requires Ready(cur, e, table)
      modifies this`resources, this`log, cur`resource, cur`methods
      ensures Valid() && log == old(log) + [e]
    {
      hide Shape, Holds, Trie, TableOf, KeyOf, WellFormed, ResourcesOf;
      SetEntry(cur, e, table);
      resources := resources + [e.resource];
      log := log + [e];
    }

    /** What a registration starts from, and what it must still find afterwards. */
    lemma ReadyToWalk()
      requires Valid()
      ensures Shape(nodes) && Holds(nodes, TableOf(log)) && [] in nodes && nodes[[]] == head
      ensures TableOf(log).Keys <= nodes.Keys && forall t | t in nodes :: nodes[t].alive
      ensures nodes.Keys == Trie(TableOf(log).Keys) && WellFormed(log) && resources == ResourcesOf(log)
    {
      TrieIsPrefixClosed(TableOf(log).Keys);
    }

    /** The walk of one registration, from a valid matcher. */
    method WalkTo(path: string) returns (cur: Node)
      requires Valid()
      modifies this`nodes, nodes.Values
      ensures Walked(cur, TableOf(log), old(nodes), TemplateOf(path), |TemplateOf(path)|)
      ensures TemplateOf(path) in old(nodes) ==> forall n | n in old(nodes.Values) :: unchanged(n)
      ensures cur in nodes.Values && forall n | n in nodes.Values :: n in old(nodes.Values) || fresh(n)
    {
      ReadyToWalk();
      var it := new Cursor.Iterator.Begin(path, {SLASH});
      assert Normalize(it.Remaining()) == TemplateOf(path);
      cur := Walk(it, TableOf(log));
      TakenOrFree(cur, old(nodes), TemplateOf(path));
    }

    /**
      `addResource`: refused with nothing changed when the template is bound, else the template's
      node holds the resource and the methods, and the resource is listed last.
     */
    method AddResource(resource: Resource, methods: Methods) returns (thrown: Option<Exception>)
      requires Valid()
      modifies this, nodes.Values
      ensures Valid()
      ensures match Register(old(log), Entry(resource, methods))
              case Ok(longer) => thrown == None && log == longer
              case Err(e) => && thrown == Some(e) && log == old(log) && nodes == old(nodes)
                             && resources == old(resources)
                             && forall n | n in old(nodes.Values) :: unchanged(n)
      ensures forall n | n in nodes.Values :: n in old(nodes.Values) || fresh(n)
    {
      hide Valid, Shape, Holds, Trie, TableOf, TemplateOf, WellFormed, ResourcesOf, Walked;
      var e := Entry(resource, methods);
      ghost var before := nodes;
      ReadyToWalk();
      var cur := WalkTo(resource.path);
      TakenOrFree(cur, before, KeyOf(e));
      if cur.resource.Some? {
        thrown := Some(COLLISION);
      } else {
        thrown := None;
        WalkedIsReady(cur, e, before);
        Bind(cur, e, TableOf(log));
      }
    }

    /** The search loop of `match`: from the head, through every component. */
    method Explore(path: string) returns (states: seq<SearchState>, ghost at: seq<Template>)
      requires Valid()
      ensures Explored(nodes, states, at, Components(path))
      ensures |states| <= 1 + |VariableNodes(nodes.Keys)|
    {
      var it := new Cursor.Iterator.Begin(path, {SLASH});
      states, at := [SearchState(head, [], None, None, false, "")], [[]];
      ExploreStarts(nodes, states, at);
      states, at := ExploreRest(nodes, states, at, it);
      ShapeIsPrefixClosed(nodes);
      SpawnedIsBounded(nodes.Keys, Components(path));
    }

    /**
      `match`: the matched states are inserted into a `std::set` and the one at `begin()` is
      returned. What the set makes of its comparator is left open.
     */
    method Match(path: string) returns (result: Option<Match>)
      requires Valid()
      ensures MayReturn(TableOf(log), Components(path), result)
    {
      var states, at := Explore(path);
      MethodsAreSet(nodes, states, at, Components(path));
      MatchedAreCandidates(path, states, at);
      var found, candidates := Collect(states);
      FrontMayBeReturned(found, candidates);
      if candidates == [] {
        return None;
      }
      var ret := found[candidates[0]];
      return Some(Matching.Match(ret.resource, ret.methods, ret.variables));
    }

    lemma FrontMayBeReturned(found: seq<Found>, candidates: Pointers)
      requires MayBuild(Measures(found), |found|, candidates)
      ensures candidates == [] <==> found == []
      ensures candidates != [] ==> candidates[0] < |found| && MayPick(found, Some(MatchOf(found[candidates[0]])))
    {
      BuildPoints(Measures(found), |found|, candidates);
      if candidates != [] {
        assert MayFront(Measures(found), candidates[0]);
      }
    }

    lemma MatchedAreCandidates(path: string, states: seq<SearchState>, at: seq<Template>)
      requires Valid()
      requires Explored(nodes, states, at, Components(path))
      ensures Matched(states) == Candidates(TableOf(log), Components(path))
    {
      var table, cs := TableOf(log), Components(path);
      if cs == [] {
        assert |states| == 1 && At(nodes, states[0], at[0], cs);
        assert states[..0] == [];
      } else {
        TrieIsPrefixClosed(table.Keys);
        MatchedAreRegistered(nodes, table, cs, states, at);
        SearchFindsRegistered(table.Keys, cs);
      }
    }

    /**
      `clear`: every node but the head is deleted, each once and after the nodes below it, with its
      literal children forgotten before; no node is touched after its deletion.
     */
    method Clear() returns (freed: seq<Node>, ghost order: seq<Template>)
      requires Valid()
      modifies nodes.Values
      ensures PostOrder(nodes.Keys, order) && |freed| == |order|
      ensures forall k | 0 <= k < |freed| :: order[k] in nodes && freed[k] == nodes[order[k]]
      ensures NoDuplicates(freed) && head !in freed
      ensures forall n | n in nodes.Values && n != head :: n in freed
      ensures forall n | n in nodes.Values :: n.alive == (n == head) && n.children == map[]
    {
      ReadyToWalk();
      freed, order := ClearTree(head, nodes);
      FreedOnce(nodes, freed, order);
    }
  }

  lemma FreedOnce(nodes: NodeMap, freed: seq<Node>, order: seq<Template>)
    requires [] in nodes && Unshared(nodes) && PostOrder(nodes.Keys, order) && |freed| == |order|
    requires forall t :: t in order <==> t in nodes && t != []
    requires forall k | 0 <= k < |freed| :: order[k] in nodes && freed[k] == nodes[order[k]]
    ensures NoDuplicates(freed) && nodes[[]] !in freed
    ensures forall n | n in nodes.Values && n != nodes[[]] :: n in freed
  {
    forall n | n in nodes.Values && n != nodes[[]]
      ensures n in freed
    {
      var t :| t in nodes && nodes[t] == n;
      assert t in order;
      var k :| 0 <= k < |order| && order[k] == t;
      assert freed[k] == n;
    }
  }
}
