/** The heap tree behind the matcher, and the ghost map that says which node stands for what. */
module TrieNodes {
  import opened Wrappers
  import opened Templates
  import opened Registry
  import opened Search

  class Node {
    var resource: Option<Resource>
    var methods: Methods
    var children: map<string, Node>
    var varChild: Node?
    ghost var alive: bool

    constructor ()
      ensures resource == None && methods == NO_METHODS && children == map[] && varChild == null && alive
    {
      resource, methods := None, NO_METHODS;
      children, varChild := map[], null;
      alive := true;
    }

    /** The destructor, with its check that the literal children have been forgotten. */
    method Delete()
      requires alive && children == map[]
      modifies this`alive
      ensures !alive
    {
      alive := false;
    }
  }

  /** Which node stands for which template. */
  type NodeMap = map<Template, Node>

  /** The outgoing links of a node. */
  datatype Links = Links(children: map<string, Node>, varChild: Node?) {
    predicate Has(slot: Slot) {
      match slot
      case Literal(c) => c in children
      case Variable => varChild != null
    }

    function To(slot: Slot): Node
      requires Has(slot)
    {
      match slot
      case Literal(c) => children[c]
      case Variable => varChild
    }

    function With(slot: Slot, next: Node): (r: Links)
      ensures r.Has(slot) && r.To(slot) == next
      ensures forall other | other != slot ::
                (r.Has(other) <==> Has(other)) && (Has(other) ==> r.To(other) == To(other))
    {
      match slot
      case Literal(c) => this.(children := children[c := next])
      case Variable => this.(varChild := next)
    }
  }

  const NO_LINKS: Links := Links(map[], null)

  type LinkMap = map<Template, Links>

  ghost function LinksOf(nodes: NodeMap): LinkMap
    reads nodes.Values
  {
    map t | t in nodes :: Links(nodes[t].children, nodes[t].varChild)
  }

  /** Every node but the head hangs below the node of its template without the last slot. */
  ghost predicate Parented(nodes: NodeMap, links: LinkMap) {
    forall t | t in nodes && t != [] :: Hangs(nodes, links, t)
  }

  ghost predicate Hangs(nodes: NodeMap, links: LinkMap, t: Template)
    requires t in nodes && t != []
  {
    var p, last := t[..|t| - 1], t[|t| - 1];
    p in nodes && p in links && links[p].Has(last) && links[p].To(last) == nodes[t]
  }

  /** There are no other links. */
  ghost predicate Linked(nodes: NodeMap, links: LinkMap) {
    forall t, slot | t in nodes && t in links && links[t].Has(slot) :: t + [slot] in nodes
  }

  /** No node stands for two templates. */
  ghost predicate Unshared(nodes: NodeMap) {
    forall s, t | s in nodes && t in nodes && nodes[s] == nodes[t] :: s == t
  }

  /** The nodes form a tree without sharing, one node for each of a set of normal templates. */
  ghost predicate Tree(nodes: NodeMap, links: LinkMap) {
    && [] in nodes && links.Keys == nodes.Keys
    && Unshared(nodes) && Parented(nodes, links) && Linked(nodes, links)
    && forall t | t in nodes :: Normal(t)
  }

  ghost predicate Shape(nodes: NodeMap)
    reads nodes.Values
  {
    Tree(nodes, LinksOf(nodes))
  }

  /** The registered nodes hold their entries, the others no resource. */
  ghost predicate Holds(nodes: NodeMap, table: Table)
    reads nodes.Values
  {
    forall t | t in nodes ::
      if t in table then nodes[t].resource == Some(table[t].resource) && nodes[t].methods == table[t].methods
      else nodes[t].resource == None
  }

  lemma ShapeIsPrefixClosed(nodes: NodeMap)
    requires Shape(nodes)
    ensures PrefixClosed(nodes.Keys)
  {
  }

  /** Following links from a node is extending its template. */
  lemma ChildAt(nodes: NodeMap, t: Template, slot: Slot)
    requires Shape(nodes) && t in nodes
    ensures var l := Links(nodes[t].children, nodes[t].varChild);
            && (l.Has(slot) <==> t + [slot] in nodes)
            && (l.Has(slot) ==> l.To(slot) == nodes[t + [slot]])
  {
    assert LinksOf(nodes)[t] == Links(nodes[t].children, nodes[t].varChild);
    assert (t + [slot])[..|t|] == t;
  }

  lemma OnlyNodeAt(nodes: NodeMap, t: Template)
    requires Shape(nodes) && t in nodes
    ensures Tree(nodes, LinksOf(nodes))
    ensures forall s | s in nodes && s != t :: nodes[s] != nodes[t]
  {
  }

  lemma HangsAfterLink(nodes: NodeMap, links: LinkMap, t: Template, slot: Slot, next: Node, v: Template)
    requires t in links && t in nodes && t + [slot] !in nodes && v in nodes && v != []
    requires Hangs(nodes, links, v)
    ensures Hangs(nodes[t + [slot] := next], links[t := links[t].With(slot, next)][t + [slot] := NO_LINKS], v)
  {
    assert v == v[..|v| - 1] + [v[|v| - 1]];
  }

  lemma ParentedAfterLink(nodes: NodeMap, links: LinkMap, t: Template, slot: Slot, next: Node)
    requires Tree(nodes, links) && t in nodes && t + [slot] !in nodes
    ensures Parented(nodes[t + [slot] := next], links[t := links[t].With(slot, next)][t + [slot] := NO_LINKS])
  {
    var u := t + [slot];
    assert u[..|u| - 1] == t && u[|u| - 1] == slot;
    forall v | v in nodes && v != []
      ensures Hangs(nodes[u := next], links[t := links[t].With(slot, next)][u := NO_LINKS], v)
    {
      HangsAfterLink(nodes, links, t, slot, next, v);
    }
  }

  lemma LinkedAfterLink(nodes: NodeMap, links: LinkMap, t: Template, slot: Slot, next: Node)
    requires Tree(nodes, links) && t in nodes && t + [slot] !in nodes
    ensures Linked(nodes[t + [slot] := next], links[t := links[t].With(slot, next)][t + [slot] := NO_LINKS])
  {
    var u := t + [slot];
    var links' := links[t := links[t].With(slot, next)][u := NO_LINKS];
    forall v, sl | v in nodes[u := next] && v in links' && links'[v].Has(sl)
      ensures v + [sl] in nodes[u := next]
    {
      assert v != u;
      if v != t || sl != slot {
        assert links[v].Has(sl);
      }
    }
  }

  /** Linking a new node below a tree node that has no child in that slot keeps the tree. */
  lemma TreeAfterLink(nodes: NodeMap, links: LinkMap, t: Template, slot: Slot, next: Node)
    requires Tree(nodes, links) && t in nodes && t + [slot] !in nodes
    requires next !in nodes.Values && Normal([slot])
    ensures Tree(nodes[t + [slot] := next], links[t := links[t].With(slot, next)][t + [slot] := NO_LINKS])
  {
    ParentedAfterLink(nodes, links, t, slot, next);
    LinkedAfterLink(nodes, links, t, slot, next);
    assert [slot][0] == slot;
  }

  function Prefixes(t: Template, k: nat): set<Template>
    requires k <= |t|
  {
    set i | 0 <= i <= k :: t[..i]
  }

  /** The nodes while a template is being inserted: k of its slots walked, missing ones created. */
  ghost predicate Grown(before: NodeMap, after: NodeMap, target: Template, k: nat)
    requires k <= |target|
  {
    && after.Keys == before.Keys + Prefixes(target, k)
    && (forall t | t in before :: t in after && after[t] == before[t])
    && (target[..k] in before ==> after == before)
  }

  lemma GrownStep(before: NodeMap, after: NodeMap, target: Template, k: nat, after': NodeMap)
    requires k < |target| && Grown(before, after, target, k) && PrefixClosed(before.Keys)
    requires var u := target[..k + 1];
             if u in after then after' == after else u in after' && after' == after[u := after'[u]]
    ensures Grown(before, after', target, k + 1)
  {
    var u := target[..k + 1];
    assert u[..k] == target[..k];
    forall t
      ensures t in Prefixes(target, k + 1) <==> t in Prefixes(target, k) || t == u
    {
      if t in Prefixes(target, k + 1) {
        var i :| 0 <= i <= k + 1 && t == target[..i];
        assert i <= k ==> t in Prefixes(target, k);
      }
    }
    assert u !in Prefixes(target, k);
  }

  lemma GrownFacts(before: NodeMap, after: NodeMap, target: Template, k: nat)
    requires k < |target| && Grown(before, after, target, k) && PrefixClosed(before.Keys)
    ensures before.Keys <= after.Keys
    ensures target[..k + 1] == target[..k] + [target[k]]
    ensures target[..k + 1] in before ==> target[..k + 1] in after
  {
  }

  lemma GrownStarts(nodes: NodeMap, target: Template)
    requires [] in nodes
    ensures Grown(nodes, nodes, target, 0)
  {
    assert target[..0] == [];
  }
}
