/** Freeing the heap tree: `clear`'s loop over an explicit stack of nodes. */
module Clearing {
  import opened Templates
  import opened Search
  import opened TrieNodes
  import opened Teardown

  /** A stack entry as the code has it: a node, and whether its children have been pushed. */
  type StackEntry = (Node, bool)

  /** The stack of nodes and the stack of templates say the same. */
  ghost predicate Standing(nodes: NodeMap, stack: seq<StackEntry>, frames: seq<Frame>) {
    && |stack| == |frames|
    && forall i | 0 <= i < |stack| :: frames[i].t in nodes && stack[i] == (nodes[frames[i].t], frames[i].visited)
  }

  /** The nodes not freed are alive; those seen have forgotten their children, the others have not. */
  ghost predicate Cleared(nodes: NodeMap, links: LinkMap, order: seq<Template>, seen: set<Template>)
    requires nodes.Keys <= links.Keys
    reads nodes.Values
  {
    forall t | t in nodes ::
      && nodes[t].alive == (t !in order)
      && nodes[t].children == (if t in seen then map[] else links[t].children)
      && nodes[t].varChild == links[t].varChild
  }

  /** The state between two turns; `links` are the links of the tree before anything was cleared. */
  ghost predicate InProgress(nodes: NodeMap, links: LinkMap, stack: seq<StackEntry>, frames: seq<Frame>,
                             order: seq<Template>, seen: set<Template>)
    reads nodes.Values
  {
    && Tree(nodes, links) && Walking(nodes.Keys, frames, order, seen)
    && Standing(nodes, stack, frames) && Cleared(nodes, links, order, seen)
  }

  /** The entries pushed for a list of children. */
  ghost function StackEntries(nodes: NodeMap, kids: seq<Template>): seq<StackEntry>
    requires forall t | t in kids :: t in nodes
  {
    seq(|kids|, i requires 0 <= i < |kids| => assert kids[i] in kids; (nodes[kids[i]], false))
  }

  ghost predicate LiteralKids(t: Template, names: set<string>, kids: seq<Template>) {
    && NoDuplicates(kids)
    && forall u: Template :: u in kids <==> |u| == |t| + 1 && u[..|t|] == t && u[|t|].Literal? && u[|t|].text in names
  }

  lemma LiteralKidsStep(t: Template, names: set<string>, kids: seq<Template>, c: string)
    requires LiteralKids(t, names, kids) && c !in names
    ensures LiteralKids(t, names + {c}, kids + [t + [Literal(c)]])
  {
    var kid := t + [Literal(c)];
    assert kid[..|t|] == t && kid !in kids;
    forall u: Template | |u| == |t| + 1 && u[..|t|] == t && u[|t|] == Literal(c)
      ensures u == kid
    {
      assert u == u[..|t|] + [u[|t|]];
    }
  }

  function AllKids(l: Links, t: Template, literals: seq<Template>): seq<Template> {
    if l.varChild == null then literals else literals + [t + [Variable]]
  }

  lemma KidIsChild(nodes: NodeMap, links: LinkMap, t: Template, literals: seq<Template>, slot: Slot)
    requires Tree(nodes, links) && t in nodes && LiteralKids(t, links[t].children.Keys, literals)
    ensures t + [slot] in AllKids(links[t], t, literals) <==> t + [slot] in nodes
  {
    var u := t + [slot];
    assert u[..|t|] == t && u[|t|] == slot;
    assert u in nodes <==> links[t].Has(slot);
    assert (t + [Variable])[|t|] == Variable;
  }

  lemma KidsAreLonger(l: Links, t: Template, literals: seq<Template>)
    requires LiteralKids(t, l.children.Keys, literals)
    ensures NoDuplicates(AllKids(l, t, literals))
    ensures forall u | u in AllKids(l, t, literals) :: |u| == |t| + 1 && u[..|t|] == t
  {
    var v := t + [Variable];
    assert v[..|t|] == t && v[|t|] == Variable;
  }

  /** In the tree, the literal children and the variable child are all the children there are. */
  lemma KidsAreChildren(nodes: NodeMap, links: LinkMap, t: Template, literals: seq<Template>)
    requires Tree(nodes, links) && t in nodes && LiteralKids(t, links[t].children.Keys, literals)
    ensures ChildrenOf(nodes.Keys, t, AllKids(links[t], t, literals))
  {
    hide LiteralKids, AllKids;
    var kids := AllKids(links[t], t, literals);
    KidsAreLonger(links[t], t, literals);
    forall u
      ensures u in kids <==> u in nodes.Keys && u != [] && u[..|u| - 1] == t
    {
      if u != [] && u[..|u| - 1] == t {
        assert u == t + [u[|u| - 1]];
        KidIsChild(nodes, links, t, literals, u[|u| - 1]);
      }
    }
  }

  lemma LinkIsNode(nodes: NodeMap, links: LinkMap, t: Template, slot: Slot)
    requires Tree(nodes, links) && t in nodes && links[t].Has(slot)
    ensures t + [slot] in nodes && nodes[t + [slot]] == links[t].To(slot)
  {
    assert (t + [slot])[..|t|] == t && (t + [slot])[|t|] == slot;
  }

  lemma LiteralKidAt(t: Template, names: set<string>, kids: seq<Template>, u: Template)
    requires LiteralKids(t, names, kids) && u in kids
    ensures |u| == |t| + 1 && u == t + [u[|t|]] && u[|t|].Literal? && u[|t|].text in names
  {
  }

  lemma LiteralKidsAreNodes(nodes: NodeMap, links: LinkMap, t: Template, names: set<string>, kids: seq<Template>)
    requires Tree(nodes, links) && t in nodes && names <= links[t].children.Keys && LiteralKids(t, names, kids)
    ensures forall u: Template | u in kids :: |u| == |t| + 1 && u[|t|].Literal? && u[|t|].text in names
    ensures forall u | u in kids :: u in nodes && nodes[u] == links[t].To(u[|t|])
  {
    hide LiteralKids;
    forall u: Template | u in kids
      ensures |u| == |t| + 1 && u[|t|].Literal? && u[|t|].text in names
    {
      LiteralKidAt(t, names, kids, u);
    }
    forall u | u in kids
      ensures u in nodes && nodes[u] == links[t].To(u[|t|])
    {
      LiteralKidAt(t, names, kids, u);
      LinkIsNode(nodes, links, t, u[|t|]);
    }
  }

  lemma PushStep(nodes: NodeMap, links: LinkMap, t: Template, names: set<string>, kids: seq<Template>, c: string)
    requires Tree(nodes, links) && t in nodes && LiteralKids(t, names, kids)
    requires names <= links[t].children.Keys && c in links[t].children && c !in names
    requires forall u | u in kids :: u in nodes
    ensures var kid := t + [Literal(c)];
            && LiteralKids(t, names + {c}, kids + [kid])
            && kid in nodes && nodes[kid] == links[t].children[c]
            && (forall u | u in kids + [kid] :: u in nodes)
            && StackEntries(nodes, kids + [kid]) == StackEntries(nodes, kids) + [(links[t].children[c], false)]
  {
    hide LiteralKids, StackEntries;
    var kid := t + [Literal(c)];
    assert kid[|t|] == Literal(c) && kid in kids + [kid];
    LiteralKidsStep(t, names, kids, c);
    LiteralKidsAreNodes(nodes, links, t, names + {c}, kids + [kid]);
    StackEntriesStep(nodes, kids, kid);
  }

  lemma NothingPushed(nodes: NodeMap, t: Template)
    ensures LiteralKids(t, {}, []) && StackEntries(nodes, []) == []
  {
  }

  /** The loop over a live node's literal children, in whatever order the map yields them. */
  method PushLiterals(stack: seq<StackEntry>, node: Node, ghost nodes: NodeMap, ghost links: LinkMap, ghost t: Template)
    returns (pushed: seq<StackEntry>, ghost kids: seq<Template>)
    requires node.alive
    requires t in links && Tree(nodes, links) && t in nodes && nodes[t] == node && node.children == links[t].children
    ensures LiteralKids(t, links[t].children.Keys, kids)
    ensures (forall u | u in kids :: u in nodes) && pushed == stack + StackEntries(nodes, kids)
  {
    hide Tree, LiteralKids, StackEntries;
    pushed, kids := stack, [];
    ghost var names: set<string> := {};
    var rest := node.children.Keys;
    NothingPushed(nodes, t);
    while rest != {}
      invariant names + rest == node.children.Keys && names !! rest
      invariant LiteralKids(t, names, kids)
      invariant (forall u | u in kids :: u in nodes) && pushed == stack + StackEntries(nodes, kids)
      decreases rest
    {
      var c :| c in rest;
      PushStep(nodes, links, t, names, kids, c);
      pushed := pushed + [(node.children[c], false)];
      kids := kids + [t + [Literal(c)]];
      names, rest := names + {c}, rest - {c};
    }
  }

  lemma StackEntriesStep(nodes: NodeMap, kids: seq<Template>, kid: Template)
    requires (forall u | u in kids :: u in nodes) && kid in nodes
    ensures forall u | u in kids + [kid] :: u in nodes
    ensures StackEntries(nodes, kids + [kid]) == StackEntries(nodes, kids) + [(nodes[kid], false)]
  {
    assert forall i | 0 <= i < |kids| :: kids[i] in kids;
  }

  /** A live node's children are pushed: the literal ones, then the variable one. */
  method PushChildren(stack: seq<StackEntry>, node: Node, ghost nodes: NodeMap, ghost links: LinkMap, ghost t: Template)
    returns (pushed: seq<StackEntry>, ghost kids: seq<Template>)
    requires node.alive && Tree(nodes, links) && t in nodes && nodes[t] == node
    requires node.children == links[t].children && node.varChild == links[t].varChild
    ensures ChildrenOf(nodes.Keys, t, kids)
    ensures (forall u | u in kids :: u in nodes) && pushed == stack + StackEntries(nodes, kids)
  {
    pushed, kids := PushLiterals(stack, node, nodes, links, t);
    KidsAreChildren(nodes, links, t, kids);
    if node.varChild != null {
      VariableKidIsNode(nodes, links, t);
      StackEntriesStep(nodes, kids, t + [Variable]);
      pushed := pushed + [(node.varChild, false)];
      kids := kids + [t + [Variable]];
    }
  }

  lemma VariableKidIsNode(nodes: NodeMap, links: LinkMap, t: Template)
    requires Tree(nodes, links) && t in nodes && links[t].varChild != null
    ensures t + [Variable] in nodes && nodes[t + [Variable]] == links[t].varChild
  {
    LinkIsNode(nodes, links, t, Variable);
  }

  /** The entry on top, in both stacks, and why its node may be touched. */
  lemma TopEntry(nodes: NodeMap, links: LinkMap, stack: seq<StackEntry>, frames: seq<Frame>,
                 order: seq<Template>, seen: set<Template>)
    requires InProgress(nodes, links, stack, frames, order, seen) && stack != []
    ensures var n := |stack| - 1; var f := frames[n];
            && |frames| == |stack| && f.t in nodes && stack[n] == (nodes[f.t], f.visited)
            && frames == frames[..n] + [f] && Standing(nodes, stack[..n], frames[..n])
            && nodes[f.t].alive && nodes[f.t].varChild == links[f.t].varChild
            && (f.visited ==> nodes[f.t].children == map[])
            && (!f.visited ==> nodes[f.t].children == links[f.t].children)
  {
    hide Tree, PostOrder, Accounted, Above;
    var n := |stack| - 1;
    assert Covers(frames[n], frames[n].t);
  }

  lemma StandingAfterVisit(nodes: NodeMap, stack: seq<StackEntry>, frames: seq<Frame>, t: Template, kids: seq<Template>)
    requires Standing(nodes, stack, frames) && t in nodes && forall u | u in kids :: u in nodes
    ensures Standing(nodes, stack + [(nodes[t], true)] + StackEntries(nodes, kids), frames + [Frame(t, true)] + Fresh(kids))
  {
    var frames' := frames + [Frame(t, true)] + Fresh(kids);
    forall i | 0 <= i < |frames'|
      ensures frames'[i].t in nodes
    {
      assert i > |frames| ==> kids[i - |frames| - 1] in kids;
    }
  }

  /** A live node forgets its literal children: the state of the tree after its entry was visited. */
  method Forget(node: Node, ghost nodes: NodeMap, ghost links: LinkMap, ghost t: Template,
                ghost order: seq<Template>, ghost seen: set<Template>)
    requires Tree(nodes, links) && Cleared(nodes, links, order, seen)
    requires node.alive && t in nodes && nodes[t] == node && t !in seen
    modifies node`children
    ensures Cleared(nodes, links, order, seen + {t})
  {
    node.children := map[];
  }

  /** A turn that finds its entry unvisited: it is marked, its children are pushed and forgotten. */
  method VisitTurn(stack: seq<StackEntry>, ghost nodes: NodeMap, ghost links: LinkMap,
                   ghost frames: seq<Frame>, ghost order: seq<Template>, ghost seen: set<Template>)
    returns (after: seq<StackEntry>, ghost frames': seq<Frame>, ghost seen': set<Template>)
    requires stack != [] && !stack[|stack| - 1].1 && InProgress(nodes, links, stack, frames, order, seen)
    modifies nodes.Values
    ensures InProgress(nodes, links, after, frames', order, seen')
    ensures seen < seen' <= seen + nodes.Keys
  {
    hide Walking, Standing, Cleared, Tree, ChildrenOf, StackEntries, PrefixClosed;
    var top := |stack| - 1;
    var node := stack[top].0;
    TopEntry(nodes, links, stack, frames, order, seen);
    ghost var t, rest := frames[top].t, frames[..top];
    ghost var kids;
    after, kids := PushChildren(stack[..top] + [(node, true)], node, nodes, links, t);
    TreeIsPrefixClosed(nodes, links);
    Visit(nodes.Keys, rest, t, kids, order, seen);
    StandingAfterVisit(nodes, stack[..top], rest, t, kids);
    Forget(node, nodes, links, t, order, seen);
    frames', seen' := rest + [Frame(t, true)] + Fresh(kids), seen + {t};
  }

  lemma TreeIsPrefixClosed(nodes: NodeMap, links: LinkMap)
    requires Tree(nodes, links)
    ensures PrefixClosed(nodes.Keys)
  {
  }

  method FreeNode(node: Node, ghost nodes: NodeMap, ghost links: LinkMap, ghost t: Template,
              ghost order: seq<Template>, ghost seen: set<Template>)
    requires Tree(nodes, links) && Cleared(nodes, links, order, seen)
    requires t in nodes && nodes[t] == node && t in seen && t !in order
    modifies node`alive
    ensures Cleared(nodes, links, order + [t], seen)
  {
    node.Delete();
  }

  /** A turn that finds its entry visited: it is popped, and its node deleted unless it is the head. */
  method PopTurn(stack: seq<StackEntry>, head: Node, ghost nodes: NodeMap, ghost links: LinkMap,
                 ghost frames: seq<Frame>, ghost order: seq<Template>, ghost seen: set<Template>)
    returns (after: seq<StackEntry>, deleted: seq<Node>, ghost frames': seq<Frame>, ghost order': seq<Template>)
    requires stack != [] && stack[|stack| - 1].1 && InProgress(nodes, links, stack, frames, order, seen)
    requires [] in nodes && nodes[[]] == head
    modifies nodes.Values
    ensures InProgress(nodes, links, after, frames', order', seen) && |after| < |stack|
    ensures |deleted| <= 1 && |order'| == |order| + |deleted| && order <= order'
    ensures deleted != [] ==> order'[|order|] in nodes && nodes[order'[|order|]] == deleted[0]
  {
    hide Walking, Standing, Cleared, Tree, PrefixClosed;
    var top := |stack| - 1;
    var node := stack[top].0;
    TopEntry(nodes, links, stack, frames, order, seen);
    ghost var t, rest := frames[top].t, frames[..top];
    Pop(nodes.Keys, rest, t, order, seen);
    TreeIsUnshared(nodes, links, t);
    after, frames', order', deleted := stack[..top], rest, order, [];
    if node != head {
      FreeNode(node, nodes, links, t, order, seen);
      order', deleted := order + [t], [node];
    }
  }

  lemma TreeIsUnshared(nodes: NodeMap, links: LinkMap, t: Template)
    requires Tree(nodes, links) && t in nodes
    ensures nodes[t] == nodes[[]] <==> t == []
  {
  }

  lemma ClearingStarts(nodes: NodeMap, links: LinkMap, stack: seq<StackEntry>)
    requires Tree(nodes, links) && links == LinksOf(nodes) && stack == [(nodes[[]], false)]
    requires forall t | t in nodes :: nodes[t].alive
    ensures [] in nodes && InProgress(nodes, links, stack, [Frame([], false)], [], {})
  {
    TraversalStarts(nodes.Keys);
  }

  lemma ClearingEnds(nodes: NodeMap, links: LinkMap, frames: seq<Frame>, order: seq<Template>, seen: set<Template>)
    requires InProgress(nodes, links, [], frames, order, seen)
    ensures PostOrder(nodes.Keys, order)
    ensures forall t :: t in order <==> t in nodes && t != []
    ensures forall t | t in nodes :: nodes[t].alive == (t == []) && nodes[t].children == map[]
  {
    WalkEnds(nodes.Keys, order, seen);
  }

  /** `clear`: turns of the loop until the stack is empty. */
  method ClearTree(head: Node, ghost nodes: NodeMap) returns (freed: seq<Node>, ghost order: seq<Template>)
    requires Shape(nodes) && nodes[[]] == head && forall t | t in nodes :: nodes[t].alive
    modifies nodes.Values
    ensures PostOrder(nodes.Keys, order)
    ensures forall t :: t in order <==> t in nodes && t != []
    ensures |freed| == |order| && forall k | 0 <= k < |freed| :: order[k] in nodes && freed[k] == nodes[order[k]]
    ensures forall t | t in nodes :: nodes[t].alive == (t == []) && nodes[t].children == map[]
  {
    hide Tree, InProgress;
    ghost var links := LinksOf(nodes);
    var stack: seq<StackEntry> := [(head, false)];
    ghost var frames: seq<Frame>, seen: set<Template> := [Frame([], false)], {};
    freed, order := [], [];
    ClearingStarts(nodes, links, stack);
    while stack != []
      invariant InProgress(nodes, links, stack, frames, order, seen)
      invariant |freed| == |order| && forall k | 0 <= k < |freed| :: order[k] in nodes && freed[k] == nodes[order[k]]
      decreases nodes.Keys - seen, |stack|
    {
      if !stack[|stack| - 1].1 {
        stack, frames, seen := VisitTurn(stack, nodes, links, frames, order, seen);
      } else {
        var deleted;
        stack, deleted, frames, order := PopTurn(stack, head, nodes, links, frames, order, seen);
        freed := freed + deleted;
      }
    }
    ClearingEnds(nodes, links, frames, order, seen);
  }
}
