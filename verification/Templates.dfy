/**
  Path templates, and what it means for one to match the components of a request path.
  This is the reference the trie and its search are compared with.
 */
module Templates {
  import opened Text

  /** A template component; variable names are erased, so `{a}` and `{b}` are the same slot. */
  datatype Slot = Literal(text: string) | Variable

  type Template = seq<Slot>

  const SLASH: char := '/'

  function Components(path: string): seq<string> {
    Fields(path, {SLASH})
  }

  /** Every component followed by a slash. */
  function PathOf(components: seq<string>): string {
    Separate(components, seq(|components|, _ => SLASH))
  }

  /**
    Path round trips: components without slashes come back from the path that lists them, and
    every path is rebuilt from its components and whether it ended in a slash.
   */
  lemma PathRoundTrip(components: seq<string>, path: string)
    requires forall i :: 0 <= i < |components| ==> Free(components[i], {SLASH})
    ensures Components(PathOf(components)) == components
    ensures Join(Components(path), SLASH, EndsWith(path, SLASH)) == path
  {
    FieldsOfSeparate(components, seq(|components|, _ => SLASH), {SLASH});
    JoinOfFields(path, SLASH);
  }

  /** True for `{...}`, the empty name included. */
  predicate IsVariable(component: string) {
    |component| >= 2 && component[0] == '{' && component[|component| - 1] == '}'
  }

  /** A name in braces. */
  ghost predicate Braced(component: string) {
    exists name :: component == "{" + name + "}"
  }

  /** The test on size, first and last character says that a component is a name in braces. */
  lemma IsVariableIff(component: string)
    ensures IsVariable(component) <==> Braced(component)
  {
    if IsVariable(component) {
      var name := component[1..|component| - 1];
      assert component == "{" + name + "}";
    }
    if Braced(component) {
      var name :| component == "{" + name + "}";
    }
  }

  function SlotOf(component: string): Slot {
    if IsVariable(component) then Variable else Literal(component)
  }

  function Normalize(components: seq<string>): Template {
    seq(|components|, i requires 0 <= i < |components| => SlotOf(components[i]))
  }

  function TemplateOf(path: string): Template {
    Normalize(Components(path))
  }

  /** What insertion can produce: no literal slot is itself a `{...}` string. */
  predicate Normal(t: Template) {
    forall i :: 0 <= i < |t| && t[i].Literal? ==> !IsVariable(t[i].text)
  }

  predicate Fits(slot: Slot, component: string) {
    slot == Variable || slot == Literal(component)
  }

  predicate Matches(t: Template, cs: seq<string>) {
    |t| == |cs| && forall i :: 0 <= i < |t| ==> Fits(t[i], cs[i])
  }

  /** The components at the variable slots, in order. */
  function Captures(t: Template, cs: seq<string>): seq<string>
    requires |t| == |cs|
  {
    if t == [] then []
    else
      var n := |t| - 1;
      Captures(t[..n], cs[..n]) + (if t[n] == Variable then [cs[n]] else [])
  }

  function VariableCount(t: Template): nat {
    if t == [] then 0
    else VariableCount(t[..|t| - 1]) + (if t[|t| - 1] == Variable then 1 else 0)
  }

  function Piece(slot: Slot, component: string): string {
    if slot == Variable then "." else component
  }

  /** The search's `literals` string: "." for a variable step, else the component. */
  function Literals(t: Template, cs: seq<string>): string
    requires |t| == |cs|
  {
    if t == [] then ""
    else
      var n := |t| - 1;
      Literals(t[..n], cs[..n]) + Piece(t[n], cs[n])
  }

  /** The aggregate length of the non-template components. */
  function LiteralLength(t: Template, cs: seq<string>): nat
    requires |t| == |cs|
  {
    if t == [] then 0
    else
      var n := |t| - 1;
      LiteralLength(t[..n], cs[..n]) + (if t[n] == Variable then 0 else |cs[n]|)
  }

  /** One capture per variable slot. */
  lemma {:induction false} CapturesCount(t: Template, cs: seq<string>)
    requires |t| == |cs|
    ensures |Captures(t, cs)| == VariableCount(t)
  {
    if t != [] {
      CapturesCount(t[..|t| - 1], cs[..|t| - 1]);
    }
  }

  /** Capture k is the component at the variable slot that has k variable slots before it. */
  lemma {:induction false} CaptureAt(t: Template, cs: seq<string>, i: nat)
    requires |t| == |cs| && i < |t| && t[i] == Variable
    ensures VariableCount(t[..i]) < |Captures(t, cs)|
    ensures Captures(t, cs)[VariableCount(t[..i])] == cs[i]
  {
    var n := |t| - 1;
    CapturesCount(t[..n], cs[..n]);
    if i < n {
      CaptureAt(t[..n], cs[..n], i);
      assert t[..n][..i] == t[..i];
    }
  }

  /** Every variable slot is found by its rank: slots and captures correspond one to one. */
  lemma {:induction false} VariableSlotOfRank(t: Template, k: nat) returns (i: nat)
    requires k < VariableCount(t)
    ensures i < |t| && t[i] == Variable && VariableCount(t[..i]) == k
  {
    var n := |t| - 1;
    if k < VariableCount(t[..n]) {
      i := VariableSlotOfRank(t[..n], k);
      assert t[..n][..i] == t[..i];
    } else {
      i := n;
    }
  }

  /** The components of a template with values put into its variable slots, in order. */
  function Fill(t: Template, values: seq<string>): (cs: seq<string>)
    requires |values| == VariableCount(t)
    ensures |cs| == |t|
  {
    if t == [] then []
    else
      var n := |t| - 1;
      match t[n]
      case Literal(text) => Fill(t[..n], values) + [text]
      case Variable => Fill(t[..n], values[..|values| - 1]) + [values[|values| - 1]]
  }

  lemma MatchesStep(t: Template, cs: seq<string>, slot: Slot, c: string)
    requires Matches(t, cs) && Fits(slot, c)
    ensures Matches(t + [slot], cs + [c])
    ensures Captures(t + [slot], cs + [c]) == if slot == Variable then Captures(t, cs) + [c] else Captures(t, cs)
  {
    assert (t + [slot])[..|t|] == t && (cs + [c])[..|cs|] == cs;
    assert Captures(t, cs) + [] == Captures(t, cs);
  }

  lemma FillStep(t: Template, values: seq<string>, slot: Slot, c: string)
    requires |values| == VariableCount(t) && Fits(slot, c)
    ensures var values' := if slot == Variable then values + [c] else values;
            |values'| == VariableCount(t + [slot]) && Fill(t + [slot], values') == Fill(t, values) + [c]
  {
    assert (t + [slot])[..|t|] == t && (values + [c])[..|values|] == values;
  }

  /** Capturing undoes filling. */
  lemma {:induction false} CapturesOfFill(t: Template, values: seq<string>)
    requires |values| == VariableCount(t)
    ensures Matches(t, Fill(t, values)) && Captures(t, Fill(t, values)) == values
  {
    hide Matches, Captures;
    if t == [] {
      NothingMatches();
    } else {
      var n := |t| - 1;
      var front := if t[n] == Variable then values[..|values| - 1] else values;
      var c := if t[n] == Variable then values[|values| - 1] else t[n].text;
      CapturesOfFill(t[..n], front);
      assert t == t[..n] + [t[n]] && Fill(t, values) == Fill(t[..n], front) + [c];
      MatchesStep(t[..n], Fill(t[..n], front), t[n], c);
    }
  }

  lemma NothingMatches()
    ensures Matches([], []) && Captures([], []) == []
  {
  }

  /** And filling undoes capturing, on the components that match. */
  lemma {:induction false} FillOfCaptures(t: Template, cs: seq<string>)
    requires Matches(t, cs)
    ensures |Captures(t, cs)| == VariableCount(t) && Fill(t, Captures(t, cs)) == cs
  {
    hide Captures, Fill;
    if t == [] {
      NothingFilled();
    } else {
      var n := |t| - 1;
      assert Fits(t[n], cs[n]) && forall i :: 0 <= i < n ==> Fits(t[i], cs[i]);
      FillOfCaptures(t[..n], cs[..n]);
      assert t == t[..n] + [t[n]] && cs == cs[..n] + [cs[n]];
      MatchesStep(t[..n], cs[..n], t[n], cs[n]);
      FillStep(t[..n], Captures(t[..n], cs[..n]), t[n], cs[n]);
    }
  }

  lemma NothingFilled()
    ensures Captures([], []) == [] && VariableCount([]) == 0 && Fill([], []) == []
  {
  }

  /** No literal contains a slash: true of every template read from a path. */
  predicate SlashFree(t: Template) {
    forall i :: 0 <= i < |t| && t[i].Literal? ==> Free(t[i].text, {SLASH})
  }

  lemma TemplateIsSlashFree(path: string)
    ensures SlashFree(TemplateOf(path))
  {
    FieldsAreFree(path, {SLASH});
  }

  lemma {:induction false} FillIsSlashFree(t: Template, values: seq<string>)
    requires |values| == VariableCount(t) && SlashFree(t)
    requires forall i :: 0 <= i < |values| ==> Free(values[i], {SLASH})
    ensures forall i :: 0 <= i < |t| ==> Free(Fill(t, values)[i], {SLASH})
  {
    if t != [] {
      var n := |t| - 1;
      assert forall i :: 0 <= i < n ==> t[..n][i] == t[i];
      FillIsSlashFree(t[..n], if t[n] == Variable then values[..|values| - 1] else values);
    }
  }

  function InBraces(names: seq<string>): (r: seq<string>)
    ensures |r| == |names|
  {
    seq(|names|, i requires 0 <= i < |names| => "{" + names[i] + "}")
  }

  lemma NormalizeStep(cs: seq<string>, c: string)
    ensures Normalize(cs + [c]) == Normalize(cs) + [SlotOf(c)]
  {
  }

  lemma SlotOfSpelling(slot: Slot, name: string)
    requires slot.Literal? ==> !IsVariable(slot.text)
    ensures SlotOf(if slot == Variable then "{" + name + "}" else slot.text) == slot
  {
  }

  lemma {:induction false} NormalizeSpelling(t: Template, names: seq<string>)
    requires |names| == VariableCount(t) && Normal(t)
    ensures Normalize(Fill(t, InBraces(names))) == t
  {
    hide Normalize, SlotOf;
    if t == [] {
      NothingNormalized();
    } else {
      var n := |t| - 1;
      var front := if t[n] == Variable then names[..|names| - 1] else names;
      var name := if t[n] == Variable then names[|names| - 1] else "";
      NormalizeSpelling(t[..n], front);
      assert t[n] == Variable ==> InBraces(names)[..|front|] == InBraces(front);
      SlotOfSpelling(t[n], name);
      NormalizeStep(Fill(t[..n], InBraces(front)), if t[n] == Variable then "{" + name + "}" else t[n].text);
      assert t == t[..n] + [t[n]];
    }
  }

  lemma NothingNormalized()
    ensures Normalize([]) == []
  {
  }

  /**
    A template is read back from every path that spells it: its literals as they are, none of them in
    braces, and in place of each variable some name in braces.
   */
  lemma TemplateOfSpelling(t: Template, names: seq<string>)
    requires |names| == VariableCount(t) && SlashFree(t)
    requires forall i :: 0 <= i < |t| && t[i].Literal? ==> !Braced(t[i].text)
    requires forall i :: 0 <= i < |names| ==> Free(names[i], {SLASH})
    ensures TemplateOf(PathOf(Fill(t, InBraces(names)))) == t
  {
    hide IsVariable, Normalize, Fill, VariableCount, PathOf, Components;
    forall i | 0 <= i < |t| && t[i].Literal?
      ensures !IsVariable(t[i].text)
    {
      IsVariableIff(t[i].text);
    }
    NormalizeSpelling(t, names);
    FillIsSlashFree(t, InBraces(names));
    PathRoundTrip(Fill(t, InBraces(names)), "");
  }

  /** With equal variable counts, comparing `literals.size()` compares aggregate literal length. */
  lemma {:induction false} LiteralsSize(t: Template, cs: seq<string>)
    requires |t| == |cs|
    ensures |Literals(t, cs)| == LiteralLength(t, cs) + VariableCount(t)
  {
    if t != [] {
      LiteralsSize(t[..|t| - 1], cs[..|t| - 1]);
    }
  }

  lemma {:induction false} LiteralsConcat(t: Template, u: Template, cs: seq<string>, ds: seq<string>)
    requires |t| == |cs| && |u| == |ds|
    ensures Literals(t + u, cs + ds) == Literals(t, cs) + Literals(u, ds)
  {
    hide Literals;
    if u == [] {
      assert t + u == t && cs + ds == cs;
      LiteralsOfNothing();
      assert Literals(t, cs) + "" == Literals(t, cs);
    } else {
      var n := |u| - 1;
      LiteralsConcat(t, u[..n], cs, ds[..n]);
      LiteralsConcatStep(t, u[..n], cs, ds[..n], u[n], ds[n]);
      assert u == u[..n] + [u[n]] && ds == ds[..n] + [ds[n]];
    }
  }

  lemma LiteralsOfNothing()
    ensures Literals([], []) == ""
  {
  }

  lemma LiteralsStep(t: Template, cs: seq<string>, slot: Slot, c: string)
    requires |t| == |cs|
    ensures Literals(t + [slot], cs + [c]) == Literals(t, cs) + Piece(slot, c)
  {
    assert (t + [slot])[..|t|] == t && (cs + [c])[..|cs|] == cs;
  }

  lemma LiteralsConcatStep(t: Template, u: Template, cs: seq<string>, ds: seq<string>, slot: Slot, c: string)
    requires |t| == |cs| && |u| == |ds|
    requires Literals(t + u, cs + ds) == Literals(t, cs) + Literals(u, ds)
    ensures Literals(t + (u + [slot]), cs + (ds + [c])) == Literals(t, cs) + Literals(u + [slot], ds + [c])
  {
    hide Literals, Piece;
    ConcatIsAssociative(t, u, [slot]);
    ConcatIsAssociative(cs, ds, [c]);
    ConcatIsAssociative(Literals(t, cs), Literals(u, ds), Piece(slot, c));
    LiteralsStep(t + u, cs + ds, slot, c);
    LiteralsStep(u, ds, slot, c);
  }

  /** The string of a template read from a slot i on: prefix, that slot's piece, the rest. */
  lemma LiteralsSplit(t: Template, cs: seq<string>, i: nat)
    requires |t| == |cs| && i < |t|
    ensures Literals(t, cs)
         == Literals(t[..i], cs[..i]) + Piece(t[i], cs[i]) + Literals(t[i + 1..], cs[i + 1..])
  {
    LiteralsConcat(t[..i + 1], t[i + 1..], cs[..i + 1], cs[i + 1..]);
    assert t == t[..i + 1] + t[i + 1..] && cs == cs[..i + 1] + cs[i + 1..];
    assert t[..i + 1][..i] == t[..i] && cs[..i + 1][..i] == cs[..i];
  }

  /**
    Unique decoding: two templates that match one path never share a `literals` string, provided
    every component where they differ is non-empty and does not start with a dot.
   */
  lemma LiteralsDecodeUniquely(t: Template, u: Template, cs: seq<string>)
    requires Matches(t, cs) && Matches(u, cs) && t != u
    requires forall i :: 0 <= i < |cs| && t[i] != u[i] ==> cs[i] != "" && cs[i][0] != '.'
    ensures Literals(t, cs) != Literals(u, cs)
  {
    var i := FirstDifference(t, u);
    LiteralsSplit(t, cs, i);
    LiteralsSplit(u, cs, i);
    var at := |Literals(t[..i], cs[..i])|;
    assert t[..i] == u[..i];
    assert Literals(t, cs)[at] == Piece(t[i], cs[i])[0];
    assert Literals(u, cs)[at] == Piece(u[i], cs[i])[0];
  }

  lemma {:induction false} FirstDifference(t: Template, u: Template) returns (i: nat)
    requires |t| == |u| && t != u
    ensures i < |t| && t[i] != u[i] && t[..i] == u[..i]
  {
    if t[0] != u[0] {
      i := 0;
    } else {
      assert t == [t[0]] + t[1..] && u == [u[0]] + u[1..];
      var j := FirstDifference(t[1..], u[1..]);
      i := j + 1;
      assert t[..i] == [t[0]] + t[1..][..j] && u[..i] == [u[0]] + u[1..][..j];
    }
  }

  /** Without that proviso two templates can be indistinguishable: `./{x}` and `{x}/.` on `./.`. */
  lemma LiteralsCollide()
    ensures var cs, t, u := Components("./."), TemplateOf("./{x}"), TemplateOf("{x}/.");
            && Matches(t, cs) && Matches(u, cs) && t != u
            && VariableCount(t) == VariableCount(u) && Literals(t, cs) == Literals(u, cs)
  {
    hide Components, TemplateOf, Literals, VariableCount;
    var dot, x := ".", "{x}";
    TwoComponents("./.", dot, dot);
    TwoComponents("./{x}", dot, x);
    TwoComponents("{x}/.", x, dot);
    MeasuresOfTwo(SlotOf(dot), Variable, dot, dot);
    MeasuresOfTwo(Variable, SlotOf(dot), dot, dot);
    assert Piece(SlotOf(dot), dot) == Piece(Variable, dot);
  }

  lemma TwoComponents(path: string, a: string, b: string)
    requires path == a + [SLASH] + b
    requires Free(a, {SLASH}) && Free(b, {SLASH}) && b != ""
    ensures Components(path) == [a, b]
    ensures TemplateOf(path) == [SlotOf(a), SlotOf(b)]
  {
    FieldsOfTerminatedPiece(a, b, {SLASH}, SLASH);
    FieldsUnfold(b, {SLASH});
  }

  lemma MeasuresOfTwo(s: Slot, s': Slot, c: string, c': string)
    ensures VariableCount([s, s']) == (if s == Variable then 1 else 0) + (if s' == Variable then 1 else 0)
    ensures Literals([s, s'], [c, c']) == Piece(s, c) + Piece(s', c')
  {
    var t, cs := [s, s'], [c, c'];
    assert t[..1] == [s] && cs[..1] == [c];
    assert VariableCount([s]) == if s == Variable then 1 else 0;
    assert Literals([s], [c]) == Piece(s, c);
  }
}
