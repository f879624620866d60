/**
  Concrete routes: where the comparator as written departs from the documentation, and what the
  repository's own test relies on.
 */
module RouteExamples {
  import opened Wrappers
  import opened Text
  import opened Templates
  import opened Extractor
  import opened Registry
  import opened Ranking
  import opened CandidateSet
  import opened Matching
  import opened RequestBuilding
  import opened Server

  lemma LeadingSlash(rest: string)
    ensures Components([SLASH] + rest) == [""] + Components(rest)
  {
    FieldsOfTerminatedPiece("", rest, {SLASH}, SLASH);
    assert "" + [SLASH] + rest == [SLASH] + rest;
  }

  lemma ThreeComponents(path: string, a: string, b: string)
    requires path == [SLASH] + (a + [SLASH] + b)
    requires Free(a, {SLASH}) && Free(b, {SLASH}) && b != ""
    ensures Components(path) == ["", a, b]
    ensures TemplateOf(path) == [Literal(""), SlotOf(a), SlotOf(b)]
  {
    LeadingSlash(a + [SLASH] + b);
    TwoComponents(a + [SLASH] + b, a, b);
    NormalizeThree(a, b);
  }

  lemma NormalizeThree(a: string, b: string)
    ensures Normalize(["", a, b]) == [Literal(""), SlotOf(a), SlotOf(b)]
  {
  }

  lemma MeasuresOfThree(s: Slot, s': Slot, c: string, c': string)
    ensures KeyAt([Literal(""), s, s'], ["", c, c'])
         == Key((if s == Variable then 1 else 0) + (if s' == Variable then 1 else 0), Piece(s, c) + Piece(s', c'))
  {
    var t, cs := [Literal(""), s, s'], ["", c, c'];
    assert t[..2] == [Literal(""), s] && cs[..2] == ["", c];
    MeasuresOfTwo(Literal(""), s, "", c);
    assert "" + Piece(s, c) == Piece(s, c);
  }

  lemma CapturesOfThree(s: Slot, s': Slot, c: string, c': string)
    ensures Captures([Literal(""), s, s'], ["", c, c'])
         == (if s == Variable then [c] else []) + (if s' == Variable then [c'] else [])
  {
    var t, cs := [Literal(""), s, s'], ["", c, c'];
    assert t[..2] == [Literal(""), s] && cs[..2] == ["", c];
    assert t[..2][..1] == [Literal("")] && cs[..2][..1] == [""];
    assert Captures([Literal("")], [""]) == [];
    assert Captures(t[..2], cs[..2]) == if s == Variable then [c] else [];
  }

  lemma TableOfPair(e: Entry, f: Entry)
    requires KeyOf(e) != KeyOf(f)
    ensures TableOf(RegisterAll([e, f])) == map[KeyOf(e) := e, KeyOf(f) := f]
  {
    CollisionFreeRun([e, f]);
    TableOfExtended([e], f);
    TableOfExtended([], e);
    assert [e] + [f] == [e, f] && [] + [e] == [e];
  }

  lemma CandidatesOfPair(e: Entry, f: Entry, cs: seq<string>, i: nat)
    requires var t, u := KeyOf(e), KeyOf(f);
             && Matches(t, cs) && Matches(u, cs) && i < |cs|
             && t[i] != Variable && u[i] == Variable && t[i + 1..] == u[i + 1..]
    ensures var table := map[KeyOf(e) := e, KeyOf(f) := f];
            Candidates(table, cs) == [FoundAt(table, cs, KeyOf(e)), FoundAt(table, cs, KeyOf(f))]
  {
    var table: Table := map[KeyOf(e) := e, KeyOf(f) := f];
    SearchOrder(cs, KeyOf(e), KeyOf(f), i);
    assert table.Keys == {KeyOf(e), KeyOf(f)};
    assert CandidateTemplates(table, cs) == [KeyOf(e), KeyOf(f)];
  }

  /** The keys of the two routes below, and how they compare. */
  lemma FailingKeys()
    ensures var k, l := Key(1, ".bb"), Key(1, "a.");
            Documented(k, l) && Written(k, l) && Written(l, k)
  {
    assert LexGreater("a.", ".bb");
  }

  lemma SecondRouteWins(table: Table, cs: seq<string>, t: Template, u: Template, result: Option<Match>)
    requires |t| == |u| == |cs| && t in table && u in table
    requires Candidates(table, cs) == [FoundAt(table, cs, t), FoundAt(table, cs, u)]
    requires Written(KeyAt(u, cs), KeyAt(t, cs))
    ensures MayReturn(table, cs, result) <==> result == Some(MatchAt(table, cs, u))
  {
    hide Candidates, Written, MayFront;
    var found := Candidates(table, cs);
    CapturesCount(t, cs);
    CapturesCount(u, cs);
    SecondOfTwo(Measures(found), 1);
    FrontMayBePicked(found, 1);
    if MayReturn(table, cs, result) {
      var w := PickedFront(found, result);
      SecondOfTwo(Measures(found), w);
    }
  }

  lemma MisalignedRoutes(table: Table, cs: seq<string>, t: Template, u: Template)
    requires Matches(t, cs) && Matches(u, cs) && t in table && u in table
    requires Written(KeyAt(t, cs), KeyAt(u, cs)) && Written(KeyAt(u, cs), KeyAt(t, cs))
    ensures !RoutesAligned(table, cs)
  {
    AsymmetricIffAligned(KeyAt(t, cs), KeyAt(u, cs));
  }

  lemma WinnerOfTwo(table: Table, cs: seq<string>, t: Template, u: Template)
    requires cs != [] && Matches(t, cs) && Matches(u, cs) && table.Keys == {t, u}
    requires Documented(KeyAt(t, cs), KeyAt(u, cs))
    ensures DocumentedWinner(table, cs, t) && !DocumentedWinner(table, cs, u)
  {
    DocumentedIsStrictTotal(KeyAt(t, cs), KeyAt(u, cs), KeyAt(t, cs));
  }

  lemma FailingRequest()
    ensures Components("/a/bb") == ["", "a", "bb"]
  {
    ThreeComponents("/a/bb", "a", "bb");
  }

  lemma FailingWinner()
    ensures TemplateOf("/{x}/bb") == [Literal(""), Variable, Literal("bb")]
  {
    ThreeComponents("/{x}/bb", "{x}", "bb");
  }

  lemma FailingOvertaker()
    ensures TemplateOf("/a/{x}") == [Literal(""), Literal("a"), Variable]
  {
    ThreeComponents("/a/{x}", "a", "{x}");
  }

  lemma FailingMeasures()
    ensures var cs, t, u := ["", "a", "bb"], [Literal(""), Variable, Literal("bb")], [Literal(""), Literal("a"), Variable];
            && Matches(t, cs) && Matches(u, cs)
            && KeyAt(t, cs) == Key(1, ".bb") && KeyAt(u, cs) == Key(1, "a.") && Captures(u, cs) == ["bb"]
  {
    MeasuresOfThree(Variable, Literal("bb"), "a", "bb");
    MeasuresOfThree(Literal("a"), Variable, "a", "bb");
    CapturesOfThree(Literal("a"), Variable, "a", "bb");
  }

  lemma FailingPair(e: Entry, f: Entry, cs: seq<string>)
    requires cs == ["", "a", "bb"]
    requires KeyOf(e) == [Literal(""), Variable, Literal("bb")]
    requires KeyOf(f) == [Literal(""), Literal("a"), Variable]
    ensures var table := TableOf(RegisterAll([e, f]));
            && DocumentedWinner(table, cs, KeyOf(e))
            && !DocumentedWinner(table, cs, KeyOf(f))
            && (forall result ::
                  MayReturn(table, cs, result) <==> result == Some(Match(f.resource, f.methods, ["bb"])))
            && !RoutesAligned(table, cs)
  {
    hide MayReturn, Candidates, DocumentedWinner, RoutesAligned, Documented, Written, TableOf, RegisterAll, KeyOf;
    var t, u := KeyOf(e), KeyOf(f);
    FailingMeasures();
    FailingKeys();
    assert t[2] != u[2];
    TableOfPair(e, f);
    CandidatesOfPair(e, f, cs, 2);
    var table: Table := map[t := e, u := f];
    WinnerOfTwo(table, cs, t, u);
    MisalignedRoutes(table, cs, t, u);
    forall result
      ensures MayReturn(table, cs, result) <==> result == Some(MatchAt(table, cs, u))
    {
      SecondRouteWins(table, cs, t, u, result);
    }
  }

  /**
    The comparator does not implement the documented order. With `/{x}/bb` and `/a/{x}` registered,
    both match `/a/bb` with one variable and the first has the longer literals, so it is documented
    to win; but each of the two precedes the other, and the second is put at `begin()`, however the
    set is built.
   */
  lemma DocumentedOrderFails(e: Entry, f: Entry)
    requires e.resource.path == "/{x}/bb" && f.resource.path == "/a/{x}"
    ensures var table, cs := TableOf(RegisterAll([e, f])), Components("/a/bb");
            && DocumentedWinner(table, cs, KeyOf(e))
            && !DocumentedWinner(table, cs, KeyOf(f))
            && (forall result ::
                  MayReturn(table, cs, result) <==> result == Some(Match(f.resource, f.methods, ["bb"])))
            && !RoutesAligned(table, cs)
  {
    FailingRequest();
    FailingWinner();
    FailingOvertaker();
    FailingPair(e, f, Components("/a/bb"));
  }

  lemma TestRequest()
    ensures Components("/foo/bar") == ["", "foo", "bar"]
  {
    ThreeComponents("/foo/bar", "foo", "bar");
  }

  lemma TestTemplateOfFoo()
    ensures TemplateOf("/foo/{p1}") == [Literal(""), Literal("foo"), Variable]
  {
    ThreeComponents("/foo/{p1}", "foo", "{p1}");
  }

  lemma TestTemplateOfVariables()
    ensures TemplateOf("/{p1}/{p2}") == [Literal(""), Variable, Variable]
  {
    ThreeComponents("/{p1}/{p2}", "{p1}", "{p2}");
  }

  lemma TestMeasures()
    ensures var cs, t, u := ["", "foo", "bar"], [Literal(""), Literal("foo"), Variable], [Literal(""), Variable, Variable];
            && Matches(t, cs) && Matches(u, cs)
            && KeyAt(t, cs) == Key(1, "foo.") && KeyAt(u, cs) == Key(2, "..") && Captures(u, cs) == ["foo", "bar"]
            && Documented(KeyAt(u, cs), KeyAt(t, cs)) && Written(KeyAt(u, cs), KeyAt(t, cs))
            && Written(KeyAt(t, cs), KeyAt(u, cs))
  {
    MeasuresOfThree(Literal("foo"), Variable, "foo", "bar");
    MeasuresOfThree(Variable, Variable, "foo", "bar");
    CapturesOfThree(Variable, Variable, "foo", "bar");
  }

  lemma TestPair(e: Entry, f: Entry, cs: seq<string>)
    requires cs == ["", "foo", "bar"]
    requires KeyOf(e) == [Literal(""), Literal("foo"), Variable]
    requires KeyOf(f) == [Literal(""), Variable, Variable]
    ensures var table := TableOf(RegisterAll([e, f]));
            && DocumentedWinner(table, cs, KeyOf(f))
            && (forall result ::
                  MayReturn(table, cs, result) <==> result == Some(Match(f.resource, f.methods, ["foo", "bar"])))
            && !RoutesAligned(table, cs)
  {
    hide MayReturn, Candidates, DocumentedWinner, RoutesAligned, Documented, Written, TableOf, RegisterAll, KeyOf;
    var t, u := KeyOf(e), KeyOf(f);
    TestMeasures();
    assert t[1] != u[1] && t[2..] == u[2..];
    TableOfPair(e, f);
    CandidatesOfPair(e, f, cs, 1);
    var table: Table := map[t := e, u := f];
    WinnerOfTwo(table, cs, u, t);
    MisalignedRoutes(table, cs, t, u);
    forall result
      ensures MayReturn(table, cs, result) <==> result == Some(MatchAt(table, cs, u))
    {
      SecondRouteWins(table, cs, t, u, result);
    }
  }

  /**
    The routes of the repository's own test: on `/foo/bar` the one with two variables is returned,
    as documented and however the set is built, yet the two candidates already break the requirement of `std::set`.
   */
  lemma RepositoryTestRoutes(e: Entry, f: Entry)
    requires e.resource.path == "/foo/{p1}" && f.resource.path == "/{p1}/{p2}"
    ensures var table, cs := TableOf(RegisterAll([e, f])), Components("/foo/bar");
            && DocumentedWinner(table, cs, KeyOf(f))
            && (forall result ::
                  MayReturn(table, cs, result) <==> result == Some(Match(f.resource, f.methods, ["foo", "bar"])))
            && !RoutesAligned(table, cs)
  {
    TestRequest();
    TestTemplateOfFoo();
    TestTemplateOfVariables();
    TestPair(e, f, Components("/foo/bar"));
  }

  lemma FooTemplate()
    ensures Components("/foo") == ["", "foo"]
    ensures TemplateOf("/foo") == [Literal(""), Literal("foo")]
  {
    LeadingSlash("foo");
    FieldsUnfold("foo", {SLASH});
    NormalizeTwo();
  }

  lemma NormalizeTwo()
    ensures Normalize(["", "foo"]) == [Literal(""), Literal("foo")]
  {
  }

  lemma TableOfOne(e: Entry)
    ensures TableOf(RegisterAll([e])) == map[KeyOf(e) := e]
  {
    CollisionFreeRun([e]);
    TableOfExtended([], e);
    assert [] + [e] == [e];
  }

  lemma OnlyRoute(e: Entry, result: Option<Match>)
    requires KeyOf(e) == [Literal(""), Literal("foo")]
    requires MayReturn(map[KeyOf(e) := e], ["", "foo"], result)
    ensures result == Some(Match(e.resource, e.methods, []))
  {
    hide MayReturn;
    var cs, t, table := ["", "foo"], KeyOf(e), map[KeyOf(e) := e];
    assert Matches(t, cs);
    NoMatchIff(table, cs, result);
    var u := MatchIsRegistered(table, cs, result);
    MeasuresOfTwo(Literal(""), Literal("foo"), "", "foo");
    CapturesCount(t, cs);
  }

  lemma OneStringParameter()
    ensures IsPath([StringArg][0]) && PathRank([StringArg], 0) == 0 && PathCount([StringArg]) == 1
  {
    assert [StringArg][..0] == [] && [StringArg][1..] == [];
  }

  /**
    Signatures are not checked at registration. With a handler of one string parameter on `/foo`, a
    request for `/foo` is matched and captures nothing, so its argument is read past the captures.
   */
  lemma ReadsPastCaptures(e: Entry, req: Request, result: Option<Match>)
    requires e.resource.path == "/foo" && e.methods.get.Bound? && e.methods.get.signature == [StringArg]
    requires req.path == "/foo" && req.verb == GET
    requires MayReturn(TableOf(RegisterAll([e])), Components(req.path), result)
    ensures result == Some(Match(e.resource, e.methods, []))
    ensures IsPath([StringArg][0]) && PathRank([StringArg], 0) >= |result.value.parameters|
    ensures !CanAnswer(RegisterAll([e]), req)
  {
    hide MayReturn, TableOf, RegisterAll, Components;
    FooTemplate();
    TableOfOne(e);
    OnlyRoute(e, result);
    OneStringParameter();
  }
}
