/** Filling a handler's arguments: path parameters by index, the rest from the request. */
module Extractor {
  import opened Wrappers
  import opened Query
  import opened IntParam

  datatype ParamKind = StringArg | IntArg(target: IntType) | QueryArg | PostArg | HeaderArg | EntityArg

  datatype Argument =
    | StringValue(text: string)
    | IntValue(number: int)
    | QueryValue(params: Multimap)
    | PostValue(params: Multimap)
    | HeaderValue(headers: map<string, string>)
    | EntityValue(body: string)

  datatype UriInfo = UriInfo(query: Multimap, post: Multimap, headers: map<string, string>, entity: string)

  predicate IsPath(kind: ParamKind) {
    kind.StringArg? || kind.IntArg?
  }

  /** `NextIndex`: only path-typed parameters advance the index. */
  function NextIndex(kind: ParamKind, index: nat): nat {
    if IsPath(kind) then index + 1 else index
  }

  /** `GetParam`: a path parameter is parsed from its string, others are taken whole. */
  function GetParam(kind: ParamKind, params: seq<string>, index: nat, uri: UriInfo): Result<Argument>
    requires IsPath(kind) ==> index < |params|
  {
    match kind
    case StringArg => Ok(StringValue(params[index]))
    case IntArg(target) =>
      (match ParseInt(target, params[index])
       case Ok(v) => Ok(IntValue(v))
       case Err(e) => Err(e))
    case QueryArg => Ok(QueryValue(uri.query))
    case PostArg => Ok(PostValue(uri.post))
    case HeaderArg => Ok(HeaderValue(uri.headers))
    case EntityArg => Ok(EntityValue(uri.entity))
  }

  function PathCount(kinds: seq<ParamKind>): nat {
    if kinds == [] then 0 else NextIndex(kinds[0], PathCount(kinds[1..]))
  }

  /** `ExtractorHelper`: the first argument, then the others with the index passed on. */
  function Extract(kinds: seq<ParamKind>, index: nat, params: seq<string>, uri: UriInfo): Result<seq<Argument>>
    requires index + PathCount(kinds) <= |params|
    decreases kinds
  {
    if kinds == [] then Ok([])
    else
      match GetParam(kinds[0], params, index, uri)
      case Err(e) => Err(e)
      case Ok(first) =>
        match Extract(kinds[1..], NextIndex(kinds[0], index), params, uri)
        case Err(e) => Err(e)
        case Ok(others) => Ok([first] + others)
  }

  /** How many path-typed parameters come before position j. */
  function PathRank(kinds: seq<ParamKind>, j: nat): nat
    requires j <= |kinds|
  {
    PathCount(kinds[..j])
  }

  lemma RankOfTail(kinds: seq<ParamKind>, j: nat)
    requires kinds != [] && 1 <= j <= |kinds|
    ensures PathRank(kinds, j) == NextIndex(kinds[0], PathRank(kinds[1..], j - 1))
  {
    assert kinds[..j][1..] == kinds[1..][..j - 1];
  }

  /** A path-typed position ranks below the number of path-typed parameters: indexing is in range. */
  lemma {:induction false} RankInRange(kinds: seq<ParamKind>, j: nat)
    requires j < |kinds|
    ensures PathRank(kinds, j) <= PathCount(kinds)
    ensures IsPath(kinds[j]) ==> PathRank(kinds, j) < PathCount(kinds)
  {
    if j > 0 {
      RankInRange(kinds[1..], j - 1);
      RankOfTail(kinds, j);
    }
  }

  /** Every path-typed position indexes below n exactly when there are at most n of them. */
  lemma {:induction false} IndexesInRangeIff(kinds: seq<ParamKind>, n: nat)
    ensures PathCount(kinds) <= n <==> forall j | 0 <= j < |kinds| && IsPath(kinds[j]) :: PathRank(kinds, j) < n
  {
    if PathCount(kinds) <= n {
      forall j | 0 <= j < |kinds| && IsPath(kinds[j])
        ensures PathRank(kinds, j) < n
      {
        RankInRange(kinds, j);
      }
    } else {
      var j := LastPathPosition(kinds);
      assert IsPath(kinds[j]) && PathRank(kinds, j) >= n;
    }
  }

  lemma {:induction false} LastPathPosition(kinds: seq<ParamKind>) returns (j: nat)
    requires PathCount(kinds) > 0
    ensures j < |kinds| && IsPath(kinds[j]) && PathRank(kinds, j) == PathCount(kinds) - 1
  {
    if PathCount(kinds[1..]) > 0 {
      var k := LastPathPosition(kinds[1..]);
      j := k + 1;
      RankOfTail(kinds, j);
    } else {
      j := 0;
      assert kinds[..0] == [];
    }
  }

  /** What position j of a signature must receive, read off the signature alone. */
  predicate Delivers(kinds: seq<ParamKind>, params: seq<string>, uri: UriInfo, j: nat, arg: Argument)
    requires j < |kinds|
  {
    match kinds[j]
    case StringArg => PathRank(kinds, j) < |params| && arg == StringValue(params[PathRank(kinds, j)])
    case IntArg(target) =>
      && PathRank(kinds, j) < |params| && arg.IntValue?
      && ParseInt(target, params[PathRank(kinds, j)]) == Ok(arg.number)
    case QueryArg => arg == QueryValue(uri.query)
    case PostArg => arg == PostValue(uri.post)
    case HeaderArg => arg == HeaderValue(uri.headers)
    case EntityArg => arg == EntityValue(uri.entity)
  }

  lemma {:induction false} ExtractFrom(kinds: seq<ParamKind>, index: nat, params: seq<string>, uri: UriInfo,
                                       args: seq<Argument>)
    requires index + PathCount(kinds) <= |params|
    ensures Extract(kinds, index, params, uri) == Ok(args)
       <==> |args| == |kinds| && forall j :: 0 <= j < |kinds| ==> Delivers(kinds, params[index..], uri, j, args[j])
  {
    if kinds != [] {
      var next := NextIndex(kinds[0], index);
      if args != [] {
        ExtractFrom(kinds[1..], next, params, uri, args[1..]);
        assert args == [args[0]] + args[1..];
        DeliversFirst(kinds, index, params, uri, args[0]);
        if |args| == |kinds| {
          forall j | 1 <= j < |kinds|
            ensures Delivers(kinds, params[index..], uri, j, args[j])
               <==> Delivers(kinds[1..], params[next..], uri, j - 1, args[1..][j - 1])
          {
            DeliversTail(kinds, index, params, uri, j, args[j]);
          }
          assert forall j :: 0 <= j < |kinds[1..]| ==> args[1..][j] == args[j + 1];
        }
      }
    }
  }

  lemma DeliversFirst(kinds: seq<ParamKind>, index: nat, params: seq<string>, uri: UriInfo, arg: Argument)
    requires kinds != [] && index + PathCount(kinds) <= |params|
    ensures Delivers(kinds, params[index..], uri, 0, arg) <==> GetParam(kinds[0], params, index, uri) == Ok(arg)
  {
    assert kinds[..0] == [];
  }

  lemma DeliversTail(kinds: seq<ParamKind>, index: nat, params: seq<string>, uri: UriInfo, j: nat, arg: Argument)
    requires kinds != [] && index + PathCount(kinds) <= |params| && 1 <= j < |kinds|
    ensures Delivers(kinds, params[index..], uri, j, arg)
       <==> Delivers(kinds[1..], params[NextIndex(kinds[0], index)..], uri, j - 1, arg)
  {
    var next, r, r' := NextIndex(kinds[0], index), PathRank(kinds, j), PathRank(kinds[1..], j - 1);
    RankOfTail(kinds, j);
    RankInRange(kinds[1..], j - 1);
    assert kinds[1..][j - 1] == kinds[j];
    assert index + r == next + r';
    if IsPath(kinds[j]) {
      assert params[index..][r] == params[next..][r'];
    }
  }

  /**
    Parameter delivery: extraction succeeds with these arguments iff every position received its
    own parameter: the path-typed one preceded by k others gets captured parameter k, and no other
    kind consumes one.
   */
  lemma ExtractDelivers(kinds: seq<ParamKind>, params: seq<string>, uri: UriInfo, args: seq<Argument>)
    requires PathCount(kinds) <= |params|
    ensures Extract(kinds, 0, params, uri) == Ok(args)
       <==> |args| == |kinds| && forall j :: 0 <= j < |kinds| ==> Delivers(kinds, params, uri, j, args[j])
  {
    ExtractFrom(kinds, 0, params, uri, args);
    assert params[0..] == params;
  }

  /** Extraction fails iff some integer parameter refuses its captured string. */
  lemma {:induction false} ExtractFails(kinds: seq<ParamKind>, index: nat, params: seq<string>, uri: UriInfo)
    requires index + PathCount(kinds) <= |params|
    ensures Extract(kinds, index, params, uri).Err?
       <==> exists j :: 0 <= j < |kinds| && Refuses(kinds, params[index..], j)
  {
    if kinds != [] {
      var next := NextIndex(kinds[0], index);
      ExtractFails(kinds[1..], next, params, uri);
      RefusesFirst(kinds, index, params, uri);
      assert Extract(kinds, index, params, uri).Err?
        <==> Refuses(kinds, params[index..], 0) || Extract(kinds[1..], next, params, uri).Err?;
      RefusesLater(kinds, index, params);
    }
  }

  lemma RefusesFirst(kinds: seq<ParamKind>, index: nat, params: seq<string>, uri: UriInfo)
    requires kinds != [] && index + PathCount(kinds) <= |params|
    ensures Refuses(kinds, params[index..], 0) <==> GetParam(kinds[0], params, index, uri).Err?
  {
    assert kinds[..0] == [];
  }

  lemma RefusesLater(kinds: seq<ParamKind>, index: nat, params: seq<string>)
    requires kinds != [] && index + PathCount(kinds) <= |params|
    ensures var tail, rest := kinds[1..], params[NextIndex(kinds[0], index)..];
            (exists j :: 1 <= j < |kinds| && Refuses(kinds, params[index..], j))
              <==> (exists j :: 0 <= j < |tail| && Refuses(tail, rest, j))
  {
    hide Refuses, PathRank, Extract;
    var tail, rest := kinds[1..], params[NextIndex(kinds[0], index)..];
    forall j | 1 <= j < |kinds|
      ensures Refuses(kinds, params[index..], j) <==> Refuses(tail, rest, j - 1)
    {
      RefusesTail(kinds, index, params, j);
    }
    if j :| 0 <= j < |tail| && Refuses(tail, rest, j) {
      assert Refuses(kinds, params[index..], j + 1);
    }
  }

  lemma RefusesTail(kinds: seq<ParamKind>, index: nat, params: seq<string>, j: nat)
    requires kinds != [] && index + PathCount(kinds) <= |params| && 1 <= j < |kinds|
    ensures Refuses(kinds, params[index..], j)
       <==> Refuses(kinds[1..], params[NextIndex(kinds[0], index)..], j - 1)
  {
    var next, r, r' := NextIndex(kinds[0], index), PathRank(kinds, j), PathRank(kinds[1..], j - 1);
    RankOfTail(kinds, j);
    RankInRange(kinds[1..], j - 1);
    assert kinds[1..][j - 1] == kinds[j] && index + r == next + r';
    if IsPath(kinds[j]) {
      assert params[index..][r] == params[next..][r'];
    }
  }

  predicate Refuses(kinds: seq<ParamKind>, params: seq<string>, j: nat)
    requires j < |kinds|
  {
    kinds[j].IntArg? && PathRank(kinds, j) < |params| && ParseInt(kinds[j].target, params[PathRank(kinds, j)]).Err?
  }

  /** The position whose integer parameter is refused before any other, from left to right. */
  predicate FirstRefused(kinds: seq<ParamKind>, params: seq<string>, j: nat) {
    && j < |kinds| && Refuses(kinds, params, j)
    && forall i :: 0 <= i < j ==> !Refuses(kinds, params, i)
  }

  /** The exception is that of the first position refused. */
  lemma {:induction false} ExtractError(kinds: seq<ParamKind>, index: nat, params: seq<string>, uri: UriInfo)
    returns (j: nat)
    requires index + PathCount(kinds) <= |params| && Extract(kinds, index, params, uri).Err?
    ensures FirstRefused(kinds, params[index..], j)
    ensures ParseInt(kinds[j].target, params[index..][PathRank(kinds, j)])
         == Err(Extract(kinds, index, params, uri).error)
  {
    RefusesFirst(kinds, index, params, uri);
    if GetParam(kinds[0], params, index, uri).Err? {
      j := 0;
      assert kinds[..0] == [];
    } else {
      var next := NextIndex(kinds[0], index);
      var k := ExtractError(kinds[1..], next, params, uri);
      j := k + 1;
      RefusedTail(kinds, index, params, k);
    }
  }

  lemma RefusedTail(kinds: seq<ParamKind>, index: nat, params: seq<string>, k: nat)
    requires kinds != [] && index + PathCount(kinds) <= |params|
    requires FirstRefused(kinds[1..], params[NextIndex(kinds[0], index)..], k) && !Refuses(kinds, params[index..], 0)
    ensures FirstRefused(kinds, params[index..], k + 1) && kinds[k + 1] == kinds[1..][k]
    ensures var rest := params[NextIndex(kinds[0], index)..];
            params[index..][PathRank(kinds, k + 1)] == rest[PathRank(kinds[1..], k)]
  {
    hide PathRank, Refuses;
    forall i | 1 <= i < k + 2
      ensures Refuses(kinds, params[index..], i)
         <==> Refuses(kinds[1..], params[NextIndex(kinds[0], index)..], i - 1)
    {
      RefusesTail(kinds, index, params, i);
    }
    RankedTail(kinds, index, params, k);
  }

  lemma RankedTail(kinds: seq<ParamKind>, index: nat, params: seq<string>, k: nat)
    requires kinds != [] && index + PathCount(kinds) <= |params| && k < |kinds| - 1
    requires Refuses(kinds[1..], params[NextIndex(kinds[0], index)..], k)
    ensures PathRank(kinds, k + 1) < |params[index..]|
    ensures var rest := params[NextIndex(kinds[0], index)..];
            params[index..][PathRank(kinds, k + 1)] == rest[PathRank(kinds[1..], k)]
  {
    hide ParseInt, PathCount, PathRank;
    RankOfTail(kinds, k + 1);
    RankInRange(kinds, k + 1);
    assert index + PathRank(kinds, k + 1) == NextIndex(kinds[0], index) + PathRank(kinds[1..], k);
  }

  /** Exactly the string and integer parameters take a capture, one each. */
  lemma {:induction false} PathCountAdds(kinds: seq<ParamKind>, kind: ParamKind)
    ensures PathCount([]) == 0
    ensures PathCount(kinds + [kind]) == PathCount(kinds) + if kind.StringArg? || kind.IntArg? then 1 else 0
  {
    if kinds == [] {
      assert kinds + [kind] == [kind] && [kind][1..] == [];
    } else {
      PathCountAdds(kinds[1..], kind);
      assert (kinds + [kind])[1..] == kinds[1..] + [kind];
    }
  }
}
