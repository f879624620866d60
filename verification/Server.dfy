/** From a finished request to a response: build, match, dispatch, and what failures become. */
module Server {
  import opened Wrappers
  import opened Templates
  import opened Extractor
  import opened Responses
  import opened Registry
  import opened Matching
  import opened ResourceMatching
  import opened RequestBuilding
  import opened IntParam

  /** `dispatch`: the bound method for the request's verb. */
  function MethodFor(methods: Methods, verb: HttpMethod): Method {
    match verb
    case GET => methods.get
    case PUT => methods.put
    case POST => methods.post
    case DELETE => methods.del
  }

  function PathArity(m: Method): nat {
    match m
    case Unbound => 0
    case Bound(signature, _) => PathCount(signature)
  }

  /** Calling a bound method: its arguments are extracted, then its body runs. */
  function Invoke(m: Method, params: seq<string>, uri: UriInfo): Result<Response>
    requires PathArity(m) <= |params|
  {
    match m
    case Unbound => Err(BadFunctionCall("bad_function_call"))
    case Bound(signature, body) =>
      match Extract(signature, 0, params, uri)
      case Err(e) => Err(e)
      case Ok(args) => body(args)
  }

  /** Every exception on the way becomes a 500 with its message as the body. */
  function Answer(r: Result<Response>): Response {
    match r
    case Ok(response) => response
    case Err(e) => Response(InternalError, TextPlain, e.what)
  }

  /**
    Whatever `match` may return on this request, the handler for its verb takes no more path
    parameters than were captured. The code relies on it and does not check it.
   */
  ghost predicate CanAnswer(log: Log, req: Request) {
    forall m | MayReturn(TableOf(log), Components(req.path), Some(m)) ::
      PathArity(MethodFor(m.methods, req.verb)) <= |m.parameters|
  }

  /** What `get_response` may answer, from what is registered and from the request. */
  ghost predicate MayRespond(log: Log, built: Result<Request>, response: Response)
    requires built.Ok? ==> CanAnswer(log, built.value)
  {
    match built
    case Err(e) => response == Answer(Err(e))
    case Ok(req) =>
      var cs := Components(req.path);
      || (MayReturn(TableOf(log), cs, None) && response == Bare(NotFound))
      || exists m :: MayReturn(TableOf(log), cs, Some(m))
                     && response == Answer(Invoke(MethodFor(m.methods, req.verb), m.parameters, req.uri))
  }

  /**
    Indexing stays within the captures exactly when, of the registered templates that lead on the path,
    none has a handler for the verb that takes more path parameters than the template has variables.
   */
  lemma CanAnswerIff(log: Log, req: Request)
    ensures var table, cs := TableOf(log), Components(req.path);
            CanAnswer(log, req) <==>
              forall t | t in table && Matches(t, cs) && Leads(table, cs, t) ::
                var m := MethodFor(table[t].methods, req.verb);
                m.Bound? ==> PathCount(m.signature) <= VariableCount(t)
  {
    hide MayReturn, Leads;
    var table, cs := TableOf(log), Components(req.path);
    if CanAnswer(log, req) {
      forall t | t in table && Matches(t, cs) && Leads(table, cs, t)
        ensures var m := MethodFor(table[t].methods, req.verb);
                m.Bound? ==> PathCount(m.signature) <= VariableCount(t)
      {
        LeadsOnNonEmptyPath(table, cs, t);
        CapturesCount(t, cs);
        MayReturnIff(log, cs, t);
      }
    } else {
      var m :| MayReturn(table, cs, Some(m)) && PathArity(MethodFor(m.methods, req.verb)) > |m.parameters|;
      var t := MatchIsRegistered(table, cs, Some(m));
      MayReturnIff(log, cs, t);
    }
  }

  lemma LeadsOnNonEmptyPath(table: Table, cs: seq<string>, t: Template)
    requires Leads(table, cs, t)
    ensures cs != []
  {
  }

  /** It is enough that the registered routes that match the path have handlers that fit their templates. */
  lemma MatchingRoutesFit(log: Log, req: Request)
    requires forall e | e in log && Matches(KeyOf(e), Components(req.path)) ::
               PathArity(MethodFor(e.methods, req.verb)) <= VariableCount(KeyOf(e))
    ensures CanAnswer(log, req)
  {
    hide MayReturn;
    forall t | t in TableOf(log) && Matches(t, Components(req.path))
      ensures PathArity(MethodFor(TableOf(log)[t].methods, req.verb)) <= VariableCount(t)
    {
      TableEntries(log, t);
    }
    CanAnswerIff(log, req);
  }

  /** `get_response`. */
  method GetResponse(builder: RequestBuilder, matcher: ResourceMatcher, code: int, parsed: Option<UrlFields>)
    returns (response: Response)
    requires matcher.Valid()
    requires parsed.Some? ==> Within(builder.url, parsed.value.path) && Within(builder.url, parsed.value.query)
    requires var built := RequestOf(builder.url, builder.body, builder.headers, code, parsed);
             built.Ok? ==> CanAnswer(matcher.log, built.value)
    ensures MayRespond(matcher.log, RequestOf(builder.url, builder.body, builder.headers, code, parsed), response)
  {
    hide RequestOf, MayReturn;
    var built := builder.Build(code, parsed);
    if built.Err? {
      return Response(InternalError, TextPlain, built.error.what);
    }
    var req := built.value;
    var found := matcher.Match(req.path);
    if found.None? {
      return Bare(NotFound);
    }
    assert found == Some(found.value);
    var outcome := Invoke(MethodFor(found.value.methods, req.verb), found.value.parameters, req.uri);
    match outcome {
      case Ok(r) => return r;
      case Err(e) => return Response(InternalError, TextPlain, e.what);
    }
  }

  /**
    `message_complete`: the response is serialized and written. A reader of the bytes gets back a
    response that the registrations and the request allow, and nothing else.
   */
  method MessageComplete(builder: RequestBuilder, matcher: ResourceMatcher, code: int, parsed: Option<UrlFields>)
    returns (bytes: string)
    requires matcher.Valid()
    requires parsed.Some? ==> Within(builder.url, parsed.value.path) && Within(builder.url, parsed.value.query)
    requires var built := RequestOf(builder.url, builder.body, builder.headers, code, parsed);
             built.Ok? ==> CanAnswer(matcher.log, built.value)
    ensures Read(bytes).Some? && Read(bytes).value.1 == ""
    ensures bytes == Render(Read(bytes).value.0)
    ensures var built := RequestOf(builder.url, builder.body, builder.headers, code, parsed);
            MayRespond(matcher.log, built, Read(bytes).value.0)
    ensures var built := RequestOf(builder.url, builder.body, builder.headers, code, parsed);
            && (built.Err? ==> Read(bytes).value.0 == Response(InternalError, TextPlain, built.error.what))
            && (built.Ok? && (forall e | e in matcher.log :: !Matches(KeyOf(e), Components(built.value.path))) ==>
                  Read(bytes).value.0 == Response(NotFound, TextPlain, ""))
  {
    hide Read, Render, RequestOf, MayRespond;
    var response := GetResponse(builder, matcher, code, parsed);
    PlainAnswers(matcher.log, RequestOf(builder.url, builder.body, builder.headers, code, parsed), response);
    bytes := ToString(response);
    ReadRender(response, "");
    assert bytes + "" == bytes;
  }

  /** A request that could not be built is answered by a 500 with the reason, and nothing else. */
  lemma FailedBuild(log: Log, error: Exception, response: Response)
    ensures MayRespond(log, Err(error), response)
       <==> response.code == InternalError && response.media == TextPlain && response.content == error.what
  {
  }

  /** Nothing registered matches the path: the answer is an empty 404, and nothing else. */
  lemma NotFoundWhenUnmatched(log: Log, req: Request, response: Response)
    requires forall e | e in log :: !Matches(KeyOf(e), Components(req.path))
    ensures CanAnswer(log, req)
    ensures MayRespond(log, Ok(req), response)
       <==> response.code == NotFound && response.media == TextPlain && response.content == ""
  {
    hide MayReturn;
    var table, cs := TableOf(log), Components(req.path);
    forall t | t in table
      ensures !Matches(t, cs)
    {
      TableEntries(log, t);
    }
    forall result | MayReturn(table, cs, result)
      ensures result == None
    {
      NoMatchIff(table, cs, result);
    }
    var result := SomeReturn(table, cs);
  }

  lemma PlainAnswers(log: Log, built: Result<Request>, response: Response)
    requires (built.Ok? ==> CanAnswer(log, built.value)) && MayRespond(log, built, response)
    ensures built.Err? ==> response == Response(InternalError, TextPlain, built.error.what)
    ensures built.Ok? && (forall e | e in log :: !Matches(KeyOf(e), Components(built.value.path)))
        ==> response == Response(NotFound, TextPlain, "")
  {
    hide MayRespond, CanAnswer;
    match built
    case Err(e) => FailedBuild(log, e, response);
    case Ok(req) =>
      if forall e | e in log :: !Matches(KeyOf(e), Components(req.path)) {
        NotFoundWhenUnmatched(log, req, response);
      }
  }

  /** The request component a path argument must come from: the variable slot of the same rank. */
  predicate FromPath(t: Template, cs: seq<string>, rank: nat, text: string) {
    |t| == |cs| && exists i :: 0 <= i < |t| && SlotOfRank(t, i, rank) && cs[i] == text
  }

  predicate SlotOfRank(t: Template, i: nat, rank: nat) {
    i < |t| && t[i] == Variable && VariableCount(t[..i]) == rank
  }

  /** What a handler's argument must be, read off its signature, the template and the request. */
  ghost predicate Received(signature: seq<ParamKind>, t: Template, req: Request, j: nat, arg: Argument)
    requires j < |signature|
  {
    var cs := Components(req.path);
    match signature[j]
    case StringArg => arg.StringValue? && FromPath(t, cs, PathRank(signature, j), arg.text)
    case IntArg(target) =>
      arg.IntValue? && exists text ::
        FromPath(t, cs, PathRank(signature, j), text) && ParseInt(target, text) == Ok(arg.number)
    case QueryArg => arg == QueryValue(req.uri.query)
    case PostArg => arg == PostValue(req.uri.post)
    case HeaderArg => arg == HeaderValue(req.uri.headers)
    case EntityArg => arg == EntityValue(req.uri.entity)
  }

  lemma DeliveredIsReceived(signature: seq<ParamKind>, t: Template, req: Request, j: nat, arg: Argument)
    requires j < |signature| && |t| == |Components(req.path)| && PathCount(signature) <= VariableCount(t)
    requires Delivers(signature, Captures(t, Components(req.path)), req.uri, j, arg)
    ensures Received(signature, t, req, j, arg)
  {
    var cs, k := Components(req.path), PathRank(signature, j);
    if IsPath(signature[j]) {
      CapturesCount(t, cs);
      var i := VariableSlotOfRank(t, k);
      CaptureAt(t, cs, i);
      assert SlotOfRank(t, i, k) && cs[i] == Captures(t, cs)[k];
      assert FromPath(t, cs, k, Captures(t, cs)[k]);
    }
  }

  /** The response of a handler that returned one, or a 500 with the message of what it threw. */
  ghost predicate Returned(result: Result<Response>, response: Response) {
    match result
    case Ok(r) => response == r
    case Err(e) => response == Response(InternalError, TextPlain, e.what)
  }

  /** The matched resource's own handler for the verb, and what it makes of the request. */
  ghost predicate Handled(m: Method, t: Template, req: Request, args: seq<Argument>, response: Response)
    requires |t| == |Components(req.path)|
  {
    match m
    case Unbound => response == Response(InternalError, TextPlain, "bad_function_call")
    case Bound(signature, body) =>
      var params := Captures(t, Components(req.path));
      if exists j :: 0 <= j < |signature| && Refuses(signature, params, j)
      then exists j: nat :: FirstRefused(signature, params, j)
                       && Returned(Err(ParseInt(signature[j].target, params[PathRank(signature, j)]).error), response)
      else
        && |args| == |signature| && Returned(body(args), response)
        && forall j | 0 <= j < |args| :: Received(signature, t, req, j, args[j])
  }

  /**
    End to end: whatever is answered to a request that some registered template matches, it comes from
    the matched resource's own handler for the verb, and each argument arrived where the signature and
    the template say; or an integer parameter refuses the component it was given, or no handler is
    bound, and the answer is a 500.
   */
  lemma RequestReachesHandler(log: Log, req: Request, response: Response)
    returns (t: Template, m: Method, args: seq<Argument>)
    requires CanAnswer(log, req) && MayRespond(log, Ok(req), response)
    requires Components(req.path) != [] && exists u :: u in TableOf(log) && Matches(u, Components(req.path))
    ensures t in TableOf(log) && Matches(t, Components(req.path))
    ensures MayReturn(TableOf(log), Components(req.path), Some(MatchAt(TableOf(log), Components(req.path), t)))
    ensures var own := TableOf(log)[t].methods;
            && (req.verb == GET ==> m == own.get) && (req.verb == PUT ==> m == own.put)
            && (req.verb == POST ==> m == own.post) && (req.verb == DELETE ==> m == own.del)
    ensures Handled(m, t, req, args, response)
  {
    hide MayReturn, Extract;
    var table, cs := TableOf(log), Components(req.path);
    if MayReturn(table, cs, None) {
      NoMatchIff(table, cs, None);
      assert false;
    }
    var found :| MayReturn(table, cs, Some(found))
                 && response == Answer(Invoke(MethodFor(found.methods, req.verb), found.parameters, req.uri));
    t := MatchIsRegistered(table, cs, Some(found));
    m := MethodFor(found.methods, req.verb);
    args := InvokedIsHandled(m, t, req, response);
  }

  lemma InvokedIsHandled(m: Method, t: Template, req: Request, response: Response) returns (args: seq<Argument>)
    requires Matches(t, Components(req.path)) && PathArity(m) <= |Captures(t, Components(req.path))|
    requires response == Answer(Invoke(m, Captures(t, Components(req.path)), req.uri))
    ensures Handled(m, t, req, args, response)
  {
    args := [];
    if m.Bound? {
      var params := Captures(t, Components(req.path));
      CapturesCount(t, Components(req.path));
      ExtractFails(m.signature, 0, params, req.uri);
      assert params[0..] == params;
      match Extract(m.signature, 0, params, req.uri) {
        case Err(_) =>
          var j := ExtractError(m.signature, 0, params, req.uri);
        case Ok(found) =>
          args := found;
          ExtractDelivers(m.signature, params, req.uri, args);
          forall j | 0 <= j < |args|
            ensures Received(m.signature, t, req, j, args[j])
          {
            DeliveredIsReceived(m.signature, t, req, j, args[j]);
          }
      }
    }
  }

  /** From callbacks to handler: what a header argument holds, whatever the callbacks were. */
  lemma {:induction false} HeaderArgument(builder: RequestBuilder, hs: seq<Fragmented>, name: seq<string>, code: int,
                                          parsed: Option<UrlFields>, signature: seq<ParamKind>, t: Template,
                                          j: nat, arg: Argument)
    requires builder.Valid() && builder.trace == EventsOf(hs) + FieldEvents(name)
    requires forall i :: 0 <= i < |hs| ==> Complete(hs[i])
    requires parsed.Some? ==> Within(builder.url, parsed.value.path) && Within(builder.url, parsed.value.query)
    requires j < |signature| && signature[j] == HeaderArg
    requires var built := RequestOf(builder.url, builder.body, builder.headers, code, parsed);
             built.Ok? && Received(signature, t, built.value, j, arg)
    ensures arg == HeaderValue(LastWins(Followed(HeadersOf(hs), name != [])))
  {
    hide LastWins, HeadersOf, EventsOf, FieldEvents, Followed;
    BuiltRequest(builder, hs, name, code, parsed);
  }
}
