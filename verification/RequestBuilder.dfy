/** Building a request from the HTTP parser's callbacks. */
module RequestBuilding {
  import opened Wrappers
  import opened Text
  import opened Query
  import opened Extractor

  datatype HttpMethod = GET | PUT | POST | DELETE

  datatype Request = Request(path: string, verb: HttpMethod, uri: UriInfo)

  /** A part of the URL, as the URL parser reports it. */
  datatype Slice = Slice(off: nat, len: nat)

  datatype UrlFields = UrlFields(path: Option<Slice>, query: Option<Slice>)

  datatype HeaderState = INIT | VALUE | FIELD

  /** The header side of the builder: completed headers, and the buffers of the pending one. */
  datatype Headers = Headers(state: HeaderState, name: string, value: string, completed: map<string, string>)

  const NO_HEADERS: Headers := Headers(INIT, "", "", map[])

  /** A header callback: a fragment of a name or of a value. */
  datatype Event = FieldEvent(text: string) | ValueEvent(text: string)

  /** One callback; the flag says whether it was accepted. */
  function Step(h: Headers, e: Event): (Headers, bool) {
    match (e, h.state)
    case (FieldEvent(s), VALUE) => (Headers(FIELD, s, "", h.completed[h.name := h.value]), true)
    case (FieldEvent(s), _) => (h.(state := FIELD, name := h.name + s), true)
    case (ValueEvent(s), INIT) => (h, false)
    case (ValueEvent(s), _) => (h.(state := VALUE, value := h.value + s), true)
  }

  /** A run of callbacks, which stops at the first one that is refused. */
  function Run(h: Headers, events: seq<Event>): (Headers, bool)
    decreases events
  {
    if events == [] then (h, true)
    else
      var (next, accepted) := Step(h, events[0]);
      if accepted then Run(next, events[1..]) else (next, false)
  }

  function ConvertMethod(code: int): Result<HttpMethod> {
    if code == 0 then Ok(DELETE)
    else if code == 1 then Ok(GET)
    else if code == 3 then Ok(POST)
    else if code == 4 then Ok(PUT)
    else Err(RuntimeError("Invalid method"))
  }

  predicate Within(url: string, s: Option<Slice>) {
    s.Some? ==> s.value.off + s.value.len <= |url|
  }

  function Cut(url: string, s: Slice): string
    requires Within(url, Some(s))
  {
    url[s.off..s.off + s.len]
  }

  /** The request that accumulated data stand for; headers are the completed ones. */
  function RequestOf(url: string, body: string, headers: map<string, string>, code: int,
                     parsed: Option<UrlFields>): Result<Request>
    requires parsed.Some? ==> Within(url, parsed.value.path) && Within(url, parsed.value.query)
  {
    match (parsed, ConvertMethod(code))
    case (None, _) => Err(RuntimeError("Error parsing url"))
    case (Some(_), Err(e)) => Err(e)
    case (Some(fields), Ok(verb)) =>
      var path := if fields.path.Some? then Cut(url, fields.path.value) else "/";
      var query := if fields.query.Some? then multiset(QueryPairs(Cut(url, fields.query.value))) else multiset{};
      var post := if verb == POST then multiset(QueryPairs(body)) else multiset{};
      Ok(Request(path, verb, UriInfo(query, post, headers, body)))
  }

  /**
    What the parts stand for: of a URL that has a path, a question mark and a text for some pairs in it,
    cut where the URL parser cuts it, and of a body that is a text for some pairs, the request keeps that
    path and those pairs, the body's for POST only. The verb is the one of the parser's code.
   */
  lemma {:induction false} RequestRoundTrip(prefix: string, path: string, text: string, rest: string, body: string,
                                            query: seq<Pair>, form: seq<Pair>, headers: map<string, string>,
                                            code: int, verb: HttpMethod)
    requires (code, verb) in {(0, DELETE), (1, GET), (3, POST), (4, PUT)}
    requires QueryText(text, query) && QueryText(body, form)
    ensures var parsed := UrlFields(Some(Slice(|prefix|, |path|)), Some(Slice(|prefix| + |path| + 1, |text|)));
            RequestOf(prefix + path + "?" + text + rest, body, headers, code, Some(parsed))
              == Ok(Request(path, verb, UriInfo(multiset(query), if verb == POST then multiset(form) else multiset{},
                                                headers, body)))
  {
    hide QueryPairs, QueryText;
    QueryRoundTrip(text, query);
    QueryRoundTrip(body, form);
    CutUrl(prefix, path, text, rest);
  }

  lemma CutUrl(prefix: string, path: string, text: string, rest: string)
    ensures var url := prefix + path + "?" + text + rest;
            var p, q := Slice(|prefix|, |path|), Slice(|prefix| + |path| + 1, |text|);
            && Within(url, Some(p)) && Cut(url, p) == path
            && Within(url, Some(q)) && Cut(url, q) == text
  {
  }

  class RequestBuilder {
    var hstate: HeaderState
    var hname: string
    var hvalue: string
    var headers: map<string, string>
    var url: string
    var body: string
    /** The callbacks accepted so far: header events, and fragments of the URL and of the body. */
    ghost var trace: seq<Event>
    ghost var urlTrace: seq<string>
    ghost var bodyTrace: seq<string>

    ghost predicate Valid()
      reads this
    {
      && Run(NO_HEADERS, trace) == (HeaderPart(), true)
      && url == Concat(urlTrace)
      && body == Concat(bodyTrace)
    }

    constructor ()
      ensures Valid() && trace == [] && urlTrace == [] && bodyTrace == []
    {
      hstate, hname, hvalue, headers := INIT, "", "", map[];
      url, body := "", "";
      trace, urlTrace, bodyTrace := [], [], [];
    }

    function HeaderPart(): Headers
      reads this
    {
      Headers(hstate, hname, hvalue, headers)
    }

    method OnUrl(text: string) returns (rc: int)
      requires Valid()
      modifies this`url, this`urlTrace
      ensures Valid() && rc == 0 && url == old(url) + text && urlTrace == old(urlTrace) + [text]
    {
      url := url + text;
      ConcatExtended(urlTrace, text);
      urlTrace := urlTrace + [text];
      return 0;
    }

    method OnBody(text: string) returns (rc: int)
      requires Valid()
      modifies this`body, this`bodyTrace
      ensures Valid() && rc == 0 && body == old(body) + text && bodyTrace == old(bodyTrace) + [text]
    {
      body := body + text;
      ConcatExtended(bodyTrace, text);
      bodyTrace := bodyTrace + [text];
      return 0;
    }

    method OnHeaderField(text: string) returns (rc: int)
      requires Valid()
      modifies this`hstate, this`hname, this`hvalue, this`headers, this`trace
      ensures Valid() && rc == 0 && trace == old(trace) + [FieldEvent(text)]
      ensures HeaderPart() == Step(old(HeaderPart()), FieldEvent(text)).0
    {
      match hstate {
        case INIT =>
          hname := hname + text;
        case VALUE =>
          headers := headers[hname := hvalue];
          hname, hvalue := "", "";
          hname := hname + text;
          assert "" + text == text;
        case FIELD =>
          hname := hname + text;
      }
      hstate := FIELD;
      RunExtended(trace, FieldEvent(text));
      trace := trace + [FieldEvent(text)];
      return 0;
    }

    method OnHeaderValue(text: string) returns (rc: int)
      requires Valid()
      modifies this`hstate, this`hvalue, this`trace
      ensures Valid() && rc == (if old(hstate) == INIT then 1 else 0)
      ensures trace == if rc == 0 then old(trace) + [ValueEvent(text)] else old(trace)
      ensures HeaderPart() == Step(old(HeaderPart()), ValueEvent(text)).0
    {
      match hstate {
        case INIT =>
          return 1;
        case VALUE =>
          hvalue := hvalue + text;
        case FIELD =>
          hvalue := hvalue + text;
      }
      hstate := VALUE;
      RunExtended(trace, ValueEvent(text));
      trace := trace + [ValueEvent(text)];
      return 0;
    }

    /** `build`: the URL's parts are given as the URL parser reports them, or not at all if it fails. */
    method Build(code: int, parsed: Option<UrlFields>) returns (r: Result<Request>)
      requires parsed.Some? ==> Within(url, parsed.value.path) && Within(url, parsed.value.query)
      ensures r == RequestOf(url, body, headers, code, parsed)
      ensures parsed.None? ==> r == Err(RuntimeError("Error parsing url"))
      ensures parsed.Some? && code !in {0, 1, 3, 4} ==> r == Err(RuntimeError("Invalid method"))
      ensures parsed.Some? && code in {0, 1, 3, 4} ==> r.Ok?
      ensures r.Ok? ==>
                var req, fields := r.value, parsed.value;
                && (code, req.verb) in {(0, DELETE), (1, GET), (3, POST), (4, PUT)}
                && (fields.path.None? ==> req.path == "/")
                && (fields.path.Some? ==> var s := fields.path.value; req.path == url[s.off..s.off + s.len])
                && (fields.query.None? ==> req.uri.query == multiset{})
                && (fields.query.Some? ==>
                      var s := fields.query.value; req.uri.query == multiset(QueryPairs(url[s.off..s.off + s.len])))
                && req.uri.post == (if code == 3 then multiset(QueryPairs(body)) else multiset{})
                && req.uri.headers == headers && req.uri.entity == body
    {
      if parsed.None? {
        return Err(RuntimeError("Error parsing url"));
      }
      var path := "/";
      if parsed.value.path.Some? {
        path := Cut(url, parsed.value.path.value);
      }
      var queryParams: Multimap := multiset{};
      if parsed.value.query.Some? {
        queryParams := ParseQueryParameters(Cut(url, parsed.value.query.value));
      }
      var postParams: Multimap := multiset{};
      var converted := ConvertMethod(code);
      if converted.Err? {
        return Err(converted.error);
      }
      if converted.value == POST {
        postParams := ParseQueryParameters(body);
      }
      return Ok(Request(path, converted.value, UriInfo(queryParams, postParams, headers, body)));
    }
  }

  // ---------- what a callback trace means ----------

  /** A header as it arrives: its name in one or more fragments, then its value likewise. */
  datatype Fragmented = Fragmented(fields: seq<string>, values: seq<string>)

  predicate Complete(h: Fragmented) {
    h.fields != [] && h.values != []
  }

  function Concat(fragments: seq<string>): string {
    if fragments == [] then "" else fragments[0] + Concat(fragments[1..])
  }

  lemma {:induction false} ConcatExtended(fragments: seq<string>, text: string)
    ensures Concat(fragments + [text]) == Concat(fragments) + text
  {
    if fragments == [] {
      assert text + "" == text && [] + [text] == [text] && [text][1..] == [];
    } else {
      ConcatExtended(fragments[1..], text);
      assert (fragments + [text])[1..] == fragments[1..] + [text];
      ConcatIsAssociative(fragments[0], Concat(fragments[1..]), text);
    }
  }

  function HeaderOf(h: Fragmented): (string, string) {
    (Concat(h.fields), Concat(h.values))
  }

  function FieldEvents(fragments: seq<string>): seq<Event> {
    if fragments == [] then [] else [FieldEvent(fragments[0])] + FieldEvents(fragments[1..])
  }

  function ValueEvents(fragments: seq<string>): seq<Event> {
    if fragments == [] then [] else [ValueEvent(fragments[0])] + ValueEvents(fragments[1..])
  }

  function EventsOf(hs: seq<Fragmented>): seq<Event> {
    if hs == [] then []
    else EventsOf(hs[..|hs| - 1]) + FieldEvents(hs[|hs| - 1].fields) + ValueEvents(hs[|hs| - 1].values)
  }

  /** The headers in order, a repeated name keeping its last value. */
  function LastWins(headers: seq<(string, string)>): map<string, string> {
    if headers == [] then map[]
    else
      var last := headers[|headers| - 1];
      LastWins(headers[..|headers| - 1])[last.0 := last.1]
  }

  function HeadersOf(hs: seq<Fragmented>): seq<(string, string)> {
    seq(|hs|, i requires 0 <= i < |hs| => HeaderOf(hs[i]))
  }

  /** The builder after some headers: all but the last completed, the last one pending. */
  function Settled(headers: seq<(string, string)>): Headers {
    if headers == [] then NO_HEADERS
    else
      var last := headers[|headers| - 1];
      Headers(VALUE, last.0, last.1, LastWins(headers[..|headers| - 1]))
  }

  /** The builder after some headers and the name of another, whose value has not begun. */
  function Naming(headers: seq<(string, string)>, name: string): Headers {
    Headers(FIELD, name, "", LastWins(headers))
  }

  lemma {:induction false} RunConcat(h: Headers, es: seq<Event>, es': seq<Event>)
    ensures Run(h, es + es') == if Run(h, es).1 then Run(Run(h, es).0, es') else Run(h, es)
    decreases es
  {
    if es == [] {
      assert es + es' == es';
    } else {
      assert (es + es')[1..] == es[1..] + es';
      if Step(h, es[0]).1 {
        RunConcat(Step(h, es[0]).0, es[1..], es');
      }
    }
  }

  lemma RunExtended(trace: seq<Event>, e: Event)
    requires Run(NO_HEADERS, trace).1
    ensures Run(NO_HEADERS, trace + [e]) == Step(Run(NO_HEADERS, trace).0, e)
  {
    var h := Run(NO_HEADERS, trace).0;
    RunConcat(NO_HEADERS, trace, [e]);
    assert [e][1..] == [];
    assert Run(h, [e]) == Step(h, e);
  }

  lemma {:induction false} RunFields(h: Headers, fragments: seq<string>)
    requires h.state == FIELD
    ensures Run(h, FieldEvents(fragments)) == (h.(name := h.name + Concat(fragments)), true)
    decreases fragments
  {
    if fragments == [] {
      assert h.name + "" == h.name;
    } else {
      var next := h.(name := h.name + fragments[0]);
      RunFields(next, fragments[1..]);
      assert h.name + (fragments[0] + Concat(fragments[1..])) == next.name + Concat(fragments[1..]);
      assert FieldEvents(fragments)[1..] == FieldEvents(fragments[1..]);
    }
  }

  lemma {:induction false} RunValues(h: Headers, fragments: seq<string>)
    requires h.state == VALUE
    ensures Run(h, ValueEvents(fragments)) == (h.(value := h.value + Concat(fragments)), true)
    decreases fragments
  {
    if fragments == [] {
      assert h.value + "" == h.value;
    } else {
      var next := h.(value := h.value + fragments[0]);
      RunValues(next, fragments[1..]);
      assert h.value + (fragments[0] + Concat(fragments[1..])) == next.value + Concat(fragments[1..]);
      assert ValueEvents(fragments)[1..] == ValueEvents(fragments[1..]);
    }
  }

  /** The name fragments of the next header complete the pending one and gather the new name. */
  lemma RunName(headers: seq<(string, string)>, fragments: seq<string>)
    requires fragments != []
    ensures Run(Settled(headers), FieldEvents(fragments)) == (Naming(headers, Concat(fragments)), true)
  {
    var h := Settled(headers);
    var (next, accepted) := Step(h, FieldEvent(fragments[0]));
    assert accepted && next == Naming(headers, fragments[0]) by {
      assert headers == [] ==> "" + fragments[0] == fragments[0];
    }
    RunFields(next, fragments[1..]);
    assert FieldEvents(fragments)[1..] == FieldEvents(fragments[1..]);
  }

  lemma RunValue(headers: seq<(string, string)>, name: string, fragments: seq<string>)
    requires fragments != []
    ensures Run(Naming(headers, name), ValueEvents(fragments)) == (Settled(headers + [(name, Concat(fragments))]), true)
  {
    var h := Naming(headers, name);
    var next := h.(state := VALUE, value := fragments[0]);
    assert "" + fragments[0] == fragments[0];
    assert Step(h, ValueEvent(fragments[0])) == (next, true);
    RunValues(next, fragments[1..]);
    assert ValueEvents(fragments)[1..] == ValueEvents(fragments[1..]);
    assert (headers + [(name, Concat(fragments))])[..|headers|] == headers;
  }

  /** Fragmentation does not matter: only the concatenated names and values do. */
  lemma {:induction false} RunHeaders(hs: seq<Fragmented>)
    requires forall i :: 0 <= i < |hs| ==> Complete(hs[i])
    ensures Run(NO_HEADERS, EventsOf(hs)) == (Settled(HeadersOf(hs)), true)
  {
    if hs != [] {
      var n := |hs| - 1;
      var front, last := hs[..n], hs[n];
      RunHeaders(front);
      RunName(HeadersOf(front), last.fields);
      RunValue(HeadersOf(front), Concat(last.fields), last.values);
      RunConcat(NO_HEADERS, EventsOf(front), FieldEvents(last.fields));
      RunConcat(NO_HEADERS, EventsOf(front) + FieldEvents(last.fields), ValueEvents(last.values));
      assert HeadersOf(hs) == HeadersOf(front) + [HeaderOf(last)];
    }
  }

  /** Likewise when the trace breaks off inside a name. */
  lemma {:induction false} RunHeadersAndName(hs: seq<Fragmented>, name: seq<string>)
    requires (forall i :: 0 <= i < |hs| ==> Complete(hs[i])) && name != []
    ensures Run(NO_HEADERS, EventsOf(hs) + FieldEvents(name)) == (Naming(HeadersOf(hs), Concat(name)), true)
  {
    RunHeaders(hs);
    RunName(HeadersOf(hs), name);
    RunConcat(NO_HEADERS, EventsOf(hs), FieldEvents(name));
  }

  /** Once a header has begun, no callback is refused. */
  lemma {:induction false} RunAccepts(h: Headers, events: seq<Event>)
    requires h.state != INIT
    ensures Run(h, events).1
    decreases events
  {
    if events != [] {
      RunAccepts(Step(h, events[0]).0, events[1..]);
    }
  }

  /** A trace is refused iff it opens with a value, and then nothing has changed. */
  lemma TraceRefusedIff(events: seq<Event>)
    ensures !Run(NO_HEADERS, events).1 <==> events != [] && events[0].ValueEvent?
    ensures !Run(NO_HEADERS, events).1 ==> Run(NO_HEADERS, events).0 == NO_HEADERS
  {
    if events != [] && events[0].FieldEvent? {
      RunAccepts(Step(NO_HEADERS, events[0]).0, events[1..]);
    }
  }

  /** Every accepted trace is a list of fragmented headers, and perhaps the beginning of a name. */
  lemma {:induction false} TraceIsHeaders(events: seq<Event>) returns (hs: seq<Fragmented>, name: seq<string>)
    requires events == [] || events[0].FieldEvent?
    ensures forall i :: 0 <= i < |hs| ==> Complete(hs[i])
    ensures events == EventsOf(hs) + FieldEvents(name)
  {
    if events == [] {
      hs, name := [], [];
    } else {
      var n := |events| - 1;
      var front, last := events[..n], events[n];
      hs, name := TraceIsHeaders(front);
      assert events == front + [last];
      match last
      case FieldEvent(s) =>
        FieldEventsConcat(name, s);
        name := name + [s];
      case ValueEvent(s) =>
        hs := MoreValue(hs, name, s);
        name := [];
    }
  }

  lemma {:induction false} FieldEventsConcat(fragments: seq<string>, s: string)
    ensures FieldEvents(fragments + [s]) == FieldEvents(fragments) + [FieldEvent(s)]
  {
    if fragments != [] {
      FieldEventsConcat(fragments[1..], s);
      assert (fragments + [s])[1..] == fragments[1..] + [s];
    }
  }

  lemma {:induction false} ValueEventsConcat(fragments: seq<string>, s: string)
    ensures ValueEvents(fragments + [s]) == ValueEvents(fragments) + [ValueEvent(s)]
  {
    if fragments != [] {
      ValueEventsConcat(fragments[1..], s);
      assert (fragments + [s])[1..] == fragments[1..] + [s];
    }
  }

  /** A value fragment after such a trace continues the last header's value, or begins a new one. */
  lemma {:induction false} MoreValue(hs: seq<Fragmented>, name: seq<string>, s: string) returns (hs': seq<Fragmented>)
    requires (forall i :: 0 <= i < |hs| ==> Complete(hs[i])) && (hs != [] || name != [])
    ensures forall i :: 0 <= i < |hs'| ==> Complete(hs'[i])
    ensures EventsOf(hs') == EventsOf(hs) + FieldEvents(name) + [ValueEvent(s)]
  {
    if name != [] {
      var h := Fragmented(name, [s]);
      hs' := hs + [h];
      assert hs'[..|hs|] == hs && ValueEvents([s]) == [ValueEvent(s)];
    } else {
      var n := |hs| - 1;
      var h := Fragmented(hs[n].fields, hs[n].values + [s]);
      hs' := hs[..n] + [h];
      ValueEventsConcat(hs[n].values, s);
      assert hs'[..n] == hs[..n] && hs'[n] == h;
    }
  }

  // ---------- the header that never arrives ----------

  /** `HeaderParams::get`: the value, or the empty string. */
  function GetHeader(headers: map<string, string>, name: string): string {
    if name in headers then headers[name] else ""
  }

  /**
    The documentation makes the headers of a request available to handlers, but nothing completes
    the last one: a handler sees the documented value of a name iff the last header does not carry
    that name, or repeats the value the earlier ones already gave it.
   */
  lemma {:induction false} LastHeaderIsLost(hs: seq<Fragmented>, name: string)
    requires (forall i :: 0 <= i < |hs| ==> Complete(hs[i])) && hs != []
    ensures var seen := Run(NO_HEADERS, EventsOf(hs)).0.completed;
            var sent := HeadersOf(hs);
            var last := sent[|sent| - 1];
            (GetHeader(seen, name) == GetHeader(LastWins(sent), name))
              <==> (name != last.0 || last.1 == GetHeader(LastWins(sent[..|sent| - 1]), name))
  {
    RunHeaders(hs);
  }

  /** The headers that another name follows: all of them if a name is pending, else all but the last. */
  function Followed(headers: seq<(string, string)>, pending: bool): seq<(string, string)> {
    if pending || headers == [] then headers else headers[..|headers| - 1]
  }

  /**
    The builder object at the end of a request. However the parser cut URL, body, names and values into
    fragments, the request depends on what they concatenate to alone, and of the headers in the trace it
    carries those that another name follows, a repeated name with its last value. Every accepted trace
    is of this form.
   */
  lemma {:induction false} BuiltRequest(builder: RequestBuilder, hs: seq<Fragmented>, name: seq<string>, code: int,
                                        parsed: Option<UrlFields>)
    requires builder.Valid() && builder.trace == EventsOf(hs) + FieldEvents(name)
    requires forall i :: 0 <= i < |hs| ==> Complete(hs[i])
    requires parsed.Some? ==> Within(builder.url, parsed.value.path) && Within(builder.url, parsed.value.query)
    ensures builder.url == Concat(builder.urlTrace)
    ensures RequestOf(builder.url, builder.body, builder.headers, code, parsed)
         == RequestOf(Concat(builder.urlTrace), Concat(builder.bodyTrace),
                      LastWins(Followed(HeadersOf(hs), name != [])), code, parsed)
  {
    hide RequestOf, EventsOf, Concat, HeadersOf;
    if name == [] {
      assert EventsOf(hs) + [] == EventsOf(hs);
      RunHeaders(hs);
    } else {
      RunHeadersAndName(hs, name);
    }
  }

  /** The smallest instance: a request with one header delivers none. */
  lemma OnlyHeaderIsLost()
    ensures var hs := [Fragmented(["Host"], ["example"])];
            && GetHeader(LastWins(HeadersOf(hs)), "Host") == "example"
            && GetHeader(Run(NO_HEADERS, EventsOf(hs)).0.completed, "Host") == ""
  {
    var h := Fragmented(["Host"], ["example"]);
    RunHeaders([h]);
    assert "Host" + "" == "Host" && "example" + "" == "example";
    assert Concat(["Host"]) == "Host" && Concat(["example"]) == "example";
    var sent := HeadersOf([h]);
    assert sent == [("Host", "example")] && sent[..0] == [];
  }
}
