/** What has been registered: the flat list of templates and resources the trie must agree with. */
module Registry {
  import opened Wrappers
  import opened Templates
  import opened Extractor
  import opened Responses

  /** A resource object: its identity and its immutable path template. */
  datatype Resource = Resource(id: int, path: string)

  /** A bound handler is its signature and its body; the body may throw. */
  datatype Method = Unbound | Bound(signature: seq<ParamKind>, body: seq<Argument> -> Result<Response>)

  datatype Methods = Methods(get: Method, put: Method, post: Method, del: Method)

  const NO_METHODS: Methods := Methods(Unbound, Unbound, Unbound, Unbound)

  datatype Entry = Entry(resource: Resource, methods: Methods)

  type Table = map<Template, Entry>

  type Log = seq<Entry>

  function KeyOf(e: Entry): Template {
    TemplateOf(e.resource.path)
  }

  /** Registrations in order; a well-formed log never binds a template twice. */
  ghost predicate WellFormed(log: Log) {
    forall i, j :: 0 <= i < j < |log| ==> KeyOf(log[i]) != KeyOf(log[j])
  }

  function TableOf(log: Log): Table {
    if log == [] then map[]
    else
      var last := log[|log| - 1];
      TableOf(log[..|log| - 1])[KeyOf(last) := last]
  }

  function ResourcesOf(log: Log): seq<Resource> {
    seq(|log|, i requires 0 <= i < |log| => log[i].resource)
  }

  const COLLISION: Exception := RuntimeError("Resource registration collision")

  /** Registering: refused when the normalized template is already bound. */
  function Register(log: Log, e: Entry): Result<Log> {
    if KeyOf(e) in TableOf(log) then Err(COLLISION) else Ok(log + [e])
  }

  /** A run of registrations; a refused one is skipped. */
  function RegisterAll(calls: seq<Entry>): Log {
    if calls == [] then []
    else
      var log := RegisterAll(calls[..|calls| - 1]);
      match Register(log, calls[|calls| - 1])
      case Ok(longer) => longer
      case Err(_) => log
  }

  lemma {:induction false} TableEntries(log: Log, t: Template)
    ensures t in TableOf(log) <==> exists i :: 0 <= i < |log| && KeyOf(log[i]) == t
    ensures t in TableOf(log) ==> TableOf(log)[t] in log && KeyOf(TableOf(log)[t]) == t
  {
    if log != [] {
      var n := |log| - 1;
      TableEntries(log[..n], t);
      assert log == log[..n] + [log[n]];
      if t == KeyOf(log[n]) {
        assert KeyOf(log[n]) == t;
      } else if t in TableOf(log) {
        var i :| 0 <= i < n && KeyOf(log[..n][i]) == t;
        assert KeyOf(log[i]) == t;
      } else {
        forall i | 0 <= i < |log|
          ensures KeyOf(log[i]) != t
        {
          assert i < n ==> log[i] == log[..n][i];
        }
      }
    }
  }

  /** In a well-formed log every registration is the one its template is bound to. */
  lemma TableOfWellFormed(log: Log, i: nat)
    requires WellFormed(log) && i < |log|
    ensures KeyOf(log[i]) in TableOf(log) && TableOf(log)[KeyOf(log[i])] == log[i]
  {
    var t := KeyOf(log[i]);
    TableEntries(log, t);
    var j :| 0 <= j < |log| && log[j] == TableOf(log)[t];
    assert KeyOf(log[j]) == t;
  }

  /** Only what is registered counts, not when: collision-free logs of the same members agree. */
  lemma RegistrationOrderIsIrrelevant(log: Log, log': Log)
    requires WellFormed(log) && WellFormed(log')
    requires forall e :: e in log <==> e in log'
    ensures TableOf(log) == TableOf(log')
  {
    forall t
      ensures t in TableOf(log) <==> t in TableOf(log')
      ensures t in TableOf(log) ==> TableOf(log')[t] == TableOf(log)[t]
    {
      TableIsPartOf(log, log', t);
      TableIsPartOf(log', log, t);
    }
  }

  lemma TableIsPartOf(log: Log, log': Log, t: Template)
    requires WellFormed(log') && forall e :: e in log ==> e in log'
    ensures t in TableOf(log) ==> t in TableOf(log') && TableOf(log')[t] == TableOf(log)[t]
  {
    TableEntries(log, t);
    if t in TableOf(log) {
      var i :| 0 <= i < |log'| && log'[i] == TableOf(log)[t];
      TableOfWellFormed(log', i);
    }
  }

  lemma {:induction false} RegisterAllIsWellFormed(calls: seq<Entry>)
    ensures WellFormed(RegisterAll(calls))
    ensures forall e :: e in RegisterAll(calls) ==> e in calls
  {
    if calls != [] {
      var n := |calls| - 1;
      var log := RegisterAll(calls[..n]);
      RegisterAllIsWellFormed(calls[..n]);
      assert calls == calls[..n] + [calls[n]];
      TableEntries(log, KeyOf(calls[n]));
    }
  }

  /** After any run of registrations, a template is bound to the first call that named it. */
  lemma {:induction false} FirstRegistrationWins(calls: seq<Entry>, i: nat)
    requires i < |calls|
    requires forall j :: 0 <= j < i ==> KeyOf(calls[j]) != KeyOf(calls[i])
    ensures KeyOf(calls[i]) in TableOf(RegisterAll(calls))
    ensures TableOf(RegisterAll(calls))[KeyOf(calls[i])] == calls[i]
  {
    var n := |calls| - 1;
    var log := RegisterAll(calls[..n]);
    TableOfExtended(log, calls[n]);
    if i < n {
      FirstRegistrationWins(calls[..n], i);
    } else {
      UnnamedIsUnbound(calls[..n], KeyOf(calls[n]));
    }
  }

  lemma UnnamedIsUnbound(calls: seq<Entry>, t: Template)
    requires forall j :: 0 <= j < |calls| ==> KeyOf(calls[j]) != t
    ensures t !in TableOf(RegisterAll(calls))
  {
    RegisterAllIsWellFormed(calls);
    TableEntries(RegisterAll(calls), t);
    forall e | e in RegisterAll(calls)
      ensures KeyOf(e) != t
    {
      assert e in calls;
    }
  }

  /** A run in which no two calls name the same template registers every one of them. */
  lemma {:induction false} CollisionFreeRun(calls: seq<Entry>)
    requires WellFormed(calls)
    ensures RegisterAll(calls) == calls
  {
    hide TableOf, KeyOf;
    if calls != [] {
      var n := |calls| - 1;
      CollisionFreeRun(calls[..n]);
      assert forall j :: 0 <= j < n ==> KeyOf(calls[..n][j]) != KeyOf(calls[n]);
      UnnamedIsUnbound(calls[..n], KeyOf(calls[n]));
      assert calls == calls[..n] + [calls[n]];
    }
  }

  lemma TableOfExtended(log: Log, e: Entry)
    ensures TableOf(log + [e]) == TableOf(log)[KeyOf(e) := e]
  {
    assert (log + [e])[..|log|] == log;
  }

  lemma WellFormedExtended(log: Log, e: Entry)
    requires WellFormed(log) && KeyOf(e) !in TableOf(log)
    ensures WellFormed(log + [e]) && ResourcesOf(log + [e]) == ResourcesOf(log) + [e.resource]
  {
    TableEntries(log, KeyOf(e));
  }

  /** Two paths written the same up to the names in braces. */
  ghost predicate SameRoute(path: string, path': string) {
    var cs, cs' := Components(path), Components(path');
    |cs| == |cs'|
    && forall i :: 0 <= i < |cs| ==> cs[i] == cs'[i] || (Braced(cs[i]) && Braced(cs'[i]))
  }

  lemma SameTemplateIff(path: string, path': string)
    ensures TemplateOf(path) == TemplateOf(path') <==> SameRoute(path, path')
  {
    hide IsVariable, Braced;
    var cs, cs' := Components(path), Components(path');
    var t, t' := TemplateOf(path), TemplateOf(path');
    forall i | 0 <= i < |cs| && i < |cs'|
      ensures SlotOf(cs[i]) == SlotOf(cs'[i]) <==> cs[i] == cs'[i] || (Braced(cs[i]) && Braced(cs'[i]))
    {
      IsVariableIff(cs[i]);
      IsVariableIff(cs'[i]);
    }
    if t == t' {
      assert forall i :: 0 <= i < |cs| ==> SlotOf(cs[i]) == t[i] == t'[i] == SlotOf(cs'[i]);
    }
    if SameRoute(path, path') {
      assert forall i :: 0 <= i < |cs| ==> t[i] == t'[i];
    }
  }

  /** A registration is refused iff its path differs from a registered one in names in braces at most. */
  lemma RefusedIff(log: Log, e: Entry)
    ensures Register(log, e).Err? <==> exists i :: 0 <= i < |log| && SameRoute(log[i].resource.path, e.resource.path)
    ensures Register(log, e).Err? ==> Register(log, e) == Err(RuntimeError("Resource registration collision"))
    ensures Register(log, e).Ok? ==> Register(log, e) == Ok(log + [e])
  {
    TableEntries(log, KeyOf(e));
    forall i | 0 <= i < |log|
      ensures KeyOf(log[i]) == KeyOf(e) <==> SameRoute(log[i].resource.path, e.resource.path)
    {
      SameTemplateIff(log[i].resource.path, e.resource.path);
    }
  }
}
