/**
  Properties relating several registry operations: re-registration, the
  composite protocol key, the order of the dispatch checks, and the invariant
  kept by every sequence of calls on one registry.
 */
module McpProperties {
  import opened Wrappers
  import opened Mcp

  /** One call on a registry instance. */
  datatype Call =
    | RegisterContextCall(context: Context)
    | RegisterProtocolCall(protocol: Protocol)
    | ProcessContextCall(contextId: string, name: string, version: string)

  /** The registry after one call, whether or not the call failed. */
  function Apply(reg: Registry, call: Call): Registry
  {
    match call
    case RegisterContextCall(c) => RegisterContext(reg, c).registry
    case RegisterProtocolCall(p) => RegisterProtocol(reg, p).registry
    case ProcessContextCall(id, name, version) => ProcessContext(reg, id, name, version).registry
  }

  /** The registry after a sequence of calls, applied in order. */
  function Run(reg: Registry, calls: seq<Call>): Registry
    decreases |calls|
  {
    if |calls| == 0 then reg else Run(Apply(reg, calls[0]), calls[1..])
  }

  /** The registration calls of `calls`, in order. */
  function Registrations(calls: seq<Call>): seq<Call>
    decreases |calls|
  {
    if |calls| == 0 then []
    else if calls[0].ProcessContextCall? then Registrations(calls[1..])
    else [calls[0]] + Registrations(calls[1..])
  }

  /** Every sequence of calls keeps each entry under its own key with its
      identity fields set. */
  lemma {:induction false} RunPreservesValid(reg: Registry, calls: seq<Call>)
    requires Valid(reg)
    ensures Valid(Run(reg, calls))
    decreases |calls|
  {
    if |calls| > 0 {
      RunPreservesValid(Apply(reg, calls[0]), calls[1..]);
    }
  }

  /** Every registry reachable from a fresh one satisfies `Valid`. */
  lemma ReachableRegistriesAreValid(calls: seq<Call>)
    ensures Valid(Run(Empty(), calls))
  {
    RunPreservesValid(Empty(), calls);
  }

  /** Dispatching never changes a store: dropping every `ProcessContext` call
      from a sequence leaves its final registry the same. */
  lemma {:induction false} ProcessCallsLeaveStoresUnchanged(reg: Registry, calls: seq<Call>)
    ensures Run(reg, calls) == Run(reg, Registrations(calls))
    decreases |calls|
  {
    if |calls| > 0 {
      ProcessCallsLeaveStoresUnchanged(Apply(reg, calls[0]), calls[1..]);
      if !calls[0].ProcessContextCall? {
        var rest := Registrations(calls[1..]);
        assert ([calls[0]] + rest)[0] == calls[0];
        assert ([calls[0]] + rest)[1..] == rest;
      }
    }
  }

  /** Re-registering a context id forgets the earlier registration entirely:
      last write wins. */
  lemma ReRegisteringContextReplaces(reg: Registry, earlier: Context, later: Context)
    requires earlier.id == later.id && later.id != "" && later.kind != ""
    ensures RegisterContext(RegisterContext(reg, earlier).registry, later) == RegisterContext(reg, later)
  {
  }

  /** Re-registering under the same composite key forgets the earlier
      protocol entirely, even when the two differ in name and version. */
  lemma ReRegisteringProtocolReplaces(reg: Registry, earlier: Protocol, later: Protocol)
    requires ProtocolKey(earlier.name, earlier.version) == ProtocolKey(later.name, later.version)
    requires later.name != "" && later.version != ""
    ensures RegisterProtocol(RegisterProtocol(reg, earlier).registry, later) == RegisterProtocol(reg, later)
  {
  }

  /** The two stores are independent: registering a context and a protocol
      gives the same registry in either order. */
  lemma RegistrationsCommute(reg: Registry, c: Context, p: Protocol)
    ensures RegisterProtocol(RegisterContext(reg, c).registry, p).registry
         == RegisterContext(RegisterProtocol(reg, p).registry, c).registry
  {
  }

  /** After registering `c` and then `p`, processing `c.id` with `p`'s name
      and version runs exactly `p`'s handlers on exactly `c`, whatever the
      registry held before. */
  lemma ProcessUsesLatestRegistrations(reg: Registry, c: Context, p: Protocol)
    requires c.id != "" && c.kind != "" && p.name != "" && p.version != ""
    ensures
      var withContext := RegisterContext(reg, c).registry;
      var withBoth := RegisterProtocol(withContext, p).registry;
      ProcessContext(withBoth, c.id, p.name, p.version).reply == Dispatch(p.handlers, c)
  {
  }

  /** An unknown context id fails with context-not-found whatever protocol
      is named, registered or not: the context is looked up first. */
  lemma UnknownContextReportedFirst(reg: Registry, contextId: string, name: string, version: string, p: Protocol)
    requires contextId !in reg.contexts
    ensures ProcessContext(RegisterProtocol(reg, p).registry, contextId, name, version).reply
         == Failure(ContextNotFound(contextId))
  {
  }

  /** When validation rejects the context, neither the processing nor the
      transform handler has any influence on the outcome. */
  lemma RejectionSkipsProcessing(h: Handlers, c: Context, process: Context -> Result<Value, Value>, transform: Option<Value -> Value>)
    requires !h.validate(c)
    ensures Dispatch(Handlers(h.validate, process, transform), c) == Dispatch(h, c) == Failure(ValidationFailed)
  {
  }

  /** Protocol lookup sees only the composite key: two (name, version)
      pairs with the same key dispatch identically. */
  lemma LookupSeesOnlyTheKey(reg: Registry, contextId: string, n1: string, v1: string, n2: string, v2: string)
    requires ProtocolKey(n1, v1) == ProtocolKey(n2, v2)
    ensures ProcessContext(reg, contextId, n1, v1) == ProcessContext(reg, contextId, n2, v2)
  {
  }

  /** The composite key is not injective: distinct (name, version) pairs
      can share a key. */
  lemma ProtocolKeyCollides()
    ensures ("a@b", "c") != ("a", "b@c")
    ensures ProtocolKey("a@b", "c") == ProtocolKey("a", "b@c") == "a@b@c"
  {
  }

  /** In the key of a name without '@', the first '@' ends the name. */
  lemma FirstAtEndsPlainName(name: string, version: string)
    requires '@' !in name
    ensures |ProtocolKey(name, version)| > |name| && ProtocolKey(name, version)[|name|] == '@'
    ensures forall i :: 0 <= i < |name| ==> ProtocolKey(name, version)[i] != '@'
  {
  }

  /** Once neither name contains '@', the key does determine the pair; the
      versions may contain '@' freely. */
  lemma ProtocolKeyInjectiveForPlainNames(n1: string, v1: string, n2: string, v2: string)
    requires '@' !in n1 && '@' !in n2
    requires ProtocolKey(n1, v1) == ProtocolKey(n2, v2)
    ensures n1 == n2 && v1 == v2
  {
    var key := ProtocolKey(n1, v1);
    FirstAtEndsPlainName(n1, v1);
    FirstAtEndsPlainName(n2, v2);
    assert |n1| == |n2|;
    assert n1 == key[..|n1|] == n2;
    assert v1 == key[|n1| + 1..] == v2;
  }

  /** Registering ("a@b", "c") and then ("a", "b@c") leaves only the second
      protocol, and a request for the first pair is served by it. */
  lemma CollidingProtocolOverwrites(reg: Registry, c: Context, first: Handlers, second: Handlers)
    requires c.id != "" && c.kind != ""
    ensures
      var withContext := RegisterContext(reg, c).registry;
      var once := RegisterProtocol(withContext, Protocol("a@b", "c", first)).registry;
      var twice := RegisterProtocol(once, Protocol("a", "b@c", second)).registry;
      && "a@b@c" in twice.protocols && twice.protocols["a@b@c"] == Protocol("a", "b@c", second)
      && ProcessContext(twice, c.id, "a@b", "c").reply == Dispatch(second, c)
  {
    ProtocolKeyCollides();
  }

  /** The handlers of the worked example: accept everything, answer "HELLO",
      and optionally append "!". */
  const AcceptAll: Context -> bool := _ => true
  const AnswerHello: Context -> Result<Value, Value> := _ => Success(Str("HELLO"))
  const AppendBang: Value -> Value := (v: Value) => if v.Str? then Str(v.s + "!") else v

  /** The worked example: the transform's output is the result. */
  lemma HelloExample()
    ensures
      var c := Context("c1", "text", Str("hello"), None);
      var withContext := RegisterContext(Empty(), c).registry;
      var p := Protocol("p", "1.0", Handlers(AcceptAll, AnswerHello, Some(AppendBang)));
      var withBoth := RegisterProtocol(withContext, p).registry;
      ProcessContext(withBoth, "c1", "p", "1.0").reply == Success(Str("HELLO!"))
  {
    var c := Context("c1", "text", Str("hello"), None);
    var p := Protocol("p", "1.0", Handlers(AcceptAll, AnswerHello, Some(AppendBang)));
    ProcessUsesLatestRegistrations(Empty(), c, p);
    assert "HELLO" + "!" == "HELLO!";
  }

  /** The worked example without a transform: the raw processing result. */
  lemma HelloExampleWithoutTransform()
    ensures
      var c := Context("c1", "text", Str("hello"), None);
      var withContext := RegisterContext(Empty(), c).registry;
      var p := Protocol("p", "1.0", Handlers(AcceptAll, AnswerHello, None));
      var withBoth := RegisterProtocol(withContext, p).registry;
      ProcessContext(withBoth, "c1", "p", "1.0").reply == Success(Str("HELLO"))
  {
  }

  /** A successful context registration is visible to `GetContexts`, and in
      a valid registry it is the only context listed under its id: an
      earlier context with that id is gone. */
  method ListContextsAfterRegistering(reg: Registry, c: Context) returns (cs: seq<Context>)
    ensures c.id != "" && c.kind != "" ==> c in cs
    ensures c.id != "" && c.kind != "" && Valid(reg) ==>
      forall i :: 0 <= i < |cs| && cs[i].id == c.id ==> cs[i] == c
  {
    var step := RegisterContext(reg, c);
    cs := GetContexts(step.registry);
    if step.reply.Success? {
      ghost var ids :| Enumerates(step.registry.contexts, ids, cs);
      ghost var i :| 0 <= i < |ids| && ids[i] == c.id;
      assert cs[i] == c;
    }
  }

  /** A successful protocol registration is visible to `GetProtocols`, and
      in a valid registry it is the only protocol listed under its composite
      key: an earlier protocol with that key is gone. */
  method ListProtocolsAfterRegistering(reg: Registry, p: Protocol) returns (ps: seq<Protocol>)
    ensures p.name != "" && p.version != "" ==> exists i :: 0 <= i < |ps| && ps[i] == p
    ensures p.name != "" && p.version != "" && Valid(reg) ==>
      forall i :: 0 <= i < |ps| && ProtocolKey(ps[i].name, ps[i].version) == ProtocolKey(p.name, p.version) ==>
        ps[i] == p
  {
    var step := RegisterProtocol(reg, p);
    ps := GetProtocols(step.registry);
    if step.reply.Success? {
      ghost var key := ProtocolKey(p.name, p.version);
      ghost var keys :| Enumerates(step.registry.protocols, keys, ps);
      ghost var i :| 0 <= i < |keys| && keys[i] == key;
      assert ps[i] == p;
    }
  }
}
