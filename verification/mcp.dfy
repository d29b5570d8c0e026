/**
  The Model Context Protocol registry and dispatcher.

  A registry holds two stores: contexts keyed by their id, and protocols keyed
  by the composite string `name + "@" + version`. Registration overwrites any
  earlier entry under the same key; `ProcessContext` looks up a context and a
  protocol and runs the protocol's handlers on the context.
 */
module Mcp {
  import opened Wrappers

  /** The untyped (`any`) values carried by contexts and produced by handlers.
      The registry never inspects them. */
  datatype Value =
    | Undefined
    | Null
    | Bool(b: bool)
    | Num(n: int)
    | Str(s: string)
    | Arr(items: seq<Value>)
    | Obj(fields: map<string, Value>)

  /** A registered data payload. `kind` is the context's type tag; an absent
      field is the empty string. */
  datatype Context = Context(id: string, kind: string, data: Value, metadata: Option<map<string, Value>>)

  /** The caller-supplied handler bundle. `process` fails with the value it
      throws (or rejects its promise with). */
  datatype Handlers = Handlers(
    validate: Context -> bool,
    process: Context -> Result<Value, Value>,
    transform: Option<Value -> Value>)

  /** A registered named and versioned handler bundle. */
  datatype Protocol = Protocol(name: string, version: string, handlers: Handlers)

  /** The errors the registry raises, and the pass-through of a handler's own. */
  datatype Error =
    | InvalidArgument(message: string)
    | ContextNotFound(contextId: string)
    | ProtocolNotFound(key: string)
    | ValidationFailed
    | HandlerError(thrown: Value)

  const ContextFieldsMissing: string := "Context must have an id and type"
  const ProtocolFieldsMissing: string := "Protocol must have a name and version"

  /** The two stores of a registry. */
  datatype Registry = Registry(contexts: map<string, Context>, protocols: map<string, Protocol>)

  /** The registry after an operation, together with what the operation returned. */
  datatype Step<T> = Step(registry: Registry, reply: Result<T, Error>)

  /** The key a protocol is stored and looked up under. Not injective: a name
      may itself contain '@'. */
  function ProtocolKey(name: string, version: string): string
  {
    name + "@" + version
  }

  /** Every stored entry sits under its own key and has its identity fields
      set: what registration guarantees of every reachable registry. */
  ghost predicate Valid(reg: Registry)
  {
    && (forall k :: k in reg.contexts ==>
          reg.contexts[k].id == k && reg.contexts[k].id != "" && reg.contexts[k].kind != "")
    && (forall k :: k in reg.protocols ==>
          && ProtocolKey(reg.protocols[k].name, reg.protocols[k].version) == k
          && reg.protocols[k].name != "" && reg.protocols[k].version != "")
  }

  /** A freshly constructed registry. */
  function Empty(): (r: Registry)
    ensures Valid(r)
    ensures forall k :: k !in r.contexts && k !in r.protocols
  {
    Registry(map[], map[])
  }

  /** Stores `c` under its id, or fails when the id or the type tag is missing. */
  function RegisterContext(reg: Registry, c: Context): (s: Step<()>)
    ensures s.reply.Failure? <==> c.id == "" || c.kind == ""
    ensures s.reply.Failure? ==> s.reply.error == InvalidArgument(ContextFieldsMissing) && s.registry == reg
    ensures s.reply.Success? ==>
      && c.id in s.registry.contexts && s.registry.contexts[c.id] == c
      && s.registry.contexts.Keys == reg.contexts.Keys + {c.id}
      && (forall k :: k in reg.contexts && k != c.id ==> s.registry.contexts[k] == reg.contexts[k])
      && s.registry.protocols == reg.protocols
    ensures Valid(reg) ==> Valid(s.registry)
  {
    if c.id == "" || c.kind == "" then
      Step(reg, Failure(InvalidArgument(ContextFieldsMissing)))
    else
      Step(reg.(contexts := reg.contexts[c.id := c]), Success(()))
  }

  /** Stores `p` under `name@version`, or fails when the name or the version
      is missing. */
  function RegisterProtocol(reg: Registry, p: Protocol): (s: Step<()>)
    ensures s.reply.Failure? <==> p.name == "" || p.version == ""
    ensures s.reply.Failure? ==> s.reply.error == InvalidArgument(ProtocolFieldsMissing) && s.registry == reg
    ensures s.reply.Success? ==>
      && var key := p.name + "@" + p.version;
      && key in s.registry.protocols && s.registry.protocols[key] == p
      && s.registry.protocols.Keys == reg.protocols.Keys + {key}
      && (forall k :: k in reg.protocols && k != key ==> s.registry.protocols[k] == reg.protocols[k])
      && s.registry.contexts == reg.contexts
    ensures Valid(reg) ==> Valid(s.registry)
  {
    if p.name == "" || p.version == "" then
      Step(reg, Failure(InvalidArgument(ProtocolFieldsMissing)))
    else
      Step(reg.(protocols := reg.protocols[ProtocolKey(p.name, p.version) := p]), Success(()))
  }

  /** Runs a handler bundle on a context: validate, then process, then the
      optional transform. */
  function Dispatch(h: Handlers, c: Context): (r: Result<Value, Error>)
    ensures !h.validate(c) ==> r == Failure(ValidationFailed)
    ensures h.validate(c) && h.process(c).Failure? ==> r == Failure(HandlerError(h.process(c).error))
    ensures h.validate(c) && h.process(c).Success? ==>
      r == Success(if h.transform.Some? then h.transform.value(h.process(c).value) else h.process(c).value)
    ensures r.Failure? ==> r.error.ValidationFailed? || r.error.HandlerError?
  {
    if !h.validate(c) then
      Failure(ValidationFailed)
    else
      match h.process(c)
      case Failure(thrown) => Failure(HandlerError(thrown))
      case Success(out) =>
        match h.transform
        case Some(t) => Success(t(out))
        case None => Success(out)
  }

  /** Looks up the context and then the protocol, and dispatches. Never
      changes either store. */
  function ProcessContext(reg: Registry, contextId: string, name: string, version: string): (s: Step<Value>)
    ensures s.registry == reg
    ensures contextId !in reg.contexts ==> s.reply == Failure(ContextNotFound(contextId))
    ensures contextId in reg.contexts && name + "@" + version !in reg.protocols ==>
      s.reply == Failure(ProtocolNotFound(name + "@" + version))
    ensures contextId in reg.contexts && name + "@" + version in reg.protocols ==>
      s.reply == Dispatch(reg.protocols[name + "@" + version].handlers, reg.contexts[contextId])
    ensures (s.reply.Failure? && s.reply.error.ContextNotFound?) <==> contextId !in reg.contexts
    ensures s.reply.Success? ==>
      && contextId in reg.contexts && name + "@" + version in reg.protocols
      && reg.protocols[name + "@" + version].handlers.validate(reg.contexts[contextId])
  {
    var key := ProtocolKey(name, version);
    if contextId !in reg.contexts then
      Step(reg, Failure(ContextNotFound(contextId)))
    else if key !in reg.protocols then
      Step(reg, Failure(ProtocolNotFound(key)))
    else
      Step(reg, Dispatch(reg.protocols[key].handlers, reg.contexts[contextId]))
  }

  /** `values` lists every entry of `m` exactly once, in some order, and
      `keys` says which key each listed value is stored under. */
  ghost predicate Enumerates<K, V>(m: map<K, V>, keys: seq<K>, values: seq<V>)
  {
    && |values| == |keys| == |m|
    && (forall i :: 0 <= i < |keys| ==> keys[i] in m && values[i] == m[keys[i]])
    && (forall i, j :: 0 <= i < j < |keys| ==> keys[i] != keys[j])
    && (forall k :: k in m ==> k in keys)
  }

  /** The values of a map, as `Array.from(map.values())` builds them: every
      entry exactly once, in some order. */
  method MapValues<K, V>(m: map<K, V>) returns (values: seq<V>)
    ensures exists keys :: Enumerates(m, keys, values)
  {
    var rest := m.Keys;
    ghost var keys := [];
    values := [];
    while rest != {}
      invariant rest <= m.Keys
      invariant |values| == |keys| && |keys| + |rest| == |m|
      invariant forall i :: 0 <= i < |keys| ==> keys[i] in m && keys[i] !in rest && values[i] == m[keys[i]]
      invariant forall i, j :: 0 <= i < j < |keys| ==> keys[i] != keys[j]
      invariant forall k :: k in m && k !in rest ==> k in keys
      decreases rest
    {
      var k :| k in rest;
      values, keys := values + [m[k]], keys + [k];
      rest := rest - {k};
    }
    assert Enumerates(m, keys, values);
  }

  /** All registered contexts; under `Valid`, one per id and each the newest
      registered under that id. */
  method GetContexts(reg: Registry) returns (cs: seq<Context>)
    ensures exists ids :: Enumerates(reg.contexts, ids, cs)
    ensures Valid(reg) ==> forall i :: 0 <= i < |cs| ==> cs[i].id in reg.contexts && reg.contexts[cs[i].id] == cs[i]
    ensures Valid(reg) ==> forall i, j :: 0 <= i < j < |cs| ==> cs[i].id != cs[j].id
  {
    cs := MapValues(reg.contexts);
    ghost var ids :| Enumerates(reg.contexts, ids, cs);
    if Valid(reg) {
      forall i | 0 <= i < |cs|
        ensures cs[i].id == ids[i]
      {
        assert reg.contexts[ids[i]] == cs[i];
      }
    }
  }

  /** All registered protocols; under `Valid`, one per composite key and each
      the newest registered under that key. */
  method GetProtocols(reg: Registry) returns (ps: seq<Protocol>)
    ensures exists keys :: Enumerates(reg.protocols, keys, ps)
    ensures Valid(reg) ==> forall i :: 0 <= i < |ps| ==>
      && ProtocolKey(ps[i].name, ps[i].version) in reg.protocols
      && reg.protocols[ProtocolKey(ps[i].name, ps[i].version)] == ps[i]
    ensures Valid(reg) ==> forall i, j :: 0 <= i < j < |ps| ==>
      ProtocolKey(ps[i].name, ps[i].version) != ProtocolKey(ps[j].name, ps[j].version)
  {
    ps := MapValues(reg.protocols);
    ghost var keys :| Enumerates(reg.protocols, keys, ps);
    if Valid(reg) {
      forall i | 0 <= i < |ps|
        ensures ProtocolKey(ps[i].name, ps[i].version) == keys[i]
      {
        assert reg.protocols[keys[i]] == ps[i];
      }
    }
  }
}
