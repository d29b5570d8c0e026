# Model Context Protocol registry, in Dafny

This project models `ModelContextProtocol`, the in-process registry and dispatcher
of the Model Context Protocol core (`src/mcp.ts`). A registry has two stores:

- **contexts**: data payloads with an id and a type tag, keyed by id;
- **protocols**: named, versioned handler bundles, keyed by the composite string
  `name + "@" + version`.

Registering a context or a protocol checks the identity fields and then overwrites
whatever was stored under the same key. `processContext` runs a fixed pipeline:
look up the context, look up the protocol, validate, process, and apply the
optional transform. The two getters list the stored values.

Layout:

- `wrappers.dfy`, module `Wrappers`: `Option` and `Result`.
- `mcp.dfy`, module `Mcp`: the data model and the five operations.
  - `Value` stands for the untyped `any`.
  - `Context` is the context record. The `type` field of `src/mcp.ts` is called `kind`, because `type` is a Dafny keyword.
  - `Handlers` and `Protocol` are the handler bundle and the protocol record.
  - `Error` lists the failures.
  - `Registry` holds the two stores.
  - `Step` pairs a registry with an operation's reply, so the contracts can say when a store stays unchanged.
- `properties.dfy`, module `McpProperties`: lemmas that relate several operations.
  - `Run` applies a sequence of calls to one registry.
  - `Valid` is the invariant every reachable registry keeps.

The handlers are function-valued fields:

- `validate: Context -> bool`
- `process: Context -> Result<Value, Value>`, where a `Failure` carries the thrown or rejected value
- `transform: Option<Value -> Value>`

`src/mcp.ts` throws a plain `Error` for every failure, with a different message for each. The model gives each failure its own constructor:

- `InvalidArgument(message)` uses the two messages of `src/mcp.ts` word for word.
- `ContextNotFound(id)` carries the missing id.
- `ProtocolNotFound(key)` carries the missing `name@version` key.
- `ValidationFailed` is the validation rejection.
- `HandlerError(thrown)` carries a processing failure's thrown value, unaltered.

The composite key is kept exactly as `src/mcp.ts` builds it. It is not injective: name `"a@b"` with version `"c"` and name `"a"` with version `"b@c"` share the key `"a@b@c"`. The model does not fix this. `ProtocolKeyCollides` and `CollidingProtocolOverwrites` show the collision. `ProtocolKeyInjectiveForPlainNames` shows that the key is injective once names contain no `'@'`.

## Model

| member | source | states |
|---|---|---|
| `Mcp.Empty` | src/mcp.ts:28-31 | a new registry has both stores empty and satisfies the registry invariant |
| `Mcp.RegisterContext` | src/mcp.ts:36-41 | fails with the "must have an id and type" error exactly when id or type is empty, leaving the registry unchanged; on success the context is stored under its id, every other id keeps its entry, the protocol store is untouched, and the invariant is kept |
| `Mcp.RegisterProtocol` | src/mcp.ts:46-51 | fails with the "must have a name and version" error exactly when name or version is empty, leaving the registry unchanged; on success the protocol is stored under `name@version`, every other key keeps its entry, the context store is untouched, and the invariant is kept |
| `Mcp.Dispatch` | src/mcp.ts:71-78 | a rejected validation gives validation-failed; a processing failure comes out as `HandlerError` carrying the thrown value unaltered; otherwise the result is the transform applied to the processing result, or the processing result when there is no transform; no other error can come out |
| `Mcp.ProcessContext` | src/mcp.ts:56-79 | never changes the registry; an absent context id gives context-not-found whatever the protocol arguments, and this is the only way to get that error; a present context with an absent `name@version` key gives protocol-not-found for that key; otherwise the stored handlers run on the stored context; success implies both entries exist and validation passed |
| `Mcp.MapValues` | src/mcp.ts:85 | the result lists every entry of the map exactly once, in some order: there is a duplicate-free sequence of keys covering the map whose entries are the listed values |
| `Mcp.GetContexts` | src/mcp.ts:84-86 | returns exactly the stored contexts, once per id; in a valid registry each listed context is the one currently stored under its id, and no id is listed twice |
| `Mcp.GetProtocols` | src/mcp.ts:91-93 | returns exactly the stored protocols, once per key; in a valid registry each listed protocol is the one currently stored under its `name@version`, and no key is listed twice |
| `McpProperties.RunPreservesValid` | src/mcp.ts:36-50 | every sequence of register and process calls keeps each entry under its own key with non-empty identity fields |
| `McpProperties.ReachableRegistriesAreValid` | src/mcp.ts:28-50 | every registry reachable from a fresh one satisfies the invariant |
| `McpProperties.ProcessCallsLeaveStoresUnchanged` | src/mcp.ts:56-79 | removing every process call from a sequence of calls does not change the final registry |
| `McpProperties.ReRegisteringContextReplaces` | src/mcp.ts:40 | registering a second context under an id gives the same registry as registering only the second: the first is unreachable |
| `McpProperties.ReRegisteringProtocolReplaces` | src/mcp.ts:50 | registering a second protocol under the same composite key gives the same registry as registering only the second, even when the names and versions differ |
| `McpProperties.RegistrationsCommute` | src/mcp.ts:36-51 | the two stores are independent: registering a context and a protocol in either order gives the same registry |
| `McpProperties.ProcessUsesLatestRegistrations` | src/mcp.ts:61-78 | after registering a context and then a protocol, processing that id, name and version runs exactly that protocol's handlers on exactly that context, whatever was stored before |
| `McpProperties.UnknownContextReportedFirst` | src/mcp.ts:61-64 | an unknown context id gives context-not-found even right after a protocol has been registered |
| `McpProperties.RejectionSkipsProcessing` | src/mcp.ts:71-73 | once validation rejects, replacing the processing and transform handlers by any others does not change the outcome |
| `McpProperties.LookupSeesOnlyTheKey` | src/mcp.ts:66-69 | two name/version pairs with the same composite key give the same outcome |
| `McpProperties.ProtocolKeyCollides` | src/mcp.ts:50 | the distinct pairs ("a@b", "c") and ("a", "b@c") share the key "a@b@c" |
| `McpProperties.FirstAtEndsPlainName` | src/mcp.ts:50 | in the key of a name without '@', the first '@' is the one just after the name |
| `McpProperties.ProtocolKeyInjectiveForPlainNames` | src/mcp.ts:50 | when neither name contains '@', equal keys imply equal names and equal versions |
| `McpProperties.CollidingProtocolOverwrites` | src/mcp.ts:46-69 | registering ("a@b", "c") and then ("a", "b@c") keeps only the second, and a request for ("a@b", "c") runs the second's handlers |
| `McpProperties.HelloExample` | src/mcp.ts:71-78 | context "c1" with a protocol that answers "HELLO" and appends "!" processes to "HELLO!" |
| `McpProperties.HelloExampleWithoutTransform` | src/mcp.ts:75-78 | the same call without a transform gives the raw "HELLO" |
| `McpProperties.ListContextsAfterRegistering` | src/mcp.ts:36-86 | after a successful `registerContext(c)`, `getContexts` lists `c`, and in a valid registry no other context with `c`'s id is listed |
| `McpProperties.ListProtocolsAfterRegistering` | src/mcp.ts:46-93 | after a successful `registerProtocol(p)`, `getProtocols` lists `p`, and in a valid registry no other protocol with `p`'s composite key is listed |

## Left out

- Asynchrony: the processing handler's promise and the `await` are modelled as a pure function that succeeds or fails. Suspension and scheduling are not modelled.
- Exceptions thrown by the validation or transform handlers are not modelled. Only a processing failure is passed through, as `HandlerError`. These handlers are foreign code.
- `Value` stands for JavaScript's `any`. Its numbers are unbounded integers rather than floating point. The registry never looks inside a value or the metadata.
- JavaScript truthiness: an absent (`undefined`/`null`) id, type, name or version is modelled as the empty string.
- Reference aliasing is not modelled. In `src/mcp.ts` an object can be mutated after it is registered; the model stores immutable values.
- Mcp.GetContexts, Mcp.GetProtocols and Mcp.MapValues do not state the order of the listed values. A JavaScript `Map` iterates in insertion order, so `getContexts` and `getProtocols` return values in the order their keys were first registered, and re-registering a key keeps its place. The model states only which entries appear and that each appears once.
- The not-found errors are kept as separate `ContextNotFound` and `ProtocolNotFound` constructors. Each carries the id or key that `src/mcp.ts` puts into its message, not the message text. A single `NotFound` kind would lose which lookup failed, and the two messages keep that distinction.
- Mcp.ProcessContext: the handlers are modelled as pure functions without effects. In `src/mcp.ts` they are arbitrary caller code and can call back into the same registry, for instance to register a context or protocol. Other code can also run while the processing promise is awaited. Neither is covered: `s.registry == reg` and `McpProperties.ProcessCallsLeaveStoresUnchanged` describe the dispatcher's own code, not such a whole call.
- Mcp.Dispatch: a processing failure is tagged `HandlerError`, so the model can tell it apart from the registry's own errors. In `src/mcp.ts` a handler that throws `new Error('Context not found: c1')` cannot be told apart from the error thrown for a missing context. The biconditional on `ContextNotFound` in `Mcp.ProcessContext` relies on this tagging.
- Concurrent use of one registry is not modelled; `src/mcp.ts` does not synchronise it either.
