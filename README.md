# aide transformers, modelled in Dafny

A model of the transformer layer of the `aide` crate. Transformers are chainable
builders that edit an OpenAPI document in place. Each one wraps a part of the
document:

- `TransformOpenApi` wraps the whole document.
- `TransformPathItem` wraps one path item.
- `TransformOperation` wraps one operation.
- `TransformParameter` wraps one parameter.
- `TransformResponse` wraps one response.

The builders set ids and descriptions and hide items. They register responses
derived from a response type, under a status code, a status range or as the
default. Duplicates and missing parameters are reported as non-fatal errors to
the generation context, which passes each error through its current error filter.

Layout:

- `openapi.dfy` (module `Openapi`): the document records the transformers touch.
- `errors.dfy` (module `Errors`): the error enum.
- `gen.dfy` (module `Gen`): the generation context. It is a class holding the
  error log, the current filter and the filter that a reset restores.
- `transform_spec.dfy` (module `TransformSpec`): the editing rules as functions
  on values. Their contracts state the rules.
- `transform.dfy` (module `Transform`): the builders as classes. Each one holds
  the sub-tree it borrows as a field that its methods reassign. The new state
  of every mutating method is stated exactly. The plain setters (`Id`,
  `Description`, `Hidden`) state theirs as direct record updates. The others
  (`Example`, `Apply`, `InitResponses`, `Insert`, and the response, parameter
  and default-response edits) are tied to a `TransformSpec` function. Where a
  method logs, the log grows by exactly the errors that function raises and
  the filter shows.
- `transform_laws.dfy` (module `TransformLaws`): properties relating several calls.

The response type's schema derivation (`R::operation_response`) is an oracle
parameter of type `Operation -> Option<Response>`. As in the source, it is
consulted after the responses table has been created. A user transform closure is
represented by its net effect: the hidden flag it leaves, and the description and
example it provides, if any.

Rules the model keeps, as the code has them:

- Every response-registering method first creates an empty responses table when
  there is none, even when no response is derived.
- `response` and `response_with` insert and overwrite. A key that was already
  present is reported as `ResponseExists`.
- `default_response` sets the default only when there is none. Otherwise it
  reports `DefaultResponseExists` and changes nothing.
- A response hidden by its transform is not inserted. For `response_with` and
  `response_range_with`, it also reports nothing. `default_response_with` runs
  the transform only when there is no default yet. If a default exists, it
  reports `DefaultResponseExists` even when the transform would hide the response.
- `response_range` inserts under the exact code `Code(N)` but reports
  `ResponseExists(Range(N))`. `response_range_with` inserts under `Range(N)`. See
  Findings.
- `parameter` takes the first inline parameter with the given name, skipping
  references. If there is none, it reports `ParameterNotExists`. If the transform
  hides the parameter, only that position is removed.
- `TransformPathItem::default_response(_with)` installs the
  no-duplicate-response filter, applies the operation-level default to every
  operation, then resets the filter. So duplicates raised in the loop never reach
  the log. `TransformOpenApi::default_response` does this once per inline path
  item and skips references.
- `TransformOpenApi::default_response_with` installs no filter. It calls the
  operation-level method directly, so a pre-existing default is reported through
  whatever filter is current. One could read the crate's design as saying both
  document-level helpers suppress duplicates; the code does not, and the model
  follows the code.
- Resetting the filter restores the context's default filter, not necessarily the
  filter that was current before.

## Model

| member | source | states |
|---|---|---|
| `TransformSpec.FilterNoDuplicateResponse` | crates/aide/src/transform.rs:652-654 | shows an error exactly when it is neither `DefaultResponseExists` nor `ResponseExists(_)` |
| `TransformSpec.DuplicatesSuppressed` | crates/aide/src/transform.rs:175-181 | under that filter, any run of duplicate-response errors adds nothing to the log |
| `TransformSpec.WithResponses` | crates/aide/src/transform.rs:319-321 | afterwards the operation has a responses table; an existing table is left as it was; a table it creates is empty (no default, no keyed entry) and nothing else in the operation changes |
| `TransformSpec.InsertResponse` | crates/aide/src/transform.rs:391-397 | the key maps to the new response; every other key, the default and the rest of the operation are unchanged; `ResponseExists(reportAs)` is raised exactly when the key was present |
| `TransformSpec.ResponseSpec` | crates/aide/src/transform.rs:380-404 | no derived response: only the table is created, no error; otherwise the response is filed under `Code(N)`, others untouched, a duplicate is raised exactly when `Code(N)` was a key |
| `TransformSpec.ResponseWithSpec` | crates/aide/src/transform.rs:412-441 | as `response`, with the transformed response; when the transform hides it, the table and default are as before and no error is raised |
| `TransformSpec.ResponseRangeSpec` | crates/aide/src/transform.rs:448-472 | as written: filed under `Code(N)`, duplicate of `Code(N)` reported as `ResponseExists(Range(N))` |
| `TransformSpec.ResponseRangeWithSpec` | crates/aide/src/transform.rs:482-511 | filed under `Range(N)`, duplicate reported as `Range(N)`; hidden means nothing inserted and nothing raised |
| `TransformSpec.ResponseRangeIntendedSpec` | crates/aide/src/transform.rs:443-445 | the documented range behaviour: filed under `Range(N)`, duplicate raised exactly when `Range(N)` was a key |
| `TransformSpec.SetDefaultIfAbsent` | crates/aide/src/transform.rs:326-330 | sets the default only if absent; otherwise leaves the operation unchanged and raises `DefaultResponseExists`; the status-code table is never touched |
| `TransformSpec.DefaultResponseSpec` | crates/aide/src/transform.rs:315-337 | no derived response: only the table is created; no default yet: the derived response becomes the default with no error; default present: unchanged and `DefaultResponseExists` |
| `TransformSpec.DefaultResponseWithSpec` | crates/aide/src/transform.rs:346-375 | as `default_response` with the transformed response; hidden and no default yet: nothing changes and nothing is raised; default present: `DefaultResponseExists` whatever the transform does |
| `TransformSpec.DefaultResponseIsWithIdentity` | crates/aide/src/transform.rs:315-375 | `default_response` equals `default_response_with` under the transform that changes nothing |
| `TransformSpec.WithExample` | crates/aide/src/transform.rs:628-639 | every content entry gets the same example; media-type keys and schemas are kept |
| `TransformSpec.ApplyResponseEdit` | crates/aide/src/transform.rs:618-639 | the response after a transform: the new description if one is given, the new example on every content entry if one is given, otherwise the response unchanged |
| `TransformSpec.Named` | crates/aide/src/transform.rs:275-278 | an inline parameter with that name; references never match |
| `TransformSpec.FirstParameter` | crates/aide/src/transform.rs:270-289 | the least position holding an inline parameter with that name, or none exactly when no position does |
| `TransformSpec.RemoveAt` | crates/aide/src/transform.rs:293-295 | one element shorter; the elements before the index are kept in place, the ones after move down by one in their order |
| `TransformSpec.ApplyParameterEdit` | crates/aide/src/transform.rs:559-570 | sets the description whatever the parameter's location; name and location are kept |
| `TransformSpec.ParameterSpec` | crates/aide/src/transform.rs:265-298 | no match: operation unchanged and `ParameterNotExists(name)`; hidden: exactly the first match is removed, order kept; otherwise only that entry is edited; responses, id and description untouched |
| `TransformSpec.DefaultSweep` | crates/aide/src/transform.rs:199-201 | each operation becomes its `default_response_with` result; only `DefaultResponseExists` can be raised |
| `TransformSpec.SweepEntry` | crates/aide/src/transform.rs:104-113 | a path reference is left alone; an inline item keeps its key and description, and its operations become exactly the `DefaultSweep` of the old ones |
| `TransformSpec.SweepPaths` | crates/aide/src/transform.rs:103-115 | every path entry swept, keys kept; only `DefaultResponseExists` can be raised |
| `TransformSpec.SweepApi` | crates/aide/src/transform.rs:98-118 | a document without paths is unchanged; otherwise its paths are swept |
| `Gen.GenContext.RecordError` | crates/aide/src/transform.rs:284-286 | the error is appended to the log exactly when the current filter shows it |
| `Gen.GenContext.SetErrorFilter` | crates/aide/src/transform.rs:175 | installs the filter; the log is unchanged |
| `Gen.GenContext.ResetErrorFilter` | crates/aide/src/transform.rs:181 | restores the context's default filter; the log is unchanged |
| `Transform.FindParameter` | crates/aide/src/transform.rs:270-278 | finds the first inline parameter with the name, skipping references, or reports none when there is no such parameter |
| `Transform.TransformParameter.constructor` | crates/aide/src/transform.rs:538-544 | wraps the parameter, not hidden |
| `Transform.TransformParameter.Hidden` | crates/aide/src/transform.rs:554-557 | sets the hidden flag only |
| `Transform.TransformParameter.Description` | crates/aide/src/transform.rs:561-570 | sets the description in the parameter data for every location |
| `Transform.TransformParameter.Apply` | crates/aide/src/transform.rs:291 | running the transform yields `ApplyParameterEdit` and the hidden flag it chose |
| `Transform.TransformResponse.constructor` | crates/aide/src/transform.rs:597-603 | wraps the response, not hidden |
| `Transform.TransformResponse.Hidden` | crates/aide/src/transform.rs:613-616 | sets the hidden flag only |
| `Transform.TransformResponse.Description` | crates/aide/src/transform.rs:620-623 | replaces the description only |
| `Transform.TransformResponse.Example` | crates/aide/src/transform.rs:628-639 | content becomes `WithExample` of the old content; description and flag unchanged |
| `Transform.TransformResponse.Apply` | crates/aide/src/transform.rs:423 | running the transform yields `ApplyResponseEdit` and the hidden flag it chose |
| `Transform.TransformOperation.constructor` | crates/aide/src/transform.rs:229-234 | wraps the operation, not hidden |
| `Transform.TransformOperation.Id` | crates/aide/src/transform.rs:238-241 | sets the operation id; nothing else changes |
| `Transform.TransformOperation.Description` | crates/aide/src/transform.rs:245-248 | sets the description; nothing else changes |
| `Transform.TransformOperation.Hidden` | crates/aide/src/transform.rs:258-261 | sets the hidden flag; the operation is unchanged |
| `Transform.TransformOperation.InitResponses` | crates/aide/src/transform.rs:319-321 | the operation becomes `WithResponses` of itself |
| `Transform.TransformOperation.Insert` | crates/aide/src/transform.rs:391-397 | state and log as `InsertResponse`, the raised error filtered by the current filter |
| `Transform.TransformOperation.Parameter` | crates/aide/src/transform.rs:265-298 | state and log as `ParameterSpec`; filter unchanged |
| `Transform.TransformOperation.DefaultResponse` | crates/aide/src/transform.rs:315-337 | state and log as `DefaultResponseSpec` |
| `Transform.TransformOperation.DefaultResponseWith` | crates/aide/src/transform.rs:346-375 | state and log as `DefaultResponseWithSpec` |
| `Transform.TransformOperation.Response` | crates/aide/src/transform.rs:380-404 | state and log as `ResponseSpec` |
| `Transform.TransformOperation.ResponseWith` | crates/aide/src/transform.rs:412-441 | state and log as `ResponseWithSpec` |
| `Transform.TransformOperation.ResponseRange` | crates/aide/src/transform.rs:448-472 | state and log as `ResponseRangeSpec` (as written) |
| `Transform.TransformOperation.ResponseRangeWith` | crates/aide/src/transform.rs:482-511 | state and log as `ResponseRangeWithSpec` |
| `Transform.TransformPathItem.constructor` | crates/aide/src/transform.rs:141-146 | wraps the path item, not hidden |
| `Transform.TransformPathItem.Hidden` | crates/aide/src/transform.rs:156-159 | sets the hidden flag only |
| `Transform.TransformPathItem.Description` | crates/aide/src/transform.rs:163-166 | sets the path description only |
| `Transform.TransformPathItem.DefaultResponse` | crates/aide/src/transform.rs:171-184 | every operation gets its `default_response` result; the log is unchanged because duplicates are filtered; afterwards the filter is the reset one |
| `Transform.TransformPathItem.DefaultResponseWith` | crates/aide/src/transform.rs:192-206 | the same with the transform applied to each new default |
| `Transform.DefaultResponseWithEach` | crates/aide/src/transform.rs:110-113 | the operations become `DefaultSweep`'s; the log grows by exactly the swept errors the current filter shows |
| `Transform.DefaultResponseEntry` | crates/aide/src/transform.rs:80-85 | a path reference is returned unchanged; an inline item gets the path-level default response; the log is unchanged |
| `Transform.DefaultResponseWithEntry` | crates/aide/src/transform.rs:105-113 | a path reference is returned unchanged; an inline item has each operation edited; the log grows by the entry's errors that the current filter shows |
| `Transform.TransformOpenApi.constructor` | crates/aide/src/transform.rs:67-69 | wraps the document |
| `Transform.TransformOpenApi.DefaultResponse` | crates/aide/src/transform.rs:74-90 | the document becomes `SweepApi`'s; the log is unchanged; the filter is the reset one if some inline path item was visited, else as before |
| `Transform.TransformOpenApi.DefaultResponseWith` | crates/aide/src/transform.rs:98-118 | the document becomes `SweepApi`'s; the log grows by the swept errors the current filter shows; the filter is untouched |
| `TransformLaws.ResponseIsWithIdentity` | crates/aide/src/transform.rs:380-441 | `response` equals `response_with` under the transform that changes nothing |
| `TransformLaws.ResponseTwiceReplaces` | crates/aide/src/transform.rs:391-397 | a second `response` for the same code replaces the first and raises `ResponseExists(Code(N))` |
| `TransformLaws.DefaultResponseFirstWins` | crates/aide/src/transform.rs:326-330 | a second `default_response` keeps the first default and raises `DefaultResponseExists` when a response is derived |
| `TransformLaws.HiddenParameterIsGone` | crates/aide/src/transform.rs:270-295 | after hiding the only parameter with a name, a further lookup of that name raises `ParameterNotExists` |
| `TransformLaws.DefaultSweepFillsDefaults` | crates/aide/src/transform.rs:168-170 | after a non-hiding sweep an operation has a default exactly when it had one or one was derived; existing defaults and status-code tables are kept |
| `TransformLaws.DocumentSweepFillsDefaults` | crates/aide/src/transform.rs:98-118 | the same at document level: an operation of an inline path item ends up with a default exactly when it had one or one was derived; existing defaults and status-code tables are kept, and the path key is kept |
| `TransformLaws.DefaultSweepReportsExisting` | crates/aide/src/transform.rs:366-368 | an operation that has a default and gets a derived response makes the sweep raise `DefaultResponseExists` |
| `TransformLaws.SweepPathsReportsExisting` | crates/aide/src/transform.rs:103-113 | the same across the inline path items of a document |
| `TransformLaws.ShownKeeps` | crates/aide/src/transform.rs:284-286 | an error the filter shows reaches the filtered log |
| `TransformLaws.DocumentDefaultWithReportsExisting` | crates/aide/src/transform.rs:98-118 | the document-level `default_response_with` puts `DefaultResponseExists` in the log when an operation already has a default and the current filter shows that error |
| `TransformLaws.ResponseRangeMisfiled` | crates/aide/src/transform.rs:459-464 | counterexample: with `Code(2)` taken, `response_range::<2>` overwrites `Code(2)`, creates no `Range(2)` and reports `ResponseExists(Range(2))` |
| `TransformLaws.ResponseRangeIntendedIsWithIdentity` | crates/aide/src/transform.rs:443-445 | the intended `response_range` equals `response_range_with` under the transform that changes nothing |
| `TransformLaws.ResponseRangeDiffersFromWith` | crates/aide/src/transform.rs:459-502 | as written, on a fresh code `response_range` creates `Code(N)` and `response_range_with` does not |

## Left out

- The `with` combinators of every transformer (for example crates/aide/src/transform.rs:121-123 and 514-516) apply an arbitrary closure. Closures are represented only by their net effect on a response or a parameter.
- `inner_mut` and `inner` give direct access to the wrapped value. That value is the class field itself.
- `parameter_untyped` only fixes the example type to `()` and then calls `parameter`. The model has no example types, so it is `Parameter`.
- The `tracing` instrumentation and its debug and trace messages only log.
- `TransformResponse::example` serialises the example with serde_json. The model takes the serialised value (`Json`) as given, so a serialisation failure (the `unwrap` panic) is not modelled.
- The response derivation `R::operation_response` receives the context and the operation mutably. Any errors it reports or edits it makes are not modelled; only its result is.
- The generation context's internals, including its error handler, are not part of this model. So is the content of the filter a reset restores: the model keeps that filter as a constant of the context and claims nothing about what it shows.
- `iter_operations_mut` is represented by the operations of a path item as a sequence, in the order it yields them.
- The status-code table is an insertion-ordered map in the source. Here it is a `map`, so the position of an entry is not modelled.
- What the generators do with the `hidden` flags of operations and path items is outside this model; the flags are only stored.
- Builders take `self` by value and return it for chaining. Here they are methods on an object that change it in place.
- Error messages (the `thiserror` display strings) are formatting only.

## Findings

| source | as written | input that shows it | evidently intended | confidence | as-written member | corrected member |
|---|---|---|---|---|---|---|
| crates/aide/src/transform.rs:459-464 | `response_range::<N, R>` inserts the response under `StatusCode::Code(N)` but reports a duplicate as `ResponseExists(StatusCode::Range(N))` | an operation whose table holds `Code(2)`, then `response_range::<2, R>` with a derived response: `Code(2)` is overwritten, no `Range(2)` entry exists, and the error names `Range(2)` | file under `Range(N)`, as the method's documentation ("status code range (e.g. 2xx)") and `response_range_with` do | high; not executed | `TransformLaws.ResponseRangeMisfiled` | `TransformSpec.ResponseRangeIntendedSpec` |

The builder method `Transform.TransformOperation.ResponseRange` keeps the behaviour
as written. `TransformSpec.ResponseRangeIntendedSpec` states the corrected rule,
and `TransformLaws.ResponseRangeIntendedIsWithIdentity` proves that it agrees with
`response_range_with`.
