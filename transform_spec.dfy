/** The editing rules of the transformers, as functions on values. Each builder
    method in module Transform is proved to have exactly the effect stated here. */
module TransformSpec {
  import opened Openapi
  import opened Errors
  import opened Gen

  /** What the response type yields for an operation: its derived response, if any. */
  type Oracle = Operation -> Option<Response>

  /** The net effect of a user transform on a response: the hidden flag it leaves set,
      and the description and example it provides, if any. */
  datatype ResponseEdit = ResponseEdit(hide: bool, description: Option<string>, example: Option<Json>)

  /** The transform that changes nothing. */
  const Identity := ResponseEdit(false, None, None)

  /** The net effect of a user transform on a parameter. */
  datatype ParameterEdit = ParameterEdit(hide: bool, description: Option<string>)

  /** One operation-level edit: the operation afterwards and the errors it reported. */
  datatype Step = Step(op: Operation, raised: seq<Error>)

  // ---------------------------------------------------------------------------
  // Error filtering

  predicate IsDuplicateResponse(e: Error) {
    e.DefaultResponseExists? || e.ResponseExists?
  }

  /** The filter installed while a default response is applied to many operations. */
  function FilterNoDuplicateResponse(err: Error): (shown: bool)
    ensures shown <==> !IsDuplicateResponse(err)
  {
    match err
    case DefaultResponseExists => false
    case ResponseExists(_) => false
    case ParameterNotExists(_) => true
    case OperationExists(_, _) => true
    case DuplicateRequestBody => true
    case DuplicateParameter(_) => true
  }

  /** Under that filter, a run of duplicate-response errors leaves no trace in the log. */
  lemma {:induction false} DuplicatesSuppressed(es: seq<Error>)
    requires forall e :: e in es ==> IsDuplicateResponse(e)
    ensures Shown(FilterNoDuplicateResponse, es) == []
  {
    if es != [] {
      DuplicatesSuppressed(es[..|es| - 1]);
    }
  }

  // ---------------------------------------------------------------------------
  // Responses

  const EmptyResponses := Responses(None, map[])

  /** The operation with its responses table created when it had none. */
  function WithResponses(op: Operation): (r: Operation)
    ensures r.responses.Some?
    ensures op.responses.Some? ==> r == op
    ensures op.responses.None? ==> Table(r) == map[] && DefaultOf(r).None? && SameOutsideResponses(op, r)
  {
    if op.responses.None? then op.(responses := Some(EmptyResponses)) else op
  }

  /** The status-code table of `op`, empty when it has no responses yet. */
  function Table(op: Operation): map<StatusCode, ReferenceOr<Response>> {
    if op.responses.Some? then op.responses.value.responses else map[]
  }

  /** The default response of `op`, absent when it has no responses yet. */
  function DefaultOf(op: Operation): Option<ReferenceOr<Response>> {
    if op.responses.Some? then op.responses.value.default else None
  }

  /** Everything outside the responses is the same in `a` and `b`. */
  predicate SameOutsideResponses(a: Operation, b: Operation) {
    a.operationId == b.operationId && a.description == b.description && a.parameters == b.parameters
  }

  /** `after` is `before` with `res` filed under `key`: every other key, the default
      and everything outside the responses are as before. */
  ghost predicate Filed(before: Operation, after: Operation, key: StatusCode, res: Response) {
    && after.responses.Some?
    && SameOutsideResponses(before, after)
    && DefaultOf(after) == DefaultOf(before)
    && key in Table(after) && Table(after)[key] == Item(res)
    && (forall k :: k != key ==> (k in Table(after) <==> k in Table(before)))
    && (forall k :: k != key && k in Table(before) ==> Table(after)[k] == Table(before)[k])
  }

  /** Inserting into the table, overwriting what was there; a duplicate is reported
      as `ResponseExists(reportAs)`. */
  function InsertResponse(op: Operation, key: StatusCode, reportAs: StatusCode, res: Response): (s: Step)
    requires op.responses.Some?
    ensures Filed(op, s.op, key, res)
    ensures s.raised == if key in Table(op) then [ResponseExists(reportAs)] else []
  {
    var rs := op.responses.value;
    Step(op.(responses := Some(rs.(responses := rs.responses[key := Item(res)]))),
         if key in rs.responses then [ResponseExists(reportAs)] else [])
  }

  /** The content entries of a response, each carrying the example `v`. */
  function WithExample(content: seq<(string, MediaType)>, v: Json): (r: seq<(string, MediaType)>)
    ensures |r| == |content|
    ensures forall i :: 0 <= i < |r| ==> r[i].0 == content[i].0 && r[i].1.schema == content[i].1.schema
    ensures forall i :: 0 <= i < |r| ==> r[i].1.example == Some(v)
  {
    seq(|content|, i requires 0 <= i < |content| => (content[i].0, content[i].1.(example := Some(v))))
  }

  /** The response after a user transform has run on it. */
  function ApplyResponseEdit(res: Response, edit: ResponseEdit): (r: Response)
    ensures r.description == if edit.description.Some? then edit.description.value else res.description
    ensures |r.content| == |res.content|
    ensures forall i :: 0 <= i < |r.content| ==>
      && r.content[i].0 == res.content[i].0
      && r.content[i].1.schema == res.content[i].1.schema
      && r.content[i].1.example == if edit.example.Some? then edit.example else res.content[i].1.example
    ensures edit.description.None? && edit.example.None? ==> r == res
  {
    Response(
      if edit.description.Some? then edit.description.value else res.description,
      if edit.example.Some? then WithExample(res.content, edit.example.value) else res.content)
  }

  /** `response::<N, R>()`. */
  function ResponseSpec(op: Operation, oracle: Oracle, n: u16): (s: Step)
    ensures s.op.responses.Some? && SameOutsideResponses(op, s.op)
    ensures var o := WithResponses(op);
      oracle(o).None? ==> s == Step(o, [])
    ensures var o := WithResponses(op);
      oracle(o).Some? ==>
        && Filed(op, s.op, Code(n), oracle(o).value)
        && s.raised == if Code(n) in Table(op) then [ResponseExists(Code(n))] else []
  {
    var o := WithResponses(op);
    match oracle(o)
    case None => Step(o, [])
    case Some(res) => InsertResponse(o, Code(n), Code(n), res)
  }

  /** `response_with::<N, R, _>(transform)`. */
  function ResponseWithSpec(op: Operation, oracle: Oracle, n: u16, edit: ResponseEdit): (s: Step)
    ensures s.op.responses.Some? && SameOutsideResponses(op, s.op)
    ensures var o := WithResponses(op);
      oracle(o).None? || edit.hide ==> s == Step(o, [])
    ensures var o := WithResponses(op);
      oracle(o).Some? && !edit.hide ==>
        && Filed(op, s.op, Code(n), ApplyResponseEdit(oracle(o).value, edit))
        && s.raised == if Code(n) in Table(op) then [ResponseExists(Code(n))] else []
  {
    var o := WithResponses(op);
    match oracle(o)
    case None => Step(o, [])
    case Some(res) =>
      var t := ApplyResponseEdit(res, edit);
      if edit.hide then Step(o, []) else InsertResponse(o, Code(n), Code(n), t)
  }

  /** `response_range::<N, R>()`, as written: the response is filed under the exact
      code N while a duplicate is reported for the range N. */
  function ResponseRangeSpec(op: Operation, oracle: Oracle, n: u16): (s: Step)
    ensures s.op.responses.Some? && SameOutsideResponses(op, s.op)
    ensures var o := WithResponses(op);
      oracle(o).None? ==> s == Step(o, [])
    ensures var o := WithResponses(op);
      oracle(o).Some? ==>
        && Filed(op, s.op, Code(n), oracle(o).value)
        && s.raised == if Code(n) in Table(op) then [ResponseExists(Range(n))] else []
  {
    var o := WithResponses(op);
    match oracle(o)
    case None => Step(o, [])
    case Some(res) => InsertResponse(o, Code(n), Range(n), res)
  }

  /** `response_range_with::<N, R, _>(transform)`: filed under the range N. */
  function ResponseRangeWithSpec(op: Operation, oracle: Oracle, n: u16, edit: ResponseEdit): (s: Step)
    ensures s.op.responses.Some? && SameOutsideResponses(op, s.op)
    ensures var o := WithResponses(op);
      oracle(o).None? || edit.hide ==> s == Step(o, [])
    ensures var o := WithResponses(op);
      oracle(o).Some? && !edit.hide ==>
        && Filed(op, s.op, Range(n), ApplyResponseEdit(oracle(o).value, edit))
        && s.raised == if Range(n) in Table(op) then [ResponseExists(Range(n))] else []
  {
    var o := WithResponses(op);
    match oracle(o)
    case None => Step(o, [])
    case Some(res) =>
      var t := ApplyResponseEdit(res, edit);
      if edit.hide then Step(o, []) else InsertResponse(o, Range(n), Range(n), t)
  }

  /** `response_range::<N, R>()` as its documentation describes it: filed under the
      range N, like `response_range_with`. */
  function ResponseRangeIntendedSpec(op: Operation, oracle: Oracle, n: u16): (s: Step)
    ensures s.op.responses.Some? && SameOutsideResponses(op, s.op)
    ensures var o := WithResponses(op);
      oracle(o).None? ==> s == Step(o, [])
    ensures var o := WithResponses(op);
      oracle(o).Some? ==>
        && Filed(op, s.op, Range(n), oracle(o).value)
        && s.raised == if Range(n) in Table(op) then [ResponseExists(Range(n))] else []
  {
    var o := WithResponses(op);
    match oracle(o)
    case None => Step(o, [])
    case Some(res) => InsertResponse(o, Range(n), Range(n), res)
  }

  /** Installing `res` as the default unless there is one already. */
  function SetDefaultIfAbsent(op: Operation, res: Response): (s: Step)
    requires op.responses.Some?
    ensures s.op.responses.Some? && SameOutsideResponses(op, s.op) && Table(s.op) == Table(op)
    ensures DefaultOf(op).None? ==> DefaultOf(s.op) == Some(Item(res)) && s.raised == []
    ensures DefaultOf(op).Some? ==> s == Step(op, [DefaultResponseExists])
  {
    var rs := op.responses.value;
    if rs.default.None? then Step(op.(responses := Some(rs.(default := Some(Item(res))))), [])
    else Step(op, [DefaultResponseExists])
  }

  /** `default_response::<R>()`. */
  function DefaultResponseSpec(op: Operation, oracle: Oracle): (s: Step)
    ensures s.op.responses.Some? && SameOutsideResponses(op, s.op) && Table(s.op) == Table(op)
    ensures var o := WithResponses(op);
      oracle(o).None? ==> s == Step(o, [])
    ensures var o := WithResponses(op);
      oracle(o).Some? && DefaultOf(op).None? ==>
        DefaultOf(s.op) == Some(Item(oracle(o).value)) && s.raised == []
    ensures var o := WithResponses(op);
      oracle(o).Some? && DefaultOf(op).Some? ==> s == Step(o, [DefaultResponseExists])
  {
    var o := WithResponses(op);
    match oracle(o)
    case None => Step(o, [])
    case Some(res) => SetDefaultIfAbsent(o, res)
  }

  /** `default_response_with::<R, _>(transform)`. The transform runs only when there is
      no default yet, so a duplicate is reported even when it would hide the response. */
  function DefaultResponseWithSpec(op: Operation, oracle: Oracle, edit: ResponseEdit): (s: Step)
    ensures s.op.responses.Some? && SameOutsideResponses(op, s.op) && Table(s.op) == Table(op)
    ensures var o := WithResponses(op);
      oracle(o).None? || (DefaultOf(op).None? && edit.hide) ==> s == Step(o, [])
    ensures var o := WithResponses(op);
      oracle(o).Some? && DefaultOf(op).None? && !edit.hide ==>
        DefaultOf(s.op) == Some(Item(ApplyResponseEdit(oracle(o).value, edit))) && s.raised == []
    ensures var o := WithResponses(op);
      oracle(o).Some? && DefaultOf(op).Some? ==> s == Step(o, [DefaultResponseExists])
  {
    var o := WithResponses(op);
    match oracle(o)
    case None => Step(o, [])
    case Some(res) =>
      if o.responses.value.default.None? && edit.hide then Step(o, [])
      else SetDefaultIfAbsent(o, ApplyResponseEdit(res, edit))
  }

  // ---------------------------------------------------------------------------
  // Parameters

  /** `p` is an inline parameter called `name`; references never match. */
  predicate Named(p: ReferenceOr<Parameter>, name: string) {
    p.Item? && p.item.data.name == name
  }

  /** The position of the first inline parameter called `name`. */
  function FirstParameter(ps: seq<ReferenceOr<Parameter>>, name: string): (r: Option<nat>)
    ensures r.Some? ==> r.value < |ps| && Named(ps[r.value], name)
    ensures r.Some? ==> forall j :: 0 <= j < r.value ==> !Named(ps[j], name)
    ensures r.None? <==> forall j :: 0 <= j < |ps| ==> !Named(ps[j], name)
  {
    if ps == [] then None
    else if Named(ps[0], name) then Some(0)
    else
      match FirstParameter(ps[1..], name)
      case None => None
      case Some(i) => Some(i + 1)
  }

  /** `s` without its element at `i`, the others in their order. */
  function RemoveAt<T>(s: seq<T>, i: nat): (r: seq<T>)
    requires i < |s|
    ensures |r| == |s| - 1
    ensures forall j :: 0 <= j < i ==> r[j] == s[j]
    ensures forall j :: i <= j < |r| ==> r[j] == s[j + 1]
  {
    s[..i] + s[i + 1..]
  }

  /** The parameter after a user transform has run on it. */
  function ApplyParameterEdit(p: Parameter, edit: ParameterEdit): (r: Parameter)
    ensures r.location == p.location && r.data.name == p.data.name
    ensures r.data.description == if edit.description.Some? then edit.description else p.data.description
  {
    if edit.description.Some? then p.(data := p.data.(description := edit.description)) else p
  }

  /** `parameter(name, transform)`. */
  function ParameterSpec(op: Operation, name: string, edit: ParameterEdit): (s: Step)
    ensures s.op.responses == op.responses
    ensures s.op.operationId == op.operationId && s.op.description == op.description
    ensures FirstParameter(op.parameters, name).None? ==> s == Step(op, [ParameterNotExists(name)])
    ensures var i := FirstParameter(op.parameters, name);
      i.Some? && edit.hide ==> s.raised == [] && s.op.parameters == RemoveAt(op.parameters, i.value)
    ensures var i := FirstParameter(op.parameters, name);
      i.Some? && !edit.hide ==>
        && s.raised == []
        && |s.op.parameters| == |op.parameters|
        && s.op.parameters[i.value] == Item(ApplyParameterEdit(op.parameters[i.value].item, edit))
        && forall j :: 0 <= j < |op.parameters| && j != i.value ==> s.op.parameters[j] == op.parameters[j]
  {
    var ps := op.parameters;
    match FirstParameter(ps, name)
    case None => Step(op, [ParameterNotExists(name)])
    case Some(i) =>
      var p := ApplyParameterEdit(ps[i].item, edit);
      if edit.hide then Step(op.(parameters := RemoveAt(ps, i)), [])
      else Step(op.(parameters := ps[i := Item(p)]), [])
  }

  // ---------------------------------------------------------------------------
  // Applying a default response to many operations

  datatype Sweep = Sweep(ops: seq<Operation>, raised: seq<Error>)

  /** `default_response_with` applied to every operation in turn. */
  function DefaultSweep(ops: seq<Operation>, oracle: Oracle, edit: ResponseEdit): (r: Sweep)
    ensures |r.ops| == |ops|
    ensures forall i :: 0 <= i < |ops| ==> r.ops[i] == DefaultResponseWithSpec(ops[i], oracle, edit).op
    ensures forall e :: e in r.raised ==> e == DefaultResponseExists
    decreases |ops|
  {
    if ops == [] then Sweep([], [])
    else
      var r := DefaultSweep(ops[..|ops| - 1], oracle, edit);
      var s := DefaultResponseWithSpec(ops[|ops| - 1], oracle, edit);
      Sweep(r.ops + [s.op], r.raised + s.raised)
  }

  /** The path entries after a default response was applied to every operation of
      every inline path item. */
  datatype PathsSweep = PathsSweep(paths: seq<(string, ReferenceOr<PathItem>)>, raised: seq<Error>)

  /** One path entry after the sweep: an inline item has all its operations swept,
      a reference is left alone. */
  function SweepEntry(entry: (string, ReferenceOr<PathItem>), oracle: Oracle, edit: ResponseEdit): (r: (string, ReferenceOr<PathItem>))
    ensures r.0 == entry.0
    ensures entry.1.Reference? ==> r == entry
    ensures entry.1.Item? ==> r.1.Item? && r.1.item.description == entry.1.item.description
    ensures entry.1.Item? ==> r.1.item.operations == DefaultSweep(entry.1.item.operations, oracle, edit).ops
  {
    match entry.1
    case Reference(_) => entry
    case Item(p) => (entry.0, Item(p.(operations := DefaultSweep(p.operations, oracle, edit).ops)))
  }

  /** The errors the sweep of one path entry reports. */
  function EntryRaised(entry: (string, ReferenceOr<PathItem>), oracle: Oracle, edit: ResponseEdit): seq<Error> {
    if entry.1.Item? then DefaultSweep(entry.1.item.operations, oracle, edit).raised else []
  }

  function SweepPaths(paths: seq<(string, ReferenceOr<PathItem>)>, oracle: Oracle, edit: ResponseEdit): (r: PathsSweep)
    ensures |r.paths| == |paths|
    ensures forall i :: 0 <= i < |paths| ==> r.paths[i] == SweepEntry(paths[i], oracle, edit)
    ensures forall e :: e in r.raised ==> e == DefaultResponseExists
    decreases |paths|
  {
    if paths == [] then PathsSweep([], [])
    else
      var r := SweepPaths(paths[..|paths| - 1], oracle, edit);
      var last := paths[|paths| - 1];
      PathsSweep(r.paths + [SweepEntry(last, oracle, edit)], r.raised + EntryRaised(last, oracle, edit))
  }

  /** A sequence that agrees with the sweep of every entry is the swept sequence. */
  lemma SweepPathsPointwise(ps: seq<(string, ReferenceOr<PathItem>)>, ps0: seq<(string, ReferenceOr<PathItem>)>,
                            oracle: Oracle, edit: ResponseEdit)
    requires |ps| == |ps0|
    requires forall k :: 0 <= k < |ps0| ==> ps[k] == SweepEntry(ps0[k], oracle, edit)
    ensures ps == SweepPaths(ps0, oracle, edit).paths
  {
  }

  lemma DefaultSweepStep(ops: seq<Operation>, oracle: Oracle, edit: ResponseEdit, i: nat)
    requires i < |ops|
    ensures DefaultSweep(ops[..i + 1], oracle, edit).raised
      == DefaultSweep(ops[..i], oracle, edit).raised + DefaultResponseWithSpec(ops[i], oracle, edit).raised
  {
    assert ops[..i + 1][..i] == ops[..i];
  }

  /** Extending a log by the errors of one more swept operation. */
  lemma LogAfterStep(show: Error -> bool, log0: seq<Error>, before: seq<Error>, after: seq<Error>,
                     ops: seq<Operation>, oracle: Oracle, edit: ResponseEdit, i: nat)
    requires i < |ops|
    requires before == log0 + Shown(show, DefaultSweep(ops[..i], oracle, edit).raised)
    requires after == before + Shown(show, DefaultResponseWithSpec(ops[i], oracle, edit).raised)
    ensures after == log0 + Shown(show, DefaultSweep(ops[..i + 1], oracle, edit).raised)
  {
    DefaultSweepStep(ops, oracle, edit, i);
    ShownAppend(show, DefaultSweep(ops[..i], oracle, edit).raised, DefaultResponseWithSpec(ops[i], oracle, edit).raised);
  }

  /** Extending a log by the errors of one more swept path entry. */
  lemma LogAfterPath(show: Error -> bool, log0: seq<Error>, before: seq<Error>, after: seq<Error>,
                     paths: seq<(string, ReferenceOr<PathItem>)>, oracle: Oracle, edit: ResponseEdit, i: nat)
    requires i < |paths|
    requires before == log0 + Shown(show, SweepPaths(paths[..i], oracle, edit).raised)
    requires after == before + Shown(show, EntryRaised(paths[i], oracle, edit))
    ensures after == log0 + Shown(show, SweepPaths(paths[..i + 1], oracle, edit).raised)
  {
    SweepPathsStep(paths, oracle, edit, i);
    ShownAppend(show, SweepPaths(paths[..i], oracle, edit).raised, EntryRaised(paths[i], oracle, edit));
  }

  lemma SweepPathsStep(paths: seq<(string, ReferenceOr<PathItem>)>, oracle: Oracle, edit: ResponseEdit, i: nat)
    requires i < |paths|
    ensures SweepPaths(paths[..i + 1], oracle, edit).raised
      == SweepPaths(paths[..i], oracle, edit).raised + EntryRaised(paths[i], oracle, edit)
    ensures HasPathItem(paths[..i + 1]) <==> HasPathItem(paths[..i]) || paths[i].1.Item?
  {
    assert paths[..i + 1][..i] == paths[..i];
    assert paths[..i + 1][i] == paths[i];
  }

  /** The document after a default response was applied everywhere. */
  function SweepApi(api: OpenApi, oracle: Oracle, edit: ResponseEdit): (r: OpenApi)
    ensures api.paths.None? ==> r == api
    ensures api.paths.Some? ==> r.paths == Some(Paths(SweepPaths(api.paths.value.paths, oracle, edit).paths))
  {
    match api.paths
    case None => api
    case Some(p) => OpenApi(Some(Paths(SweepPaths(p.paths, oracle, edit).paths)))
  }

  predicate HasPathItem(paths: seq<(string, ReferenceOr<PathItem>)>) {
    exists i :: 0 <= i < |paths| && paths[i].1.Item?
  }

  /** `default_response` is `default_response_with` under the transform that changes nothing. */
  lemma DefaultResponseIsWithIdentity(op: Operation, oracle: Oracle)
    ensures DefaultResponseSpec(op, oracle) == DefaultResponseWithSpec(op, oracle, Identity)
  {
  }
}
