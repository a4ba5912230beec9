/** The transformers: builders that each hold a part of the document being edited
    (the borrowed sub-tree becomes a field the methods reassign) and report
    non-fatal errors into a generation context. */
module Transform {
  import opened Openapi
  import opened Errors
  import opened Gen
  import opened TransformSpec

  /** Position of the first inline parameter called `name`, references skipped. */
  method FindParameter(ps: seq<ReferenceOr<Parameter>>, name: string) returns (found: Option<nat>)
    ensures found == FirstParameter(ps, name)
  {
    var i := 0;
    while i < |ps|
      invariant 0 <= i <= |ps|
      invariant forall j :: 0 <= j < i ==> !Named(ps[j], name)
    {
      if ps[i].Item? && ps[i].item.data.name == name {
        return Some(i);
      }
      i := i + 1;
    }
    return None;
  }

  class TransformParameter {
    var hidden: bool
    var param: Parameter

    constructor (param: Parameter)
      ensures this.param == param && !hidden
    {
      this.param := param;
      hidden := false;
    }

    method Hidden(hidden: bool)
      modifies this
      ensures this.hidden == hidden && param == old(param)
    {
      this.hidden := hidden;
    }

    /** Sets the description, whichever location the parameter has. */
    method Description(desc: string)
      modifies this
      ensures param == old(param).(data := old(param).data.(description := Some(desc)))
      ensures hidden == old(hidden)
    {
      match param
      case Parameter(_, data) =>
        param := param.(data := data.(description := Some(desc)));
    }

    /** Runs a user transform with the net effect `edit` on a fresh transformer. */
    method Apply(edit: ParameterEdit)
      modifies this
      ensures param == ApplyParameterEdit(old(param), edit)
      ensures hidden == edit.hide
    {
      if edit.description.Some? {
        Description(edit.description.value);
      }
      Hidden(edit.hide);
    }
  }

  class TransformResponse {
    var hidden: bool
    var response: Response

    constructor (response: Response)
      ensures this.response == response && !hidden
    {
      this.response := response;
      hidden := false;
    }

    method Hidden(hidden: bool)
      modifies this
      ensures this.hidden == hidden && response == old(response)
    {
      this.hidden := hidden;
    }

    method Description(desc: string)
      modifies this
      ensures response == old(response).(description := desc) && hidden == old(hidden)
    {
      response := response.(description := desc);
    }

    /** Gives every content entry of the response the same example. */
    method Example(example: Json)
      modifies this
      ensures response == old(response).(content := WithExample(old(response).content, example))
      ensures hidden == old(hidden)
    {
      ghost var c0 := response.content;
      var i := 0;
      while i < |response.content|
        invariant 0 <= i <= |response.content| == |c0|
        invariant response == old(response).(content := response.content)
        invariant forall j :: 0 <= j < i ==> response.content[j] == (c0[j].0, c0[j].1.(example := Some(example)))
        invariant forall j :: i <= j < |c0| ==> response.content[j] == c0[j]
        invariant hidden == old(hidden)
      {
        var (key, media) := response.content[i];
        response := response.(content := response.content[i := (key, media.(example := Some(example)))]);
        i := i + 1;
      }
      assert response.content == WithExample(c0, example);
    }

    /** Runs a user transform with the net effect `edit` on a fresh transformer. */
    method Apply(edit: ResponseEdit)
      modifies this
      ensures response == ApplyResponseEdit(old(response), edit)
      ensures hidden == edit.hide
    {
      if edit.description.Some? {
        Description(edit.description.value);
      }
      if edit.example.Some? {
        Example(edit.example.value);
      }
      Hidden(edit.hide);
    }
  }

  class TransformOperation {
    var hidden: bool
    var operation: Operation

    constructor (operation: Operation)
      ensures this.operation == operation && !hidden
    {
      this.operation := operation;
      hidden := false;
    }

    method Id(name: string)
      modifies this
      ensures operation == old(operation).(operationId := Some(name)) && hidden == old(hidden)
    {
      operation := operation.(operationId := Some(name));
    }

    method Description(desc: string)
      modifies this
      ensures operation == old(operation).(description := Some(desc)) && hidden == old(hidden)
    {
      operation := operation.(description := Some(desc));
    }

    method Hidden(hidden: bool)
      modifies this
      ensures this.hidden == hidden && operation == old(operation)
    {
      this.hidden := hidden;
    }

    /** Creates the responses table if the operation has none. */
    method InitResponses()
      modifies this
      ensures operation == WithResponses(old(operation)) && hidden == old(hidden)
    {
      if operation.responses.None? {
        operation := operation.(responses := Some(EmptyResponses));
      }
    }

    /** Files `res` under `key`, reporting `ResponseExists(reportAs)` if the key was taken. */
    method Insert(key: StatusCode, reportAs: StatusCode, res: Response, ctx: GenContext)
      requires operation.responses.Some?
      modifies this, ctx
      ensures operation == InsertResponse(old(operation), key, reportAs, res).op
      ensures ctx.log == old(ctx.log) + Shown(ctx.showError, InsertResponse(old(operation), key, reportAs, res).raised)
      ensures ctx.showError == old(ctx.showError) && hidden == old(hidden)
    {
      var responses := operation.responses.value;
      var existed := key in responses.responses;
      operation := operation.(responses := Some(responses.(responses := responses.responses[key := Item(res)])));
      if existed {
        ctx.RecordError(ResponseExists(reportAs));
      }
    }

    method Parameter(name: string, edit: ParameterEdit, ctx: GenContext)
      modifies this, ctx
      ensures operation == ParameterSpec(old(operation), name, edit).op
      ensures ctx.log == old(ctx.log) + Shown(ctx.showError, ParameterSpec(old(operation), name, edit).raised)
      ensures ctx.showError == old(ctx.showError) && hidden == old(hidden)
    {
      var found := FindParameter(operation.parameters, name);
      match found
      case None =>
        ctx.RecordError(ParameterNotExists(name));
      case Some(idx) =>
        var t := new TransformParameter(operation.parameters[idx].item);
        t.Apply(edit);
        if t.hidden {
          operation := operation.(parameters := RemoveAt(operation.parameters, idx));
        } else {
          operation := operation.(parameters := operation.parameters[idx := Item(t.param)]);
        }
    }

    method DefaultResponse(oracle: Oracle, ctx: GenContext)
      modifies this, ctx
      ensures operation == DefaultResponseSpec(old(operation), oracle).op
      ensures ctx.log == old(ctx.log) + Shown(ctx.showError, DefaultResponseSpec(old(operation), oracle).raised)
      ensures ctx.showError == old(ctx.showError) && hidden == old(hidden)
    {
      InitResponses();
      match oracle(operation)
      case None =>
      case Some(res) =>
        var responses := operation.responses.value;
        if responses.default.None? {
          operation := operation.(responses := Some(responses.(default := Some(Item(res)))));
        } else {
          ctx.RecordError(DefaultResponseExists);
        }
    }

    method DefaultResponseWith(oracle: Oracle, edit: ResponseEdit, ctx: GenContext)
      modifies this, ctx
      ensures operation == DefaultResponseWithSpec(old(operation), oracle, edit).op
      ensures ctx.log == old(ctx.log) + Shown(ctx.showError, DefaultResponseWithSpec(old(operation), oracle, edit).raised)
      ensures ctx.showError == old(ctx.showError) && hidden == old(hidden)
    {
      InitResponses();
      match oracle(operation)
      case None =>
      case Some(res) =>
        var responses := operation.responses.value;
        if responses.default.None? {
          var t := new TransformResponse(res);
          t.Apply(edit);
          if !t.hidden {
            operation := operation.(responses := Some(responses.(default := Some(Item(t.response)))));
          }
        } else {
          ctx.RecordError(DefaultResponseExists);
        }
    }

    method Response(n: u16, oracle: Oracle, ctx: GenContext)
      modifies this, ctx
      ensures operation == ResponseSpec(old(operation), oracle, n).op
      ensures ctx.log == old(ctx.log) + Shown(ctx.showError, ResponseSpec(old(operation), oracle, n).raised)
      ensures ctx.showError == old(ctx.showError) && hidden == old(hidden)
    {
      InitResponses();
      match oracle(operation)
      case None =>
      case Some(res) =>
        Insert(Code(n), Code(n), res, ctx);
    }

    method ResponseWith(n: u16, oracle: Oracle, edit: ResponseEdit, ctx: GenContext)
      modifies this, ctx
      ensures operation == ResponseWithSpec(old(operation), oracle, n, edit).op
      ensures ctx.log == old(ctx.log) + Shown(ctx.showError, ResponseWithSpec(old(operation), oracle, n, edit).raised)
      ensures ctx.showError == old(ctx.showError) && hidden == old(hidden)
    {
      InitResponses();
      match oracle(operation)
      case None =>
      case Some(res) =>
        var t := new TransformResponse(res);
        t.Apply(edit);
        if !t.hidden {
          Insert(Code(n), Code(n), t.response, ctx);
        }
    }

    /** As written: files under the exact code N, reports the range N. */
    method ResponseRange(n: u16, oracle: Oracle, ctx: GenContext)
      modifies this, ctx
      ensures operation == ResponseRangeSpec(old(operation), oracle, n).op
      ensures ctx.log == old(ctx.log) + Shown(ctx.showError, ResponseRangeSpec(old(operation), oracle, n).raised)
      ensures ctx.showError == old(ctx.showError) && hidden == old(hidden)
    {
      InitResponses();
      match oracle(operation)
      case None =>
      case Some(res) =>
        Insert(Code(n), Range(n), res, ctx);
    }

    method ResponseRangeWith(n: u16, oracle: Oracle, edit: ResponseEdit, ctx: GenContext)
      modifies this, ctx
      ensures operation == ResponseRangeWithSpec(old(operation), oracle, n, edit).op
      ensures ctx.log == old(ctx.log) + Shown(ctx.showError, ResponseRangeWithSpec(old(operation), oracle, n, edit).raised)
      ensures ctx.showError == old(ctx.showError) && hidden == old(hidden)
    {
      InitResponses();
      match oracle(operation)
      case None =>
      case Some(res) =>
        var t := new TransformResponse(res);
        t.Apply(edit);
        if !t.hidden {
          Insert(Range(n), Range(n), t.response, ctx);
        }
    }
  }

  class TransformPathItem {
    var hidden: bool
    var path: PathItem

    constructor (path: PathItem)
      ensures this.path == path && !hidden
    {
      this.path := path;
      hidden := false;
    }

    method Hidden(hidden: bool)
      modifies this
      ensures this.hidden == hidden && path == old(path)
    {
      this.hidden := hidden;
    }

    method Description(desc: string)
      modifies this
      ensures path == old(path).(description := Some(desc)) && hidden == old(hidden)
    {
      path := path.(description := Some(desc));
    }

    /** Gives every operation of the path the default response it lacks. Duplicate
        errors are filtered out meanwhile, and the filter is reset afterwards. */
    method DefaultResponse(oracle: Oracle, ctx: GenContext)
      modifies this, ctx
      ensures path == old(path).(operations := DefaultSweep(old(path).operations, oracle, Identity).ops)
      ensures ctx.log == old(ctx.log)
      ensures ctx.showError == ctx.defaultFilter && hidden == old(hidden)
    {
      ctx.SetErrorFilter(FilterNoDuplicateResponse);
      ghost var ops0 := path.operations;
      var i := 0;
      while i < |path.operations|
        invariant 0 <= i <= |path.operations| == |ops0|
        invariant path == old(path).(operations := path.operations)
        invariant forall j :: 0 <= j < i ==> path.operations[j] == DefaultResponseWithSpec(ops0[j], oracle, Identity).op
        invariant forall j :: i <= j < |ops0| ==> path.operations[j] == ops0[j]
        invariant ctx.showError == FilterNoDuplicateResponse && ctx.log == old(ctx.log)
        invariant hidden == old(hidden)
      {
        var t := new TransformOperation(path.operations[i]);
        t.DefaultResponse(oracle, ctx);
        DefaultResponseIsWithIdentity(ops0[i], oracle);
        DuplicatesSuppressed(DefaultResponseSpec(ops0[i], oracle).raised);
        path := path.(operations := path.operations[i := t.operation]);
        i := i + 1;
      }
      ctx.ResetErrorFilter();
    }

    /** As DefaultResponse, with a user transform run on each new default. */
    method DefaultResponseWith(oracle: Oracle, edit: ResponseEdit, ctx: GenContext)
      modifies this, ctx
      ensures path == old(path).(operations := DefaultSweep(old(path).operations, oracle, edit).ops)
      ensures ctx.log == old(ctx.log)
      ensures ctx.showError == ctx.defaultFilter && hidden == old(hidden)
    {
      ctx.SetErrorFilter(FilterNoDuplicateResponse);
      ghost var ops0 := path.operations;
      var i := 0;
      while i < |path.operations|
        invariant 0 <= i <= |path.operations| == |ops0|
        invariant path == old(path).(operations := path.operations)
        invariant forall j :: 0 <= j < i ==> path.operations[j] == DefaultResponseWithSpec(ops0[j], oracle, edit).op
        invariant forall j :: i <= j < |ops0| ==> path.operations[j] == ops0[j]
        invariant ctx.showError == FilterNoDuplicateResponse && ctx.log == old(ctx.log)
        invariant hidden == old(hidden)
      {
        var t := new TransformOperation(path.operations[i]);
        t.DefaultResponseWith(oracle, edit, ctx);
        DuplicatesSuppressed(DefaultResponseWithSpec(ops0[i], oracle, edit).raised);
        path := path.(operations := path.operations[i := t.operation]);
        i := i + 1;
      }
      ctx.ResetErrorFilter();
    }
  }

  /** The operation-level `default_response_with` run on each of `ops` in turn, with
      whatever error filter is current. */
  method DefaultResponseWithEach(ops: seq<Operation>, oracle: Oracle, edit: ResponseEdit, ctx: GenContext)
    returns (swept: seq<Operation>)
    modifies ctx
    ensures swept == DefaultSweep(ops, oracle, edit).ops
    ensures ctx.log == old(ctx.log) + Shown(ctx.showError, DefaultSweep(ops, oracle, edit).raised)
    ensures ctx.showError == old(ctx.showError)
  {
    ghost var show := ctx.showError;
    ghost var log0 := ctx.log;
    swept := ops;
    var j := 0;
    while j < |swept|
      invariant 0 <= j <= |swept| == |ops|
      invariant forall k :: 0 <= k < j ==> swept[k] == DefaultResponseWithSpec(ops[k], oracle, edit).op
      invariant forall k :: j <= k < |ops| ==> swept[k] == ops[k]
      invariant ctx.showError == show
      invariant ctx.log == log0 + Shown(show, DefaultSweep(ops[..j], oracle, edit).raised)
    {
      ghost var before := ctx.log;
      var t := new TransformOperation(swept[j]);
      t.DefaultResponseWith(oracle, edit, ctx);
      LogAfterStep(show, log0, before, ctx.log, ops, oracle, edit, j);
      swept := swept[j := t.operation];
      j := j + 1;
    }
    assert ops[..j] == ops;
  }

  /** One path entry of the document-level `default_response`: references are
      skipped, an inline item gets the path-level default response. */
  method DefaultResponseEntry(entry: (string, ReferenceOr<PathItem>), oracle: Oracle, ctx: GenContext)
    returns (swept: (string, ReferenceOr<PathItem>))
    modifies ctx
    ensures swept == SweepEntry(entry, oracle, Identity)
    ensures ctx.log == old(ctx.log)
    ensures ctx.showError == if entry.1.Item? then ctx.defaultFilter else old(ctx.showError)
  {
    match entry.1 {
      case Reference(_) =>
        swept := entry;
      case Item(p) =>
        var t := new TransformPathItem(p);
        t.DefaultResponse(oracle, ctx);
        swept := (entry.0, Item(t.path));
    }
  }

  /** One path entry of the document-level `default_response_with`: references are
      skipped, an inline item has each of its operations edited. */
  method DefaultResponseWithEntry(entry: (string, ReferenceOr<PathItem>), oracle: Oracle, edit: ResponseEdit,
                                  ctx: GenContext)
    returns (swept: (string, ReferenceOr<PathItem>))
    modifies ctx
    ensures swept == SweepEntry(entry, oracle, edit)
    ensures ctx.log == old(ctx.log) + Shown(ctx.showError, EntryRaised(entry, oracle, edit))
    ensures ctx.showError == old(ctx.showError)
  {
    match entry.1 {
      case Reference(_) =>
        swept := entry;
      case Item(p) =>
        var ops := DefaultResponseWithEach(p.operations, oracle, edit, ctx);
        swept := (entry.0, Item(p.(operations := ops)));
    }
  }

  class TransformOpenApi {
    var api: OpenApi

    constructor (api: OpenApi)
      ensures this.api == api
    {
      this.api := api;
    }

    /** Applies the path-level default response to every inline path item; path
        references are skipped. Each path item resets the filter when it is done. */
    method DefaultResponse(oracle: Oracle, ctx: GenContext)
      modifies this, ctx
      ensures api == SweepApi(old(api), oracle, Identity)
      ensures ctx.log == old(ctx.log)
      ensures ctx.showError ==
        if old(api).paths.Some? && HasPathItem(old(api).paths.value.paths) then ctx.defaultFilter
        else old(ctx.showError)
    {
      if api.paths.None? {
        return;
      }
      ghost var ps0 := api.paths.value.paths;
      var ps := api.paths.value.paths;
      var i := 0;
      while i < |ps|
        invariant 0 <= i <= |ps| == |ps0|
        invariant forall k :: 0 <= k < i ==> ps[k] == SweepEntry(ps0[k], oracle, Identity)
        invariant forall k :: i <= k < |ps0| ==> ps[k] == ps0[k]
        invariant ctx.log == old(ctx.log)
        invariant ctx.showError == if HasPathItem(ps0[..i]) then ctx.defaultFilter else old(ctx.showError)
        invariant api == old(api)
      {
        SweepPathsStep(ps0, oracle, Identity, i);
        var entry := DefaultResponseEntry(ps[i], oracle, ctx);
        ps := ps[i := entry];
        i := i + 1;
      }
      assert ps0[..i] == ps0;
      SweepPathsPointwise(ps, ps0, oracle, Identity);
      api := OpenApi(Some(Paths(ps)));
    }

    /** Runs the operation-level `default_response_with` on every operation of every
        inline path item. Unlike DefaultResponse, no error filter is installed, so
        duplicate-default errors pass through the current filter. */
    method DefaultResponseWith(oracle: Oracle, edit: ResponseEdit, ctx: GenContext)
      modifies this, ctx
      ensures api == SweepApi(old(api), oracle, edit)
      ensures ctx.log == old(ctx.log) + Shown(ctx.showError,
        if old(api).paths.Some? then SweepPaths(old(api).paths.value.paths, oracle, edit).raised else [])
      ensures ctx.showError == old(ctx.showError)
    {
      if api.paths.None? {
        return;
      }
      ghost var show := ctx.showError;
      ghost var log0 := ctx.log;
      ghost var ps0 := api.paths.value.paths;
      var ps := api.paths.value.paths;
      var i := 0;
      while i < |ps|
        invariant 0 <= i <= |ps| == |ps0|
        invariant forall k :: 0 <= k < i ==> ps[k] == SweepEntry(ps0[k], oracle, edit)
        invariant forall k :: i <= k < |ps0| ==> ps[k] == ps0[k]
        invariant ctx.showError == show
        invariant ctx.log == log0 + Shown(show, SweepPaths(ps0[..i], oracle, edit).raised)
        invariant api == old(api)
      {
        ghost var before := ctx.log;
        var entry := DefaultResponseWithEntry(ps[i], oracle, edit, ctx);
        ps := ps[i := entry];
        LogAfterPath(show, log0, before, ctx.log, ps0, oracle, edit, i);
        i := i + 1;
      }
      assert ps0[..i] == ps0;
      SweepPathsPointwise(ps, ps0, oracle, edit);
      api := OpenApi(Some(Paths(ps)));
    }
  }
}
