/** Properties that relate several transformer calls, or one call to another. */
module TransformLaws {
  import opened Openapi
  import opened Errors
  import opened Gen
  import opened TransformSpec

  /** `response::<N, R>()` is `response_with` under the transform that changes nothing. */
  lemma ResponseIsWithIdentity(op: Operation, oracle: Oracle, n: u16)
    ensures ResponseSpec(op, oracle, n) == ResponseWithSpec(op, oracle, n, Identity)
  {
  }

  /** Registering a response twice for the same code: the second one replaces the
      first and is reported as a duplicate. */
  lemma ResponseTwiceReplaces(op: Operation, first: Oracle, second: Oracle, n: u16)
    requires first(WithResponses(op)).Some?
    ensures var s1 := ResponseSpec(op, first, n);
      var s2 := ResponseSpec(s1.op, second, n);
      second(s1.op).Some? ==>
        && Table(s2.op)[Code(n)] == Item(second(s1.op).value)
        && s2.raised == [ResponseExists(Code(n))]
  {
  }

  /** Setting a default twice: the first one stays and the second is reported. */
  lemma DefaultResponseFirstWins(op: Operation, first: Oracle, second: Oracle)
    requires first(WithResponses(op)).Some?
    ensures var s1 := DefaultResponseSpec(op, first);
      var s2 := DefaultResponseSpec(s1.op, second);
      && DefaultOf(s2.op) == DefaultOf(s1.op) && DefaultOf(s1.op).Some?
      && (second(s1.op).Some? ==> s2.raised == [DefaultResponseExists])
      && (second(s1.op).None? ==> s2.raised == [])
  {
  }

  /** Once the only parameter called `name` has been hidden, looking it up again
      reports that it does not exist. */
  lemma HiddenParameterIsGone(op: Operation, name: string, edit: ParameterEdit, again: ParameterEdit)
    requires edit.hide
    requires forall j, k :: 0 <= j < k < |op.parameters| ==> !(Named(op.parameters[j], name) && Named(op.parameters[k], name))
    ensures var s1 := ParameterSpec(op, name, edit);
      ParameterSpec(s1.op, name, again).raised == [ParameterNotExists(name)]
  {
  }

  /** After the sweep with a transform that does not hide, an operation has a default
      exactly when it had one or one could be derived for it; an existing default
      and every status-code table are kept. */
  lemma DefaultSweepFillsDefaults(ops: seq<Operation>, oracle: Oracle, edit: ResponseEdit)
    requires !edit.hide
    ensures var r := DefaultSweep(ops, oracle, edit);
      forall i :: 0 <= i < |ops| ==>
        && (DefaultOf(r.ops[i]).Some? <==> DefaultOf(ops[i]).Some? || oracle(WithResponses(ops[i])).Some?)
        && (DefaultOf(ops[i]).Some? ==> DefaultOf(r.ops[i]) == DefaultOf(ops[i]))
        && Table(r.ops[i]) == Table(ops[i])
  {
  }

  /** The same at document level: in every inline path item, every operation ends up
      with a default exactly when it had one or one is derived for it, an existing
      default is kept, and the keyed table is untouched. */
  lemma DocumentSweepFillsDefaults(api: OpenApi, oracle: Oracle, edit: ResponseEdit, i: nat, k: nat)
    requires !edit.hide
    requires api.paths.Some? && i < |api.paths.value.paths|
    requires api.paths.value.paths[i].1.Item? && k < |api.paths.value.paths[i].1.item.operations|
    ensures var op := api.paths.value.paths[i].1.item.operations[k];
      var entry := SweepApi(api, oracle, edit).paths.value.paths[i];
      && entry.0 == api.paths.value.paths[i].0
      && entry.1.Item? && k < |entry.1.item.operations|
      && var swept := entry.1.item.operations[k];
      && (DefaultOf(swept).Some? <==> DefaultOf(op).Some? || oracle(WithResponses(op)).Some?)
      && (DefaultOf(op).Some? ==> DefaultOf(swept) == DefaultOf(op))
      && Table(swept) == Table(op)
  {
  }

  /** An operation that already has a default, and for which a response is derived,
      makes the sweep report `DefaultResponseExists`. */
  lemma {:induction false} DefaultSweepReportsExisting(ops: seq<Operation>, oracle: Oracle, edit: ResponseEdit, i: nat)
    requires i < |ops|
    requires DefaultOf(ops[i]).Some? && oracle(WithResponses(ops[i])).Some?
    ensures DefaultResponseExists in DefaultSweep(ops, oracle, edit).raised
    decreases |ops|
  {
    var init := ops[..|ops| - 1];
    if i < |ops| - 1 {
      assert init[i] == ops[i];
      DefaultSweepReportsExisting(init, oracle, edit, i);
    } else {
      assert DefaultResponseWithSpec(ops[i], oracle, edit).raised == [DefaultResponseExists];
    }
  }

  /** The same across the inline path items of a document. */
  lemma {:induction false} SweepPathsReportsExisting(paths: seq<(string, ReferenceOr<PathItem>)>, oracle: Oracle,
                                                     edit: ResponseEdit, i: nat, k: nat)
    requires i < |paths| && paths[i].1.Item? && k < |paths[i].1.item.operations|
    requires var op := paths[i].1.item.operations[k];
      DefaultOf(op).Some? && oracle(WithResponses(op)).Some?
    ensures DefaultResponseExists in SweepPaths(paths, oracle, edit).raised
    decreases |paths|
  {
    var init := paths[..|paths| - 1];
    if i < |paths| - 1 {
      assert init[i] == paths[i];
      SweepPathsReportsExisting(init, oracle, edit, i, k);
    } else {
      DefaultSweepReportsExisting(paths[i].1.item.operations, oracle, edit, k);
    }
  }

  /** An error the filter shows is never lost. */
  lemma {:induction false} ShownKeeps(show: Error -> bool, es: seq<Error>, e: Error)
    requires e in es && show(e)
    ensures e in Shown(show, es)
    decreases |es|
  {
    if es[|es| - 1] != e {
      var init := es[..|es| - 1];
      assert es == init + [es[|es| - 1]];
      ShownKeeps(show, init, e);
    }
  }

  /** Unlike `default_response`, the document-level `default_response_with` installs no
      filter: a pre-existing default is reported to the log whenever the current filter
      shows that error. */
  lemma DocumentDefaultWithReportsExisting(api: OpenApi, show: Error -> bool, oracle: Oracle,
                                           edit: ResponseEdit, i: nat, k: nat)
    requires api.paths.Some? && show(DefaultResponseExists)
    requires var ps := api.paths.value.paths;
      i < |ps| && ps[i].1.Item? && k < |ps[i].1.item.operations|
    requires var op := api.paths.value.paths[i].1.item.operations[k];
      DefaultOf(op).Some? && oracle(WithResponses(op)).Some?
    ensures DefaultResponseExists in Shown(show, SweepPaths(api.paths.value.paths, oracle, edit).raised)
  {
    SweepPathsReportsExisting(api.paths.value.paths, oracle, edit, i, k);
    ShownKeeps(show, SweepPaths(api.paths.value.paths, oracle, edit).raised, DefaultResponseExists);
  }

  // ---------------------------------------------------------------------------
  // response_range

  /** As written, `response_range::<2, R>()` on an operation whose table already holds
      the exact code 2 overwrites that entry, never creates the range key 2XX, and
      reports the range as the duplicate. */
  lemma ResponseRangeMisfiled()
    ensures var taken := Response("taken", []);
      var derived := Response("derived", []);
      var op := Operation(None, None, [], Some(Responses(None, map[Code(2) := Item(taken)])));
      var s := ResponseRangeSpec(op, (o: Operation) => Some(derived), 2);
      && Table(s.op) == map[Code(2) := Item(derived)]
      && Range(2) !in Table(s.op)
      && s.raised == [ResponseExists(Range(2))]
  {
  }

  /** The documented behaviour: `response_range` agrees with `response_range_with`
      under the transform that changes nothing. */
  lemma ResponseRangeIntendedIsWithIdentity(op: Operation, oracle: Oracle, n: u16)
    ensures ResponseRangeIntendedSpec(op, oracle, n) == ResponseRangeWithSpec(op, oracle, n, Identity)
  {
  }

  /** ... whereas as written the two disagree on a fresh status code: only
      `response_range` creates the exact-code entry. */
  lemma ResponseRangeDiffersFromWith(op: Operation, oracle: Oracle, n: u16)
    requires oracle(WithResponses(op)).Some? && Code(n) !in Table(op)
    ensures Code(n) in Table(ResponseRangeSpec(op, oracle, n).op)
    ensures Code(n) !in Table(ResponseRangeWithSpec(op, oracle, n, Identity).op)
    ensures ResponseRangeSpec(op, oracle, n) != ResponseRangeWithSpec(op, oracle, n, Identity)
  {
  }
}
