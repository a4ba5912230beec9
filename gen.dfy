/** The generation context the transformers report errors into. */
module Gen {
  import opened Errors

  /** The errors of `es` that the filter `show` lets through, in order. */
  function Shown(show: Error -> bool, es: seq<Error>): (r: seq<Error>)
    ensures |r| <= |es|
    ensures forall i :: 0 <= i < |r| ==> show(r[i])
  {
    if es == [] then []
    else Shown(show, es[..|es| - 1]) + (if show(es[|es| - 1]) then [es[|es| - 1]] else [])
  }

  lemma {:induction false} ShownAppend(show: Error -> bool, a: seq<Error>, b: seq<Error>)
    ensures Shown(show, a + b) == Shown(show, a) + Shown(show, b)
    decreases |b|
  {
    if b == [] {
      assert a + b == a;
    } else {
      var b' := b[..|b| - 1];
      assert (a + b)[..|a + b| - 1] == a + b';
      ShownAppend(show, a, b');
    }
  }

  /** The error log an error handler would receive, and the filter consulted
      before an error is passed on. */
  class GenContext {
    var log: seq<Error>
    var showError: Error -> bool
    /** The filter that resetting the error filter restores. */
    const defaultFilter: Error -> bool

    constructor (defaultFilter: Error -> bool)
      ensures this.defaultFilter == defaultFilter
      ensures showError == defaultFilter && log == []
    {
      this.defaultFilter := defaultFilter;
      showError := defaultFilter;
      log := [];
    }

    /** Reports `e`; it reaches the log only if the current filter shows it. */
    method RecordError(e: Error)
      modifies this
      ensures showError == old(showError)
      ensures log == old(log) + Shown(showError, [e])
      ensures showError(e) ==> log == old(log) + [e]
      ensures !showError(e) ==> log == old(log)
    {
      assert [e][..0] == [];
      if showError(e) {
        log := log + [e];
      }
    }

    method SetErrorFilter(show: Error -> bool)
      modifies this
      ensures showError == show && log == old(log)
    {
      showError := show;
    }

    method ResetErrorFilter()
      modifies this
      ensures showError == defaultFilter && log == old(log)
    {
      showError := defaultFilter;
    }
  }
}
