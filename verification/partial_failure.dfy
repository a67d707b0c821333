/**
 * Batch processing that survives the failure of single items.
 *
 * A processor or fallback call that raises is a `Result` whose `Err` carries
 * the exception's message (`str(e)`); one that returns is `Ok` with the value.
 */
module PartialFailure {
  import opened Wrappers
  import opened PyStr

  /**
   * `OperationResult`. A success carries the processor's (or fallback's) data,
   * the note left when a fallback was used, and the item's position; a failure
   * carries the original item as its data and the processor's error.
   */
  datatype OperationResult<T, D> =
    | Succeeded(data: D, error: Option<Str>, index: int)
    | Failed(original: T, failure: Str, index: int)

  function UsedFallbackNote(e: Str): Str {
    Lit("Used fallback after error: ") + e
  }

  /** The result recorded for item `i` when the batch is not failing fast. */
  function ProcessItem<T, D>(item: T, i: int, processor: T -> Result<D, Str>,
                             fallback: Option<T -> Result<D, Str>>): OperationResult<T, D>
  {
    match processor(item)
    case Ok(d) => Succeeded(d, None, i)
    case Err(e) =>
      if fallback.Some? && fallback.value(item).Ok? then Succeeded(fallback.value(item).value, Some(UsedFallbackNote(e)), i)
      else Failed(item, e, i)
  }

  /** One result per item, in order, each recording its own position. */
  function Processed<T, D>(items: seq<T>, processor: T -> Result<D, Str>,
                           fallback: Option<T -> Result<D, Str>>): seq<OperationResult<T, D>>
  {
    seq(|items|, i requires 0 <= i < |items| => ProcessItem(items[i], i, processor, fallback))
  }

  /** The position of the first item the processor fails on. */
  function FirstFailure<T, D>(items: seq<T>, processor: T -> Result<D, Str>): (r: Option<nat>)
    ensures r.Some? ==> r.value < |items| && processor(items[r.value]).Err?
    ensures r.Some? ==> forall k :: 0 <= k < r.value ==> processor(items[k]).Ok?
    ensures r.None? ==> forall k :: 0 <= k < |items| ==> processor(items[k]).Ok?
  {
    if items == [] then None
    else if processor(items[0]).Err? then Some(0)
    else
      match FirstFailure(items[1..], processor)
      case None => None
      case Some(j) => Some(j + 1)
  }

  /**
   * What `process_batch` ends with: the results, or, when failing fast, the
   * error of the first item the processor fails on.
   */
  function BatchOutcome<T, D>(failFast: bool, items: seq<T>, processor: T -> Result<D, Str>,
                              fallback: Option<T -> Result<D, Str>>): Result<seq<OperationResult<T, D>>, Str>
  {
    if failFast && FirstFailure(items, processor).Some? then Err(processor(items[FirstFailure(items, processor).value]).error)
    else Ok(Processed(items, processor, fallback))
  }

  // ---------------------------------------------------------------- the getters

  /** `[r.data for r in results if r.success]`. */
  function SuccessfulData<T, D>(results: seq<OperationResult<T, D>>): seq<D> {
    if results == [] then []
    else (if results[0].Succeeded? then [results[0].data] else []) + SuccessfulData(results[1..])
  }

  /** `[(r.index, r.error) for r in results if not r.success]`. */
  function FailedEntries<T, D>(results: seq<OperationResult<T, D>>): seq<(int, Str)> {
    if results == [] then []
    else (if results[0].Failed? then [(results[0].index, results[0].failure)] else []) + FailedEntries(results[1..])
  }

  datatype Summary = Summary(total: nat, successful: nat, failed: int, successRate: real, errors: seq<Str>)

  /** `get_summary`'s dictionary. */
  function Summarize<T, D>(results: seq<OperationResult<T, D>>): (s: Summary)
    ensures s.total == |results|
    ensures s.successful == |SuccessfulData(results)|
    ensures s.failed == |FailedEntries(results)| == |s.errors| >= 0
    ensures s.successful <= s.total && s.successRate == SuccessRate(s.successful, s.total)
  {
    var total := |results|;
    var successful := |SuccessfulData(results)|;
    PartitionCount(results);
    ErrorsCount(results);
    Summary(total, successful, total - successful, SuccessRate(successful, total), FailureMessages(results))
  }

  /** `successful / total if total > 0 else 0`: the fraction of successes. */
  function SuccessRate(successful: nat, total: nat): (rate: real)
    requires successful <= total
    ensures 0.0 <= rate <= 1.0
    ensures total > 0 ==> rate * (total as real) == successful as real
    ensures total == 0 ==> rate == 0.0
  {
    if total > 0 then successful as real / total as real else 0.0
  }

  /** `[r.error for r in results if not r.success]`. */
  function FailureMessages<T, D>(results: seq<OperationResult<T, D>>): seq<Str> {
    if results == [] then []
    else (if results[0].Failed? then [results[0].failure] else []) + FailureMessages(results[1..])
  }

  /** The two getters partition the results by the success flag. */
  lemma {:induction false} PartitionCount<T, D>(results: seq<OperationResult<T, D>>)
    ensures |SuccessfulData(results)| + |FailedEntries(results)| == |results|
    decreases |results|
  {
    if results != [] {
      PartitionCount(results[1..]);
    }
  }

  lemma {:induction false} ErrorsCount<T, D>(results: seq<OperationResult<T, D>>)
    ensures |FailureMessages(results)| == |FailedEntries(results)|
    ensures forall k :: 0 <= k < |FailedEntries(results)| ==> FailureMessages(results)[k] == FailedEntries(results)[k].1
    decreases |results|
  {
    if results != [] {
      ErrorsCount(results[1..]);
    }
  }

  /** The getters keep the order of the results: they distribute over concatenation. */
  lemma {:induction false} SuccessfulConcat<T, D>(a: seq<OperationResult<T, D>>, b: seq<OperationResult<T, D>>)
    ensures SuccessfulData(a + b) == SuccessfulData(a) + SuccessfulData(b)
    decreases |a|
  {
    if a == [] {
      assert a + b == b;
    } else {
      assert (a + b)[1..] == a[1..] + b;
      SuccessfulConcat(a[1..], b);
      assert SuccessfulData(a + b) == (if a[0].Succeeded? then [a[0].data] else []) + SuccessfulData(a[1..] + b);
    }
  }

  lemma {:induction false} FailedConcat<T, D>(a: seq<OperationResult<T, D>>, b: seq<OperationResult<T, D>>)
    ensures FailedEntries(a + b) == FailedEntries(a) + FailedEntries(b)
    decreases |a|
  {
    if a == [] {
      assert a + b == b;
    } else {
      assert (a + b)[1..] == a[1..] + b;
      FailedConcat(a[1..], b);
      assert FailedEntries(a + b) == (if a[0].Failed? then [(a[0].index, a[0].failure)] else []) + FailedEntries(a[1..] + b);
    }
  }

  /** An entry is listed by `get_failed` exactly when some failed result carries that index and error. */
  lemma {:induction false} FailedEntriesMembers<T, D>(results: seq<OperationResult<T, D>>, e: (int, Str))
    ensures e in FailedEntries(results) <==>
      exists k :: 0 <= k < |results| && results[k].Failed? && e == (results[k].index, results[k].failure)
    decreases |results|
  {
    if results != [] {
      FailedEntriesMembers(results[1..], e);
      if e in FailedEntries(results[1..]) {
        var k :| 0 <= k < |results[1..]| && results[1..][k].Failed? && e == (results[1..][k].index, results[1..][k].failure);
        assert results[k + 1] == results[1..][k];
      }
      if exists k :: 0 <= k < |results| && results[k].Failed? && e == (results[k].index, results[k].failure) {
        var k :| 0 <= k < |results| && results[k].Failed? && e == (results[k].index, results[k].failure);
        if k > 0 {
          assert results[1..][k - 1] == results[k];
        }
      }
    }
  }

  /** When every result is a success, `get_successful` is their data, position by position. */
  lemma {:induction false} AllSucceeded<T, D>(results: seq<OperationResult<T, D>>)
    requires forall k :: 0 <= k < |results| ==> results[k].Succeeded?
    ensures |SuccessfulData(results)| == |results|
    ensures forall k :: 0 <= k < |results| ==> SuccessfulData(results)[k] == results[k].data
    ensures FailedEntries(results) == []
    decreases |results|
  {
    if results != [] {
      AllSucceeded(results[1..]);
    }
  }

  // ---------------------------------------------------------------- the handler

  /** `PartialFailureHandler`: a batch runner that remembers its last batch's results. */
  class PartialFailureHandler<T, D> {
    const failFast: bool
    var results: seq<OperationResult<T, D>>

    constructor (failFast: bool)
      ensures this.failFast == failFast && results == []
    {
      this.failFast := failFast;
      results := [];
    }

    /**
     * `process_batch`: run the processor on each item in order, falling back
     * on failure; store and return the results. When failing fast the first
     * processor error is raised and the stored results stay as they were.
     */
    method ProcessBatch(items: seq<T>, processor: T -> Result<D, Str>, fallback: Option<T -> Result<D, Str>>)
      returns (outcome: Result<seq<OperationResult<T, D>>, Str>)
      modifies this
      ensures outcome == BatchOutcome(failFast, items, processor, fallback)
      ensures results == if outcome.Ok? then outcome.value else old(results)
    {
      var batch: seq<OperationResult<T, D>> := [];
      var i := 0;
      while i < |items|
        invariant 0 <= i <= |items|
        invariant batch == Processed(items[..i], processor, fallback)
        invariant failFast ==> forall k :: 0 <= k < i ==> processor(items[k]).Ok?
      {
        var result: OperationResult<T, D>;
        match processor(items[i]) {
          case Ok(d) =>
            result := Succeeded(d, None, i);
          case Err(e) =>
            if failFast {
              FirstFailureIs(items, processor, i);
              return Err(e);
            }
            if fallback.Some? && fallback.value(items[i]).Ok? {
              result := Succeeded(fallback.value(items[i]).value, Some(UsedFallbackNote(e)), i);
            } else {
              result := Failed(items[i], e, i);
            }
        }
        batch := batch + [result];
        i := i + 1;
      }
      assert items[..i] == items;
      results := batch;
      outcome := Ok(batch);
    }

    /** `results or self.results`: an absent or empty argument selects the stored results. */
    function Chosen(given: Option<seq<OperationResult<T, D>>>): (r: seq<OperationResult<T, D>>)
      reads this
      ensures given.Some? && given.value != [] ==> r == given.value
      ensures given.None? || given == Some([]) ==> r == results
    {
      if given.Some? && given.value != [] then given.value else results
    }

    /** `get_successful`. */
    function GetSuccessful(given: Option<seq<OperationResult<T, D>>>): (r: seq<D>)
      reads this
      ensures |r| <= |Chosen(given)|
      ensures r == SuccessfulData(Chosen(given))
    {
      PartitionCount(Chosen(given));
      SuccessfulData(Chosen(given))
    }

    /** `get_failed`. */
    function GetFailed(given: Option<seq<OperationResult<T, D>>>): (r: seq<(int, Str)>)
      reads this
      ensures |GetSuccessful(given)| + |r| == |Chosen(given)|
      ensures r == FailedEntries(Chosen(given))
    {
      PartitionCount(Chosen(given));
      FailedEntries(Chosen(given))
    }

    /** `get_summary`. */
    function GetSummary(given: Option<seq<OperationResult<T, D>>>): (s: Summary)
      reads this
      ensures s.total == |Chosen(given)| && s.successful == |GetSuccessful(given)|
      ensures s.failed == |GetFailed(given)| == s.total - s.successful
    {
      Summarize(Chosen(given))
    }
  }

  /** The first failing position found by the loop is the one `FirstFailure` names. */
  lemma FirstFailureIs<T, D>(items: seq<T>, processor: T -> Result<D, Str>, i: nat)
    requires i < |items| && processor(items[i]).Err?
    requires forall k :: 0 <= k < i ==> processor(items[k]).Ok?
    ensures FirstFailure(items, processor) == Some(i)
  {
  }

  // ---------------------------------------------------------------- properties of process_batch

  /**
   * Without fail-fast there is one result per item, in order, with its index;
   * a processor success keeps its data and no error, a failure rescued by the
   * fallback keeps the fallback's data and a note of the error, and any other
   * failure keeps the original item and the processor's error.
   */
  lemma ProcessBatchShape<T, D>(items: seq<T>, processor: T -> Result<D, Str>,
                                fallback: Option<T -> Result<D, Str>>, i: nat)
    requires i < |items|
    ensures var out := BatchOutcome(false, items, processor, fallback);
      && out.Ok? && |out.value| == |items| && out.value[i].index == i
      && (processor(items[i]).Ok? ==> out.value[i] == Succeeded(processor(items[i]).value, None, i))
      && (processor(items[i]).Err? && fallback.Some? && fallback.value(items[i]).Ok? ==>
            out.value[i] == Succeeded(fallback.value(items[i]).value, Some(UsedFallbackNote(processor(items[i]).error)), i))
      && (processor(items[i]).Err? && (fallback.None? || fallback.value(items[i]).Err?) ==>
            out.value[i] == Failed(items[i], processor(items[i]).error, i))
  {
  }

  /**
   * With fail-fast the batch raises exactly when the processor fails on some
   * item, with the first such item's error and without trying any fallback;
   * otherwise the results are those of a batch without a fallback.
   */
  lemma FailFastOutcome<T, D>(items: seq<T>, processor: T -> Result<D, Str>, fallback: Option<T -> Result<D, Str>>)
    ensures var out := BatchOutcome(true, items, processor, fallback);
      && (out.Err? <==> exists k :: 0 <= k < |items| && processor(items[k]).Err?)
      && (out.Err? ==> exists k :: 0 <= k < |items| && processor(items[k]) == Err(out.error)
                                 && forall j :: 0 <= j < k ==> processor(items[j]).Ok?)
      && (out.Ok? ==> out == BatchOutcome(false, items, processor, None))
  {
    var f := FirstFailure(items, processor);
    if f.Some? {
      assert processor(items[f.value]) == Err(processor(items[f.value]).error);
    } else {
      assert Processed(items, processor, fallback) == Processed(items, processor, None);
    }
  }

  /**
   * When the fallback never raises, every item succeeds, so `get_successful`
   * has one entry per item: the processor's value, or else the fallback's.
   */
  lemma NeverFailingFallback<T, D>(items: seq<T>, processor: T -> Result<D, Str>, fallback: T -> Result<D, Str>)
    requires forall x :: fallback(x).Ok?
    ensures var rs := Processed(items, processor, Some(fallback));
      && |SuccessfulData(rs)| == |items| && FailedEntries(rs) == []
      && forall k :: 0 <= k < |items| ==>
           SuccessfulData(rs)[k] == if processor(items[k]).Ok? then processor(items[k]).value else fallback(items[k]).value
  {
    AllSucceeded(Processed(items, processor, Some(fallback)));
  }

  // ---------------------------------------------------------------- batch_rewrite_with_fallback

  /**
   * `batch_rewrite_with_fallback`: rewrite each bullet, keeping the original
   * bullet when the rewrite raises. Every bullet yields one output, so the
   * summary never reports a failure.
   */
  method BatchRewriteWithFallback(bullets: seq<Str>, rewrite: Str -> Result<Str, Str>)
    returns (rewritten: seq<Str>, summary: Summary)
    ensures |rewritten| == |bullets|
    ensures forall k :: 0 <= k < |bullets| ==>
      rewritten[k] == if rewrite(bullets[k]).Ok? then rewrite(bullets[k]).value else bullets[k]
    ensures summary.total == summary.successful == |bullets| && summary.failed == 0 && summary.errors == []
  {
    var handler := new PartialFailureHandler<Str, Str>(false);
    var keep: Str -> Result<Str, Str> := b => Ok(b);
    var outcome := handler.ProcessBatch(bullets, rewrite, Some(keep));
    NeverFailingFallback(bullets, rewrite, keep);
    var given := if outcome.Ok? then Some(outcome.value) else None;
    rewritten := handler.GetSuccessful(given);
    summary := handler.GetSummary(given);
  }

  // ---------------------------------------------------------------- validate_batch_results

  /** What calling a validator does: it returns a truth value or raises. */
  datatype Verdict = Returns(ok: bool) | Crashes(message: Str)

  /** A result passes when every validator returns true on it. */
  predicate PassesAll<R>(result: R, validators: seq<R -> Verdict>) {
    forall j :: 0 <= j < |validators| ==> validators[j](result) == Returns(true)
  }

  /**
   * `validate_batch_results`: one flag per result, true exactly when every
   * validator returns true; a false verdict or a crash stops the checking of
   * that result.
   */
  method ValidateBatchResults<R>(results: seq<R>, validators: seq<R -> Verdict>) returns (flags: seq<bool>)
    ensures |flags| == |results|
    ensures forall i :: 0 <= i < |results| ==> (flags[i] <==> PassesAll(results[i], validators))
  {
    flags := [];
    var i := 0;
    while i < |results|
      invariant 0 <= i <= |results| && |flags| == i
      invariant forall k :: 0 <= k < i ==> (flags[k] <==> PassesAll(results[k], validators))
    {
      var allValid := true;
      var j := 0;
      while j < |validators|
        invariant 0 <= j <= |validators|
        invariant allValid <==> forall m :: 0 <= m < j ==> validators[m](results[i]) == Returns(true)
        invariant !allValid ==> !PassesAll(results[i], validators)
      {
        match validators[j](results[i]) {
          case Returns(ok) =>
            if !ok {
              allValid := false;
              break;
            }
          case Crashes(_) =>
            allValid := false;
            break;
        }
        j := j + 1;
      }
      flags := flags + [allValid];
      i := i + 1;
    }
  }
}
