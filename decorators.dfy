/**
 * The two decorators of python/commons/decorators.py.
 *
 * `retry(times, interval, exceptions, handler)` calls the wrapped function
 * until it returns, re-raising once `times` listed failures have happened
 * and letting any other exception through at once; a negative `interval`
 * makes the first `time.sleep` raise `ValueError`. The successive results of
 * the wrapped function are an input: the sequence of what each call would do.
 *
 * `dryrun_stub(dry_run, handler)` either calls the wrapped function or hands
 * the handler a `DRY_RUN:` line describing the call.
 */
module Decorators {
  import opened Wrappers

  // ---------------------------------------------------------------------
  // retry
  // ---------------------------------------------------------------------

  /** How one call of the wrapped function ends. */
  datatype Attempt<R, E> = Returned(value: R) | Raised(error: E)

  /** What the retry wrapper does, in order: call the function, call the handler, sleep. */
  datatype Effect<E> = Call | Handle(error: E) | Sleep(seconds: int)

  /**
   * How a call of the wrapper ends: the function's result, an exception
   * raised out of the wrapper, the `ValueError` that `time.sleep` raises for
   * a negative interval, or `StillRetrying` when the supplied attempts ran
   * out while the wrapper would go on calling the function.
   */
  datatype Outcome<R, E> = Ok(value: R) | Raise(error: E) | NegativeSleep | StillRetrying

  /** A failure the wrapper retries on (`except exceptions as e`). */
  predicate Retryable<R, E>(a: Attempt<R, E>, exceptions: set<E>)
  {
    a.Raised? && a.error in exceptions
  }

  /**
   * The wrapper of `retry`. `calls` is how many attempts it consumed and
   * `effects` what it did, in order.
   */
  method Retry<R, E>(times: int, interval: int, exceptions: set<E>, attempts: seq<Attempt<R, E>>)
    returns (r: Outcome<R, E>, calls: nat, effects: seq<Effect<E>>)
    ensures calls <= |attempts|
    // every attempt before the last one made was a retried, listed failure
    ensures forall j :: 0 <= j < calls - 1 ==> Retryable(attempts[j], exceptions)
    // the first successful call decides the result; nothing is called after it
    ensures r.Ok? <==> calls > 0 && attempts[calls - 1].Returned?
    ensures r.Ok? ==> r.value == attempts[calls - 1].value
    // an exception leaves the wrapper when it is not listed, or on the `times`-th listed failure
    ensures r.Raise? ==> calls > 0 && attempts[calls - 1] == Raised(r.error)
    ensures r.Raise? ==> r.error !in exceptions || calls == times
    ensures calls > 0 && Retryable(attempts[calls - 1], exceptions) && !r.StillRetrying? && !r.NegativeSleep? ==>
      calls == times
    ensures r.StillRetrying? ==>
      calls == |attempts| && (forall j :: 0 <= j < calls ==> Retryable(attempts[j], exceptions))
    ensures r.StillRetrying? ==> times <= 0 || |attempts| < times
    // with a negative interval the first sleep raises, so the function is called at most once
    ensures r.NegativeSleep? <==>
      interval < 0 && times != 1 && |attempts| > 0 && Retryable(attempts[0], exceptions)
    ensures r.NegativeSleep? ==> calls == 1
    ensures interval < 0 ==> calls <= 1
    // with times >= 1 the function is called at most `times` times
    ensures times >= 1 ==> calls <= times
    // a non-positive count never gives up on listed failures
    ensures times <= 0 && (forall j :: 0 <= j < |attempts| ==> Retryable(attempts[j], exceptions)) ==>
      r.StillRetrying? || r.NegativeSleep?
    // each retried failure is followed by one handler call and one sleep; the last call by neither
    ensures var retried := if r.StillRetrying? || r.NegativeSleep? then calls else calls - 1;
      && |effects| == 3 * retried + calls - retried
      && (forall j :: 0 <= j < retried ==>
            Retryable(attempts[j], exceptions) && effects[3 * j] == Call && effects[3 * j + 1] == Handle(attempts[j].error)
            && effects[3 * j + 2] == Sleep(interval))
      && (retried < calls ==> effects[3 * retried] == Call)
  {
    var n := times;
    calls := 0;
    effects := [];
    while calls < |attempts|
      invariant calls <= |attempts|
      invariant n == times - calls
      invariant times >= 1 ==> calls < times
      invariant interval < 0 ==> calls == 0
      invariant forall j :: 0 <= j < calls ==> Retryable(attempts[j], exceptions)
      invariant |effects| == 3 * calls
      invariant forall j :: 0 <= j < calls ==>
        effects[3 * j] == Call && effects[3 * j + 1] == Handle(attempts[j].error)
        && effects[3 * j + 2] == Sleep(interval)
      decreases |attempts| - calls
    {
      effects := effects + [Call];
      var a := attempts[calls];
      calls := calls + 1;
      match a {
        case Returned(v) =>
          return Ok(v), calls, effects;
        case Raised(e) =>
          if e !in exceptions {
            return Raise(e), calls, effects;
          }
          n := n - 1;
          if n == 0 {
            return Raise(e), calls, effects;
          }
          effects := effects + [Handle(e), Sleep(interval)];
          if interval < 0 {
            return NegativeSleep, calls, effects;
          }
      }
    }
    r := StillRetrying;
  }

  // ---------------------------------------------------------------------
  // dryrun_stub
  // ---------------------------------------------------------------------

  /** The `dry_run` argument: a fixed boolean, or a callable asked again on every call. */
  datatype DryRun = Flag(value: bool) | Probe

  /** What one call of the dry-run wrapper does. */
  datatype StubCall<R> = StubCall(calledFunction: bool, returned: Option<R>, logged: Option<string>)

  /** `"k=v"` for each bound argument except `self`, in binding order. */
  function Items(args: seq<(string, string)>): seq<string>
  {
    if args == [] then []
    else if args[0].0 == "self" then Items(args[1..])
    else [args[0].0 + "=" + args[0].1] + Items(args[1..])
  }

  /** `sep.join(parts)`. */
  function Join(sep: string, parts: seq<string>): string
  {
    if parts == [] then ""
    else if |parts| == 1 then parts[0]
    else parts[0] + sep + Join(sep, parts[1..])
  }

  /**
   * `argstr`: the bound arguments (already turned into text) as `k=v`, joined
   * by ", ". It is empty exactly when every bound argument is `self`.
   */
  function ArgString(args: seq<(string, string)>): (r: string)
    ensures r == "" <==> forall i :: 0 <= i < |args| ==> args[i].0 == "self"
  {
    ItemsNonEmpty(args);
    JoinEmptyIff(", ", Items(args));
    ItemsEmptyIff(args);
    Join(", ", Items(args))
  }

  /** The line handed to the handler instead of calling `name`. */
  function StubMessage(name: string, args: seq<(string, string)>): string
  {
    "DRY_RUN:\n" + name + "(" + ArgString(args) + ")"
  }

  /**
   * One call of the wrapper. `probe` is what a callable `dry_run` answers at
   * this call; `result` is what the wrapped function would return.
   */
  function DryRunWrapper<R>(dryRun: DryRun, probe: bool, name: string, args: seq<(string, string)>, result: R)
    : (c: StubCall<R>)
    ensures c.calledFunction <==> c.logged.None?
    ensures c.calledFunction ==> c.returned == Some(result)
    ensures !c.calledFunction ==> c.returned.None? && c.logged == Some(StubMessage(name, args))
    ensures c.calledFunction <==> !(if dryRun.Flag? then dryRun.value else probe)
  {
    var isDry := match dryRun
      case Flag(b) => b
      case Probe => probe;
    if isDry then StubCall(false, None, Some(StubMessage(name, args)))
    else StubCall(true, Some(result), None)
  }

  /** Every item holds an `=`, so none is empty. */
  lemma {:induction false} ItemsNonEmpty(args: seq<(string, string)>)
    ensures forall i :: 0 <= i < |Items(args)| ==> Items(args)[i] != ""
  {
    if args != [] {
      ItemsNonEmpty(args[1..]);
      if args[0].0 != "self" {
        var item := args[0].0 + "=" + args[0].1;
        assert item[|args[0].0|] == '=';
      }
    }
  }

  /** Joining non-empty parts gives the empty string only for no parts. */
  lemma {:induction false} JoinEmptyIff(sep: string, parts: seq<string>)
    requires forall i :: 0 <= i < |parts| ==> parts[i] != ""
    ensures Join(sep, parts) == "" <==> parts == []
  {
    if |parts| > 1 {
      assert |Join(sep, parts)| >= |parts[0]| > 0;
    }
  }

  /** No item is produced exactly when every argument is `self`. */
  lemma {:induction false} ItemsEmptyIff(args: seq<(string, string)>)
    ensures Items(args) == [] <==> forall i :: 0 <= i < |args| ==> args[i].0 == "self"
  {
    if args != [] {
      ItemsEmptyIff(args[1..]);
      if args[0].0 == "self" {
        forall i | 1 <= i < |args| ensures args[i].0 == args[1..][i - 1].0 { }
      }
    }
  }

  /** The items of two argument lists are the items of each, in order. */
  lemma {:induction false} ItemsAppend(a: seq<(string, string)>, b: seq<(string, string)>)
    ensures Items(a + b) == Items(a) + Items(b)
  {
    if a != [] {
      assert (a + b)[1..] == a[1..] + b;
      ItemsAppend(a[1..], b);
    } else {
      assert a + b == b;
    }
  }

  /** `self` is left out wherever it stands: removing it from the bound arguments changes nothing. */
  lemma SelfIsSkipped(before: seq<(string, string)>, v: string, after: seq<(string, string)>)
    ensures ArgString(before + [("self", v)] + after) == ArgString(before + after)
  {
    ItemsAppend(before + [("self", v)], after);
    ItemsAppend(before, [("self", v)]);
    ItemsAppend(before, after);
    assert [("self", v)][1..] == [];
    assert Items([("self", v)]) == [];
    assert Items(before) + Items([("self", v)]) + Items(after) == Items(before) + Items(after);
  }
}
