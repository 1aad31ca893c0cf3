/** What one run of an organizer's `call` does, as a function of the table,
    the context and the steps: walk the entries in table order, evaluate
    each entry's condition against the context, invoke the step's `call!`
    when it is truthy, skip it when it is falsy, and stop at the first
    failure, which is handed back unchanged.

    A step and a condition are not part of the organizer: they are the
    parameters `step` and `guard`.  The shared context, which the steps
    mutate in place, is threaded as a value from one invoked step to the
    next. */
module Runner {
  import opened Declarations

  /** What a step's failing-fast `call!` produces: the context as the step
      left it, together with the failure it raised, if any. */
  datatype StepOutcome<C, E> = Done(ctx: C) | Raised(error: E, ctx: C)

  /** What evaluating a condition in the organizer instance produces: its
      Ruby truthiness, or the error the evaluation raised. */
  datatype Truth<E> = Truthy | Falsy | GuardRaised(error: E)

  /** What happened to one entry during a run, with the context its
      condition was evaluated against (and its step, if any, received). */
  datatype Event<C, E> =
    | Skipped(ctx: C)
    | Invoked(ctx: C)
    | GuardFailed(ctx: C, error: E)
    | StepFailed(ctx: C, error: E)
  {
    predicate IsFailure() {
      GuardFailed? || StepFailed?
    }
  }

  /** How a run ends: every entry was handled, or a failure propagated. */
  datatype Result<C, E> = Completed(ctx: C) | Failed(error: E, ctx: C)

  /** The events of a run, one per entry reached, and how it ended. */
  datatype Report<C, E> = Report(trace: seq<Event<C, E>>, result: Result<C, E>)

  /** `instance_exec(&condition)`: the stored `-> { true }` lambda is always
      truthy; any other condition is evaluated by `guard`. */
  function Check<G, C, E>(cond: Condition<G>, ctx: C, guard: (G, C) -> Truth<E>): (r: Truth<E>)
    ensures cond.AlwaysTrue? ==> r == Truthy
    ensures cond.Given? ==> r == guard(cond.guard, ctx)
  {
    match cond
    case AlwaysTrue => Truthy
    case Given(g) => guard(g, ctx)
  }

  /** The run of `call` over `table`, starting from context `ctx`. */
  function Walk<U, G, C, E>(table: seq<Entry<U, G>>, ctx: C,
                            guard: (G, C) -> Truth<E>, step: (U, C) -> StepOutcome<C, E>): (r: Report<C, E>)
    ensures |r.trace| <= |table|
    ensures r.result.Completed? ==> |r.trace| == |table|
    decreases |table|
  {
    if table == [] then Report([], Completed(ctx))
    else
      match Check(table[0].condition, ctx, guard)
      case GuardRaised(err) => Report([GuardFailed(ctx, err)], Failed(err, ctx))
      case Falsy =>
        var rest := Walk(table[1..], ctx, guard, step);
        Report([Skipped(ctx)] + rest.trace, rest.result)
      case Truthy =>
        match step(table[0].interactor, ctx)
        case Raised(err, after) => Report([StepFailed(ctx, err)], Failed(err, after))
        case Done(after) =>
          var rest := Walk(table[1..], after, guard, step);
          Report([Invoked(ctx)] + rest.trace, rest.result)
  }

  /** The context an entry leaves behind: the one it saw when its step was
      not invoked, otherwise the one its step left. */
  function Left<U, G, C, E>(entry: Entry<U, G>, ev: Event<C, E>, step: (U, C) -> StepOutcome<C, E>): C {
    match ev
    case Skipped(c) => c
    case GuardFailed(c, _) => c
    case Invoked(c) => step(entry.interactor, c).ctx
    case StepFailed(c, _) => step(entry.interactor, c).ctx
  }

  /** An event is what the entry's condition and step give at its context. */
  ghost predicate Agrees<U, G, C, E>(entry: Entry<U, G>, ev: Event<C, E>,
                                     guard: (G, C) -> Truth<E>, step: (U, C) -> StepOutcome<C, E>) {
    var truth := Check(entry.condition, ev.ctx, guard);
    match ev
    case Skipped(c) => truth == Falsy
    case GuardFailed(c, e) => truth == GuardRaised(e)
    case Invoked(c) => truth == Truthy && step(entry.interactor, c).Done?
    case StepFailed(c, e) => truth == Truthy && step(entry.interactor, c).Raised? && step(entry.interactor, c).error == e
  }

  /** The rules a run obeys, stated entry by entry, without recursion:
      events follow table order from the first entry on; the first entry
      sees the initial context and each later one the context its
      predecessor left; each event agrees with the condition and the step;
      only the last event may be a failure; a run without a failure reaches
      every entry and completes with the context the last entry left; a run
      with one fails with that very error. */
  ghost predicate ValidRun<U, G, C, E>(table: seq<Entry<U, G>>, ctx0: C,
                                       guard: (G, C) -> Truth<E>, step: (U, C) -> StepOutcome<C, E>,
                                       r: Report<C, E>) {
    var trace := r.trace;
    && |trace| <= |table|
    && (|trace| > 0 ==> trace[0].ctx == ctx0)
    && (forall j :: 0 <= j < |trace| - 1 ==> trace[j + 1].ctx == Left(table[j], trace[j], step))
    && (forall j :: 0 <= j < |trace| ==> Agrees(table[j], trace[j], guard, step))
    && (forall j :: 0 <= j < |trace| - 1 ==> !trace[j].IsFailure())
    && if |trace| > 0 && trace[|trace| - 1].IsFailure() then
         r.result == Failed(trace[|trace| - 1].error, Left(table[|trace| - 1], trace[|trace| - 1], step))
       else
         && |trace| == |table|
         && r.result == Completed(if trace == [] then ctx0 else Left(table[|trace| - 1], trace[|trace| - 1], step))
  }

  /** The run of `call` obeys the entry-by-entry rules. */
  lemma {:induction false} WalkIsValid<U, G, C, E>(table: seq<Entry<U, G>>, ctx: C,
                                                  guard: (G, C) -> Truth<E>, step: (U, C) -> StepOutcome<C, E>)
    ensures ValidRun(table, ctx, guard, step, Walk(table, ctx, guard, step))
  {
    if table != [] {
      var r := Walk(table, ctx, guard, step);
      var truth := Check(table[0].condition, ctx, guard);
      if truth == Falsy || (truth == Truthy && step(table[0].interactor, ctx).Done?) {
        var after := Left(table[0], r.trace[0], step);
        var rest := Walk(table[1..], after, guard, step);
        WalkIsValid(table[1..], after, guard, step);
        assert r.trace == [r.trace[0]] + rest.trace;
        ShiftValid(table, ctx, guard, step, r, rest);
      }
    }
  }

  /** A valid run of the remaining entries, preceded by a valid event for
      the first entry that is not a failure, is a valid run of the table. */
  lemma ShiftValid<U, G, C, E>(table: seq<Entry<U, G>>, ctx: C,
                               guard: (G, C) -> Truth<E>, step: (U, C) -> StepOutcome<C, E>,
                               r: Report<C, E>, rest: Report<C, E>)
    requires table != [] && r.trace != []
    requires r.trace == [r.trace[0]] + rest.trace && r.result == rest.result
    requires r.trace[0].ctx == ctx && !r.trace[0].IsFailure()
    requires Agrees(table[0], r.trace[0], guard, step)
    requires ValidRun(table[1..], Left(table[0], r.trace[0], step), guard, step, rest)
    ensures ValidRun(table, ctx, guard, step, r)
  {
  }

  /** The rules determine the run: whatever obeys them is the run of `call`. */
  lemma {:induction false} ValidRunIsWalk<U, G, C, E>(table: seq<Entry<U, G>>, ctx: C,
                                                     guard: (G, C) -> Truth<E>, step: (U, C) -> StepOutcome<C, E>,
                                                     r: Report<C, E>)
    requires ValidRun(table, ctx, guard, step, r)
    ensures r == Walk(table, ctx, guard, step)
  {
    if table != [] {
      var trace := r.trace;
      assert Agrees(table[0], trace[0], guard, step);
      if !trace[0].IsFailure() {
        var after := Left(table[0], trace[0], step);
        var rest := Report(trace[1..], r.result);
        forall j | 0 <= j < |rest.trace| ensures Agrees(table[1..][j], rest.trace[j], guard, step) {
          assert rest.trace[j] == trace[j + 1] && table[1..][j] == table[j + 1];
        }
        forall j | 0 <= j < |rest.trace| - 1
          ensures rest.trace[j + 1].ctx == Left(table[1..][j], rest.trace[j], step)
        {
          assert rest.trace[j + 1] == trace[j + 2] && table[1..][j] == table[j + 1];
        }
        if |rest.trace| > 0 {
          assert rest.trace[0] == trace[1];
          assert rest.trace[|rest.trace| - 1] == trace[|trace| - 1];
          assert table[1..][|rest.trace| - 1] == table[|trace| - 1];
        }
        ValidRunIsWalk(table[1..], after, guard, step, rest);
        assert trace == [trace[0]] + rest.trace;
      }
    }
  }

  /** Strict short-circuit: once the entries of `prefix` end the run with a
      failure, no entry after them is reached, whatever it is. */
  lemma {:induction false} FailureIgnoresLater<U, G, C, E>(prefix: seq<Entry<U, G>>, later: seq<Entry<U, G>>, ctx: C,
                                                          guard: (G, C) -> Truth<E>, step: (U, C) -> StepOutcome<C, E>)
    requires Walk(prefix, ctx, guard, step).result.Failed?
    ensures Walk(prefix + later, ctx, guard, step) == Walk(prefix, ctx, guard, step)
  {
    assert prefix != [];
    assert (prefix + later)[0] == prefix[0];
    assert (prefix + later)[1..] == prefix[1..] + later;
    match Check(prefix[0].condition, ctx, guard)
    case GuardRaised(_) =>
    case Falsy =>
      FailureIgnoresLater(prefix[1..], later, ctx, guard, step);
    case Truthy =>
      match step(prefix[0].interactor, ctx)
      case Raised(_, _) =>
      case Done(after) =>
        FailureIgnoresLater(prefix[1..], later, after, guard, step);
  }

  /** A run that gets through `prefix` goes on with `later` from the context
      `prefix` left, as a run of its own. */
  lemma {:induction false} WalkConcat<U, G, C, E>(prefix: seq<Entry<U, G>>, later: seq<Entry<U, G>>, ctx: C,
                                                 guard: (G, C) -> Truth<E>, step: (U, C) -> StepOutcome<C, E>)
    requires Walk(prefix, ctx, guard, step).result.Completed?
    ensures var first := Walk(prefix, ctx, guard, step);
            var second := Walk(later, first.result.ctx, guard, step);
            Walk(prefix + later, ctx, guard, step) == Report(first.trace + second.trace, second.result)
  {
    if prefix == [] {
      assert prefix + later == later;
    } else {
      assert (prefix + later)[0] == prefix[0];
      assert (prefix + later)[1..] == prefix[1..] + later;
      match Check(prefix[0].condition, ctx, guard)
      case GuardRaised(_) =>
      case Falsy =>
        WalkConcat(prefix[1..], later, ctx, guard, step);
      case Truthy =>
        match step(prefix[0].interactor, ctx)
        case Raised(_, _) =>
        case Done(after) =>
          WalkConcat(prefix[1..], later, after, guard, step);
    }
  }

  /** The steps whose `call!` a run reached, in order (the failing one too). */
  function InvokedUnits<U, G, C, E>(table: seq<Entry<U, G>>, trace: seq<Event<C, E>>): seq<U>
    requires |trace| <= |table|
  {
    if trace == [] then []
    else
      (if trace[0].Invoked? || trace[0].StepFailed? then [table[0].interactor] else [])
      + InvokedUnits(table[1..], trace[1..])
  }

  /** An entry whose condition is falsy in every context is inert: dropping
      it from the table changes neither the outcome nor the steps invoked. */
  lemma {:induction false} NeverTruthyEntryIsInert<U, G, C, E>(table: seq<Entry<U, G>>, k: nat, ctx: C,
                                                              guard: (G, C) -> Truth<E>, step: (U, C) -> StepOutcome<C, E>)
    requires k < |table|
    requires forall c :: Check(table[k].condition, c, guard) == Falsy
    ensures var whole := Walk(table, ctx, guard, step);
            var dropped := Walk(table[..k] + table[k + 1..], ctx, guard, step);
            && whole.result == dropped.result
            && InvokedUnits(table, whole.trace) == InvokedUnits(table[..k] + table[k + 1..], dropped.trace)
  {
    var pre, post := table[..k], table[k + 1..];
    assert table == pre + ([table[k]] + post);
    var first := Walk(pre, ctx, guard, step);
    if first.result.Failed? {
      FailureIgnoresLater(pre, [table[k]] + post, ctx, guard, step);
      FailureIgnoresLater(pre, post, ctx, guard, step);
      InvokedUnitsPrefix(pre, [table[k]] + post, first.trace);
      InvokedUnitsPrefix(pre, post, first.trace);
    } else {
      InertAfterPrefix(pre, table[k], post, ctx, guard, step);
    }
  }

  /** The case of `NeverTruthyEntryIsInert` where the run gets through the
      entries before the inert one. */
  lemma InertAfterPrefix<U, G, C, E>(pre: seq<Entry<U, G>>, inert: Entry<U, G>, post: seq<Entry<U, G>>, ctx: C,
                                     guard: (G, C) -> Truth<E>, step: (U, C) -> StepOutcome<C, E>)
    requires Walk(pre, ctx, guard, step).result.Completed?
    requires forall c :: Check(inert.condition, c, guard) == Falsy
    ensures var whole := Walk(pre + ([inert] + post), ctx, guard, step);
            var dropped := Walk(pre + post, ctx, guard, step);
            && whole.result == dropped.result
            && InvokedUnits(pre + ([inert] + post), whole.trace) == InvokedUnits(pre + post, dropped.trace)
  {
    var first := Walk(pre, ctx, guard, step);
    var mid := first.result.ctx;
    WalkConcat(pre, [inert] + post, ctx, guard, step);
    WalkConcat(pre, post, ctx, guard, step);
    var skip := Walk([inert] + post, mid, guard, step);
    var rest := Walk(post, mid, guard, step);
    assert ([inert] + post)[1..] == post;
    assert Check(inert.condition, mid, guard) == Falsy;
    assert skip == Report([Skipped(mid)] + rest.trace, rest.result);
    InvokedUnitsAppend(pre, [inert] + post, first.trace, skip.trace);
    InvokedUnitsAppend(pre, post, first.trace, rest.trace);
    assert InvokedUnits([inert] + post, skip.trace) == InvokedUnits(post, rest.trace) by {
      assert skip.trace[1..] == rest.trace;
    }
  }

  lemma {:induction false} InvokedUnitsAppend<U, G, C, E>(xs: seq<Entry<U, G>>, ys: seq<Entry<U, G>>,
                                                         s: seq<Event<C, E>>, t: seq<Event<C, E>>)
    requires |s| == |xs| && |t| <= |ys|
    ensures InvokedUnits(xs + ys, s + t) == InvokedUnits(xs, s) + InvokedUnits(ys, t)
  {
    if s == [] {
      assert xs + ys == ys && s + t == t;
    } else {
      assert (xs + ys)[1..] == xs[1..] + ys && (s + t)[1..] == s[1..] + t;
      assert (xs + ys)[0] == xs[0] && (s + t)[0] == s[0];
      InvokedUnitsAppend(xs[1..], ys, s[1..], t);
    }
  }

  lemma {:induction false} InvokedUnitsPrefix<U, G, C, E>(xs: seq<Entry<U, G>>, ys: seq<Entry<U, G>>, s: seq<Event<C, E>>)
    requires |s| <= |xs|
    ensures InvokedUnits(xs + ys, s) == InvokedUnits(xs, s)
  {
    if s != [] {
      assert (xs + ys)[1..] == xs[1..] + ys;
      assert (xs + ys)[0] == xs[0];
      InvokedUnitsPrefix(xs[1..], ys, s[1..]);
    }
  }

  /** Conditions whose truth does not depend on the context and never raise,
      such as constant lambdas `-> { true }` and `-> { false }`. */
  ghost predicate StaticGuards<G(!new), C(!new), E>(guard: (G, C) -> Truth<E>, truth: G -> bool) {
    forall g, c :: guard(g, c) == if truth(g) then Truthy else Falsy
  }

  /** The units of the entries whose condition holds, in table order. */
  function Selected<U, G>(table: seq<Entry<U, G>>, truth: G -> bool): seq<U> {
    if table == [] then []
    else
      (if table[0].condition.AlwaysTrue? || truth(table[0].condition.guard) then [table[0].interactor] else [])
      + Selected(table[1..], truth)
  }

  /** With conditions fixed in advance, a run invokes exactly the selected
      entries of the part of the table it reaches, in order, each once; it
      reaches the whole table unless a step fails, and then it stops at
      that step's entry, which is the last step invoked. */
  lemma {:induction false} StaticGuardsInvokeSelected<U, G(!new), C(!new), E>(table: seq<Entry<U, G>>, ctx: C,
                                                                 guard: (G, C) -> Truth<E>, truth: G -> bool,
                                                                 step: (U, C) -> StepOutcome<C, E>)
    requires StaticGuards(guard, truth)
    ensures var r := Walk(table, ctx, guard, step);
            && |r.trace| <= |table|
            && InvokedUnits(table, r.trace) == Selected(table[..|r.trace|], truth)
            && (r.result.Completed? ==> |r.trace| == |table|)
            && (r.result.Failed? ==> r.trace[|r.trace| - 1].StepFailed?)
  {
    if table != [] {
      var r := Walk(table, ctx, guard, step);
      var truth0 := Check(table[0].condition, ctx, guard);
      assert !truth0.GuardRaised? by {
        if table[0].condition.Given? {
          assert guard(table[0].condition.guard, ctx) == if truth(table[0].condition.guard) then Truthy else Falsy;
        }
      }
      var after := if truth0 == Truthy then step(table[0].interactor, ctx).ctx else ctx;
      if truth0 == Falsy || step(table[0].interactor, ctx).Done? {
        StaticGuardsInvokeSelected(table[1..], after, guard, truth, step);
        var rest := Walk(table[1..], after, guard, step);
        assert r.trace == [r.trace[0]] + rest.trace;
        assert table[..|r.trace|][1..] == table[1..][..|rest.trace|];
        assert truth0 == Truthy <==> (table[0].condition.AlwaysTrue? || truth(table[0].condition.guard));
      } else {
        assert table[..1][1..] == [];
      }
    }
  }
}
