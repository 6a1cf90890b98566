/** `Once<T>`: an action run at most once, its result kept for every later
    call. The action is represented by what running it does: yield a
    value or throw. Calls are taken one after another. */
module OnceGuard {
  import opened Outcomes

  /** What running the action, or calling the guard, does. */
  datatype Outcome<T> = Returns(value: T) | Throws

  /** The action still to run (`None` once it has been taken out) and the
      stored result. */
  datatype Once<T> = Once(todo: Option<Outcome<T>>, result: T)

  /** A fresh guard: the action is pending and the stored result is the
      type's default value. */
  function New<T>(action: Outcome<T>, default: T): (o: Once<T>)
    ensures o.todo == Some(action) && o.result == default
  {
    Once(Some(action), default)
  }

  /** What a call did, the guard after it, and whether the call ran the
      action. */
  datatype Done<T> = Done(outcome: Outcome<T>, next: Once<T>, ran: bool)

  /** `EnsureDone`: takes the pending action out of the guard before running
      it; if there was one, runs it and stores its result. Returns the
      stored result. An action that throws has already been taken out, so
      the exception reaches this caller, the stored result stays as it was,
      and no later call runs the action again. */
  function EnsureDone<T>(o: Once<T>): (r: Done<T>)
    ensures r.ran <==> o.todo.Some?
    ensures r.next.todo.None?
    ensures r.outcome.Throws? <==> o.todo == Some(Throws)
    ensures r.outcome.Returns? ==> r.next.result == r.outcome.value
    ensures o.todo.Some? ==> r.outcome == o.todo.value
    ensures o.todo == Some(Throws) ==> r.next.result == o.result
    ensures o.todo.None? ==> r.outcome == Returns(o.result) && r.next == o
  {
    match o.todo
    case Some(Returns(v)) => Done(Returns(v), Once(None, v), true)
    case Some(Throws) => Done(Throws, Once(None, o.result), true)
    case None => Done(Returns(o.result), o, false)
  }

  /** What every call after the first returns: the action's value if it
      yielded one, otherwise the stored result (the default, when the
      action threw). */
  function Settled<T>(o: Once<T>): (v: T)
    ensures o.todo.Some? && o.todo.value.Returns? ==> v == o.todo.value.value
    ensures !(o.todo.Some? && o.todo.value.Returns?) ==> v == o.result
  {
    if o.todo.Some? && o.todo.value.Returns? then o.todo.value.value else o.result
  }

  /** A second call neither runs anything nor changes anything, and returns
      the settled value, even when the first call threw. */
  lemma SecondCallRepeats<T>(o: Once<T>)
    ensures var first := EnsureDone(o);
            EnsureDone(first.next) == Done(Returns(Settled(o)), first.next, false)
  {
  }

  /** `n` calls in a row: the action runs exactly once if it was pending and
      there was at least one call. The first call does what the action does
      (or returns the stored result if nothing was pending); every later
      call returns the settled value and never retries a thrown action. */
  method EnsureDoneMany<T>(o: Once<T>, n: nat) returns (outcomes: seq<Outcome<T>>, runs: nat, last: Once<T>)
    ensures |outcomes| == n
    ensures runs == (if o.todo.Some? && n > 0 then 1 else 0)
    ensures n > 0 ==> outcomes[0] == (if o.todo.Some? then o.todo.value else Returns(o.result))
    ensures forall i :: 1 <= i < n ==> outcomes[i] == Returns(Settled(o))
    ensures n > 0 ==> last.todo.None? && last.result == Settled(o)
  {
    outcomes, runs, last := [], 0, o;
    while |outcomes| < n
      invariant |outcomes| <= n
      invariant runs == (if o.todo.Some? && |outcomes| > 0 then 1 else 0)
      invariant |outcomes| == 0 ==> last == o
      invariant |outcomes| > 0 ==> last.todo.None? && last.result == Settled(o)
      invariant |outcomes| > 0 ==> outcomes[0] == (if o.todo.Some? then o.todo.value else Returns(o.result))
      invariant forall i :: 1 <= i < |outcomes| ==> outcomes[i] == Returns(Settled(o))
    {
      var d := EnsureDone(last);
      outcomes := outcomes + [d.outcome];
      if d.ran {
        runs := runs + 1;
      }
      last := d.next;
    }
  }
}
