/** In which order the events of a dispatch come. */
module HookOrder {
  import opened HookDispatch
  import opened HookProperties

  // ----- Where an event can stand -----

  lemma {:induction false} NoneCounted(events: seq<Event>, kind: Kind, depth: nat)
    requires Count(events, kind, depth) == 0
    ensures forall i :: 0 <= i < |events| ==> !Is(events[i], kind, depth)
  {
    hide Is;
    if events != [] {
      NoneCounted(events[1..], kind, depth);
      forall i | 0 <= i < |events| ensures !Is(events[i], kind, depth) {
        if i > 0 { assert events[i] == events[1..][i - 1]; }
      }
    }
  }

  /** Events of the kind in a row of three parts stand in the parts that have any. */
  lemma StandIn(a: seq<Event>, b: seq<Event>, c: seq<Event>, kind: Kind, depth: nat, i: nat)
    requires i < |a + b + c| && Is((a + b + c)[i], kind, depth)
    ensures Count(a + b, kind, depth) == 0 ==> |a + b| <= i
    ensures Count(c, kind, depth) == 0 ==> i < |a + b|
  {
    hide Is;
    assert (a + b + c)[i] == if i < |a + b| then (a + b)[i] else c[i - |a + b|];
    if Count(a + b, kind, depth) == 0 { NoneCounted(a + b, kind, depth); }
    if Count(c, kind, depth) == 0 { NoneCounted(c, kind, depth); }
  }

  // ----- One dispatch -----

  /** The original has its turn before onLeave: onEnter called it, or left no result set. */
  predicate OriginalFirst(hook: Hook, run: Run) {
    !hook.onEnter || Calls(run.enter, 0) || !Custom(run.enter, 0, false)
  }

  /** The order of a dispatch: onEnter comes before everything else, and the original before onLeave
      exactly when onEnter has called it or left no result set. */
  lemma DispatchOrder(env: Env, m: Method, origin: Code, run: Run)
    requires m !in env.active && m in env.hooks && env.attached && EndsInBody(origin)
    ensures var events, hook := TraceDispatch(env, m, origin, run), env.hooks[m];
      && (hook.onEnter ==> events != [] && Is(events[0], Enters, env.depth) && events[0].m == m)
      && forall i, j ::
           (0 <= i < |events| && 0 <= j < |events|
            && Is(events[i], Originals, env.depth) && Is(events[j], Leaves, env.depth))
           ==> (i < j <==> OriginalFirst(hook, run))
  {
    hide TraceCode, TraceFrame, Is, EndsInBody, OriginalFirst;
    var events, hook := TraceDispatch(env, m, origin, run), env.hooks[m];
    assert events == TraceFrame(env.Enter(m), hook, m, origin, run);
    FrameBegins(env, hook, m, origin, run);
    forall i, j | 0 <= i < |events| && 0 <= j < |events|
      && Is(events[i], Originals, env.depth) && Is(events[j], Leaves, env.depth)
      ensures i < j <==> OriginalFirst(hook, run)
    {
      FrameOrder(env, hook, m, origin, run, i, j);
    }
  }

  lemma FrameBegins(outer: Env, hook: Hook, m: Method, origin: Code, run: Run)
    ensures var events := TraceFrame(outer.Enter(m), hook, m, origin, run);
      hook.onEnter ==> events != [] && Is(events[0], Enters, outer.depth) && events[0].m == m
  {
    hide TraceOps, TraceOriginal;
  }

  lemma FrameOrder(outer: Env, hook: Hook, m: Method, origin: Code, run: Run, i: nat, j: nat)
    requires m !in outer.active && EndsInBody(origin)
    requires var events := TraceFrame(outer.Enter(m), hook, m, origin, run);
      && i < |events| && j < |events|
      && Is(events[i], Originals, outer.depth) && Is(events[j], Leaves, outer.depth)
    ensures i < j <==> OriginalFirst(hook, run)
  {
    hide TraceCallback, TraceOriginal, Count, Custom, Calls, Is;
    var env, d := outer.Enter(m), outer.depth;
    var unused := Frame(false, false);
    CountOne(Original(m, 0, EMPTY), Originals, d);
    CountOne(Original(m, 0, EMPTY), Leaves, d);
    CallbackCount(outer, m, origin, run, false, unused, Originals);
    CallbackCount(outer, m, origin, run, false, unused, Leaves);
    var entered := if hook.onEnter then TraceCallback(env, m, origin, run, false, unused) else Outcome([], unused);
    OriginalCount(outer, m, origin, run, entered.frame, Originals);
    OriginalCount(outer, m, origin, run, entered.frame, Leaves);
    var middle := if entered.frame.custom then Outcome([], entered.frame)
                  else TraceOriginal(env, m, origin, run, entered.frame);
    CallbackCount(outer, m, origin, run, true, middle.frame, Originals);
    var left := if hook.onLeave then TraceCallback(env, m, origin, run, true, middle.frame)
                else Outcome([], middle.frame);
    CountAppend(entered.events, middle.events, Originals, d);
    CountAppend(entered.events, middle.events, Leaves, d);
    StandIn(entered.events, middle.events, left.events, Originals, d, i);
    StandIn(entered.events, middle.events, left.events, Leaves, d, j);
    LeaveStands(outer, m, origin, run, middle.frame);
    var n := |entered.events + middle.events|;
    var events := entered.events + middle.events + left.events;
    assert n <= j && events[j] == left.events[j - n];
    if n <= i { assert events[i] == left.events[i - n]; }
    NotOriginal(events[j], d);
  }

  lemma NotOriginal(e: Event, depth: nat)
    ensures !(Is(e, Leaves, depth) && Is(e, Originals, depth))
  {
  }

  /** onLeave is the first event of its stage and the only one of its kind. */
  lemma LeaveStands(outer: Env, m: Method, origin: Code, run: Run, frame: Frame)
    requires m !in outer.active
    ensures var events := TraceCallback(outer.Enter(m), m, origin, run, true, frame).events;
      forall k :: 0 < k < |events| ==> !Is(events[k], Leaves, outer.depth)
  {
    hide TraceOps, Count, Is;
    var e := Callback(m, true, outer.depth, outer.Enter(m).words);
    var r := TraceOps(outer.Enter(m), m, origin, run, true, 0, frame);
    OpsCount(outer, m, origin, run, true, 0, frame, Leaves);
    NoneCounted(r.events, Leaves, outer.depth);
    forall k | 0 < k < |[e] + r.events| ensures !Is(([e] + r.events)[k], Leaves, outer.depth) {
      assert ([e] + r.events)[k] == r.events[k - 1];
    }
  }

  // ----- The original and what it calls -----

  /** While m is active, the original is the first event of an entry through its bridges, and all that
      follows is nested in it. */
  lemma {:induction false} OriginalFirstOfAll(env: Env, m: Method, code: Code, run: Run)
    requires m in env.active && EndsInBody(code)
    ensures var events := TraceCode(env, m, code, run);
      && events != [] && events[0] == Original(m, env.depth, env.words)
      && forall k :: 0 < k < |events| ==> env.depth < events[k].depth
    decreases code
  {
    hide TraceCalls, AllFit;
    match code
    case Body =>
      var e, calls := Original(m, env.depth, env.words), TraceCalls(env.Deeper(), run, 0);
      CallsFit(env.Deeper(), run, 0);
      forall k | 0 < k < |[e] + calls| ensures env.depth < ([e] + calls)[k].depth {
        DeeperEvent(env, calls, k - 1);
      }
    case Bridge(_, origin) => OriginalFirstOfAll(env, m, origin, run);
  }

  lemma DeeperEvent(env: Env, events: seq<Event>, k: nat)
    requires AllFit(env.Deeper(), events) && k < |events|
    ensures env.depth < events[k].depth
  {
    assert Fits(env.Deeper(), events[k]);
  }

  lemma {:induction false} CallsShift(env: Env, run: Run, i: nat, run': Run, k: nat)
    requires i <= |run.body| && k <= |run'.body| && run.body[i..] == run'.body[k..]
    ensures TraceCalls(env, run, i) == TraceCalls(env, run', k)
    decreases |run.body| - i
  {
    hide TraceCode;
    assert |run.body| - i == |run.body[i..]| == |run'.body[k..]| == |run'.body| - k;
    if i < |run.body| {
      assert run.body[i] == run.body[i..][0] == run'.body[k..][0] == run'.body[k];
      assert run.body[i + 1..] == run.body[i..][1..] == run'.body[k..][1..] == run'.body[k + 1..];
      CallsShift(env, run, i + 1, run', k + 1);
    }
  }

  /** The calls of a body come one after the other: first those of its first part. */
  lemma {:induction false} CallsInOrder(env: Env, enter: seq<Op>, a: seq<Call>, b: seq<Call>, leave: seq<Op>)
    ensures TraceCalls(env, Run(enter, a + b, leave), 0)
         == TraceCalls(env, Run(enter, a, leave), 0) + TraceCalls(env, Run(enter, b, leave), 0)
    decreases |a|
  {
    hide TraceCode, TraceCalls;
    var whole, first := Run(enter, a + b, leave), Run(enter, a, leave);
    CallsStep(env, whole, 0);
    CallsStep(env, first, 0);
    if a == [] {
      assert a + b == b;
    } else {
      var rest, restFirst := Run(enter, a[1..] + b, leave), Run(enter, a[1..], leave);
      assert (a + b)[1..] == a[1..] + b;
      assert rest.body[0..] == rest.body && restFirst.body[0..] == restFirst.body;
      CallsShift(env, whole, 1, rest, 0);
      CallsShift(env, first, 1, restFirst, 0);
      CallsInOrder(env, enter, a[1..], b, leave);
      assert whole.body[0] == first.body[0] == a[0];
    }
  }

  lemma CallsStep(env: Env, run: Run, i: nat)
    requires i <= |run.body|
    ensures TraceCalls(env, run, i) ==
      if i == |run.body| then []
      else
        var call := run.body[i];
        TraceCode(env, call.target, env.EntryOf(call.target), call.run) + TraceCalls(env, run, i + 1)
  {
    hide TraceCode;
  }
}
