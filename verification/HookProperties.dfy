/** What every run of hook dispatches guarantees: callbacks are not re-entered, they see an empty
    managed stack, and each dispatch runs the original at most once. */
module HookProperties {
  import opened HookDispatch

  // ----- Where events can come from -----

  /** The event fits an invocation in this scope: it is nested in it, it is not a callback of a
      method that is already being dispatched, and once the managed stack is empty it stays so; where
      the stack is not known it is never touched. */
  predicate Fits(env: Env, e: Event) {
    && env.depth <= e.depth
    && (e.Callback? ==> e.m !in env.active)
    && (env.known && (e.Callback? || env.words == EMPTY) ==> e.seen == EMPTY)
    && (!env.known ==> e.seen == env.words)
  }

  predicate AllFit(env: Env, events: seq<Event>) {
    forall i :: 0 <= i < |events| ==> Fits(env, events[i])
  }

  /** Every event of the inner scope also fits the outer one. */
  predicate Within(inner: Env, outer: Env) {
    && outer.depth <= inner.depth && outer.active <= inner.active && inner.known == outer.known
    && (outer.known && outer.words == EMPTY ==> inner.words == EMPTY)
    && (!outer.known ==> inner.words == outer.words)
  }

  lemma AllFitOutside(inner: Env, outer: Env, events: seq<Event>)
    requires Within(inner, outer) && AllFit(inner, events)
    ensures AllFit(outer, events)
  {
  }

  lemma AllFitAppend(env: Env, a: seq<Event>, b: seq<Event>)
    requires AllFit(env, a) && AllFit(env, b)
    ensures AllFit(env, a + b)
  {
  }

  lemma {:induction false} CodeFits(env: Env, m: Method, code: Code, run: Run)
    ensures AllFit(env, TraceCode(env, m, code, run))
    decreases run, code, 3, 0
  {
    hide TraceCalls, TraceDispatch, AllFit;
    match code
    case Null => NothingFits(env);
    case Body =>
      CallsFit(env.Deeper(), run, 0);
      AllFitOutside(env.Deeper(), env, TraceCalls(env.Deeper(), run, 0));
      OneFits(env, Original(m, env.depth, env.words));
      AllFitAppend(env, [Original(m, env.depth, env.words)], TraceCalls(env.Deeper(), run, 0));
    case Bridge(_, origin) => DispatchFits(env, m, origin, run);
  }

  lemma NothingFits(env: Env)
    ensures AllFit(env, [])
  {
  }

  lemma OneFits(env: Env, e: Event)
    requires Fits(env, e)
    ensures AllFit(env, [e])
  {
  }

  lemma {:induction false} CallsFit(env: Env, run: Run, i: nat)
    requires i <= |run.body|
    ensures AllFit(env, TraceCalls(env, run, i))
    decreases run, Body, 0, |run.body| - i
  {
    hide TraceCode, AllFit;
    if i == |run.body| {
      NothingFits(env);
    } else {
      var call := run.body[i];
      var first := TraceCode(env, call.target, env.EntryOf(call.target), call.run);
      CodeFits(env, call.target, env.EntryOf(call.target), call.run);
      CallsFit(env, run, i + 1);
      AllFitAppend(env, first, TraceCalls(env, run, i + 1));
    }
  }

  lemma {:induction false} DispatchFits(env: Env, m: Method, origin: Code, run: Run)
    ensures AllFit(env, TraceDispatch(env, m, origin, run))
    decreases run, origin, 7, 0
  {
    hide TraceCode, TraceFrame, AllFit;
    NothingFits(env);
    if m in env.active {
      CodeFits(env, m, origin, run);
    } else if m in env.hooks && env.attached {
      FrameFits(env, env.Enter(m), env.hooks[m], m, origin, run);
    }
  }

  /** env is the scope of a dispatch of m, seen from a scope in which m is not active. */
  predicate Framed(outer: Env, env: Env, m: Method) {
    && m !in outer.active && env.active == outer.active + {m}
    && env.depth == outer.depth && env.known == outer.known
    && (if env.known then env.words == EMPTY else env.words == outer.words)
  }

  lemma {:induction false} FrameFits(outer: Env, env: Env, hook: Hook, m: Method, origin: Code, run: Run)
    requires Framed(outer, env, m)
    ensures AllFit(outer, TraceFrame(env, hook, m, origin, run))
    decreases run, origin, 6, 0
  {
    hide TraceCallback, TraceOriginal, AllFit;
    var unused := Frame(false, false);
    NothingFits(outer);
    CallbackFits(outer, env, m, origin, run, false, unused);
    var entered := if hook.onEnter then TraceCallback(env, m, origin, run, false, unused) else Outcome([], unused);
    OriginalFits(outer, env, m, origin, run, entered.frame);
    var middle := if entered.frame.custom then Outcome([], entered.frame)
                  else TraceOriginal(env, m, origin, run, entered.frame);
    CallbackFits(outer, env, m, origin, run, true, middle.frame);
    var left := if hook.onLeave then TraceCallback(env, m, origin, run, true, middle.frame)
                else Outcome([], middle.frame);
    AllFitAppend(outer, entered.events, middle.events);
    AllFitAppend(outer, entered.events + middle.events, left.events);
  }

  lemma {:induction false} CallbackFits(outer: Env, env: Env, m: Method, origin: Code, run: Run, leaving: bool, frame: Frame)
    requires Framed(outer, env, m)
    ensures AllFit(outer, TraceCallback(env, m, origin, run, leaving, frame).events)
    decreases run, origin, 5, 1
  {
    hide TraceOps, AllFit;
    OpsFit(outer, env, m, origin, run, leaving, 0, frame);
    OneFits(outer, Callback(m, leaving, env.depth, env.words));
    AllFitAppend(outer, [Callback(m, leaving, env.depth, env.words)],
                 TraceOps(env, m, origin, run, leaving, 0, frame).events);
  }

  lemma {:induction false} OpsFit(outer: Env, env: Env, m: Method, origin: Code, run: Run, leaving: bool, i: nat, frame: Frame)
    requires Framed(outer, env, m) && i <= |Ops(run, leaving)|
    ensures AllFit(outer, TraceOps(env, m, origin, run, leaving, i, frame).events)
    decreases run, origin, 5, 0, |Ops(run, leaving)| - i
  {
    hide TraceOp, AllFit;
    if i == |Ops(run, leaving)| {
      NothingFits(outer);
    } else {
      var step := TraceOp(env, m, origin, run, leaving, i, frame);
      OpFits(outer, env, m, origin, run, leaving, i, frame);
      OpsFit(outer, env, m, origin, run, leaving, i + 1, step.frame);
      AllFitAppend(outer, step.events, TraceOps(env, m, origin, run, leaving, i + 1, step.frame).events);
    }
  }

  lemma {:induction false} OpFits(outer: Env, env: Env, m: Method, origin: Code, run: Run, leaving: bool, i: nat, frame: Frame)
    requires Framed(outer, env, m) && i < |Ops(run, leaving)|
    ensures AllFit(outer, TraceOp(env, m, origin, run, leaving, i, frame).events)
    decreases run, origin, 4, 1
  {
    hide TraceCode, TraceOriginal, AllFit;
    NothingFits(outer);
    match Ops(run, leaving)[i]
    case CallOriginal => OriginalFits(outer, env, m, origin, run, frame);
    case Invoke(call) =>
      var deeper := env.Deeper();
      CodeFits(deeper, call.target, deeper.EntryOf(call.target), call.run);
      AllFitOutside(deeper, outer, TraceCode(deeper, call.target, deeper.EntryOf(call.target), call.run));
    case _ =>
  }

  lemma {:induction false} OriginalFits(outer: Env, env: Env, m: Method, origin: Code, run: Run, frame: Frame)
    requires Framed(outer, env, m)
    ensures AllFit(outer, TraceOriginal(env, m, origin, run, frame).events)
    decreases run, origin, 4, 0
  {
    hide TraceCode, AllFit;
    NothingFits(outer);
    if !origin.Null? && !frame.invoked {
      var scope := env.WithOrigin(m, origin);
      CodeFits(scope, m, origin, run);
      AllFitOutside(scope, outer, TraceCode(scope, m, origin, run));
    }
  }

  // ----- Counting the events of one dispatch -----

  datatype Kind = Enters | Leaves | Originals

  predicate Is(e: Event, kind: Kind, depth: nat) {
    e.depth == depth &&
    match kind
    case Enters => e.Callback? && !e.leaving
    case Leaves => e.Callback? && e.leaving
    case Originals => e.Original?
  }

  function Count(events: seq<Event>, kind: Kind, depth: nat): nat {
    if events == [] then 0
    else (if Is(events[0], kind, depth) then 1 else 0) + Count(events[1..], kind, depth)
  }

  lemma {:induction false} CountAppend(a: seq<Event>, b: seq<Event>, kind: Kind, depth: nat)
    ensures Count(a + b, kind, depth) == Count(a, kind, depth) + Count(b, kind, depth)
  {
    hide Is;
    if a == [] {
      assert a + b == b;
    } else {
      assert (a + b)[1..] == a[1..] + b;
      CountAppend(a[1..], b, kind, depth);
    }
  }

  lemma CountOne(e: Event, kind: Kind, depth: nat)
    ensures Count([e], kind, depth) == if Is(e, kind, depth) then 1 else 0
    ensures Count([], kind, depth) == 0
  {
    assert [e][1..] == [];
  }

  /** Events of nested calls are not those of the dispatch itself. */
  lemma {:induction false} DeeperDoNotCount(env: Env, events: seq<Event>, kind: Kind, depth: nat)
    requires AllFit(env, events) && depth < env.depth
    ensures Count(events, kind, depth) == 0
  {
    if events != [] {
      assert Fits(env, events[0]);
      DeeperDoNotCount(env, events[1..], kind, depth);
    }
  }

  /** Following the saved origins leads to the original code. */
  predicate EndsInBody(code: Code) {
    match code
    case Null => false
    case Body => true
    case Bridge(_, origin) => EndsInBody(origin)
  }

  /** The recursion guard: while m is active, entering it anew fires no callback and goes
      straight through all its bridges to the original. */
  lemma {:induction false} ActiveGoesToBody(env: Env, m: Method, code: Code, run: Run, kind: Kind)
    requires m in env.active
    ensures Count(TraceCode(env, m, code, run), kind, env.depth)
         == if kind == Originals && EndsInBody(code) then 1 else 0
    decreases code
  {
    hide TraceCalls, Count, AllFit;
    match code
    case Null => CountOne(Original(m, 0, EMPTY), kind, env.depth);
    case Body =>
      var e, calls := Original(m, env.depth, env.words), TraceCalls(env.Deeper(), run, 0);
      CallsFit(env.Deeper(), run, 0);
      DeeperDoNotCount(env.Deeper(), calls, kind, env.depth);
      CountOne(e, kind, env.depth);
      CountAppend([e], calls, kind, env.depth);
    case Bridge(_, origin) => ActiveGoesToBody(env, m, origin, run, kind);
  }

  /** Whether the operations call the original, and the result flag they leave behind. */
  predicate Calls(ops: seq<Op>, i: nat)
    requires i <= |ops|
    decreases |ops| - i
  {
    i < |ops| && (ops[i] == CallOriginal || Calls(ops, i + 1))
  }

  predicate Custom(ops: seq<Op>, i: nat, custom: bool)
    requires i <= |ops|
    decreases |ops| - i
  {
    if i == |ops| then custom
    else Custom(ops, i + 1, ops[i] == SetResult || (ops[i] != ResetResult && custom))
  }

  lemma {:induction false} OpsCount(outer: Env, m: Method, origin: Code, run: Run, leaving: bool, i: nat, frame: Frame, kind: Kind)
    requires m !in outer.active && i <= |Ops(run, leaving)|
    ensures var ops, r := Ops(run, leaving), TraceOps(outer.Enter(m), m, origin, run, leaving, i, frame);
      && r.frame.custom == Custom(ops, i, frame.custom)
      && r.frame.invoked == (frame.invoked || (Calls(ops, i) && !origin.Null?))
      && Count(r.events, kind, outer.depth) ==
           if kind == Originals && EndsInBody(origin) && !frame.invoked && r.frame.invoked then 1 else 0
    decreases |Ops(run, leaving)| - i
  {
    hide TraceOp, Count, EndsInBody;
    CountOne(Original(m, 0, EMPTY), kind, outer.depth);
    if i < |Ops(run, leaving)| {
      var env := outer.Enter(m);
      var step := TraceOp(env, m, origin, run, leaving, i, frame);
      OpCount(outer, m, origin, run, leaving, i, frame, kind);
      OpsCount(outer, m, origin, run, leaving, i + 1, step.frame, kind);
      CountAppend(step.events, TraceOps(env, m, origin, run, leaving, i + 1, step.frame).events, kind, outer.depth);
    }
  }

  lemma OpCount(outer: Env, m: Method, origin: Code, run: Run, leaving: bool, i: nat, frame: Frame, kind: Kind)
    requires m !in outer.active && i < |Ops(run, leaving)|
    ensures var op, r := Ops(run, leaving)[i], TraceOp(outer.Enter(m), m, origin, run, leaving, i, frame);
      && r.frame.custom == (op == SetResult || (op != ResetResult && frame.custom))
      && r.frame.invoked == (frame.invoked || (op == CallOriginal && !origin.Null?))
      && Count(r.events, kind, outer.depth) ==
           if kind == Originals && EndsInBody(origin) && !frame.invoked && r.frame.invoked then 1 else 0
  {
    hide TraceCode, TraceOriginal, Count, AllFit;
    var env := outer.Enter(m);
    CountOne(Original(m, 0, EMPTY), kind, outer.depth);
    match Ops(run, leaving)[i]
    case CallOriginal => OriginalCount(outer, m, origin, run, frame, kind);
    case Invoke(call) =>
      var deeper := env.Deeper();
      CodeFits(deeper, call.target, deeper.EntryOf(call.target), call.run);
      DeeperDoNotCount(deeper, TraceCode(deeper, call.target, deeper.EntryOf(call.target), call.run), kind, outer.depth);
    case _ =>
  }

  lemma OriginalCount(outer: Env, m: Method, origin: Code, run: Run, frame: Frame, kind: Kind)
    ensures var r := TraceOriginal(outer.Enter(m), m, origin, run, frame);
      && r.frame.custom == frame.custom
      && r.frame.invoked == (frame.invoked || !origin.Null?)
      && Count(r.events, kind, outer.depth) ==
           if kind == Originals && EndsInBody(origin) && !frame.invoked then 1 else 0
  {
    hide TraceCode, Count;
    CountOne(Original(m, 0, EMPTY), kind, outer.depth);
    if !origin.Null? && !frame.invoked {
      ActiveGoesToBody(outer.Enter(m).WithOrigin(m, origin), m, origin, run, kind);
    }
  }

  /** The exact condition under which a dispatch runs the original: a callback asks for it, or
      no result is set when onEnter returns. */
  predicate RunsOriginal(hook: Hook, run: Run) {
    || !(hook.onEnter && Custom(run.enter, 0, false))
    || (hook.onEnter && Calls(run.enter, 0))
    || (hook.onLeave && Calls(run.leave, 0))
  }

  lemma CallbackCount(outer: Env, m: Method, origin: Code, run: Run, leaving: bool, frame: Frame, kind: Kind)
    requires m !in outer.active
    ensures var ops, r := Ops(run, leaving), TraceCallback(outer.Enter(m), m, origin, run, leaving, frame);
      && r.frame.custom == Custom(ops, 0, frame.custom)
      && r.frame.invoked == (frame.invoked || (Calls(ops, 0) && !origin.Null?))
      && Count(r.events, kind, outer.depth) ==
           if kind == Originals then (if EndsInBody(origin) && !frame.invoked && r.frame.invoked then 1 else 0)
           else if kind == (if leaving then Leaves else Enters) then 1 else 0
  {
    hide TraceOps, Count, EndsInBody, Custom, Calls;
    var env := outer.Enter(m);
    var e, r := Callback(m, leaving, env.depth, env.words), TraceOps(env, m, origin, run, leaving, 0, frame);
    OpsCount(outer, m, origin, run, leaving, 0, frame, kind);
    CountOne(e, kind, outer.depth);
    CountAppend([e], r.events, kind, outer.depth);
  }

  lemma FrameCount(outer: Env, hook: Hook, m: Method, origin: Code, run: Run, kind: Kind)
    requires m !in outer.active
    ensures Count(TraceFrame(outer.Enter(m), hook, m, origin, run), kind, outer.depth) ==
      match kind
      case Enters => if hook.onEnter then 1 else 0
      case Leaves => if hook.onLeave then 1 else 0
      case Originals => if EndsInBody(origin) && RunsOriginal(hook, run) then 1 else 0
  {
    hide TraceCallback, TraceOriginal, Count, Custom, Calls;
    var env, unused := outer.Enter(m), Frame(false, false);
    CountOne(Original(m, 0, EMPTY), kind, outer.depth);
    CallbackCount(outer, m, origin, run, false, unused, kind);
    var entered := if hook.onEnter then TraceCallback(env, m, origin, run, false, unused) else Outcome([], unused);
    OriginalCount(outer, m, origin, run, entered.frame, kind);
    var middle := if entered.frame.custom then Outcome([], entered.frame)
                  else TraceOriginal(env, m, origin, run, entered.frame);
    CallbackCount(outer, m, origin, run, true, middle.frame, kind);
    var left := if hook.onLeave then TraceCallback(env, m, origin, run, true, middle.frame)
                else Outcome([], middle.frame);
    CountAppend(entered.events, middle.events, kind, outer.depth);
    CountAppend(entered.events + middle.events, left.events, kind, outer.depth);
  }

  /** The events of one dispatch itself, by their depth. */
  lemma CountsAtDepth(env: Env, m: Method, origin: Code, run: Run)
    ensures var events := TraceDispatch(env, m, origin, run);
      var hooked := m !in env.active && m in env.hooks && env.attached;
      && Count(events, Enters, env.depth) == (if hooked && env.hooks[m].onEnter then 1 else 0)
      && Count(events, Leaves, env.depth) == (if hooked && env.hooks[m].onLeave then 1 else 0)
      && Count(events, Originals, env.depth) ==
           if EndsInBody(origin) && (m in env.active || (hooked && RunsOriginal(env.hooks[m], run)))
           then 1 else 0
  {
    hide TraceCode, TraceFrame, Count, RunsOriginal, EndsInBody;
    CountOne(Original(m, 0, EMPTY), Enters, env.depth);
    CountOne(Original(m, 0, EMPTY), Leaves, env.depth);
    CountOne(Original(m, 0, EMPTY), Originals, env.depth);
    if m in env.active {
      ActiveGoesToBody(env, m, origin, run, Enters);
      ActiveGoesToBody(env, m, origin, run, Leaves);
      ActiveGoesToBody(env, m, origin, run, Originals);
    } else if m in env.hooks && env.attached {
      FrameCount(env, env.hooks[m], m, origin, run, Enters);
      FrameCount(env, env.hooks[m], m, origin, run, Leaves);
      FrameCount(env, env.hooks[m], m, origin, run, Originals);
    }
  }

  // ----- The callbacks of one dispatch over its whole run -----

  /** The callbacks of m are exactly those at this depth. */
  predicate OwnCallbacks(m: Method, depth: nat, events: seq<Event>) {
    forall i :: 0 <= i < |events| && events[i].Callback? ==> (events[i].m == m <==> events[i].depth == depth)
  }

  lemma OwnAppend(m: Method, depth: nat, a: seq<Event>, b: seq<Event>)
    requires OwnCallbacks(m, depth, a) && OwnCallbacks(m, depth, b)
    ensures OwnCallbacks(m, depth, a + b)
  {
  }

  /** What runs deeper while m is active holds no callback of m. */
  lemma OwnDeeper(env: Env, m: Method, depth: nat, events: seq<Event>)
    requires AllFit(env, events) && m in env.active && depth < env.depth
    ensures OwnCallbacks(m, depth, events)
  {
    forall i | 0 <= i < |events| && events[i].Callback?
      ensures events[i].m != m && events[i].depth != depth
    {
      assert Fits(env, events[i]);
    }
  }

  lemma OwnNothing(m: Method, depth: nat)
    ensures OwnCallbacks(m, depth, [])
  {
  }

  lemma OwnOne(m: Method, depth: nat, e: Event)
    requires e.Callback? ==> e.m == m && e.depth == depth
    ensures OwnCallbacks(m, depth, [e])
  {
  }

  lemma {:induction false} CodeOwn(env: Env, m: Method, code: Code, run: Run)
    requires m in env.active
    ensures OwnCallbacks(m, env.depth, TraceCode(env, m, code, run))
    decreases code
  {
    hide TraceCalls, OwnCallbacks, AllFit;
    match code
    case Null => OwnNothing(m, env.depth);
    case Body =>
      var e, calls := Original(m, env.depth, env.words), TraceCalls(env.Deeper(), run, 0);
      CallsFit(env.Deeper(), run, 0);
      OwnDeeper(env.Deeper(), m, env.depth, calls);
      OwnOne(m, env.depth, e);
      OwnAppend(m, env.depth, [e], calls);
    case Bridge(_, origin) => CodeOwn(env, m, origin, run);
  }

  lemma OriginalOwn(env: Env, m: Method, origin: Code, run: Run, frame: Frame)
    requires m in env.active
    ensures OwnCallbacks(m, env.depth, TraceOriginal(env, m, origin, run, frame).events)
  {
    hide TraceCode, OwnCallbacks;
    OwnNothing(m, env.depth);
    if !origin.Null? && !frame.invoked { CodeOwn(env.WithOrigin(m, origin), m, origin, run); }
  }

  lemma OpOwn(env: Env, m: Method, origin: Code, run: Run, leaving: bool, i: nat, frame: Frame)
    requires m in env.active && i < |Ops(run, leaving)|
    ensures OwnCallbacks(m, env.depth, TraceOp(env, m, origin, run, leaving, i, frame).events)
  {
    hide TraceCode, TraceOriginal, OwnCallbacks, AllFit;
    OwnNothing(m, env.depth);
    match Ops(run, leaving)[i]
    case CallOriginal => OriginalOwn(env, m, origin, run, frame);
    case Invoke(call) =>
      var deeper := env.Deeper();
      CodeFits(deeper, call.target, deeper.EntryOf(call.target), call.run);
      OwnDeeper(deeper, m, env.depth, TraceCode(deeper, call.target, deeper.EntryOf(call.target), call.run));
    case _ =>
  }

  lemma {:induction false} OpsOwn(env: Env, m: Method, origin: Code, run: Run, leaving: bool, i: nat, frame: Frame)
    requires m in env.active && i <= |Ops(run, leaving)|
    ensures OwnCallbacks(m, env.depth, TraceOps(env, m, origin, run, leaving, i, frame).events)
    decreases |Ops(run, leaving)| - i
  {
    hide TraceOp, OwnCallbacks;
    if i == |Ops(run, leaving)| {
      OwnNothing(m, env.depth);
    } else {
      var step := TraceOp(env, m, origin, run, leaving, i, frame);
      OpOwn(env, m, origin, run, leaving, i, frame);
      OpsOwn(env, m, origin, run, leaving, i + 1, step.frame);
      OwnAppend(m, env.depth, step.events, TraceOps(env, m, origin, run, leaving, i + 1, step.frame).events);
    }
  }

  lemma CallbackOwn(env: Env, m: Method, origin: Code, run: Run, leaving: bool, frame: Frame)
    requires m in env.active
    ensures OwnCallbacks(m, env.depth, TraceCallback(env, m, origin, run, leaving, frame).events)
  {
    hide TraceOps, OwnCallbacks;
    var e := Callback(m, leaving, env.depth, env.words);
    OpsOwn(env, m, origin, run, leaving, 0, frame);
    OwnOne(m, env.depth, e);
    OwnAppend(m, env.depth, [e], TraceOps(env, m, origin, run, leaving, 0, frame).events);
  }

  lemma FrameOwn(env: Env, hook: Hook, m: Method, origin: Code, run: Run)
    requires m in env.active
    ensures OwnCallbacks(m, env.depth, TraceFrame(env, hook, m, origin, run))
  {
    hide TraceCallback, TraceOriginal, OwnCallbacks;
    var unused := Frame(false, false);
    OwnNothing(m, env.depth);
    CallbackOwn(env, m, origin, run, false, unused);
    var entered := if hook.onEnter then TraceCallback(env, m, origin, run, false, unused) else Outcome([], unused);
    OriginalOwn(env, m, origin, run, entered.frame);
    var middle := if entered.frame.custom then Outcome([], entered.frame)
                  else TraceOriginal(env, m, origin, run, entered.frame);
    CallbackOwn(env, m, origin, run, true, middle.frame);
    var left := if hook.onLeave then TraceCallback(env, m, origin, run, true, middle.frame)
                else Outcome([], middle.frame);
    OwnAppend(m, env.depth, entered.events, middle.events);
    OwnAppend(m, env.depth, entered.events + middle.events, left.events);
  }

  /** However deep the run nests, every callback of m in a dispatch of m is one of that dispatch itself:
      recursive calls fire none. */
  lemma DispatchOwn(env: Env, m: Method, origin: Code, run: Run)
    ensures OwnCallbacks(m, env.depth, TraceDispatch(env, m, origin, run))
  {
    hide TraceCode, TraceFrame, OwnCallbacks;
    OwnNothing(m, env.depth);
    if m in env.active {
      CodeOwn(env, m, origin, run);
    } else if m in env.hooks && env.attached {
      FrameOwn(env.Enter(m), env.hooks[m], m, origin, run);
    }
  }

  /** How often onEnter, or onLeave, of m fires in the events, at any depth. */
  function Firings(events: seq<Event>, m: Method, leaving: bool): nat {
    if events == [] then 0
    else
      var e := events[0];
      (if e.Callback? && e.m == m && e.leaving == leaving then 1 else 0) + Firings(events[1..], m, leaving)
  }

  lemma {:induction false} FiringsAreOwn(events: seq<Event>, m: Method, leaving: bool, depth: nat)
    requires OwnCallbacks(m, depth, events)
    ensures Firings(events, m, leaving) == Count(events, if leaving then Leaves else Enters, depth)
  {
    if events != [] { FiringsAreOwn(events[1..], m, leaving, depth); }
  }

  /** One dispatch, over its whole run: each callback of the method fires at most once at any depth, and
      not at all while the method is active; the dispatch runs the original at most once, and exactly
      when the guard, or the callbacks, let it. */
  lemma DispatchCounts(env: Env, m: Method, origin: Code, run: Run)
    ensures var events := TraceDispatch(env, m, origin, run);
      var hooked := m !in env.active && m in env.hooks && env.attached;
      && Firings(events, m, false) == (if hooked && env.hooks[m].onEnter then 1 else 0)
      && Firings(events, m, true) == (if hooked && env.hooks[m].onLeave then 1 else 0)
      && Count(events, Enters, env.depth) == (if hooked && env.hooks[m].onEnter then 1 else 0)
      && Count(events, Leaves, env.depth) == (if hooked && env.hooks[m].onLeave then 1 else 0)
      && Count(events, Originals, env.depth) ==
           if EndsInBody(origin) && (m in env.active || (hooked && RunsOriginal(env.hooks[m], run)))
           then 1 else 0
  {
    hide TraceDispatch, Count, Firings, OwnCallbacks;
    var events := TraceDispatch(env, m, origin, run);
    CountsAtDepth(env, m, origin, run);
    DispatchOwn(env, m, origin, run);
    FiringsAreOwn(events, m, false, env.depth);
    FiringsAreOwn(events, m, true, env.depth);
  }

  /** However deep the run nests, no callback of a method that was active before, and of the method
      itself none but its own two; and on a thread whose managed stack is known, every callback and
      everything below it sees the stack empty, while on another the stack is left alone. */
  lemma NoReentry(env: Env, m: Method, origin: Code, run: Run)
    ensures forall e :: e in TraceDispatch(env, m, origin, run) && e.Callback? ==>
      && e.m !in env.active && (env.known ==> e.seen == EMPTY)
      && (e.m == m <==> e.depth == env.depth)
    ensures env.known && m !in env.active ==>
      forall e :: e in TraceDispatch(env, m, origin, run) ==> e.seen == EMPTY
    ensures !env.known ==> forall e :: e in TraceDispatch(env, m, origin, run) ==> e.seen == env.words
  {
    hide TraceCode, TraceFrame;
    DispatchFits(env, m, origin, run);
    DispatchOwn(env, m, origin, run);
    if env.known && m !in env.active && m in env.hooks && env.attached {
      FrameFits(env.(words := EMPTY), env.Enter(m), env.hooks[m], m, origin, run);
    }
  }
}
