/** Replacement hooks: each install allocates a bridge that remembers the entry point it replaces,
    so the hooks of a method form a chain back to its original code. */
module Trampolines {
  import opened PageAllocator
  import opened HookDispatch
  import opened HookProperties

  /** Bytes of a bridge, and where in it the two patched words lie. */
  datatype Layout = Layout(size: nat, originAt: nat, callbackAt: nat)
  {
    predicate Ok() {
      && originAt + 8 <= size && callbackAt + 8 <= size
      && (originAt + 8 <= callbackAt || callbackAt + 8 <= originAt)
    }
  }

  /** The hooks of one method: its bridges and their callbacks, newest first, and the entry point
      it had before any of them. */
  datatype Hooks = Hooks(bridges: seq<nat>, callbacks: seq<nat>, original: nat)
  {
    /** The entry point that bridge i saved. */
    function Origin(i: nat): nat
      requires i < |bridges|
    {
      if i + 1 < |bridges| then bridges[i + 1] else original
    }

    function Entry(): nat {
      if bridges == [] then original else bridges[0]
    }
  }

  function Pushed(h: Hooks, bridge: nat, callback: nat): Hooks {
    Hooks([bridge] + h.bridges, [callback] + h.callbacks, h.original)
  }

  /** The method's bridges stand in memory as they were written. */
  ghost predicate Written(layout: Layout, words: map<nat, nat>, h: Hooks) {
    |h.callbacks| == |h.bridges| && forall i :: 0 <= i < |h.bridges| ==> WrittenAt(layout, words, h, i)
  }

  ghost predicate WrittenAt(layout: Layout, words: map<nat, nat>, h: Hooks, i: nat)
    requires i < |h.bridges| == |h.callbacks|
  {
    Holds(words, h.bridges[i] + layout.originAt, h.Origin(i)) &&
    Holds(words, h.bridges[i] + layout.callbackAt, h.callbacks[i])
  }

  predicate Holds(words: map<nat, nat>, at: nat, value: nat) {
    at in words && words[at] == value
  }

  ghost predicate Allocated(layout: Layout, blocks: seq<Block>, h: Hooks) {
    forall i :: 0 <= i < |h.bridges| ==> h.bridges[i] != 0 && Block(h.bridges[i], layout.size) in blocks
  }

  class TrampolineInstaller {
    const layout: Layout
    const memory: Memory
    var words: map<nat, nat>
    var entries: map<Method, nat>
    ghost var hooks: map<Method, Hooks>

    ghost predicate Valid()
      reads this, memory
    {
      && layout.Ok() && memory.Valid()
      && hooks.Keys == entries.Keys
      && forall m :: m in hooks ==>
        && entries[m] == hooks[m].Entry()
        && Written(layout, words, hooks[m])
        && Allocated(layout, memory.blocks, hooks[m])
    }

    constructor (layout: Layout, memory: Memory, entries: map<Method, nat>)
      requires layout.Ok() && memory.Valid()
      ensures Valid() && this.memory == memory && this.entries == entries
      ensures forall m :: m in entries ==> hooks[m] == Hooks([], [], entries[m])
    {
      this.layout, this.memory, this.words, this.entries := layout, memory, map[], entries;
      this.hooks := map m | m in entries :: Hooks([], [], entries[m]);
    }

    method CreateNativeBridgeTrampoline(callback: nat, backup: nat, mapped: nat) returns (bridge: nat)
      requires layout.Ok() && memory.Valid()
      requires mapped != 0 ==> FreshPage(memory.pages, mapped, memory.pageSize)
      modifies this`words, memory
      ensures memory.Valid()
      ensures bridge == 0 ==> words == old(words) && memory.blocks == old(memory.blocks)
      ensures bridge != 0 ==>
        && memory.blocks == old(memory.blocks) + [Block(bridge, layout.size)]
        && words == old(words)[bridge + layout.originAt := backup][bridge + layout.callbackAt := callback]
    {
      bridge := memory.AllocUnprotected(layout.size, mapped);
      if bridge == 0 { return; }
      words := words[bridge + layout.originAt := backup];
      words := words[bridge + layout.callbackAt := callback];
    }

    /** Installing a hook puts one bridge in front of the method's chain and leaves every other
        bridge, of this and of every other method, as it was. */
    method InstallNativeReplacementTrampoline(target: Method, callback: nat, mapped: nat)
        returns (backup: nat, ghost bridge: nat)
      requires Valid() && target in entries
      requires mapped != 0 ==> FreshPage(memory.pages, mapped, memory.pageSize)
      modifies this, memory
      ensures Valid()
      ensures bridge == 0 ==> hooks == old(hooks) && entries == old(entries) && backup == 0
      ensures bridge != 0 ==>
        && backup == old(entries)[target]
        && entries == old(entries)[target := bridge]
        && hooks == old(hooks)[target := Pushed(old(hooks)[target], bridge, callback)]
    {
      hide Written, Allocated, FreshPage, PagesOk, BlocksOk, Apart;
      var origin := entries[target];
      ghost var blocks, words0 := memory.blocks, words;
      var b := CreateNativeBridgeTrampoline(callback, origin, mapped);
      bridge := b;
      if b == 0 {
        return 0, 0;
      }
      NewBlockApart(blocks, Block(b, layout.size), memory.pages);
      AllKept(layout, hooks, blocks, Block(b, layout.size), words0, origin, callback);
      NewestBridge(layout, memory.blocks, b, words, hooks[target], callback);
      hooks := hooks[target := Pushed(hooks[target], b, callback)];
      entries := entries[target := b];
      return origin, b;
    }
  }

  lemma NewBlockApart(blocks: seq<Block>, b: Block, pages: seq<Page>)
    requires BlocksOk(blocks + [b], pages)
    ensures forall i :: 0 <= i < |blocks| ==> Apart(blocks[i], b)
  {
    hide InSomePage, Sizes, Used;
    forall i | 0 <= i < |blocks| ensures Apart(blocks[i], b) {
      assert Apart((blocks + [b])[i], (blocks + [b])[|blocks|]);
    }
  }

  lemma AllKept(layout: Layout, hooks: map<Method, Hooks>, blocks: seq<Block>, b: Block,
                words: map<nat, nat>, origin: nat, callback: nat)
    requires layout.Ok() && b.size == layout.size
    requires forall i :: 0 <= i < |blocks| ==> Apart(blocks[i], b)
    requires forall m :: m in hooks ==> Written(layout, words, hooks[m]) && Allocated(layout, blocks, hooks[m])
    ensures forall m :: m in hooks ==>
      && Written(layout, words[b.start + layout.originAt := origin][b.start + layout.callbackAt := callback], hooks[m])
      && Allocated(layout, blocks + [b], hooks[m])
  {
    hide Written, Allocated;
    forall m | m in hooks
      ensures Written(layout, words[b.start + layout.originAt := origin][b.start + layout.callbackAt := callback], hooks[m])
      ensures Allocated(layout, blocks + [b], hooks[m])
    {
      BridgesKept(layout, blocks, b, words, hooks[m], origin, callback);
    }
  }

  /** Writing a new block's words does not touch the bridges written before. */
  lemma BridgesKept(layout: Layout, blocks: seq<Block>, b: Block, words: map<nat, nat>, h: Hooks, origin: nat, callback: nat)
    requires layout.Ok() && b.size == layout.size
    requires forall i :: 0 <= i < |blocks| ==> Apart(blocks[i], b)
    requires Written(layout, words, h) && Allocated(layout, blocks, h)
    ensures Written(layout, words[b.start + layout.originAt := origin][b.start + layout.callbackAt := callback], h)
    ensures Allocated(layout, blocks + [b], h)
  {
    var words' := words[b.start + layout.originAt := origin][b.start + layout.callbackAt := callback];
    forall i | 0 <= i < |h.bridges| ensures WrittenAt(layout, words', h, i) {
      assert WrittenAt(layout, words, h, i);
      assert Block(h.bridges[i], layout.size) in blocks;
      WordsApart(layout, Block(h.bridges[i], layout.size), b);
    }
  }

  /** Two eight-byte words that share no byte. */
  predicate Separate(x: nat, y: nat) {
    x + 8 <= y || y + 8 <= x
  }

  /** Words of blocks that are apart share no byte. */
  lemma WordsApart(layout: Layout, a: Block, b: Block)
    requires layout.Ok() && a.size == b.size == layout.size && Apart(a, b)
    ensures Separate(a.start + layout.originAt, b.start + layout.originAt)
    ensures Separate(a.start + layout.originAt, b.start + layout.callbackAt)
    ensures Separate(a.start + layout.callbackAt, b.start + layout.originAt)
    ensures Separate(a.start + layout.callbackAt, b.start + layout.callbackAt)
  {
  }

  lemma NewestBridge(layout: Layout, blocks: seq<Block>, bridge: nat, words: map<nat, nat>, h: Hooks, callback: nat)
    requires bridge != 0 && Block(bridge, layout.size) in blocks
    requires Written(layout, words, h) && Allocated(layout, blocks, h)
    requires Holds(words, bridge + layout.originAt, h.Entry())
    requires Holds(words, bridge + layout.callbackAt, callback)
    ensures var more := Pushed(h, bridge, callback);
      Written(layout, words, more) && Allocated(layout, blocks, more)
  {
    hide Holds;
    var more := Pushed(h, bridge, callback);
    forall i | 0 <= i < |more.bridges| ensures WrittenAt(layout, words, more, i) {
      if i > 0 {
        assert WrittenAt(layout, words, h, i - 1);
        assert more.Origin(i) == h.Origin(i - 1) && more.bridges[i] == h.bridges[i - 1];
      }
    }
  }

  // ----- Following the chain -----

  /** n times to the saved origin, starting at an entry point. */
  function Follow(layout: Layout, words: map<nat, nat>, p: nat, n: nat): seq<nat>
    decreases n
  {
    if n == 0 || p + layout.originAt !in words then [p]
    else [p] + Follow(layout, words, words[p + layout.originAt], n - 1)
  }

  /** Following the saved entry points visits the bridges newest first and ends at the original. */
  lemma {:induction false} FollowVisitsAll(layout: Layout, words: map<nat, nat>, h: Hooks)
    requires Written(layout, words, h)
    ensures Follow(layout, words, h.Entry(), |h.bridges|) == h.bridges + [h.original]
    decreases |h.bridges|
  {
    if h.bridges != [] {
      var older := Hooks(h.bridges[1..], h.callbacks[1..], h.original);
      OlderWritten(layout, words, h, older);
      FollowVisitsAll(layout, words, older);
      assert WrittenAt(layout, words, h, 0);
    }
  }

  lemma OlderWritten(layout: Layout, words: map<nat, nat>, h: Hooks, older: Hooks)
    requires Written(layout, words, h) && h.bridges != []
    requires older == Hooks(h.bridges[1..], h.callbacks[1..], h.original)
    ensures Written(layout, words, older) && h.Origin(0) == older.Entry()
  {
    hide Holds;
    forall i | 0 <= i < |older.bridges| ensures WrittenAt(layout, words, older, i) {
      assert WrittenAt(layout, words, h, i + 1);
      assert older.Origin(i) == h.Origin(i + 1);
    }
  }

  /** What n bridges from p on do, as memory has them: a bridge whose stored callback is the shared
      dispatcher dispatches and hands it the stored origin; one with another callback is no hook of
      the dispatcher. Behind the last bridge stands the original code. */
  function CodeAt(layout: Layout, words: map<nat, nat>, dispatcher: nat, p: nat, n: nat): Code
    decreases n
  {
    if n == 0 then Body
    else if Holds(words, p + layout.callbackAt, dispatcher) && p + layout.originAt in words then
      Bridge(p, CodeAt(layout, words, dispatcher, words[p + layout.originAt], n - 1))
    else Null
  }

  function ChainCode(bridges: seq<nat>): Code {
    if bridges == [] then Body else Bridge(bridges[0], ChainCode(bridges[1..]))
  }

  predicate AllCall(h: Hooks, dispatcher: nat) {
    forall i :: 0 <= i < |h.callbacks| ==> h.callbacks[i] == dispatcher
  }

  /** Read from memory, installed hooks of the dispatcher are the chain of their bridges. */
  lemma {:induction false} InstalledChain(layout: Layout, words: map<nat, nat>, dispatcher: nat, h: Hooks)
    requires Written(layout, words, h) && AllCall(h, dispatcher)
    ensures CodeAt(layout, words, dispatcher, h.Entry(), |h.bridges|) == ChainCode(h.bridges)
    decreases |h.bridges|
  {
    if h.bridges != [] {
      var older := Hooks(h.bridges[1..], h.callbacks[1..], h.original);
      OlderWritten(layout, words, h, older);
      InstalledChain(layout, words, dispatcher, older);
      assert WrittenAt(layout, words, h, 0);
    }
  }

  lemma {:induction false} ChainEndsInBody(bridges: seq<nat>)
    ensures EndsInBody(ChainCode(bridges))
  {
    if bridges != [] {
      ChainEndsInBody(bridges[1..]);
    }
  }

  /** However many hooks of the dispatcher are installed on a method, a call from outside through its
      entry point, as memory has it, fires its registered onEnter and onLeave once each in its whole
      run, recursive calls at any depth included. The call itself runs the original once, unless a callback has set a result and none has called the original. */
  lemma ChainFiresOnce(t: TrampolineInstaller, dispatcher: nat, env: Env, m: Method, run: Run)
    requires t.Valid() && m in t.entries && t.hooks[m].bridges != [] && AllCall(t.hooks[m], dispatcher)
    requires m !in env.active && m in env.hooks && env.attached
    ensures var code := CodeAt(t.layout, t.words, dispatcher, t.entries[m], |t.hooks[m].bridges|);
      var events := TraceCode(env, m, code, run);
      && Firings(events, m, false) == (if env.hooks[m].onEnter then 1 else 0)
      && Firings(events, m, true) == (if env.hooks[m].onLeave then 1 else 0)
      && Count(events, Originals, env.depth) == (if RunsOriginal(env.hooks[m], run) then 1 else 0)
  {
    hide Count, Firings, TraceDispatch, RunsOriginal, EndsInBody, CodeAt, Written, AllCall;
    var bridges := t.hooks[m].bridges;
    InstalledChain(t.layout, t.words, dispatcher, t.hooks[m]);
    ChainEndsInBody(bridges[1..]);
    DispatchCounts(env, m, ChainCode(bridges[1..]), run);
  }
}
