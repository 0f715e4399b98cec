/**
  The select-based event loop. Each pass empties the set of watched descriptors and rebuilds
  it while walking the context list; callbacks may register further contexts on the way.
  */
module SelectLoop {

  datatype Context = Context(fd: int, data: int)

  function Fds(list: seq<Context>): set<int>
  {
    if list == [] then {} else Fds(list[..|list| - 1]) + {list[|list| - 1].fd}
  }

  ghost predicate DistinctFds(list: seq<Context>)
  {
    forall i, j :: 0 <= i < j < |list| ==> list[i].fd != list[j].fd
  }

  /** The watched set is the eventfd plus the listed contexts, and nfds is its maximum. */
  ghost predicate Watches(evfd: int, list: seq<Context>, allset: set<int>, nfds: int)
  {
    && DistinctFds(list) && evfd !in Fds(list)
    && allset == {evfd} + Fds(list)
    && nfds in allset && (forall fd <- allset :: fd <= nfds)
  }

  /** What one return of select, and the callbacks it leads to, do. A callback's effect is the
      list of contexts it registers and whether it asks the loop to stop. */
  datatype Reaction = Reaction(adds: seq<Context>, stop: bool)

  datatype Pass = Pass(
    n: int, readable: set<int>, failed: set<int>, timerDue: bool,
    onWakeup: Reaction, onRead: Context -> Reaction, onError: Context -> Reaction, onTimer: Reaction)

  datatype Call = Wakeup | Read(ctx: Context) | Error(ctx: Context) | Timer

  // ---- what a pass over the contexts `list` must do

  /** The contexts that did not fail. */
  function Kept(list: seq<Context>, failed: set<int>): seq<Context>
  {
    if list == [] then []
    else
      var c := list[|list| - 1];
      Kept(list[..|list| - 1], failed) + if c.fd in failed then [] else [c]
  }

  function CallsFor(c: Context, pass: Pass): seq<Call>
  {
    (if c.fd in pass.readable then [Read(c)] else []) + (if c.fd in pass.failed then [Error(c)] else [])
  }

  lemma CallsForSplit(c: Context, pass: Pass, calls: seq<Call>)
    requires calls == if c.fd in pass.readable then [Read(c)] else []
    ensures CallsFor(c, pass) == if c.fd in pass.failed then calls + [Error(c)] else calls
  {
    assert calls + [] == calls;
  }

  function Calls(list: seq<Context>, pass: Pass): seq<Call>
  {
    if list == [] then [] else Calls(list[..|list| - 1], pass) + CallsFor(list[|list| - 1], pass)
  }

  function ReactionTo(call: Call, pass: Pass): Reaction
  {
    match call
    case Wakeup => pass.onWakeup
    case Read(c) => pass.onRead(c)
    case Error(c) => pass.onError(c)
    case Timer => pass.onTimer
  }

  /** The contexts registered by a sequence of callbacks. */
  function AddedBy(calls: seq<Call>, pass: Pass): seq<Context>
  {
    if calls == [] then []
    else AddedBy(calls[..|calls| - 1], pass) + ReactionTo(calls[|calls| - 1], pass).adds
  }

  predicate StoppedBy(calls: seq<Call>, pass: Pass)
  {
    calls != [] && (StoppedBy(calls[..|calls| - 1], pass) || ReactionTo(calls[|calls| - 1], pass).stop)
  }

  lemma AddedByAppend(calls: seq<Call>, call: Call, pass: Pass)
    ensures StoppedBy(calls + [call], pass) == (StoppedBy(calls, pass) || ReactionTo(call, pass).stop)
    ensures AddedBy(calls + [call], pass) == AddedBy(calls, pass) + ReactionTo(call, pass).adds
  {
    assert (calls + [call])[..|calls|] == calls;
  }

  lemma PrefixStep(list: seq<Context>, k: nat, pass: Pass)
    requires k < |list|
    ensures Kept(list[..k + 1], pass.failed) == Kept(list[..k], pass.failed) + (if list[k].fd in pass.failed then [] else [list[k]])
    ensures Calls(list[..k + 1], pass) == Calls(list[..k], pass) + CallsFor(list[k], pass)
  {
    assert list[..k + 1][..k] == list[..k];
  }

  /** The list without its context at position `i`. */
  function CutOut(list: seq<Context>, i: nat): (cut: seq<Context>)
    requires i < |list|
    ensures |cut| == |list| - 1
  {
    list[..i] + list[i + 1..]
  }

  class EvLoop {
    var allset: set<int>
    var nfds: int
    var list: seq<Context>
    const evfd: int
    var exit: bool

    ghost predicate Valid()
      reads this
    {
      Watches(evfd, list, allset, nfds)
    }

    constructor (eventfd: int)
      ensures Valid() && list == [] && evfd == eventfd && !exit
    {
      evfd, allset, nfds, list, exit := eventfd, {eventfd}, eventfd, [], false;
    }

    /** Registers a context, unless called from another thread or out of memory. */
    method AddCtx(ctx: Context, loopThread: bool, memory: bool) returns (ret: int)
      modifies this`allset, this`nfds, this`list
      ensures ret == if loopThread && memory then 0 else -1
      ensures ret != 0 ==> unchanged(this)
      ensures ret == 0 ==>
        && list == old(list) + [ctx] && allset == old(allset) + {ctx.fd}
        && nfds == (if ctx.fd > old(nfds) then ctx.fd else old(nfds))
      ensures old(Valid()) && ctx.fd !in old(allset) ==> Valid()
    {
      if !loopThread {
        return -1;
      }
      if !memory {
        return -1;
      }
      list := list + [ctx];
      allset := allset + {ctx.fd};
      if ctx.fd > nfds {
        nfds := ctx.fd;
      }
      FdsMember(old(list), ctx.fd);
      assert list[..|list| - 1] == old(list);
      return 0;
    }

    /** Runs one callback. */
    method Callback(call: Call, pass: Pass)
      modifies this`allset, this`nfds, this`list, this`exit
      ensures list == old(list) + ReactionTo(call, pass).adds
      ensures allset == old(allset) + Fds(ReactionTo(call, pass).adds)
      ensures Raised(old(nfds), nfds, ReactionTo(call, pass).adds)
      ensures exit == (old(exit) || ReactionTo(call, pass).stop)
    {
      var r := ReactionTo(call, pass);
      var i := 0;
      while i < |r.adds|
        invariant 0 <= i <= |r.adds|
        invariant list == old(list) + r.adds[..i] && allset == old(allset) + Fds(r.adds[..i])
        invariant Raised(old(nfds), nfds, r.adds[..i]) && exit == old(exit)
      {
        assert r.adds[..i + 1] == r.adds[..i] + [r.adds[i]];
        FdsAppend(r.adds[..i], [r.adds[i]]);
        var _ := AddCtx(r.adds[i], true, true);
        i := i + 1;
      }
      assert r.adds[..i] == r.adds;
      if r.stop {
        exit := true;
      }
    }

    /** Handles the context at position `i` of the list. */
    method Visit(i: nat, pass: Pass, called: seq<Call>, visited: seq<Context>)
      returns (next: nat, node: bool, calls: seq<Call>, visits: seq<Context>, ghost stop: bool)
      requires i < |list|
      modifies this`allset, this`nfds, this`list, this`exit
      ensures Visited(pass, W(i, true, old(list), old(allset), old(nfds), called, visited),
                      W(next, node, list, allset, nfds, calls, visits))
      ensures exit == (old(exit) || stop)
      ensures StoppedBy(calls, pass) == (StoppedBy(called, pass) || stop)
    {
      hide Effect, CallsFor, StoppedBy;
      visits := visited + [list[i]];
      next, node, calls := Dispatch(i, pass);
      stop := StopsFor(old(list)[i], pass);
      CallsForStop(old(list)[i], pass);
      StoppedByConcat(called, calls, pass);
      EffectIgnoresTrace(pass, W(i, true, old(list), old(allset), old(nfds), [], []),
                         W(next, node, list, allset, nfds, [], []), called, visited, called + calls, visits);
      calls := called + calls;
    }

    method Dispatch(i: nat, pass: Pass) returns (next: nat, node: bool, calls: seq<Call>)
      requires i < |list|
      modifies this`allset, this`nfds, this`list, this`exit
      ensures Effect(pass, W(i, true, old(list), old(allset), old(nfds), [], []), W(next, node, list, allset, nfds, [], []))
      ensures calls == CallsFor(old(list)[i], pass)
      ensures exit == (old(exit) || StopsFor(old(list)[i], pass))
    {
      hide Fds, Raised, Reads, Errors, Effect, StoppedBy, CallsFor, CutOut;
      var ctx := list[i];
      ghost var w := W(i, true, list, allset, nfds, [], []);
      calls := HandleRead(ctx, pass);
      ghost var mid := W(i, true, list, allset, nfds, [], []);
      CallsForSplit(ctx, pass, calls);
      if ctx.fd in pass.failed {
        next := i;
        node := HandleError(i, ctx, pass);
        calls := calls + [Error(ctx)];
        FailedEffect(pass, w, mid, W(next, node, list, allset, nfds, [], []));
      } else {
        Watch(ctx);
        next := i + 1;
        node := next < |list|;
        KeptEffect(pass, w, mid, W(next, node, list, allset, nfds, [], []));
      }
    }

    /** Takes a failed context out of the list, then calls back. The position to go on from is
        fixed before the callback. */
    method HandleError(i: nat, ctx: Context, pass: Pass) returns (node: bool)
      requires i < |list| && ctx.fd in pass.failed
      modifies this`allset, this`nfds, this`list, this`exit
      ensures list == CutOut(old(list), i) + Errors(ctx, pass)
      ensures allset == old(allset) + Fds(Errors(ctx, pass)) && Raised(old(nfds), nfds, Errors(ctx, pass))
      ensures node == (i < |old(list)| - 1)
      ensures exit == (old(exit) || pass.onError(ctx).stop)
    {
      hide Fds, Raised;
      list := CutOut(list, i);
      node := i < |list|;
      Callback(Error(ctx), pass);
    }

    method HandleRead(ctx: Context, pass: Pass) returns (calls: seq<Call>)
      modifies this`allset, this`nfds, this`list, this`exit
      ensures calls == if ctx.fd in pass.readable then [Read(ctx)] else []
      ensures list == old(list) + Reads(ctx, pass) && allset == old(allset) + Fds(Reads(ctx, pass))
      ensures Raised(old(nfds), nfds, Reads(ctx, pass))
      ensures exit == (old(exit) || (ctx.fd in pass.readable && pass.onRead(ctx).stop))
    {
      hide Raised;
      calls := [];
      if ctx.fd in pass.readable {
        Callback(Read(ctx), pass);
        calls := [Read(ctx)];
      } else {
        RaisedRefl(nfds);
      }
    }

    /** FD_SET and the running maximum. */
    method Watch(ctx: Context)
      modifies this`allset, this`nfds
      ensures allset == old(allset) + Fds([ctx]) && Raised(old(nfds), nfds, [ctx])
    {
      assert Fds([ctx]) == {ctx.fd};
      allset := allset + {ctx.fd};
      if ctx.fd > nfds {
        nfds := ctx.fd;
      }
    }

    /** Walks the context list. `list0` are the contexts registered when select returned, `wake`
        those that the wakeup callback has registered since. */
    method Walk(pass: Pass, ghost list0: seq<Context>, ghost wake: seq<Context>)
      returns (called: seq<Call>, visited: seq<Context>)
      requires list == list0 + wake && allset == {evfd} + Fds(wake) && nfds == evfd
      requires DistinctFds(list0) && evfd !in Fds(list0) && NewFds(pass, evfd, list0, wake)
      requires Quiet(pass, list0, wake)
      modifies this`allset, this`nfds, this`list, this`exit
      ensures called == Calls(list0, pass) && exit == (old(exit) || SomeStops(list0, pass))
      ensures list0 <= visited <= list0 + Added(pass, list0, wake)
      ensures list == Kept(list0, pass.failed) + Added(pass, list0, wake)
      ensures Valid()
    {
      called, visited := [], [];
      var i: nat, node := 0, |list| > 0;
      ghost var k := 0;
      WalkStart(pass, list0, wake, evfd);
      hide Watches, NewFds, Kept, Added, Calls, CallsFor, Fds, AddedBy, Walking, Visited, Quiet, Reached, Reported, DistinctFds, Effect;
      assert !StoppedBy([], pass);
      hide StoppedBy;
      while node
        invariant Walking(pass, list0, wake, evfd, k, W(i, node, list, allset, nfds, called, visited))
        invariant exit == (old(exit) || StoppedBy(called, pass))
        decreases if k < |list0| then |list0| - k else 0, |list| - i
      {
        ghost var w := W(i, node, list, allset, nfds, called, visited);
        QuietHere(pass, list0, wake, evfd, k, w);
        ghost var stop;
        i, node, called, visited, stop := Visit(i, pass, called, visited);
        WalkStep(pass, list0, wake, evfd, k, w, W(i, node, list, allset, nfds, called, visited));
        if k < |list0| {
          k := k + 1;
        }
      }
      WalkEnd(pass, list0, wake, evfd, k, W(i, node, list, allset, nfds, called, visited));
      CallsStop(list0, pass);
    }

    /** The first `limit` visits of the same walk, for whatever the callbacks register. A limit that
        covers the contexts and the newcomers tells whether the walk does what it must: it does
        exactly when it is quiet. Otherwise a newcomer is called back and taken out again. */
    method WalkFor(pass: Pass, limit: nat, ghost list0: seq<Context>, ghost wake: seq<Context>)
      returns (called: seq<Call>, node: bool)
      requires list == list0 + wake && allset == {evfd} + Fds(wake) && nfds == evfd
      requires DistinctFds(list0) && evfd !in Fds(list0) && NewFds(pass, evfd, list0, wake)
      modifies this`allset, this`nfds, this`list, this`exit
      ensures Quiet(pass, list0, wake) && |list0| + |Added(pass, list0, wake)| <= limit ==>
        && !node && called == Calls(list0, pass) && Valid()
        && list == Kept(list0, pass.failed) + Added(pass, list0, wake)
      ensures !Quiet(pass, list0, wake) && |list0| + |Added(pass, list0, wake)| <= limit ==>
        Disturbed(pass, list0, wake, called)
    {
      called := [];
      var visited: seq<Context> := [];
      var i: nat := 0;
      node := |list| > 0;
      ghost var k, quiet := 0, true;
      assert Progress(pass, list0, 0, 0) == 0;
      WalkStart(pass, list0, wake, evfd);
      hide Watches, NewFds, Kept, Added, Calls, CallsFor, Fds, AddedBy, Walking, Visited, Reached, Reported, Disturbed, Quiet;
      var steps: nat := 0;
      while node && steps < limit
        invariant steps <= limit && (node ==> i < |list|)
        invariant quiet ==> Walking(pass, list0, wake, evfd, k, W(i, node, list, allset, nfds, called, visited))
        invariant quiet ==> steps == Progress(pass, list0, k, i)
        invariant !quiet ==> Disturbed(pass, list0, wake, called) && !Quiet(pass, list0, wake)
        decreases limit - steps
      {
        ghost var w := W(i, node, list, allset, nfds, called, visited);
        ghost var stop;
        i, node, called, visited, stop := Visit(i, pass, called, visited);
        ghost var v := W(i, node, list, allset, nfds, called, visited);
        VisitedInRange(pass, w, v);
        if quiet {
          quiet, k := WalkOn(pass, list0, wake, evfd, k, w, v);
        } else {
          DisturbedStays(pass, list0, wake, w, v);
        }
        steps := steps + 1;
      }
      if quiet {
        WalkLimit(pass, list0, wake, evfd, k, W(i, node, list, allset, nfds, called, visited), limit);
      }
    }

    /** One pass of the loop. It rebuilds the watched set and its maximum, visits every context that
        was registered when select returned once and in order, and calls back accordingly. */
    method OnePass(pass: Pass) returns (called: seq<Call>)
      requires Valid() && PassOk(pass, evfd, list)
      modifies this
      ensures Valid()
      ensures list == NextList(pass, evfd, old(list))
      ensures called == PassCalls(pass, evfd, old(list))
      ensures exit == (old(exit) || Stops(pass, evfd, old(list)))
    {
      PassAssembly(pass, evfd, list);
      assert DistinctFds(list) && evfd !in Fds(list);
      hide NewFds, Quiet, Fresh, Added, Calls, Kept, DistinctFds, Fds, Watches, WakeAdds, TimerAdds, NextList, PassCalls;
      called := [];
      if pass.n > 0 {
        called := HandleReady(pass);
        called := HandleTimer(pass, called);
      } else if pass.n == 0 {
        called := HandleTimer(pass, called);
      } else {
        exit := true;
      }
    }

    /** The branch taken when select reports descriptors. */
    method HandleReady(pass: Pass) returns (called: seq<Call>)
      requires DistinctFds(list) && evfd !in Fds(list) && pass.n > 0
      requires NewFds(pass, evfd, list, WakeAdds(pass, evfd)) && Quiet(pass, list, WakeAdds(pass, evfd))
      modifies this
      ensures Valid()
      ensures list == Kept(old(list), pass.failed) + Added(pass, old(list), WakeAdds(pass, evfd))
      ensures called == (if evfd in pass.readable then [Wakeup] else []) + Calls(old(list), pass)
      ensures exit == (old(exit) || (evfd in pass.readable && pass.onWakeup.stop) || SomeStops(old(list), pass))
    {
      hide NewFds, Quiet, Watches, Added, Calls, Kept, DistinctFds, Fds, WakeAdds;
      ghost var list0 := list;
      var wakeup := BeginPass(pass);
      var visited;
      called, visited := Walk(pass, list0, WakeAdds(pass, evfd));
      called := wakeup + called;
    }

    /** The same branch for whatever the callbacks register, with the first `limit` visits of the walk: the
        watched set is rebuilt and no newcomer is called back if and only if the pass is quiet. */
    method ReadyFor(pass: Pass, limit: nat) returns (called: seq<Call>, node: bool)
      requires Valid() && NewFds(pass, evfd, list, WakeAdds(pass, evfd))
      modifies this
      ensures |old(list)| + |Added(pass, old(list), WakeAdds(pass, evfd))| <= limit ==>
        if Quiet(pass, old(list), WakeAdds(pass, evfd)) then
          !node && Valid() && called == Calls(old(list), pass)
        else Disturbed(pass, old(list), WakeAdds(pass, evfd), called)
    {
      assert DistinctFds(list) && evfd !in Fds(list);
      hide NewFds, Quiet, Watches, Added, Calls, Kept, DistinctFds, Fds, WakeAdds, Disturbed;
      ghost var list0 := list;
      var _ := BeginPass(pass);
      called, node := WalkFor(pass, limit, list0, WakeAdds(pass, evfd));
    }

    /** Empties the watched set, handles the wakeup and puts the eventfd back. */
    method BeginPass(pass: Pass) returns (wakeup: seq<Call>)
      modifies this
      ensures wakeup == if evfd in pass.readable then [Wakeup] else []
      ensures list == old(list) + WakeAdds(pass, evfd) && allset == {evfd} + Fds(WakeAdds(pass, evfd)) && nfds == evfd
      ensures exit == (old(exit) || (evfd in pass.readable && pass.onWakeup.stop))
    {
      hide Raised;
      wakeup := [];
      allset := {};
      assert Fds([]) == {};
      if evfd in pass.readable {
        Callback(Wakeup, pass);
        wakeup := [Wakeup];
      }
      assert list == old(list) + WakeAdds(pass, evfd);
      allset := allset + {evfd};
      nfds := evfd;
    }

    /** Calls the timer callback if it is due. */
    method HandleTimer(pass: Pass, called: seq<Call>) returns (calls: seq<Call>)
      requires Valid() && Fresh(evfd, list, TimerAdds(pass))
      modifies this
      ensures Valid() && list == old(list) + TimerAdds(pass)
      ensures calls == called + (if pass.timerDue then [Timer] else [])
      ensures exit == (old(exit) || (pass.timerDue && pass.onTimer.stop))
    {
      hide Watches, Fresh, Fds, Raised;
      calls := called;
      if pass.timerDue {
        ghost var n := nfds;
        Callback(Timer, pass);
        AddsKeepWatches(evfd, old(list), old(allset), n, TimerAdds(pass), nfds);
        calls := called + [Timer];
      } else {
        assert list + [] == list && called + [] == called;
      }
    }

    /** The event loop: passes until it is asked to stop. */
    method Run(passes: seq<Pass>) returns (called: seq<Call>)
      requires Valid() && RunOk(passes, evfd, list) && !exit
      modifies this
      ensures Valid()
      ensures list == RunList(passes, evfd, old(list))
      ensures called == RunCalls(passes, evfd, old(list))
      ensures exit == RunStops(passes, evfd, old(list))
    {
      hide Watches, PassOk, NextList, PassCalls, Stops;
      called := [];
      var i := 0;
      while i < |passes|
        invariant 0 <= i <= |passes| && Valid() && !exit
        invariant RunOk(passes[i..], evfd, list)
        invariant RunStops(passes, evfd, old(list)) == RunStops(passes[i..], evfd, list)
        invariant RunList(passes, evfd, old(list)) == RunList(passes[i..], evfd, list)
        invariant RunCalls(passes, evfd, old(list)) == called + RunCalls(passes[i..], evfd, list)
      {
        assert passes[i..][1..] == passes[i + 1..];
        ghost var l := list;
        var calls := OnePass(passes[i]);
        assert RunCalls(passes[i..], evfd, l) ==
          calls + if exit then [] else RunCalls(passes[i + 1..], evfd, list);
        called := called + calls;
        i := i + 1;
        if exit {
          return;
        }
      }
    }
  }

  // ---- a whole pass, and whole runs

  function WakeAdds(pass: Pass, evfd: int): seq<Context>
  {
    if evfd in pass.readable then pass.onWakeup.adds else []
  }

  function TimerAdds(pass: Pass): seq<Context>
  {
    if pass.timerDue then pass.onTimer.adds else []
  }

  /** The contexts registered by a pass, in order. */
  function Newcomers(pass: Pass, evfd: int, list: seq<Context>): seq<Context>
  {
    if pass.n > 0 then Added(pass, list, WakeAdds(pass, evfd)) + TimerAdds(pass)
    else if pass.n == 0 then TimerAdds(pass)
    else []
  }

  /** The callbacks of a pass: the wakeup, then read and error for each context registered when
      select returned, in list order, then the timer. */
  function PassCalls(pass: Pass, evfd: int, list: seq<Context>): seq<Call>
  {
    var timer := if pass.timerDue then [Timer] else [];
    if pass.n > 0 then (if evfd in pass.readable then [Wakeup] else []) + Calls(list, pass) + timer
    else if pass.n == 0 then timer
    else []
  }

  /** The list after a pass: those that did not fail, then the newcomers. */
  function NextList(pass: Pass, evfd: int, list: seq<Context>): seq<Context>
  {
    (if pass.n > 0 then Kept(list, pass.failed) else list) + Newcomers(pass, evfd, list)
  }

  /** The loop must stop after a pass: select failed, or a callback that the pass makes asks for it. */
  predicate Stops(pass: Pass, evfd: int, list: seq<Context>)
  {
    || pass.n < 0
    || (pass.n > 0 && evfd in pass.readable && pass.onWakeup.stop)
    || (pass.n > 0 && SomeStops(list, pass))
    || (pass.n >= 0 && pass.timerDue && pass.onTimer.stop)
  }

  /** Some context is readable or failed, and its callback for that asks the loop to stop. */
  predicate SomeStops(list: seq<Context>, pass: Pass)
  {
    exists i :: 0 <= i < |list| && StopsFor(list[i], pass)
  }

  predicate StopsFor(c: Context, pass: Pass)
  {
    (c.fd in pass.readable && pass.onRead(c).stop) || (c.fd in pass.failed && pass.onError(c).stop)
  }

  lemma {:induction false} CallsStop(list: seq<Context>, pass: Pass)
    ensures StoppedBy(Calls(list, pass), pass) <==> SomeStops(list, pass)
  {
    if list != [] {
      var init, c := list[..|list| - 1], list[|list| - 1];
      CallsStop(init, pass);
      StoppedByConcat(Calls(init, pass), CallsFor(c, pass), pass);
      CallsForStop(c, pass);
      hide Calls, CallsFor, StoppedBy, StopsFor;
      if i :| 0 <= i < |init| && StopsFor(init[i], pass) { assert StopsFor(list[i], pass); }
      if i :| 0 <= i < |list| && StopsFor(list[i], pass) && i < |init| { assert StopsFor(init[i], pass); }
    }
  }

  lemma CallsForStop(c: Context, pass: Pass)
    ensures StoppedBy(CallsFor(c, pass), pass) <==> StopsFor(c, pass)
  {
    var x := if c.fd in pass.readable then [Read(c)] else [];
    var y := if c.fd in pass.failed then [Error(c)] else [];
    StoppedByConcat(x, y, pass);
  }

  lemma {:induction false} CallsSplit(list: seq<Context>, pass: Pass, k: nat)
    requires k < |list|
    ensures Calls(list, pass) == Calls(list[..k], pass) + CallsFor(list[k], pass) + Calls(list[k + 1..], pass)
  {
    hide CallsFor;
    var init, last := list[..|list| - 1], list[|list| - 1];
    if k == |list| - 1 {
      assert list[k + 1..] == [];
    } else {
      CallsSplit(init, pass, k);
      var rest := list[k + 1..];
      assert init[..k] == list[..k] && init[k + 1..] == rest[..|rest| - 1] && rest[|rest| - 1] == last;
      assert Calls(rest, pass) == Calls(init[k + 1..], pass) + CallsFor(last, pass);
    }
  }

  /** The callbacks of a walk, around those of context number `k`: the read comes before the error. */
  lemma CallsAround(list: seq<Context>, pass: Pass, k: nat)
    requires k < |list|
    ensures var c := list[k];
      Calls(list, pass) == Calls(list[..k], pass)
        + ((if c.fd in pass.readable then [Read(c)] else []) + (if c.fd in pass.failed then [Error(c)] else []))
        + Calls(list[k + 1..], pass)
  {
    CallsSplit(list, pass, k);
    hide Calls;
  }

  lemma CountFor(d: Context, pass: Pass, c: Context)
    ensures var calls := multiset(CallsFor(d, pass));
      && calls[Read(c)] == (if c == d && c.fd in pass.readable then 1 else 0)
      && calls[Error(c)] == (if c == d && c.fd in pass.failed then 1 else 0)
      && calls[Wakeup] == calls[Timer] == 0
  {
  }

  /** Each context is called back exactly as select reported it, and once. */
  lemma {:induction false} CalledOnce(list: seq<Context>, pass: Pass, c: Context)
    requires DistinctFds(list)
    ensures var calls := multiset(Calls(list, pass));
      && calls[Read(c)] == (if c in list && c.fd in pass.readable then 1 else 0)
      && calls[Error(c)] == (if c in list && c.fd in pass.failed then 1 else 0)
      && calls[Wakeup] == calls[Timer] == 0
  {
    if list != [] {
      var init, last := list[..|list| - 1], list[|list| - 1];
      CalledOnce(init, pass, c);
      CountFor(last, pass, c);
      NotBefore(init, last, list, c);
      hide CallsFor, DistinctFds;
    }
  }

  lemma NotBefore(init: seq<Context>, last: Context, list: seq<Context>, c: Context)
    requires DistinctFds(list) && list != [] && init == list[..|list| - 1] && last == list[|list| - 1]
    ensures last !in init && (c in list <==> c in init || c == last)
  {
    assert list == init + [last];
  }

  /** And the callbacks of a whole pass: which, and how often. */
  lemma PassCalledOnce(pass: Pass, evfd: int, list: seq<Context>, c: Context)
    requires DistinctFds(list)
    ensures var calls := multiset(PassCalls(pass, evfd, list));
      && calls[Wakeup] == (if pass.n > 0 && evfd in pass.readable then 1 else 0)
      && calls[Read(c)] == (if pass.n > 0 && c in list && c.fd in pass.readable then 1 else 0)
      && calls[Error(c)] == (if pass.n > 0 && c in list && c.fd in pass.failed then 1 else 0)
      && calls[Timer] == (if pass.n >= 0 && pass.timerDue then 1 else 0)
  {
    CalledOnce(list, pass, c);
    var wake, timer := if evfd in pass.readable then [Wakeup] else [], if pass.timerDue then [Timer] else [];
    assert pass.n > 0 ==> PassCalls(pass, evfd, list) == wake + Calls(list, pass) + timer;
    assert pass.n == 0 ==> PassCalls(pass, evfd, list) == timer;
    assert pass.n < 0 ==> PassCalls(pass, evfd, list) == [];
    hide Calls, DistinctFds, PassCalls;
    if pass.n > 0 {
      assert multiset(wake + Calls(list, pass) + timer) == multiset(wake) + multiset(Calls(list, pass)) + multiset(timer);
    }
  }

  /** The wakeup comes first and the timer last. */
  lemma PassEnds(pass: Pass, evfd: int, list: seq<Context>)
    ensures pass.n > 0 && evfd in pass.readable ==>
      PassCalls(pass, evfd, list) != [] && PassCalls(pass, evfd, list)[0] == Wakeup
    ensures pass.n >= 0 && pass.timerDue ==>
      PassCalls(pass, evfd, list) != [] && PassCalls(pass, evfd, list)[|PassCalls(pass, evfd, list)| - 1] == Timer
  {
    hide Calls;
  }

  /** A callback that context `d` gets registers `c`. */
  predicate AddsFor(d: Context, pass: Pass, c: Context)
  {
    (d.fd in pass.readable && c in pass.onRead(d).adds) || (d.fd in pass.failed && c in pass.onError(d).adds)
  }

  predicate SomeAdds(list: seq<Context>, pass: Pass, c: Context)
  {
    exists i :: 0 <= i < |list| && AddsFor(list[i], pass, c)
  }

  lemma {:induction false} CallsAdd(list: seq<Context>, pass: Pass, c: Context)
    ensures c in AddedBy(Calls(list, pass), pass) <==> SomeAdds(list, pass, c)
  {
    if list != [] {
      var init, d := list[..|list| - 1], list[|list| - 1];
      CallsAdd(init, pass, c);
      AddedByCalls(Calls(init, pass), d, pass);
      assert AddsFor(d, pass, c) <==> c in Reads(d, pass) + Errors(d, pass);
      assert Calls(list, pass) == Calls(init, pass) + CallsFor(d, pass);
      hide Calls, CallsFor, AddedBy, AddsFor, Reads, Errors;
      if i :| 0 <= i < |init| && AddsFor(init[i], pass, c) { assert AddsFor(list[i], pass, c); }
      if i :| 0 <= i < |list| && AddsFor(list[i], pass, c) && i < |init| { assert AddsFor(init[i], pass, c); }
    }
  }

  lemma {:induction false} KeptContext(list: seq<Context>, failed: set<int>, c: Context)
    ensures c in Kept(list, failed) <==> c in list && c.fd !in failed
  {
    if list != [] {
      KeptContext(list[..|list| - 1], failed, c);
      assert list == list[..|list| - 1] + [list[|list| - 1]];
    }
  }

  /** The contexts registered after a pass are those registered before that did not fail, and those
      that the wakeup, a reported context's callbacks or the timer registered. */
  lemma RegisteredAfter(pass: Pass, evfd: int, list: seq<Context>, c: Context)
    ensures c in NextList(pass, evfd, list) <==>
      || (c in list && (pass.n <= 0 || c.fd !in pass.failed))
      || (pass.n > 0 && evfd in pass.readable && c in pass.onWakeup.adds)
      || (pass.n > 0 && SomeAdds(list, pass, c))
      || (pass.n >= 0 && pass.timerDue && c in pass.onTimer.adds)
  {
    CallsAdd(list, pass, c);
    KeptContext(list, pass.failed, c);
    hide Calls, AddedBy, SomeAdds, Kept;
  }

  /** Whether some pass of a run stops it. */
  predicate RunStops(passes: seq<Pass>, evfd: int, list: seq<Context>)
  {
    passes != [] &&
    (Stops(passes[0], evfd, list) || RunStops(passes[1..], evfd, NextList(passes[0], evfd, list)))
  }

  /** The list when the timer callback runs. */
  function Walked(pass: Pass, evfd: int, list: seq<Context>): seq<Context>
  {
    if pass.n > 0 then Kept(list, pass.failed) + Added(pass, list, WakeAdds(pass, evfd)) else list
  }

  /** Callbacks register descriptors that are not registered at that moment, and the walk meets none
      of them that select reported. */
  ghost predicate PassOk(pass: Pass, evfd: int, list: seq<Context>)
  {
    && (pass.n > 0 ==>
          NewFds(pass, evfd, list, WakeAdds(pass, evfd)) && Quiet(pass, list, WakeAdds(pass, evfd)))
    && (pass.n >= 0 ==> Fresh(evfd, Walked(pass, evfd, list), TimerAdds(pass)))
  }

  ghost predicate RunOk(passes: seq<Pass>, evfd: int, list: seq<Context>)
  {
    passes == [] ||
    (PassOk(passes[0], evfd, list) &&
     (Stops(passes[0], evfd, list) || RunOk(passes[1..], evfd, NextList(passes[0], evfd, list))))
  }

  /** All callbacks of a run, up to the pass in which the loop is asked to stop. */
  function RunCalls(passes: seq<Pass>, evfd: int, list: seq<Context>): seq<Call>
  {
    if passes == [] then []
    else
      var later :=
        if Stops(passes[0], evfd, list) then [] else RunCalls(passes[1..], evfd, NextList(passes[0], evfd, list));
      PassCalls(passes[0], evfd, list) + later
  }

  function RunList(passes: seq<Pass>, evfd: int, list: seq<Context>): seq<Context>
  {
    if passes == [] then list
    else
      var next := NextList(passes[0], evfd, list);
      if Stops(passes[0], evfd, list) then next else RunList(passes[1..], evfd, next)
  }

  /** How the stages of a pass add up. */
  lemma PassAssembly(pass: Pass, evfd: int, list: seq<Context>)
    ensures pass.n > 0 ==>
      && NextList(pass, evfd, list) ==
           (Kept(list, pass.failed) + Added(pass, list, WakeAdds(pass, evfd))) + TimerAdds(pass)
      && PassCalls(pass, evfd, list) == ((if evfd in pass.readable then [Wakeup] else []) + Calls(list, pass))
           + (if pass.timerDue then [Timer] else [])
    ensures pass.n == 0 ==>
      && NextList(pass, evfd, list) == list + TimerAdds(pass)
      && PassCalls(pass, evfd, list) == [] + (if pass.timerDue then [Timer] else [])
    ensures pass.n < 0 ==> NextList(pass, evfd, list) == list && PassCalls(pass, evfd, list) == []
  {
    hide Kept, Calls, Added;
    assert list + [] == list;
  }

  /** Registering new descriptors keeps the watched set and its maximum right. */
  lemma AddsKeepWatches(evfd: int, list: seq<Context>, allset: set<int>, nfds: int, adds: seq<Context>, nfds': int)
    requires Watches(evfd, list, allset, nfds) && Raised(nfds, nfds', adds) && Fresh(evfd, list, adds)
    ensures Watches(evfd, list + adds, allset + Fds(adds), nfds')
  {
    FreshDistinct(evfd, list, adds);
    FdsAppend(list, adds);
    forall fd | fd in Fds(adds) ensures fd <= nfds' { FdsMember(adds, fd); }
    hide Fds, DistinctFds;
  }

  // ---- the walk, on values

  /** Contexts registered by the end of a pass over `list0`. */
  function Added(pass: Pass, list0: seq<Context>, wake: seq<Context>): seq<Context>
  {
    wake + AddedBy(Calls(list0, pass), pass)
  }

  /** Descriptors that are not registered when they are added. */
  ghost predicate Fresh(evfd: int, list: seq<Context>, adds: seq<Context>)
  {
    DistinctFds(adds) && evfd !in Fds(adds) && Fds(adds) !! Fds(list)
  }

  /** The list when the read callback of context number `k` runs. */
  function Listed(pass: Pass, list0: seq<Context>, wake: seq<Context>, k: nat): seq<Context>
    requires k <= |list0|
  {
    Kept(list0[..k], pass.failed) + list0[k..] + Added(pass, list0[..k], wake)
  }

  /** The list when the error callback of context number `k` runs: that context is out already. */
  function Removed(pass: Pass, list0: seq<Context>, wake: seq<Context>, k: nat): seq<Context>
    requires k < |list0|
  {
    Kept(list0[..k], pass.failed) + list0[k + 1..] + (Added(pass, list0[..k], wake) + Reads(list0[k], pass))
  }

  /** select only reports descriptors that it watched, and callbacks only register descriptors that
      are not registered at that moment. That of a context removed earlier in the pass may be reused. */
  ghost predicate NewFds(pass: Pass, evfd: int, list0: seq<Context>, wake: seq<Context>)
  {
    && pass.readable <= {evfd} + Fds(list0) && pass.failed <= {evfd} + Fds(list0)
    && Fresh(evfd, list0, wake)
    && (forall k :: 0 <= k < |list0| ==>
          && Fresh(evfd, Listed(pass, list0, wake, k), Reads(list0[k], pass))
          && Fresh(evfd, Removed(pass, list0, wake, k), Errors(list0[k], pass)))
  }

  /** The walk goes on to the newcomers, unless it ends with the removal of the last node of the list. */
  predicate Reached(pass: Pass, list0: seq<Context>, wake: seq<Context>)
  {
    list0 == [] ||
    var last := list0[|list0| - 1];
    last.fd !in pass.failed || Added(pass, list0[..|list0| - 1], wake) + Reads(last, pass) != []
  }

  predicate Reported(c: Context, pass: Pass)
  {
    c.fd in pass.readable || c.fd in pass.failed
  }

  /** No newcomer that the walk goes on to has a descriptor that select reported. */
  ghost predicate Quiet(pass: Pass, list0: seq<Context>, wake: seq<Context>)
  {
    Reached(pass, list0, wake) ==>
      forall j :: 0 <= j < |Added(pass, list0, wake)| ==> !Reported(Added(pass, list0, wake)[j], pass)
  }

  lemma FreshDistinct(evfd: int, list: seq<Context>, adds: seq<Context>)
    requires DistinctFds(list) && evfd !in Fds(list) && Fresh(evfd, list, adds)
    ensures DistinctFds(list + adds) && evfd !in Fds(list + adds)
  {
    FdsAppend(list, adds);
    forall i | 0 <= i < |list| ensures list[i].fd in Fds(list) { FdsMember(list, list[i].fd); }
    forall j | 0 <= j < |adds| ensures adds[j].fd in Fds(adds) { FdsMember(adds, adds[j].fd); }
    hide Fds;
    var all := list + adds;
    forall i, j | 0 <= i < j < |all| ensures all[i].fd != all[j].fd {
      if i < |list| <= j {
        assert list[i].fd in Fds(list) && adds[j - |list|].fd in Fds(adds);
      }
    }
  }

  /** At every moment of the walk the registered descriptors are distinct. */
  lemma {:induction false} ListedDistinct(pass: Pass, evfd: int, list0: seq<Context>, wake: seq<Context>, k: nat)
    requires DistinctFds(list0) && evfd !in Fds(list0) && NewFds(pass, evfd, list0, wake) && k <= |list0|
    ensures DistinctFds(Listed(pass, list0, wake, k)) && evfd !in Fds(Listed(pass, list0, wake, k))
    decreases k
  {
    if k == 0 {
      ListedFirst(pass, list0, wake);
      hide Fresh, DistinctFds, Fds, Listed;
      FreshDistinct(evfd, list0, wake);
    } else {
      hide Fresh, DistinctFds, Fds, Listed, Removed, Reads, Errors;
      ListedDistinct(pass, evfd, list0, wake, k - 1);
      ListedStep(pass, evfd, list0, wake, k - 1);
    }
  }

  lemma ListedFirst(pass: Pass, list0: seq<Context>, wake: seq<Context>)
    ensures Listed(pass, list0, wake, 0) == list0 + wake
  {
    assert list0[..0] == [] && list0[0..] == list0;
    assert Added(pass, [], wake) == wake && Kept([], pass.failed) + list0 == list0;
  }

  lemma ListedStep(pass: Pass, evfd: int, list0: seq<Context>, wake: seq<Context>, k: nat)
    requires k < |list0| && Fresh(evfd, Listed(pass, list0, wake, k), Reads(list0[k], pass))
    requires Fresh(evfd, Removed(pass, list0, wake, k), Errors(list0[k], pass))
    requires DistinctFds(Listed(pass, list0, wake, k)) && evfd !in Fds(Listed(pass, list0, wake, k))
    ensures DistinctFds(Listed(pass, list0, wake, k + 1)) && evfd !in Fds(Listed(pass, list0, wake, k + 1))
  {
    hide Fds, Fresh, DistinctFds, Added, Kept, Reads;
    var c, kept, rest := list0[k], Kept(list0[..k], pass.failed), list0[k + 1..];
    var added, x, y := Added(pass, list0[..k], wake), Reads(list0[k], pass), Errors(list0[k], pass);
    assert list0[k..] == [c] + rest;
    PrefixStep(list0, k, pass);
    AddedStep(pass, list0, wake, k);
    if c.fd in pass.failed {
      FailedDistinct(evfd, kept, c, rest, added, x, y);
      assert kept + [] == kept && kept + rest + (added + x) + y == kept + rest + (added + (x + y));
    } else {
      assert x + y == x;
      KeptStaysDistinct(evfd, kept, c, rest, added, x);
    }
  }

  lemma KeptStaysDistinct(evfd: int, kept: seq<Context>, c: Context, rest: seq<Context>, added: seq<Context>, x: seq<Context>)
    requires var list := kept + ([c] + rest) + added;
      DistinctFds(list) && evfd !in Fds(list) && Fresh(evfd, list, x)
    ensures var list := (kept + [c]) + rest + (added + x);
      DistinctFds(list) && evfd !in Fds(list)
  {
    hide Fds, Fresh, DistinctFds;
    FreshDistinct(evfd, kept + ([c] + rest) + added, x);
    Regroup(kept, c, rest, added, x);
  }

  lemma FailedDistinct(evfd: int, kept: seq<Context>, c: Context, rest: seq<Context>, added: seq<Context>,
                       x: seq<Context>, y: seq<Context>)
    requires var list := kept + ([c] + rest) + added;
      DistinctFds(list) && evfd !in Fds(list) && Fresh(evfd, list, x)
    requires Fresh(evfd, kept + rest + (added + x), y)
    ensures var list := kept + rest + (added + x) + y;
      DistinctFds(list) && evfd !in Fds(list)
  {
    hide Fds, Fresh, DistinctFds;
    KeptStaysDistinct(evfd, kept, c, rest, added, x);
    assert (kept + [c]) + rest + (added + x) == kept + [c] + (rest + (added + x));
    DropDistinct(kept, c, rest + (added + x));
    DropMember(evfd, kept, c, rest + (added + x));
    assert kept + (rest + (added + x)) == kept + rest + (added + x);
    FreshDistinct(evfd, kept + rest + (added + x), y);
  }

  lemma DropMember(fd: int, a: seq<Context>, c: Context, b: seq<Context>)
    requires fd !in Fds(a + [c] + b)
    ensures fd !in Fds(a + b)
  {
    FdsAppend(a + [c], b);
    FdsAppend(a, [c]);
    FdsAppend(a, b);
  }

  datatype WalkState = W(i: nat, node: bool, list: seq<Context>, allset: set<int>, nfds: int,
                         called: seq<Call>, visited: seq<Context>)

  /** The list is split in contexts already kept, contexts `rest` still to be visited and contexts
      `added` during this pass; `seen` are the visited contexts of the original list. */
  ghost predicate Positioned(kept: seq<Context>, rest: seq<Context>, added: seq<Context>, seen: seq<Context>,
                             w: WalkState)
  {
    && w.list == kept + rest + added
    && |kept| <= w.i <= |w.list| && (rest != [] ==> w.i == |kept|)
    && w.visited == seen + added[..w.i - |kept|]
  }

  /** What is watched so far: everything kept or added. The maximum may still miss the contexts of
      the wakeup callback until they are visited. */
  ghost predicate Watching(kept: seq<Context>, added: seq<Context>, wake: seq<Context>, evfd: int, w: WalkState)
  {
    && w.allset == {evfd} + Fds(kept) + Fds(added)
    && w.nfds in w.allset && evfd <= w.nfds
    && (forall j :: 0 <= j < |kept| ==> kept[j].fd <= w.nfds)
    && (forall j :: 0 <= j < |added| && (|wake| <= j || j < w.i - |kept|) ==> added[j].fd <= w.nfds)
  }

  /** After `k` of the contexts in `list0`, and some newcomers that select did not report. */
  ghost predicate Walking(pass: Pass, list0: seq<Context>, wake: seq<Context>, evfd: int, k: nat, w: WalkState)
  {
    k <= |list0| &&
    var kept, added := Kept(list0[..k], pass.failed), Added(pass, list0[..k], wake);
    && Positioned(kept, list0[k..], added, list0[..k], w)
    && Watching(kept, added, wake, evfd, w)
    && w.called == Calls(list0[..k], pass)
    && w.node == (k < |list0| || (Reached(pass, list0, wake) && w.i < |w.list|))
    && forall j :: 0 <= j < w.i - |kept| ==> !Reported(added[j], pass)
  }

  lemma WalkStart(pass: Pass, list0: seq<Context>, wake: seq<Context>, evfd: int)
    ensures Walking(pass, list0, wake, evfd, 0, W(0, |list0 + wake| > 0, list0 + wake, {evfd} + Fds(wake), evfd, [], []))
  {
    assert list0[..0] == [] && list0[0..] == list0;
    assert Added(pass, [], wake) == wake;
  }

  /** The effect of a visit on the list, the watched set and the walk. */
  ghost predicate Effect(pass: Pass, w: WalkState, v: WalkState)
    requires w.i < |w.list|
  {
    var c := w.list[w.i];
    var adds := Reads(c, pass) + Errors(c, pass);
    if c.fd in pass.failed then
      && v.list == w.list[..w.i] + w.list[w.i + 1..] + adds
      && v.allset == w.allset + Fds(adds) && Raised(w.nfds, v.nfds, adds)
      && v.i == w.i && v.node == (w.i < |w.list| - 1 + |Reads(c, pass)|)
    else
      && v.list == w.list + adds
      && v.allset == w.allset + Fds(adds + [c]) && Raised(w.nfds, v.nfds, adds + [c])
      && v.i == w.i + 1 && v.node == (w.i + 1 < |v.list|)
  }

  ghost predicate Visited(pass: Pass, w: WalkState, v: WalkState)
    requires w.i < |w.list|
  {
    && Effect(pass, w, v)
    && v.called == w.called + CallsFor(w.list[w.i], pass) && v.visited == w.visited + [w.list[w.i]]
  }

  lemma EffectIgnoresTrace(pass: Pass, w: WalkState, v: WalkState, called: seq<Call>, visited: seq<Context>, calls: seq<Call>, visits: seq<Context>)
    requires w.i < |w.list| && Effect(pass, w, v)
    ensures Effect(pass, w.(called := called, visited := visited), v.(called := calls, visited := visits))
  {
    hide Fds, Raised, Reads, Errors;
  }

  lemma StoppedByConcat(a: seq<Call>, b: seq<Call>, pass: Pass)
    ensures StoppedBy(a + b, pass) == (StoppedBy(a, pass) || StoppedBy(b, pass))
  {
    if b == [] {
      assert a + b == a;
    } else {
      assert (a + b)[..|a + b| - 1] == a + b[..|b| - 1];
      StoppedByConcat(a, b[..|b| - 1], pass);
    }
  }

  /** A context's callbacks register what they register on top of what came before. */
  lemma AddedStep(pass: Pass, list0: seq<Context>, wake: seq<Context>, k: nat)
    requires k < |list0|
    ensures Added(pass, list0[..k + 1], wake) == Added(pass, list0[..k], wake) + (Reads(list0[k], pass) + Errors(list0[k], pass))
  {
    var c, calls := list0[k], Calls(list0[..k], pass);
    PrefixStep(list0, k, pass);
    AddedByCalls(calls, c, pass);
    hide Calls, CallsFor, AddedBy, Reads, Errors;
    assert wake + AddedBy(calls, pass) + (Reads(c, pass) + Errors(c, pass))
        == wake + (AddedBy(calls, pass) + (Reads(c, pass) + Errors(c, pass)));
  }

  lemma AddedByCalls(calls: seq<Call>, c: Context, pass: Pass)
    ensures AddedBy(calls + CallsFor(c, pass), pass) == AddedBy(calls, pass) + (Reads(c, pass) + Errors(c, pass))
  {
    var r := if c.fd in pass.readable then [Read(c)] else [];
    CallsForSplit(c, pass, r);
    hide CallsFor;
    if c.fd in pass.readable {
      AddedByAppend(calls, Read(c), pass);
    } else {
      assert calls + r == calls;
    }
    if c.fd in pass.failed {
      AddedByAppend(calls + r, Error(c), pass);
      assert calls + (r + [Error(c)]) == (calls + r) + [Error(c)];
    }
  }

  lemma FailedPosition(kept: seq<Context>, c: Context, rest: seq<Context>, added: seq<Context>, seen: seq<Context>,
                       w: WalkState, v: WalkState, adds: seq<Context>)
    requires Positioned(kept, [c] + rest, added, seen, w)
    requires v.list == w.list[..w.i] + w.list[w.i + 1..] + adds && v.i == w.i && v.visited == w.visited + [c]
    ensures Positioned(kept, rest, added + adds, seen + [c], v)
  {
    assert w.list[..w.i] == kept && w.list[w.i + 1..] == rest + added;
    assert v.visited == seen + [c] + (added + adds)[..0];
  }

  lemma KeptPosition(kept: seq<Context>, c: Context, rest: seq<Context>, added: seq<Context>, seen: seq<Context>,
                     w: WalkState, v: WalkState, adds: seq<Context>)
    requires Positioned(kept, [c] + rest, added, seen, w)
    requires v.list == w.list + adds && v.i == w.i + 1 && v.visited == w.visited + [c]
    ensures Positioned(kept + [c], rest, added + adds, seen + [c], v)
  {
    assert w.visited == seen + added[..0] == seen;
    Regroup(kept, c, rest, added, adds);
    assert v.visited == seen + [c] + (added + adds)[..0];
  }

  lemma Regroup(kept: seq<Context>, c: Context, rest: seq<Context>, added: seq<Context>, adds: seq<Context>)
    ensures kept + ([c] + rest) + added + adds == (kept + [c]) + rest + (added + adds)
  {
    assert kept + ([c] + rest) == (kept + [c]) + rest;
  }

  lemma FailedWatch(kept: seq<Context>, added: seq<Context>, wake: seq<Context>, evfd: int,
                    w: WalkState, v: WalkState, adds: seq<Context>)
    requires Watching(kept, added, wake, evfd, w) && w.i == v.i == |kept| && |wake| <= |added|
    requires v.allset == w.allset + Fds(adds) && Raised(w.nfds, v.nfds, adds)
    ensures Watching(kept, added + adds, wake, evfd, v)
  {
    FdsAppend(added, adds);
    hide Fds;
    var all := added + adds;
    forall j | |wake| <= j < |all| ensures all[j].fd <= v.nfds {
      if j >= |added| { assert all[j] == adds[j - |added|]; }
    }
  }

  lemma KeptWatch(kept: seq<Context>, c: Context, added: seq<Context>, wake: seq<Context>, evfd: int,
                  w: WalkState, v: WalkState, adds: seq<Context>)
    requires Watching(kept, added, wake, evfd, w) && w.i == |kept| && v.i == w.i + 1 && |wake| <= |added|
    requires v.allset == w.allset + Fds(adds + [c]) && Raised(w.nfds, v.nfds, adds + [c])
    ensures Watching(kept + [c], added + adds, wake, evfd, v)
  {
    FdsAppend(added, adds);
    FdsAppend(kept, [c]);
    FdsAppend(adds, [c]);
    hide Fds;
    assert (adds + [c])[|adds|] == c;
    var all := added + adds;
    forall j | |wake| <= j < |all| ensures all[j].fd <= v.nfds {
      if j >= |added| { assert all[j] == (adds + [c])[j - |added|]; }
    }
  }

  lemma Current(kept: seq<Context>, c: Context, rest: seq<Context>, added: seq<Context>, seen: seq<Context>, w: WalkState)
    requires Positioned(kept, [c] + rest, added, seen, w)
    ensures w.i == |kept| && w.list[w.i] == c && |w.list| == |kept| + 1 + |rest| + |added|
  {
  }

  lemma StepFailed(kept: seq<Context>, rest: seq<Context>, added: seq<Context>, seen: seq<Context>,
                   wake: seq<Context>, evfd: int, pass: Pass, c: Context, w: WalkState, v: WalkState)
    requires Positioned(kept, [c] + rest, added, seen, w) && Watching(kept, added, wake, evfd, w)
    requires w.i < |w.list| && |wake| <= |added| && c.fd in pass.failed && Visited(pass, w, v)
    ensures w.list[w.i] == c && v.i == |kept|
    ensures Positioned(kept, rest, added + (Reads(c, pass) + Errors(c, pass)), seen + [c], v)
    ensures Watching(kept, added + (Reads(c, pass) + Errors(c, pass)), wake, evfd, v)
    ensures v.node == (|rest| + |added + Reads(c, pass)| > 0)
  {
    hide Positioned, Watching, Reads, Errors, Fds, Raised;
    Current(kept, c, rest, added, seen, w);
    var adds := Reads(c, pass) + Errors(c, pass);
    FailedPosition(kept, c, rest, added, seen, w, v, adds);
    FailedWatch(kept, added, wake, evfd, w, v, adds);
  }

  lemma StepKept(kept: seq<Context>, rest: seq<Context>, added: seq<Context>, seen: seq<Context>,
                 wake: seq<Context>, evfd: int, pass: Pass, c: Context, w: WalkState, v: WalkState)
    requires Positioned(kept, [c] + rest, added, seen, w) && Watching(kept, added, wake, evfd, w)
    requires w.i < |w.list| && |wake| <= |added| && c.fd !in pass.failed && Visited(pass, w, v)
    ensures w.list[w.i] == c && v.i == |kept + [c]|
    ensures Positioned(kept + [c], rest, added + (Reads(c, pass) + Errors(c, pass)), seen + [c], v)
    ensures Watching(kept + [c], added + (Reads(c, pass) + Errors(c, pass)), wake, evfd, v)
    ensures v.node == (v.i < |v.list|)
  {
    hide Positioned, Watching, Reads, Errors, Fds, Raised;
    Current(kept, c, rest, added, seen, w);
    var adds := Reads(c, pass) + Errors(c, pass);
    KeptPosition(kept, c, rest, added, seen, w, v, adds);
    KeptWatch(kept, c, added, wake, evfd, w, v, adds);
  }

  lemma Remaining(kept: seq<Context>, rest: seq<Context>, added: seq<Context>, seen: seq<Context>, w: WalkState)
    requires Positioned(kept, rest, added, seen, w)
    ensures |w.list| == |kept| + |rest| + |added| && |kept| <= w.i <= |w.list| && (rest != [] ==> w.i == |kept|)
    ensures rest == [] && w.i < |w.list| ==> w.list[w.i] == added[w.i - |kept|]
  {
  }

  lemma StepOld(pass: Pass, list0: seq<Context>, wake: seq<Context>, evfd: int, k: nat, w: WalkState, v: WalkState)
    requires Walking(pass, list0, wake, evfd, k, w) && k < |list0|
    requires w.i < |w.list| && Visited(pass, w, v)
    ensures Walking(pass, list0, wake, evfd, k + 1, v)
  {
    hide Positioned, Watching, Effect, Reads, Errors, Kept, Calls, CallsFor, AddedBy, Reported;
    var c, kept, added := list0[k], Kept(list0[..k], pass.failed), Added(pass, list0[..k], wake);
    assert |wake| <= |added|;
    assert list0[k..] == [c] + list0[k + 1..] && list0[..k] + [c] == list0[..k + 1];
    PrefixStep(list0, k, pass);
    AddedStep(pass, list0, wake, k);
    assert k + 1 == |list0| ==> list0[..|list0| - 1] == list0[..k];
    hide Added;
    if c.fd in pass.failed {
      StepFailed(kept, list0[k + 1..], added, list0[..k], wake, evfd, pass, c, w, v);
      assert kept + [] == kept;
      Remaining(kept, list0[k + 1..], added + (Reads(c, pass) + Errors(c, pass)), list0[..k + 1], v);
    } else {
      StepKept(kept, list0[k + 1..], added, list0[..k], wake, evfd, pass, c, w, v);
      Remaining(kept + [c], list0[k + 1..], added + (Reads(c, pass) + Errors(c, pass)), list0[..k + 1], v);
    }
  }

  lemma NewPosition(kept: seq<Context>, added: seq<Context>, seen: seq<Context>, w: WalkState, v: WalkState)
    requires Positioned(kept, [], added, seen, w) && w.i < |w.list|
    requires v.list == w.list && v.i == w.i + 1 && v.visited == w.visited + [w.list[w.i]]
    ensures Positioned(kept, [], added, seen, v)
  {
    var j := w.i - |kept|;
    assert w.list == kept + added;
    assert added[..j] + [added[j]] == added[..j + 1];
    assert seen + added[..j] + [added[j]] == seen + added[..j + 1];
  }

  lemma NewWatch(kept: seq<Context>, added: seq<Context>, wake: seq<Context>, evfd: int, w: WalkState, v: WalkState)
    requires |kept| <= w.i < |kept| + |added| && v.i == w.i + 1
    requires Watching(kept, added, wake, evfd, w)
    requires v.allset == w.allset + Fds([added[w.i - |kept|]]) && Raised(w.nfds, v.nfds, [added[w.i - |kept|]])
    ensures Watching(kept, added, wake, evfd, v)
  {
    var c := added[w.i - |kept|];
    FdsMember(added, c.fd);
    assert Fds([c]) == {c.fd};
    hide Fds;
    assert [c][0] == c;
  }

  /** The walk steps over a newcomer that select did not report, without any call. */
  lemma StepNew(pass: Pass, list0: seq<Context>, wake: seq<Context>, evfd: int, w: WalkState, v: WalkState)
    requires Walking(pass, list0, wake, evfd, |list0|, w) && w.node
    requires w.i < |w.list| && Visited(pass, w, v) && !Reported(w.list[w.i], pass)
    ensures Walking(pass, list0, wake, evfd, |list0|, v) && |v.list| == |w.list| && v.i == w.i + 1
  {
    var c := w.list[w.i];
    assert c.fd !in pass.failed && Reads(c, pass) == Errors(c, pass) == [] && CallsFor(c, pass) == [];
    hide Kept, Calls, Added, AddedBy, Positioned, Watching, Reads, Errors, CallsFor, Effect, Reached, Reported;
    assert list0[..|list0|] == list0 && list0[|list0|..] == [];
    var kept, added := Kept(list0, pass.failed), Added(pass, list0, wake);
    Remaining(kept, [], added, list0, w);
    NewEffect(pass, w, v);
    assert v.called == w.called;
    NewPosition(kept, added, list0, w, v);
    NewWatch(kept, added, wake, evfd, w, v);
  }

  lemma NewEffect(pass: Pass, w: WalkState, v: WalkState)
    requires w.i < |w.list| && Effect(pass, w, v)
    requires var c := w.list[w.i]; c.fd !in pass.failed && Reads(c, pass) == Errors(c, pass) == []
    ensures v.list == w.list && v.i == w.i + 1 && v.node == (v.i < |v.list|)
    ensures v.allset == w.allset + Fds([w.list[w.i]]) && Raised(w.nfds, v.nfds, [w.list[w.i]])
  {
    hide Fds, Raised, Reads, Errors;
    assert ([] + []) + [w.list[w.i]] == [w.list[w.i]];
  }

  lemma InRange(pass: Pass, list0: seq<Context>, wake: seq<Context>, evfd: int, k: nat, w: WalkState)
    requires Walking(pass, list0, wake, evfd, k, w) && w.node
    ensures w.i < |w.list| && k <= |list0|
  {
    hide Positioned, Watching, Kept, Added, Calls, Reached;
    Remaining(Kept(list0[..k], pass.failed), list0[k..], Added(pass, list0[..k], wake), list0[..k], w);
  }

  /** Beyond the original list the walk is at a newcomer. */
  lemma AtNewcomer(pass: Pass, list0: seq<Context>, wake: seq<Context>, evfd: int, w: WalkState) returns (j: nat)
    requires Walking(pass, list0, wake, evfd, |list0|, w) && w.node && w.i < |w.list|
    ensures Reached(pass, list0, wake) && w.called == Calls(list0, pass)
    ensures j < |Added(pass, list0, wake)| && w.list[w.i] == Added(pass, list0, wake)[j]
  {
    hide Positioned, Watching, Kept, Added, Calls, Reached;
    assert list0[..|list0|] == list0 && list0[|list0|..] == [];
    var kept := Kept(list0, pass.failed);
    Remaining(kept, [], Added(pass, list0, wake), list0, w);
    j := w.i - |kept|;
  }

  /** A quiet walk meets no newcomer that select reported. */
  lemma QuietHere(pass: Pass, list0: seq<Context>, wake: seq<Context>, evfd: int, k: nat, w: WalkState)
    requires Walking(pass, list0, wake, evfd, k, w) && w.node && Quiet(pass, list0, wake)
    ensures w.i < |w.list| && k <= |list0| && (k == |list0| ==> !Reported(w.list[w.i], pass))
  {
    InRange(pass, list0, wake, evfd, k, w);
    hide Walking, Reported, Added, Reached;
    if k == |list0| {
      var j := AtNewcomer(pass, list0, wake, evfd, w);
    }
  }

  lemma WalkStep(pass: Pass, list0: seq<Context>, wake: seq<Context>, evfd: int, k: nat, w: WalkState, v: WalkState)
    requires Walking(pass, list0, wake, evfd, k, w) && w.node && w.i < |w.list| && Visited(pass, w, v)
    requires k == |list0| ==> !Reported(w.list[w.i], pass)
    ensures k < |list0| ==> Walking(pass, list0, wake, evfd, k + 1, v)
    ensures k >= |list0| ==> Walking(pass, list0, wake, evfd, k, v) && |v.list| == |w.list| && v.i == w.i + 1
  {
    assert k <= |list0|;
    hide Walking, Visited, Reported;
    if k == |list0| {
      StepNew(pass, list0, wake, evfd, w, v);
    } else {
      StepOld(pass, list0, wake, evfd, k, w, v);
    }
  }

  lemma DropDistinct(a: seq<Context>, c: Context, b: seq<Context>)
    requires DistinctFds(a + [c] + b)
    ensures DistinctFds(a + b)
  {
    var l, m := a + [c] + b, a + b;
    assert forall i :: 0 <= i < |m| ==> m[i] == l[if i < |a| then i else i + 1];
  }

  lemma EndWatch(kept: seq<Context>, added: seq<Context>, wake: seq<Context>, evfd: int, w: WalkState)
    requires Watching(kept, added, wake, evfd, w) && (w.i == |kept + added| || wake == [])
    requires DistinctFds(kept + added) && evfd !in Fds(kept + added)
    ensures Watches(evfd, kept + added, w.allset, w.nfds)
  {
    FdsAppend(kept, added);
    hide DistinctFds;
    forall fd | fd in w.allset ensures fd <= w.nfds {
      FdsMember(kept, fd);
      FdsMember(added, fd);
    }
  }

  lemma EndPosition(kept: seq<Context>, added: seq<Context>, seen: seq<Context>, w: WalkState)
    requires Positioned(kept, [], added, seen, w)
    ensures w.list == kept + added && seen <= w.visited <= seen + added
  {
    assert w.list == kept + added;
  }

  /** A walk that comes to its end without a call for a newcomer has done what it must. */
  lemma WalkEnd(pass: Pass, list0: seq<Context>, wake: seq<Context>, evfd: int, k: nat, w: WalkState)
    requires Walking(pass, list0, wake, evfd, k, w) && !w.node
    requires DistinctFds(list0) && evfd !in Fds(list0) && NewFds(pass, evfd, list0, wake)
    ensures Quiet(pass, list0, wake) && w.called == Calls(list0, pass)
    ensures w.list == Kept(list0, pass.failed) + Added(pass, list0, wake)
    ensures list0 <= w.visited <= list0 + Added(pass, list0, wake)
    ensures Watches(evfd, w.list, w.allset, w.nfds)
  {
    assert k == |list0|;
    assert list0[..k] == list0 && list0[k..] == [];
    var kept, added := Kept(list0, pass.failed), Added(pass, list0, wake);
    if !Reached(pass, list0, wake) {
      assert wake == [];
    }
    hide NewFds, Kept, Calls, Added, Watching, Fds, DistinctFds, Watches, Positioned, Reported, Reached;
    AtTheEnd(pass, evfd, list0, wake);
    Remaining(kept, [], added, list0, w);
    EndPosition(kept, added, list0, w);
    EndWatch(kept, added, wake, evfd, w);
  }

  // ---- a walk that is not quiet

  /** After the calls it must make, the walk has called back a newcomer. */
  ghost predicate Disturbed(pass: Pass, list0: seq<Context>, wake: seq<Context>, called: seq<Call>)
  {
    exists j :: 0 <= j < |Added(pass, list0, wake)| &&
      var c := Added(pass, list0, wake)[j];
      c.fd in pass.failed && Calls(list0, pass) + CallsFor(c, pass) <= called && Error(c) in called
  }

  ghost function Progress(pass: Pass, list0: seq<Context>, k: nat, i: nat): int
  {
    if k < |list0| then k else |list0| + i - |Kept(list0, pass.failed)|
  }

  lemma VisitedInRange(pass: Pass, w: WalkState, v: WalkState)
    requires w.i < |w.list| && Visited(pass, w, v)
    ensures v.node ==> v.i < |v.list|
    ensures v.called == w.called + CallsFor(w.list[w.i], pass)
  {
    hide Fds, Raised, Reads, Errors, CallsFor;
  }

  /** A newcomer that select reported has the descriptor of a context that failed in this pass. */
  lemma ReportedIsReused(pass: Pass, evfd: int, list0: seq<Context>, wake: seq<Context>, j: nat)
    requires DistinctFds(list0) && evfd !in Fds(list0) && NewFds(pass, evfd, list0, wake)
    requires j < |Added(pass, list0, wake)| && Reported(Added(pass, list0, wake)[j], pass)
    ensures Added(pass, list0, wake)[j].fd in pass.failed && Added(pass, list0, wake)[j].fd in Fds(list0)
  {
    assert pass.readable <= {evfd} + Fds(list0) && pass.failed <= {evfd} + Fds(list0);
    hide NewFds, Added, Kept, DistinctFds, Fds, Listed;
    AtTheEnd(pass, evfd, list0, wake);
    var kept, added := Kept(list0, pass.failed), Added(pass, list0, wake);
    NotInFront(kept, added, j);
    FdsAppend(kept, added);
    FdsMember(added, added[j].fd);
    KeptMember(list0, added[j].fd, pass.failed);
  }

  /** When the walk has handled the original list, survivors and newcomers are distinct. */
  lemma AtTheEnd(pass: Pass, evfd: int, list0: seq<Context>, wake: seq<Context>)
    requires DistinctFds(list0) && evfd !in Fds(list0) && NewFds(pass, evfd, list0, wake)
    ensures DistinctFds(Kept(list0, pass.failed) + Added(pass, list0, wake))
    ensures evfd !in Fds(Kept(list0, pass.failed) + Added(pass, list0, wake))
  {
    hide NewFds, Added, Kept, DistinctFds, Fds;
    ListedDistinct(pass, evfd, list0, wake, |list0|);
    assert list0[..|list0|] == list0 && list0[|list0|..] == [];
    assert Listed(pass, list0, wake, |list0|) == Kept(list0, pass.failed) + Added(pass, list0, wake);
  }

  lemma NotInFront(a: seq<Context>, b: seq<Context>, j: nat)
    requires DistinctFds(a + b) && j < |b|
    ensures b[j].fd !in Fds(a)
  {
    FdsMember(a, b[j].fd);
    hide Fds;
    assert (a + b)[|a| + j] == b[j];
    assert forall i :: 0 <= i < |a| ==> (a + b)[i] == a[i];
  }

  lemma {:induction false} KeptMember(list: seq<Context>, fd: int, failed: set<int>)
    ensures fd in Fds(Kept(list, failed)) <==> fd in Fds(list) && fd !in failed
  {
    if list != [] {
      var init, c := list[..|list| - 1], list[|list| - 1];
      KeptMember(init, fd, failed);
      FdsAppend(Kept(init, failed), if c.fd in failed then [] else [c]);
      assert Fds([c]) == {c.fd};
    }
  }

  /** One more visit of a walk that has been quiet so far. */
  lemma WalkOn(pass: Pass, list0: seq<Context>, wake: seq<Context>, evfd: int, k: nat, w: WalkState, v: WalkState)
    returns (quiet: bool, next: nat)
    requires Walking(pass, list0, wake, evfd, k, w) && w.node && w.i < |w.list| && Visited(pass, w, v)
    requires DistinctFds(list0) && evfd !in Fds(list0) && NewFds(pass, evfd, list0, wake)
    ensures quiet ==> Walking(pass, list0, wake, evfd, next, v)
    ensures quiet ==> Progress(pass, list0, next, v.i) == Progress(pass, list0, k, w.i) + 1
    ensures !quiet ==> Disturbed(pass, list0, wake, v.called) && !Quiet(pass, list0, wake)
  {
    InRange(pass, list0, wake, evfd, k, w);
    quiet, next := true, k;
    if k < |list0| {
      WalkStep(pass, list0, wake, evfd, k, w, v);
      next := k + 1;
      OldProgress(pass, list0, wake, evfd, k, w, v);
    } else if !Reported(w.list[w.i], pass) {
      WalkStep(pass, list0, wake, evfd, k, w, v);
    } else {
      Disturb(pass, list0, wake, evfd, w, v);
      quiet := false;
    }
  }

  lemma OldProgress(pass: Pass, list0: seq<Context>, wake: seq<Context>, evfd: int, k: nat, w: WalkState, v: WalkState)
    requires Walking(pass, list0, wake, evfd, k, w) && k < |list0|
    requires w.i < |w.list| && Visited(pass, w, v)
    ensures Progress(pass, list0, k + 1, v.i) == k + 1
  {
    hide Kept, Added, Calls, Watching, Reached, CallsFor, Reads, Errors, Fds, Raised, Positioned, Reported;
    var kept, c, rest := Kept(list0[..k], pass.failed), list0[k], list0[k + 1..];
    assert list0[..|list0|] == list0 && list0[k..] == [c] + rest;
    PrefixStep(list0, k, pass);
    Current(kept, c, rest, Added(pass, list0[..k], wake), list0[..k], w);
  }

  lemma Disturb(pass: Pass, list0: seq<Context>, wake: seq<Context>, evfd: int, w: WalkState, v: WalkState)
    requires Walking(pass, list0, wake, evfd, |list0|, w) && w.node && w.i < |w.list| && Visited(pass, w, v)
    requires DistinctFds(list0) && evfd !in Fds(list0) && NewFds(pass, evfd, list0, wake)
    requires Reported(w.list[w.i], pass)
    ensures Disturbed(pass, list0, wake, v.called) && !Quiet(pass, list0, wake)
  {
    hide Walking, NewFds, Added, Calls, Effect, Reached, DistinctFds, Fds;
    var j := AtNewcomer(pass, list0, wake, evfd, w);
    var c := Added(pass, list0, wake)[j];
    ReportedIsReused(pass, evfd, list0, wake, j);
    assert v.called[|v.called| - 1] == Error(c);
  }

  lemma WalkLimit(pass: Pass, list0: seq<Context>, wake: seq<Context>, evfd: int, k: nat, w: WalkState, limit: nat)
    requires Walking(pass, list0, wake, evfd, k, w)
    requires DistinctFds(list0) && evfd !in Fds(list0) && NewFds(pass, evfd, list0, wake)
    requires w.node ==> Progress(pass, list0, k, w.i) == limit
    ensures |list0| + |Added(pass, list0, wake)| <= limit ==>
      && Quiet(pass, list0, wake) && !w.node && w.called == Calls(list0, pass)
      && Watches(evfd, w.list, w.allset, w.nfds)
      && w.list == Kept(list0, pass.failed) + Added(pass, list0, wake)
  {
    if w.node {
      ShortOfLimit(pass, list0, wake, evfd, k, w);
    } else {
      hide Walking, NewFds, Quiet, Watches, Kept, Added, Calls, DistinctFds, Fds;
      WalkEnd(pass, list0, wake, evfd, k, w);
    }
  }

  lemma ShortOfLimit(pass: Pass, list0: seq<Context>, wake: seq<Context>, evfd: int, k: nat, w: WalkState)
    requires Walking(pass, list0, wake, evfd, k, w) && w.node
    ensures Progress(pass, list0, k, w.i) < |list0| + |Added(pass, list0, wake)|
  {
    assert list0[..|list0|] == list0;
    hide Kept, Added, Calls, Watching, Reached, Positioned, Reported;
    if k == |list0| {
      Remaining(Kept(list0, pass.failed), list0[k..], Added(pass, list0, wake), list0, w);
    }
  }

  lemma DisturbedStays(pass: Pass, list0: seq<Context>, wake: seq<Context>, w: WalkState, v: WalkState)
    requires Disturbed(pass, list0, wake, w.called) && w.called <= v.called
    ensures Disturbed(pass, list0, wake, v.called)
  {
    hide Added, Calls, CallsFor;
    var j :| 0 <= j < |Added(pass, list0, wake)| &&
      var c := Added(pass, list0, wake)[j];
      c.fd in pass.failed && Calls(list0, pass) + CallsFor(c, pass) <= w.called && Error(c) in w.called;
    var c := Added(pass, list0, wake)[j];
    var m :| 0 <= m < |w.called| && w.called[m] == Error(c);
    assert v.called[m] == Error(c);
  }

  const A := Context(5, 1)
  const B := Context(6, 2)
  const REOPENED := Context(5, 3)

  /** Descriptor 5 fails; then 6 is readable, and its callback registers a new context with descriptor 5. */
  function ReusePass(): Pass
  {
    var none := Reaction([], false);
    Pass(2, {6}, {5}, false, none, c => if c == B then Reaction([REOPENED], false) else none, _ => none, none)
  }

  lemma DropEffect(pass: Pass, w: WalkState, v: WalkState)
    requires w.i < |w.list| && Effect(pass, w, v) && w.list[w.i].fd in pass.failed
    requires Reads(w.list[w.i], pass) == Errors(w.list[w.i], pass) == []
    ensures v.list == w.list[..w.i] + w.list[w.i + 1..] && v.allset == w.allset && v.i == w.i
    ensures v.node == (w.i < |w.list| - 1)
  {
    hide Raised, Reads, Errors;
    assert Fds([]) == {};
  }

  lemma ReadEffect(pass: Pass, w: WalkState, v: WalkState, add: Context)
    requires w.i < |w.list| && Effect(pass, w, v) && w.list[w.i].fd !in pass.failed
    requires Reads(w.list[w.i], pass) == [add]
    ensures v.list == w.list + [add] && v.allset == w.allset + {add.fd, w.list[w.i].fd} && v.i == w.i + 1
  {
    var c := w.list[w.i];
    assert [add] + Errors(c, pass) == [add];
    FdsAppend([add], [c]);
    assert Fds([add]) == {add.fd} && Fds([c]) == {c.fd};
    hide Raised, Reads, Errors, Fds;
  }

  lemma ReuseFacts()
    ensures var pass := ReusePass();
      && Reads(A, pass) == Errors(A, pass) == Errors(REOPENED, pass) == Reads(REOPENED, pass) == []
      && Reads(B, pass) == [REOPENED] && B.fd !in pass.failed && A.fd in pass.failed && REOPENED.fd in pass.failed
      && CallsFor(A, pass) == [Error(A)] && CallsFor(B, pass) == [Read(B)] && CallsFor(REOPENED, pass) == [Error(REOPENED)]
  {
  }

  lemma ReuseAdds(pass: Pass)
    requires pass == ReusePass()
    ensures Added(pass, [], []) == Added(pass, [A], []) == [] && Added(pass, [A, B], []) == [REOPENED]
    ensures Kept([A], pass.failed) == []
  {
    var list0 := [A, B];
    ReuseFacts();
    assert list0[..0] == [] && list0[..1] == [A] && list0[..2] == list0;
    assert Added(pass, [], []) == [] && Kept([], pass.failed) == [] && [A][..0] == [];
    AddedStep(pass, list0, [], 0);
    AddedStep(pass, list0, [], 1);
    hide Added, Reads, Errors, CallsFor, ReusePass;
  }

  lemma ReuseLists(pass: Pass)
    requires pass == ReusePass()
    ensures Listed(pass, [A, B], [], 0) == [A, B] && Listed(pass, [A, B], [], 1) == [B]
    ensures Removed(pass, [A, B], [], 0) == [B]
  {
    var list0 := [A, B];
    ReuseFacts();
    ReuseAdds(pass);
    ListedFirst(pass, list0, []);
    assert list0[..0] == [] && list0[..1] == [A] && list0[1..] == [B] && Kept([], pass.failed) == [];
    hide Added, Kept, Reads, Errors, CallsFor, ReusePass;
  }

  /** The pass only registers a descriptor that is free at that moment, but it is not quiet. */
  lemma ReuseIsLegal(pass: Pass)
    requires pass == ReusePass()
    ensures NewFds(pass, 3, [A, B], []) && !Quiet(pass, [A, B], [])
  {
    var list0 := [A, B];
    assert pass.readable == {6} && pass.failed == {5};
    assert Fds([]) == {} && Fds([B]) == {6} && Fds([REOPENED]) == {5};
    FdsAppend([A], [B]);
    assert [A] + [B] == list0 && Fds(list0) == {5, 6};
    ReuseFacts();
    ReuseAdds(pass);
    ReuseLists(pass);
    NothingFresh(3, list0);
    NothingFresh(3, Removed(pass, list0, [], 0));
    NothingFresh(3, Removed(pass, list0, [], 1));
    hide Added, Kept, Reads, Errors, CallsFor, ReusePass, Listed, Removed, Fds;
    assert Added(pass, list0, [])[0] == REOPENED;
  }

  lemma NothingFresh(evfd: int, list: seq<Context>)
    ensures Fresh(evfd, list, [])
  {
  }

  lemma ReuseVisits(n: int, v: WalkState)
    ensures Effect(ReusePass(), W(0, true, [A, B], {3}, n, [], []), v) ==> v.list == [B] && v.allset == {3} && v.node
    ensures Effect(ReusePass(), W(0, true, [B], {3}, n, [], []), v) ==> v.list == [B, REOPENED] && v.allset == {3, 5, 6}
    ensures Effect(ReusePass(), W(1, true, [B, REOPENED], {3, 5, 6}, n, [], []), v) ==>
      v.list == [B] && v.allset == {3, 5, 6} && !v.node
  {
    ReuseFacts();
    hide Effect, Reads, Errors, CallsFor, Fds, ReusePass;
    var pass, w, x, y := ReusePass(), W(0, true, [A, B], {3}, n, [], []), W(0, true, [B], {3}, n, [], []),
      W(1, true, [B, REOPENED], {3, 5, 6}, n, [], []);
    if Effect(pass, w, v) { DropEffect(pass, w, v); }
    if Effect(pass, x, v) { ReadEffect(pass, x, v, REOPENED); }
    if Effect(pass, y, v) { DropEffect(pass, y, v); }
  }

  /** The new context is taken for the failed one: it is called back and dropped, and its descriptor
      stays watched. */
  method ReusedDescriptorLost() returns (loop: EvLoop, called: seq<Call>)
    ensures loop.evfd == 3 && loop.list == [B] && loop.allset == {3, 5, 6} && !loop.Valid()
    ensures called == [Error(A), Read(B), Error(REOPENED)]
  {
    ReuseFacts();
    hide Effect, Reads, Errors, CallsFor, ReusePass, StoppedBy, Watches;
    loop := new EvLoop(3);
    loop.list, loop.allset, loop.nfds := [A, B], {3}, 3;
    ghost var n := loop.nfds;
    var i, node, first := loop.Dispatch(0, ReusePass());
    ReuseVisits(n, W(i, node, loop.list, loop.allset, loop.nfds, [], []));
    n := loop.nfds;
    var second, third;
    i, node, second := loop.Dispatch(0, ReusePass());
    ReuseVisits(n, W(i, node, loop.list, loop.allset, loop.nfds, [], []));
    n := loop.nfds;
    i, node, third := loop.Dispatch(1, ReusePass());
    ReuseVisits(n, W(i, node, loop.list, loop.allset, loop.nfds, [], []));
    called := first + second + third;
    StaleDescriptor(loop.nfds);
  }

  lemma StaleDescriptor(n: int)
    ensures !Watches(3, [B], {3, 5, 6}, n)
  {
    assert 5 !in {3} + Fds([B]);
  }

  lemma FailedEffect(pass: Pass, w: WalkState, mid: WalkState, v: WalkState)
    requires w.i < |w.list| && w.list[w.i].fd in pass.failed
    requires var x := Reads(w.list[w.i], pass);
      mid.list == w.list + x && mid.allset == w.allset + Fds(x) && Raised(w.nfds, mid.nfds, x)
    requires var y := Errors(w.list[w.i], pass);
      && v.list == CutOut(mid.list, w.i) + y
      && v.allset == mid.allset + Fds(y) && Raised(mid.nfds, v.nfds, y)
      && v.i == w.i && v.node == (w.i < |mid.list| - 1)
    ensures Effect(pass, w, v)
  {
    hide Fds, Raised, Reads, Errors;
    var x, y := Reads(w.list[w.i], pass), Errors(w.list[w.i], pass);
    RaisedThen(w.nfds, mid.nfds, v.nfds, x, y);
    FdsAppend(x, y);
    assert mid.list[..w.i] == w.list[..w.i] && mid.list[w.i + 1..] == w.list[w.i + 1..] + x;
    assert v.list == w.list[..w.i] + w.list[w.i + 1..] + (x + y);
  }

  lemma KeptEffect(pass: Pass, w: WalkState, mid: WalkState, v: WalkState)
    requires w.i < |w.list| && w.list[w.i].fd !in pass.failed
    requires var x := Reads(w.list[w.i], pass);
      mid.list == w.list + x && mid.allset == w.allset + Fds(x) && Raised(w.nfds, mid.nfds, x)
    requires var c := w.list[w.i];
      && v.list == mid.list && v.allset == mid.allset + Fds([c]) && Raised(mid.nfds, v.nfds, [c])
      && v.i == w.i + 1 && v.node == (v.i < |v.list|)
    ensures Effect(pass, w, v)
  {
    var c := w.list[w.i];
    assert Reads(c, pass) + Errors(c, pass) == Reads(c, pass);
    hide Fds, Raised, Reads, Errors;
    var x := Reads(c, pass);
    RaisedThen(w.nfds, mid.nfds, v.nfds, x, [c]);
    FdsAppend(x, [c]);
  }

  lemma RaisedRefl(nfds: int)
    ensures Raised(nfds, nfds, []) && Fds([]) == {}
  {
  }

  lemma RaisedThen(a: int, b: int, c: int, x: seq<Context>, y: seq<Context>)
    requires Raised(a, b, x) && Raised(b, c, y)
    ensures Raised(a, c, x + y)
  {
    FdsAppend(x, y);
  }

  function Reads(c: Context, pass: Pass): seq<Context>
  {
    if c.fd in pass.readable then pass.onRead(c).adds else []
  }

  function Errors(c: Context, pass: Pass): seq<Context>
  {
    if c.fd in pass.failed then pass.onError(c).adds else []
  }

  /** The new maximum after watching `adds` too. */
  ghost predicate Raised(before: int, after: int, adds: seq<Context>)
  {
    && before <= after
    && (after == before || after in Fds(adds))
    && (forall k :: 0 <= k < |adds| ==> adds[k].fd <= after)
  }

  lemma {:induction false} FdsAppend(a: seq<Context>, b: seq<Context>)
    ensures Fds(a + b) == Fds(a) + Fds(b)
  {
    if b == [] {
      assert a + b == a;
    } else {
      assert (a + b)[..|a + b| - 1] == a + b[..|b| - 1];
      FdsAppend(a, b[..|b| - 1]);
    }
  }

  lemma {:induction false} FdsMember(list: seq<Context>, fd: int)
    ensures fd in Fds(list) <==> exists i :: 0 <= i < |list| && list[i].fd == fd
  {
    if list != [] {
      var init := list[..|list| - 1];
      FdsMember(init, fd);
      if i :| 0 <= i < |init| && init[i].fd == fd { assert list[i].fd == fd; }
      if i :| 0 <= i < |list| && list[i].fd == fd && i < |init| { assert init[i].fd == fd; }
    }
  }
}
