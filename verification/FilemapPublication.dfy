/** The lock-free publication of the sandbox rules in darwintrace.c.

    Any number of threads run __darwintrace_get_filemap at once.  Each line of its loop that touches
    memory is one step: free the last reply, test the shared pointer, receive a reply, compare and
    swap.  A run is any interleaving of the steps of any set of threads. */
module FilemapPublication {

  type Tid = nat

  /** A pointer to a block of memory; malloc never returns one it returned before. */
  type Ptr = nat
  const NULL: Ptr := 0

  /** The next step of a thread: free(newfilemap), the test of `filemap`, __send, CAS, none. */
  datatype Pc = Free | Test | Receive | Swap | Done

  /** `newfilemap` of a thread, the iterations it began, and whether a reply it got was empty. */
  datatype Thread = Thread(pc: Pc, newfilemap: Ptr, iterations: nat, gotEmpty: bool)

  datatype State = State(filemap: Ptr, threads: map<Tid, Thread>, received: set<Ptr>, freed: multiset<Ptr>)

  /** A thread takes its next step; `reply` is what __send returns (NULL for an empty reply). */
  datatype Step = Step(tid: Tid, reply: Ptr)

  predicate Enabled(s: State, e: Step) {
    e.tid in s.threads && !s.threads[e.tid].pc.Done? && (e.reply == NULL || e.reply !in s.received)
  }

  function WithThread(s: State, t: Tid, th: Thread): State { s.(threads := s.threads[t := th]) }

  function Next(s: State, e: Step): State
    requires Enabled(s, e)
  {
    var t, th := e.tid, s.threads[e.tid];
    match th.pc
    case Free =>
      var s1 := if th.newfilemap == NULL then s else s.(freed := s.freed + multiset{th.newfilemap});
      WithThread(s1, t, th.(pc := Test, newfilemap := NULL, iterations := th.iterations + 1))
    case Test => WithThread(s, t, th.(pc := if s.filemap != NULL then Done else Receive))
    case Receive =>
      var s1 := if e.reply == NULL then s else s.(received := s.received + {e.reply});
      WithThread(s1, t, th.(pc := Swap, newfilemap := e.reply, gotEmpty := th.gotEmpty || e.reply == NULL))
    case Swap =>
      if s.filemap == NULL then WithThread(s.(filemap := th.newfilemap), t, th.(pc := Done, newfilemap := NULL))
      else WithThread(s, t, th.(pc := Free))
    case Done => s
  }

  predicate Init(s: State) {
    s.filemap == NULL && s.received == {} && s.freed == multiset{} &&
    forall t :: t in s.threads ==> s.threads[t] == Thread(Free, NULL, 0, false)
  }

  /** A run: states and the steps between them. */
  predicate IsRun(states: seq<State>, steps: seq<Step>) {
    |states| == |steps| + 1 && Init(states[0]) &&
    forall i :: 0 <= i < |steps| ==> Enabled(states[i], steps[i]) && states[i + 1] == Next(states[i], steps[i])
  }

  // ---------------------------------------------------------------- what every step keeps

  predicate ThreadOk(s: State, t: Tid)
    requires t in s.threads
  {
    var th := s.threads[t];
    && (th.newfilemap != NULL ==> th.pc.Free? || th.pc.Swap?)
    && (th.newfilemap != NULL ==> th.newfilemap in s.received && th.newfilemap != s.filemap && s.freed[th.newfilemap] == 0)
    && (match th.pc
        case Free => (th.iterations == 0 && th.newfilemap == NULL) || (th.iterations == 1 && s.filemap != NULL)
        case Test => th.iterations == 1 || (th.iterations == 2 && s.filemap != NULL)
        case Receive => th.iterations == 1
        case Swap => th.iterations == 1 && (th.newfilemap == NULL ==> th.gotEmpty)
        case Done => (th.iterations == 1 || th.iterations == 2) && (s.filemap == NULL ==> th.gotEmpty))
  }

  predicate Holds(s: State, t: Tid, p: Ptr) { t in s.threads && s.threads[t].newfilemap == p }

  /** A reply is published, or was freed once, or is held by a thread; by one thread only. */
  predicate BlockOk(s: State, p: Ptr) {
    && (p == s.filemap || s.freed[p] == 1 || exists t :: t in s.threads && Holds(s, t, p))
    && forall t, u :: t in s.threads && u in s.threads && Holds(s, t, p) && Holds(s, u, p) ==> t == u
  }

  predicate Inv(s: State) {
    && NULL !in s.received
    && (s.filemap != NULL ==> s.filemap in s.received && s.freed[s.filemap] == 0)
    && (forall p :: p in s.freed ==> p in s.received && s.freed[p] == 1)
    && (forall t {:trigger ThreadOk(s, t)} :: t in s.threads ==> ThreadOk(s, t))
    && (forall p {:trigger BlockOk(s, p)} :: p in s.received ==> BlockOk(s, p))
  }

  lemma InitInv(s: State)
    requires Init(s)
    ensures Inv(s)
  {}

  lemma StepKeepsThreads(s: State, e: Step)
    requires Inv(s) && Enabled(s, e)
    ensures var s' := Next(s, e); forall t {:trigger ThreadOk(s', t)} :: t in s'.threads ==> ThreadOk(s', t)
  {
    var s' := Next(s, e);
    assert ThreadOk(s, e.tid);
    forall t | t in s'.threads ensures ThreadOk(s', t) {
      assert ThreadOk(s, t);
      var th := s.threads[e.tid];
      if t != e.tid && th.newfilemap != NULL {
        assert BlockOk(s, th.newfilemap);
        assert Holds(s, e.tid, th.newfilemap);
        assert Holds(s, t, th.newfilemap) ==> t == e.tid;
      }
    }
  }

  /** A step of one thread takes no block from another one. */
  lemma OthersKeep(s: State, e: Step, t: Tid, p: Ptr)
    requires Enabled(s, e) && Holds(s, t, p) && t != e.tid
    ensures Holds(Next(s, e), t, p)
  {}

  lemma OldBlockHeldOnce(s: State, e: Step, p: Ptr)
    requires Inv(s) && Enabled(s, e) && p in s.received
    ensures var s' := Next(s, e);
            forall t, u :: t in s'.threads && u in s'.threads && Holds(s', t, p) && Holds(s', u, p) ==> t == u
  {
    assert BlockOk(s, p) && ThreadOk(s, e.tid);
  }

  lemma OldBlockAccounted(s: State, e: Step, p: Ptr)
    requires Inv(s) && Enabled(s, e) && p in s.received
    ensures var s' := Next(s, e); p == s'.filemap || s'.freed[p] == 1 || exists t :: t in s'.threads && Holds(s', t, p)
  {
    var s', th := Next(s, e), s.threads[e.tid];
    assert BlockOk(s, p) && ThreadOk(s, e.tid);
    if exists t :: t in s.threads && Holds(s, t, p) {
      var t :| t in s.threads && Holds(s, t, p);
      if t != e.tid {
        OthersKeep(s, e, t, p);
      } else {
        assert th.pc.Swap? && s.filemap != NULL ==> Holds(s', t, p);
      }
    }
  }

  lemma NewBlockHeld(s: State, e: Step, p: Ptr)
    requires Inv(s) && Enabled(s, e) && p in Next(s, e).received && p !in s.received
    ensures BlockOk(Next(s, e), p)
  {
    var s' := Next(s, e);
    assert Holds(s', e.tid, p);
    forall t | t in s.threads && t != e.tid ensures !Holds(s', t, p) {
      assert ThreadOk(s, t);
    }
  }

  lemma StepKeepsBlocks(s: State, e: Step)
    requires Inv(s) && Enabled(s, e)
    ensures var s' := Next(s, e); forall p {:trigger BlockOk(s', p)} :: p in s'.received ==> BlockOk(s', p)
  {
    var s' := Next(s, e);
    forall p | p in s'.received ensures BlockOk(s', p) {
      if p in s.received {
        OldBlockHeldOnce(s, e, p);
        OldBlockAccounted(s, e, p);
      } else {
        NewBlockHeld(s, e, p);
      }
    }
  }

  /** Every step of every thread keeps the invariant. */
  lemma StepKeepsInv(s: State, e: Step)
    requires Inv(s) && Enabled(s, e)
    ensures Inv(Next(s, e))
  {
    StepKeepsThreads(s, e);
    StepKeepsBlocks(s, e);
    assert ThreadOk(s, e.tid);
  }

  lemma {:induction false} RunInv(states: seq<State>, steps: seq<Step>, i: nat)
    requires IsRun(states, steps) && i < |states|
    ensures Inv(states[i])
  {
    if i == 0 {
      InitInv(states[0]);
    } else {
      RunInv(states, steps, i - 1);
      assert states[i] == Next(states[i - 1], steps[i - 1]);
      StepKeepsInv(states[i - 1], steps[i - 1]);
    }
  }

  // ---------------------------------------------------------------- the guarantees

  /** The filemap is published once and never changes. */
  lemma {:induction false} PublishedOnce(states: seq<State>, steps: seq<Step>, i: nat, j: nat)
    requires IsRun(states, steps) && i <= j < |states| && states[i].filemap != NULL
    ensures states[j].filemap == states[i].filemap
  {
    if i < j {
      PublishedOnce(states, steps, i, j - 1);
      assert states[j] == Next(states[j - 1], steps[j - 1]);
    }
  }

  /** A thread that has returned, and whose replies were not empty, finds a filemap. */
  lemma ReturnedThreadSeesFilemap(states: seq<State>, steps: seq<Step>, i: nat, t: Tid)
    requires IsRun(states, steps) && i < |states|
    requires t in states[i].threads && states[i].threads[t].pc.Done? && !states[i].threads[t].gotEmpty
    ensures states[i].filemap != NULL
  {
    RunInv(states, steps, i);
    assert ThreadOk(states[i], t);
  }

  /** No thread begins a third iteration. */
  lemma AtMostTwoIterations(states: seq<State>, steps: seq<Step>, i: nat, t: Tid)
    requires IsRun(states, steps) && i < |states| && t in states[i].threads
    ensures states[i].threads[t].iterations <= 2
  {
    RunInv(states, steps, i);
    assert ThreadOk(states[i], t);
  }

  predicate AllDone(s: State) { forall t :: t in s.threads ==> s.threads[t].pc.Done? }

  /** When all have returned, every reply received is the published one or was freed, exactly once,
      and nothing else was freed. */
  lemma NoLeakNoDoubleFree(states: seq<State>, steps: seq<Step>, i: nat)
    requires IsRun(states, steps) && i < |states| && AllDone(states[i])
    ensures forall p :: p in states[i].received ==>
              states[i].freed[p] == if p == states[i].filemap then 0 else 1
    ensures forall p :: p in states[i].freed ==> p in states[i].received
  {
    var s := states[i];
    RunInv(states, steps, i);
    forall p | p in s.received ensures s.freed[p] == if p == s.filemap then 0 else 1 {
      assert BlockOk(s, p);
      forall t | t in s.threads ensures !Holds(s, t, p) {
        assert ThreadOk(s, t);
      }
    }
  }

  /** When all have returned, there is a filemap exactly when some reply was not empty. */
  lemma PublishedExactlyWhenSomeReply(states: seq<State>, steps: seq<Step>, i: nat)
    requires IsRun(states, steps) && i < |states| && AllDone(states[i])
    ensures states[i].filemap != NULL <==> states[i].received != {}
  {
    var s := states[i];
    RunInv(states, steps, i);
    NoLeakNoDoubleFree(states, steps, i);
    if s.received != {} && s.filemap == NULL {
      var p :| p in s.received;
      FreedOnlyAfterPublication(states, steps, i, p);
    }
  }

  /** A reply is freed only because another one was published. */
  lemma {:induction false} FreedOnlyAfterPublication(states: seq<State>, steps: seq<Step>, i: nat, p: Ptr)
    requires IsRun(states, steps) && i < |states| && p in states[i].freed
    ensures states[i].filemap != NULL
  {
    if i > 0 {
      var s, e := states[i - 1], steps[i - 1];
      assert states[i] == Next(s, e);
      if p in s.freed {
        FreedOnlyAfterPublication(states, steps, i - 1, p);
        PublishedOnce(states, steps, i - 1, i);
      } else {
        RunInv(states, steps, i - 1);
        assert ThreadOk(s, e.tid);
      }
    }
  }

  /** With an empty reply a thread can return without a filemap. */
  lemma EmptyReplyReturnsWithoutFilemap() returns (states: seq<State>, steps: seq<Step>)
    ensures IsRun(states, steps) && AllDone(states[|steps|]) && states[|steps|].threads.Keys == {1}
    ensures states[|steps|].filemap == NULL
  {
    var s0 := State(NULL, map[1 := Thread(Free, NULL, 0, false)], {}, multiset{});
    var e := Step(1, NULL);
    var s1 := Next(s0, e);
    var s2 := Next(s1, e);
    var s3 := Next(s2, e);
    var s4 := Next(s3, e);
    states, steps := [s0, s1, s2, s3, s4], [e, e, e, e];
  }

  // ---------------------------------------------------------------- wait-freedom

  /** How many steps a thread has taken. */
  function Taken(steps: seq<Step>, t: Tid): nat {
    if steps == [] then 0 else Taken(steps[..|steps| - 1], t) + if steps[|steps| - 1].tid == t then 1 else 0
  }

  /** How far a thread has come. */
  function Rank(th: Thread): int {
    match th.pc
    case Free => 4 * th.iterations
    case Test => 4 * th.iterations - 3
    case Receive => 4 * th.iterations - 2
    case Swap => 4 * th.iterations - 1
    case Done => 2 * th.iterations + 2
  }

  lemma StepRaisesRank(s: State, e: Step, t: Tid)
    requires Inv(s) && Enabled(s, e) && t in s.threads
    ensures var s' := Next(s, e);
            t in s'.threads && Rank(s'.threads[t]) >= Rank(s.threads[t]) + if e.tid == t then 1 else 0
  {
    assert ThreadOk(s, t);
  }

  lemma {:induction false} StepsRaiseRank(states: seq<State>, steps: seq<Step>, t: Tid)
    requires IsRun(states, steps) && t in states[0].threads
    ensures t in states[|steps|].threads && Taken(steps, t) <= Rank(states[|steps|].threads[t])
  {
    if steps != [] {
      var n := |steps| - 1;
      StepsRaiseRank(states[..n + 1], steps[..n], t);
      RunInv(states, steps, n);
      assert states[n + 1] == Next(states[n], steps[n]);
      StepRaisesRank(states[n], steps[n], t);
    }
  }

  /** The protocol is wait-free: whatever the others do, a thread that has not returned can take its
      next step, and it returns after at most six of its own steps. */
  lemma WaitFree(states: seq<State>, steps: seq<Step>, t: Tid)
    requires IsRun(states, steps) && t in states[0].threads
    ensures t in states[|steps|].threads && Taken(steps, t) <= 6
    ensures Taken(steps, t) == 6 ==> states[|steps|].threads[t].pc.Done?
    ensures !states[|steps|].threads[t].pc.Done? ==> Enabled(states[|steps|], Step(t, NULL))
  {
    StepsRaiseRank(states, steps, t);
    RunInv(states, steps, |steps|);
    assert ThreadOk(states[|steps|], t);
  }
}
