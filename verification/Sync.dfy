/** Spinlocks, a mutex and a semaphore, executed by any number of threads one memory access
    at a time in any interleaving. */
module Sync {

  // Where a thread is. M is the mutex's spinlock section, S the semaphore's; Try is at the
  // test-and-set, Spin in the inner wait loop, Rel at the lock release.
  datatype Pc =
    | Idle
    // mutex_lock: got tells whether the state was free
    | LockTry | LockSpin | LockIn | LockSet | LockRel(got: bool)
    // mutex_unlock
    | UnlockTry | UnlockSpin | UnlockIn | UnlockRel
    // spin_trylock on the mutex's lock, then spin_unlock
    | TryOnce | TryRel
    // semaphore_wait: the count read is decremented and written back
    | WaitTry | WaitSpin | WaitIn | WaitDec(v: int) | WaitRel(got: bool)
    // semaphore_post
    | PostTry | PostSpin | PostIn | PostInc(v: int) | PostRel

  datatype Call = MutexLock | MutexUnlock | TryLock | SemWait | SemPost

  // holds: the thread wrote 1 to the mutex state and has not written 0 since
  datatype Thread = Thread(pc: Pc, holds: bool)

  datatype State = State(threads: map<nat, Thread>,
                         mlock: nat, mstate: nat,
                         slock: nat, count: int, initial: int, posts: nat, waits: nat)

  predicate InM(pc: Pc) { pc.LockIn? || pc.LockSet? || pc.LockRel? || pc.UnlockIn? || pc.UnlockRel? || pc.TryRel? }
  predicate InS(pc: Pc) { pc.WaitIn? || pc.WaitDec? || pc.WaitRel? || pc.PostIn? || pc.PostInc? || pc.PostRel? }

  predicate Waiting(pc: Pc) { pc.WaitTry? || pc.WaitSpin? || pc.WaitIn? || pc.WaitDec? || pc.WaitRel? }
  predicate Posting(pc: Pc) { pc.PostTry? || pc.PostSpin? || pc.PostIn? || pc.PostInc? || pc.PostRel? }

  // ----- one step of one thread -----

  // A mutex is unlocked only by its holder.
  predicate CanCall(th: Thread, c: Call) { th.pc.Idle? && (c.MutexUnlock? ==> th.holds) }

  function Begin(c: Call): Pc {
    match c
    case MutexLock => LockTry
    case MutexUnlock => UnlockTry
    case TryLock => TryOnce
    case SemWait => WaitTry
    case SemPost => PostTry
  }

  function At(s: State, t: nat, pc: Pc): State
    requires t in s.threads
  {
    s.(threads := s.threads[t := s.threads[t].(pc := pc)])
  }

  function Started(s: State, t: nat, c: Call): State
    requires t in s.threads && CanCall(s.threads[t], c)
  {
    At(s, t, Begin(c))
  }

  // The next memory access of thread t
  function Move(s: State, t: nat): (r: State)
    requires t in s.threads
    ensures t in r.threads
  {
    match s.threads[t].pc
    case Idle => s
    case LockTry => if s.mlock == 0 then At(s, t, LockIn).(mlock := 1) else At(s, t, LockSpin)
    case LockSpin => if s.mlock == 0 then At(s, t, LockTry) else s
    case LockIn => At(s, t, if s.mstate == 0 then LockSet else LockRel(false))
    case LockSet => s.(mstate := 1, threads := s.threads[t := Thread(LockRel(true), true)])
    case LockRel(got) => At(s, t, if got then Idle else LockTry).(mlock := 0)
    case UnlockTry => if s.mlock == 0 then At(s, t, UnlockIn).(mlock := 1) else At(s, t, UnlockSpin)
    case UnlockSpin => if s.mlock == 0 then At(s, t, UnlockTry) else s
    case UnlockIn => s.(mstate := 0, threads := s.threads[t := Thread(UnlockRel, false)])
    case UnlockRel => At(s, t, Idle).(mlock := 0)
    case TryOnce => if s.mlock == 0 then At(s, t, TryRel).(mlock := 1) else At(s, t, Idle)
    case TryRel => At(s, t, Idle).(mlock := 0)
    case WaitTry => if s.slock == 0 then At(s, t, WaitIn).(slock := 1) else At(s, t, WaitSpin)
    case WaitSpin => if s.slock == 0 then At(s, t, WaitTry) else s
    case WaitIn => At(s, t, if s.count > 0 then WaitDec(s.count) else WaitRel(false))
    case WaitDec(v) => At(s, t, WaitRel(true)).(count := v - 1, waits := s.waits + 1)
    case WaitRel(got) => At(s, t, if got then Idle else WaitTry).(slock := 0)
    case PostTry => if s.slock == 0 then At(s, t, PostIn).(slock := 1) else At(s, t, PostSpin)
    case PostSpin => if s.slock == 0 then At(s, t, PostTry) else s
    case PostIn => At(s, t, PostInc(s.count))
    case PostInc(v) => At(s, t, PostRel).(count := v + 1, posts := s.posts + 1)
    case PostRel => At(s, t, Idle).(slock := 0)
  }

  // ----- the invariant -----

  ghost predicate AloneM(s: State, t: nat, u: nat) {
    t in s.threads && u in s.threads && InM(s.threads[t].pc) && InM(s.threads[u].pc) ==> t == u
  }

  ghost predicate AloneS(s: State, t: nat, u: nat) {
    t in s.threads && u in s.threads && InS(s.threads[t].pc) && InS(s.threads[u].pc) ==> t == u
  }

  ghost predicate OneHolder(s: State, t: nat, u: nat) {
    t in s.threads && u in s.threads && s.threads[t].holds && s.threads[u].holds ==> t == u
  }

  // What thread t knows at its program counter
  ghost predicate Knows(s: State, t: nat)
    requires t in s.threads
  {
    var th := s.threads[t];
    && (InM(th.pc) ==> s.mlock == 1) && (InS(th.pc) ==> s.slock == 1)
    && (th.holds ==> s.mstate == 1)
    && (th.pc.LockSet? ==> s.mstate == 0)
    && (th.pc.UnlockTry? || th.pc.UnlockSpin? || th.pc.UnlockIn? ==> th.holds)
    && (th.pc.WaitDec? ==> th.pc.v == s.count > 0)
    && (th.pc.PostInc? ==> th.pc.v == s.count)
  }

  // Each lock word is 1 exactly when its section is occupied, the state exactly when held.
  ghost predicate Words(s: State) {
    && (s.mlock == 0 || s.mlock == 1) && (s.slock == 0 || s.slock == 1) && (s.mstate == 0 || s.mstate == 1)
    && (s.mlock == 1 ==> exists t :: t in s.threads && InM(s.threads[t].pc))
    && (s.slock == 1 ==> exists t :: t in s.threads && InS(s.threads[t].pc))
    && (s.mstate == 1 ==> exists t :: t in s.threads && s.threads[t].holds)
  }

  ghost predicate Inv(s: State) {
    && Words(s)
    && (forall t, u :: AloneM(s, t, u)) && (forall t, u :: AloneS(s, t, u)) && (forall t, u :: OneHolder(s, t, u))
    && (forall t :: t in s.threads ==> Knows(s, t))
    && s.count >= 0 && s.count == s.initial + s.posts - s.waits
  }

  lemma StartAlone(s: State, t: nat, c: Call, u: nat, v: nat)
    requires Inv(s) && t in s.threads && CanCall(s.threads[t], c)
    ensures var s' := Started(s, t, c); AloneM(s', u, v) && AloneS(s', u, v) && OneHolder(s', u, v)
  {
    assert AloneM(s, u, v) && AloneS(s, u, v) && OneHolder(s, u, v);
  }

  lemma StartKnows(s: State, t: nat, c: Call, u: nat)
    requires t in s.threads && CanCall(s.threads[t], c) && u in s.threads && Knows(s, u) && Knows(s, t)
    ensures Knows(Started(s, t, c), u)
  {
  }

  lemma StartWords(s: State, t: nat, c: Call)
    requires Inv(s) && t in s.threads && CanCall(s.threads[t], c)
    ensures Words(Started(s, t, c))
  {
    WordsKept(s, Started(s, t, c), t);
  }

  lemma StartKeeps(s: State, t: nat, c: Call)
    requires Inv(s) && t in s.threads && CanCall(s.threads[t], c)
    ensures Inv(Started(s, t, c))
  {
    var s' := Started(s, t, c);
    StartWords(s, t, c);
    forall u | u in s'.threads ensures Knows(s', u) {
      assert Knows(s, t) && Knows(s, u);
      StartKnows(s, t, c, u);
    }
    forall u, v ensures AloneM(s', u, v) && AloneS(s', u, v) && OneHolder(s', u, v) { StartAlone(s, t, c, u, v); }
  }

  // Thread t changed: the other threads still witness what they witnessed, and t witnesses
  // what its step made true.
  lemma WordsKept(s: State, s': State, t: nat)
    requires Inv(s) && t in s.threads && s'.threads.Keys == s.threads.Keys
    requires forall u :: u in s.threads && u != t ==> s'.threads[u] == s.threads[u]
    requires (s'.mlock == 0 || s'.mlock == 1) && (s'.slock == 0 || s'.slock == 1) && (s'.mstate == 0 || s'.mstate == 1)
    requires s'.mlock == 1 ==> InM(s'.threads[t].pc) || (s.mlock == 1 && !InM(s.threads[t].pc))
    requires s'.slock == 1 ==> InS(s'.threads[t].pc) || (s.slock == 1 && !InS(s.threads[t].pc))
    requires s'.mstate == 1 ==> s'.threads[t].holds || (s.mstate == 1 && !s.threads[t].holds)
    ensures Words(s')
  {
    if s'.mlock == 1 && !InM(s'.threads[t].pc) {
      var u :| u in s.threads && InM(s.threads[u].pc);
      assert InM(s'.threads[u].pc);
    }
    if s'.slock == 1 && !InS(s'.threads[t].pc) {
      var u :| u in s.threads && InS(s.threads[u].pc);
      assert InS(s'.threads[u].pc);
    }
    if s'.mstate == 1 && !s'.threads[t].holds {
      var u :| u in s.threads && s.threads[u].holds;
      assert s'.threads[u].holds;
    }
  }

  // What a step may change: only thread t's program counter and flag; a section is entered or
  // the mutex taken only when it is free, and a lock word is 1 afterwards only if t is inside
  // or it was 1 before without t.
  ghost predicate Shape(s: State, s': State, t: nat)
    requires t in s.threads
  {
    && t in s'.threads && s'.threads == s.threads[t := s'.threads[t]] && s'.initial == s.initial
    && var (th, th') := (s.threads[t], s'.threads[t]);
    && (InM(th'.pc) ==> InM(th.pc) || s.mlock == 0)
    && (InS(th'.pc) ==> InS(th.pc) || s.slock == 0)
    && (th'.holds ==> th.holds || th.pc.LockSet?)
    && (s'.mlock == 1 ==> InM(th'.pc) || (s.mlock == 1 && !InM(th.pc)))
    && (s'.slock == 1 ==> InS(th'.pc) || (s.slock == 1 && !InS(th.pc)))
    && (s'.mstate == 1 ==> th'.holds || (s.mstate == 1 && !th.holds))
    && (s'.mlock == s.mlock || s'.mlock == 0 || s'.mlock == 1)
    && (s'.slock == s.slock || s'.slock == 0 || s'.slock == 1)
    && (s'.mstate == s.mstate || s'.mstate == 0 || s'.mstate == 1)
  }

  lemma ShapeOnMutex(s: State, t: nat)
    requires t in s.threads && Knows(s, t) && !Waiting(s.threads[t].pc) && !Posting(s.threads[t].pc)
    ensures Shape(s, Move(s, t), t)
  {
  }

  lemma ShapeWaiting(s: State, t: nat)
    requires t in s.threads && Knows(s, t) && Waiting(s.threads[t].pc)
    ensures Shape(s, Move(s, t), t)
  {
  }

  lemma ShapePosting(s: State, t: nat)
    requires t in s.threads && Knows(s, t) && Posting(s.threads[t].pc)
    ensures Shape(s, Move(s, t), t)
  {
  }

  lemma MoveShape(s: State, t: nat)
    requires t in s.threads && Knows(s, t)
    ensures Shape(s, Move(s, t), t)
  {
    if Waiting(s.threads[t].pc) { ShapeWaiting(s, t); }
    else if Posting(s.threads[t].pc) { ShapePosting(s, t); }
    else { ShapeOnMutex(s, t); }
  }

  lemma ShapeWords(s: State, s': State, t: nat)
    requires Inv(s) && t in s.threads && Shape(s, s', t)
    ensures Words(s')
  {
    WordsKept(s, s', t);
  }

  lemma AloneAfter(s: State, s': State, t: nat, u: nat, v: nat)
    requires Inv(s) && t in s.threads && Shape(s, s', t)
    ensures AloneM(s', u, v) && AloneS(s', u, v) && OneHolder(s', u, v)
  {
    assert Knows(s, t);
    assert AloneM(s, u, v) && AloneS(s, u, v) && OneHolder(s, u, v);
    assert u in s.threads ==> Knows(s, u);
    assert v in s.threads ==> Knows(s, v);
  }

  lemma MutexKnows(s: State, t: nat, u: nat)
    requires Inv(s) && t in s.threads && u in s.threads && u != t
    requires !Waiting(s.threads[t].pc) && !Posting(s.threads[t].pc)
    ensures u in Move(s, t).threads && Knows(Move(s, t), u)
  {
    assert Knows(s, t) && Knows(s, u);
    assert AloneM(s, t, u) && OneHolder(s, t, u);
  }

  lemma SemaphoreKnows(s: State, t: nat, u: nat)
    requires Inv(s) && t in s.threads && u in s.threads && u != t
    requires Waiting(s.threads[t].pc) || Posting(s.threads[t].pc)
    ensures u in Move(s, t).threads && Knows(Move(s, t), u)
  {
    assert Knows(s, t) && Knows(s, u);
    assert AloneS(s, t, u);
  }

  // Another thread keeps what it knows: words it relies on change only in sections it shares.
  lemma OthersKnow(s: State, t: nat, u: nat)
    requires Inv(s) && t in s.threads && u in s.threads && u != t
    ensures u in Move(s, t).threads && Knows(Move(s, t), u)
  {
    if Waiting(s.threads[t].pc) || Posting(s.threads[t].pc) { SemaphoreKnows(s, t, u); } else { MutexKnows(s, t, u); }
  }

  lemma MutexMoverKnows(s: State, t: nat)
    requires Inv(s) && t in s.threads && !Waiting(s.threads[t].pc) && !Posting(s.threads[t].pc)
    ensures t in Move(s, t).threads && Knows(Move(s, t), t)
  {
    assert Knows(s, t);
  }

  lemma WaiterKnows(s: State, t: nat)
    requires Inv(s) && t in s.threads && Waiting(s.threads[t].pc)
    ensures t in Move(s, t).threads && Knows(Move(s, t), t)
  {
    assert Knows(s, t);
  }

  lemma PosterKnows(s: State, t: nat)
    requires Inv(s) && t in s.threads && Posting(s.threads[t].pc)
    ensures t in Move(s, t).threads && Knows(Move(s, t), t)
  {
    assert Knows(s, t);
  }

  lemma MoverKnows(s: State, t: nat)
    requires Inv(s) && t in s.threads
    ensures t in Move(s, t).threads && Knows(Move(s, t), t)
  {
    if Waiting(s.threads[t].pc) { WaiterKnows(s, t); }
    else if Posting(s.threads[t].pc) { PosterKnows(s, t); }
    else { MutexMoverKnows(s, t); }
  }

  lemma MoveKnows(s: State, t: nat, u: nat)
    requires Inv(s) && t in s.threads && u in s.threads
    ensures u in Move(s, t).threads && Knows(Move(s, t), u)
  {
    if u == t { MoverKnows(s, t); } else { OthersKnow(s, t, u); }
  }

  lemma MoveCounts(s: State, t: nat)
    requires t in s.threads && Knows(s, t) && s.count >= 0 && s.count == s.initial + s.posts - s.waits
    ensures var s' := Move(s, t); s'.count >= 0 && s'.count == s'.initial + s'.posts - s'.waits
  {
  }

  lemma MoveKeeps(s: State, t: nat)
    requires Inv(s) && t in s.threads
    ensures Inv(Move(s, t))
  {
    assert Knows(s, t);
    MoveShape(s, t);
    MoveCounts(s, t);
    ShapeWords(s, Move(s, t), t);
    forall u, v ensures AloneM(Move(s, t), u, v) && AloneS(Move(s, t), u, v) && OneHolder(Move(s, t), u, v) {
      AloneAfter(s, Move(s, t), t, u, v);
    }
    forall u | u in Move(s, t).threads ensures Knows(Move(s, t), u) { MoveKnows(s, t, u); }
  }

  // ----- every interleaving -----

  datatype Event = Start(t: nat, c: Call) | Go(t: nat)

  ghost predicate Run(s: State, es: seq<Event>, s': State)
    decreases |es|
  {
    if es == [] then s' == s
    else
      && es[0].t in s.threads
      && (es[0].Start? ==> CanCall(s.threads[es[0].t], es[0].c))
      && Run(Step(s, es[0]), es[1..], s')
  }

  function Step(s: State, e: Event): State
    requires e.t in s.threads && (e.Start? ==> CanCall(s.threads[e.t], e.c))
  {
    if e.Start? then Started(s, e.t, e.c) else Move(s, e.t)
  }

  lemma StepKeeps(s: State, e: Event)
    requires Inv(s) && e.t in s.threads && (e.Start? ==> CanCall(s.threads[e.t], e.c))
    ensures Inv(Step(s, e)) && Step(s, e).threads.Keys == s.threads.Keys && Step(s, e).initial == s.initial
  {
    if e.Start? {
      StartKeeps(s, e.t, e.c);
    } else {
      assert Knows(s, e.t);
      MoveKeeps(s, e.t);
      MoveShape(s, e.t);
    }
  }

  predicate Fresh(s: State) {
    && (forall t :: t in s.threads ==> s.threads[t] == Thread(Idle, false))
    && s.mlock == 0 && s.slock == 0 && s.mstate == 0 && s.posts == 0 && s.waits == 0
    && s.count == s.initial >= 0
  }

  lemma {:induction false} RunKeeps(s: State, es: seq<Event>, s': State)
    requires Inv(s) && Run(s, es, s')
    ensures Inv(s') && s'.threads.Keys == s.threads.Keys && s'.initial == s.initial
    decreases |es|
  {
    if es == [] {
    } else {
      StepKeeps(s, es[0]);
      RunKeeps(Step(s, es[0]), es[1..], s');
    }
  }

  // For any number of threads and any interleaving: at most one thread is inside each
  // spinlock section, and the lock word says whether one is; the mutex state is 1 exactly
  // when one thread holds it, and never two do; the count is the initial value plus completed
  // posts minus completed waits, and never negative.
  lemma MutualExclusion(s: State, es: seq<Event>, s': State)
    requires Fresh(s) && Run(s, es, s')
    ensures forall t, u :: t in s'.threads && u in s'.threads ==>
      && (InM(s'.threads[t].pc) && InM(s'.threads[u].pc) ==> t == u)
      && (InS(s'.threads[t].pc) && InS(s'.threads[u].pc) ==> t == u)
      && (s'.threads[t].holds && s'.threads[u].holds ==> t == u)
    ensures s'.mlock == 1 <==> exists t :: t in s'.threads && InM(s'.threads[t].pc)
    ensures s'.slock == 1 <==> exists t :: t in s'.threads && InS(s'.threads[t].pc)
    ensures s'.mstate == 1 <==> exists t :: t in s'.threads && s'.threads[t].holds
    ensures s'.count >= 0 && s'.count == s.initial + s'.posts - s'.waits
  {
    assert Inv(s);
    RunKeeps(s, es, s');
    forall t, u | t in s'.threads && u in s'.threads
      ensures (InM(s'.threads[t].pc) && InM(s'.threads[u].pc) ==> t == u)
           && (InS(s'.threads[t].pc) && InS(s'.threads[u].pc) ==> t == u)
           && (s'.threads[t].holds && s'.threads[u].holds ==> t == u)
    {
      assert AloneM(s', t, u) && AloneS(s', t, u) && OneHolder(s', t, u);
    }
    forall t | t in s'.threads
      ensures (InM(s'.threads[t].pc) ==> s'.mlock == 1) && (InS(s'.threads[t].pc) ==> s'.slock == 1)
           && (s'.threads[t].holds ==> s'.mstate == 1)
    {
      assert Knows(s', t);
    }
  }

  // ----- progress -----

  // Steps of its own the occupant of a section still takes inside it
  function Left(pc: Pc): nat {
    match pc
    case LockIn => 3
    case LockSet => 2
    case UnlockIn => 2
    case WaitIn => 3
    case WaitDec(v) => 2
    case PostIn => 3
    case PostInc(v) => 2
    case LockRel(g) => 1
    case UnlockRel => 1
    case TryRel => 1
    case WaitRel(g) => 1
    case PostRel => 1
    case _ => 0
  }

  // Steps of thread t in a run
  function Goes(es: seq<Event>, t: nat): nat {
    if es == [] then 0 else (if es[0] == Go(t) then 1 else 0) + Goes(es[1..], t)
  }

  predicate Inside(s: State, t: nat) { t in s.threads && (InM(s.threads[t].pc) || InS(s.threads[t].pc)) }

  // The lock of the section thread t is in is open.
  predicate Opened(s: State, mutex: bool) { if mutex then s.mlock == 0 else s.slock == 0 }

  // No section waits for anything: in every run, whatever the other threads do in between,
  // whoever is inside a section has opened its lock by the third of its own steps. The state
  // mid is the one right after the step that does.
  lemma {:induction false} ReleasesSoon(s: State, es: seq<Event>, s': State, t: nat) returns (i: nat, mid: State)
    requires Inv(s) && Run(s, es, s') && Inside(s, t) && Goes(es, t) >= Left(s.threads[t].pc)
    ensures 0 < i <= |es| && es[i - 1] == Go(t) && Goes(es[..i], t) <= Left(s.threads[t].pc) <= 3
    ensures Run(s, es[..i], mid) && !Inside(mid, t) && Opened(mid, InM(s.threads[t].pc))
    decreases |es|
  {
    InsideLeft(s.threads[t].pc);
    var e, s1 := es[0], Step(s, es[0]);
    StepKeeps(s, e);
    if e.t == t && Left(s.threads[t].pc) == 1 {
      LastStep(s, t);
      i, mid := 1, s1;
      assert es[..1] == [e] && [e][1..] == [];
    } else {
      if e.t == t { ReleaseStep(s, t); } else { OtherStep(s, e, t); }
      var i0: nat;
      i0, mid := ReleasesSoon(s1, es[1..], s', t);
      i := i0 + 1;
      Prefix(es, i0);
    }
  }

  lemma Prefix(es: seq<Event>, i: nat)
    requires i < |es|
    ensures es[..i + 1][0] == es[0] && es[..i + 1][1..] == es[1..][..i]
  {
  }

  // A step of another thread leaves t where it is.
  lemma OtherStep(s: State, e: Event, t: nat)
    requires Inv(s) && e.t in s.threads && (e.Start? ==> CanCall(s.threads[e.t], e.c)) && t in s.threads && e.t != t
    ensures t in Step(s, e).threads && Step(s, e).threads[t] == s.threads[t]
  {
    assert Knows(s, e.t);
    if e.Go? { MoveShape(s, e.t); }
  }

  lemma InsideLeft(pc: Pc)
    requires InM(pc) || InS(pc)
    ensures 1 <= Left(pc) <= 3 && !(InM(pc) && InS(pc))
  {
  }

  lemma LastStep(s: State, t: nat)
    requires t in s.threads && Left(s.threads[t].pc) == 1
    ensures if InM(s.threads[t].pc) then Move(s, t).mlock == 0 else Move(s, t).slock == 0
    ensures !Inside(Move(s, t), t)
  {
  }

  lemma ReleaseStep(s: State, t: nat)
    requires t in s.threads && Left(s.threads[t].pc) > 1
    ensures var pc1 := Move(s, t).threads[t].pc;
      && InM(pc1) == InM(s.threads[t].pc) && InS(pc1) == InS(s.threads[t].pc)
      && 1 <= Left(pc1) < Left(s.threads[t].pc)
  {
  }

  // ----- what a finished call has done -----

  predicate NoStart(es: seq<Event>, t: nat) { forall i :: 0 <= i < |es| ==> es[i].t == t ==> es[i].Go? }

  // How many steps of thread t changed the semaphore's count, and by how much together
  ghost function Touched(s: State, es: seq<Event>, s': State, t: nat): (int, int)
    requires Run(s, es, s')
    decreases |es|
  {
    if es == [] then (0, 0)
    else
      var s1 := Step(s, es[0]);
      var rest := Touched(s1, es[1..], s', t);
      if es[0].t != t || s1.count == s.count then rest else (rest.0 + 1, rest.1 + s1.count - s.count)
  }

  // What holds of a thread inside call c that held the mutex before it iff `before`, once its
  // steps have changed the count `times` times by `sum` together
  predicate Doing(th: Thread, c: Call, before: bool, times: int, sum: int) {
    match c
    case MutexLock =>
      && times == sum == 0
      && (if th.pc.Idle? || th.pc == LockRel(true) then !before && th.holds
          else (th.pc.LockTry? || th.pc.LockSpin? || th.pc.LockIn? || th.pc.LockSet? || th.pc == LockRel(false))
               && th.holds == before)
    case MutexUnlock =>
      && times == sum == 0
      && (if th.pc.Idle? || th.pc.UnlockRel? then !th.holds
          else (th.pc.UnlockTry? || th.pc.UnlockSpin? || th.pc.UnlockIn?) && th.holds)
    case TryLock => times == sum == 0 && th.holds == before && (th.pc.TryOnce? || th.pc.TryRel? || th.pc.Idle?)
    case SemWait =>
      && th.holds == before
      && (if th.pc.Idle? || th.pc == WaitRel(true) then times == 1 && sum == -1
          else times == sum == 0 && Waiting(th.pc))
    case SemPost =>
      && th.holds == before
      && (if th.pc.Idle? || th.pc.PostRel? then times == sum == 1 else times == sum == 0 && Posting(th.pc))
  }

  lemma DoingMutex(s: State, t: nat, c: Call, before: bool)
    requires t in s.threads && Knows(s, t) && !c.SemWait? && !c.SemPost? && Doing(s.threads[t], c, before, 0, 0)
    ensures var s1 := Move(s, t); s1.count == s.count && Doing(s1.threads[t], c, before, 0, 0)
  {
  }

  lemma DoingWait(s: State, t: nat, before: bool, times: int, sum: int)
    requires t in s.threads && Knows(s, t) && Doing(s.threads[t], SemWait, before, times, sum)
    ensures var s1 := Move(s, t);
      Doing(s1.threads[t], SemWait, before, if s1.count == s.count then times else times + 1, sum + s1.count - s.count)
  {
  }

  lemma DoingPost(s: State, t: nat, before: bool, times: int, sum: int)
    requires t in s.threads && Knows(s, t) && Doing(s.threads[t], SemPost, before, times, sum)
    ensures var s1 := Move(s, t);
      Doing(s1.threads[t], SemPost, before, if s1.count == s.count then times else times + 1, sum + s1.count - s.count)
  {
  }

  lemma DoingStep(s: State, t: nat, c: Call, before: bool, times: int, sum: int)
    requires t in s.threads && Knows(s, t) && Doing(s.threads[t], c, before, times, sum)
    ensures var s1 := Move(s, t);
      Doing(s1.threads[t], c, before, if s1.count == s.count then times else times + 1, sum + s1.count - s.count)
  {
    if c.SemWait? { DoingWait(s, t, before, times, sum); }
    else if c.SemPost? { DoingPost(s, t, before, times, sum); }
    else { DoingMutex(s, t, c, before); }
  }

  lemma {:induction false} DoingOn(s: State, es: seq<Event>, s': State, t: nat, c: Call, before: bool,
                                   times: int, sum: int)
    requires Inv(s) && Run(s, es, s') && NoStart(es, t)
    requires t in s.threads && Doing(s.threads[t], c, before, times, sum)
    ensures t in s'.threads
    ensures var d := Touched(s, es, s', t); Doing(s'.threads[t], c, before, times + d.0, sum + d.1)
    decreases |es|
  {
    if es == [] {
    } else {
      var s1 := Step(s, es[0]);
      StepKeeps(s, es[0]);
      assert Knows(s, t);
      assert NoStart(es[1..], t);
      if es[0].t == t {
        DoingStep(s, t, c, before, times, sum);
        DoingOn(s1, es[1..], s', t, c, before, if s1.count == s.count then times else times + 1,
                sum + s1.count - s.count);
      } else {
        OtherStep(s, es[0], t);
        DoingOn(s1, es[1..], s', t, c, before, times, sum);
      }
    }
  }

  lemma CallEnds(s: State, t: nat, c: Call, es: seq<Event>, s': State)
    requires Inv(s) && t in s.threads && CanCall(s.threads[t], c)
    requires Run(Started(s, t, c), es, s') && NoStart(es, t)
    ensures t in s'.threads && Inv(s')
    ensures var d := Touched(Started(s, t, c), es, s', t); Doing(s'.threads[t], c, s.threads[t].holds, d.0, d.1)
  {
    StartKeeps(s, t, c);
    RunKeeps(Started(s, t, c), es, s');
    DoingOn(Started(s, t, c), es, s', t, c, s.threads[t].holds, 0, 0);
  }

  lemma SoleHolder(s: State, t: nat)
    requires Inv(s) && t in s.threads && s.threads[t].holds
    ensures s.mstate == 1 && forall u :: u in s.threads && s.threads[u].holds ==> u == t
  {
    assert Knows(s, t);
    forall u | u in s.threads && s.threads[u].holds ensures u == t { assert OneHolder(s, t, u); }
  }

  // Whatever the other threads do in between, a call that has returned has done its work, once:
  // mutex_lock was called without the mutex and returns with it, and no other thread has it;
  // mutex_unlock gives it up; semaphore_wait has taken exactly one from the count in exactly
  // one step, semaphore_post has added exactly one; no other call touches the count, and
  // spin_trylock, spin_unlock and the semaphore leave the mutex with whoever has it.
  lemma CallDone(s0: State, past: seq<Event>, s: State, t: nat, c: Call, es: seq<Event>, s': State)
    requires Fresh(s0) && Run(s0, past, s) && t in s.threads && CanCall(s.threads[t], c)
    requires Run(Started(s, t, c), es, s') && NoStart(es, t)
    requires t in s'.threads && s'.threads[t].pc.Idle?
    ensures c.MutexLock? ==> !s.threads[t].holds && s'.threads[t].holds && s'.mstate == 1
    ensures c.MutexLock? ==> forall u :: u in s'.threads && s'.threads[u].holds ==> u == t
    ensures c.MutexUnlock? ==> s.threads[t].holds && !s'.threads[t].holds
    ensures !c.MutexLock? && !c.MutexUnlock? ==> s'.threads[t].holds == s.threads[t].holds
    ensures Touched(Started(s, t, c), es, s', t)
         == (if c.SemWait? then (1, -1) else if c.SemPost? then (1, 1) else (0, 0))
  {
    RunKeeps(s0, past, s);
    CallEnds(s, t, c, es, s');
    if c.MutexLock? { SoleHolder(s', t); }
  }

  // ----- a call nobody disturbs -----

  // n steps of thread t and of no other
  function Ahead(s: State, t: nat, n: nat): (r: State)
    requires t in s.threads
    ensures t in r.threads
    decreases n
  {
    if n == 0 then s else Ahead(Move(s, t), t, n - 1)
  }

  // Two steps of thread t
  function Twice(s: State, t: nat): (r: State)
    requires t in s.threads
    ensures t in r.threads
  {
    Move(Move(s, t), t)
  }

  // A lock nobody has and no other thread moving: mutex_lock takes a free mutex in four
  // accesses, and otherwise is back where it began after three with nothing changed;
  // mutex_unlock frees the mutex in three; spin_trylock takes the lock and gives it back;
  // semaphore_wait takes one from a positive count in four, and otherwise is back where it
  // began after three; semaphore_post adds one in four.
  lemma LockUndisturbed(s: State, t: nat)
    requires t in s.threads && CanCall(s.threads[t], MutexLock) && s.mlock == 0
    ensures var b := Started(s, t, MutexLock);
      if s.mstate == 0
      then Twice(Twice(b, t), t) == s.(mstate := 1, threads := s.threads[t := Thread(Idle, true)])
      else Move(Twice(b, t), t) == b
  {
    var b := Started(s, t, MutexLock);
    var m := b.(mlock := 1, threads := b.threads[t := b.threads[t].(pc := LockIn)]);
    assert Move(b, t) == m;
    if s.mstate == 0 {
      assert Move(m, t) == At(m, t, LockSet);
    } else {
      assert Move(m, t) == At(m, t, LockRel(false));
    }
  }

  lemma UnlockUndisturbed(s: State, t: nat)
    requires t in s.threads && CanCall(s.threads[t], MutexUnlock) && s.mlock == 0
    ensures var b := Started(s, t, MutexUnlock);
      Move(Twice(b, t), t) == s.(mstate := 0, threads := s.threads[t := Thread(Idle, false)])
  {
  }

  lemma TryUndisturbed(s: State, t: nat)
    requires t in s.threads && CanCall(s.threads[t], TryLock) && s.mlock == 0
    ensures var b := Started(s, t, TryLock); Move(b, t).mlock == 1 && Twice(b, t) == s
  {
    assert s.threads == s.threads[t := s.threads[t]];
  }

  lemma WaitUndisturbed(s: State, t: nat)
    requires t in s.threads && CanCall(s.threads[t], SemWait) && s.slock == 0
    ensures var b := Started(s, t, SemWait);
      if s.count > 0 then Twice(Twice(b, t), t) == s.(count := s.count - 1, waits := s.waits + 1)
      else Move(Twice(b, t), t) == b
  {
    var b := Started(s, t, SemWait);
    var w := b.(slock := 1, threads := b.threads[t := b.threads[t].(pc := WaitIn)]);
    assert Move(b, t) == w && s.threads == s.threads[t := s.threads[t]];
    if s.count > 0 {
      assert Move(w, t) == At(w, t, WaitDec(s.count));
    } else {
      assert Move(w, t) == At(w, t, WaitRel(false));
    }
  }

  lemma PostUndisturbed(s: State, t: nat)
    requires t in s.threads && CanCall(s.threads[t], SemPost) && s.slock == 0
    ensures var b := Started(s, t, SemPost);
      Twice(Twice(b, t), t) == s.(count := s.count + 1, posts := s.posts + 1)
  {
    var b := Started(s, t, SemPost);
    var p := b.(slock := 1, threads := b.threads[t := b.threads[t].(pc := PostIn)]);
    assert Move(b, t) == p && Move(p, t) == At(p, t, PostInc(s.count));
    assert s.threads == s.threads[t := s.threads[t]];
  }

  // Where a call waits for the lock it found taken; spin_trylock does not wait.
  function WaitsAt(c: Call): Pc {
    match c
    case MutexLock => LockSpin
    case MutexUnlock => UnlockSpin
    case TryLock => Idle
    case SemWait => WaitSpin
    case SemPost => PostSpin
  }

  lemma {:induction false} Stays(s: State, t: nat, n: nat)
    requires t in s.threads && Move(s, t) == s
    ensures Ahead(s, t, n) == s
    decreases n
  {
    if n == 0 {
    } else {
      Stays(s, t, n - 1);
    }
  }

  // While the lock it wants is taken, a thread that goes on alone reads the lock word and
  // changes nothing but its own place, however often; the first read that finds the lock open
  // takes it back to the test-and-set. spin_trylock is over at once and has changed nothing.
  lemma SpinsWhileTaken(s: State, t: nat, c: Call, n: nat)
    requires t in s.threads && CanCall(s.threads[t], c)
    requires if c.SemWait? || c.SemPost? then s.slock != 0 else s.mlock != 0
    ensures Ahead(Started(s, t, c), t, n + 1) == At(s, t, WaitsAt(c))
    ensures !c.TryLock? ==> var open := At(s, t, WaitsAt(c)).(mlock := 0, slock := 0);
      Move(open, t) == Started(s, t, c).(mlock := 0, slock := 0)
  {
    var b := Started(s, t, c);
    assert Move(b, t) == At(s, t, WaitsAt(c));
    Stays(Move(b, t), t, n);
  }
}
