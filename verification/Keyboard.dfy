/** The keyboard ring between the interrupt handler and the main loop: one producer, one
    consumer, each executed one memory access at a time in any interleaving. */
module Keyboard {

  const BUF: nat := 256   // KBD_BUF_SIZE

  // Where the interrupt handler is inside kbd_push: next computed, room checked, stored
  datatype Producer = PIdle | PNext(c: char, next: nat) | PRoom(c: char, next: nat) | PStored(next: nat)

  // Where the main loop is inside keyboard_try_read: not empty, character loaded
  datatype Consumer = CIdle | CFull | CLoaded(c: char)

  // The shared ring, both program counters, and the history: characters pushed, those
  // accepted (past the room check), those delivered, and for each one dropped how many
  // accepted characters were undelivered at its check
  datatype State = State(buf: seq<char>, head: nat, tail: nat, p: Producer, c: Consumer,
                         pushed: nat, accepted: seq<char>, delivered: seq<char>, drops: seq<int>)

  function Init(buf: seq<char>): State {
    State(buf, 0, 0, PIdle, CIdle, 0, [], [], [])
  }

  // ----- one access of either side -----

  datatype Event = Push(c: char) | ProducerStep | ConsumerStep

  predicate Enabled(s: State, e: Event) {
    match e
    case Push(c) => s.p.PIdle?
    case ProducerStep => !s.p.PIdle?
    case ConsumerStep => true
  }

  // Every index in use names a slot of the ring.
  predicate InRing(s: State) {
    |s.buf| == BUF && s.head < BUF && s.tail < BUF && (!s.p.PIdle? ==> s.p.next < BUF)
  }

  function Step(s: State, e: Event): (r: State)
    requires InRing(s) && Enabled(s, e)
    ensures InRing(r)
  {
    match e
    case Push(c) => s.(p := PNext(c, (s.head + 1) % BUF), pushed := s.pushed + 1)
    case ProducerStep => ProducerMove(s)
    case ConsumerStep => ConsumerMove(s)
  }

  function ProducerMove(s: State): (r: State)
    requires InRing(s)
    ensures InRing(r)
  {
    match s.p
    case PIdle => s
    case PNext(c, next) =>
      if next == s.tail then s.(p := PIdle, drops := s.drops + [|s.accepted| - |s.delivered|])
      else s.(p := PRoom(c, next), accepted := s.accepted + [c])
    case PRoom(c, next) => s.(buf := s.buf[s.head := c], p := PStored(next))
    case PStored(next) => s.(head := next, p := PIdle)
  }

  function ConsumerMove(s: State): (r: State)
    requires InRing(s)
    ensures InRing(r)
  {
    match s.c
    case CIdle => if s.head == s.tail then s else s.(c := CFull)
    case CFull => s.(c := CLoaded(s.buf[s.tail]))
    case CLoaded(ch) => s.(tail := (s.tail + 1) % BUF, c := CIdle, delivered := s.delivered + [ch])
  }

  // ----- the invariant -----

  // Characters whose slot kbd_head has passed
  function Published(s: State): int {
    |s.accepted| - if s.p.PRoom? || s.p.PStored? then 1 else 0
  }

  ghost predicate Inv(s: State) {
    var P, D := Published(s), |s.delivered|;
    && InRing(s) && 0 <= D <= P <= D + 255
    && s.head == P % BUF && s.tail == D % BUF
    && s.delivered == s.accepted[..D]
    && (forall i :: D <= i < P ==> s.buf[i % BUF] == s.accepted[i])
    && (s.p.PNext? || s.p.PRoom? || s.p.PStored? ==> s.p.next == (s.head + 1) % BUF)
    && (s.p.PRoom? ==> s.p.c == s.accepted[P] && P < D + 255)
    && (s.p.PStored? ==> s.buf[s.head] == s.accepted[P] && P < D + 255)
    && (!s.c.CIdle? ==> D < P)
    && (s.c.CLoaded? ==> s.c.c == s.accepted[D])
    && (forall k :: 0 <= k < |s.drops| ==> s.drops[k] == 255)
    && s.pushed == |s.accepted| + |s.drops| + if s.p.PNext? then 1 else 0
  }

  // Distinct places less than a lap apart fall in distinct slots.
  lemma Slots(i: nat, j: nat)
    requires i < j < i + BUF
    ensures i % BUF != j % BUF && (i + 1) % BUF == (i % BUF + 1) % BUF
  {
  }

  // The next slot is the tail's exactly when 255 characters are in flight.
  lemma FullIff(P: nat, D: nat)
    requires D <= P <= D + 255
    ensures (P % BUF + 1) % BUF == D % BUF <==> P == D + 255
  {
    Slots(P, P + 1);
    if P < D + 255 { Slots(D, P + 1); } else { assert P + 1 == D + BUF; }
  }

  lemma CheckKeeps(s: State)
    requires Inv(s) && s.p.PNext?
    ensures Inv(ProducerMove(s))
  {
    var s', P, D := ProducerMove(s), Published(s), |s.delivered|;
    FullIff(P, D);
    if s.p.next != s.tail { assert s'.delivered == s'.accepted[..D]; }
  }

  lemma StoreKeeps(s: State)
    requires Inv(s) && s.p.PRoom?
    ensures Inv(ProducerMove(s))
  {
    var s', P, D := ProducerMove(s), Published(s), |s.delivered|;
    forall i | D <= i < P ensures s'.buf[i % BUF] == s'.accepted[i] { Slots(i, P); }
  }

  lemma PublishKeeps(s: State)
    requires Inv(s) && s.p.PStored?
    ensures Inv(ProducerMove(s))
  {
    var P := Published(s);
    Slots(P, P + 1);
  }

  lemma ProducerKeeps(s: State)
    requires Inv(s) && !s.p.PIdle?
    ensures Inv(ProducerMove(s))
  {
    match s.p
    case PNext(c, next) => CheckKeeps(s);
    case PRoom(c, next) => StoreKeeps(s);
    case PStored(next) => PublishKeeps(s);
  }

  lemma SliceSnoc<T>(s: seq<T>, a: nat, b: nat)
    requires a <= b < |s|
    ensures s[a..b + 1] == s[a..b] + [s[b]]
  {
  }

  lemma LoadKeeps(s: State)
    requires Inv(s) && s.c.CFull?
    ensures Inv(ConsumerMove(s))
  {
    assert s.buf[s.tail] == s.accepted[|s.delivered|];
  }

  lemma TakeKeeps(s: State)
    requires Inv(s) && s.c.CLoaded?
    ensures Inv(ConsumerMove(s))
  {
    var s', D := ConsumerMove(s), |s.delivered|;
    Slots(D, D + 1);
    assert s'.tail == (D + 1) % BUF;
    SliceSnoc(s.accepted, 0, D);
    assert s'.delivered == s.accepted[..D + 1];
  }

  lemma ConsumerKeeps(s: State)
    requires Inv(s)
    ensures Inv(ConsumerMove(s))
  {
    match s.c
    case CIdle => LookKeeps(s);
    case CFull => LoadKeeps(s);
    case CLoaded(ch) => TakeKeeps(s);
  }

  lemma LookKeeps(s: State)
    requires Inv(s) && s.c.CIdle?
    ensures Inv(ConsumerMove(s))
  {
    if Published(s) == |s.delivered| { assert ConsumerMove(s) == s; }
  }

  lemma StepKeeps(s: State, e: Event)
    requires Inv(s) && Enabled(s, e)
    ensures Inv(Step(s, e))
  {
    match e
    case Push(c) =>
    case ProducerStep => ProducerKeeps(s);
    case ConsumerStep => ConsumerKeeps(s);
  }

  // ----- every interleaving -----

  ghost predicate Run(s: State, es: seq<Event>, s': State)
    requires InRing(s)
    decreases |es|
  {
    if es == [] then s' == s
    else Enabled(s, es[0]) && Run(Step(s, es[0]), es[1..], s')
  }

  lemma {:induction false} RunKeeps(s: State, es: seq<Event>, s': State)
    requires Inv(s) && Run(s, es, s')
    ensures Inv(s')
    decreases |es|
  {
    if es == [] {
    } else {
      StepKeeps(s, es[0]);
      RunKeeps(Step(s, es[0]), es[1..], s');
    }
  }

  // In every interleaving from an empty ring: what was delivered is a prefix of what was
  // accepted, at most 255 are in flight, every dropped character met 255 undelivered ones at
  // its check, and every push is accepted, dropped or still being checked.
  lemma DeliveredInOrder(buf: seq<char>, es: seq<Event>, s: State)
    requires |buf| == BUF && Run(Init(buf), es, s)
    ensures s.delivered <= s.accepted && |s.accepted| - |s.delivered| <= 255
    ensures forall k :: 0 <= k < |s.drops| ==> s.drops[k] == 255
    ensures s.pushed == |s.accepted| + |s.drops| + if s.p.PNext? then 1 else 0
    ensures s.head != s.tail <==> |s.delivered| < Published(s)
    ensures s.p.PIdle? && s.head == s.tail ==> s.delivered == s.accepted
  {
    RunKeeps(Init(buf), es, s);
    var P, D := Published(s), |s.delivered|;
    if D < P { Slots(D, P); }
    if D == |s.accepted| { assert s.accepted[..D] == s.accepted; }
  }

  // ----- what a finished call has done -----

  function Count(es: seq<Event>, e: Event): nat {
    if es == [] then 0 else (if es[0] == e then 1 else 0) + Count(es[1..], e)
  }

  predicate NoPush(es: seq<Event>) { forall i :: 0 <= i < |es| ==> !es[i].Push? }

  // Inside a read that will deliver the character accepted at position D, with n steps to go
  ghost predicate Reading(s: State, D: nat, n: nat) {
    && (n == 0 ==> s.c.CIdle? && |s.delivered| == D + 1)
    && (n > 0 ==> |s.delivered| == D < Published(s))
    && (n == 1 ==> s.c.CLoaded?) && (n == 2 ==> s.c.CFull?) && (n == 3 ==> s.c.CIdle?) && n <= 3
  }

  lemma ReadingStep(s: State, e: Event, D: nat, n: nat)
    requires Inv(s) && Enabled(s, e) && Reading(s, D, n) && (e.ConsumerStep? ==> n > 0)
    ensures Reading(Step(s, e), D, if e.ConsumerStep? then n - 1 else n)
    ensures s.accepted <= Step(s, e).accepted
  {
    if n == 3 { Slots(D, Published(s)); }
  }

  lemma {:induction false} ReadingOn(s: State, es: seq<Event>, s': State, D: nat, n: nat)
    requires Inv(s) && Run(s, es, s') && Reading(s, D, n) && Count(es, ConsumerStep) == n
    ensures Inv(s') && Reading(s', D, 0) && s.accepted <= s'.accepted
    decreases |es|
  {
    if es == [] {
    } else {
      StepKeeps(s, es[0]);
      ReadingStep(s, es[0], D, n);
      ReadingOn(Step(s, es[0]), es[1..], s', D, if es[0].ConsumerStep? then n - 1 else n);
    }
  }

  // A read begun on a ring that is not empty delivers, in three accesses and whatever the
  // interrupt handler does in between, the oldest undelivered character, and nothing else.
  lemma ReadDelivers(s: State, es: seq<Event>, s': State)
    requires Inv(s) && s.c.CIdle? && s.head != s.tail && Run(s, es, s') && Count(es, ConsumerStep) == 3
    ensures |s.delivered| < |s.accepted| && s'.c.CIdle?
    ensures s'.delivered == s.delivered + [s.accepted[|s.delivered|]]
  {
    var D := |s.delivered|;
    ReadingOn(s, es, s', D, 3);
    assert s'.accepted[..D + 1] == s.accepted[..D] + [s.accepted[D]];
  }

  // Inside the push of c, n steps of which are done; before it, before was accepted and drops dropped.
  ghost predicate Pushing(s: State, c: char, before: seq<char>, drops: seq<int>, n: nat) {
    match s.p
    case PNext(x, _) => n == 0 && x == c && s.accepted == before && s.drops == drops
    case PRoom(x, _) => n == 1 && x == c && s.accepted == before + [c] && s.drops == drops
    case PStored(_) => n == 2 && s.accepted == before + [c] && s.drops == drops
    case PIdle =>
      || (n == 3 && s.accepted == before + [c] && s.drops == drops)
      || (n == 1 && s.accepted == before && s.drops == drops + [255])
  }

  lemma PushingStep(s: State, e: Event, c: char, before: seq<char>, drops: seq<int>, n: nat)
    requires Inv(s) && Enabled(s, e) && !e.Push? && Pushing(s, c, before, drops, n)
    ensures Pushing(Step(s, e), c, before, drops, if e.ProducerStep? then n + 1 else n)
  {
    if e.ProducerStep? && s.p.PNext? { FullIff(Published(s), |s.delivered|); }
  }

  lemma {:induction false} PushingOn(s: State, es: seq<Event>, s': State, c: char, before: seq<char>, drops: seq<int>,
                                     n: nat)
    requires Inv(s) && Run(s, es, s') && NoPush(es) && Pushing(s, c, before, drops, n)
    ensures Inv(s') && Pushing(s', c, before, drops, n + Count(es, ProducerStep))
    decreases |es|
  {
    if es == [] {
    } else {
      StepKeeps(s, es[0]);
      PushingStep(s, es[0], c, before, drops, n);
      assert NoPush(es[1..]);
      PushingOn(Step(s, es[0]), es[1..], s', c, before, drops, if es[0].ProducerStep? then n + 1 else n);
    }
  }

  // A push that has ended has, whatever the main loop did in between, either made its character the
  // last accepted one, readable from then on, after three accesses, or dropped it after one, with
  // 255 undelivered ones in the ring.
  lemma PushEnds(s: State, c: char, es: seq<Event>, s': State)
    requires Inv(s) && s.p.PIdle? && Run(Step(s, Push(c)), es, s') && NoPush(es) && s'.p.PIdle?
    ensures s'.pushed == s.pushed + 1 && Published(s') == |s'.accepted|
    ensures Count(es, ProducerStep) == 3 || Count(es, ProducerStep) == 1
    ensures Count(es, ProducerStep) == 3 ==> s'.accepted == s.accepted + [c] && s'.drops == s.drops
    ensures Count(es, ProducerStep) == 1 ==> s'.accepted == s.accepted && s'.drops == s.drops + [255]
  {
    StepKeeps(s, Push(c));
    PushingOn(Step(s, Push(c)), es, s', c, s.accepted, s.drops, 0);
  }

  // ----- the two routines, run without interference -----

  // Undelivered characters, oldest first
  function Waiting(buf: seq<char>, head: nat, tail: nat): (s: seq<char>)
    requires |buf| == BUF && head < BUF && tail < BUF
    ensures |s| == (if tail <= head then head - tail else BUF - tail + head) < BUF
  {
    if tail <= head then buf[tail..head] else buf[tail..BUF] + buf[0..head]
  }

  lemma NextSlot(i: nat)
    requires i < BUF
    ensures (i + 1) % BUF == if i + 1 < BUF then i + 1 else 0
  {
  }

  lemma PushWaits(buf: seq<char>, head: nat, tail: nat, c: char)
    requires |buf| == BUF && head < BUF && tail < BUF && (head + 1) % BUF != tail
    ensures Waiting(buf[head := c], (head + 1) % BUF, tail) == Waiting(buf, head, tail) + [c]
  {
    NextSlot(head);
    if tail <= head { PushAhead(buf, head, tail, c); } else { PushWrapped(buf, head, tail, c); }
  }

  lemma PushAhead(buf: seq<char>, head: nat, tail: nat, c: char)
    requires tail <= head < |buf|
    ensures buf[head := c][tail..head + 1] == buf[tail..head] + [c]
  {
  }

  lemma PushWrapped(buf: seq<char>, head: nat, tail: nat, c: char)
    requires head + 1 < tail < |buf|
    ensures var b := buf[head := c]; b[tail..|b|] + b[0..head + 1] == buf[tail..|buf|] + buf[0..head] + [c]
  {
    var b := buf[head := c];
    PushAhead(buf, head, 0, c);
    assert b[tail..|b|] == buf[tail..|buf|];
  }

  lemma PopAhead<T>(s: seq<T>, a: nat, b: nat)
    requires a < b <= |s|
    ensures [s[a]] + s[a + 1..b] == s[a..b]
  {
  }

  lemma PopWrapped<T>(s: seq<T>, a: nat, rest: seq<T>)
    requires a < |s|
    ensures [s[a]] + (s[a + 1..|s|] + rest) == s[a..|s|] + rest
  {
    PopAhead(s, a, |s|);
  }

  lemma PopWaits(buf: seq<char>, head: nat, tail: nat)
    requires |buf| == BUF && head < BUF && tail < BUF && head != tail
    ensures [buf[tail]] + Waiting(buf, head, (tail + 1) % BUF) == Waiting(buf, head, tail)
  {
    NextSlot(tail);
    if tail < head {
      PopAhead(buf, tail, head);
    } else {
      PopWrapped(buf, tail, buf[0..head]);
      if tail + 1 == BUF { PopLast(buf, head); }
    }
  }

  lemma PopLast(buf: seq<char>, head: nat)
    requires head < |buf| == BUF
    ensures buf[BUF..BUF] + buf[0..head] == buf[0..head]
  {
  }

  class Ring {
    const buf: array<char>
    var head: nat
    var tail: nat

    constructor ()
      ensures Valid() && fresh(buf) && Contents() == []
    {
      buf := new char[BUF];
      head, tail := 0, 0;
    }

    ghost predicate Valid()
      reads this
    {
      buf.Length == BUF && head < BUF && tail < BUF
    }

    ghost function Contents(): (s: seq<char>)
      requires Valid()
      reads this, buf
      ensures |s| < BUF
    {
      Waiting(buf[..], head, tail)
    }

    method KbdPush(c: char)
      requires Valid()
      modifies this`head, buf
      ensures Valid()
      ensures Contents() == if |old(Contents())| == 255 then old(Contents()) else old(Contents()) + [c]
    {
      var next := (head + 1) % BUF;
      if next == tail { return; }
      PushWaits(buf[..], head, tail, c);
      buf[head] := c;
      head := next;
    }

    method HasChar() returns (b: bool)
      requires Valid()
      ensures b <==> Contents() != []
    {
      b := head != tail;
    }

    method TryRead() returns (ok: bool, c: char)
      requires Valid()
      modifies this`tail
      ensures Valid()
      ensures ok <==> old(Contents()) != []
      ensures ok ==> [c] + Contents() == old(Contents())
      ensures !ok ==> Contents() == []
    {
      if head == tail { return false, '\0'; }
      PopWaits(buf[..], head, tail);
      c := buf[tail];
      tail := (tail + 1) % BUF;
      ok := true;
    }
  }
}
