/**
 The keyboard ring buffer: interrupt-time pushes against a pop that can be
 interrupted between any two of its memory accesses.
 */
module KeyboardRing {
  import opened Bytes

  const SIZE: nat := 128               // KBD_BUF_SIZE

  // ---------------------------------------------------------------- the interleaved system

  /** Where keyboard_buffer_pop is: not running, head read, buffer found nonempty, slot read. */
  datatype Pop = Idle | HeadRead(h: nat) | Nonempty | SlotRead(c: byte)

  /** Shared memory, the reader's position, and the characters accepted and delivered so far. */
  datatype State = State(buf: seq<byte>, head: nat, tail: nat, pop: Pop, accepted: seq<byte>, popped: seq<byte>)

  /** An interrupt that pushes a character, or one step of the pop in progress. */
  datatype Event = Push(c: byte) | PopStep

  const INITIAL: State := State(seq(SIZE, _ => 0), 0, 0, Idle, [], [])

  predicate Shaped(s: State) { |s.buf| == SIZE && s.head < SIZE && s.tail < SIZE }

  function PushEffect(s: State, c: byte): State
    requires Shaped(s)
  {
    var next := (s.head + 1) % SIZE;
    if next == s.tail then s
    else s.(buf := s.buf[s.head := c], head := next, accepted := s.accepted + [c])
  }

  function PopEffect(s: State): State
    requires Shaped(s)
  {
    match s.pop
    case Idle => s.(pop := HeadRead(s.head))
    case HeadRead(h) => if h == s.tail then s.(pop := Idle) else s.(pop := Nonempty)
    case Nonempty => s.(pop := SlotRead(s.buf[s.tail]))
    case SlotRead(c) => s.(tail := (s.tail + 1) % SIZE, pop := Idle, popped := s.popped + [c])
  }

  function Step(s: State, e: Event): (r: State)
    requires Shaped(s)
    ensures Shaped(r)
  {
    match e
    case Push(c) => PushEffect(s, c)
    case PopStep => PopEffect(s)
  }

  function Run(s: State, es: seq<Event>): (r: State)
    requires Shaped(s)
    ensures Shaped(r)
    decreases |es|
  {
    if es == [] then s else Run(Step(s, es[0]), es[1..])
  }

  // ---------------------------------------------------------------- the invariant

  /** The slot k places behind the tail, and how far behind the tail a slot is. */
  function Slot(tail: nat, k: nat): (slot: nat)
    ensures slot < SIZE
  {
    (tail + k) % SIZE
  }

  function Behind(tail: nat, slot: nat): (k: nat)
    ensures k < SIZE
  {
    (slot + SIZE - tail) % SIZE
  }

  lemma SlotBehind(tail: nat, k: nat)
    requires tail < SIZE && k < SIZE
    ensures Slot(tail, k) < SIZE && Behind(tail, Slot(tail, k)) == k
  {
  }

  lemma SlotNext(tail: nat, k: nat)
    requires tail < SIZE && k < SIZE
    ensures Slot((tail + 1) % SIZE, k) == Slot(tail, k + 1)
    ensures (Slot(tail, k) + 1) % SIZE == Slot(tail, k + 1)
    ensures Slot(tail, SIZE) == tail
  {
    Wrap(tail + 1);
    Wrap(tail + k);
    Wrap(tail + k + 1);
    Wrap((tail + 1) % SIZE + k);
    Wrap((tail + k) % SIZE + 1);
    Wrap(tail + SIZE);
  }

  lemma Wrap(a: nat)
    requires a <= 2 * SIZE
    ensures a % SIZE == if a < SIZE then a else if a < 2 * SIZE then a - SIZE else 0
  {
  }

  /** Characters accepted but not yet delivered. */
  function Queued(s: State): int { |s.accepted| - |s.popped| }

  /** Slots tail .. head hold the undelivered characters, oldest first. */
  ghost predicate Holds(s: State)
    requires Shaped(s)
  {
    && 0 <= Queued(s) < SIZE && s.popped == s.accepted[..|s.popped|]
    && s.head == Slot(s.tail, Queued(s))
    && (forall k :: 0 <= k < Queued(s) ==> s.buf[Slot(s.tail, k)] == s.accepted[|s.popped| + k])
  }

  /** The pop in progress has read a head from which it may conclude what it concludes. */
  ghost predicate Progress(s: State)
    requires Shaped(s)
  {
    match s.pop
    case Idle => true
    case HeadRead(h) => h < SIZE && Behind(s.tail, h) <= Queued(s)
    case Nonempty => Queued(s) > 0
    case SlotRead(c) => Queued(s) > 0 && c == s.buf[s.tail]
  }

  ghost predicate Inv(s: State) {
    Shaped(s) && Holds(s) && Progress(s)
  }

  lemma PushKeeps(s: State, c: byte)
    requires Inv(s)
    ensures Inv(PushEffect(s, c))
    ensures PushEffect(s, c).accepted == s.accepted + (if Queued(s) < SIZE - 1 then [c] else [])
    ensures s.pop.SlotRead? ==> PushEffect(s, c).buf[s.tail] == s.buf[s.tail]
  {
    hide Slot, Behind;
    var r := PushEffect(s, c);
    var n := Queued(s);
    SlotBehind(s.tail, n);
    SlotNext(s.tail, n);
    SlotBehind(s.tail, 0);
    TailSlot(s.tail);
    if n < SIZE - 1 {
      SlotBehind(s.tail, n + 1);
      forall k | 0 <= k < Queued(r) ensures r.buf[Slot(r.tail, k)] == r.accepted[|r.popped| + k] {
        SlotBehind(s.tail, k);
      }
    }
  }

  lemma TailSlot(tail: nat)
    requires tail < SIZE
    ensures Slot(tail, 0) == tail && Behind(tail, tail) == 0
    ensures forall h: nat :: h < SIZE && Behind(tail, h) == 0 ==> h == tail
  {
  }

  lemma PopKeeps(s: State)
    requires Inv(s)
    ensures Inv(PopEffect(s))
    ensures s.pop.SlotRead? ==> Queued(s) > 0 && s.pop.c == s.accepted[|s.popped|]
  {
    hide Slot, Behind;
    TailSlot(s.tail);
    SlotBehind(s.tail, Queued(s));
    if s.pop.SlotRead? {
      Delivers(s);
    }
  }

  /** The last step of a pop delivers the oldest queued character. */
  lemma Delivers(s: State)
    requires Inv(s) && s.pop.SlotRead?
    ensures s.pop.c == s.accepted[|s.popped|] && Inv(PopEffect(s))
  {
    hide Slot, Behind;
    var r := PopEffect(s);
    TailSlot(s.tail);
    assert s.buf[Slot(s.tail, 0)] == s.accepted[|s.popped| + 0];
    assert s.accepted[..|s.popped| + 1] == s.accepted[..|s.popped|] + [s.accepted[|s.popped|]];
    SlotNext(s.tail, Queued(r));
    forall k | 0 <= k < Queued(r) ensures r.buf[Slot(r.tail, k)] == r.accepted[|r.popped| + k] {
      SlotNext(s.tail, k);
      assert s.buf[Slot(s.tail, k + 1)] == s.accepted[|s.popped| + (k + 1)];
    }
  }

  /**
   For every interleaving: the delivered characters are a prefix of the accepted ones,
   at most 127 are queued, and the slot an unfinished pop has read still holds what it read.
   */
  lemma {:induction false} RunKeeps(s: State, es: seq<Event>)
    requires Inv(s)
    ensures var r := Run(s, es);
            && Inv(r) && r.popped <= r.accepted && Queued(r) <= 127
            && s.accepted <= r.accepted
            && (r.pop.SlotRead? ==> r.pop.c == r.buf[r.tail])
    decreases |es|
  {
    if es != [] {
      match es[0] {
        case Push(c) => PushKeeps(s, c);
        case PopStep => PopKeeps(s);
      }
      RunKeeps(Step(s, es[0]), es[1..]);
    }
  }

  /** Reading head equal to tail happens exactly when nothing is queued at that moment. */
  lemma EmptyTest(s: State)
    requires Inv(s)
    ensures s.head == s.tail <==> s.popped == s.accepted
  {
    SlotBehind(s.tail, Queued(s));
    TailSlot(s.tail);
  }

  /** If no push ever carries 0, no pop delivers 0, so a 0 result can only be the empty answer. */
  lemma {:induction false} ZeroMeansEmpty(s: State, es: seq<Event>)
    requires Inv(s) && 0 !in s.accepted && forall e :: e in es ==> e.PopStep? || e.c != 0
    ensures 0 !in Run(s, es).accepted && 0 !in Run(s, es).popped
    ensures Run(s, es).pop.SlotRead? ==> Run(s, es).pop.c != 0
    decreases |es|
  {
    if es == [] {
      if s.pop.SlotRead? { PopKeeps(s); }
    } else {
      assert es[0] in es;
      match es[0] {
        case Push(c) => PushKeeps(s, c);
        case PopStep => PopKeeps(s);
      }
      ZeroMeansEmpty(Step(s, es[0]), es[1..]);
    }
  }

  /**
   Every run of the driver, from its empty buffer: what was delivered is a prefix of what was
   accepted, at most 127 characters wait, and if no 0 is pushed none is delivered.
   */
  lemma RunsOfTheDriver(es: seq<Event>)
    ensures var r := Run(INITIAL, es);
            && r.popped <= r.accepted && 0 <= Queued(r) <= 127
            && (r.head == r.tail <==> r.popped == r.accepted)
            && (r.pop.SlotRead? ==> r.pop.c == r.buf[r.tail])
            && ((forall e :: e in es ==> e.PopStep? || e.c != 0) ==> 0 !in r.popped)
  {
    assert Inv(INITIAL) by { TailSlot(0); }
    RunKeeps(INITIAL, es);
    EmptyTest(Run(INITIAL, es));
    if forall e :: e in es ==> e.PopStep? || e.c != 0 {
      ZeroMeansEmpty(INITIAL, es);
    }
  }
}
