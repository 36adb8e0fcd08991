/** The keyboard buffer of a process: a ring of 4096 characters in which a zero marks an empty place. */
module Keyboards {
  import opened Memory

  const BUFFER_SIZE := 4096

  // ---------------------------------------------------------------------------
  // The ring as a value, and the queue it stands for.
  // ---------------------------------------------------------------------------

  type Buffer = b: seq<Byte> | |b| == BUFFER_SIZE witness seq(BUFFER_SIZE, _ => 0)

  /** The counters only ever count; a place is found by their remainder. */
  datatype Ring = Ring(buf: Buffer, head: int, tail: int)

  /** keyboard_get_tail_index, and the same for head. */
  function Place(i: int): (p: nat)
    ensures p < BUFFER_SIZE
  {
    i % BUFFER_SIZE
  }

  /** sizeof makes the source's division one of unsigned 32-bit numbers; the place is the same. */
  lemma PlaceOfUnsigned(i: int)
    ensures Wrap(i) % BUFFER_SIZE == Place(i)
  {
    assert i == ADDRESS_SPACE * (i / ADDRESS_SPACE) + Wrap(i);
  }

  datatype Event = Push(c: Byte) | Pop | Backspace

  function Pushed(r: Ring, c: Byte): Ring {
    if c == 0 then r else r.(buf := r.buf[Place(r.tail) := c], tail := r.tail + 1)
  }

  function Popped(r: Ring): Ring {
    if r.buf[Place(r.head)] == 0 then r else r.(buf := r.buf[Place(r.head) := 0], head := r.head + 1)
  }

  function Backspaced(r: Ring): Ring {
    r.(buf := r.buf[Place(r.tail - 1) := 0], tail := r.tail - 1)
  }

  function Step(r: Ring, e: Event): Ring {
    match e
    case Push(c) => Pushed(r, c)
    case Pop => Popped(r)
    case Backspace => Backspaced(r)
  }

  /** What keyboard_pop returns. */
  function Top(r: Ring): Byte {
    r.buf[Place(r.head)]
  }

  /** The ring holds exactly the characters of `q`, oldest first, and zeros elsewhere. */
  ghost predicate Represents(r: Ring, q: seq<Byte>) {
    var represents :=
      && |q| <= BUFFER_SIZE && r.tail == r.head + |q|
      && (forall i :: 0 <= i < |q| ==> q[i] != 0)
      && forall i :: 0 <= i < BUFFER_SIZE ==> At(r, i) == if i < |q| then q[i] else 0;
    represents
  }

  /** The place `i` behind head. */
  function At(r: Ring, i: nat): Byte {
    r.buf[Place(r.head + i)]
  }

  function QueueStep(q: seq<Byte>, e: Event): seq<Byte> {
    match e
    case Push(c) => if c == 0 then q else q + [c]
    case Pop => if q == [] then q else q[1..]
    case Backspace => if q == [] then q else q[..|q| - 1]
  }

  /** When the code does what the queue does. */
  predicate Allowed(q: seq<Byte>, e: Event) {
    match e
    case Push(c) => c != 0 ==> |q| < BUFFER_SIZE
    case Pop => true
    case Backspace => q != []
  }

  /** Distinct places fewer than 4096 apart do not meet in the ring. */
  lemma PlacesApart(h: int, i: nat, j: nat)
    requires i < BUFFER_SIZE && j < BUFFER_SIZE && Place(h + i) == Place(h + j)
    ensures i == j
  {
    assert (h + i) - (h + j) == BUFFER_SIZE * ((h + i) / BUFFER_SIZE - (h + j) / BUFFER_SIZE);
  }

  lemma PushKeeps(r: Ring, q: seq<Byte>, c: Byte)
    requires Represents(r, q) && |q| < BUFFER_SIZE && c != 0
    ensures Represents(Pushed(r, c), q + [c])
  {
    forall i | 0 <= i < BUFFER_SIZE ensures At(Pushed(r, c), i) == if i <= |q| then (q + [c])[i] else 0 {
      assert At(r, i) == if i < |q| then q[i] else 0;
      if Place(r.head + i) == Place(r.head + |q|) {
        PlacesApart(r.head, i, |q|);
      }
    }
  }

  lemma PopKeeps(r: Ring, q: seq<Byte>)
    requires Represents(r, q)
    ensures Top(r) == (if q == [] then 0 else q[0])
    ensures Represents(Popped(r), QueueStep(q, Pop))
  {
    assert At(r, 0) == Top(r);
    if q != [] {
      forall i | 0 <= i < BUFFER_SIZE ensures At(Popped(r), i) == if i < |q| - 1 then q[1..][i] else 0 {
        AfterHead(r, i);
        assert i + 1 < BUFFER_SIZE ==> At(r, i + 1) == if i + 1 < |q| then q[i + 1] else 0;
      }
    }
  }

  /** What lies behind the new head after a character is taken out. */
  lemma AfterHead(r: Ring, i: nat)
    requires i < BUFFER_SIZE && Top(r) != 0
    ensures At(Popped(r), i) == if i + 1 < BUFFER_SIZE then At(r, i + 1) else 0
  {
    assert Place(r.head + 1 + i) == if i + 1 < BUFFER_SIZE then Place(r.head + (i + 1)) else Place(r.head);
    if i + 1 < BUFFER_SIZE && Place(r.head + (i + 1)) == Place(r.head + 0) {
      PlacesApart(r.head, i + 1, 0);
    }
  }

  lemma BackspaceKeeps(r: Ring, q: seq<Byte>)
    requires Represents(r, q) && q != []
    ensures Represents(Backspaced(r), q[..|q| - 1])
  {
    forall i | 0 <= i < BUFFER_SIZE ensures At(Backspaced(r), i) == if i < |q| - 1 then q[i] else 0 {
      assert At(r, i) == if i < |q| then q[i] else 0;
      if Place(r.head + i) == Place(r.head + (|q| - 1)) {
        PlacesApart(r.head, i, |q| - 1);
      }
    }
  }

  /** One call does what the queue does exactly when it is no push on a full ring and no backspace
      on an empty one. */
  lemma StepRefinesIff(r: Ring, q: seq<Byte>, e: Event)
    requires Represents(r, q)
    ensures Represents(Step(r, e), QueueStep(q, e)) <==> Allowed(q, e)
  {
    match e
    case Push(c) => if c != 0 && |q| < BUFFER_SIZE { PushKeeps(r, q, c); }
    case Pop => PopKeeps(r, q);
    case Backspace => if q != [] { BackspaceKeeps(r, q); }
  }

  /** What the calls of keyboard_pop among `events` return. */
  function Answers(r: Ring, events: seq<Event>): seq<Byte>
    decreases |events|
  {
    if events == [] then []
    else (if events[0].Pop? then [Top(r)] else []) + Answers(Step(r, events[0]), events[1..])
  }

  function QueueAnswers(q: seq<Byte>, events: seq<Event>): seq<Byte>
    decreases |events|
  {
    if events == [] then []
    else
      (if events[0].Pop? then [if q == [] then 0 else q[0]] else []) + QueueAnswers(QueueStep(q, events[0]), events[1..])
  }

  predicate AllAllowed(q: seq<Byte>, events: seq<Event>)
    decreases |events|
  {
    events == [] || (Allowed(q, events[0]) && AllAllowed(QueueStep(q, events[0]), events[1..]))
  }

  /** The ring and the queue after the events. */
  function After(r: Ring, events: seq<Event>): Ring
    decreases |events|
  {
    if events == [] then r else After(Step(r, events[0]), events[1..])
  }

  function QueueAfter(q: seq<Byte>, events: seq<Event>): seq<Byte>
    decreases |events|
  {
    if events == [] then q else QueueAfter(QueueStep(q, events[0]), events[1..])
  }

  /** Over any run, however often it wraps round, the ring answers as the queue does, and holds what
      the queue holds in the end. */
  lemma {:induction false} RunRefinesQueue(r: Ring, q: seq<Byte>, events: seq<Event>)
    requires Represents(r, q) && AllAllowed(q, events)
    ensures Answers(r, events) == QueueAnswers(q, events)
    ensures Represents(After(r, events), QueueAfter(q, events))
    decreases |events|
  {
    if events != [] {
      StepRefinesIff(r, q, events[0]);
      PopKeeps(r, q);
      RunRefinesQueue(Step(r, events[0]), QueueStep(q, events[0]), events[1..]);
    }
  }

  /** A backspace on the empty ring, wherever its counters stand, hides the next character typed:
      keyboard_pop goes on finding nothing. */
  lemma BackspaceOnEmptyHidesNext(r: Ring, c: Byte)
    requires Represents(r, []) && c != 0
    ensures Answers(r, [Backspace, Push(c), Pop]) == [0]
    ensures QueueAnswers([], [Backspace, Push(c), Pop]) == [c]
  {
    assert At(r, 0) == 0;
    PlaceBefore(r.head);
    AnswersOfThree(r, Backspace, Push(c));
    QueueAnswersOfThree([], Backspace, Push(c));
  }

  lemma AnswersOfThree(r: Ring, a: Event, b: Event)
    requires !a.Pop? && !b.Pop?
    ensures Answers(r, [a, b, Pop]) == [Top(Step(Step(r, a), b))]
  {
    assert [a, b, Pop][1..] == [b, Pop] && [b, Pop][1..] == [Pop];
    var r2 := Step(Step(r, a), b);
    assert Answers(r2, [Pop]) == [Top(r2)];
    assert Answers(Step(r, a), [b, Pop]) == [Top(r2)];
  }

  lemma QueueAnswersOfThree(q: seq<Byte>, a: Event, b: Event)
    requires !a.Pop? && !b.Pop?
    ensures var q' := QueueStep(QueueStep(q, a), b); QueueAnswers(q, [a, b, Pop]) == [if q' == [] then 0 else q'[0]]
  {
    assert [a, b, Pop][1..] == [b, Pop] && [b, Pop][1..] == [Pop];
    var q' := QueueStep(QueueStep(q, a), b);
    assert QueueAnswers(q', [Pop]) == [if q' == [] then 0 else q'[0]];
    assert QueueAnswers(QueueStep(q, a), [b, Pop]) == QueueAnswers(q', [Pop]);
  }

  lemma PlaceBefore(h: int)
    ensures Place(h - 1) != Place(h)
  {
    if Place(h - 1) == Place(h) {
      PlacesApart(h - 1, 0, 1);
    }
  }

  /** A push on the full ring overwrites the oldest character. */
  lemma PushOnFullReplacesOldest(r: Ring, q: seq<Byte>, c: Byte)
    requires Represents(r, q) && |q| == BUFFER_SIZE && c != 0
    ensures Top(Pushed(r, c)) == c
  {
  }

  // ---------------------------------------------------------------------------
  // The buffer in place.
  // ---------------------------------------------------------------------------

  class KeyboardBuffer {
    const buf: array<Byte>
    var tail: int
    var head: int

    ghost predicate Valid()
    {
      buf.Length == BUFFER_SIZE
    }

    ghost function Now(): Ring
      requires Valid()
      reads this, buf
    {
      Ring(buf[..], head, tail)
    }

    /** A process starts with its memory cleared. */
    constructor ()
      ensures Valid() && fresh(buf) && Represents(Now(), [])
    {
      buf := new Byte[BUFFER_SIZE](_ => 0);
      tail, head := 0, 0;
    }

    /** keyboard_push, for the process that is current */
    method Push(c: Byte)
      requires Valid()
      modifies this, buf
      ensures Now() == Pushed(old(Now()), c)
    {
      if c == 0 {
        return;
      }
      buf[Place(tail)] := c;
      tail := tail + 1;
    }

    /** keyboard_pop */
    method Pop() returns (c: Byte)
      requires Valid()
      modifies this, buf
      ensures c == Top(old(Now())) && Now() == Popped(old(Now()))
    {
      var index := Place(head);
      c := buf[index];
      if c == 0 {
        return;
      }
      buf[index] := 0;
      head := head + 1;
    }

    /** keyboard_backspace */
    method Backspace()
      requires Valid()
      modifies this, buf
      ensures Now() == Backspaced(old(Now()))
    {
      tail := tail - 1;
      buf[Place(tail)] := 0;
    }
  }
}
