/**
 The 64-slot ring between the keyboard interrupt and the main loop: a first-in first-out queue that drops the
 newest byte when full.
 */
module Keyboard {
  import opened Prelude
  import Bits

  const CAPACITY: nat := 64

  // ---------- the queue as a value

  datatype Queue = Queue(bytes: seq<u8>, dropped: nat, errors: nat)

  function Pushed(q: Queue, byte: u8): Queue {
    if |q.bytes| == CAPACITY then q.(dropped := q.dropped + 1) else q.(bytes := q.bytes + [byte])
  }

  /** Auxiliary-port and bad-data bits (5, 6, 7) of the status register. */
  predicate Spoiled(status: u8) {
    status / 0x20 != 0
  }

  /** One interrupt: an empty or spoiled controller answer is an error, anything else is queued. */
  function Interrupted(q: Queue, status: u8, data: u8): Queue {
    if status % 2 == 0 || Spoiled(status) then q.(errors := q.errors + 1) else Pushed(q, data)
  }

  lemma {:induction false} EvenMask(a: nat, b: nat)
    ensures Bits.And(a, 2 * b) == 2 * Bits.And(a / 2, b)
  {
    Bits.AndStep(a, 2 * b);
  }

  lemma {:induction false} FourTimesMask(a: nat, b: nat)
    ensures Bits.And(a, 4 * b) == 4 * Bits.And(a / 4, b)
  {
    EvenMask(a, 2 * b);
    EvenMask(a / 2, b);
    assert a / 2 / 2 == a / 4;
  }

  lemma {:induction false} LowMaskBits(status: nat)
    ensures Bits.And(status, 0xE0) == 0x20 * Bits.And(status / 0x20, 7)
  {
    FourTimesMask(status, 0x38);
    FourTimesMask(status / 4, 0x0E);
    EvenMask(status / 4 / 4, 7);
    assert status / 4 / 4 / 2 == status / 0x20;
  }

  lemma {:induction false} LowThreeBits(n: nat)
    ensures Bits.And(n, 7) == n % 2 + 2 * (n / 2 % 2) + 4 * (n / 4 % 2)
  {
    Bits.AndStep(n, 7);
    Bits.AndStep(n / 2, 3);
    Bits.AndStep(n / 2 / 2, 1);
    Bits.AndZero(n / 2 / 2 / 2);
    assert n / 2 / 2 == n / 4;
  }

  /** The top three bits of a byte. */
  lemma {:induction false} TopBits(status: u8)
    ensures var top := status / 0x20;
      && top == top % 2 + 2 * (top / 2 % 2) + 4 * (top / 4 % 2)
      && top / 2 == status / 0x40 && top / 4 == status / 0x80
  {
  }

  /** The mask of the handler: auxiliary data, time-out and parity. Bit 4, the keyboard lock, spoils nothing. */
  lemma {:induction false} SpoiledIsMask(status: u8)
    ensures Spoiled(status) <==> Bits.And(status, 0xE0) != 0
    ensures Spoiled(status) <==> status / 0x20 % 2 == 1 || status / 0x40 % 2 == 1 || status / 0x80 % 2 == 1
  {
    TopBits(status);
    LowMaskBits(status);
    LowThreeBits(status / 0x20);
  }

  /**
   What one interrupt does: bit 0 clear or a spoiled answer counts as an error; a byte goes to the end of
   the queue, or is counted as dropped at 64.
   */
  lemma {:induction false} InterruptMeans(q: Queue, status: u8, data: u8)
    ensures var q' := Interrupted(q, status, data);
      if status % 2 == 0 || Bits.And(status, 0xE0) != 0 then q' == Queue(q.bytes, q.dropped, q.errors + 1)
      else if |q.bytes| == 64 then q' == Queue(q.bytes, q.dropped + 1, q.errors)
      else q' == Queue(q.bytes + [data], q.dropped, q.errors)
  {
    SpoiledIsMask(status);
  }

  class ByteQueue {
    const bytes: array<u8>
    var head: nat
    var length: nat
    var dropped: nat
    var errors: nat

    predicate Valid()
      reads this
    {
      bytes.Length == CAPACITY && head < CAPACITY && length <= CAPACITY
    }

    /** The bytes waiting, oldest first. */
    function Contents(): (s: seq<u8>)
      requires Valid()
      reads this, bytes
      ensures |s| == length
    {
      seq(length, i requires 0 <= i < length && Valid() reads this, bytes => bytes[(head + i) % CAPACITY])
    }

    ghost function View(): Queue
      requires Valid()
      reads this, bytes
    {
      Queue(Contents(), dropped, errors)
    }

    constructor ()
      ensures Valid() && fresh(bytes) && View() == Queue([], 0, 0)
    {
      bytes := new u8[CAPACITY](_ => 0);
      head, length, dropped, errors := 0, 0, 0, 0;
    }

    method Push(byte: u8)
      requires Valid()
      modifies this, bytes
      ensures Valid() && View() == Pushed(old(View()), byte)
    {
      if length == CAPACITY {
        dropped := dropped + 1;
        return;
      }
      ghost var before := Contents();
      var slot := (head + length) % CAPACITY;
      bytes[slot] := byte;
      length := length + 1;
      forall i | 0 <= i < |before|
        ensures Contents()[i] == before[i]
      {
        assert (head + i) % CAPACITY != slot;
      }
      assert Contents() == before + [byte];
    }

    method Pop() returns (r: Option<u8>)
      requires Valid()
      modifies `head, `length
      ensures Valid() && dropped == old(dropped) && errors == old(errors)
      ensures r.None? <==> old(Contents()) == []
      ensures r.None? ==> View() == old(View())
      ensures r.Some? ==> [r.value] + Contents() == old(Contents())
    {
      if length == 0 {
        return None;
      }
      ghost var before := Contents();
      var byte := bytes[head];
      head := (head + 1) % CAPACITY;
      length := length - 1;
      forall i | 0 <= i < length
        ensures Contents()[i] == before[i + 1]
      {
        assert (head + i) % CAPACITY == (old(head) + (i + 1)) % CAPACITY;
      }
      assert [byte] + Contents() == before;
      return Some(byte);
    }

    /** The interrupt handler; `data` is what port 0x60 would give. */
    method OnInterrupt(status: u8, data: u8)
      requires Valid()
      modifies this, bytes
      ensures Valid() && View() == Interrupted(old(View()), status, data)
    {
      if status % 2 == 0 {
        errors := errors + 1;
        return;
      }
      if status / 0x20 != 0 {
        errors := errors + 1;
        return;
      }
      Push(data);
    }

    /** One round of the main loop: take everything out in order, then report and clear the loss counters. */
    method Drain() returns (shown: seq<u8>, lost: nat, failed: nat)
      requires Valid()
      modifies this, bytes
      ensures Valid() && View() == Queue([], 0, 0)
      ensures shown == old(Contents()) && lost == old(dropped) && failed == old(errors)
    {
      shown := [];
      var next := Pop();
      while next.Some?
        invariant Valid() && dropped == old(dropped) && errors == old(errors)
        invariant next.Some? ==> shown + [next.value] + Contents() == old(Contents())
        invariant next.None? ==> shown == old(Contents()) && Contents() == []
        decreases next.Some?, length
      {
        shown := shown + [next.value];
        ghost var rest := Contents();
        next := Pop();
        assert next.Some? ==> shown + ([next.value] + Contents()) == shown + [next.value] + Contents();
        assert shown + rest == old(Contents());
      }
      lost, failed := dropped, errors;
      if dropped != 0 || errors != 0 {
        dropped := 0;
        errors := 0;
      }
    }
  }

  // ---------- whole histories

  /** An interrupt, one byte taken out, or one whole round of the main loop. */
  datatype Event = Interrupt(status: u8, data: u8) | Take | MainLoop

  /** Queue, everything shown so far, everything reported lost or failed so far. */
  datatype Session = Session(queue: Queue, shown: seq<u8>, lost: nat, failed: nat)

  function Step(s: Session, e: Event): Session {
    match e
    case Interrupt(status, data) => s.(queue := Interrupted(s.queue, status, data))
    case Take =>
      if s.queue.bytes == [] then s
      else s.(queue := s.queue.(bytes := s.queue.bytes[1..]), shown := s.shown + [s.queue.bytes[0]])
    case MainLoop =>
      Session(Queue([], 0, 0), s.shown + s.queue.bytes, s.lost + s.queue.dropped, s.failed + s.queue.errors)
  }

  function Run(s: Session, events: seq<Event>): Session
    decreases |events|
  {
    if events == [] then s else Run(Step(s, events[0]), events[1..])
  }

  function ArrivedNow(e: Event): seq<u8> {
    match e
    case Interrupt(status, data) => if status % 2 == 1 && !Spoiled(status) then [data] else []
    case _ => []
  }

  /** The data bytes that arrived intact, in order. */
  function Arrived(events: seq<Event>): seq<u8>
    decreases |events|
  {
    if events == [] then [] else ArrivedNow(events[0]) + Arrived(events[1..])
  }

  function FaultsNow(e: Event): nat {
    if e.Interrupt? && (e.status % 2 == 0 || Spoiled(e.status)) then 1 else 0
  }

  function Faults(events: seq<Event>): nat
    decreases |events|
  {
    if events == [] then 0 else FaultsNow(events[0]) + Faults(events[1..])
  }

  /** `part` is `whole` with `missing` elements left out, order kept. */
  predicate Subsequence(part: seq<u8>, whole: seq<u8>, missing: nat)
    decreases |whole|
  {
    if whole == [] then part == [] && missing == 0
    else
      || (part != [] && part[|part| - 1] == whole[|whole| - 1]
          && Subsequence(part[..|part| - 1], whole[..|whole| - 1], missing))
      || (missing > 0 && Subsequence(part, whole[..|whole| - 1], missing - 1))
  }

  /** Nothing else hides in the losses: kept and missing add up, and with no loss nothing was altered. */
  lemma {:induction false} SubsequenceCount(part: seq<u8>, whole: seq<u8>, missing: nat)
    requires Subsequence(part, whole, missing)
    ensures |part| + missing == |whole| && (missing == 0 ==> part == whole)
    decreases |whole|
  {
    if |whole| > 0 {
      var front := whole[..|whole| - 1];
      assert whole == front + [whole[|whole| - 1]];
      if missing > 0 && Subsequence(part, front, missing - 1) {
        SubsequenceCount(part, front, missing - 1);
      } else {
        SubsequenceCount(part[..|part| - 1], front, missing);
        assert part == part[..|part| - 1] + [part[|part| - 1]];
      }
    }
  }

  /** What has been shown and what is waiting, and every loss so far, reported or not. */
  function Kept(s: Session): seq<u8> { s.shown + s.queue.bytes }

  function Missing(s: Session): nat { s.lost + s.queue.dropped }

  /** What was kept is what arrived, in order, with exactly the counted bytes missing. */
  predicate Sound(s: Session, arrived: seq<u8>) {
    |s.queue.bytes| <= CAPACITY && Subsequence(Kept(s), arrived, Missing(s))
  }

  function AllFailed(s: Session): nat { s.failed + s.queue.errors }

  /** One more element arrives and is kept, or is missing. */
  lemma {:induction false} SubsequenceGrows(part: seq<u8>, whole: seq<u8>, missing: nat, b: u8)
    requires Subsequence(part, whole, missing)
    ensures Subsequence(part + [b], whole + [b], missing)
    ensures Subsequence(part, whole + [b], missing + 1)
  {
    assert (whole + [b])[..|whole|] == whole && (part + [b])[..|part|] == part;
  }

  lemma {:induction false} ByteSound(s: Session, before: seq<u8>, status: u8, data: u8)
    requires Sound(s, before) && status % 2 == 1 && !Spoiled(status)
    ensures Sound(Step(s, Interrupt(status, data)), before + [data])
  {
    var after := Step(s, Interrupt(status, data));
    SubsequenceGrows(Kept(s), before, Missing(s), data);
    if |s.queue.bytes| < CAPACITY {
      assert Kept(after) == Kept(s) + [data] && Missing(after) == Missing(s);
    } else {
      assert Kept(after) == Kept(s) && Missing(after) == Missing(s) + 1;
    }
  }

  lemma {:induction false} InterruptSound(s: Session, before: seq<u8>, status: u8, data: u8)
    requires Sound(s, before)
    ensures Sound(Step(s, Interrupt(status, data)), before + ArrivedNow(Interrupt(status, data)))
  {
    var e := Interrupt(status, data);
    if status % 2 == 0 || Spoiled(status) {
      assert ArrivedNow(e) == [] && before + [] == before && Kept(Step(s, e)) == Kept(s);
    } else {
      ByteSound(s, before, status, data);
    }
  }

  lemma {:induction false} EventSound(s: Session, before: seq<u8>, e: Event)
    requires Sound(s, before)
    ensures Sound(Step(s, e), before + ArrivedNow(e))
  {
    if e.Interrupt? {
      InterruptSound(s, before, e.status, e.data);
    } else {
      assert Kept(Step(s, e)) == Kept(s);
      assert before + ArrivedNow(e) == before;
    }
  }

  /**
   For every history: the bytes shown, followed by those waiting, are the bytes that arrived, in
   order, with exactly the counted ones missing; and the queue never holds more than 64 bytes.
   */
  lemma {:induction false} NothingUncounted(s: Session, before: seq<u8>, events: seq<Event>)
    requires Sound(s, before)
    ensures Sound(Run(s, events), before + Arrived(events))
    decreases |events|
  {
    if |events| == 0 {
      assert before + Arrived(events) == before;
    } else {
      EventSound(s, before, events[0]);
      NothingUncounted(Step(s, events[0]), before + ArrivedNow(events[0]), events[1..]);
      assert before + ArrivedNow(events[0]) + Arrived(events[1..]) == before + Arrived(events);
    }
  }

  /** Every faulty interrupt is counted exactly once, reported or not. */
  lemma {:induction false} EveryFaultCounted(s: Session, events: seq<Event>)
    ensures AllFailed(Run(s, events)) == AllFailed(s) + Faults(events)
    decreases |events|
  {
    if |events| > 0 {
      EveryFaultCounted(Step(s, events[0]), events[1..]);
    }
  }

  /** Nothing accepted is ever overwritten, reordered or taken back: what was kept stays, as a prefix. */
  lemma {:induction false} KeptOnlyGrows(s: Session, events: seq<Event>)
    ensures Kept(s) <= Kept(Run(s, events))
    decreases |events|
  {
    if |events| > 0 {
      assert Kept(s) <= Kept(Step(s, events[0]));
      KeptOnlyGrows(Step(s, events[0]), events[1..]);
    }
  }

  /** Bytes are dropped only for want of room: as long as 64 slots suffice, every byte that arrives is kept. */
  lemma {:induction false} NoLossWhileRoom(s: Session, events: seq<Event>)
    requires |s.queue.bytes| + |Arrived(events)| <= CAPACITY
    ensures Kept(Run(s, events)) == Kept(s) + Arrived(events) && Missing(Run(s, events)) == Missing(s)
    decreases |events|
  {
    if |events| > 0 {
      var next := Step(s, events[0]);
      assert Kept(next) == Kept(s) + ArrivedNow(events[0]);
      NoLossWhileRoom(next, events[1..]);
    }
  }
}
