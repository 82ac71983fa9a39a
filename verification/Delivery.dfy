/** Ordered delivery with counted loss: the bounded rotating queue of a sender and the
    arrival check of a receiver. All that matters here about an envelope is its sequence
    number and whether it arrives intact, so envelopes are of any type E. Sequence numbers
    and counters are natural numbers (the 64-bit counters are assumed not to wrap). */
module OrderedDelivery {

  /** How sender and receiver look at an envelope. */
  datatype View<!E> = View(seqNo: E -> nat, intact: E -> bool)

  datatype Arrival = Ok | CrcMismatch | SeqGap | SeqRegressed

  function CheckOnArrival<E>(v: View<E>, e: E, expected: nat): Arrival {
    if !v.intact(e) then CrcMismatch
    else if v.seqNo(e) < expected then SeqRegressed
    else if v.seqNo(e) > expected then SeqGap
    else Ok
  }

  // ---- The receiver ----

  /** A receiver that moves on from what it accepts and ignores the rest. */
  datatype Receiver<E> = Receiver(expected: nat, gaps: nat, accepted: seq<E>)

  function Receive<E>(v: View<E>, r: Receiver<E>, e: E): Receiver<E> {
    match CheckOnArrival(v, e, r.expected)
    case Ok => Receiver(v.seqNo(e) + 1, r.gaps, r.accepted + [e])
    case SeqGap => Receiver(v.seqNo(e) + 1, r.gaps + (v.seqNo(e) - r.expected), r.accepted + [e])
    case CrcMismatch => r
    case SeqRegressed => r
  }

  function ReceiveAll<E>(v: View<E>, start: nat, wire: seq<E>): Receiver<E> {
    if |wire| == 0 then Receiver(start, 0, [])
    else Receive(v, ReceiveAll(v, start, wire[..|wire| - 1]), wire[|wire| - 1])
  }

  ghost predicate Increasing<E>(v: View<E>, es: seq<E>) {
    forall i, j :: 0 <= i < j < |es| ==> v.seqNo(es[i]) < v.seqNo(es[j])
  }

  /** Whatever a wire drops, duplicates, reorders or invents: what is accepted is strictly
      increasing, in range and intact, and accepted plus missed is exactly the distance
      covered. */
  lemma {:induction false} ReceiverSafety<E>(v: View<E>, start: nat, wire: seq<E>)
    ensures var r := ReceiveAll(v, start, wire);
            && Increasing(v, r.accepted)
            && (forall e <- r.accepted :: e in wire && v.intact(e) && start <= v.seqNo(e) < r.expected)
            && |r.accepted| + r.gaps == r.expected - start
    decreases |wire|
  {
    if |wire| > 0 {
      ReceiverSafety(v, start, wire[..|wire| - 1]);
    }
  }

  /** Two increasing lists: what is in both is in the same order in both. */
  lemma AcceptedInSendingOrder<E>(v: View<E>, sent: seq<E>, accepted: seq<E>)
    requires Increasing(v, sent) && Increasing(v, accepted)
    ensures forall i, j, k, l | 0 <= i < j < |accepted| && 0 <= k < |sent| && 0 <= l < |sent| ::
              accepted[i] == sent[k] && accepted[j] == sent[l] ==> k < l
  {
    forall i, j, k, l | 0 <= i < j < |accepted| && 0 <= k < |sent| && 0 <= l < |sent|
        && accepted[i] == sent[k] && accepted[j] == sent[l]
      ensures k < l
    {
      assert v.seqNo(accepted[i]) < v.seqNo(accepted[j]);
    }
  }

  // ---- The bounded queue ----

  datatype QueueState<E> = QueueState(capacity: nat, buf: seq<E>, rotations: nat, lastRotated: nat, audit: seq<nat>)

  /** Pushing onto a full queue drops the oldest entry and records its number. */
  function Push<E>(v: View<E>, q: QueueState<E>, e: E): QueueState<E> {
    if |q.buf| >= q.capacity && |q.buf| > 0 then
      var dropped := v.seqNo(q.buf[0]);
      q.(buf := q.buf[1..] + [e], rotations := q.rotations + 1, lastRotated := dropped, audit := q.audit + [dropped])
    else
      q.(buf := q.buf + [e])
  }

  /** A push rotates exactly when the queue is full, and the queue then stays full. */
  lemma RotatesWhenFull<E>(v: View<E>, q: QueueState<E>, e: E)
    requires 1 <= q.capacity && |q.buf| <= q.capacity
    ensures var after := Push(v, q, e);
            && after.capacity == q.capacity
            && |after.buf| == (if |q.buf| == q.capacity then q.capacity else |q.buf| + 1)
            && after.buf == (q.buf + [e])[|q.buf| + 1 - |after.buf|..]
            && after.audit == (if |q.buf| == q.capacity then q.audit + [v.seqNo(q.buf[0])] else q.audit)
            && after.rotations == q.rotations + if |q.buf| == q.capacity then 1 else 0
  {
  }

  // ---- Loss accounting over whole runs of a sender ----

  /** One thing that happens to a sender: an envelope is pushed, or the transport takes or
      refuses the oldest one. */
  datatype Step<E> = Enqueue(e: E) | SendAccepted | SendFailed

  datatype Sender<E> = Sender(queue: QueueState<E>, pushed: seq<E>, wire: seq<E>)

  function Next<E>(v: View<E>, s: Sender<E>, step: Step<E>): Sender<E> {
    match step
    case Enqueue(e) => Sender(Push(v, s.queue, e), s.pushed + [e], s.wire)
    case SendAccepted =>
      if |s.queue.buf| == 0 then s
      else Sender(s.queue.(buf := s.queue.buf[1..]), s.pushed, s.wire + [s.queue.buf[0]])
    case SendFailed => s
  }

  function Run<E>(v: View<E>, capacity: nat, steps: seq<Step<E>>): Sender<E> {
    if |steps| == 0 then
      Sender(QueueState(if capacity == 0 then 1 else capacity, [], 0, 0, []), [], [])
    else
      Next(v, Run(v, capacity, steps[..|steps| - 1]), steps[|steps| - 1])
  }

  /** Sequence numbers handed out one after the other, from start. */
  ghost predicate Consecutive<E>(v: View<E>, start: nat, es: seq<E>) {
    forall i :: 0 <= i < |es| ==> v.seqNo(es[i]) == start + i
  }

  /** The envelopes whose sequence numbers were not recorded as rotated. */
  function NotRotated<E>(v: View<E>, es: seq<E>, rotated: seq<nat>): seq<E> {
    if |es| == 0 then []
    else
      var rest := NotRotated(v, es[..|es| - 1], rotated);
      var e := es[|es| - 1];
      if v.seqNo(e) in rotated then rest else rest + [e]
  }

  /** The pushed envelopes that have left the queue, one way or the other. */
  function Gone<E>(s: Sender<E>): seq<E>
    requires |s.queue.buf| <= |s.pushed|
  {
    s.pushed[..|s.pushed| - |s.queue.buf|]
  }

  ghost predicate Accounted<E>(v: View<E>, s: Sender<E>, start: nat) {
    var q, n := s.queue, |s.pushed|;
    && 1 <= q.capacity && |q.buf| <= q.capacity && |q.buf| <= n
    // the queue holds the newest of what was pushed
    && q.buf == s.pushed[n - |q.buf|..]
    // nothing is lost uncounted
    && n == |s.wire| + q.rotations + |q.buf|
    && |q.audit| == q.rotations
    // the audit names exactly what left without being sent, in order
    && s.wire == NotRotated(v, Gone(s), q.audit)
    && (forall i :: 0 <= i < |q.audit| ==> start <= q.audit[i] < start + n - |q.buf|)
    && (forall i, j :: 0 <= i < j < |q.audit| ==> q.audit[i] < q.audit[j])
    && (q.rotations > 0 ==> q.lastRotated == q.audit[|q.audit| - 1])
    // the newest envelope never rotates before another one is pushed
    && (n > 0 && |q.buf| == 0 ==> |s.wire| > 0 && s.wire[|s.wire| - 1] == s.pushed[n - 1])
  }

  lemma {:induction false} NotRotatedExtend<E>(v: View<E>, es: seq<E>, rotated: seq<nat>, dropped: nat)
    requires forall e <- es :: v.seqNo(e) != dropped
    ensures NotRotated(v, es, rotated + [dropped]) == NotRotated(v, es, rotated)
    decreases |es|
  {
    if |es| > 0 {
      NotRotatedExtend(v, es[..|es| - 1], rotated, dropped);
    }
  }

  lemma SendKeepsAccount<E>(v: View<E>, s: Sender<E>, start: nat)
    requires Accounted(v, s, start) && |s.queue.buf| > 0
    requires v.seqNo(s.queue.buf[0]) == start + |Gone(s)|
    ensures Accounted(v, Next(v, s, SendAccepted), start)
  {
    var t := Next(v, s, SendAccepted);
    assert Gone(t)[..|Gone(t)| - 1] == Gone(s);
    assert Gone(t)[|Gone(t)| - 1] == s.queue.buf[0] == s.pushed[|Gone(s)|];
  }

  lemma RoomKeepsAccount<E>(v: View<E>, s: Sender<E>, e: E, start: nat)
    requires Accounted(v, s, start) && |s.queue.buf| < s.queue.capacity
    ensures Accounted(v, Next(v, s, Enqueue(e)), start)
  {
    var t := Next(v, s, Enqueue(e));
    assert Gone(t) == Gone(s);
  }

  lemma RotationDropsOldest<E>(v: View<E>, s: Sender<E>, e: E, start: nat)
    requires Accounted(v, s, start) && |s.queue.buf| >= s.queue.capacity
    requires Consecutive(v, start, s.pushed)
    ensures var t, oldest := Next(v, s, Enqueue(e)), s.queue.buf[0];
            && t.queue.buf == t.pushed[|t.pushed| - |t.queue.buf|..]
            && Gone(t) == Gone(s) + [oldest] && v.seqNo(oldest) == start + |Gone(s)|
            && (forall g <- Gone(s) :: v.seqNo(g) < v.seqNo(oldest))
  {
    var t, oldest := Next(v, s, Enqueue(e)), s.queue.buf[0];
    assert t.queue.buf == s.queue.buf[1..] + [e];
    assert oldest == s.pushed[|Gone(s)|];
    assert t.pushed[..|s.pushed|] == s.pushed;
  }

  lemma RotationKeepsAccount<E>(v: View<E>, s: Sender<E>, e: E, start: nat)
    requires Accounted(v, s, start) && |s.queue.buf| >= s.queue.capacity
    requires Consecutive(v, start, s.pushed)
    ensures Accounted(v, Next(v, s, Enqueue(e)), start)
  {
    RotationDropsOldest(v, s, e, start);
    var gone, oldest, audit := Gone(s), s.queue.buf[0], s.queue.audit;
    NotRotatedExtend(v, gone, audit, v.seqNo(oldest));
    assert (gone + [oldest])[..|gone|] == gone;
    assert v.seqNo(oldest) in audit + [v.seqNo(oldest)];
    assert NotRotated(v, gone + [oldest], audit + [v.seqNo(oldest)]) == NotRotated(v, gone, audit);
  }

  lemma AccountedStep<E>(v: View<E>, s: Sender<E>, step: Step<E>, start: nat)
    requires Accounted(v, s, start) && Consecutive(v, start, s.pushed)
    ensures Accounted(v, Next(v, s, step), start)
  {
    match step
    case SendFailed =>
    case SendAccepted =>
      if |s.queue.buf| > 0 {
        assert s.queue.buf[0] == s.pushed[|Gone(s)|];
        SendKeepsAccount(v, s, start);
      }
    case Enqueue(e) =>
      if |s.queue.buf| >= s.queue.capacity {
        RotationKeepsAccount(v, s, e, start);
      } else {
        RoomKeepsAccount(v, s, e, start);
      }
  }

  lemma {:induction false} RunAccounted<E>(v: View<E>, capacity: nat, steps: seq<Step<E>>, start: nat)
    requires Consecutive(v, start, Run(v, capacity, steps).pushed)
    ensures Accounted(v, Run(v, capacity, steps), start)
    decreases |steps|
  {
    if |steps| > 0 {
      var before, step := Run(v, capacity, steps[..|steps| - 1]), steps[|steps| - 1];
      forall i | 0 <= i < |before.pushed| ensures v.seqNo(before.pushed[i]) == start + i {
        assert Next(v, before, step).pushed[i] == before.pushed[i];
      }
      RunAccounted(v, capacity, steps[..|steps| - 1], start);
      AccountedStep(v, before, step, start);
    }
  }

  lemma {:induction false} NotRotatedFacts<E>(v: View<E>, es: seq<E>, rotated: seq<nat>, start: nat)
    requires Consecutive(v, start, es)
    ensures var w := NotRotated(v, es, rotated);
            Increasing(v, w) && forall e <- w :: e in es && v.seqNo(e) < start + |es|
    decreases |es|
  {
    if |es| > 0 {
      NotRotatedFacts(v, es[..|es| - 1], rotated, start);
    }
  }

  lemma AcceptNext<E>(v: View<E>, r: Receiver<E>, e: E)
    requires v.intact(e) && r.expected <= v.seqNo(e)
    ensures Receive(v, r, e) == Receiver(v.seqNo(e) + 1, r.gaps + (v.seqNo(e) - r.expected), r.accepted + [e])
  {
  }

  /** An undamaged stream in order. */
  ghost predicate InOrder<E>(v: View<E>, start: nat, wire: seq<E>) {
    && Increasing(v, wire)
    && (forall i :: 0 <= i < |wire| ==> v.intact(wire[i]) && start <= v.seqNo(wire[i]))
  }

  lemma InOrderPrefix<E>(v: View<E>, start: nat, wire: seq<E>, n: nat)
    requires InOrder(v, start, wire) && n <= |wire|
    ensures InOrder(v, start, wire[..n])
  {
  }

  /** The number the receiver expects once it has accepted everything on the wire. */
  function Expected<E>(v: View<E>, start: nat, wire: seq<E>): nat {
    if |wire| == 0 then start else v.seqNo(wire[|wire| - 1]) + 1
  }

  /** Receiving an undamaged stream in order: everything is accepted. */
  lemma {:induction false} InOrderIsAccepted<E>(v: View<E>, start: nat, wire: seq<E>)
    requires InOrder(v, start, wire)
    ensures var r := ReceiveAll(v, start, wire);
            r.accepted == wire && r.expected == Expected(v, start, wire) && r.gaps == r.expected - start - |wire|
    decreases |wire|
  {
    if |wire| > 0 {
      var before, e := wire[..|wire| - 1], wire[|wire| - 1];
      LastIsExpected(v, start, wire, before, e);
      InOrderIsAccepted(v, start, before);
      AcceptNext(v, ReceiveAll(v, start, before), e);
    }
  }

  lemma LastIsExpected<E>(v: View<E>, start: nat, wire: seq<E>, before: seq<E>, e: E)
    requires InOrder(v, start, wire) && wire == before + [e]
    ensures InOrder(v, start, before) && v.intact(e) && Expected(v, start, before) <= v.seqNo(e)
  {
    InOrderPrefix(v, start, wire, |before|);
    assert wire[..|before|] == before;
    assert wire[|before|] == e;
    if |before| > 0 {
      assert v.seqNo(wire[|before| - 1]) < v.seqNo(wire[|before|]);
    }
  }

  ghost predicate NeverRegresses<E>(v: View<E>, start: nat, wire: seq<E>) {
    forall i :: 0 <= i < |wire| ==>
      CheckOnArrival(v, wire[i], ReceiveAll(v, start, wire[..i]).expected) in {Ok, SeqGap}
  }

  lemma InOrderNeverRegresses<E>(v: View<E>, start: nat, wire: seq<E>)
    requires InOrder(v, start, wire)
    ensures NeverRegresses(v, start, wire)
  {
    forall i | 0 <= i < |wire|
      ensures CheckOnArrival(v, wire[i], ReceiveAll(v, start, wire[..i]).expected) in {Ok, SeqGap}
    {
      InOrderPrefix(v, start, wire, i);
      InOrderIsAccepted(v, start, wire[..i]);
    }
  }

  /** The receiver's books match the sender's. Gaps show once a later envelope arrives,
      so what is still behind the front of the queue is added to what the receiver knows. */
  ghost predicate Reconciled<E>(v: View<E>, s: Sender<E>, r: Receiver<E>, start: nat) {
    && r.accepted == s.wire
    && (|s.queue.buf| == 0 ==> r.gaps == s.queue.rotations && r.expected == start + |s.pushed|)
    && (|s.queue.buf| > 0 ==>
          var front := v.seqNo(s.queue.buf[0]);
          r.expected <= front && s.queue.rotations == r.gaps + (front - r.expected))
  }

  lemma AccountsReconcile<E>(v: View<E>, s: Sender<E>, r: Receiver<E>, start: nat)
    requires Accounted(v, s, start) && Consecutive(v, start, s.pushed)
    requires r.accepted == s.wire && r.gaps == r.expected - start - |s.wire|
    requires r.expected == Expected(v, start, s.wire) <= start + |Gone(s)|
    ensures Reconciled(v, s, r, start)
  {
    if |s.queue.buf| == 0 {
      assert |s.pushed| > 0 ==> v.seqNo(s.pushed[|s.pushed| - 1]) == start + |s.pushed| - 1;
    } else {
      assert s.queue.buf[0] == s.pushed[|Gone(s)|];
    }
  }

  lemma WireInOrder<E>(v: View<E>, s: Sender<E>, start: nat)
    requires Accounted(v, s, start) && Consecutive(v, start, s.pushed)
    requires forall e <- s.pushed :: v.intact(e)
    ensures InOrder(v, start, s.wire) && Expected(v, start, s.wire) <= start + |Gone(s)|
  {
    NotRotatedFacts(v, Gone(s), s.queue.audit, start);
    forall i | 0 <= i < |s.wire|
      ensures v.intact(s.wire[i]) && start <= v.seqNo(s.wire[i]) < start + |Gone(s)|
    {
      assert s.wire[i] in s.pushed;
    }
  }

  lemma AccountedReachesReceiver<E>(v: View<E>, s: Sender<E>, start: nat)
    requires Accounted(v, s, start) && Consecutive(v, start, s.pushed)
    requires forall e <- s.pushed :: v.intact(e)
    ensures Reconciled(v, s, ReceiveAll(v, start, s.wire), start)
    ensures NeverRegresses(v, start, s.wire)
  {
    WireInOrder(v, s, start);
    InOrderIsAccepted(v, start, s.wire);
    AccountsReconcile(v, s, ReceiveAll(v, start, s.wire), start);
    InOrderNeverRegresses(v, start, s.wire);
  }

  /** End to end, sender to receiver over an in-order wire. However pushes, sends and
      failed sends interleave: every pushed envelope is on the wire, in the audit or still
      queued; the receiver accepts all that was sent and never sees a regression; and the
      gaps it sums up are the rotations, all of them once the queue is drained. */
  lemma LossAccounting<E>(v: View<E>, capacity: nat, steps: seq<Step<E>>, start: nat)
    requires Consecutive(v, start, Run(v, capacity, steps).pushed)
    requires forall e <- Run(v, capacity, steps).pushed :: v.intact(e)
    ensures var s := Run(v, capacity, steps);
            && Accounted(v, s, start)
            && Reconciled(v, s, ReceiveAll(v, start, s.wire), start)
            && NeverRegresses(v, start, s.wire)
  {
    RunAccounted(v, capacity, steps, start);
    AccountedReachesReceiver(v, Run(v, capacity, steps), start);
  }
}

/** The delivery runtime itself: envelopes stamped with the CRC-32 of their payload. */
module Delivery {
  import opened Crc32
  import opened OrderedDelivery
  import opened ShiftRegister
  import opened Wrappers

  datatype Envelope = Envelope(seqNo: nat, crc: bv32, timestamp: int, payload: seq<bv8>) {
    predicate CrcOk() {
      Checksum(payload) == crc
    }
  }

  const AS_ENVELOPE: View<Envelope> := View((e: Envelope) => e.seqNo, (e: Envelope) => e.CrcOk())

  function Stamp(seqNo: nat, payload: seq<bv8>, timestamp: int): (e: Envelope)
    ensures e.CrcOk() && e.seqNo == seqNo && e.payload == payload && e.timestamp == timestamp
  {
    Envelope(seqNo, Checksum(payload), timestamp, payload)
  }

  /** Stamping and checking as the runtime does them, through the table. */
  method StampAtOrigin(seqNo: nat, payload: seq<bv8>, timestamp: int) returns (e: Envelope)
    ensures e == Stamp(seqNo, payload, timestamp)
  {
    var crc := TableChecksum(payload);
    e := Envelope(seqNo, crc, timestamp, payload);
  }

  method CheckArrival(e: Envelope, expected: nat) returns (r: Arrival)
    ensures r == CheckOnArrival(AS_ENVELOPE, e, expected)
  {
    var crc := TableChecksum(e.payload);
    if crc != e.crc {
      return CrcMismatch;
    }
    r := if e.seqNo < expected then SeqRegressed else if e.seqNo > expected then SeqGap else Ok;
  }

  /** A stamped envelope arrives in order exactly when its number is the expected one; a greater
      one shows a gap and a smaller one is a repetition. */
  lemma StampArrives(n: nat, payload: seq<bv8>, timestamp: int, expected: nat)
    ensures CheckOnArrival(AS_ENVELOPE, Stamp(n, payload, timestamp), expected)
         == if n == expected then Ok else if n > expected then SeqGap else SeqRegressed
  {
  }

  /** An envelope whose checksum is not that of its payload is rejected whatever its number. */
  lemma WrongChecksumArrives(e: Envelope, expected: nat)
    ensures CheckOnArrival(AS_ENVELOPE, e, expected) == CrcMismatch <==> Checksum(e.payload) != e.crc
  {
  }

  // ---- Corruption on the wire ----

  /** The same envelope, its payload damaged inside some 32 consecutive bits. */
  ghost predicate IsBurstOf(damaged: Envelope, e: Envelope) {
    && damaged == e.(payload := damaged.payload)
    && |damaged.payload| == |e.payload| && damaged.payload != e.payload
    && exists lo: nat, hi: nat :: hi - lo <= 32
         && DifferOnlyWithin(MessageBits(damaged.payload), MessageBits(e.payload), lo, hi)
  }

  /** A burst in transit is rejected whatever sequence number is expected; an undamaged
      envelope never is. */
  lemma BurstIsRejected(e: Envelope, damaged: Envelope, expected: nat)
    requires e.CrcOk()
    ensures CheckOnArrival(AS_ENVELOPE, e, expected) != CrcMismatch
    ensures IsBurstOf(damaged, e) ==> CheckOnArrival(AS_ENVELOPE, damaged, expected) == CrcMismatch
  {
    if IsBurstOf(damaged, e) {
      var lo: nat, hi: nat :| hi - lo <= 32
        && DifferOnlyWithin(MessageBits(damaged.payload), MessageBits(e.payload), lo, hi);
      BurstDetected(damaged.payload, e.payload, lo, hi);
    }
  }

  /** End to end over a wire that may lose, repeat and reorder envelopes and damage
      payloads by bursts: only envelopes that were sent are accepted, undamaged, each at
      most once, and in the order of sending. */
  lemma OnlySentIsAccepted(start: nat, sent: seq<Envelope>, wire: seq<Envelope>)
    requires Increasing(AS_ENVELOPE, sent) && (forall s <- sent :: AS_ENVELOPE.intact(s))
    requires forall e <- wire :: e in sent || exists s <- sent :: IsBurstOf(e, s)
    ensures var r := ReceiveAll(AS_ENVELOPE, start, wire);
            && (forall e <- r.accepted :: e in sent)
            && (forall i, j, k, l | 0 <= i < j < |r.accepted| && 0 <= k < |sent| && 0 <= l < |sent| ::
                  r.accepted[i] == sent[k] && r.accepted[j] == sent[l] ==> k < l)
  {
    var r := ReceiveAll(AS_ENVELOPE, start, wire);
    forall e | e in wire && AS_ENVELOPE.intact(e) ensures e in sent {
      if e !in sent {
        var s :| s in sent && IsBurstOf(e, s);
        BurstIsRejected(s, e, 0);
      }
    }
    ReceiverSafety(AS_ENVELOPE, start, wire);
    AcceptedInSendingOrder(AS_ENVELOPE, sent, r.accepted);
  }

  // ---- The queue in place ----

  class AuditSink {
    /** The sequence numbers of the "queue_rotated" records, in order. */
    var rotated: seq<nat>

    constructor ()
      ensures rotated == []
    {
      rotated := [];
    }

    method Record(droppedSeq: nat)
      modifies this
      ensures rotated == old(rotated) + [droppedSeq]
    {
      rotated := rotated + [droppedSeq];
    }
  }

  datatype PushOutcome = Accepted | RotatedOldest

  class BoundedQueue {
    const capacity: nat
    const audit: AuditSink
    var buf: seq<Envelope>
    var rotations: nat
    var lastRotatedSeq: nat

    constructor (capacity: nat, audit: AuditSink)
      ensures this.capacity == (if capacity == 0 then 1 else capacity) && this.audit == audit
      ensures State() == QueueState(this.capacity, [], 0, 0, audit.rotated)
    {
      this.capacity := if capacity == 0 then 1 else capacity;
      this.audit := audit;
      buf, rotations, lastRotatedSeq := [], 0, 0;
    }

    ghost predicate Valid()
      reads this
    {
      1 <= capacity && |buf| <= capacity
    }

    ghost function State(): QueueState<Envelope>
      reads this, audit
    {
      QueueState(capacity, buf, rotations, lastRotatedSeq, audit.rotated)
    }

    method PushEnvelope(e: Envelope) returns (outcome: PushOutcome)
      requires Valid()
      modifies this, audit
      ensures Valid()
      ensures State() == Push(AS_ENVELOPE, old(State()), e)
      ensures outcome == if old(|buf|) == capacity then RotatedOldest else Accepted
    {
      outcome := Accepted;
      if |buf| >= capacity {
        lastRotatedSeq := buf[0].seqNo;
        buf := buf[1..];
        rotations := rotations + 1;
        outcome := RotatedOldest;
        audit.Record(lastRotatedSeq);
      }
      buf := buf + [e];
    }

    /** The oldest envelope, left in place. */
    method Peek() returns (e: Option<Envelope>)
      ensures e == if |buf| == 0 then None else Some(buf[0])
    {
      e := if |buf| == 0 then None else Some(buf[0]);
    }

    method Pop() returns (e: Option<Envelope>)
      requires Valid()
      modifies this
      ensures Valid()
      ensures e == if old(|buf|) == 0 then None else Some(old(buf)[0])
      ensures State() == old(State()).(buf := if old(|buf|) == 0 then [] else old(buf)[1..])
    {
      if |buf| == 0 {
        return None;
      }
      e := Some(buf[0]);
      buf := buf[1..];
    }

    /** The sender's drain loop: put the oldest envelope on the wire and pop it once the
        transport has taken it; stop at the first refusal. `takes` says what the
        transport answers to each attempt (a missing answer is a refusal). */
    method Flush(takes: seq<bool>) returns (sent: seq<Envelope>)
      requires Valid()
      modifies this
      ensures Valid()
      ensures |sent| <= old(|buf|) && sent == old(buf)[..|sent|]
      ensures State() == old(State()).(buf := old(buf)[|sent|..])
      ensures |sent| <= |takes| && (forall i :: 0 <= i < |sent| ==> takes[i])
      ensures |sent| == old(|buf|) || |sent| == |takes| || !takes[|sent|]
    {
      sent := [];
      var e := Peek();
      while e.Some?
        invariant Valid()
        invariant e == if |buf| == 0 then None else Some(buf[0])
        invariant |sent| <= old(|buf|) && sent == old(buf)[..|sent|]
        invariant State() == old(State()).(buf := old(buf)[|sent|..])
        invariant |sent| <= |takes| && (forall i :: 0 <= i < |sent| ==> takes[i])
        decreases |buf|
      {
        if |sent| == |takes| || !takes[|sent|] {
          break;
        }
        var popped := Pop();
        sent := sent + [popped.value];
        e := Peek();
      }
    }
  }
}
