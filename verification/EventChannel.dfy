/** The event channel: publish and subscribe under a mutex, callbacks on detached threads.
    A call is the critical section that decides what is delivered and, some time later, the
    launch of a dispatch thread; a thread runs its callbacks one by one. Every interleaving
    of these steps is a run. */
module EventChannel {
  import opened Wrappers
  import opened Tally

  /** A registered callback under its subscription id. */
  datatype Entry = Entry(id: nat, callback: nat)

  /** One callback invocation with a value. The subscription it is for is kept also where
      the runtime drops it (a replay is dispatched under id 0). */
  datatype Delivery<T> = Delivery(entry: Entry, value: T, replay: bool)

  /** The fields guarded by the mutex. */
  datatype Core<T> = Core(cached: bool, subs: seq<Entry>, lastId: nat, last: Option<T>)

  // ---- The critical sections ----

  function Subscribed<T>(c: Core<T>, callback: nat): Core<T> {
    c.(subs := c.subs + [Entry(c.lastId + 1, callback)], lastId := c.lastId + 1)
  }

  /** What the new subscriber is sent at once. */
  function Replay<T>(c: Core<T>, callback: nat): seq<Delivery<T>> {
    if c.cached && c.last.Some? then [Delivery(Entry(c.lastId + 1, callback), c.last.value, true)] else []
  }

  /** The list without its first entry under an id. */
  function Without(subs: seq<Entry>, id: nat): seq<Entry> {
    if |subs| == 0 then [] else if subs[0].id == id then subs[1..] else [subs[0]] + Without(subs[1..], id)
  }

  function Published<T>(c: Core<T>, value: T): Core<T> {
    if c.cached then c.(last := Some(value)) else c
  }

  /** The snapshot of the subscribers, with a copy of the value for each. */
  function Snapshot<T>(subs: seq<Entry>, value: T): (batch: seq<Delivery<T>>)
    ensures |batch| == |subs|
  {
    seq(|subs|, i requires 0 <= i < |subs| => Delivery(subs[i], value, false))
  }

  /** The channel as it stands in memory. */
  class Channel<T> {
    const cached: bool
    var subs: seq<Entry>
    var lastId: nat
    var last: Option<T>

    constructor (cached: bool)
      ensures State() == Core(cached, [], 0, None)
    {
      this.cached := cached;
      subs, lastId, last := [], 0, None;
    }

    ghost function State(): Core<T>
      reads this
    {
      Core(cached, subs, lastId, last)
    }

    method Subscribe(callback: nat) returns (id: nat, replay: seq<Delivery<T>>)
      modifies this
      ensures State() == Subscribed(old(State()), callback)
      ensures id == old(lastId) + 1 && replay == Replay(old(State()), callback)
    {
      lastId := lastId + 1;
      id := lastId;
      subs := subs + [Entry(id, callback)];
      replay := [];
      if cached && last.Some? {
        replay := [Delivery(Entry(id, callback), last.value, true)];
      }
    }

    method Unsubscribe(id: nat)
      modifies this`subs
      ensures subs == Without(old(subs), id)
    {
      var n := 0;
      while n < |subs|
        invariant n <= |subs| && subs == old(subs)
        invariant forall i :: 0 <= i < n ==> subs[i].id != id
      {
        if subs[n].id == id {
          ErasedAt(subs, id, n);
          subs := subs[..n] + subs[n + 1..];
          return;
        }
        n := n + 1;
      }
      NothingErased(subs, id);
    }

    method Publish(value: T) returns (batch: seq<Delivery<T>>)
      modifies this
      ensures State() == Published(old(State()), value)
      ensures batch == Snapshot(old(subs), value)
    {
      if cached {
        last := Some(value);
      }
      batch := Snapshot(subs, value);
    }
  }

  lemma {:induction false} ErasedAt(subs: seq<Entry>, id: nat, n: nat)
    requires n < |subs| && subs[n].id == id && forall i :: 0 <= i < n ==> subs[i].id != id
    ensures Without(subs, id) == subs[..n] + subs[n + 1..]
    decreases |subs|
  {
    if n > 0 {
      ErasedAt(subs[1..], id, n - 1);
      assert [subs[0]] + (subs[1..][..n - 1] + subs[1..][n..]) == subs[..n] + subs[n + 1..];
    }
  }

  lemma {:induction false} NothingErased(subs: seq<Entry>, id: nat)
    requires forall i :: 0 <= i < |subs| ==> subs[i].id != id
    ensures Without(subs, id) == subs
    decreases |subs|
  {
    if |subs| > 0 {
      NothingErased(subs[1..], id);
      assert [subs[0]] + subs[1..] == subs;
    }
  }

  datatype AuditEvent = PhiDispatch | CallbackException

  /** A dispatch thread from start to end: every callback of the snapshot runs, in order,
      whichever of them throw; each throw is audited. */
  method Dispatch<T>(batch: seq<Delivery<T>>, throws: seq<bool>) returns (ran: seq<Delivery<T>>, audit: seq<AuditEvent>)
    requires |throws| == |batch|
    ensures ran == batch
    ensures |audit| == |set i | 0 <= i < |throws| && throws[i]| && forall e <- audit :: e == CallbackException
  {
    ran, audit := [], [];
    var n := 0;
    while n < |batch|
      invariant n <= |batch| && ran == batch[..n]
      invariant |audit| == |set i | 0 <= i < n && throws[i]| && forall e <- audit :: e == CallbackException
    {
      ran := ran + [batch[n]];
      ghost var before, after := set i | 0 <= i < n && throws[i], set i | 0 <= i < n + 1 && throws[i];
      if throws[n] {
        assert after == before + {n};
        audit := audit + [CallbackException];
      } else {
        assert after == before;
      }
      n := n + 1;
    }
  }

  // ---- Runs ----

  datatype Step<T> =
    | SubscribeStep(callback: nat)
    | UnsubscribeStep(id: nat)
    | PublishStep(value: T)
    | LaunchStep(call: nat)                 // a call leaves its critical section behind
    | CallbackStep(thread: nat, throws: bool)  // a thread runs its next callback

  /** A call between its critical section and the launch of its dispatch. */
  datatype Call<T> = Call(batch: seq<Delivery<T>>, publish: bool)

  /** A callback run by a thread, and whether it threw. */
  datatype Invocation<T> = Invocation(what: Delivery<T>, throws: bool, thread: nat)

  datatype Thread<T> = Thread(batch: seq<Delivery<T>>, done: nat, publish: bool)

  /** The channel, the calls and threads in flight, and the histories: what has been
      scheduled, what has run and whether it threw, and the audit. */
  datatype World<T> = World(core: Core<T>, calls: seq<Call<T>>, threads: seq<Thread<T>>,
                            scheduled: seq<Delivery<T>>, ran: seq<Invocation<T>>, audit: seq<AuditEvent>)

  function Next<T>(w: World<T>, phi: bool, step: Step<T>): World<T> {
    match step
    case SubscribeStep(callback) =>
      var replay := Replay(w.core, callback);
      w.(core := Subscribed(w.core, callback),
         calls := if replay == [] then w.calls else w.calls + [Call(replay, false)],
         scheduled := w.scheduled + replay)
    case UnsubscribeStep(id) =>
      w.(core := w.core.(subs := Without(w.core.subs, id)))
    case PublishStep(value) =>
      var batch := Snapshot(w.core.subs, value);
      w.(core := Published(w.core, value), calls := w.calls + [Call(batch, true)], scheduled := w.scheduled + batch)
    case LaunchStep(n) =>
      if n >= |w.calls| then w
      else
        var call := w.calls[n];
        w.(calls := w.calls[..n] + w.calls[n + 1..],
           audit := if call.publish && phi then w.audit + [PhiDispatch] else w.audit,
           threads := if call.batch == [] then w.threads else w.threads + [Thread(call.batch, 0, call.publish)])
    case CallbackStep(n, throws) =>
      if n >= |w.threads| || w.threads[n].done >= |w.threads[n].batch| then w
      else
        var t := w.threads[n];
        w.(threads := w.threads[n := t.(done := t.done + 1)],
           ran := w.ran + [Invocation(t.batch[t.done], throws, n)],
           audit := if throws then w.audit + [CallbackException] else w.audit)
  }

  function Start<T>(cached: bool): World<T> {
    World(Core(cached, [], 0, None), [], [], [], [], [])
  }

  /** A run: the worlds before, between and after the steps. */
  ghost predicate IsRun<T>(cached: bool, phi: bool, steps: seq<Step<T>>, ws: seq<World<T>>) {
    && |ws| == |steps| + 1 && ws[0] == Start(cached)
    && forall k: nat :: k < |steps| ==> StepsTo(phi, steps, ws, k)
  }

  ghost predicate StepsTo<T>(phi: bool, steps: seq<Step<T>>, ws: seq<World<T>>, k: nat)
    requires |ws| == |steps| + 1 && k < |steps|
  {
    ws[k + 1] == Next(ws[k], phi, steps[k])
  }

  // ---- What a history of calls says should be delivered ----

  /** The number of subscriptions among the first n steps. */
  function Subscriptions<T>(steps: seq<Step<T>>, n: nat): nat
    requires n <= |steps|
  {
    if n == 0 then 0 else Subscriptions(steps, n - 1) + if steps[n - 1].SubscribeStep? then 1 else 0
  }

  /** The last value published in the first n steps. */
  function LastValue<T>(steps: seq<Step<T>>, n: nat): Option<T>
    requires n <= |steps|
  {
    if n == 0 then None
    else if steps[n - 1].PublishStep? then Some(steps[n - 1].value)
    else LastValue(steps, n - 1)
  }

  /** One live delivery per publish in steps s..n, in order. */
  function Live<T>(entry: Entry, steps: seq<Step<T>>, s: nat, n: nat): seq<Delivery<T>>
    requires s <= n <= |steps|
    decreases n
  {
    if n == s then []
    else Live(entry, steps, s, n - 1) + LiveIn(entry, steps[n - 1])
  }

  function LiveIn<T>(entry: Entry, step: Step<T>): seq<Delivery<T>> {
    if step.PublishStep? then [Delivery(entry, step.value, false)] else []
  }

  /** The deliveries for one subscription. */
  function For<T>(id: nat, ds: seq<Delivery<T>>): seq<Delivery<T>> {
    if |ds| == 0 then []
    else
      var before, d := For(id, ds[..|ds| - 1]), ds[|ds| - 1];
      if d.entry.id == id then before + [d] else before
  }

  // ---- What every step keeps ----

  ghost predicate Ordered(subs: seq<Entry>) {
    forall i, j :: 0 <= i < j < |subs| ==> subs[i].id < subs[j].id
  }

  /** Ids are handed out in increasing order and the list stays sorted by them. */
  ghost predicate Kept<T>(w: World<T>) {
    && Ordered(w.core.subs)
    && (forall i :: 0 <= i < |w.core.subs| ==> w.core.subs[i].id <= w.core.lastId)
    && (forall i :: 0 <= i < |w.scheduled| ==> w.scheduled[i].entry.id <= w.core.lastId)
  }

  lemma {:induction false} WithoutFacts(subs: seq<Entry>, id: nat)
    requires Ordered(subs)
    ensures Ordered(Without(subs, id))
    ensures forall e :: e in Without(subs, id) <==> e in subs && e.id != id
    decreases |subs|
  {
    if |subs| > 0 {
      WithoutFacts(subs[1..], id);
      var rest := Without(subs[1..], id);
      if subs[0].id != id {
        forall i | 0 <= i < |rest| ensures subs[0].id < rest[i].id {
          assert rest[i] in subs[1..];
        }
      }
    }
  }

  lemma StepKeeps<T>(w: World<T>, phi: bool, step: Step<T>)
    requires Kept(w)
    ensures Kept(Next(w, phi, step))
  {
    if step.UnsubscribeStep? {
      WithoutFacts(w.core.subs, step.id);
      var left := Without(w.core.subs, step.id);
      forall i | 0 <= i < |left| ensures left[i].id <= w.core.lastId {
        assert left[i] in w.core.subs;
      }
    }
  }

  /** The core as the history tells it. */
  ghost predicate Follows<T>(w: World<T>, cached: bool, steps: seq<Step<T>>, k: nat)
    requires k <= |steps|
  {
    && w.core.cached == cached && w.core.lastId == Subscriptions(steps, k)
    && (cached ==> w.core.last == LastValue(steps, k))
  }

  lemma {:induction false} RunKept<T>(cached: bool, phi: bool, steps: seq<Step<T>>, ws: seq<World<T>>, k: nat)
    requires IsRun(cached, phi, steps, ws) && k <= |steps|
    ensures Kept(ws[k]) && Follows(ws[k], cached, steps, k)
    decreases k
  {
    if k > 0 {
      RunKept(cached, phi, steps, ws, k - 1);
      assert StepsTo(phi, steps, ws, k - 1);
      StepKeeps(ws[k - 1], phi, steps[k - 1]);
    }
  }

  // ---- Exact delivery ----

  lemma {:induction false} ForAppend<T>(id: nat, a: seq<Delivery<T>>, b: seq<Delivery<T>>)
    ensures For(id, a + b) == For(id, a) + For(id, b)
    decreases |b|
  {
    if |b| == 0 {
      assert a + b == a;
    } else {
      assert (a + b)[..|a + b| - 1] == a + b[..|b| - 1];
      ForAppend(id, a, b[..|b| - 1]);
    }
  }

  lemma {:induction false} ForOthers<T>(id: nat, ds: seq<Delivery<T>>)
    requires forall i :: 0 <= i < |ds| ==> ds[i].entry.id != id
    ensures For(id, ds) == []
    decreases |ds|
  {
    if |ds| > 0 {
      ForOthers(id, ds[..|ds| - 1]);
    }
  }

  lemma ForOne<T>(d: Delivery<T>)
    ensures For(d.entry.id, [d]) == [d]
  {
    assert [d][..0] == [];
  }

  /** A snapshot delivers once to each subscriber and not to anyone else. */
  lemma ForSnapshot<T>(subs: seq<Entry>, value: T, entry: Entry)
    requires Ordered(subs) && entry in subs
    ensures For(entry.id, Snapshot(subs, value)) == [Delivery(entry, value, false)]
  {
    var n :| 0 <= n < |subs| && subs[n] == entry;
    var all := Snapshot(subs, value);
    assert all == all[..n] + [all[n]] + all[n + 1..];
    ForAppend(entry.id, all[..n] + [all[n]], all[n + 1..]);
    ForAppend(entry.id, all[..n], [all[n]]);
    ForOthers(entry.id, all[..n]);
    ForOthers(entry.id, all[n + 1..]);
    ForOne(all[n]);
  }

  /** The subscription made by step s. */
  function EntryOf<T>(steps: seq<Step<T>>, s: nat): Entry
    requires s < |steps| && steps[s].SubscribeStep?
  {
    Entry(Subscriptions(steps, s) + 1, steps[s].callback)
  }

  /** On a cached channel, one replay of the last value published before step s, if any. */
  function ReplayOwed<T>(cached: bool, steps: seq<Step<T>>, s: nat): seq<Delivery<T>>
    requires s < |steps| && steps[s].SubscribeStep?
  {
    var earlier := LastValue(steps, s);
    if cached && earlier.Some? then [Delivery(EntryOf(steps, s), earlier.value, true)] else []
  }

  /** What the subscription made by step s and ended by step u is owed: its replay, then
      each publish in between. */
  function Owed<T>(cached: bool, steps: seq<Step<T>>, s: nat, u: nat): seq<Delivery<T>>
    requires s < u <= |steps| && steps[s].SubscribeStep?
  {
    ReplayOwed(cached, steps, s) + Live(EntryOf(steps, s), steps, s + 1, u)
  }

  lemma StepSubscribes<T>(w: World<T>, after: World<T>, phi: bool, step: Step<T>)
    requires Kept(w) && step.SubscribeStep? && after == Next(w, phi, step)
    ensures var entry := Entry(w.core.lastId + 1, step.callback);
            entry in after.core.subs && For(entry.id, after.scheduled) == Replay(w.core, step.callback)
  {
    var entry, replay := Entry(w.core.lastId + 1, step.callback), Replay(w.core, step.callback);
    ForOthers(entry.id, w.scheduled);
    ForAppend(entry.id, w.scheduled, replay);
    if replay != [] {
      ForOne(replay[0]);
    }
    assert Subscribed(w.core, step.callback).subs[|w.core.subs|] == entry;
  }

  /** One step while an entry is subscribed and not removed. */
  lemma StepWhileSubscribed<T>(w: World<T>, phi: bool, step: Step<T>, entry: Entry)
    requires Kept(w) && entry in w.core.subs && step != UnsubscribeStep(entry.id)
    ensures entry in Next(w, phi, step).core.subs
    ensures For(entry.id, Next(w, phi, step).scheduled) == For(entry.id, w.scheduled) + LiveIn(entry, step)
  {
    match step
    case SubscribeStep(callback) =>
      var n :| 0 <= n < |w.core.subs| && w.core.subs[n] == entry;
      ForAppend(entry.id, w.scheduled, Replay(w.core, callback));
      ForOthers(entry.id, Replay(w.core, callback));
    case UnsubscribeStep(id) =>
      WithoutFacts(w.core.subs, id);
    case PublishStep(value) =>
      ForAppend(entry.id, w.scheduled, Snapshot(w.core.subs, value));
      ForSnapshot(w.core.subs, value, entry);
    case LaunchStep(n) =>
    case CallbackStep(n, throws) =>
  }

  ghost predicate Gone<T>(w: World<T>, id: nat) {
    id <= w.core.lastId && forall e <- w.core.subs :: e.id != id
  }

  lemma StepRemoves<T>(w: World<T>, phi: bool, id: nat)
    requires Kept(w) && id <= w.core.lastId
    ensures Gone(Next(w, phi, UnsubscribeStep(id)), id)
    ensures Next(w, phi, UnsubscribeStep(id)).scheduled == w.scheduled
  {
    WithoutFacts(w.core.subs, id);
  }

  /** One step once an id is gone: it gets nothing more and never comes back. */
  lemma StepOnceGone<T>(w: World<T>, phi: bool, step: Step<T>, id: nat)
    requires Kept(w) && Gone(w, id)
    ensures Gone(Next(w, phi, step), id)
    ensures For(id, Next(w, phi, step).scheduled) == For(id, w.scheduled)
  {
    match step
    case SubscribeStep(callback) =>
      ForAppend(id, w.scheduled, Replay(w.core, callback));
      ForOthers(id, Replay(w.core, callback));
    case UnsubscribeStep(other) =>
      WithoutFacts(w.core.subs, other);
    case PublishStep(value) =>
      var batch := Snapshot(w.core.subs, value);
      ForAppend(id, w.scheduled, batch);
      forall i | 0 <= i < |batch| ensures batch[i].entry.id != id {
        assert w.core.subs[i] in w.core.subs;
      }
      ForOthers(id, batch);
    case LaunchStep(n) =>
    case CallbackStep(n, throws) =>
  }

  /** What is owed at once is the replay the core owes. */
  lemma OwedAtOnce<T>(core: Core<T>, cached: bool, steps: seq<Step<T>>, s: nat)
    requires s < |steps| && steps[s].SubscribeStep?
    requires core.cached == cached && core.lastId == Subscriptions(steps, s)
    requires cached ==> core.last == LastValue(steps, s)
    ensures Entry(core.lastId + 1, steps[s].callback) == EntryOf(steps, s)
    ensures Replay(core, steps[s].callback) == Owed(cached, steps, s, s + 1)
  {
  }

  lemma SubscribedAt<T>(cached: bool, phi: bool, steps: seq<Step<T>>, ws: seq<World<T>>, s: nat)
    requires IsRun(cached, phi, steps, ws) && s < |steps| && steps[s].SubscribeStep?
    ensures EntryOf(steps, s) in ws[s + 1].core.subs
    ensures For(EntryOf(steps, s).id, ws[s + 1].scheduled) == Owed(cached, steps, s, s + 1)
  {
    var w, after := ws[s], ws[s + 1];
    RunKept(cached, phi, steps, ws, s);
    assert StepsTo(phi, steps, ws, s);
    StepSubscribes(w, after, phi, steps[s]);
    OwedAtOnce(w.core, cached, steps, s);
  }

  lemma OwedStep<T>(cached: bool, steps: seq<Step<T>>, s: nat, k: nat)
    requires s + 1 < k <= |steps| && steps[s].SubscribeStep?
    ensures Owed(cached, steps, s, k) == Owed(cached, steps, s, k - 1) + LiveIn(EntryOf(steps, s), steps[k - 1])
  {
  }

  lemma {:induction false} WhileSubscribed<T>(cached: bool, phi: bool, steps: seq<Step<T>>, ws: seq<World<T>>, s: nat, k: nat)
    requires IsRun(cached, phi, steps, ws) && s < k <= |steps| && steps[s].SubscribeStep?
    requires forall i :: s < i < k ==> steps[i] != UnsubscribeStep(EntryOf(steps, s).id)
    ensures EntryOf(steps, s) in ws[k].core.subs
    ensures For(EntryOf(steps, s).id, ws[k].scheduled) == Owed(cached, steps, s, k)
    decreases k
  {
    if k == s + 1 {
      SubscribedAt(cached, phi, steps, ws, s);
    } else {
      WhileSubscribed(cached, phi, steps, ws, s, k - 1);
      OwedStep(cached, steps, s, k);
      var entry := EntryOf(steps, s);
      assert steps[k - 1] != UnsubscribeStep(entry.id);
      SubscribedStep(cached, phi, steps, ws, k - 1, entry);
    }
  }

  lemma SubscribedStep<T>(cached: bool, phi: bool, steps: seq<Step<T>>, ws: seq<World<T>>, k: nat, entry: Entry)
    requires IsRun(cached, phi, steps, ws) && k < |steps|
    requires entry in ws[k].core.subs && steps[k] != UnsubscribeStep(entry.id)
    ensures entry in ws[k + 1].core.subs
    ensures For(entry.id, ws[k + 1].scheduled) == For(entry.id, ws[k].scheduled) + LiveIn(entry, steps[k])
  {
    RunKept(cached, phi, steps, ws, k);
    assert StepsTo(phi, steps, ws, k);
    StepWhileSubscribed(ws[k], phi, steps[k], entry);
  }

  lemma {:induction false} OnceGone<T>(cached: bool, phi: bool, steps: seq<Step<T>>, ws: seq<World<T>>, id: nat, u: nat, k: nat)
    requires IsRun(cached, phi, steps, ws) && u <= k <= |steps| && Gone(ws[u], id)
    ensures Gone(ws[k], id) && For(id, ws[k].scheduled) == For(id, ws[u].scheduled)
    decreases k
  {
    if u < k {
      OnceGone(cached, phi, steps, ws, id, u, k - 1);
      RunKept(cached, phi, steps, ws, k - 1);
      assert StepsTo(phi, steps, ws, k - 1);
      StepOnceGone(ws[k - 1], phi, steps[k - 1], id);
    }
  }

  lemma {:induction false} SubscriptionsGrow<T>(steps: seq<Step<T>>, s: nat, n: nat)
    requires s < n <= |steps| && steps[s].SubscribeStep?
    ensures Subscriptions(steps, s) < Subscriptions(steps, n)
    decreases n
  {
    if s + 1 < n {
      SubscriptionsGrow(steps, s, n - 1);
    }
  }

  /** Exact delivery under every interleaving. The subscription made by step s and removed
      by step u (or not at all, when u is the end) is scheduled with exactly what it is
      owed: no publish missed or doubled between replay and live delivery, nothing else. */
  lemma ExactDelivery<T>(cached: bool, phi: bool, steps: seq<Step<T>>, ws: seq<World<T>>, s: nat, u: nat)
    requires IsRun(cached, phi, steps, ws) && s < u <= |steps| && steps[s].SubscribeStep?
    requires forall i :: s < i < u ==> steps[i] != UnsubscribeStep(EntryOf(steps, s).id)
    requires u < |steps| ==> steps[u] == UnsubscribeStep(EntryOf(steps, s).id)
    ensures For(EntryOf(steps, s).id, ws[|steps|].scheduled) == Owed(cached, steps, s, u)
  {
    WhileSubscribed(cached, phi, steps, ws, s, u);
    if u < |steps| {
      var id := EntryOf(steps, s).id;
      RunKept(cached, phi, steps, ws, u);
      SubscriptionsGrow(steps, s, u);
      assert StepsTo(phi, steps, ws, u);
      StepRemoves(ws[u], phi, id);
      OnceGone(cached, phi, steps, ws, id, u + 1, |steps|);
    }
  }

  // ---- Nothing is lost or doubled on the way to the callbacks ----

  /** How often a delivery occurs in a list, */
  ghost function Times<T>(d: Delivery<T>, ds: seq<Delivery<T>>): nat {
    Sum(x => if x == d then 1 else 0, ds)
  }

  /** ... among the calls not yet launched, */
  ghost function Waiting<T>(d: Delivery<T>, calls: seq<Call<T>>): nat {
    Sum((call: Call<T>) => Times(d, call.batch), calls)
  }

  ghost function Rest<T>(d: Delivery<T>, t: Thread<T>): nat {
    if t.done <= |t.batch| then Times(d, t.batch[t.done..]) else 0
  }

  /** ... in what the threads have still to run, */
  ghost function Remaining<T>(d: Delivery<T>, threads: seq<Thread<T>>): nat {
    Sum((t: Thread<T>) => Rest(d, t), threads)
  }

  /** ... and among what has run. */
  ghost function Ran<T>(d: Delivery<T>, ran: seq<Invocation<T>>): nat {
    Sum((i: Invocation<T>) => if i.what == d then 1 else 0, ran)
  }

  ghost predicate Conserved<T>(w: World<T>, d: Delivery<T>) {
    Times(d, w.scheduled) == Waiting(d, w.calls) + Remaining(d, w.threads) + Ran(d, w.ran)
  }

  lemma TimesConcat<T>(d: Delivery<T>, a: seq<Delivery<T>>, b: seq<Delivery<T>>)
    ensures Times(d, a + b) == Times(d, a) + Times(d, b)
  {
    SumConcat(x => if x == d then 1 else 0, a, b);
  }

  lemma WaitingAppend<T>(d: Delivery<T>, calls: seq<Call<T>>, call: Call<T>)
    ensures Waiting(d, calls + [call]) == Waiting(d, calls) + Times(d, call.batch)
  {
    SumAppend((c: Call<T>) => Times(d, c.batch), calls, call);
  }

  lemma WaitingRemove<T>(d: Delivery<T>, calls: seq<Call<T>>, n: nat)
    requires n < |calls|
    ensures Waiting(d, calls) == Waiting(d, calls[..n] + calls[n + 1..]) + Times(d, calls[n].batch)
  {
    SumRemove((c: Call<T>) => Times(d, c.batch), calls, n);
  }

  lemma RemainingAppend<T>(d: Delivery<T>, threads: seq<Thread<T>>, t: Thread<T>)
    ensures Remaining(d, threads + [t]) == Remaining(d, threads) + Rest(d, t)
  {
    SumAppend((u: Thread<T>) => Rest(d, u), threads, t);
  }

  lemma RemainingReplace<T>(d: Delivery<T>, threads: seq<Thread<T>>, n: nat, t: Thread<T>)
    requires n < |threads|
    ensures Remaining(d, threads) + Rest(d, t) == Remaining(d, threads[n := t]) + Rest(d, threads[n])
  {
    SumReplace((u: Thread<T>) => Rest(d, u), threads, n, t);
  }

  lemma RanAppend<T>(d: Delivery<T>, ran: seq<Invocation<T>>, last: Invocation<T>)
    ensures Ran(d, ran + [last]) == Ran(d, ran) + if last.what == d then 1 else 0
  {
    SumAppend((i: Invocation<T>) => if i.what == d then 1 else 0, ran, last);
  }

  lemma RestAdvance<T>(d: Delivery<T>, t: Thread<T>)
    requires t.done < |t.batch|
    ensures Rest(d, t) == Rest(d, t.(done := t.done + 1)) + if t.batch[t.done] == d then 1 else 0
  {
    assert t.batch[t.done..] == [t.batch[t.done]] + t.batch[t.done + 1..];
    TimesConcat(d, [t.batch[t.done]], t.batch[t.done + 1..]);
    SumOne(x => if x == d then 1 else 0, t.batch[t.done]);
  }

  lemma LaunchConserves<T>(w: World<T>, after: World<T>, phi: bool, n: nat, d: Delivery<T>)
    requires Conserved(w, d) && n < |w.calls| && after == Next(w, phi, LaunchStep(n))
    ensures Conserved(after, d)
  {
    var call := w.calls[n];
    WaitingRemove(d, w.calls, n);
    assert call.batch[0..] == call.batch;
    if call.batch != [] {
      RemainingAppend(d, w.threads, Thread(call.batch, 0, call.publish));
    }
  }

  lemma CallConserves<T>(w: World<T>, after: World<T>, phi: bool, step: Step<T>, d: Delivery<T>)
    requires Conserved(w, d) && (step.SubscribeStep? || step.PublishStep?) && after == Next(w, phi, step)
    ensures Conserved(after, d)
  {
    var batch := if step.SubscribeStep? then Replay(w.core, step.callback) else Snapshot(w.core.subs, step.value);
    WaitingAppend(d, w.calls, Call(batch, step.PublishStep?));
    TimesConcat(d, w.scheduled, batch);
  }

  lemma CallbackConserves<T>(w: World<T>, after: World<T>, phi: bool, n: nat, throws: bool, d: Delivery<T>)
    requires Conserved(w, d) && n < |w.threads| && w.threads[n].done < |w.threads[n].batch|
    requires after == Next(w, phi, CallbackStep(n, throws))
    ensures Conserved(after, d)
  {
    var t := w.threads[n];
    RestAdvance(d, t);
    RemainingReplace(d, w.threads, n, t.(done := t.done + 1));
    RanAppend(d, w.ran, Invocation(t.batch[t.done], throws, n));
  }

  lemma StepConserves<T>(w: World<T>, after: World<T>, phi: bool, step: Step<T>, d: Delivery<T>)
    requires Conserved(w, d) && after == Next(w, phi, step)
    ensures Conserved(after, d)
  {
    match step
    case SubscribeStep(callback) => CallConserves(w, after, phi, step, d);
    case UnsubscribeStep(id) =>
    case PublishStep(value) => CallConserves(w, after, phi, step, d);
    case LaunchStep(n) =>
      if n < |w.calls| {
        LaunchConserves(w, after, phi, n, d);
      }
    case CallbackStep(n, throws) =>
      if n < |w.threads| && w.threads[n].done < |w.threads[n].batch| {
        CallbackConserves(w, after, phi, n, throws, d);
      }
  }

  // ---- Order and audit ----

  /** In each dispatch, callbacks are in subscription order: strictly increasing ids. */
  ghost predicate InOrder<T>(batch: seq<Delivery<T>>) {
    forall i, j :: 0 <= i < j < |batch| ==> batch[i].entry.id < batch[j].entry.id
  }

  ghost predicate AllInOrder<T>(w: World<T>) {
    && (forall i :: 0 <= i < |w.calls| ==> InOrder(w.calls[i].batch))
    && (forall i :: 0 <= i < |w.threads| ==> InOrder(w.threads[i].batch))
  }

  lemma StepInOrder<T>(w: World<T>, after: World<T>, phi: bool, step: Step<T>)
    requires AllInOrder(w) && Kept(w) && after == Next(w, phi, step)
    ensures AllInOrder(after)
  {
    match step
    case SubscribeStep(callback) =>
    case UnsubscribeStep(id) =>
    case PublishStep(value) => assert InOrder(Snapshot(w.core.subs, value));
    case LaunchStep(n) => assert n < |w.calls| ==> InOrder(w.calls[n].batch);
    case CallbackStep(n, throws) =>
      forall i | 0 <= i < |after.threads| ensures InOrder(after.threads[i].batch) {
        assert after.threads[i].batch == w.threads[i].batch;
      }
  }

  /** What one thread has run, in order. */
  function RanBy<T>(n: nat, ran: seq<Invocation<T>>): seq<Delivery<T>> {
    if |ran| == 0 then []
    else
      var before, last := RanBy(n, ran[..|ran| - 1]), ran[|ran| - 1];
      if last.thread == n then before + [last.what] else before
  }

  lemma RanByAppend<T>(n: nat, ran: seq<Invocation<T>>, last: Invocation<T>)
    ensures RanBy(n, ran + [last]) == RanBy(n, ran) + if last.thread == n then [last.what] else []
  {
    assert (ran + [last])[..|ran|] == ran;
  }

  lemma {:induction false} RanByNone<T>(n: nat, ran: seq<Invocation<T>>)
    requires forall i :: 0 <= i < |ran| ==> ran[i].thread != n
    ensures RanBy(n, ran) == []
    decreases |ran|
  {
    if |ran| > 0 {
      RanByNone(n, ran[..|ran| - 1]);
    }
  }

  /** Every thread has run exactly the beginning of its snapshot, throws or not. */
  ghost predicate Sequential<T>(w: World<T>) {
    && (forall i :: 0 <= i < |w.ran| ==> w.ran[i].thread < |w.threads|)
    && (forall n: nat :: n < |w.threads| ==>
          w.threads[n].done <= |w.threads[n].batch| && RanBy(n, w.ran) == w.threads[n].batch[..w.threads[n].done])
  }

  lemma CallbackSequential<T>(w: World<T>, after: World<T>, phi: bool, n: nat, throws: bool)
    requires Sequential(w) && n < |w.threads| && w.threads[n].done < |w.threads[n].batch|
    requires after == Next(w, phi, CallbackStep(n, throws))
    ensures Sequential(after)
  {
    var t := w.threads[n];
    var last := Invocation(t.batch[t.done], throws, n);
    forall m: nat | m < |after.threads|
      ensures after.threads[m].done <= |after.threads[m].batch|
      ensures RanBy(m, after.ran) == after.threads[m].batch[..after.threads[m].done]
    {
      RanByAppend(m, w.ran, last);
      assert t.batch[..t.done + 1] == t.batch[..t.done] + [t.batch[t.done]];
    }
  }

  lemma LaunchSequential<T>(w: World<T>, after: World<T>, phi: bool, n: nat)
    requires Sequential(w) && n < |w.calls| && after == Next(w, phi, LaunchStep(n))
    ensures Sequential(after)
  {
    assert after.ran == w.ran && w.threads <= after.threads;
    RanByNone(|w.threads|, w.ran);
    forall m: nat | m < |after.threads|
      ensures after.threads[m].done <= |after.threads[m].batch|
      ensures RanBy(m, after.ran) == after.threads[m].batch[..after.threads[m].done]
    {
      if m < |w.threads| {
        assert after.threads[m] == w.threads[m];
      }
    }
  }

  lemma StepSequential<T>(w: World<T>, after: World<T>, phi: bool, step: Step<T>)
    requires Sequential(w) && after == Next(w, phi, step)
    ensures Sequential(after)
  {
    match step
    case SubscribeStep(callback) =>
    case UnsubscribeStep(id) =>
    case PublishStep(value) =>
    case LaunchStep(n) =>
      if n < |w.calls| {
        LaunchSequential(w, after, phi, n);
      }
    case CallbackStep(n, throws) =>
      if n < |w.threads| && w.threads[n].done < |w.threads[n].batch| {
        CallbackSequential(w, after, phi, n, throws);
      }
  }

  lemma {:induction false} RunSequential<T>(cached: bool, phi: bool, steps: seq<Step<T>>, ws: seq<World<T>>, k: nat)
    requires IsRun(cached, phi, steps, ws) && k <= |steps|
    ensures Sequential(ws[k])
    decreases k
  {
    if k > 0 {
      RunSequential(cached, phi, steps, ws, k - 1);
      assert StepsTo(phi, steps, ws, k - 1);
      StepSequential(ws[k - 1], ws[k], phi, steps[k - 1]);
    }
  }

  /** The number of publishes among the first n steps. */
  function Publishes<T>(steps: seq<Step<T>>, n: nat): nat
    requires n <= |steps|
  {
    if n == 0 then 0 else Publishes(steps, n - 1) + if steps[n - 1].PublishStep? then 1 else 0
  }

  ghost function Throws<T>(ran: seq<Invocation<T>>): nat {
    Sum((i: Invocation<T>) => if i.throws then 1 else 0, ran)
  }

  ghost function PublishCalls<T>(calls: seq<Call<T>>): nat {
    Sum((call: Call<T>) => if call.publish then 1 else 0, calls)
  }

  ghost function Events(audit: seq<AuditEvent>, e: AuditEvent): nat {
    Sum(x => if x == e then 1 else 0, audit)
  }

  lemma ThrowsAppend<T>(ran: seq<Invocation<T>>, last: Invocation<T>)
    ensures Throws(ran + [last]) == Throws(ran) + if last.throws then 1 else 0
  {
    SumAppend((i: Invocation<T>) => if i.throws then 1 else 0, ran, last);
  }

  lemma PublishCallsAppend<T>(calls: seq<Call<T>>, call: Call<T>)
    ensures PublishCalls(calls + [call]) == PublishCalls(calls) + if call.publish then 1 else 0
  {
    SumAppend((c: Call<T>) => if c.publish then 1 else 0, calls, call);
  }

  lemma PublishCallsRemove<T>(calls: seq<Call<T>>, n: nat)
    requires n < |calls|
    ensures PublishCalls(calls) == PublishCalls(calls[..n] + calls[n + 1..]) + if calls[n].publish then 1 else 0
  {
    SumRemove((c: Call<T>) => if c.publish then 1 else 0, calls, n);
  }

  lemma EventsAppend(audit: seq<AuditEvent>, x: AuditEvent, e: AuditEvent)
    ensures Events(audit + [x], e) == Events(audit, e) + if x == e then 1 else 0
  {
    SumAppend(y => if y == e then 1 else 0, audit, x);
  }

  /** The audit so far: one record per publish that has got past its critical section, on a
      channel that carries protected fields, and one per throw. */
  ghost predicate Audited<T>(w: World<T>, phi: bool, published: nat) {
    && Events(w.audit, PhiDispatch) == (if phi then published - PublishCalls(w.calls) else 0)
    && Events(w.audit, CallbackException) == Throws(w.ran)
  }

  lemma LaunchAudited<T>(w: World<T>, after: World<T>, phi: bool, published: nat, n: nat)
    requires Audited(w, phi, published) && n < |w.calls| && after == Next(w, phi, LaunchStep(n))
    ensures Audited(after, phi, published)
  {
    PublishCallsRemove(w.calls, n);
    EventsAppend(w.audit, PhiDispatch, PhiDispatch);
    EventsAppend(w.audit, PhiDispatch, CallbackException);
  }

  lemma CallbackAudited<T>(w: World<T>, after: World<T>, phi: bool, published: nat, n: nat, throws: bool)
    requires Audited(w, phi, published) && n < |w.threads| && w.threads[n].done < |w.threads[n].batch|
    requires after == Next(w, phi, CallbackStep(n, throws))
    ensures Audited(after, phi, published)
  {
    ThrowsAppend(w.ran, Invocation(w.threads[n].batch[w.threads[n].done], throws, n));
    EventsAppend(w.audit, CallbackException, PhiDispatch);
    EventsAppend(w.audit, CallbackException, CallbackException);
  }

  lemma StepAudited<T>(w: World<T>, after: World<T>, phi: bool, published: nat, step: Step<T>)
    requires Audited(w, phi, published) && after == Next(w, phi, step)
    ensures Audited(after, phi, published + if step.PublishStep? then 1 else 0)
  {
    match step
    case SubscribeStep(callback) => PublishCallsAppend(w.calls, Call(Replay(w.core, callback), false));
    case UnsubscribeStep(id) =>
    case PublishStep(value) => PublishCallsAppend(w.calls, Call(Snapshot(w.core.subs, value), true));
    case LaunchStep(n) =>
      if n < |w.calls| {
        LaunchAudited(w, after, phi, published, n);
      }
    case CallbackStep(n, throws) =>
      if n < |w.threads| && w.threads[n].done < |w.threads[n].batch| {
        CallbackAudited(w, after, phi, published, n, throws);
      }
  }

  lemma {:induction false} RunConserved<T>(cached: bool, phi: bool, steps: seq<Step<T>>, ws: seq<World<T>>, k: nat, d: Delivery<T>)
    requires IsRun(cached, phi, steps, ws) && k <= |steps|
    ensures Conserved(ws[k], d)
    decreases k
  {
    if k > 0 {
      RunConserved(cached, phi, steps, ws, k - 1, d);
      assert StepsTo(phi, steps, ws, k - 1);
      StepConserves(ws[k - 1], ws[k], phi, steps[k - 1], d);
    } else {
      StartConserved(cached, d);
    }
  }

  lemma StartConserved<T>(cached: bool, d: Delivery<T>)
    ensures Conserved(Start(cached), d)
  {
  }

  lemma {:induction false} RunInOrder<T>(cached: bool, phi: bool, steps: seq<Step<T>>, ws: seq<World<T>>, k: nat)
    requires IsRun(cached, phi, steps, ws) && k <= |steps|
    ensures AllInOrder(ws[k])
    decreases k
  {
    if k > 0 {
      RunInOrder(cached, phi, steps, ws, k - 1);
      RunKept(cached, phi, steps, ws, k - 1);
      assert StepsTo(phi, steps, ws, k - 1);
      StepInOrder(ws[k - 1], ws[k], phi, steps[k - 1]);
    }
  }

  lemma {:induction false} RunAudited<T>(cached: bool, phi: bool, steps: seq<Step<T>>, ws: seq<World<T>>, k: nat)
    requires IsRun(cached, phi, steps, ws) && k <= |steps|
    ensures Audited(ws[k], phi, Publishes(steps, k))
    decreases k
  {
    if k > 0 {
      RunAudited(cached, phi, steps, ws, k - 1);
      assert StepsTo(phi, steps, ws, k - 1);
      StepAudited(ws[k - 1], ws[k], phi, Publishes(steps, k - 1), steps[k - 1]);
    }
  }

  // ---- Completed runs ----

  /** Every call has launched its dispatch and every thread has run to its end. */
  ghost predicate Completed<T>(w: World<T>) {
    w.calls == [] && forall i :: 0 <= i < |w.threads| ==> w.threads[i].done == |w.threads[i].batch|
  }

  lemma NothingRemains<T>(d: Delivery<T>, threads: seq<Thread<T>>)
    requires forall i :: 0 <= i < |threads| ==> threads[i].done == |threads[i].batch|
    ensures Remaining(d, threads) == 0
  {
    forall i | 0 <= i < |threads| ensures Rest(d, threads[i]) == 0 {
      assert threads[i].batch[threads[i].done..] == [];
    }
    SumZero((t: Thread<T>) => Rest(d, t), threads);
  }

  /** Exception isolation and audit totals. Whichever callbacks throw, in a completed run
      every delivery has run exactly as often as it was scheduled and every dispatch ran its
      whole snapshot in subscription order; the audit holds one record per publish on a
      channel with protected fields and one per throw. */
  lemma CompletedRun<T>(cached: bool, phi: bool, steps: seq<Step<T>>, ws: seq<World<T>>, d: Delivery<T>)
    requires IsRun(cached, phi, steps, ws) && Completed(ws[|steps|])
    ensures var w := ws[|steps|];
            && Ran(d, w.ran) == Times(d, w.scheduled)
            && (forall n: nat :: n < |w.threads| ==> InOrder(w.threads[n].batch) && RanBy(n, w.ran) == w.threads[n].batch)
            && Events(w.audit, PhiDispatch) == (if phi then Publishes(steps, |steps|) else 0)
            && Events(w.audit, CallbackException) == Throws(w.ran)
  {
    RunConserved(cached, phi, steps, ws, |steps|, d);
    RunInOrder(cached, phi, steps, ws, |steps|);
    RunSequential(cached, phi, steps, ws, |steps|);
    RunAudited(cached, phi, steps, ws, |steps|);
    NothingRemains(d, ws[|steps|].threads);
  }

  lemma {:induction false} TimesFor<T>(d: Delivery<T>, ds: seq<Delivery<T>>)
    ensures Times(d, For(d.entry.id, ds)) == Times(d, ds)
    decreases |ds|
  {
    if |ds| > 0 {
      var before, last := ds[..|ds| - 1], ds[|ds| - 1];
      TimesFor(d, before);
      assert ds == before + [last];
      TimesConcat(d, before, [last]);
      TimesConcat(d, For(d.entry.id, before), [last]);
      SumOne(x => if x == d then 1 else 0, last);
    }
  }

  /** In a completed run the callbacks that ran for a subscription are exactly what it is
      owed: its replay and one delivery per publish while it lasted, each as often as owed. */
  lemma ExactlyRun<T>(cached: bool, phi: bool, steps: seq<Step<T>>, ws: seq<World<T>>, s: nat, u: nat, d: Delivery<T>)
    requires IsRun(cached, phi, steps, ws) && Completed(ws[|steps|])
    requires s < u <= |steps| && steps[s].SubscribeStep?
    requires forall i :: s < i < u ==> steps[i] != UnsubscribeStep(EntryOf(steps, s).id)
    requires u < |steps| ==> steps[u] == UnsubscribeStep(EntryOf(steps, s).id)
    requires d.entry.id == EntryOf(steps, s).id
    ensures Ran(d, ws[|steps|].ran) == Times(d, Owed(cached, steps, s, u))
  {
    ExactDelivery(cached, phi, steps, ws, s, u);
    CompletedRun(cached, phi, steps, ws, d);
    TimesFor(d, ws[|steps|].scheduled);
  }

  // ---- Every run can be completed ----

  ghost function Left<T>(t: Thread<T>): nat {
    if t.done <= |t.batch| then |t.batch| - t.done else 0
  }

  /** The launches and callbacks still to be made. */
  ghost function Work<T>(w: World<T>): nat {
    Sum((call: Call<T>) => 1 + |call.batch|, w.calls) + Sum((t: Thread<T>) => Left(t), w.threads)
  }

  /** The step launches a waiting call or runs a callback of an unfinished thread. */
  predicate Advances<T>(w: World<T>, step: Step<T>) {
    match step
    case LaunchStep(n) => n < |w.calls|
    case CallbackStep(n, _) => n < |w.threads| && w.threads[n].done < |w.threads[n].batch|
    case _ => false
  }

  /** Each such step leaves one less to do. */
  lemma AdvanceLowersWork<T>(w: World<T>, after: World<T>, phi: bool, step: Step<T>)
    requires Advances(w, step) && after == Next(w, phi, step)
    ensures Work(after) + 1 == Work(w)
  {
    match step
    case LaunchStep(n) =>
      var call := w.calls[n];
      SumRemove((c: Call<T>) => 1 + |c.batch|, w.calls, n);
      if call.batch != [] {
        SumAppend((t: Thread<T>) => Left(t), w.threads, Thread(call.batch, 0, call.publish));
      }
    case CallbackStep(n, throws) =>
      var t := w.threads[n];
      SumReplace((u: Thread<T>) => Left(u), w.threads, n, t.(done := t.done + 1));
  }

  /** While a run is not completed there is such a step, whether or not callbacks are to throw. */
  lemma SomeAdvance<T>(w: World<T>, throws: bool) returns (step: Step<T>)
    requires Sequential(w) && !Completed(w)
    ensures Advances(w, step) && (step.CallbackStep? ==> step.throws == throws)
  {
    if w.calls != [] {
      step := LaunchStep(0);
    } else {
      var n :| 0 <= n < |w.threads| && w.threads[n].done != |w.threads[n].batch|;
      var m: nat := n;
      assert w.threads[m].done <= |w.threads[m].batch|;
      step := CallbackStep(m, throws);
    }
  }

  lemma ExtendRun<T>(cached: bool, phi: bool, steps: seq<Step<T>>, ws: seq<World<T>>, step: Step<T>)
    requires IsRun(cached, phi, steps, ws)
    ensures IsRun(cached, phi, steps + [step], ws + [Next(ws[|steps|], phi, step)])
  {
    var longer, worlds := steps + [step], ws + [Next(ws[|steps|], phi, step)];
    forall k: nat | k < |longer| ensures StepsTo(phi, longer, worlds, k) {
      if k < |steps| {
        assert StepsTo(phi, steps, ws, k);
      }
    }
  }

  /** The steps from n on are launches and callbacks, and the callback at step i throws as asked. */
  ghost predicate OnlyAdvances<T>(steps: seq<Step<T>>, n: nat, throws: nat -> bool) {
    forall i: nat :: n <= i < |steps| ==>
      steps[i].LaunchStep? || (steps[i].CallbackStep? && steps[i].throws == throws(i))
  }

  /** Every run is the beginning of a completed one that only launches waiting calls and runs
      callbacks, with any choice of the callbacks that throw. */
  lemma {:induction false} CanComplete<T>(cached: bool, phi: bool, steps: seq<Step<T>>, ws: seq<World<T>>, throws: nat -> bool)
    returns (all: seq<Step<T>>, worlds: seq<World<T>>)
    requires IsRun(cached, phi, steps, ws)
    ensures IsRun(cached, phi, all, worlds) && steps <= all && ws <= worlds
    ensures Completed(worlds[|all|]) && OnlyAdvances(all, |steps|, throws)
    decreases Work(ws[|steps|])
  {
    var w := ws[|steps|];
    if Completed(w) {
      return steps, ws;
    }
    RunSequential(cached, phi, steps, ws, |steps|);
    var step := SomeAdvance(w, throws(|steps|));
    var after := Next(w, phi, step);
    AdvanceLowersWork(w, after, phi, step);
    ExtendRun(cached, phi, steps, ws, step);
    all, worlds := CanComplete(cached, phi, steps + [step], ws + [after], throws);
    assert all[|steps|] == (steps + [step])[|steps|];
  }

  /** Every history of calls is the history of a run. */
  lemma {:induction false} SomeRun<T>(cached: bool, phi: bool, steps: seq<Step<T>>) returns (ws: seq<World<T>>)
    ensures IsRun(cached, phi, steps, ws)
    decreases |steps|
  {
    if |steps| == 0 {
      ws := [Start(cached)];
    } else {
      var n := |steps| - 1;
      var before := SomeRun(cached, phi, steps[..n]);
      ExtendRun(cached, phi, steps[..n], before, steps[n]);
      assert steps[..n] + [steps[n]] == steps;
      ws := before + [Next(before[n], phi, steps[n])];
    }
  }

  // What is owed depends on the calls made, not on launches and callbacks.

  lemma {:induction false} SubscriptionsPrefix<T>(steps: seq<Step<T>>, all: seq<Step<T>>, n: nat)
    requires steps <= all && n <= |steps|
    ensures Subscriptions(all, n) == Subscriptions(steps, n) && LastValue(all, n) == LastValue(steps, n)
    decreases n
  {
    if n > 0 {
      SubscriptionsPrefix(steps, all, n - 1);
      assert all[n - 1] == steps[n - 1];
    }
  }

  lemma {:induction false} LivePrefix<T>(entry: Entry, steps: seq<Step<T>>, all: seq<Step<T>>, s: nat, n: nat)
    requires steps <= all && s <= n <= |steps|
    ensures Live(entry, all, s, n) == Live(entry, steps, s, n)
    decreases n
  {
    if s < n {
      LivePrefix(entry, steps, all, s, n - 1);
      assert all[n - 1] == steps[n - 1];
    }
  }

  lemma {:induction false} LiveQuiet<T>(entry: Entry, all: seq<Step<T>>, s: nat, u: nat, n: nat)
    requires s <= u <= n <= |all| && forall i :: u <= i < n ==> !all[i].PublishStep?
    ensures Live(entry, all, s, n) == Live(entry, all, s, u)
    decreases n
  {
    if u < n {
      LiveQuiet(entry, all, s, u, n - 1);
    }
  }

  lemma OwedInTheEnd<T>(cached: bool, steps: seq<Step<T>>, all: seq<Step<T>>, s: nat, u: nat, v: nat)
    requires steps <= all && s < u <= |steps| && steps[s].SubscribeStep? && u <= v <= |all|
    requires forall i :: u <= i < v ==> !all[i].PublishStep?
    ensures all[s].SubscribeStep? && EntryOf(all, s) == EntryOf(steps, s)
    ensures Owed(cached, all, s, v) == Owed(cached, steps, s, u)
  {
    assert all[s] == steps[s];
    SubscriptionsPrefix(steps, all, s);
    LivePrefix(EntryOf(steps, s), steps, all, s + 1, u);
    LiveQuiet(EntryOf(steps, s), all, s + 1, u, v);
  }

  /** Whatever has been subscribed, removed and published, a run can go on by itself until each
      subscription has been called exactly with what it is owed, whichever callbacks throw. */
  lemma DeliveredInTheEnd<T>(cached: bool, phi: bool, steps: seq<Step<T>>, ws: seq<World<T>>, throws: nat -> bool,
                             s: nat, u: nat, d: Delivery<T>) returns (all: seq<Step<T>>, worlds: seq<World<T>>)
    requires IsRun(cached, phi, steps, ws) && s < u <= |steps| && steps[s].SubscribeStep?
    requires forall i :: s < i < u ==> steps[i] != UnsubscribeStep(EntryOf(steps, s).id)
    requires u < |steps| ==> steps[u] == UnsubscribeStep(EntryOf(steps, s).id)
    requires d.entry.id == EntryOf(steps, s).id
    ensures IsRun(cached, phi, all, worlds) && steps <= all && ws <= worlds
    ensures Completed(worlds[|all|]) && OnlyAdvances(all, |steps|, throws)
    ensures Ran(d, worlds[|all|].ran) == Times(d, Owed(cached, steps, s, u))
  {
    all, worlds := CanComplete(cached, phi, steps, ws, throws);
    var v := if u < |steps| then u else |all|;
    forall i | u <= i < v ensures all[i].LaunchStep? || all[i].CallbackStep? {
      var j: nat := i;
      assert all[j].LaunchStep? || all[j].CallbackStep?;
    }
    OwedInTheEnd(cached, steps, all, s, u, v);
    forall i | s < i < v ensures all[i] != UnsubscribeStep(EntryOf(all, s).id) {
      if i < u {
        assert all[i] == steps[i];
      }
    }
    assert u < |steps| ==> all[u] == steps[u];
    ExactlyRun(cached, phi, all, worlds, s, v, d);
  }

  // ---- Which callbacks throw ----

  /** How many of the first k steps ran a callback that threw. */
  ghost function ThrowingSteps<T>(steps: seq<Step<T>>, ws: seq<World<T>>, k: nat): nat
    requires |ws| == |steps| + 1 && k <= |steps|
  {
    if k == 0 then 0
    else ThrowingSteps(steps, ws, k - 1)
         + if Advances(ws[k - 1], steps[k - 1]) && steps[k - 1].CallbackStep? && steps[k - 1].throws then 1 else 0
  }

  lemma StepThrows<T>(w: World<T>, after: World<T>, phi: bool, step: Step<T>)
    requires after == Next(w, phi, step)
    ensures Throws(after.ran) == Throws(w.ran) + if Advances(w, step) && step.CallbackStep? && step.throws then 1 else 0
  {
    if step.CallbackStep? && Advances(w, step) {
      var t := w.threads[step.thread];
      ThrowsAppend(w.ran, Invocation(t.batch[t.done], step.throws, step.thread));
    }
  }

  lemma StartThrows<T>(cached: bool)
    ensures Throws(Start<T>(cached).ran) == 0
  {
  }

  /** The invocations recorded as throwing are those that threw. */
  lemma {:induction false} RunThrows<T>(cached: bool, phi: bool, steps: seq<Step<T>>, ws: seq<World<T>>, k: nat)
    requires IsRun(cached, phi, steps, ws) && k <= |steps|
    ensures Throws(ws[k].ran) == ThrowingSteps(steps, ws, k)
    decreases k
  {
    if k > 0 {
      RunThrows(cached, phi, steps, ws, k - 1);
      assert StepsTo(phi, steps, ws, k - 1);
      StepThrows(ws[k - 1], ws[k], phi, steps[k - 1]);
    } else {
      StartThrows<T>(cached);
    }
  }
}
