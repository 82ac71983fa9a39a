/** Wire numbers frozen across generations of a schema. A generation reads the live and the
    retired numbers, carries numbers over by rename and then by identity, numbers the new
    fields, retires what is gone and writes the sidecar again. */
module WireNumbers {
  import opened Sidecar
  import opened Wrappers

  /** A field as the freeze sees it: the identity of its name, and the marker it carries. */
  datatype Decl = Decl(key: string, renamedFrom: Option<string>)

  /** The live name whose number the field inherits: the one it is renamed from if that is
      live, else its own if that is. */
  function Source(d: Decl, live: set<string>): (k: Option<string>)
    ensures k.Some? ==> k.value in live
  {
    if d.renamedFrom.Some? && d.renamedFrom.value in live then d.renamedFrom
    else if d.key in live then Some(d.key)
    else None
  }

  ghost predicate IsMax(m: nat, s: set<nat>) {
    m in s && forall x <- s :: x <= m
  }

  lemma {:induction false} MaxExists(s: set<nat>) returns (m: nat)
    requires s != {}
    ensures IsMax(m, s)
    decreases s
  {
    var x :| x in s;
    m := x;
    if s != {x} {
      var other := MaxExists(s - {x});
      m := if x <= other then other else x;
      assert forall y <- s :: y == x || y in s - {x};
    }
  }

  lemma SomeMax(s: set<nat>)
    requires s != {}
    ensures exists m :: IsMax(m, s)
  {
    var m := MaxExists(s);
  }

  /** The greatest member, 0 for the empty set. */
  ghost function MaxOf(s: set<nat>): (m: nat)
    ensures s != {} ==> IsMax(m, s)
  {
    if s == {} then 0
    else
      SomeMax(s);
      var m: nat :| IsMax(m, s);
      m
  }

  ghost function Taken(r: Registry): set<nat> {
    r.numbers.Values + r.reserved
  }

  /** The first number never used by a live or a retired field. */
  ghost function FirstFree(r: Registry): nat {
    MaxOf(Taken(r)) + 1
  }

  /** How many of the first n fields are new. */
  function NewFields(ds: seq<Decl>, live: set<string>, n: nat): nat
    requires n <= |ds|
  {
    if n == 0 then 0 else NewFields(ds, live, n - 1) + if Source(ds[n - 1], live).None? then 1 else 0
  }

  /** The number of field i in the new generation. */
  ghost function NumberOf(r: Registry, ds: seq<Decl>, i: nat): nat
    requires i < |ds|
  {
    match Source(ds[i], r.numbers.Keys)
    case Some(k) => r.numbers[k]
    case None => FirstFree(r) + NewFields(ds, r.numbers.Keys, i)
  }

  /** The sidecar entries of the first n fields; of two fields with one identity the later
      one is recorded. */
  ghost function NewNumbers(r: Registry, ds: seq<Decl>, n: nat): map<string, nat>
    requires n <= |ds|
  {
    if n == 0 then map[] else NewNumbers(r, ds, n - 1)[ds[n - 1].key := NumberOf(r, ds, n - 1)]
  }

  ghost predicate Consumed(ds: seq<Decl>, live: set<string>, k: string) {
    exists i :: 0 <= i < |ds| && Source(ds[i], live) == Some(k)
  }

  ghost function Retired(r: Registry, ds: seq<Decl>): set<nat> {
    set k | k in r.numbers && !Consumed(ds, r.numbers.Keys, k) :: r.numbers[k]
  }

  ghost predicate HitsReserved(r: Registry, ds: seq<Decl>) {
    exists i :: 0 <= i < |ds| && NumberOf(r, ds, i) in r.reserved
  }

  /** One generation; None is the reserved-number error, which leaves the sidecar alone. */
  ghost function Freeze(r: Registry, ds: seq<Decl>): Option<Registry> {
    if HitsReserved(r, ds) then None
    else Some(Registry(NewNumbers(r, ds, |ds|), r.reserved + Retired(r, ds)))
  }

  // ---- What a caller can check before a generation ----

  ghost predicate DistinctKeys(ds: seq<Decl>) {
    forall i, j :: 0 <= i < j < |ds| ==> ds[i].key != ds[j].key
  }

  /** No two fields inherit from one live name. */
  ghost predicate DistinctSources(ds: seq<Decl>, live: set<string>) {
    forall i, j :: 0 <= i < j < |ds| && Source(ds[i], live).Some? ==> Source(ds[i], live) != Source(ds[j], live)
  }

  ghost predicate StepOk(ds: seq<Decl>, live: set<string>) {
    DistinctKeys(ds) && DistinctSources(ds, live)
  }

  /** The same as a condition on the schema alone. */
  ghost predicate WellFormed(ds: seq<Decl>) {
    && DistinctKeys(ds)
    && (forall i, j :: 0 <= i < j < |ds| && ds[i].renamedFrom.Some? ==> ds[i].renamedFrom != ds[j].renamedFrom)
    && (forall i, j :: 0 <= i < |ds| && 0 <= j < |ds| && i != j && ds[i].renamedFrom.Some? ==>
          ds[i].renamedFrom.value != ds[j].key)
  }

  lemma WellFormedIsOk(ds: seq<Decl>, live: set<string>)
    requires WellFormed(ds)
    ensures StepOk(ds, live)
  {
    forall i, j | 0 <= i < j < |ds| && Source(ds[i], live).Some?
      ensures Source(ds[i], live) != Source(ds[j], live)
    {
      assert ds[i].key != ds[j].key;
    }
  }

  // ---- Numbers of one generation ----

  /** Live numbers are distinct and none is retired. */
  ghost predicate Injective(numbers: map<string, nat>) {
    forall k, l :: k in numbers && l in numbers && numbers[k] == numbers[l] ==> k == l
  }

  ghost predicate Consistent(r: Registry) {
    Injective(r.numbers) && r.numbers.Values !! r.reserved
  }

  lemma {:induction false} NewFieldsMonotone(ds: seq<Decl>, live: set<string>, i: nat, j: nat)
    requires i <= j <= |ds|
    ensures NewFields(ds, live, i) <= NewFields(ds, live, j)
    ensures i < j && Source(ds[i], live).None? ==> NewFields(ds, live, i) < NewFields(ds, live, j)
    decreases j
  {
    if i < j {
      NewFieldsMonotone(ds, live, i, j - 1);
    }
  }

  lemma NumberRange(r: Registry, ds: seq<Decl>, i: nat)
    requires i < |ds|
    ensures Source(ds[i], r.numbers.Keys).Some? ==>
              NumberOf(r, ds, i) in r.numbers.Values && NumberOf(r, ds, i) < FirstFree(r)
    ensures Source(ds[i], r.numbers.Keys).None? ==>
              FirstFree(r) <= NumberOf(r, ds, i) < FirstFree(r) + NewFields(ds, r.numbers.Keys, |ds|)
  {
    match Source(ds[i], r.numbers.Keys)
    case Some(k) =>
      assert r.numbers[k] in Taken(r);
    case None =>
      NewFieldsMonotone(ds, r.numbers.Keys, i, |ds|);
  }

  /** The reserved-number guard never fires while no live number is retired. */
  lemma GuardUnreachable(r: Registry, ds: seq<Decl>)
    requires r.numbers.Values !! r.reserved
    ensures !HitsReserved(r, ds) && Freeze(r, ds).Some?
  {
    forall i | 0 <= i < |ds| ensures NumberOf(r, ds, i) !in r.reserved {
      NumberRange(r, ds, i);
      assert forall x <- r.reserved :: x in Taken(r);
    }
  }

  ghost predicate DistinctNumbers(r: Registry, ds: seq<Decl>) {
    forall i, j :: 0 <= i < j < |ds| ==> NumberOf(r, ds, i) != NumberOf(r, ds, j)
  }

  /** Exactly when the fields of a generation get distinct numbers. */
  lemma DistinctNumbersIff(r: Registry, ds: seq<Decl>)
    requires Consistent(r)
    ensures DistinctNumbers(r, ds) <==> DistinctSources(ds, r.numbers.Keys)
  {
    var live := r.numbers.Keys;
    if DistinctSources(ds, live) {
      forall i, j | 0 <= i < j < |ds| ensures NumberOf(r, ds, i) != NumberOf(r, ds, j) {
        NumberRange(r, ds, i);
        NumberRange(r, ds, j);
        NewFieldsMonotone(ds, live, i, j);
      }
    }
    if DistinctNumbers(r, ds) {
      forall i, j | 0 <= i < j < |ds| && Source(ds[i], live).Some?
        ensures Source(ds[i], live) != Source(ds[j], live)
      {
        assert NumberOf(r, ds, i) != NumberOf(r, ds, j);
      }
    }
  }

  /** Field i put its number under k. */
  ghost predicate Recorder(r: Registry, ds: seq<Decl>, n: nat, k: string, i: nat)
    requires n <= |ds|
  {
    i < n && ds[i].key == k && k in NewNumbers(r, ds, n) && NewNumbers(r, ds, n)[k] == NumberOf(r, ds, i)
  }

  lemma {:induction false} FindRecorder(r: Registry, ds: seq<Decl>, n: nat, k: string) returns (i: nat)
    requires n <= |ds| && k in NewNumbers(r, ds, n)
    ensures Recorder(r, ds, n, k, i)
    decreases n
  {
    if k == ds[n - 1].key {
      i := n - 1;
    } else {
      i := FindRecorder(r, ds, n - 1, k);
    }
  }

  lemma {:induction false} KeyRecorded(r: Registry, ds: seq<Decl>, n: nat, i: nat)
    requires i < n <= |ds|
    ensures ds[i].key in NewNumbers(r, ds, n)
    decreases n
  {
    if i < n - 1 {
      KeyRecorded(r, ds, n - 1, i);
    }
  }

  /** The sidecar records the number of every field. */
  ghost predicate AllRecorded(r: Registry, ds: seq<Decl>) {
    forall i :: 0 <= i < |ds| ==>
      ds[i].key in NewNumbers(r, ds, |ds|) && NewNumbers(r, ds, |ds|)[ds[i].key] == NumberOf(r, ds, i)
  }

  /** Of the fields with one identity the last one is recorded. */
  lemma {:induction false} LastIsRecorded(r: Registry, ds: seq<Decl>, i: nat, n: nat)
    requires i < n <= |ds| && forall j :: i < j < n ==> ds[j].key != ds[i].key
    ensures ds[i].key in NewNumbers(r, ds, n) && NewNumbers(r, ds, n)[ds[i].key] == NumberOf(r, ds, i)
    decreases n
  {
    if i < n - 1 {
      LastIsRecorded(r, ds, i, n - 1);
    }
  }

  lemma RecordedWhenDistinct(r: Registry, ds: seq<Decl>)
    requires DistinctKeys(ds)
    ensures AllRecorded(r, ds)
  {
    forall i | 0 <= i < |ds|
      ensures ds[i].key in NewNumbers(r, ds, |ds|) && NewNumbers(r, ds, |ds|)[ds[i].key] == NumberOf(r, ds, i)
    {
      KeyRecorded(r, ds, |ds|, i);
      var j := FindRecorder(r, ds, |ds|, ds[i].key);
      assert i == j;
    }
  }

  /** Exactly when a generation is safe: the fields get distinct numbers and the sidecar
      remembers them all if and only if no two fields share an identity or a source. */
  lemma SafeGenerationIff(r: Registry, ds: seq<Decl>)
    requires Consistent(r)
    ensures DistinctNumbers(r, ds) && AllRecorded(r, ds) <==> StepOk(ds, r.numbers.Keys)
  {
    DistinctNumbersIff(r, ds);
    if DistinctKeys(ds) {
      RecordedWhenDistinct(r, ds);
    }
    if DistinctNumbers(r, ds) && AllRecorded(r, ds) {
      forall i, j | 0 <= i < j < |ds| ensures ds[i].key != ds[j].key {
        assert NumberOf(r, ds, i) != NumberOf(r, ds, j);
      }
    }
  }

  // ---- One step of a run ----

  /** Live and retired numbers are disjoint and together exactly 1..n. */
  ghost predicate Partition(r: Registry, n: nat) {
    && Consistent(r)
    && (forall x: nat :: x in Taken(r) <==> 1 <= x <= n)
  }

  lemma FirstFreeOfPartition(r: Registry, n: nat)
    requires Partition(r, n)
    ensures FirstFree(r) == n + 1
  {
    if n > 0 {
      assert n in Taken(r);
    }
  }

  lemma {:induction false} FreshNumberUsed(ds: seq<Decl>, live: set<string>, n: nat, x: nat) returns (i: nat)
    requires n <= |ds| && x < NewFields(ds, live, n)
    ensures i < n && Source(ds[i], live).None? && NewFields(ds, live, i) == x
    decreases n
  {
    if x < NewFields(ds, live, n - 1) {
      i := FreshNumberUsed(ds, live, n - 1, x);
    } else {
      i := n - 1;
    }
  }

  /** The keys of a generation. */
  function Keys(ds: seq<Decl>): set<string> {
    set d <- ds :: d.key
  }

  lemma NewKeys(r: Registry, ds: seq<Decl>)
    ensures NewNumbers(r, ds, |ds|).Keys == Keys(ds)
  {
    var numbers := NewNumbers(r, ds, |ds|);
    forall k | k in numbers ensures k in Keys(ds) {
      var i := FindRecorder(r, ds, |ds|, k);
      assert ds[i] in ds;
    }
    forall k | k in Keys(ds) ensures k in numbers {
      var d :| d in ds && d.key == k;
      var i :| 0 <= i < |ds| && ds[i] == d;
      KeyRecorded(r, ds, |ds|, i);
    }
  }

  /** A live number in the next generation is the number of one of its fields. */
  lemma LiveNumber(r: Registry, ds: seq<Decl>, x: nat) returns (i: nat)
    requires x in NewNumbers(r, ds, |ds|).Values
    ensures i < |ds| && NumberOf(r, ds, i) == x
  {
    var k :| k in NewNumbers(r, ds, |ds|) && NewNumbers(r, ds, |ds|)[k] == x;
    i := FindRecorder(r, ds, |ds|, k);
  }

  lemma StepConsistent(r: Registry, ds: seq<Decl>)
    requires Consistent(r) && StepOk(ds, r.numbers.Keys)
    ensures Freeze(r, ds).Some? && Consistent(Freeze(r, ds).value)
  {
    GuardUnreachable(r, ds);
    DistinctNumbersIff(r, ds);
    var next := Freeze(r, ds).value;
    forall k, l | k in next.numbers && l in next.numbers && next.numbers[k] == next.numbers[l] ensures k == l {
      var i := FindRecorder(r, ds, |ds|, k);
      var j := FindRecorder(r, ds, |ds|, l);
    }
    forall x | x in next.numbers.Values ensures x !in next.reserved {
      var i := LiveNumber(r, ds, x);
      NotRetired(r, ds, i);
      assert !(NumberOf(r, ds, i) in r.reserved);
    }
  }

  lemma NotRetired(r: Registry, ds: seq<Decl>, i: nat)
    requires Consistent(r) && i < |ds|
    ensures NumberOf(r, ds, i) !in Retired(r, ds)
  {
    NumberRange(r, ds, i);
    var live := r.numbers.Keys;
    forall k | k in r.numbers && r.numbers[k] == NumberOf(r, ds, i) ensures Consumed(ds, live, k) {
      assert r.numbers[k] in Taken(r);
      assert Source(ds[i], live) == Some(k);
    }
  }

  lemma StepPartition(r: Registry, ds: seq<Decl>, n: nat)
    requires Partition(r, n) && StepOk(ds, r.numbers.Keys)
    ensures Freeze(r, ds).Some?
    ensures Partition(Freeze(r, ds).value, n + NewFields(ds, r.numbers.Keys, |ds|))
  {
    StepConsistent(r, ds);
    FirstFreeOfPartition(r, n);
    RecordedWhenDistinct(r, ds);
    var next, m := Freeze(r, ds).value, n + NewFields(ds, r.numbers.Keys, |ds|);
    forall x: nat | 1 <= x <= m ensures x in Taken(next) {
      StillTaken(r, ds, n, x);
    }
    forall x: nat | x in Taken(next) ensures 1 <= x <= m {
      if x in next.numbers.Values {
        var i := LiveNumber(r, ds, x);
        NumberRange(r, ds, i);
        assert x in r.numbers.Values ==> x in Taken(r);
      } else {
        assert x in Taken(r);
      }
    }
  }

  lemma StillTaken(r: Registry, ds: seq<Decl>, n: nat, x: nat)
    requires Partition(r, n) && AllRecorded(r, ds) && FirstFree(r) == n + 1 && Freeze(r, ds).Some?
    requires 1 <= x <= n + NewFields(ds, r.numbers.Keys, |ds|)
    ensures x in Taken(Freeze(r, ds).value)
  {
    var next := Freeze(r, ds).value;
    if x > n {
      var i := FreshNumberUsed(ds, r.numbers.Keys, |ds|, x - n - 1);
      assert next.numbers[ds[i].key] == x;
    } else {
      assert x in Taken(r);
      if x in r.numbers.Values {
        var k :| k in r.numbers && r.numbers[k] == x;
        if Consumed(ds, r.numbers.Keys, k) {
          var i :| 0 <= i < |ds| && Source(ds[i], r.numbers.Keys) == Some(k);
          assert next.numbers[ds[i].key] == x;
        } else {
          assert x in Retired(r, ds);
        }
      }
    }
  }

  /** A number passes from one live name to another exactly along a source. */
  lemma NumberPasses(r: Registry, ds: seq<Decl>, a: string, b: string)
    requires Consistent(r) && StepOk(ds, r.numbers.Keys) && Freeze(r, ds).Some?
    requires a in r.numbers && b in Keys(ds)
    ensures b in Freeze(r, ds).value.numbers
    ensures r.numbers[a] == Freeze(r, ds).value.numbers[b] <==> Heir(ds, r.numbers.Keys, a) == Some(b)
  {
    NewKeys(r, ds);
    var live := r.numbers.Keys;
    var i := FindRecorder(r, ds, |ds|, b);
    NumberRange(r, ds, i);
    assert r.numbers[a] in Taken(r);
    if Consumed(ds, live, a) {
      var j :| 0 <= j < |ds| && Source(ds[j], live) == Some(a) && Heir(ds, live, a) == Some(ds[j].key);
      if ds[j].key == b {
        assert i == j;
      }
      if r.numbers[a] == NumberOf(r, ds, i) {
        assert Source(ds[i], live) == Some(a);
        assert i == j;
      }
    } else {
      assert Source(ds[i], live) != Some(a);
    }
  }

  /** The name that carries on a live name in the next generation, if any does. This is
      about names only; no number is involved. */
  ghost function Heir(ds: seq<Decl>, live: set<string>, a: string): Option<string> {
    if Consumed(ds, live, a) then
      var i :| 0 <= i < |ds| && Source(ds[i], live) == Some(a);
      Some(ds[i].key)
    else None
  }

  // ---- Every run from an empty sidecar ----

  /** The registry after the first k generations. */
  ghost function StateAt(gens: seq<seq<Decl>>, k: nat): Option<Registry>
    requires k <= |gens|
  {
    if k == 0 then Some(EMPTY)
    else
      match StateAt(gens, k - 1)
      case None => None
      case Some(r) => Freeze(r, gens[k - 1])
  }

  /** The names live after k generations. */
  function LiveKeys(gens: seq<seq<Decl>>, k: nat): set<string>
    requires k <= |gens|
  {
    if k == 0 then {} else Keys(gens[k - 1])
  }

  ghost predicate GenerationOk(gens: seq<seq<Decl>>, k: nat)
    requires k < |gens|
  {
    StepOk(gens[k], LiveKeys(gens, k))
  }

  ghost predicate RunOk(gens: seq<seq<Decl>>) {
    forall k: nat :: k < |gens| ==> GenerationOk(gens, k)
  }

  /** How many numbers have been given out after k generations. */
  function HighWater(gens: seq<seq<Decl>>, k: nat): nat
    requires k <= |gens|
  {
    if k == 0 then 0
    else HighWater(gens, k - 1) + NewFields(gens[k - 1], LiveKeys(gens, k - 1), |gens[k - 1]|)
  }

  /** Number conservation: after any run the live and the retired numbers are disjoint and
      together exactly 1..N, N only grows, and the reserved-number error never occurs. */
  lemma {:induction false} NumbersConserved(gens: seq<seq<Decl>>, k: nat)
    requires RunOk(gens) && k <= |gens|
    ensures StateAt(gens, k).Some?
    ensures Partition(StateAt(gens, k).value, HighWater(gens, k))
    ensures StateAt(gens, k).value.numbers.Keys == LiveKeys(gens, k)
    ensures k > 0 ==> HighWater(gens, k - 1) <= HighWater(gens, k)
    decreases k
  {
    if k > 0 {
      NumbersConserved(gens, k - 1);
      assert GenerationOk(gens, k - 1);
      StepPartition(StateAt(gens, k - 1).value, gens[k - 1], HighWater(gens, k - 1));
      NewKeys(StateAt(gens, k - 1).value, gens[k - 1]);
    }
  }

  /** Following a name of generation i through keeps and renames to generation j. */
  ghost function Lineage(gens: seq<seq<Decl>>, i: nat, j: nat, a: string): Option<string>
    requires i <= j <= |gens|
    decreases j
  {
    if i == j then Some(a)
    else
      match Lineage(gens, i, j - 1, a)
      case None => None
      case Some(k) => Heir(gens[j - 1], LiveKeys(gens, j - 1), k)
  }

  lemma {:induction false} LineageIsLive(gens: seq<seq<Decl>>, i: nat, j: nat, a: string)
    requires i <= j <= |gens| && a in LiveKeys(gens, i)
    ensures Lineage(gens, i, j, a).Some? ==> Lineage(gens, i, j, a).value in LiveKeys(gens, j)
    decreases j
  {
    if i < j {
      LineageIsLive(gens, i, j - 1, a);
    }
  }

  lemma LiveAt(gens: seq<seq<Decl>>, k: nat)
    requires RunOk(gens) && k <= |gens|
    ensures StateAt(gens, k).Some? && StateAt(gens, k).value.numbers.Keys == LiveKeys(gens, k)
  {
    NumbersConserved(gens, k);
  }

  lemma ConsistentAt(gens: seq<seq<Decl>>, k: nat)
    requires RunOk(gens) && k <= |gens|
    ensures StateAt(gens, k).Some? && Consistent(StateAt(gens, k).value)
  {
    NumbersConserved(gens, k);
  }

  lemma ReservedGrows(r: Registry, ds: seq<Decl>)
    requires Freeze(r, ds).Some?
    ensures r.reserved <= Freeze(r, ds).value.reserved
  {
  }

  /** A retired number is never live again. */
  lemma {:induction false} RetiredStaysRetired(gens: seq<seq<Decl>>, i: nat, j: nat, x: nat)
    requires RunOk(gens) && i <= j <= |gens|
    requires StateAt(gens, i).Some? && x in StateAt(gens, i).value.reserved
    ensures StateAt(gens, j).Some? && x in StateAt(gens, j).value.reserved
    ensures x !in StateAt(gens, j).value.numbers.Values
    decreases j
  {
    ConsistentAt(gens, j);
    if i < j {
      RetiredStaysRetired(gens, i, j - 1, x);
      ReservedGrows(StateAt(gens, j - 1).value, gens[j - 1]);
    }
  }

  lemma {:induction false} HighWaterGrows(gens: seq<seq<Decl>>, i: nat, j: nat)
    requires i <= j <= |gens|
    ensures HighWater(gens, i) <= HighWater(gens, j)
    decreases j
  {
    if i < j {
      HighWaterGrows(gens, i, j - 1);
    }
  }

  /** A number once given out is live or retired ever after. */
  lemma TakenForever(gens: seq<seq<Decl>>, i: nat, j: nat, x: nat)
    requires RunOk(gens) && i <= j <= |gens|
    requires StateAt(gens, i).Some? && x in Taken(StateAt(gens, i).value)
    ensures StateAt(gens, j).Some? && x in Taken(StateAt(gens, j).value)
  {
    NumbersConserved(gens, i);
    NumbersConserved(gens, j);
    HighWaterGrows(gens, i, j);
  }

  lemma NumberPassesAt(gens: seq<seq<Decl>>, j: nat, k: string, b: string)
    requires RunOk(gens) && 0 < j <= |gens|
    requires k in LiveKeys(gens, j - 1) && b in LiveKeys(gens, j)
    ensures StateAt(gens, j - 1).Some? && k in StateAt(gens, j - 1).value.numbers
    ensures StateAt(gens, j).Some? && b in StateAt(gens, j).value.numbers
    ensures StateAt(gens, j - 1).value.numbers[k] == StateAt(gens, j).value.numbers[b]
       <==> Heir(gens[j - 1], LiveKeys(gens, j - 1), k) == Some(b)
  {
    LiveAt(gens, j - 1);
    ConsistentAt(gens, j - 1);
    var r, ds := StateAt(gens, j - 1).value, gens[j - 1];
    assert StepOk(ds, r.numbers.Keys) by { assert GenerationOk(gens, j - 1); }
    assert StateAt(gens, j) == Freeze(r, ds) && Freeze(r, ds).Some? by { LiveAt(gens, j); }
    NumberPasses(r, ds, k, b);
  }

  /** The number of a in generation i is the number of b in generation j. */
  ghost predicate SameNumber(gens: seq<seq<Decl>>, i: nat, j: nat, a: string, b: string)
    requires i <= |gens| && j <= |gens|
  {
    && StateAt(gens, i).Some? && a in StateAt(gens, i).value.numbers
    && StateAt(gens, j).Some? && b in StateAt(gens, j).value.numbers
    && StateAt(gens, i).value.numbers[a] == StateAt(gens, j).value.numbers[b]
  }

  /** Wire compatibility over every run: a number live in generation i and in generation j
      belongs to fields linked by an unbroken chain of keeps and renames, and every such
      chain keeps its number. */
  lemma {:induction false} WireCompatibility(gens: seq<seq<Decl>>, i: nat, j: nat, a: string, b: string)
    requires RunOk(gens) && i <= j <= |gens|
    requires a in LiveKeys(gens, i) && b in LiveKeys(gens, j)
    ensures SameNumber(gens, i, j, a, b) <==> Lineage(gens, i, j, a) == Some(b)
    decreases j, 0
  {
    if i < j {
      LineageIsLive(gens, i, j - 1, a);
      match Lineage(gens, i, j - 1, a) {
        case Some(k) =>
          WireCompatibility(gens, i, j - 1, a, k);
          NumberFollows(gens, i, j, a, k, b);
        case None =>
          LineageEnded(gens, i, j - 1, a);
          NumberLost(gens, i, j, a, b);
      }
    } else {
      ConsistentAt(gens, i);
      LiveAt(gens, i);
    }
  }

  lemma NumberFollows(gens: seq<seq<Decl>>, i: nat, j: nat, a: string, k: string, b: string)
    requires RunOk(gens) && i < j <= |gens| && SameNumber(gens, i, j - 1, a, k)
    requires k in LiveKeys(gens, j - 1) && b in LiveKeys(gens, j)
    ensures SameNumber(gens, i, j, a, b) <==> Heir(gens[j - 1], LiveKeys(gens, j - 1), k) == Some(b)
  {
    NumberPassesAt(gens, j, k, b);
  }

  lemma NumberLost(gens: seq<seq<Decl>>, i: nat, j: nat, a: string, b: string)
    requires RunOk(gens) && i < j <= |gens|
    requires StateAt(gens, i).Some? && a in StateAt(gens, i).value.numbers
    requires StateAt(gens, j - 1).Some? && StateAt(gens, i).value.numbers[a] in StateAt(gens, j - 1).value.reserved
    ensures !SameNumber(gens, i, j, a, b)
  {
    RetiredStaysRetired(gens, j - 1, j, StateAt(gens, i).value.numbers[a]);
  }

  /** A number whose lineage has ended is retired. */
  lemma LineageEnded(gens: seq<seq<Decl>>, i: nat, j: nat, a: string)
    requires RunOk(gens) && i <= j <= |gens| && a in LiveKeys(gens, i)
    requires Lineage(gens, i, j, a).None?
    ensures StateAt(gens, i).Some? && a in StateAt(gens, i).value.numbers
    ensures StateAt(gens, j).Some? && StateAt(gens, i).value.numbers[a] in StateAt(gens, j).value.reserved
    decreases j, 1
  {
    LiveAt(gens, i);
    LiveAt(gens, j);
    var x := StateAt(gens, i).value.numbers[a];
    assert x in Taken(StateAt(gens, i).value);
    TakenForever(gens, i, j, x);
    forall b | b in LiveKeys(gens, j) ensures StateAt(gens, j).value.numbers[b] != x {
      WireCompatibility(gens, i, j, a, b);
    }
  }

  /** Every generation's fields have pairwise distinct numbers, all of them in the sidecar. */
  lemma NumbersDistinct(gens: seq<seq<Decl>>, k: nat)
    requires RunOk(gens) && k < |gens|
    ensures StateAt(gens, k).Some?
    ensures DistinctNumbers(StateAt(gens, k).value, gens[k]) && AllRecorded(StateAt(gens, k).value, gens[k])
  {
    NumbersConserved(gens, k);
    assert GenerationOk(gens, k);
    SafeGenerationIff(StateAt(gens, k).value, gens[k]);
  }

  // ---- Regenerating the same schema ----

  lemma RegenerationNumbers(r: Registry, ds: seq<Decl>)
    requires WellFormed(ds) && Freeze(r, ds).Some?
    ensures forall i :: 0 <= i < |ds| ==>
      && Source(ds[i], Freeze(r, ds).value.numbers.Keys) == Some(ds[i].key)
      && NumberOf(Freeze(r, ds).value, ds, i) == NumberOf(r, ds, i)
  {
    RecordedWhenDistinct(r, ds);
    NewKeys(r, ds);
    var next := Freeze(r, ds).value;
    forall i | 0 <= i < |ds|
      ensures Source(ds[i], next.numbers.Keys) == Some(ds[i].key) && NumberOf(next, ds, i) == NumberOf(r, ds, i)
    {
      SourceIsOwnKey(ds, i);
    }
  }

  lemma RegenerationRetiresNothing(r: Registry, ds: seq<Decl>)
    requires WellFormed(ds) && Freeze(r, ds).Some?
    ensures Retired(Freeze(r, ds).value, ds) == {}
  {
    RegenerationNumbers(r, ds);
    var next := Freeze(r, ds).value;
    forall k | k in next.numbers ensures Consumed(ds, next.numbers.Keys, k) {
      var i := FindRecorder(r, ds, |ds|, k);
      assert Source(ds[i], next.numbers.Keys) == Some(k);
    }
  }

  /** Freezing a well-formed schema again gives every field its number again and the same
      registry. */
  lemma RegenerationStable(r: Registry, ds: seq<Decl>)
    requires Consistent(r) && WellFormed(ds)
    ensures Freeze(r, ds).Some?
    ensures Freeze(Freeze(r, ds).value, ds) == Freeze(r, ds)
    ensures forall i :: 0 <= i < |ds| ==> NumberOf(Freeze(r, ds).value, ds, i) == NumberOf(r, ds, i)
  {
    WellFormedIsOk(ds, r.numbers.Keys);
    StepConsistent(r, ds);
    GuardUnreachable(Freeze(r, ds).value, ds);
    RegenerationNumbers(r, ds);
    RegenerationFixed(r, ds, Freeze(r, ds).value);
  }

  lemma RegenerationFixed(r: Registry, ds: seq<Decl>, next: Registry)
    requires WellFormed(ds) && Freeze(r, ds) == Some(next) && !HitsReserved(next, ds)
    ensures Freeze(next, ds) == Some(next)
  {
    RegenerationNumbers(r, ds);
    SameEntries(r, next, ds, |ds|);
    RegenerationRetiresNothing(r, ds);
    assert next.reserved + {} == next.reserved;
  }

  lemma SourceIsOwnKey(ds: seq<Decl>, i: nat)
    requires WellFormed(ds) && i < |ds|
    ensures Source(ds[i], Keys(ds)) == Some(ds[i].key)
  {
    assert ds[i] in ds;
    if ds[i].renamedFrom.Some? && ds[i].renamedFrom.value in Keys(ds) {
      var d :| d in ds && d.key == ds[i].renamedFrom.value;
      var j :| 0 <= j < |ds| && ds[j] == d;
      assert i == j;
    }
  }

  lemma {:induction false} SameEntries(r: Registry, next: Registry, ds: seq<Decl>, n: nat)
    requires n <= |ds|
    requires forall i :: 0 <= i < |ds| ==> NumberOf(next, ds, i) == NumberOf(r, ds, i)
    ensures NewNumbers(next, ds, n) == NewNumbers(r, ds, n)
    decreases n
  {
    if n > 0 {
      SameEntries(r, next, ds, n - 1);
    }
  }
}

/** The freeze as it is done: over the declared variables and the sidecar file, in place. */
module FieldMap {
  import opened Characters
  import opened Sidecar
  import opened WireNumbers
  import opened Wrappers

  // ---- Identities ----

  predicate StartsWith(s: string, prefix: string) {
    |prefix| <= |s| && s[..|prefix|] == prefix
  }

  /** Hidden fields are known by role under their present and their legacy spellings; every
      other field by its own name. */
  function Identity(name: string): string {
    if name == "HARPIA_ID" then "ID"
    else if name == "HARPIA_STATUS" then "STATUS"
    else if name == "HARPIA_ERROR" then "ERROR"
    else if name == "HARPIA_ORIGINATOR" then "ORIGINATOR"
    else if StartsWith(name, "ID_") then "ID"
    else if StartsWith(name, "STATUS_") then "STATUS"
    else if StartsWith(name, "ERROR_") then "ERROR"
    else if StartsWith(name, "ORIGINATOR") then "ORIGINATOR"
    else name
  }

  lemma IdentityIsIdentifier(name: string)
    requires IsIdentifier(name)
    ensures IsIdentifier(Identity(name))
  {
  }

  // ---- What identities are, in terms of names ----

  const ROLES := ["ID", "STATUS", "ERROR", "ORIGINATOR"]

  /** The names that stand for one hidden field: HARPIA_ and the role, the role itself, and the
      legacy spellings, which go on after the role, for three of them after an underscore. */
  ghost predicate Spells(name: string, role: string) {
    && role in ROLES
    && (name == "HARPIA_" + role || name == role || exists s: string :: IsLegacy(name, role, s))
  }

  predicate IsLegacy(name: string, role: string, s: string) {
    if role == "ORIGINATOR" then name == "ORIGINATOR" + s else name == role + "_" + s
  }

  ghost predicate Hidden(name: string) {
    exists role <- ROLES :: Spells(name, role)
  }

  lemma RoleList()
    ensures forall role :: role in ROLES <==> role == "ID" || role == "STATUS" || role == "ERROR" || role == "ORIGINATOR"
  {
    assert ROLES[0] == "ID" && ROLES[1] == "STATUS" && ROLES[2] == "ERROR" && ROLES[3] == "ORIGINATOR";
  }

  lemma PrefixIff(name: string, prefix: string)
    ensures StartsWith(name, prefix) <==> exists s: string :: name == prefix + s
  {
    if StartsWith(name, prefix) {
      assert name == prefix + name[|prefix|..];
    }
    forall s: string | name == prefix + s ensures StartsWith(name, prefix) {
      assert (prefix + s)[..|prefix|] == prefix;
    }
  }

  lemma LegacyIff(name: string, role: string)
    requires role in ROLES
    ensures (exists s: string :: IsLegacy(name, role, s)) <==>
            StartsWith(name, if role == "ORIGINATOR" then role else role + "_")
  {
    if role == "ORIGINATOR" {
      PrefixIff(name, role);
      if s: string :| name == role + s {
        assert IsLegacy(name, role, s);
      }
    } else {
      PrefixIff(name, role + "_");
      if s: string :| name == role + "_" + s {
        assert IsLegacy(name, role, s);
      }
    }
  }

  /** The literal names behind the roles. */
  ghost predicate SpellsAs(name: string, role: string, legacy: string) {
    name == "HARPIA_" + role || name == role || StartsWith(name, legacy)
  }

  lemma SpellsIff(name: string, role: string)
    ensures role == "ID" ==> (Spells(name, role) <==> SpellsAs(name, "ID", "ID_"))
    ensures role == "STATUS" ==> (Spells(name, role) <==> SpellsAs(name, "STATUS", "STATUS_"))
    ensures role == "ERROR" ==> (Spells(name, role) <==> SpellsAs(name, "ERROR", "ERROR_"))
    ensures role == "ORIGINATOR" ==> (Spells(name, role) <==> SpellsAs(name, "ORIGINATOR", "ORIGINATOR"))
    ensures Spells(name, role) ==> role in ROLES
  {
    RoleList();
    if role in ROLES {
      LegacyIff(name, role);
    }
  }

  lemma PresentNames()
    ensures "HARPIA_" + "ID" == "HARPIA_ID" && "HARPIA_" + "STATUS" == "HARPIA_STATUS"
    ensures "HARPIA_" + "ERROR" == "HARPIA_ERROR" && "HARPIA_" + "ORIGINATOR" == "HARPIA_ORIGINATOR"
  {
  }

  /** The prefixes begin with different letters. */
  lemma FirstLetters(name: string)
    ensures StartsWith(name, "ID_") ==> name[0] == 'I'
    ensures StartsWith(name, "STATUS_") ==> name[0] == 'S'
    ensures StartsWith(name, "ERROR_") ==> name[0] == 'E'
    ensures StartsWith(name, "ORIGINATOR") ==> name[0] == 'O'
  {
    assert |name| >= 3 ==> name[..3][0] == name[0];
    assert |name| >= 7 ==> name[..7][0] == name[0];
    assert |name| >= 6 ==> name[..6][0] == name[0];
    assert |name| >= 10 ==> name[..10][0] == name[0];
  }

  lemma IdIdentity(name: string)
    requires SpellsAs(name, "ID", "ID_")
    ensures Identity(name) == "ID"
  {
    PresentNames();
    FirstLetters(name);
  }

  lemma StatusIdentity(name: string)
    requires SpellsAs(name, "STATUS", "STATUS_")
    ensures Identity(name) == "STATUS"
  {
    PresentNames();
    FirstLetters(name);
  }

  lemma ErrorIdentity(name: string)
    requires SpellsAs(name, "ERROR", "ERROR_")
    ensures Identity(name) == "ERROR"
  {
    PresentNames();
    FirstLetters(name);
  }

  lemma OriginatorIdentity(name: string)
    requires SpellsAs(name, "ORIGINATOR", "ORIGINATOR")
    ensures Identity(name) == "ORIGINATOR"
  {
    PresentNames();
    FirstLetters(name);
  }

  lemma SpellsIdentity(name: string, role: string)
    requires Spells(name, role)
    ensures Identity(name) == role
  {
    RoleList();
    SpellsIff(name, role);
    if role == "ID" {
      IdIdentity(name);
    } else if role == "STATUS" {
      StatusIdentity(name);
    } else if role == "ERROR" {
      ErrorIdentity(name);
    } else {
      OriginatorIdentity(name);
    }
  }

  lemma OtherIdentity(name: string)
    requires !SpellsAs(name, "ID", "ID_") && !SpellsAs(name, "STATUS", "STATUS_")
    requires !SpellsAs(name, "ERROR", "ERROR_") && !SpellsAs(name, "ORIGINATOR", "ORIGINATOR")
    ensures Identity(name) == name
  {
    PresentNames();
  }

  /** The key of a name is the role it spells, and the name itself if it spells none. */
  lemma IdentityIff(name: string, key: string)
    ensures Identity(name) == key <==> Spells(name, key) || (name == key && !Hidden(name))
  {
    RoleList();
    if Hidden(name) {
      var role :| role in ROLES && Spells(name, role);
      SpellsIdentity(name, role);
      if Spells(name, key) {
        SpellsIdentity(name, key);
      }
    } else {
      forall role | role in ROLES ensures !Spells(name, role) {
      }
      SpellsIff(name, "ID");
      SpellsIff(name, "STATUS");
      SpellsIff(name, "ERROR");
      SpellsIff(name, "ORIGINATOR");
      OtherIdentity(name);
      assert !Spells(name, key) by { SpellsIff(name, key); }
    }
  }

  /** The names are the same or spell one hidden field. */
  ghost predicate OneField(a: string, b: string) {
    a == b || exists role <- ROLES :: Spells(a, role) && Spells(b, role)
  }

  /** Two names have one key exactly when they name one field. */
  lemma SameIdentityIff(a: string, b: string)
    ensures Identity(a) == Identity(b) <==> OneField(a, b)
  {
    IdentityIff(a, Identity(a));
    IdentityIff(b, Identity(b));
    IdentityIff(a, Identity(b));
    forall role | role in ROLES && Spells(a, role) && Spells(b, role) ensures Identity(a) == Identity(b) {
      SpellsIdentity(a, role);
      SpellsIdentity(b, role);
    }
  }

  /** A user field spelled like a legacy hidden field shares the hidden field's identity. */
  lemma LegacySpellingCollides(suffix: string)
    ensures Identity("ID_" + suffix) == Identity("HARPIA_ID")
  {
    assert ("ID_" + suffix)[..3] == "ID_";
    assert ("ID_" + suffix)[0] == 'I';
  }

  // ---- When the hypotheses fail ----

  /** Declaring `a` again beside `b renamed_from[a]` gives both the number of `a`, whatever
      the sidecar holds besides. */
  lemma RedeclaredSource(r: Registry, a: string, b: string)
    requires a in r.numbers && a != b
    ensures var ds := [Decl(b, Some(a)), Decl(a, None)];
            NumberOf(r, ds, 0) == NumberOf(r, ds, 1) && !StepOk(ds, r.numbers.Keys)
  {
    var ds := [Decl(b, Some(a)), Decl(a, None)];
    assert Source(ds[0], r.numbers.Keys) == Source(ds[1], r.numbers.Keys) == Some(a);
  }

  /** Once two names share a number, dropping one of them retires the number of the other,
      and the generation after that is the reserved-number error. */
  lemma CollisionSurfacesLate(a: string, b: string, n: nat)
    requires a != b
    ensures var ds := [Decl(b, None)];
            var r := Registry(map[a := n, b := n], {});
            Freeze(r, ds) == Some(Registry(map[b := n], {n})) && Freeze(Registry(map[b := n], {n}), ds) == None
  {
    var ds := [Decl(b, None)];
    var r, after := Registry(map[a := n, b := n], {}), Registry(map[b := n], {n});
    assert NumberOf(r, ds, 0) == n;
    assert NewNumbers(r, ds, 1) == NewNumbers(r, ds, 0)[b := n] == map[b := n];
    assert !Consumed(ds, r.numbers.Keys, a);
    assert Source(ds[0], r.numbers.Keys) == Some(b);
    assert Retired(r, ds) == {n} by {
      assert a in r.numbers && r.numbers[a] == n;
    }
    assert !HitsReserved(r, ds) && r.reserved + Retired(r, ds) == {n};
    assert NumberOf(after, ds, 0) == n;
    assert HitsReserved(after, ds);
  }

  // ---- Runs through the sidecar text ----

  /** Sidecar files of successive generations: each is saved from what the one before it
      loads to. */
  ghost predicate IsTextRun(gens: seq<seq<Decl>>, files: seq<Option<string>>) {
    && |files| == |gens| + 1 && files[0] == None
    && forall k: nat :: k < |gens| ==> SavedFrom(gens, files, k)
  }

  ghost predicate SavedFrom(gens: seq<seq<Decl>>, files: seq<Option<string>>, k: nat)
    requires |files| == |gens| + 1 && k < |gens|
  {
    && Load(files[k]).Some?
    && Freeze(Load(files[k]).value, gens[k]).Some?
    && SavedOver(files[k], files[k + 1], Freeze(Load(files[k]).value, gens[k]).value)
  }

  /** The file after a registry is saved over it: a text of the registry, or as it was if it
      reads like one. */
  ghost predicate SavedOver(before: Option<string>, after: Option<string>, r: Registry) {
    exists text :: IsTextOf(text, r) && after == WrittenIfDifferent(before, text)
  }

  ghost predicate IdentifierKeys(ds: seq<Decl>) {
    forall i :: 0 <= i < |ds| ==> IsIdentifier(ds[i].key)
  }

  lemma NewKeysAreIdentifiers(r: Registry, ds: seq<Decl>)
    requires IdentifierKeys(ds)
    ensures forall key <- NewNumbers(r, ds, |ds|) :: IsIdentifier(key)
  {
    forall key | key in NewNumbers(r, ds, |ds|) ensures IsIdentifier(key) {
      var i := FindRecorder(r, ds, |ds|, key);
    }
  }

  lemma SavedGenerationLoads(r: Registry, ds: seq<Decl>, before: Option<string>, after: Option<string>)
    requires IdentifierKeys(ds) && Freeze(r, ds).Some? && SavedOver(before, after, Freeze(r, ds).value)
    ensures Load(after) == Freeze(r, ds)
  {
    var text :| IsTextOf(text, Freeze(r, ds).value) && after == WrittenIfDifferent(before, text);
    NewKeysAreIdentifiers(r, ds);
    LoadOfSaved(Freeze(r, ds).value, text);
    WrittenLoads(before, text);
  }

  ghost predicate AllIdentifiers(gens: seq<seq<Decl>>) {
    forall i :: 0 <= i < |gens| ==> IdentifierKeys(gens[i])
  }

  /** Saving and loading between generations changes nothing: every file loads to the
      registry of the run. */
  lemma {:induction false} TextRunFollowsRun(gens: seq<seq<Decl>>, files: seq<Option<string>>, k: nat)
    requires IsTextRun(gens, files) && k <= |gens| && AllIdentifiers(gens)
    ensures Load(files[k]) == StateAt(gens, k)
    decreases k
  {
    if k == 0 {
      NoFileYet(gens);
    } else {
      TextRunFollowsRun(gens, files, k - 1);
      SavedFollows(gens, files, k);
    }
  }

  lemma NoFileYet(gens: seq<seq<Decl>>)
    ensures Load(None) == StateAt(gens, 0)
  {
  }

  lemma SavedFollows(gens: seq<seq<Decl>>, files: seq<Option<string>>, k: nat)
    requires IsTextRun(gens, files) && 0 < k <= |gens| && AllIdentifiers(gens)
    requires Load(files[k - 1]) == StateAt(gens, k - 1)
    ensures Load(files[k]) == StateAt(gens, k)
  {
    assert SavedFrom(gens, files, k - 1);
    SavedGenerationLoads(StateAt(gens, k - 1).value, gens[k - 1], files[k - 1], files[k]);
  }

  /** Regenerating from a saved sidecar leaves it the same, byte for byte. */
  lemma RegenerationSameText(r: Registry, ds: seq<Decl>, before: Option<string>, first: Option<string>, second: Option<string>)
    requires Consistent(r) && WellFormed(ds) && IdentifierKeys(ds)
    requires Freeze(r, ds).Some? && SavedOver(before, first, Freeze(r, ds).value)
    ensures Load(first) == Freeze(r, ds) && Freeze(Load(first).value, ds) == Load(first)
    ensures SavedOver(first, second, Load(first).value) ==> second == first
  {
    var next := Freeze(r, ds).value;
    SavedGenerationLoads(r, ds, before, first);
    RegenerationStable(r, ds);
    WellFormedIsOk(ds, r.numbers.Keys);
    StepConsistent(r, ds);
    if SavedOver(first, second, next) {
      NewKeysAreIdentifiers(r, ds);
      SavedTwice(next, before, first, second);
    }
  }

  lemma SavedTwice(r: Registry, before: Option<string>, first: Option<string>, second: Option<string>)
    requires Consistent(r) && forall k <- r.numbers :: IsIdentifier(k)
    requires SavedOver(before, first, r) && SavedOver(first, second, r)
    ensures second == first
  {
    var a :| IsTextOf(a, r) && first == WrittenIfDifferent(before, a);
    var b :| IsTextOf(b, r) && second == WrittenIfDifferent(first, b);
    TextUnique(r, a, b);
    LoadOfSaved(r, a);
    assert Newlines(a) == a;
  }

  // ---- The loops ----

  method LoadSidecar(file: Option<string>) returns (r: Option<Registry>)
    ensures r == Load(file)
  {
    if file.None? {
      return Some(EMPTY);
    }
    var lines := Split(Newlines(file.value), '\n');
    var registry, n := EMPTY, 0;
    while n < |lines|
      invariant n <= |lines|
      invariant Read(registry, lines[n..]) == Read(EMPTY, lines)
    {
      assert lines[n..][1..] == lines[n + 1..];
      match ParseLine(lines[n]) {
        case Blank =>
        case Reserved(ns) => registry := registry.(reserved := registry.reserved + ns);
        case FieldNumber(name, number) => registry := registry.(numbers := registry.numbers[name := number]);
        case BadNumber => return None;
      }
      n := n + 1;
    }
    r := Some(registry);
  }

  predicate Renamed(d: Decl, live: set<string>) {
    d.renamedFrom.Some? && d.renamedFrom.value in live
  }

  /** Each of the fields resolved so far has the number of its source, and the sources are
      what has been consumed. */
  ghost predicate Inherited(r: Registry, ds: seq<Decl>, resolved: map<nat, nat>, consumed: set<string>) {
    && (forall i: nat {:trigger i in resolved} ::
          i in resolved ==> i < |ds| && Source(ds[i], r.numbers.Keys).Some?
                            && resolved[i] == r.numbers[Source(ds[i], r.numbers.Keys).value])
    && (forall k :: k in consumed <==> exists i: nat :: i in resolved && Source(ds[i], r.numbers.Keys) == Some(k))
  }

  lemma InheritOne(r: Registry, ds: seq<Decl>, resolved: map<nat, nat>, consumed: set<string>, n: nat, k: string)
    requires Inherited(r, ds, resolved, consumed)
    requires n < |ds| && n !in resolved && Source(ds[n], r.numbers.Keys) == Some(k)
    ensures Inherited(r, ds, resolved[n := r.numbers[k]], consumed + {k})
  {
    var live, after := r.numbers.Keys, resolved[n := r.numbers[k]];
    assert n in after;
    forall l | l in consumed ensures exists i: nat :: i in after && Source(ds[i], live) == Some(l) {
      var i: nat :| i in resolved && Source(ds[i], live) == Some(l);
      assert i in after;
    }
  }

  /** A field renamed from a live name takes over its number. */
  method InheritRenamed(ds: seq<Decl>, r: Registry) returns (resolved: map<nat, nat>, consumed: set<string>)
    ensures Inherited(r, ds, resolved, consumed)
    ensures forall i: nat :: i in resolved <==> i < |ds| && Renamed(ds[i], r.numbers.Keys)
  {
    resolved, consumed := map[], {};
    var n: nat := 0;
    while n < |ds|
      invariant n <= |ds| && Inherited(r, ds, resolved, consumed)
      invariant forall i: nat :: i in resolved <==> i < n && Renamed(ds[i], r.numbers.Keys)
    {
      if Renamed(ds[n], r.numbers.Keys) {
        var former := ds[n].renamedFrom.value;
        InheritOne(r, ds, resolved, consumed, n, former);
        resolved, consumed := resolved[n := r.numbers[former]], consumed + {former};
      }
      n := n + 1;
    }
  }

  /** Renames first, then fields that keep their name. */
  method Inherit(ds: seq<Decl>, r: Registry) returns (resolved: map<nat, nat>, consumed: set<string>)
    ensures Numbered(r, ds, resolved, 0)
    ensures forall k :: k in consumed <==> Consumed(ds, r.numbers.Keys, k)
  {
    resolved, consumed := InheritRenamed(ds, r);
    var n: nat := 0;
    while n < |ds|
      invariant n <= |ds| && Inherited(r, ds, resolved, consumed)
      invariant forall i: nat :: i in resolved <==>
                  i < |ds| && (Renamed(ds[i], r.numbers.Keys) || (i < n && ds[i].key in r.numbers))
    {
      var key := ds[n].key;
      if n !in resolved && key in r.numbers {
        InheritOne(r, ds, resolved, consumed, n, key);
        resolved, consumed := resolved[n := r.numbers[key]], consumed + {key};
      }
      n := n + 1;
    }
    AllInherited(r, ds, resolved, consumed);
  }

  lemma AllInherited(r: Registry, ds: seq<Decl>, resolved: map<nat, nat>, consumed: set<string>)
    requires Inherited(r, ds, resolved, consumed)
    requires forall i: nat :: i in resolved <==>
               i < |ds| && (Renamed(ds[i], r.numbers.Keys) || ds[i].key in r.numbers)
    ensures Numbered(r, ds, resolved, 0)
    ensures forall k :: k in consumed <==> Consumed(ds, r.numbers.Keys, k)
  {
    forall k | Consumed(ds, r.numbers.Keys, k) ensures k in consumed {
      var i :| 0 <= i < |ds| && Source(ds[i], r.numbers.Keys) == Some(k);
      var j: nat := i;
      assert j in resolved;
    }
  }

  method Maximum(s: set<nat>) returns (m: nat)
    ensures m == MaxOf(s)
  {
    var left := s;
    m := 0;
    while left != {}
      invariant left <= s
      invariant forall x :: x in s && x !in left ==> x <= m
      invariant m == 0 || m in s
      decreases left
    {
      var x :| x in left;
      m := if x > m then x else m;
      left := left - {x};
    }
    assert s - left == s;
    if s != {} {
      assert IsMax(MaxOf(s), s);
    }
  }

  /** Counting up to the next free number. */
  method NextFree(taken: set<nat>, start: nat, ghost free: nat) returns (next: nat)
    requires start <= free && free !in taken
    ensures start <= next <= free && next !in taken
    ensures forall x: nat :: start <= x < next ==> x in taken
  {
    next := start;
    while next in taken
      invariant start <= next <= free
      invariant forall x: nat :: start <= x < next ==> x in taken
      decreases free - next
    {
      next := next + 1;
    }
  }

  /** The first n fields, and all that inherit, have their numbers. */
  ghost predicate Numbered(r: Registry, ds: seq<Decl>, resolved: map<nat, nat>, n: nat) {
    && (forall i: nat {:trigger i in resolved} ::
          i in resolved <==> i < |ds| && (i < n || Source(ds[i], r.numbers.Keys).Some?))
    && (forall i: nat {:trigger resolved[i]} :: i in resolved ==> resolved[i] == NumberOf(r, ds, i))
  }

  lemma NumberOne(r: Registry, ds: seq<Decl>, resolved: map<nat, nat>, n: nat)
    requires n < |ds| && Numbered(r, ds, resolved, n) && n !in resolved
    ensures Source(ds[n], r.numbers.Keys).None?
    ensures Numbered(r, ds, resolved[n := NumberOf(r, ds, n)], n + 1)
  {
    var number := NumberOf(r, ds, n);
    NumberedKeys(r, ds, resolved, n, number);
    NumberedValues(r, ds, resolved, n, number);
  }

  lemma NumberOfNew(r: Registry, ds: seq<Decl>, n: nat)
    requires n < |ds| && Source(ds[n], r.numbers.Keys).None?
    ensures NumberOf(r, ds, n) == FirstFree(r) + NewFields(ds, r.numbers.Keys, n)
  {
  }

  lemma NumberedKeys(r: Registry, ds: seq<Decl>, resolved: map<nat, nat>, n: nat, number: nat)
    requires n < |ds| && Numbered(r, ds, resolved, n)
    ensures forall i: nat {:trigger i in resolved[n := number]} ::
              i in resolved[n := number] <==> i < |ds| && (i < n + 1 || Source(ds[i], r.numbers.Keys).Some?)
  {
  }

  lemma NumberedValues(r: Registry, ds: seq<Decl>, resolved: map<nat, nat>, n: nat, number: nat)
    requires n < |ds| && Numbered(r, ds, resolved, n) && number == NumberOf(r, ds, n)
    ensures forall i: nat {:trigger resolved[n := number][i]} ::
              i in resolved[n := number] ==> i < |ds| && resolved[n := number][i] == NumberOf(r, ds, i)
  {
  }

  /** New fields: the next number no live or retired field has used, in declaration order. */
  method NumberNewFields(ds: seq<Decl>, r: Registry, inherited: map<nat, nat>) returns (resolved: map<nat, nat>)
    requires Numbered(r, ds, inherited, 0)
    ensures Numbered(r, ds, resolved, |ds|)
  {
    ghost var live, first := r.numbers.Keys, FirstFree(r);
    resolved := inherited;
    var taken: set<nat> := r.numbers.Values + r.reserved + resolved.Values;
    TakenIncludesInherited(ds, r, resolved);
    var m := Maximum(taken);
    var next := m + 1;
    var n: nat := 0;
    while n < |ds|
      invariant n <= |ds| && Numbered(r, ds, resolved, n)
      invariant TakenUpTo(r, taken, first + NewFields(ds, live, n))
      invariant first <= next <= first + NewFields(ds, live, n)
    {
      if n !in resolved {
        ghost var free := first + NewFields(ds, live, n);
        AboveTaken(r, free);
        next := NextFree(taken, next, free);
        assert next == free;
        NumberOne(r, ds, resolved, n);
        NumberOfNew(r, ds, n);
        resolved := resolved[n := next];
        TakeNext(r, taken, next);
        taken := taken + {next};
      }
      n := n + 1;
    }
  }

  /** What is taken once the numbers from the first free one up to `limit` are given out. */
  ghost predicate TakenUpTo(r: Registry, taken: set<nat>, limit: nat) {
    forall x: nat :: x in taken <==> x in Taken(r) || FirstFree(r) <= x < limit
  }

  lemma TakeNext(r: Registry, taken: set<nat>, next: nat)
    requires TakenUpTo(r, taken, next) && FirstFree(r) <= next
    ensures TakenUpTo(r, taken + {next}, next + 1)
  {
  }

  lemma AboveTaken(r: Registry, x: nat)
    requires FirstFree(r) <= x
    ensures x !in Taken(r)
  {
  }

  lemma TakenIncludesInherited(ds: seq<Decl>, r: Registry, inherited: map<nat, nat>)
    requires Numbered(r, ds, inherited, 0)
    ensures r.numbers.Values + r.reserved + inherited.Values == Taken(r)
  {
    forall x | x in inherited.Values ensures x in Taken(r) {
      var i :| i in inherited && inherited[i] == x;
      NumberRange(r, ds, i);
    }
  }

  method FindReserved(resolved: map<nat, nat>, reserved: set<nat>) returns (hit: bool)
    ensures hit <==> exists i :: i in resolved && resolved[i] in reserved
  {
    var left := resolved.Keys;
    hit := false;
    while left != {}
      invariant left <= resolved.Keys
      invariant forall i <- resolved.Keys - left :: resolved[i] !in reserved
      decreases left
    {
      var i :| i in left;
      if resolved[i] in reserved {
        return true;
      }
      left := left - {i};
    }
    assert resolved.Keys - left == resolved.Keys;
  }

  method Retire(r: Registry, ghost ds: seq<Decl>, consumed: set<string>) returns (reserved: set<nat>)
    requires forall k :: k in consumed <==> Consumed(ds, r.numbers.Keys, k)
    ensures reserved == r.reserved + Retired(r, ds)
  {
    reserved := r.reserved;
    var left := r.numbers.Keys;
    while left != {}
      invariant left <= r.numbers.Keys
      invariant reserved == r.reserved + set k | k in r.numbers && k !in left && k !in consumed :: r.numbers[k]
      decreases left
    {
      var k :| k in left;
      if k !in consumed {
        reserved := reserved + {r.numbers[k]};
      }
      left := left - {k};
    }
  }

  /** The sidecar entries made from the numbers of the first n fields. */
  function Entries(ds: seq<Decl>, resolved: map<nat, nat>, n: nat): map<string, nat>
    requires n <= |ds| && forall i: nat :: i < |ds| ==> i in resolved
  {
    if n == 0 then map[] else Entries(ds, resolved, n - 1)[ds[n - 1].key := resolved[n - 1]]
  }

  lemma {:induction false} EntriesAreNewNumbers(r: Registry, ds: seq<Decl>, resolved: map<nat, nat>, n: nat)
    requires n <= |ds| && (forall i: nat :: i < |ds| ==> i in resolved)
    requires forall i: nat :: i < |ds| ==> resolved[i] == NumberOf(r, ds, i)
    ensures Entries(ds, resolved, n) == NewNumbers(r, ds, n)
    decreases n
  {
    if n > 0 {
      EntriesAreNewNumbers(r, ds, resolved, n - 1);
    }
  }

  method Record(ds: seq<Decl>, resolved: map<nat, nat>) returns (numbers: map<string, nat>)
    requires forall i: nat :: i < |ds| ==> i in resolved
    ensures numbers == Entries(ds, resolved, |ds|)
  {
    numbers := map[];
    var n: nat := 0;
    while n < |ds|
      invariant n <= |ds| && numbers == Entries(ds, resolved, n)
    {
      numbers := numbers[ds[n].key := resolved[n]];
      n := n + 1;
    }
  }

  /** One generation on values: the numbers of the fields and the next registry. */
  method Generate(r: Registry, ds: seq<Decl>) returns (resolved: map<nat, nat>, next: Option<Registry>)
    ensures Numbered(r, ds, resolved, |ds|)
    ensures next == Freeze(r, ds)
  {
    var inherited, consumed := Inherit(ds, r);
    resolved := NumberNewFields(ds, r, inherited);
    var hit := FindReserved(resolved, r.reserved);
    assert hit <==> HitsReserved(r, ds) by {
      if HitsReserved(r, ds) {
        var i :| 0 <= i < |ds| && NumberOf(r, ds, i) in r.reserved;
        var j: nat := i;
        assert j in resolved;
      }
    }
    if hit {
      return resolved, None;
    }
    var reserved := Retire(r, ds, consumed);
    var numbers := Record(ds, resolved);
    EntriesAreNewNumbers(r, ds, resolved, |ds|);
    next := Some(Registry(numbers, reserved));
  }

  /** A declared variable; its wire number is assigned in place. */
  class Variable {
    const name: string
    const renamedFrom: Option<string>
    var index: nat

    constructor (name: string, renamedFrom: Option<string>, index: nat)
      ensures this.name == name && this.renamedFrom == renamedFrom && this.index == index
    {
      this.name, this.renamedFrom, this.index := name, renamedFrom, index;
    }
  }

  method AssignIndices(vars: seq<Variable>, resolved: map<nat, nat>)
    requires forall i, j :: 0 <= i < j < |vars| ==> vars[i] != vars[j]
    requires forall i: nat :: i < |vars| ==> i in resolved
    modifies vars
    ensures forall i: nat :: i < |vars| ==> vars[i].index == resolved[i]
  {
    var n: nat := 0;
    while n < |vars|
      invariant n <= |vars|
      invariant forall i: nat :: i < n ==> vars[i].index == resolved[i]
    {
      vars[n].index := resolved[n];
      n := n + 1;
    }
  }

  /** The sidecar file on disk; None when it does not exist. */
  class SidecarFile {
    var text: Option<string>

    constructor (text: Option<string>)
      ensures this.text == text
    {
      this.text := text;
    }
  }

  function Decls(vars: seq<Variable>): (ds: seq<Decl>)
    ensures |ds| == |vars|
  {
    seq(|vars|, i requires 0 <= i < |vars| => Decl(Identity(vars[i].name), vars[i].renamedFrom))
  }

  /** Write the registry's text unless the file reads like it already. */
  method SaveSidecar(file: SidecarFile, r: Registry)
    modifies file
    ensures SavedOver(old(file.text), file.text, r)
  {
    var text := Save(r);
    if !SameText(file.text, text) {
      file.text := Some(text);
    }
    assert file.text == WrittenIfDifferent(old(file.text), text);
  }

  /** Of variables named by identifiers, the file saved for a generation loads to its
      registry, whatever file it was saved over. */
  lemma DeclaredLoads(vars: seq<Variable>, r: Registry, before: Option<string>, after: Option<string>)
    requires forall v <- vars :: IsIdentifier(v.name)
    requires Freeze(r, Decls(vars)).Some? && SavedOver(before, after, Freeze(r, Decls(vars)).value)
    ensures IdentifierKeys(Decls(vars)) && Load(after) == Freeze(r, Decls(vars))
  {
    DeclaredKeys(vars);
    SavedGenerationLoads(r, Decls(vars), before, after);
  }

  lemma DeclaredKeys(vars: seq<Variable>)
    requires forall v <- vars :: IsIdentifier(v.name)
    ensures IdentifierKeys(Decls(vars))
  {
    forall i | 0 <= i < |vars| ensures IsIdentifier(Decls(vars)[i].key) {
      IdentityIsIdentifier(vars[i].name);
    }
  }

  /** The keys are distinct exactly when the names name different fields. */
  lemma DistinctKeysIff(vars: seq<Variable>)
    ensures DistinctKeys(Decls(vars)) <==> forall i, j :: 0 <= i < j < |vars| ==> !OneField(vars[i].name, vars[j].name)
  {
    forall i, j | 0 <= i < j < |vars|
      ensures Decls(vars)[i].key == Decls(vars)[j].key <==> OneField(vars[i].name, vars[j].name)
    {
      SameIdentityIff(vars[i].name, vars[j].name);
    }
  }

  /** Well-formedness in terms of what is declared: names name different fields, no two fields
      are renamed from one, and none is renamed from the key of another. */
  ghost predicate WellNamed(vars: seq<Variable>) {
    && (forall i, j :: 0 <= i < j < |vars| ==> !OneField(vars[i].name, vars[j].name))
    && (forall i, j :: 0 <= i < j < |vars| && vars[i].renamedFrom.Some? ==> vars[i].renamedFrom != vars[j].renamedFrom)
    && (forall i, j :: 0 <= i < |vars| && 0 <= j < |vars| && i != j && vars[i].renamedFrom.Some? ==>
          !IsKeyOf(vars[i].renamedFrom.value, vars[j].name))
  }

  ghost predicate IsKeyOf(key: string, name: string) {
    Spells(name, key) || (name == key && !Hidden(name))
  }

  lemma WellNamedIff(vars: seq<Variable>)
    ensures WellFormed(Decls(vars)) <==> WellNamed(vars)
  {
    DistinctKeysIff(vars);
    forall i, j | 0 <= i < |vars| && 0 <= j < |vars| && vars[i].renamedFrom.Some?
      ensures vars[i].renamedFrom.value == Decls(vars)[j].key <==> IsKeyOf(vars[i].renamedFrom.value, vars[j].name)
    {
      IdentityIff(vars[j].name, vars[i].renamedFrom.value);
    }
    var ds := Decls(vars);
    assert forall i :: 0 <= i < |vars| ==> ds[i].renamedFrom == vars[i].renamedFrom;
  }

  ghost predicate DistinctIndices(vars: seq<Variable>)
    reads vars
  {
    forall i, j :: 0 <= i < j < |vars| ==> vars[i].index != vars[j].index
  }

  /** Well-named variables get distinct numbers over any sidecar whose numbers are consistent. */
  lemma WellNamedNumbers(vars: seq<Variable>, r: Registry)
    requires WellNamed(vars) && Consistent(r)
    ensures Freeze(r, Decls(vars)).Some? && DistinctNumbers(r, Decls(vars))
  {
    WellNamedIff(vars);
    WellFormedIsOk(Decls(vars), r.numbers.Keys);
    SafeGenerationIff(r, Decls(vars));
    GuardUnreachable(r, Decls(vars));
  }

  /** Which number a variable gets: that of the live name it is renamed from, else that of its
      live key, else one above every number ever given out, the later the variable the higher. */
  lemma VariableNumber(vars: seq<Variable>, r: Registry, i: nat, key: string)
    requires i < |vars| && IsKeyOf(key, vars[i].name)
    ensures var from, number := vars[i].renamedFrom, NumberOf(r, Decls(vars), i);
            if from.Some? && from.value in r.numbers then number == r.numbers[from.value]
            else if key in r.numbers then number == r.numbers[key]
            else
              && (forall x :: x in r.numbers.Values || x in r.reserved ==> x < number)
              && forall j :: i < j < |vars| && NumberOf(r, Decls(vars), j) !in r.numbers.Values ==>
                   number < NumberOf(r, Decls(vars), j)
  {
    IdentityIff(vars[i].name, key);
    var ds, live := Decls(vars), r.numbers.Keys;
    if Source(ds[i], live).None? {
      forall j | i < j < |vars| && NumberOf(r, ds, j) !in r.numbers.Values
        ensures NumberOf(r, ds, i) < NumberOf(r, ds, j)
      {
        NewFieldsMonotone(ds, live, i, j);
      }
    }
  }

  datatype Outcome = Frozen | ReservedNumberReused | UnreadableSidecar

  /** One generation in place. An error changes neither the variables nor the file. */
  method FreezeVariables(vars: seq<Variable>, file: SidecarFile) returns (outcome: Outcome)
    requires forall i, j :: 0 <= i < j < |vars| ==> vars[i] != vars[j]
    modifies file, vars
    ensures outcome == match Load(old(file.text))
                       case None => UnreadableSidecar
                       case Some(r) => if Freeze(r, Decls(vars)).Some? then Frozen else ReservedNumberReused
    ensures outcome != Frozen ==> file.text == old(file.text) && forall v <- vars :: v.index == old(v.index)
    ensures outcome == Frozen ==>
              var r := Load(old(file.text)).value;
              && (forall i :: 0 <= i < |vars| ==> vars[i].index == NumberOf(r, Decls(vars), i))
              && SavedOver(old(file.text), file.text, Freeze(r, Decls(vars)).value)
    ensures Load(old(file.text)).Some? && Consistent(Load(old(file.text)).value) && WellNamed(vars) ==>
              outcome == Frozen && DistinctIndices(vars)
  {
    var loaded := LoadSidecar(file.text);
    if loaded.None? {
      return UnreadableSidecar;
    }
    var ds := Decls(vars);
    if Consistent(loaded.value) && WellNamed(vars) {
      WellNamedNumbers(vars, loaded.value);
    }
    var resolved, next := Generate(loaded.value, ds);
    if next.None? {
      return ReservedNumberReused;
    }
    AssignIndices(vars, resolved);
    SaveSidecar(file, next.value);
    outcome := Frozen;
  }
}
