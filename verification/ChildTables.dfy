/** The child tables of a table-bearing message: one row per map entry, keyed by owner and
    key, and one row per repeated element, keyed by owner and ordinal. A table is the
    finite map from its primary key to the value, so a second INSERT under a key fails. */
module ChildTables {
  import opened Sorting
  import opened Wrappers

  /** What a message holds in its map field and in its repeated field. */
  datatype Children<K(==), V> = Children(entries: map<K, V>, items: seq<V>)

  /** A child table, keyed by owner and map key or by owner and ordinal. */
  type Table<T(==), V> = map<(int, T), V>

  datatype Database<K(==), V> = Database(owners: set<int>, maps: Table<K, V>, reps: Table<nat, V>)

  // ---- Rows of one owner ----

  ghost predicate HoldsEntries<K(!new), V>(maps: Table<K, V>, o: int, entries: map<K, V>) {
    forall k :: (k in entries <==> (o, k) in maps) && (k in entries ==> entries[k] == maps[(o, k)])
  }

  ghost predicate HoldsItems<V>(reps: Table<nat, V>, o: int, items: seq<V>) {
    forall n: nat :: (n < |items| <==> (o, n) in reps) && (n < |items| ==> items[n] == reps[(o, n)])
  }

  ghost predicate Holds<K(!new), V>(db: Database<K, V>, o: int, c: Children<K, V>) {
    HoldsEntries(db.maps, o, c.entries) && HoldsItems(db.reps, o, c.items)
  }

  /** The rows of every owner but o are the same. */
  ghost predicate SameElsewhere<T(!new), V>(a: Table<T, V>, b: Table<T, V>, o: int) {
    forall x: int, t: T :: x != o ==> ((x, t) in a <==> (x, t) in b) && ((x, t) in a ==> a[(x, t)] == b[(x, t)])
  }

  // ---- The statements ----

  function DeleteOwner<T, V>(table: Table<T, V>, o: int): Table<T, V> {
    map p | p in table && p.0 != o :: table[p]
  }

  function InsertEntries<K, V>(maps: Table<K, V>, o: int, entries: map<K, V>): Table<K, V> {
    maps + map k | k in entries :: (o, k) := entries[k]
  }

  function InsertItems<V>(reps: Table<nat, V>, o: int, items: seq<V>): Table<nat, V> {
    if |items| == 0 then reps
    else InsertItems(reps, o, items[..|items| - 1])[(o, |items| - 1) := items[|items| - 1]]
  }

  lemma {:induction false} ItemsInserted<V>(reps: Table<nat, V>, o: int, items: seq<V>)
    ensures forall x: int, n: nat :: (x, n) in InsertItems(reps, o, items) <==> (x, n) in reps || (x == o && n < |items|)
    ensures forall n: nat :: n < |items| ==> InsertItems(reps, o, items)[(o, n)] == items[n]
    ensures forall x: int, n: nat :: (x, n) in reps && !(x == o && n < |items|) ==> InsertItems(reps, o, items)[(x, n)] == reps[(x, n)]
    decreases |items|
  {
    if |items| > 0 {
      ItemsInserted(reps, o, items[..|items| - 1]);
    }
  }

  /** No row of the owner is in the way. */
  ghost predicate Clear<K(!new), V>(db: Database<K, V>, o: int, c: Children<K, V>) {
    && (forall k :: k in c.entries ==> (o, k) !in db.maps)
    && (forall n: nat :: n < |c.items| ==> (o, n) !in db.reps)
  }

  lemma EntriesAfterDelete<K(!new), V>(maps: Table<K, V>, o: int, entries: map<K, V>)
    ensures var after := InsertEntries(DeleteOwner(maps, o), o, entries);
            HoldsEntries(after, o, entries) && SameElsewhere(after, maps, o)
  {
  }

  lemma ItemsAfterDelete<V>(reps: Table<nat, V>, o: int, items: seq<V>)
    ensures var after := InsertItems(DeleteOwner(reps, o), o, items);
            HoldsItems(after, o, items) && SameElsewhere(after, reps, o)
  {
    ItemsInserted(DeleteOwner(reps, o), o, items);
  }

  lemma EntriesWhereNone<K(!new), V>(maps: Table<K, V>, o: int, entries: map<K, V>)
    requires HoldsEntries(maps, o, map[])
    ensures forall k :: k in entries ==> (o, k) !in maps
    ensures HoldsEntries(InsertEntries(maps, o, entries), o, entries)
  {
  }

  lemma ItemsWhereNone<V>(reps: Table<nat, V>, o: int, items: seq<V>)
    requires HoldsItems(reps, o, [])
    ensures forall n: nat :: n < |items| ==> (o, n) !in reps
    ensures HoldsItems(InsertItems(reps, o, items), o, items)
  {
    ItemsInserted(reps, o, items);
  }

  // ---- Operations of the DAO as steps ----

  datatype Op<K, V> = Create(o: int, c: Children<K, V>) | Update(o: int, c: Children<K, V>) | Remove(o: int)

  /** One call of the DAO: what it answers and the database after it. A create that meets a
      child row in its way fails halfway: the owner's own row is already there. */
  ghost predicate Next<K(!new), V>(db: Database<K, V>, op: Op<K, V>, ok: bool, after: Database<K, V>) {
    match op
    case Create(o, c) =>
      if o in db.owners then !ok && after == db
      else if Clear(db, o, c) then
        ok && after == Database(db.owners + {o}, InsertEntries(db.maps, o, c.entries), InsertItems(db.reps, o, c.items))
      else
        && !ok && after.owners == db.owners + {o}
        && SameElsewhere(after.maps, db.maps, o) && SameElsewhere(after.reps, db.reps, o)
    case Update(o, c) =>
      && ok
      && after == Database(db.owners, InsertEntries(DeleteOwner(db.maps, o), o, c.entries),
                           InsertItems(DeleteOwner(db.reps, o), o, c.items))
    case Remove(o) =>
      ok && after == Database(db.owners - {o}, DeleteOwner(db.maps, o), DeleteOwner(db.reps, o))
  }

  /** No operation touches the rows of another owner. */
  lemma OthersUntouched<K(!new), V>(db: Database<K, V>, op: Op<K, V>, ok: bool, after: Database<K, V>)
    requires Next(db, op, ok, after)
    ensures SameElsewhere(after.maps, db.maps, op.o) && SameElsewhere(after.reps, db.reps, op.o)
    ensures forall x :: x != op.o ==> (x in after.owners <==> x in db.owners)
  {
    if op.Update? {
      EntriesAfterDelete(db.maps, op.o, op.c.entries);
      ItemsAfterDelete(db.reps, op.o, op.c.items);
    } else if op.Create? {
      ItemsInserted(db.reps, op.o, op.c.items);
    }
  }

  // ---- Runs ----

  /** The written state of an owner after an operation on it. */
  function Written<K, V>(before: Option<Children<K, V>>, op: Op<K, V>): Option<Children<K, V>> {
    match op
    case Create(_, c) => if before.Some? then before else Some(c)
    case Update(_, c) => if before.Some? then Some(c) else None
    case Remove(_) => None
  }

  /** What was last written for an owner, from the history of calls alone. */
  function LastWritten<K, V>(ops: seq<Op<K, V>>, o: int): Option<Children<K, V>> {
    if |ops| == 0 then None
    else
      var before, op := LastWritten(ops[..|ops| - 1], o), ops[|ops| - 1];
      if op.o != o then before else Written(before, op)
  }

  ghost predicate RefinesAt<K(!new), V>(db: Database<K, V>, written: Option<Children<K, V>>, o: int) {
    match written
    case Some(c) => o in db.owners && Holds(db, o, c)
    case None => o !in db.owners && Holds(db, o, Children(map[], []))
  }

  /** The tables hold exactly what was last written, for every owner, and nothing else. */
  ghost predicate Refines<K(!new), V>(db: Database<K, V>, ops: seq<Op<K, V>>) {
    forall o :: RefinesAt(db, LastWritten(ops, o), o)
  }

  /** A run of calls, with their answers, from an empty database. */
  ghost predicate IsRun<K(!new), V>(ops: seq<Op<K, V>>, answers: seq<bool>, dbs: seq<Database<K, V>>) {
    && |answers| == |ops| && |dbs| == |ops| + 1 && dbs[0] == Database({}, map[], map[])
    && forall i: nat :: i < |ops| ==> StepAt(ops, answers, dbs, i)
  }

  ghost predicate StepAt<K(!new), V>(ops: seq<Op<K, V>>, answers: seq<bool>, dbs: seq<Database<K, V>>, i: nat)
    requires |answers| == |ops| && |dbs| == |ops| + 1 && i < |ops|
  {
    Next(dbs[i], ops[i], answers[i], dbs[i + 1])
  }

  /** Every update finds its owner's row or has nothing to write. */
  ghost predicate UpdatesSafe<K(!new), V>(ops: seq<Op<K, V>>, dbs: seq<Database<K, V>>)
    requires |dbs| == |ops| + 1
  {
    forall i: nat :: i < |ops| ==> UpdateSafe(dbs[i], ops[i])
  }

  ghost predicate UpdateSafe<K(!new), V>(db: Database<K, V>, op: Op<K, V>) {
    op.Update? ==> op.o in db.owners || op.c == Children(map[], [])
  }

  lemma OthersStillRefine<K(!new), V>(db: Database<K, V>, op: Op<K, V>, ok: bool, after: Database<K, V>,
                                      written: Option<Children<K, V>>, o: int)
    requires Next(db, op, ok, after) && op.o != o && RefinesAt(db, written, o)
    ensures RefinesAt(after, written, o)
  {
    OthersUntouched(db, op, ok, after);
    var c := if written.Some? then written.value else Children(map[], []);
    forall k ensures (k in c.entries <==> (o, k) in after.maps) && (k in c.entries ==> c.entries[k] == after.maps[(o, k)]) {
      assert (o, k) in after.maps <==> (o, k) in db.maps;
    }
    forall n: nat
      ensures (n < |c.items| <==> (o, n) in after.reps) && (n < |c.items| ==> c.items[n] == after.reps[(o, n)])
    {
      assert (o, n) in after.reps <==> (o, n) in db.reps;
    }
  }

  lemma OwnerRefines<K(!new), V>(db: Database<K, V>, op: Op<K, V>, ok: bool, after: Database<K, V>,
                                 written: Option<Children<K, V>>)
    requires Next(db, op, ok, after) && RefinesAt(db, written, op.o)
    requires UpdateSafe(db, op)
    ensures RefinesAt(after, Written(written, op), op.o)
  {
    var o := op.o;
    match op
    case Create(_, c) =>
      if written.None? {
        EntriesWhereNone(db.maps, o, c.entries);
        ItemsWhereNone(db.reps, o, c.items);
      }
    case Update(_, c) =>
      EntriesAfterDelete(db.maps, o, c.entries);
      ItemsAfterDelete(db.reps, o, c.items);
    case Remove(_) =>
  }

  /** Exactly when an update keeps the tables in step with what was written: its owner
      exists, or there is nothing to write for it. */
  lemma UpdateRefinesIff<K(!new), V>(db: Database<K, V>, op: Op<K, V>, after: Database<K, V>, written: Option<Children<K, V>>)
    requires op.Update? && Next(db, op, true, after) && RefinesAt(db, written, op.o)
    ensures RefinesAt(after, Written(written, op), op.o) <==> UpdateSafe(db, op)
  {
    var o, c := op.o, op.c;
    EntriesAfterDelete(db.maps, o, c.entries);
    ItemsAfterDelete(db.reps, o, c.items);
    if o !in db.owners && RefinesAt(after, Written(written, op), o) {
      forall k ensures k !in c.entries { assert (o, k) !in after.maps; }
      var zero: nat := 0;
      assert zero < |c.items| <==> (o, zero) in after.reps;
      assert c.entries == map[] && c.items == [];
    }
  }

  /** Child tables refine message fields: through any run of creates, removes and safe
      updates, every owner's rows are exactly what was last written for it, and a removed
      owner has none. */
  lemma {:induction false} RunRefines<K(!new), V>(ops: seq<Op<K, V>>, answers: seq<bool>, dbs: seq<Database<K, V>>, n: nat)
    requires IsRun(ops, answers, dbs) && n <= |ops|
    requires forall i: nat :: i < n ==> UpdateSafe(dbs[i], ops[i])
    ensures Refines(dbs[n], ops[..n])
    decreases n
  {
    if n > 0 {
      var i := n - 1;
      RunRefines(ops, answers, dbs, i);
      assert StepAt(ops, answers, dbs, i);
      assert ops[..n][..i] == ops[..i] && ops[..n][i] == ops[i];
      forall o ensures RefinesAt(dbs[n], LastWritten(ops[..n], o), o) {
        assert RefinesAt(dbs[i], LastWritten(ops[..i], o), o);
        if o == ops[i].o {
          OwnerRefines(dbs[i], ops[i], answers[i], dbs[n], LastWritten(ops[..i], o));
        } else {
          OthersStillRefine(dbs[i], ops[i], answers[i], dbs[n], LastWritten(ops[..i], o), o);
        }
      }
    }
  }

  /** The tables refine the fields at every point of a run exactly when all its updates are
      safe. */
  lemma RunRefinesIff<K(!new), V>(ops: seq<Op<K, V>>, answers: seq<bool>, dbs: seq<Database<K, V>>)
    requires IsRun(ops, answers, dbs)
    ensures (forall n: nat :: n <= |ops| ==> Refines(dbs[n], ops[..n])) <==> UpdatesSafe(ops, dbs)
  {
    if UpdatesSafe(ops, dbs) {
      forall n: nat | n <= |ops| ensures Refines(dbs[n], ops[..n]) {
        RunRefines(ops, answers, dbs, n);
      }
    }
    if forall n: nat :: n <= |ops| ==> Refines(dbs[n], ops[..n]) {
      forall i: nat | i < |ops| ensures UpdateSafe(dbs[i], ops[i]) {
        var op, o := ops[i], ops[i].o;
        assert StepAt(ops, answers, dbs, i);
        assert ops[..i + 1][..i] == ops[..i] && ops[..i + 1][i] == op;
        assert Refines(dbs[i], ops[..i]) && Refines(dbs[i + 1], ops[..i + 1]);
        assert RefinesAt(dbs[i], LastWritten(ops[..i], o), o) && RefinesAt(dbs[i + 1], LastWritten(ops[..i + 1], o), o);
        if op.Update? {
          UpdateRefinesIff(dbs[i], op, dbs[i + 1], LastWritten(ops[..i], o));
        }
      }
    }
  }

  /** What the calls of a run with safe updates answer: a create is refused exactly when something
      is written for its owner, and nothing else is ever refused. */
  lemma AnswersInRun<K(!new), V>(ops: seq<Op<K, V>>, answers: seq<bool>, dbs: seq<Database<K, V>>, i: nat)
    requires IsRun(ops, answers, dbs) && i < |ops| && forall j: nat :: j < i ==> UpdateSafe(dbs[j], ops[j])
    ensures answers[i] <==> (ops[i].Create? ==> LastWritten(ops[..i], ops[i].o).None?)
  {
    RunRefines(ops, answers, dbs, i);
    assert StepAt(ops, answers, dbs, i);
    var db, o := dbs[i], ops[i].o;
    assert RefinesAt(db, LastWritten(ops[..i], o), o);
    if ops[i].Create? && LastWritten(ops[..i], o).None? {
      EntriesWhereNone(db.maps, o, ops[i].c.entries);
      ItemsWhereNone(db.reps, o, ops[i].c.items);
    }
  }

  /** What such an update costs: a later create of that owner with elements of its own fails
      on the orphaned rows, and leaves the owner's row behind. */
  lemma CreateAfterOrphans<K(!new), V>(db: Database<K, V>, o: int, c: Children<K, V>, d: Children<K, V>, ok: bool,
                                       mid: Database<K, V>, after: Database<K, V>)
    requires o !in db.owners && |c.items| > 0 && |d.items| > 0
    requires Next(db, Update(o, c), true, mid) && Next(mid, Create(o, d), ok, after)
    ensures !ok && o in after.owners
  {
    ItemsAfterDelete(db.reps, o, c.items);
    var zero: nat := 0;
    assert (o, zero) in mid.reps;
  }

  // ---- The DAO in place ----

  lemma InsertOneEntry<K(!new), V>(maps: Table<K, V>, o: int, entries: map<K, V>, left: set<K>, k: K)
    requires k in left && k in entries
    ensures InsertEntries(maps, o, entries - left)[(o, k) := entries[k]] == InsertEntries(maps, o, entries - (left - {k}))
  {
  }

  lemma InsertOneItem<V>(reps: Table<nat, V>, o: int, items: seq<V>, n: nat)
    requires n < |items|
    ensures InsertItems(reps, o, items[..n])[(o, n) := items[n]] == InsertItems(reps, o, items[..n + 1])
  {
    assert items[..n + 1][..n] == items[..n];
  }

  /** The ordinals 0..n-1 in ascending order are themselves. */
  lemma OrdinalsInOrder(order: seq<nat>, ordinals: set<nat>, n: nat)
    requires Ascending(order, ordinals) && forall x: nat :: x in ordinals <==> x < n
    ensures |order| == n && forall i :: 0 <= i < n ==> order[i] == i
  {
    var counted := seq(n, i => i);
    assert Ascending(counted, ordinals) by {
      forall x | x in ordinals ensures x in counted { assert counted[x] == x; }
    }
    AscendingUnique(order, counted, ordinals);
  }

  class Dao<K(==, !new), V> {
    var owners: set<int>
    var maps: Table<K, V>
    var reps: Table<nat, V>

    constructor ()
      ensures State() == Database({}, map[], map[])
    {
      owners, maps, reps := {}, map[], map[];
    }

    ghost function State(): Database<K, V>
      reads this
    {
      Database(owners, maps, reps)
    }

    /** INSERT one row per map entry, in whatever order the map is iterated; stop at the
        first row that is already there. */
    method WriteEntries(o: int, entries: map<K, V>) returns (ok: bool)
      modifies this`maps
      ensures ok <==> forall k :: k in entries ==> (o, k) !in old(maps)
      ensures ok ==> maps == InsertEntries(old(maps), o, entries)
      ensures SameElsewhere(maps, old(maps), o)
    {
      var left := entries.Keys;
      while left != {}
        invariant left <= entries.Keys
        invariant forall k :: k in entries && k !in left ==> (o, k) !in old(maps)
        invariant maps == InsertEntries(old(maps), o, entries - left)
        decreases left
      {
        var k :| k in left;
        if (o, k) in maps {
          return false;
        }
        InsertOneEntry(old(maps), o, entries, left, k);
        maps := maps[(o, k) := entries[k]];
        left := left - {k};
      }
      assert entries - left == entries;
      ok := true;
    }

    /** INSERT one row per element with ordinals 0, 1, 2, ... */
    method WriteItems(o: int, items: seq<V>) returns (ok: bool)
      modifies this`reps
      ensures ok <==> forall n: nat :: n < |items| ==> (o, n) !in old(reps)
      ensures ok ==> reps == InsertItems(old(reps), o, items)
      ensures SameElsewhere(reps, old(reps), o)
    {
      var ord: nat := 0;
      while ord < |items|
        invariant ord <= |items|
        invariant forall n: nat :: n < ord ==> (o, n) !in old(reps)
        invariant reps == InsertItems(old(reps), o, items[..ord])
      {
        ItemsInserted(old(reps), o, items[..ord]);
        if (o, ord) in reps {
          return false;
        }
        InsertOneItem(old(reps), o, items, ord);
        reps := reps[(o, ord) := items[ord]];
        ord := ord + 1;
      }
      assert items[..ord] == items;
      ItemsInserted(old(reps), o, items);
      ok := true;
    }

    method CreateRow(o: int, c: Children<K, V>) returns (ok: bool)
      modifies this
      ensures Next(old(State()), Create(o, c), ok, State())
    {
      if o in owners {
        return false;
      }
      owners := owners + {o};
      ok := WriteEntries(o, c.entries);
      if ok {
        ok := WriteItems(o, c.items);
      }
    }

    method UpdateRow(o: int, c: Children<K, V>) returns (ok: bool)
      modifies this
      ensures Next(old(State()), Update(o, c), ok, State())
    {
      maps := DeleteOwner(maps, o);
      ok := WriteEntries(o, c.entries);
      reps := DeleteOwner(reps, o);
      ok := WriteItems(o, c.items);
    }

    method RemoveRow(o: int) returns (ok: bool)
      modifies this
      ensures Next(old(State()), Remove(o), ok, State())
    {
      owners := owners - {o};
      maps := DeleteOwner(maps, o);
      reps := DeleteOwner(reps, o);
      ok := true;
    }

    /** SELECT the owner's entries into a fresh map. */
    method ReadEntries(o: int) returns (entries: map<K, V>)
      ensures HoldsEntries(maps, o, entries)
    {
      entries := map[];
      var left := set p | p in maps && p.0 == o;
      while left != {}
        invariant forall p :: p in left ==> p in maps && p.0 == o
        invariant forall k :: (k in entries <==> (o, k) in maps && (o, k) !in left) && (k in entries ==> entries[k] == maps[(o, k)])
        decreases left
      {
        var p :| p in left;
        assert p == (o, p.1);
        entries := entries[p.1 := maps[p]];
        left := left - {p};
      }
    }

    /** SELECT the owner's elements ORDER BY ordinal into a fresh list. */
    method ReadItems(o: int) returns (items: seq<V>)
      ensures forall written :: HoldsItems(reps, o, written) ==> items == written
    {
      var ordinals := set p | p in reps && p.0 == o :: p.1;
      var order := SortNumbers(ordinals);
      items := [];
      var i := 0;
      while i < |order|
        invariant i <= |order| && |items| == i
        invariant forall j :: 0 <= j < i ==> items[j] == reps[(o, order[j])]
      {
        assert order[i] in ordinals;
        items := items + [reps[(o, order[i])]];
        i := i + 1;
      }
      forall written | HoldsItems(reps, o, written) ensures items == written {
        forall x: nat ensures x in ordinals <==> x < |written| {
          assert (o, x) in reps ==> x in ordinals;
        }
        OrdinalsInOrder(order, ordinals, |written|);
      }
    }
  }
}
