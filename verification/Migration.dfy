/** Schema migration of a live table: legacy hidden columns renamed, then renamed_from
    columns, then missing columns added and unrecognised ones dropped. A table is the map
    from its column names to their contents, NULL in every row being None. */
module Migration {
  import opened Characters
  import opened Wrappers

  datatype Column = Column(name: string, pk: bool, renamedFrom: Option<string>)

  type Table<D> = map<string, Option<D>>

  // ---- Legacy spellings of the hidden columns ----

  datatype Legacy = Legacy(prefix: string, bareOk: bool)

  function LegacyOf(name: string): Option<Legacy> {
    if name == "HARPIA_ID" then Some(Legacy("ID_", false))
    else if name == "HARPIA_STATUS" then Some(Legacy("STATUS_", false))
    else if name == "HARPIA_ERROR" then Some(Legacy("ERROR_", false))
    else if name == "HARPIA_ORIGINATOR" then Some(Legacy("ORIGINATOR_", true))
    else None
  }

  /** The prefix and 32 hex digits, or for one of them the bare name. */
  predicate Matches(n: string, l: Legacy) {
    || (l.bareOk && n + "_" == l.prefix)
    || (|n| == |l.prefix| + 32 && l.prefix <= n && forall i :: |l.prefix| <= i < |n| ==> IsHex(n[i]))
  }

  /** A name is a legacy spelling of at most one hidden column. */
  lemma OneSpelling(n: string, a: string, b: string)
    requires LegacyOf(a).Some? && LegacyOf(b).Some?
    requires Matches(n, LegacyOf(a).value) && Matches(n, LegacyOf(b).value)
    ensures a == b
  {
    LegacyLength(n, a);
    LegacyLength(n, b);
  }

  lemma LegacyLength(n: string, a: string)
    requires LegacyOf(a).Some? && Matches(n, LegacyOf(a).value)
    ensures a == "HARPIA_ID" ==> |n| == 35
    ensures a == "HARPIA_STATUS" ==> |n| == 39
    ensures a == "HARPIA_ERROR" ==> |n| == 38
    ensures a == "HARPIA_ORIGINATOR" ==> |n| == 43 || |n| == 10
  {
    assert |n + "_"| == |n| + 1;
  }

  // ---- The order in which a set of names is walked ----

  predicate Less(a: string, b: string) {
    if |a| == 0 then |b| > 0
    else |b| > 0 && (a[0] < b[0] || (a[0] == b[0] && Less(a[1..], b[1..])))
  }

  lemma {:induction false} LessTotal(a: string, b: string)
    ensures a == b || Less(a, b) || Less(b, a)
    ensures !(Less(a, b) && Less(b, a)) && !Less(a, a)
    decreases |a|
  {
    if |a| > 0 && |b| > 0 {
      LessTotal(a[1..], b[1..]);
      LessTotal(a[1..], a[1..]);
      if a[0] == b[0] && a[1..] == b[1..] {
        assert a == [a[0]] + a[1..] && b == [b[0]] + b[1..];
      }
    } else if |a| > 0 {
      LessTotal(a[1..], a[1..]);
    }
  }

  lemma {:induction false} LessTransitive(a: string, b: string, c: string)
    requires Less(a, b) && Less(b, c)
    ensures Less(a, c)
    decreases |a|
  {
    if |a| > 0 && a[0] == b[0] && b[0] == c[0] {
      LessTransitive(a[1..], b[1..], c[1..]);
    }
  }

  ghost predicate IsFirst(x: string, s: set<string>) {
    x in s && forall y <- s :: !Less(y, x)
  }

  lemma {:induction false} FindFirst(s: set<string>) returns (x: string)
    requires s != {}
    ensures IsFirst(x, s)
    decreases s
  {
    var y :| y in s;
    x := y;
    LessTotal(y, y);
    if s != {y} {
      var z := FindFirst(s - {y});
      LessTotal(y, z);
      x := if Less(y, z) then y else z;
      forall w | w in s ensures !Less(w, x) {
        if w != y {
          assert w in s - {y};
          if Less(w, y) && Less(y, z) {
            LessTransitive(w, y, z);
          }
        }
      }
    }
  }

  lemma FirstUnique(x: string, y: string, s: set<string>)
    requires IsFirst(x, s) && IsFirst(y, s)
    ensures x == y
  {
    LessTotal(x, y);
  }

  lemma SomeFirst(s: set<string>)
    requires s != {}
    ensures exists x :: IsFirst(x, s)
  {
    var x := FindFirst(s);
  }

  ghost function First(s: set<string>): (x: string)
    requires s != {}
    ensures IsFirst(x, s)
  {
    SomeFirst(s);
    var x :| IsFirst(x, s);
    x
  }

  /** The names that are a legacy spelling of a hidden column. */
  function Spellings(have: set<string>, l: Legacy): set<string> {
    set n | n in have && Matches(n, l)
  }

  // ---- Spellings and order, in terms of characters ----

  ghost predicate IsHashed(x: string, prefix: string) {
    exists h: string :: x == prefix + h && |h| == 32 && forall i :: 0 <= i < |h| ==> IsHex(h[i])
  }

  lemma HashedIff(x: string, prefix: string)
    ensures IsHashed(x, prefix) <==>
            |x| == |prefix| + 32 && prefix <= x && forall i :: |prefix| <= i < |x| ==> IsHex(x[i])
  {
    if |x| == |prefix| + 32 && prefix <= x && forall i :: |prefix| <= i < |x| ==> IsHex(x[i]) {
      var h := x[|prefix|..];
      assert x == prefix + h;
    }
    if h: string :| x == prefix + h && |h| == 32 && forall i :: 0 <= i < |h| ==> IsHex(h[i]) {
      forall i | |prefix| <= i < |x| ensures IsHex(x[i]) {
        assert x[i] == h[i - |prefix|];
      }
    }
  }

  /** The legacy spellings of the hidden columns: the role, an underscore and 32 hash characters,
      and for one of them the role alone. */
  lemma SpellingsIff(x: string, name: string)
    ensures LegacyOf(name).Some? && Matches(x, LegacyOf(name).value) <==>
            || (name == "HARPIA_ID" && IsHashed(x, "ID_"))
            || (name == "HARPIA_STATUS" && IsHashed(x, "STATUS_"))
            || (name == "HARPIA_ERROR" && IsHashed(x, "ERROR_"))
            || (name == "HARPIA_ORIGINATOR" && (IsHashed(x, "ORIGINATOR_") || x == "ORIGINATOR"))
  {
    HashedIff(x, "ID_");
    HashedIff(x, "STATUS_");
    HashedIff(x, "ERROR_");
    HashedIff(x, "ORIGINATOR_");
    BareIff(x);
  }

  lemma BareIff(x: string)
    ensures x + "_" == "ORIGINATOR_" <==> x == "ORIGINATOR"
  {
    assert (x + "_")[..|x|] == x;
    assert "ORIGINATOR_"[..10] == "ORIGINATOR";
  }

  predicate DiffersAt(a: string, b: string, d: nat) {
    d < |a| && d < |b| && (forall i :: 0 <= i < d ==> a[i] == b[i]) && a[d] < b[d]
  }

  /** One name is less than another if it is a proper prefix of it, or has the smaller character
      where they first differ. */
  lemma {:induction false} LessIff(a: string, b: string)
    ensures Less(a, b) <==> (a <= b && a != b) || exists d: nat :: DiffersAt(a, b, d)
    decreases |a|
  {
    if |a| > 0 && |b| > 0 && a[0] == b[0] {
      LessIff(a[1..], b[1..]);
      assert a == [a[0]] + a[1..] && b == [b[0]] + b[1..];
      if d: nat :| DiffersAt(a, b, d) {
        assert forall i :: 0 <= i < |a[1..]| ==> a[1..][i] == a[i + 1];
        assert DiffersAt(a[1..], b[1..], d - 1);
      }
      if d: nat :| DiffersAt(a[1..], b[1..], d) {
        forall i | 0 < i < d + 1 ensures a[i] == b[i] {
          assert a[1..][i - 1] == b[1..][i - 1];
        }
        assert DiffersAt(a, b, d + 1);
      }
    } else if |a| > 0 && |b| > 0 {
      assert a[0] < b[0] ==> DiffersAt(a, b, 0);
    }
  }

  // ---- The steps ----

  function Rename<D>(t: Table<D>, former: string, name: string): Table<D>
    requires former in t
  {
    (t - {former})[name := t[former]]
  }

  ghost function LegacyStep<D>(t: Table<D>, c: Column): Table<D> {
    if LegacyOf(c.name).Some? && c.name !in t && Spellings(t.Keys, LegacyOf(c.name).value) != {}
    then Rename(t, First(Spellings(t.Keys, LegacyOf(c.name).value)), c.name)
    else t
  }

  function RenameStep<D>(t: Table<D>, c: Column): Table<D> {
    if c.renamedFrom.Some? && c.renamedFrom.value in t && c.name !in t
    then Rename(t, c.renamedFrom.value, c.name)
    else t
  }

  function AddStep<D>(t: Table<D>, have: set<string>, c: Column): Table<D> {
    if !c.pk && c.name !in have then t[c.name := None] else t
  }

  ghost function LegacySteps<D>(t: Table<D>, columns: seq<Column>, n: nat): Table<D>
    requires n <= |columns|
  {
    if n == 0 then t else LegacyStep(LegacySteps(t, columns, n - 1), columns[n - 1])
  }

  function RenameSteps<D>(t: Table<D>, columns: seq<Column>, n: nat): Table<D>
    requires n <= |columns|
  {
    if n == 0 then t else RenameStep(RenameSteps(t, columns, n - 1), columns[n - 1])
  }

  function AddSteps<D>(t: Table<D>, have: set<string>, columns: seq<Column>, n: nat): Table<D>
    requires n <= |columns|
  {
    if n == 0 then t else AddStep(AddSteps(t, have, columns, n - 1), have, columns[n - 1])
  }

  function Names(columns: seq<Column>): set<string> {
    set c <- columns :: c.name
  }

  function DropStep<D>(t: Table<D>, have: set<string>, columns: seq<Column>): Table<D> {
    t - (have - Names(columns))
  }

  ghost function Renamed<D>(t: Table<D>, columns: seq<Column>): Table<D> {
    RenameSteps(LegacySteps(t, columns, |columns|), columns, |columns|)
  }

  ghost function Migrate<D>(t: Table<D>, columns: seq<Column>): Table<D> {
    var renamed := Renamed(t, columns);
    DropStep(AddSteps(renamed, renamed.Keys, columns, |columns|), renamed.Keys, columns)
  }

  /** The migration run on the live table. `have` is kept in step with the renames only. */
  class LiveTable<D> {
    var table: Table<D>
    var have: set<string>

    constructor (table: Table<D>)
      ensures this.table == table
    {
      this.table, have := table, {};
    }

    method RenameColumn(former: string, name: string)
      requires former in table && have == table.Keys
      modifies this
      ensures table == Rename(old(table), former, name) && have == table.Keys
    {
      table := (table - {former})[name := table[former]];
      have := have - {former} + {name};
    }

    /** Walk the names in order and rename the first legacy spelling. */
    method RenameLegacy(c: Column)
      requires have == table.Keys
      modifies this
      ensures table == LegacyStep(old(table), c) && have == table.Keys
    {
      var l := LegacyOf(c.name);
      if l.None? || c.name in have {
        return;
      }
      var left := have;
      while left != {}
        invariant left <= have && table == old(table) && have == table.Keys
        invariant forall n :: n in have && n !in left ==> !Matches(n, l.value)
        invariant forall n, m :: n in have && n !in left && m in left ==> Less(n, m)
        decreases left
      {
        ghost var known := FindFirst(left);
        var n :| n in left && forall m <- left :: !Less(m, n);
        forall m | m in left && m != n ensures Less(n, m) {
          LessTotal(n, m);
        }
        if Matches(n, l.value) {
          FirstMatch(have, left, l.value, n);
          RenameColumn(n, c.name);
          return;
        }
        left := left - {n};
      }
    }

    method Run(columns: seq<Column>)
      modifies this
      ensures table == Migrate(old(table), columns)
    {
      have := table.Keys;
      var n := 0;
      while n < |columns|
        invariant n <= |columns| && have == table.Keys && table == LegacySteps(old(table), columns, n)
      {
        RenameLegacy(columns[n]);
        n := n + 1;
      }
      ghost var stage := table;
      n := 0;
      while n < |columns|
        invariant n <= |columns| && have == table.Keys && table == RenameSteps(stage, columns, n)
      {
        var c := columns[n];
        if c.renamedFrom.Some? && c.renamedFrom.value in have && c.name !in have {
          RenameColumn(c.renamedFrom.value, c.name);
        }
        n := n + 1;
      }
      ghost var renamed := table;
      n := 0;
      while n < |columns|
        invariant n <= |columns| && have == renamed.Keys && table == AddSteps(renamed, renamed.Keys, columns, n)
      {
        if !columns[n].pk && columns[n].name !in have {
          table := table[columns[n].name := None];
        }
        n := n + 1;
      }
      DropColumns(columns);
    }

    method DropColumns(columns: seq<Column>)
      modifies this
      ensures table == DropStep(old(table), old(have), columns)
    {
      var left := have;
      while left != {}
        invariant left <= old(have)
        invariant table == old(table) - ((old(have) - left) - Names(columns))
        decreases left
      {
        var n :| n in left;
        if n !in Names(columns) {
          table := table - {n};
          have := have - {n};
        }
        left := left - {n};
      }
      assert old(have) - left == old(have);
    }
  }

  lemma FirstMatch(have: set<string>, left: set<string>, l: Legacy, n: string)
    requires n in left && left <= have && Matches(n, l)
    requires forall m :: m in have && m !in left ==> !Matches(m, l)
    requires forall m :: m in left && m != n ==> Less(n, m)
    ensures Spellings(have, l) != {} && First(Spellings(have, l)) == n
  {
    var s := Spellings(have, l);
    assert n in s;
    forall m | m in s ensures !Less(m, n) {
      LessTotal(m, n);
    }
    FirstUnique(First(s), n, s);
  }

  // ---- Convergence ----

  /** Exactly which columns the migrated table has. */
  lemma {:induction false} AddedKeys<D>(t: Table<D>, columns: seq<Column>, n: nat)
    requires n <= |columns|
    ensures AddSteps(t, t.Keys, columns, n).Keys
         == t.Keys + set i | 0 <= i < n && !columns[i].pk :: columns[i].name
    ensures forall x <- t :: x in AddSteps(t, t.Keys, columns, n) && AddSteps(t, t.Keys, columns, n)[x] == t[x]
    ensures forall x <- AddSteps(t, t.Keys, columns, n) :: x !in t ==> AddSteps(t, t.Keys, columns, n)[x] == None
  {
    if n > 0 {
      AddedKeys(t, columns, n - 1);
      var before := AddSteps(t, t.Keys, columns, n - 1);
      var c := columns[n - 1];
      var added := set i | 0 <= i < n - 1 && !columns[i].pk :: columns[i].name;
      var now := set i | 0 <= i < n && !columns[i].pk :: columns[i].name;
      assert now == if c.pk then added else added + {c.name};
    }
  }

  /** A column is in the migrated table when it is current and was there after the renames, or
      can be added; one that was there keeps its contents, an added one is NULL. */
  lemma MigratedColumn<D>(t: Table<D>, columns: seq<Column>, i: nat)
    requires i < |columns|
    ensures !columns[i].pk || columns[i].name in Renamed(t, columns) ==> columns[i].name in Migrate(t, columns)
    ensures columns[i].name in Renamed(t, columns) ==>
              Migrate(t, columns)[columns[i].name] == Renamed(t, columns)[columns[i].name]
    ensures columns[i].name in Migrate(t, columns) && columns[i].name !in Renamed(t, columns) ==>
              Migrate(t, columns)[columns[i].name] == None
  {
    AddedKeys(Renamed(t, columns), columns, |columns|);
    assert columns[i].name in Names(columns);
  }

  lemma MigratedKeys<D>(t: Table<D>, columns: seq<Column>)
    ensures Migrate(t, columns).Keys <= Names(columns)
    ensures Migrate(t, columns).Keys == Names(columns) <==>
            forall c <- columns :: c.pk && !Twice(c.name, columns) ==> c.name in Renamed(t, columns)
  {
    var r := Renamed(t, columns);
    AddedKeys(r, columns, |columns|);
    var added := set i | 0 <= i < |columns| && !columns[i].pk :: columns[i].name;
    assert Migrate(t, columns).Keys == (r.Keys + added) - (r.Keys - Names(columns));
    forall x | x in added ensures x in Names(columns) {
      var i :| 0 <= i < |columns| && !columns[i].pk && columns[i].name == x;
      assert columns[i] in columns;
    }
    forall c | c in columns ensures c.pk && !Twice(c.name, columns) <==> c.name !in added {
      var k :| 0 <= k < |columns| && columns[k] == c;
      if c.name in added {
        var i :| 0 <= i < |columns| && !columns[i].pk && columns[i].name == c.name;
        assert columns[i] in columns;
      } else {
        assert c.pk;
      }
    }
    assert Migrate(t, columns).Keys == (r.Keys * Names(columns)) + added;
    if forall c <- columns :: c.name !in added ==> c.name in r {
      forall x | x in Names(columns) ensures x in Migrate(t, columns) {
        var c :| c in columns && c.name == x;
      }
    }
    if Migrate(t, columns).Keys == Names(columns) {
      forall c | c in columns && c.name !in added ensures c.name in r {
        assert c.name in Names(columns);
      }
    }
  }

  /** A key's name that is also declared as an ordinary column. */
  ghost predicate Twice(name: string, columns: seq<Column>) {
    exists c <- columns :: c.name == name && !c.pk
  }

  ghost predicate Spelt(have: set<string>, name: string) {
    LegacyOf(name).Some? && Spellings(have, LegacyOf(name).value) != {}
  }

  predicate SpeltLike(x: string, name: string) {
    LegacyOf(name).Some? && Matches(x, LegacyOf(name).value)
  }

  /** Column c can be renamed from x, which is not its own name. */
  predicate TakesFrom(c: Column, x: string) {
    x != c.name && (c.renamedFrom == Some(x) || SpeltLike(x, c.name))
  }

  /** No column can be renamed from this one. */
  ghost predicate Safe(name: string, columns: seq<Column>) {
    forall c <- columns :: !TakesFrom(c, name)
  }

  /** The present names of the hidden columns are not legacy spellings. */
  lemma HiddenUnspelt(h: string, name: string)
    requires LegacyOf(h).Some?
    ensures !SpeltLike(h, name)
  {
    if LegacyOf(name).Some? {
      var prefix := LegacyOf(name).value.prefix;
      assert h[0] != prefix[0];
    }
  }

  lemma SpeltBy(have: set<string>, x: string, name: string)
    requires x in have && SpeltLike(x, name)
    ensures Spelt(have, name)
  {
    assert x in Spellings(have, LegacyOf(name).value);
  }

  /** What is safe stays, with its data. */
  lemma {:induction false} LegacyKeeps<D>(t: Table<D>, columns: seq<Column>, n: nat, name: string)
    requires n <= |columns| && name in t && Safe(name, columns)
    ensures name in LegacySteps(t, columns, n) && LegacySteps(t, columns, n)[name] == t[name]
  {
    if n > 0 {
      LegacyKeeps(t, columns, n - 1, name);
      assert !TakesFrom(columns[n - 1], name);
    }
  }

  lemma {:induction false} RenameKeeps<D>(t: Table<D>, columns: seq<Column>, n: nat, name: string)
    requires n <= |columns| && name in t && Safe(name, columns)
    ensures name in RenameSteps(t, columns, n) && RenameSteps(t, columns, n)[name] == t[name]
  {
    if n > 0 {
      RenameKeeps(t, columns, n - 1, name);
      assert !TakesFrom(columns[n - 1], name);
    }
  }

  /** A hidden column under a legacy name gets its present one. */
  lemma {:induction false} LegacyFinds<D>(t: Table<D>, columns: seq<Column>, n: nat, i: nat)
    requires n <= |columns| && i < |columns| && Safe(columns[i].name, columns) && Spelt(t.Keys, columns[i].name)
    ensures || Spelt(LegacySteps(t, columns, n).Keys, columns[i].name)
            || columns[i].name in LegacySteps(t, columns, n)
    ensures i < n ==> columns[i].name in LegacySteps(t, columns, n)
  {
    if n > 0 {
      LegacyFinds(t, columns, n - 1, i);
      assert !TakesFrom(columns[n - 1], columns[i].name);
      LegacyStepFinds(LegacySteps(t, columns, n - 1), columns[n - 1], columns[i].name);
    }
  }

  lemma LegacyStepFinds<D>(t: Table<D>, c: Column, name: string)
    requires !TakesFrom(c, name)
    ensures name in t ==> name in LegacyStep(t, c)
    ensures Spelt(t.Keys, name) ==> Spelt(LegacyStep(t, c).Keys, name) || name in LegacyStep(t, c)
    ensures Spelt(t.Keys, name) && name == c.name ==> name in LegacyStep(t, c)
  {
    if LegacyOf(c.name).Some? && c.name !in t && Spellings(t.Keys, LegacyOf(c.name).value) != {} {
      var gone := First(Spellings(t.Keys, LegacyOf(c.name).value));
      if Spelt(t.Keys, name) && name != c.name {
        var x :| x in Spellings(t.Keys, LegacyOf(name).value);
        if x == gone {
          OneSpelling(x, name, c.name);
          assert false;
        }
        assert x in Spellings(LegacyStep(t, c).Keys, LegacyOf(name).value);
      }
    }
  }

  /** The table has every key, under its own name or a legacy one. */
  ghost predicate HasKeys<D>(t: Table<D>, columns: seq<Column>) {
    forall c <- columns :: c.pk ==> c.name in t || Spelt(t.Keys, c.name)
  }

  /** On a table that has its key, and for a schema that takes no column from it, the
      migration ends with exactly the current columns. */
  lemma Converges<D>(t: Table<D>, columns: seq<Column>)
    requires forall c <- columns :: c.pk ==> Safe(c.name, columns)
    requires HasKeys(t, columns)
    ensures Migrate(t, columns).Keys == Names(columns)
  {
    forall c | c in columns && c.pk ensures c.name in Renamed(t, columns) {
      var i :| 0 <= i < |columns| && columns[i] == c;
      if c.name in t {
        LegacyKeeps(t, columns, |columns|, c.name);
      } else {
        LegacyFinds(t, columns, |columns|, i);
      }
      RenameKeeps(LegacySteps(t, columns, |columns|), columns, |columns|, c.name);
    }
    MigratedKeys(t, columns);
  }

  // ---- A second run ----

  /** Every column is there or has nothing to be renamed from, and nothing is left to add or drop. */
  ghost predicate Settled<D>(t: Table<D>, columns: seq<Column>) {
    && t.Keys <= Names(columns)
    && forall c <- columns :: c.name in t || (c.pk && !Spelt(t.Keys, c.name) && NotFrom(t, c))
  }

  predicate NotFrom<D>(t: Table<D>, c: Column) {
    c.renamedFrom.Some? ==> c.renamedFrom.value !in t
  }

  lemma {:induction false} SettledRenames<D>(t: Table<D>, columns: seq<Column>, n: nat)
    requires n <= |columns| && Settled(t, columns)
    ensures LegacySteps(t, columns, n) == t && RenameSteps(t, columns, n) == t
    ensures AddSteps(t, t.Keys, columns, n) == t
  {
    if n > 0 {
      SettledRenames(t, columns, n - 1);
      assert columns[n - 1] in columns;
    }
  }

  lemma SettledUnchanged<D>(t: Table<D>, columns: seq<Column>)
    requires Settled(t, columns)
    ensures Migrate(t, columns) == t
  {
    SettledRenames(t, columns, |columns|);
    assert t.Keys - Names(columns) == {};
  }

  /** Whatever the schema, a run that ended with the current columns is not repeated. */
  lemma ConvergedOnce<D>(t: Table<D>, columns: seq<Column>)
    requires Migrate(t, columns).Keys == Names(columns)
    ensures Migrate(Migrate(t, columns), columns) == Migrate(t, columns)
  {
    var m := Migrate(t, columns);
    forall c | c in columns ensures c.name in m {
      assert c.name in Names(columns);
    }
    SettledUnchanged(m, columns);
  }

  // ---- Renames all at once ----

  datatype Move = Move(former: string, name: string)

  function MoveOne<D>(t: Table<D>, m: Option<Move>): Table<D> {
    if m.Some? && m.value.former in t then Rename(t, m.value.former, m.value.name) else t
  }

  ghost function Carry<D>(t: Table<D>, plan: seq<Option<Move>>, n: nat): Table<D>
    requires n <= |plan|
  {
    if n == 0 then t else MoveOne(Carry(t, plan, n - 1), plan[n - 1])
  }

  /** The moves start from columns the table has and end in names it does not have, and no two
      of them share either. */
  ghost predicate Independent<D>(t: Table<D>, plan: seq<Option<Move>>) {
    && (forall i :: 0 <= i < |plan| && plan[i].Some? ==> plan[i].value.former in t && plan[i].value.name !in t)
    && forall i, j :: 0 <= i < j < |plan| && plan[i].Some? && plan[j].Some? ==>
         plan[i].value.former != plan[j].value.former && plan[i].value.name != plan[j].value.name
  }

  ghost predicate Leaves(plan: seq<Option<Move>>, n: nat, x: string)
    requires n <= |plan|
  {
    exists i :: 0 <= i < n && plan[i].Some? && plan[i].value.former == x
  }

  ghost predicate Arrives(plan: seq<Option<Move>>, n: nat, x: string)
    requires n <= |plan|
  {
    exists i :: 0 <= i < n && plan[i].Some? && plan[i].value.name == x
  }

  lemma {:induction false} CarryKept<D>(t: Table<D>, plan: seq<Option<Move>>, n: nat, x: string)
    requires n <= |plan| && Independent(t, plan)
    ensures x in Carry(t, plan, n) <==> (x in t && !Leaves(plan, n, x)) || Arrives(plan, n, x)
    ensures x in t && !Leaves(plan, n, x) ==> x in Carry(t, plan, n) && Carry(t, plan, n)[x] == t[x]
    decreases n
  {
    if n > 0 {
      CarryKept(t, plan, n - 1, x);
      assert Leaves(plan, n, x) <==> Leaves(plan, n - 1, x) || (plan[n - 1].Some? && plan[n - 1].value.former == x);
      assert Arrives(plan, n, x) <==> Arrives(plan, n - 1, x) || (plan[n - 1].Some? && plan[n - 1].value.name == x);
      if plan[n - 1].Some? {
        CarryKept(t, plan, n - 1, plan[n - 1].value.former);
      }
    }
  }

  lemma {:induction false} CarryMoved<D>(t: Table<D>, plan: seq<Option<Move>>, n: nat, i: nat)
    requires i < n <= |plan| && Independent(t, plan) && plan[i].Some?
    ensures plan[i].value.name in Carry(t, plan, n)
    ensures Carry(t, plan, n)[plan[i].value.name] == t[plan[i].value.former]
    decreases n
  {
    if i == n - 1 {
      assert !Leaves(plan, n - 1, plan[i].value.former);
      CarryKept(t, plan, n - 1, plan[i].value.former);
    } else {
      CarryMoved(t, plan, n - 1, i);
    }
  }

  // ---- Whose data each column ends with ----

  /** Names differ, no column can be renamed from another current one, and two columns are
      renamed from the same one only where it is a legacy spelling of one of them. */
  ghost predicate Plain(columns: seq<Column>) {
    forall i, j :: 0 <= i < |columns| && 0 <= j < |columns| && i != j ==> Apart(columns[i], columns[j])
  }

  ghost predicate DistinctNames(columns: seq<Column>) {
    forall i, j :: 0 <= i < |columns| && 0 <= j < |columns| && i != j ==> columns[i].name != columns[j].name
  }

  lemma PlainDistinct(columns: seq<Column>)
    requires Plain(columns)
    ensures DistinctNames(columns) && forall c <- columns :: Safe(c.name, columns)
  {
    forall i, j | 0 <= i < |columns| && 0 <= j < |columns| && i != j
      ensures columns[i].name != columns[j].name && !TakesFrom(columns[i], columns[j].name)
    {
      assert Apart(columns[i], columns[j]);
    }
  }

  predicate Apart(c: Column, d: Column) {
    c.name != d.name && !TakesFrom(c, d.name) && !Compete(c, d)
  }

  predicate Compete(c: Column, d: Column) {
    && c.renamedFrom.Some? && c.renamedFrom == d.renamedFrom
    && !SpeltLike(c.renamedFrom.value, c.name) && !SpeltLike(c.renamedFrom.value, d.name)
  }

  /** The live column whose data a current column takes over: its own, else its first legacy
      spelling, else the one it is renamed from unless a hidden column has taken that. */
  ghost function Source(have: set<string>, columns: seq<Column>, c: Column): Option<string> {
    if c.name in have then Some(c.name)
    else if Spelt(have, c.name) then Some(First(Spellings(have, LegacyOf(c.name).value)))
    else if c.renamedFrom.Some? && c.renamedFrom.value in have && !TakenOver(have, columns, c.renamedFrom.value)
    then c.renamedFrom
    else None
  }

  ghost predicate TakenOver(have: set<string>, columns: seq<Column>, x: string) {
    exists d <- columns :: d.name !in have && Spelt(have, d.name) && x == First(Spellings(have, LegacyOf(d.name).value))
  }

  ghost function LegacyMove<D>(t: Table<D>, c: Column): Option<Move> {
    if c.name !in t && Spelt(t.Keys, c.name)
    then Some(Move(First(Spellings(t.Keys, LegacyOf(c.name).value)), c.name))
    else None
  }

  ghost function RenameMove<D>(t: Table<D>, c: Column): Option<Move> {
    if c.renamedFrom.Some? && c.renamedFrom.value in t && c.name !in t
    then Some(Move(c.renamedFrom.value, c.name))
    else None
  }

  ghost function LegacyPlan<D>(t: Table<D>, columns: seq<Column>): (plan: seq<Option<Move>>)
    ensures |plan| == |columns|
  {
    seq(|columns|, i requires 0 <= i < |columns| => LegacyMove(t, columns[i]))
  }

  ghost function RenamePlan<D>(t: Table<D>, columns: seq<Column>): (plan: seq<Option<Move>>)
    ensures |plan| == |columns|
  {
    seq(|columns|, i requires 0 <= i < |columns| => RenameMove(t, columns[i]))
  }

  lemma LegacyIndependent<D>(t: Table<D>, columns: seq<Column>)
    requires Plain(columns)
    ensures Independent(t, LegacyPlan(t, columns))
  {
    var plan := LegacyPlan(t, columns);
    forall i, j | 0 <= i < j < |plan| && plan[i].Some? && plan[j].Some?
      ensures plan[i].value.former != plan[j].value.former && plan[i].value.name != plan[j].value.name
    {
      assert Apart(columns[i], columns[j]);
      if plan[i].value.former == plan[j].value.former {
        OneSpelling(plan[i].value.former, columns[i].name, columns[j].name);
      }
    }
  }

  /** No hidden column is left under a legacy name only. */
  ghost predicate LegacyDone<D>(t: Table<D>, columns: seq<Column>) {
    forall c <- columns :: c.name in t || !Spelt(t.Keys, c.name)
  }

  lemma MoveUnspelt<D>(t: Table<D>, columns: seq<Column>, i: nat)
    requires LegacyDone(t, columns) && i < |columns| && RenameMove(t, columns[i]).Some?
    ensures !SpeltLike(columns[i].renamedFrom.value, columns[i].name)
  {
    var c := columns[i];
    assert !Spelt(t.Keys, c.name);
    if SpeltLike(c.renamedFrom.value, c.name) {
      SpeltBy(t.Keys, c.renamedFrom.value, c.name);
    }
  }

  lemma RenameIndependent<D>(t: Table<D>, columns: seq<Column>)
    requires Plain(columns) && LegacyDone(t, columns)
    ensures Independent(t, RenamePlan(t, columns))
  {
    var plan := RenamePlan(t, columns);
    forall i, j | 0 <= i < j < |plan| && plan[i].Some? && plan[j].Some?
      ensures plan[i].value.former != plan[j].value.former && plan[i].value.name != plan[j].value.name
    {
      assert Apart(columns[i], columns[j]);
      MoveUnspelt(t, columns, i);
      MoveUnspelt(t, columns, j);
    }
  }

  /** No earlier legacy rename touches a column's name or its spellings. */
  lemma LegacyMoveSteady<D>(t: Table<D>, columns: seq<Column>, n: nat)
    requires n < |columns| && Plain(columns)
    ensures LegacyMove(Carry(t, LegacyPlan(t, columns), n), columns[n]) == LegacyMove(t, columns[n])
  {
    LegacyIndependent(t, columns);
    var plan, c := LegacyPlan(t, columns), columns[n];
    var now := Carry(t, plan, n);
    CarryKept(t, plan, n, c.name);
    assert c.name in now <==> c.name in t by {
      assert !Leaves(plan, n, c.name);
      assert forall i :: 0 <= i < n ==> Apart(columns[i], c);
    }
    if LegacyOf(c.name).Some? {
      var l := LegacyOf(c.name).value;
      forall x | Matches(x, l) ensures x in now <==> x in t {
        CarryKept(t, plan, n, x);
        SpellingSteady(t, columns, n, x);
      }
      assert Spellings(now.Keys, l) == Spellings(t.Keys, l);
    }
  }

  lemma SpellingSteady<D>(t: Table<D>, columns: seq<Column>, n: nat, x: string)
    requires n < |columns| && Plain(columns)
    requires LegacyOf(columns[n].name).Some? && Matches(x, LegacyOf(columns[n].name).value)
    ensures !Leaves(LegacyPlan(t, columns), n, x) && !Arrives(LegacyPlan(t, columns), n, x)
  {
    var plan := LegacyPlan(t, columns);
    forall i | 0 <= i < n && plan[i].Some? ensures plan[i].value.former != x && plan[i].value.name != x {
      assert Apart(columns[i], columns[n]);
      if plan[i].value.former == x {
        OneSpelling(x, columns[i].name, columns[n].name);
      }
    }
  }

  lemma StepMoves<D>(t: Table<D>, c: Column)
    ensures LegacyStep(t, c) == MoveOne(t, LegacyMove(t, c))
    ensures RenameStep(t, c) == MoveOne(t, RenameMove(t, c))
  {
  }

  lemma {:induction false} LegacyAtOnce<D>(t: Table<D>, columns: seq<Column>, n: nat)
    requires n <= |columns| && Plain(columns)
    ensures LegacySteps(t, columns, n) == Carry(t, LegacyPlan(t, columns), n)
  {
    if n > 0 {
      LegacyAtOnce(t, columns, n - 1);
      LegacyMoveSteady(t, columns, n - 1);
      StepMoves(LegacySteps(t, columns, n - 1), columns[n - 1]);
    }
  }

  lemma RenameMoveSteady<D>(t: Table<D>, columns: seq<Column>, n: nat)
    requires n < |columns| && Plain(columns) && LegacyDone(t, columns)
    ensures RenameMove(Carry(t, RenamePlan(t, columns), n), columns[n]) == RenameMove(t, columns[n])
  {
    RenameIndependent(t, columns);
    var plan, c := RenamePlan(t, columns), columns[n];
    forall i | 0 <= i < n && plan[i].Some?
      ensures plan[i].value.former != c.name && plan[i].value.name != c.name
      ensures c.renamedFrom.Some? ==> plan[i].value.name != c.renamedFrom.value
      ensures plan[n].Some? ==> plan[i].value.former != c.renamedFrom.value
    {
      assert Apart(columns[i], c) && Apart(c, columns[i]);
    }
    CarryKept(t, plan, n, c.name);
    if c.renamedFrom.Some? {
      CarryKept(t, plan, n, c.renamedFrom.value);
    }
  }

  lemma {:induction false} RenameAtOnce<D>(t: Table<D>, columns: seq<Column>, n: nat)
    requires n <= |columns| && Plain(columns) && LegacyDone(t, columns)
    ensures RenameSteps(t, columns, n) == Carry(t, RenamePlan(t, columns), n)
  {
    if n > 0 {
      RenameAtOnce(t, columns, n - 1);
      RenameMoveSteady(t, columns, n - 1);
      StepMoves(RenameSteps(t, columns, n - 1), columns[n - 1]);
    }
  }

  /** `m` has the column exactly when it has a source in `t`, with the data of that source. */
  ghost predicate Holds<D>(t: Table<D>, m: Table<D>, name: string, source: Option<string>) {
    && (name in m <==> source.Some?)
    && (source.Some? ==> source.value in t && m[name] == t[source.value])
  }

  lemma LegacyHolds<D>(t: Table<D>, columns: seq<Column>, i: nat)
    requires Plain(columns) && i < |columns|
    ensures Holds(t, LegacySteps(t, columns, |columns|), columns[i].name,
                  if columns[i].name in t then Some(columns[i].name)
                  else if Spelt(t.Keys, columns[i].name) then Some(First(Spellings(t.Keys, LegacyOf(columns[i].name).value)))
                  else None)
  {
    LegacyIndependent(t, columns);
    LegacyAtOnce(t, columns, |columns|);
    var plan, c := LegacyPlan(t, columns), columns[i];
    CarryKept(t, plan, |plan|, c.name);
    assert !Leaves(plan, |plan|, c.name);
    if plan[i].Some? {
      CarryMoved(t, plan, |plan|, i);
    } else {
      forall j | 0 <= j < |plan| && plan[j].Some? ensures plan[j].value.name != c.name {
        if i != j {
          assert Apart(columns[i], columns[j]);
        }
      }
    }
  }

  /** A name that is not current is still there unless a hidden column took it over. */
  lemma LegacyOthers<D>(t: Table<D>, columns: seq<Column>, x: string)
    requires Plain(columns) && forall c <- columns :: c.name != x
    ensures Holds(t, LegacySteps(t, columns, |columns|), x,
                  if x in t && !TakenOver(t.Keys, columns, x) then Some(x) else None)
  {
    LegacyIndependent(t, columns);
    LegacyAtOnce(t, columns, |columns|);
    var plan := LegacyPlan(t, columns);
    CarryKept(t, plan, |plan|, x);
    assert !Arrives(plan, |plan|, x);
    TakenOverLeaves(t, columns, x);
  }

  lemma TakenOverLeaves<D>(t: Table<D>, columns: seq<Column>, x: string)
    ensures TakenOver(t.Keys, columns, x) <==> Leaves(LegacyPlan(t, columns), |columns|, x)
  {
    var plan := LegacyPlan(t, columns);
    if TakenOver(t.Keys, columns, x) {
      var d :| d in columns && d.name !in t && Spelt(t.Keys, d.name) && x == First(Spellings(t.Keys, LegacyOf(d.name).value));
      var j :| 0 <= j < |columns| && columns[j] == d;
      assert plan[j].value.former == x;
    }
    if Leaves(plan, |plan|, x) {
      var j :| 0 <= j < |plan| && plan[j].Some? && plan[j].value.former == x;
      assert columns[j] in columns;
    }
  }

  lemma RenameHolds<D>(t: Table<D>, columns: seq<Column>, i: nat)
    requires Plain(columns) && i < |columns| && LegacyDone(t, columns)
    ensures Holds(t, RenameSteps(t, columns, |columns|), columns[i].name,
                  if columns[i].name in t then Some(columns[i].name)
                  else if columns[i].renamedFrom.Some? && columns[i].renamedFrom.value in t then columns[i].renamedFrom
                  else None)
  {
    RenameIndependent(t, columns);
    RenameAtOnce(t, columns, |columns|);
    var plan, c := RenamePlan(t, columns), columns[i];
    CarryKept(t, plan, |plan|, c.name);
    forall j | 0 <= j < |plan| && plan[j].Some?
      ensures plan[j].value.former != c.name && (i != j ==> plan[j].value.name != c.name)
    {
      if i != j {
        assert Apart(columns[i], columns[j]) && Apart(columns[j], columns[i]);
      }
    }
    if plan[i].Some? {
      CarryMoved(t, plan, |plan|, i);
    }
  }

  lemma LegacyLeavesNone<D>(t: Table<D>, columns: seq<Column>)
    requires Plain(columns)
    ensures LegacyDone(LegacySteps(t, columns, |columns|), columns)
  {
    var staged := LegacySteps(t, columns, |columns|);
    forall c | c in columns && c.name !in staged ensures !Spelt(staged.Keys, c.name) {
      var i :| 0 <= i < |columns| && columns[i] == c;
      LegacyHolds(t, columns, i);
      LegacyIndependent(t, columns);
      LegacyAtOnce(t, columns, |columns|);
      var plan := LegacyPlan(t, columns);
      forall x | x in staged ensures !SpeltLike(x, c.name) {
        CarryKept(t, plan, |plan|, x);
        if Arrives(plan, |plan|, x) {
          HiddenUnspelt(x, c.name);
        } else if SpeltLike(x, c.name) {
          SpeltBy(t.Keys, x, c.name);
        }
      }
    }
  }

  lemma RenamedHolds<D>(t: Table<D>, columns: seq<Column>, i: nat)
    requires Plain(columns) && i < |columns|
    ensures Holds(t, Renamed(t, columns), columns[i].name, Source(t.Keys, columns, columns[i]))
  {
    var staged, c := LegacySteps(t, columns, |columns|), columns[i];
    LegacyHolds(t, columns, i);
    LegacyLeavesNone(t, columns);
    RenameHolds(staged, columns, i);
    if c.renamedFrom.Some? && c.renamedFrom.value != c.name {
      forall d | d in columns ensures d.name != c.renamedFrom.value {
        var j :| 0 <= j < |columns| && columns[j] == d;
        if i != j {
          assert Apart(c, columns[j]);
        }
      }
      LegacyOthers(t, columns, c.renamedFrom.value);
    }
  }

  /** After a migration every column holds the data of its source in the live table, or NULL
      when it has none; only a key without a source stays missing. */
  lemma KeepsData<D>(t: Table<D>, columns: seq<Column>, i: nat)
    requires Plain(columns) && i < |columns|
    ensures columns[i].name in Migrate(t, columns) <==> !columns[i].pk || Source(t.Keys, columns, columns[i]).Some?
    ensures Source(t.Keys, columns, columns[i]).Some? ==>
              && Source(t.Keys, columns, columns[i]).value in t
              && Migrate(t, columns)[columns[i].name] == t[Source(t.Keys, columns, columns[i]).value]
    ensures Source(t.Keys, columns, columns[i]).None? && !columns[i].pk ==>
              Migrate(t, columns)[columns[i].name] == None
  {
    RenamedHolds(t, columns, i);
    MigratedColumn(t, columns, i);
    PlainDistinct(columns);
    if columns[i].pk && columns[i].name !in Renamed(t, columns) {
      MissingKey(t, columns, i);
    }
  }

  /** A hidden column that is not live under its present name takes over the data of its least
      legacy spelling. */
  lemma LegacyDataMoves<D>(t: Table<D>, columns: seq<Column>, i: nat, x: string)
    requires Plain(columns) && i < |columns| && columns[i].name !in t
    requires x in t && SpeltLike(x, columns[i].name)
    requires forall y <- t :: SpeltLike(y, columns[i].name) ==> y == x || Less(x, y)
    ensures columns[i].name in Migrate(t, columns) && Migrate(t, columns)[columns[i].name] == t[x]
  {
    var s := Spellings(t.Keys, LegacyOf(columns[i].name).value);
    SpeltBy(t.Keys, x, columns[i].name);
    forall y | y in s ensures !Less(y, x) {
      LessTotal(x, y);
    }
    FirstUnique(First(s), x, s);
    KeepsData(t, columns, i);
  }

  lemma MissingKey<D>(t: Table<D>, columns: seq<Column>, i: nat)
    requires i < |columns| && columns[i].pk && columns[i].name !in Renamed(t, columns)
    requires forall l :: 0 <= l < |columns| && l != i ==> columns[l].name != columns[i].name
    ensures columns[i].name !in Migrate(t, columns)
  {
    AddedKeys(Renamed(t, columns), columns, |columns|);
  }

  /** No two columns take over the same data. */
  lemma SourcesDiffer<D>(t: Table<D>, columns: seq<Column>, i: nat, j: nat)
    requires Plain(columns) && i < |columns| && j < |columns| && i != j
    requires Source(t.Keys, columns, columns[i]).Some?
    ensures Source(t.Keys, columns, columns[i]) != Source(t.Keys, columns, columns[j])
  {
    var c, d := columns[i], columns[j];
    assert Apart(c, d) && Apart(d, c);
    if Source(t.Keys, columns, c) == Source(t.Keys, columns, d) {
      if c.name !in t && Spelt(t.Keys, c.name) && d.name !in t && Spelt(t.Keys, d.name) {
        OneSpelling(Source(t.Keys, columns, c).value, c.name, d.name);
      } else if Source(t.Keys, columns, c) == c.renamedFrom == d.renamedFrom {
        var r := c.renamedFrom.value;
        if SpeltLike(r, c.name) {
          SpeltBy(t.Keys, r, c.name);
        } else if SpeltLike(r, d.name) {
          SpeltBy(t.Keys, r, d.name);
        }
      }
    }
  }

  /** The current columns are reached exactly when every key has a source. */
  lemma ConvergesIff<D>(t: Table<D>, columns: seq<Column>)
    requires Plain(columns)
    ensures Migrate(t, columns).Keys == Names(columns) <==>
            forall i :: 0 <= i < |columns| && columns[i].pk ==> Source(t.Keys, columns, columns[i]).Some?
  {
    MigratedKeys(t, columns);
    forall i | 0 <= i < |columns|
      ensures columns[i].name in Migrate(t, columns) <==> !columns[i].pk || Source(t.Keys, columns, columns[i]).Some?
    {
      KeepsData(t, columns, i);
    }
    if Migrate(t, columns).Keys == Names(columns) {
      forall i | 0 <= i < |columns| ensures columns[i].name in Migrate(t, columns) {
        assert columns[i].name in Names(columns);
      }
    } else {
      var x :| x in Names(columns) && x !in Migrate(t, columns);
      var c :| c in columns && c.name == x;
      var i :| 0 <= i < |columns| && columns[i] == c;
    }
  }

  /** A second run changes nothing, whether or not the first one found every key. */
  lemma Idempotent<D>(t: Table<D>, columns: seq<Column>)
    requires Plain(columns)
    ensures Migrate(Migrate(t, columns), columns) == Migrate(t, columns)
  {
    var m := Migrate(t, columns);
    MigratedKeys(t, columns);
    forall c | c in columns && c.name !in m ensures c.pk && !Spelt(m.Keys, c.name) && NotFrom(m, c) {
      var i :| 0 <= i < |columns| && columns[i] == c;
      MigratedColumn(t, columns, i);
      forall x | x in m ensures !SpeltLike(x, c.name) && c.renamedFrom != Some(x) {
        assert x in Names(columns);
        var d :| d in columns && d.name == x;
        var j :| 0 <= j < |columns| && columns[j] == d;
        assert Apart(columns[i], columns[j]);
      }
    }
    SettledUnchanged(m, columns);
  }

  // ---- Exactly when every table keeps its data and its key ----

  /** The column holds the data of its source, or NULL if it has none; a key without a source
      is missing. */
  ghost predicate HoldsSource<D>(t: Table<D>, m: Table<D>, columns: seq<Column>, c: Column) {
    var source := Source(t.Keys, columns, c);
    && (c.name in m <==> !c.pk || source.Some?)
    && (source.Some? ==> source.value in t && m[c.name] == t[source.value])
    && (source.None? && !c.pk ==> m[c.name] == None)
  }

  ghost predicate AllHold<D>(t: Table<D>, columns: seq<Column>) {
    forall c <- columns :: HoldsSource(t, Migrate(t, columns), columns, c)
  }

  /** A live column that is still declared keeps its own data. */
  ghost predicate OwnKept<D>(t: Table<D>, columns: seq<Column>) {
    forall c <- columns :: c.name in t ==> c.name in Migrate(t, columns) && Migrate(t, columns)[c.name] == t[c.name]
  }

  lemma OwnIsKept<D>(t: Table<D>, columns: seq<Column>)
    requires forall c <- columns :: Safe(c.name, columns)
    ensures OwnKept(t, columns)
  {
    forall c | c in columns && c.name in t
      ensures c.name in Migrate(t, columns) && Migrate(t, columns)[c.name] == t[c.name]
    {
      var i :| 0 <= i < |columns| && columns[i] == c;
      LegacyKeeps(t, columns, |columns|, c.name);
      RenameKeeps(LegacySteps(t, columns, |columns|), columns, |columns|, c.name);
      MigratedColumn(t, columns, i);
    }
  }

  // A table of a single column, followed through the renames.

  lemma SingleSpelling(x: string, l: Legacy)
    ensures Spellings({x}, l) == if Matches(x, l) then {x} else {}
  {
  }

  lemma {:induction false} LegacyAlone<D>(columns: seq<Column>, x: string, v: Option<D>, n: nat) returns (y: string)
    requires n <= |columns|
    ensures LegacySteps(map[x := v], columns, n) == map[y := v]
    ensures y == x || (LegacyOf(y).Some? && exists c <- columns :: c.name == y)
    ensures y == x ==> forall i :: 0 <= i < n && columns[i].name != x ==> !SpeltLike(x, columns[i].name)
  {
    y := x;
    if n > 0 {
      y := LegacyAlone(columns, x, v, n - 1);
      var t, c := LegacySteps(map[x := v], columns, n - 1), columns[n - 1];
      assert t.Keys == {y};
      if LegacyOf(c.name).Some? && c.name != y {
        var l := LegacyOf(c.name).value;
        SingleSpelling(y, l);
        if y != x {
          HiddenUnspelt(y, c.name);
        } else if Matches(y, l) {
          assert First({y}) in {y};
          assert LegacyStep(t, c) == map[c.name := v];
          assert c in columns;
          y := c.name;
        }
      }
    }
  }

  lemma {:induction false} RenameAlone<D>(columns: seq<Column>, x: string, v: Option<D>, n: nat) returns (y: string)
    requires n <= |columns|
    ensures RenameSteps(map[x := v], columns, n) == map[y := v]
    ensures y == x || exists c <- columns :: c.name == y
  {
    y := x;
    if n > 0 {
      y := RenameAlone(columns, x, v, n - 1);
      var c := columns[n - 1];
      if c.renamedFrom == Some(y) && c.name != y {
        assert RenameStep(map[y := v], c) == map[c.name := v];
        assert c in columns;
        y := c.name;
      }
    }
  }

  lemma {:induction false} RenameStays<D>(t: Table<D>, columns: seq<Column>, y: string, v: Option<D>, k: nat, n: nat)
    requires k <= n <= |columns| && RenameSteps(t, columns, k) == map[y := v]
    requires forall l :: k <= l < n ==> columns[l].renamedFrom != Some(y) || columns[l].name == y
    ensures RenameSteps(t, columns, n) == map[y := v]
    decreases n
  {
    if k < n {
      RenameStays(t, columns, y, v, k, n - 1);
    }
  }

  /** Column k is renamed from another declared column. */
  ghost predicate FromDeclared(columns: seq<Column>, k: nat)
    requires k < |columns|
  {
    exists d <- columns :: columns[k].renamedFrom == Some(d.name) && d.name != columns[k].name
  }

  lemma {:induction false} LastFromDeclared(columns: seq<Column>, i: nat, n: nat) returns (k: nat)
    requires i < n <= |columns| && FromDeclared(columns, i)
    ensures i <= k < n && FromDeclared(columns, k)
    ensures forall l :: k < l < n ==> !FromDeclared(columns, l)
    decreases n
  {
    if FromDeclared(columns, n - 1) {
      k := n - 1;
    } else {
      k := LastFromDeclared(columns, i, n - 1);
    }
  }

  /** The data of a column that the last rename between declared columns takes from. */
  lemma LostToRename<D>(columns: seq<Column>, i: nat, v: D) returns (m: string)
    requires i < |columns| && FromDeclared(columns, i)
    ensures exists d <- columns :: d.name == m
    ensures m !in Renamed(map[m := Some(v)], columns)
  {
    var k := LastFromDeclared(columns, i, |columns|);
    var d :| d in columns && columns[k].renamedFrom == Some(d.name) && d.name != columns[k].name;
    m := d.name;
    var t: Table<D> := map[m := Some(v)];
    var y := LegacyAlone(columns, m, Some(v), |columns|);
    var z := RenameAlone(columns, y, Some(v), k);
    var staged: Table<D> := map[y := Some(v)];
    var next := if z == m then columns[k].name else z;
    assert RenameStep(map[z := Some(v)], columns[k]) == map[next := Some(v)];
    assert RenameSteps(staged, columns, k + 1) == map[next := Some(v)];
    assert columns[k] in columns;
    assert exists e <- columns :: e.name == next;
    forall l | k + 1 <= l < |columns| ensures columns[l].renamedFrom != Some(next) || columns[l].name == next {
      assert !FromDeclared(columns, l);
    }
    RenameStays(staged, columns, next, Some(v), k + 1, |columns|);
  }

  /** With no rename between declared columns, the data of one spelt like a hidden column. */
  lemma LostToLegacy<D>(columns: seq<Column>, i: nat, j: nat, v: D)
    requires i < |columns| && j < |columns| && columns[i].name != columns[j].name
    requires SpeltLike(columns[j].name, columns[i].name)
    requires forall k :: 0 <= k < |columns| ==> !FromDeclared(columns, k)
    ensures columns[j].name !in Renamed(map[columns[j].name := Some(v)], columns)
  {
    var m := columns[j].name;
    var y := LegacyAlone(columns, m, Some(v), |columns|);
    assert y != m;
    var staged: Table<D> := map[y := Some(v)];
    forall l | 0 <= l < |columns| ensures columns[l].renamedFrom != Some(y) || columns[l].name == y {
      assert !FromDeclared(columns, l);
    }
    RenameStays(staged, columns, y, Some(v), 0, |columns|);
  }

  lemma OwnDataLost<D>(columns: seq<Column>, i: nat, j: nat, v: D) returns (t: Table<D>)
    requires i < |columns| && j < |columns| && TakesFrom(columns[i], columns[j].name)
    ensures !OwnKept(t, columns)
  {
    var m := columns[j].name;
    assert columns[j] in columns;
    if k :| 0 <= k < |columns| && FromDeclared(columns, k) {
      m := LostToRename(columns, k, v);
    } else {
      assert !FromDeclared(columns, i);
      LostToLegacy(columns, i, j, v);
    }
    t := map[m := Some(v)];
    var d :| d in columns && d.name == m;
    var l :| 0 <= l < |columns| && columns[l] == d;
    MigratedColumn(t, columns, l);
    assert !(d.name in Migrate(t, columns) && Migrate(t, columns)[d.name] == t[d.name]);
  }

  /** Every table keeps the data of its declared columns if and only if the schema takes no
      column from another declared one, by a rename or as a legacy spelling. */
  lemma OwnDataKeptIff<D>(columns: seq<Column>, v: D)
    ensures (forall t: Table<D> :: OwnKept(t, columns)) <==> forall c <- columns :: Safe(c.name, columns)
  {
    if forall c <- columns :: Safe(c.name, columns) {
      forall t: Table<D> ensures OwnKept(t, columns) {
        OwnIsKept(t, columns);
      }
    } else {
      var d :| d in columns && !Safe(d.name, columns);
      var c :| c in columns && TakesFrom(c, d.name);
      var i :| 0 <= i < |columns| && columns[i] == c;
      var j :| 0 <= j < |columns| && columns[j] == d;
      var t: Table<D> := OwnDataLost(columns, i, j, v);
    }
  }

  // A key that is not itself renamed, once taken, does not come back.

  /** Column k is a key, declared once and not renamed from another column. */
  predicate IsKey(columns: seq<Column>, k: nat) {
    && k < |columns| && columns[k].pk && columns[k].renamedFrom.None?
    && forall l :: 0 <= l < |columns| && l != k ==> columns[l].name != columns[k].name
  }

  lemma {:induction false} KeyRenamed<D>(columns: seq<Column>, k: nat, x: string, v: Option<D>, n: nat) returns (y: string)
    requires IsKey(columns, k) && n <= |columns|
    ensures RenameSteps(map[x := v], columns, n) == map[y := v]
    ensures y == columns[k].name ==> x == y && forall l :: 0 <= l < n ==> columns[l].renamedFrom != Some(y)
  {
    y := x;
    if n > 0 {
      y := KeyRenamed(columns, k, x, v, n - 1);
      var c := columns[n - 1];
      if c.renamedFrom == Some(y) && c.name != y {
        assert RenameStep(map[y := v], c) == map[c.name := v];
        y := c.name;
      }
    }
  }

  lemma KeyLost<D>(columns: seq<Column>, k: nat, j: nat, v: Option<D>)
    requires IsKey(columns, k) && j < |columns| && TakesFrom(columns[j], columns[k].name)
    ensures columns[k].name !in Migrate(map[columns[k].name := v], columns)
  {
    var x := columns[k].name;
    var t: Table<D> := map[x := v];
    var y := LegacyAlone(columns, x, v, |columns|);
    var z := KeyRenamed(columns, k, y, v, |columns|);
    assert Renamed(t, columns) == map[z := v];
    assert z != x;
    MissingKey(t, columns, k);
  }

  lemma KeyKept<D>(t: Table<D>, columns: seq<Column>, k: nat)
    requires k < |columns| && Safe(columns[k].name, columns) && columns[k].name in t
    ensures columns[k].name in Migrate(t, columns)
  {
    LegacyKeeps(t, columns, |columns|, columns[k].name);
    RenameKeeps(LegacySteps(t, columns, |columns|), columns, |columns|, columns[k].name);
    MigratedColumn(t, columns, k);
  }

  /** Every table that has the key keeps it if and only if the schema takes no column from it. */
  lemma KeyKeptIff<D>(columns: seq<Column>, k: nat, v: Option<D>)
    requires IsKey(columns, k)
    ensures (forall t: Table<D> :: columns[k].name in t ==> columns[k].name in Migrate(t, columns))
       <==> Safe(columns[k].name, columns)
  {
    if Safe(columns[k].name, columns) {
      forall t: Table<D> | columns[k].name in t ensures columns[k].name in Migrate(t, columns) {
        KeyKept(t, columns, k);
      }
    } else {
      var c :| c in columns && TakesFrom(c, columns[k].name);
      var j :| 0 <= j < |columns| && columns[j] == c;
      KeyLost(columns, k, j, v);
    }
  }

  /** With one key, every table that has it, under its own name or a legacy one, reaches the
      current columns if and only if the schema takes no column from the key. */
  lemma AlwaysConvergesIff<D>(columns: seq<Column>, k: nat, v: Option<D>)
    requires IsKey(columns, k) && forall l :: 0 <= l < |columns| && l != k ==> !columns[l].pk
    ensures (forall t: Table<D> :: HasKeys(t, columns) ==> Migrate(t, columns).Keys == Names(columns))
       <==> Safe(columns[k].name, columns)
  {
    if Safe(columns[k].name, columns) {
      forall t: Table<D> | HasKeys(t, columns) ensures Migrate(t, columns).Keys == Names(columns) {
        Converges(t, columns);
      }
    } else {
      var c :| c in columns && TakesFrom(c, columns[k].name);
      var j :| 0 <= j < |columns| && columns[j] == c;
      KeyLost(columns, k, j, v);
      var t: Table<D> := map[columns[k].name := v];
      assert HasKeys(t, columns);
      assert columns[k] in columns && columns[k].name in Names(columns);
    }
  }

  // Two columns renamed from one.

  /** The live table on which columns i and j compete for a column that neither has. */
  function Contested<D>(columns: seq<Column>, i: nat, j: nat, v: D): Table<D>
    requires i < |columns| && columns[i].renamedFrom.Some?
  {
    var others: Table<D> := map l | 0 <= l < |columns| && l != i && l != j :: columns[l].name := None;
    others[columns[i].renamedFrom.value := Some(v)]
  }

  lemma ContestedStaged<D>(columns: seq<Column>, i: nat, j: nat, v: D, n: nat)
    requires i < |columns| && j < |columns| && i != j && n <= |columns|
    requires DistinctNames(columns) && Compete(columns[i], columns[j])
    requires forall c <- columns :: Safe(c.name, columns)
    ensures LegacySteps(Contested(columns, i, j, v), columns, n) == Contested(columns, i, j, v)
  {
    if n > 0 {
      ContestedStaged(columns, i, j, v, n - 1);
      ContestedUnspelt(columns, i, j, v, n - 1);
    }
  }

  lemma ContestedUnspelt<D>(columns: seq<Column>, i: nat, j: nat, v: D, l: nat)
    requires i < |columns| && j < |columns| && i != j && l < |columns|
    requires DistinctNames(columns) && Compete(columns[i], columns[j])
    requires forall c <- columns :: Safe(c.name, columns)
    ensures columns[l].name in Contested(columns, i, j, v) || !Spelt(Contested(columns, i, j, v).Keys, columns[l].name)
  {
    var t, c := Contested(columns, i, j, v), columns[l];
    if c.name !in t {
      assert l == i || l == j;
      forall x | x in t ensures !SpeltLike(x, c.name) {
        if x != columns[i].renamedFrom.value {
          var m :| 0 <= m < |columns| && columns[m].name == x;
          assert columns[m] in columns && !TakesFrom(c, x);
        }
      }
    }
  }

  /** Both have the source in t, and neither is there itself; all other columns are. */
  ghost predicate BothAbsent<D>(t: Table<D>, columns: seq<Column>, i: nat, j: nat)
    requires i < |columns| && j < |columns|
  {
    && Compete(columns[i], columns[j]) && columns[i].renamedFrom.value in t
    && forall l :: 0 <= l < |columns| ==>
         (columns[l].name in t <==> l != i && l != j) && columns[l].name != columns[i].renamedFrom.value
  }

  /** The first of the two gets the data, and the other one nothing. */
  lemma {:induction false} ContestedRenames<D>(t: Table<D>, columns: seq<Column>, i: nat, j: nat, n: nat)
    requires i < j < |columns| && n <= |columns| && BothAbsent(t, columns, i, j)
    ensures RenameSteps(t, columns, n) == if n <= i then t else Rename(t, columns[i].renamedFrom.value, columns[i].name)
  {
    if n > 0 {
      ContestedRenames(t, columns, i, j, n - 1);
      assert columns[n - 1].name in t <==> n - 1 != i && n - 1 != j;
      assert columns[i].name !in t && columns[i].name != columns[i].renamedFrom.value;
    }
  }

  lemma ContestedName<D>(columns: seq<Column>, i: nat, j: nat, v: D, l: nat)
    requires i < j < |columns| && l < |columns|
    requires DistinctNames(columns) && Compete(columns[i], columns[j])
    requires forall c <- columns :: Safe(c.name, columns)
    ensures columns[l].name in Contested(columns, i, j, v) <==> l != i && l != j
    ensures columns[l].name != columns[i].renamedFrom.value
  {
    assert columns[l] in columns && columns[i] in columns && columns[j] in columns;
    assert !TakesFrom(columns[i], columns[l].name) && !TakesFrom(columns[j], columns[l].name);
  }

  lemma ContestedLost<D>(columns: seq<Column>, i: nat, j: nat, v: D)
    requires i < j < |columns|
    requires DistinctNames(columns) && Compete(columns[i], columns[j])
    requires forall c <- columns :: Safe(c.name, columns)
    ensures !AllHold(Contested(columns, i, j, v), columns)
  {
    var t: Table<D> := Contested(columns, i, j, v);
    var d := columns[j];
    ContestedStaged(columns, i, j, v, |columns|);
    forall l: nat | l < |columns|
      ensures columns[l].name in t <==> l != i && l != j
      ensures columns[l].name != columns[i].renamedFrom.value
    {
      ContestedName(columns, i, j, v, l);
    }
    ContestedRenames(t, columns, i, j, |columns|);
    MigratedColumn(t, columns, j);
    ContestedUnspelt(columns, i, j, v, j);
    forall e | e in columns ensures e.name in t || !Spelt(t.Keys, e.name) {
      var l :| 0 <= l < |columns| && columns[l] == e;
      ContestedUnspelt(columns, i, j, v, l);
    }
    assert !TakenOver(t.Keys, columns, d.renamedFrom.value);
    assert Source(t.Keys, columns, d) == d.renamedFrom;
    assert d in columns && !HoldsSource(t, Migrate(t, columns), columns, d);
  }

  lemma OwnFollows<D>(t: Table<D>, columns: seq<Column>)
    requires AllHold(t, columns)
    ensures OwnKept(t, columns)
  {
    forall c | c in columns && c.name in t
      ensures c.name in Migrate(t, columns) && Migrate(t, columns)[c.name] == t[c.name]
    {
      assert HoldsSource(t, Migrate(t, columns), columns, c);
    }
  }

  /** On every table each column ends with its own old data, else its legacy data, else its
      renamed_from data, else NULL, if and only if the schema is plain. */
  lemma KeepsDataIff<D>(columns: seq<Column>, v: D)
    requires DistinctNames(columns)
    ensures (forall t: Table<D> :: AllHold(t, columns)) <==> Plain(columns)
  {
    if Plain(columns) {
      forall t: Table<D> ensures AllHold(t, columns) {
        forall c | c in columns ensures HoldsSource(t, Migrate(t, columns), columns, c) {
          var i :| 0 <= i < |columns| && columns[i] == c;
          KeepsData(t, columns, i);
        }
      }
    } else if forall c <- columns :: Safe(c.name, columns) {
      var i, j :| 0 <= i < |columns| && 0 <= j < |columns| && i != j && !Apart(columns[i], columns[j]);
      assert columns[i] in columns && !TakesFrom(columns[i], columns[j].name);
      if i < j {
        ContestedLost(columns, i, j, v);
      } else {
        ContestedLost(columns, j, i, v);
      }
    } else {
      OwnDataKeptIff(columns, v);
      var t: Table<D> :| !OwnKept(t, columns);
      if AllHold(t, columns) {
        OwnFollows(t, columns);
      }
    }
  }

  /** The smallest such schemas: a name re-declared beside a column renamed from it, ... */
  lemma RedeclaredNameLosesItsData<D>(a: Column, b: Column, v: D)
    requires a.name != b.name && b.renamedFrom == Some(a.name)
    ensures exists t: Table<D> :: !OwnKept(t, [b, a])
  {
    var columns := [b, a];
    OwnDataKeptIff(columns, v);
    assert b in columns && a in columns && TakesFrom(b, a.name);
  }

  /** ... and a column renamed from the key. */
  lemma KeyRenamedAway<D>(k: Column, b: Column, v: Option<D>)
    requires k.pk && k.renamedFrom.None? && b.name != k.name && b.renamedFrom == Some(k.name)
    ensures k.name !in Migrate(map[k.name := v], [k, b])
  {
    var columns := [k, b];
    assert TakesFrom(columns[1], k.name);
    KeyLost(columns, 0, 1, v);
  }
}
