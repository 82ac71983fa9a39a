/** The flat row of a table-bearing message. A nested message is compiled to columns, one per
    scalar or enum field at any depth and one per embedded message recording that it is
    set, and read back from them. Embedded types are given as trees: the type registry of
    an acyclic schema, unfolded. */
module Columns {
  import opened Wrappers

  // ---- Schema ----

  datatype Kind = IntKind | RealKind | TextKind | EnumKind

  /** Elsewhere: a field with no column of its own in the flat row (maps, repeated fields,
      references to table-bearing messages, unknown types). */
  datatype FieldType = Plain(kind: Kind) | Embedded(msg: MessageType) | Elsewhere

  datatype Field = Field(name: string, ty: FieldType, optional: bool)

  datatype MessageType = MessageType(fields: seq<Field>)

  function LowerChar(c: char): char {
    if 'A' <= c <= 'Z' then (c as int + 32) as char else c
  }

  /** The accessor of a field: its name in lower case. */
  function Accessor(f: Field): string {
    seq(|f.name|, i requires 0 <= i < |f.name| => LowerChar(f.name[i]))
  }

  /** The accessor differs from the name in that capital letters are small ones. */
  lemma AccessorCharacters(f: Field, i: nat)
    requires i < |f.name|
    ensures |Accessor(f)| == |f.name|
    ensures Accessor(f)[i] as int == f.name[i] as int + if 65 <= f.name[i] as int <= 90 then 32 else 0
  {
  }

  predicate IsHidden(name: string) {
    |name| >= 7 && name[..7] == "HARPIA_"
  }

  /** The injected HARPIA_ fields count only in the table-bearing message itself. */
  predicate Visible(embedded: bool, f: Field) {
    !embedded || !IsHidden(f.name)
  }

  // ---- Messages ----

  datatype Value = IntValue(n: int) | RealValue(x: real) | TextValue(s: string)

  function Default(kind: Kind): Value {
    match kind
    case IntKind => IntValue(0)
    case RealKind => RealValue(0.0)
    case TextKind => TextValue("")
    case EnumKind => IntValue(0)
  }

  /** What is set in a message, by accessor. A field without explicit presence is in
      `scalars` exactly when it differs from its default. */
  datatype Message = Message(scalars: map<string, Value>, subs: map<string, Message>)

  const UNSET := Message(map[], map[])

  function Sub(m: Message, a: string): Message {
    if a in m.subs then m.subs[a] else UNSET
  }

  /** Reading through a chain of accessors; an unset level reads as a default message. */
  function At(m: Message, path: seq<string>): Message
    decreases |path|
  {
    if |path| == 0 then m else At(Sub(m, path[0]), path[1..])
  }

  /** Every level of the chain is set. */
  predicate AllSet(m: Message, path: seq<string>)
    decreases |path|
  {
    |path| == 0 || (path[0] in m.subs && AllSet(m.subs[path[0]], path[1..]))
  }

  function WithSub(m: Message, a: string, s: Message): Message {
    m.(subs := m.subs[a := s])
  }

  /** Writing through a chain of mutable accessors, which sets every level on the way. */
  function Put(m: Message, path: seq<string>, s: Message): Message
    decreases |path|
  {
    if |path| == 0 then s else WithSub(m, path[0], Put(Sub(m, path[0]), path[1..], s))
  }

  function SetScalar(m: Message, a: string, optional: bool, kind: Kind, v: Value): Message {
    if !optional && v == Default(kind) then m.(scalars := m.scalars - {a})
    else m.(scalars := m.scalars[a := v])
  }

  function GetScalar(m: Message, a: string, kind: Kind): Value {
    if a in m.scalars then m.scalars[a] else Default(kind)
  }

  // ---- Columns ----

  /** A column reads field `accessor` of the message at `path`. A presence column records
      whether that field, an embedded message, is set. */
  datatype Column = Column(name: string, kind: Kind, path: seq<string>, accessor: string, optional: bool, presence: bool)

  function PresencePath(c: Column): seq<string> {
    c.path + [c.accessor]
  }

  function ColumnName(prefix: string, path: seq<string>, f: Field): string {
    if |path| == 0 then f.name else prefix + "_" + f.name
  }

  function HasColumn(name: string, path: seq<string>): Column
    requires |path| > 0
  {
    Column("HARPIA_HAS_" + name, IntKind, path[..|path| - 1], path[|path| - 1], false, true)
  }

  /** The columns of one field of the message at `path`. */
  function ColumnsOf(prefix: string, path: seq<string>, f: Field): seq<Column>
    decreases f
  {
    if !Visible(|path| > 0, f) then []
    else
      var name := ColumnName(prefix, path, f);
      match f.ty
      case Plain(kind) => [Column(name, kind, path, Accessor(f), f.optional, false)]
      case Embedded(t) =>
        var inner := path + [Accessor(f)];
        [HasColumn(name, inner)] + FieldColumns(name, inner, t.fields)
      case Elsewhere => []
  }

  function FieldColumns(prefix: string, path: seq<string>, fields: seq<Field>): seq<Column>
    decreases fields
  {
    if |fields| == 0 then []
    else FieldColumns(prefix, path, fields[..|fields| - 1]) + ColumnsOf(prefix, path, fields[|fields| - 1])
  }

  /** The columns of a table-bearing message. */
  function Analyze(t: MessageType): seq<Column> {
    FieldColumns("", [], t.fields)
  }

  lemma OneMoreField(prefix: string, path: seq<string>, fields: seq<Field>, n: nat)
    requires n < |fields|
    ensures FieldColumns(prefix, path, fields[..n + 1]) == FieldColumns(prefix, path, fields[..n]) + ColumnsOf(prefix, path, fields[n])
  {
    assert fields[..n + 1][..n] == fields[..n];
  }

  /** The same, as the generator does it: a list grown in a loop, recursing at each
      embedded message. */
  method Flatten(prefix: string, path: seq<string>, fields: seq<Field>) returns (columns: seq<Column>)
    ensures columns == FieldColumns(prefix, path, fields)
    decreases fields
  {
    columns := [];
    var n := 0;
    while n < |fields|
      invariant n <= |fields| && columns == FieldColumns(prefix, path, fields[..n])
    {
      var f := fields[n];
      ghost var before := columns;
      if Visible(|path| > 0, f) {
        var name := ColumnName(prefix, path, f);
        match f.ty {
          case Plain(kind) =>
            columns := columns + [Column(name, kind, path, Accessor(f), f.optional, false)];
          case Embedded(t) =>
            var inner := path + [Accessor(f)];
            assert f == fields[n];
            var below := Flatten(name, inner, t.fields);
            columns := columns + ([HasColumn(name, inner)] + below);
          case Elsewhere =>
        }
      }
      assert columns == before + ColumnsOf(prefix, path, f);
      OneMoreField(prefix, path, fields, n);
      n := n + 1;
    }
    assert fields[..n] == fields;
  }

  // ---- Writing a row ----

  datatype Cell = Null | Stored(v: Value)

  type Row = map<string, Cell>

  function CellOf(row: Row, name: string): Cell {
    if name in row then row[name] else Null
  }

  /** What is bound for a column. */
  function Bound(c: Column, m: Message): Cell {
    var owner := At(m, c.path);
    if c.presence then Stored(IntValue(if c.accessor in owner.subs then 1 else 0))
    else
      var v := GetScalar(owner, c.accessor, c.kind);
      if c.optional then (if c.accessor in owner.scalars then Stored(v) else Null)
      else if AllSet(m, c.path) then Stored(v)
      else Null
  }

  function Bind(columns: seq<Column>, m: Message): Row {
    if |columns| == 0 then map[]
    else
      var c := columns[|columns| - 1];
      Bind(columns[..|columns| - 1], m)[c.name := Bound(c, m)]
  }

  // ---- Reading a row ----

  /** Which column records the presence of the embedded message at a path. */
  function Presence(columns: seq<Column>): map<seq<string>, string> {
    if |columns| == 0 then map[]
    else
      var c, before := columns[|columns| - 1], Presence(columns[..|columns| - 1]);
      if c.presence then before[PresencePath(c) := c.name] else before
  }

  /** NULL, a row from before presence was recorded, reads as present. */
  predicate ReadsPresent(cell: Cell) {
    cell != Stored(IntValue(0))
  }

  /** No enclosing presence column is stored 0. */
  predicate Guard(presence: map<seq<string>, string>, row: Row, path: seq<string>)
    decreases |path|
  {
    |path| == 0
    || (Guard(presence, row, path[..|path| - 1])
        && (path in presence ==> ReadsPresent(CellOf(row, presence[path]))))
  }

  function ValueIn(cell: Cell, kind: Kind): Value {
    match cell
    case Null => Default(kind)
    case Stored(v) => v
  }

  /** The statement emitted for one column, run on a message. */
  function ReadColumn(presence: map<seq<string>, string>, row: Row, c: Column, m: Message): Message {
    var cell := CellOf(row, c.name);
    if c.presence then
      if Guard(presence, row, PresencePath(c)) then Put(m, PresencePath(c), At(m, PresencePath(c))) else m
    else if Guard(presence, row, c.path) && !(c.optional && cell.Null?) then
      Put(m, c.path, SetScalar(At(m, c.path), c.accessor, c.optional, c.kind, ValueIn(cell, c.kind)))
    else m
  }

  function ReadColumns(presence: map<seq<string>, string>, row: Row, columns: seq<Column>, m: Message): Message
    decreases |columns|
  {
    if |columns| == 0 then m
    else ReadColumns(presence, row, columns[1..], ReadColumn(presence, row, columns[0], m))
  }

  /** Extracting a fresh message from a row. */
  function Extract(t: MessageType, row: Row): Message {
    ReadColumns(Presence(Analyze(t)), row, Analyze(t), UNSET)
  }

  /** The statements run one after the other on the message. */
  method ExtractRow(columns: seq<Column>, row: Row) returns (m: Message)
    ensures m == ReadColumns(Presence(columns), row, columns, UNSET)
  {
    m := UNSET;
    var presence, n := Presence(columns), 0;
    while n < |columns|
      invariant n <= |columns|
      invariant ReadColumns(presence, row, columns[n..], m) == ReadColumns(presence, row, columns, UNSET)
    {
      assert columns[n..][1..] == columns[n + 1..];
      m := ReadColumn(presence, row, columns[n], m);
      n := n + 1;
    }
  }

  // ---- What a row means, read recursively ----

  /** The message a row stands for, read off the nesting of its type: a field from its
      column, an embedded message unless its presence column is stored 0. */
  function Denote(prefix: string, embedded: bool, fields: seq<Field>, row: Row): Message
    decreases fields
  {
    if |fields| == 0 then UNSET
    else
      DenoteField(prefix, embedded, fields[|fields| - 1], row,
                  Denote(prefix, embedded, fields[..|fields| - 1], row))
  }

  function FullName(prefix: string, embedded: bool, f: Field): string {
    if embedded then prefix + "_" + f.name else f.name
  }

  function DenoteField(prefix: string, embedded: bool, f: Field, row: Row, m: Message): Message
    decreases f
  {
    if !Visible(embedded, f) then m
    else
      var name := FullName(prefix, embedded, f);
      match f.ty
      case Plain(kind) =>
        var cell := CellOf(row, name);
        if f.optional && cell.Null? then m
        else SetScalar(m, Accessor(f), f.optional, kind, ValueIn(cell, kind))
      case Embedded(t) =>
        if ReadsPresent(CellOf(row, "HARPIA_HAS_" + name))
        then WithSub(m, Accessor(f), Denote(name, true, t.fields, row))
        else m
      case Elsewhere => m
  }

  /** The fields of a message have distinct accessors, at every level. */
  ghost predicate ValidFields(fields: seq<Field>)
    decreases fields
  {
    && (forall i, j :: 0 <= i < j < |fields| ==> Accessor(fields[i]) != Accessor(fields[j]))
    && (forall i :: 0 <= i < |fields| && fields[i].ty.Embedded? ==> ValidFields(fields[i].ty.msg.fields))
  }

  // ---- Paths ----

  lemma {:induction false} AtPut(m: Message, path: seq<string>, s: Message)
    ensures At(Put(m, path, s), path) == s
    decreases |path|
  {
    if |path| > 0 {
      AtPut(Sub(m, path[0]), path[1..], s);
    }
  }

  lemma {:induction false} PutPut(m: Message, path: seq<string>, s: Message, t: Message)
    ensures Put(Put(m, path, s), path, t) == Put(m, path, t)
    decreases |path|
  {
    if |path| > 0 {
      PutPut(Sub(m, path[0]), path[1..], s, t);
    }
  }

  lemma {:induction false} AtStep(m: Message, path: seq<string>, a: string)
    ensures At(m, path + [a]) == Sub(At(m, path), a)
    decreases |path|
  {
    if |path| > 0 {
      assert (path + [a])[1..] == path[1..] + [a];
      AtStep(Sub(m, path[0]), path[1..], a);
    }
  }

  lemma {:induction false} AllSetStep(m: Message, path: seq<string>, a: string)
    ensures AllSet(m, path + [a]) == (AllSet(m, path) && a in At(m, path).subs)
    decreases |path|
  {
    if |path| > 0 {
      assert (path + [a])[1..] == path[1..] + [a];
      if path[0] in m.subs {
        AllSetStep(m.subs[path[0]], path[1..], a);
      }
    }
  }

  lemma {:induction false} PutStep(m: Message, path: seq<string>, a: string, s: Message)
    ensures Put(m, path + [a], s) == Put(m, path, WithSub(At(m, path), a, s))
    decreases |path|
  {
    if |path| > 0 {
      assert (path + [a])[1..] == path[1..] + [a];
      PutStep(Sub(m, path[0]), path[1..], a, s);
    }
  }

  lemma {:induction false} ReadAppend(presence: map<seq<string>, string>, row: Row, a: seq<Column>, b: seq<Column>, m: Message)
    ensures ReadColumns(presence, row, a + b, m) == ReadColumns(presence, row, b, ReadColumns(presence, row, a, m))
    decreases |a|
  {
    if |a| == 0 {
      assert a + b == b;
    } else {
      assert (a + b)[1..] == a[1..] + b;
      ReadAppend(presence, row, a[1..], b, ReadColumn(presence, row, a[0], m));
    }
  }

  // ---- An embedded message that is absent leaves no trace ----

  /** The message a column is about: the embedded message itself for a presence column. */
  function Subject(c: Column): seq<string> {
    if c.presence then PresencePath(c) else c.path
  }

  ghost predicate AllUnder(columns: seq<Column>, path: seq<string>) {
    forall c <- columns :: path <= Subject(c)
  }

  lemma {:induction false} FieldColumnsUnder(prefix: string, path: seq<string>, fields: seq<Field>)
    ensures AllUnder(FieldColumns(prefix, path, fields), path)
    decreases fields, 1
  {
    if |fields| > 0 {
      FieldColumnsUnder(prefix, path, fields[..|fields| - 1]);
      ColumnsOfUnder(prefix, path, fields[|fields| - 1]);
    }
  }

  lemma {:induction false} ColumnsOfUnder(prefix: string, path: seq<string>, f: Field)
    ensures AllUnder(ColumnsOf(prefix, path, f), path)
    ensures f.ty.Embedded? ==> AllUnder(ColumnsOf(prefix, path, f), path + [Accessor(f)])
    decreases f, 0
  {
    if Visible(|path| > 0, f) && f.ty.Embedded? {
      var inner := path + [Accessor(f)];
      FieldColumnsUnder(ColumnName(prefix, path, f), inner, f.ty.msg.fields);
      var has := HasColumn(ColumnName(prefix, path, f), inner);
      assert PresencePath(has) == inner;
      forall c | c in ColumnsOf(prefix, path, f) ensures inner <= Subject(c) && path <= Subject(c) {
        assert inner <= Subject(c);
        assert path == inner[..|path|] == Subject(c)[..|path|];
      }
    }
  }

  lemma {:induction false} GuardOfPrefix(presence: map<seq<string>, string>, row: Row, path: seq<string>, longer: seq<string>)
    requires path <= longer && Guard(presence, row, longer)
    ensures Guard(presence, row, path)
    decreases |longer|
  {
    if |path| < |longer| {
      GuardOfPrefix(presence, row, path, longer[..|longer| - 1]);
    } else {
      assert path == longer;
    }
  }

  lemma {:induction false} AbsentLeavesNoTrace(presence: map<seq<string>, string>, row: Row, columns: seq<Column>,
                                              path: seq<string>, m: Message)
    requires AllUnder(columns, path) && !Guard(presence, row, path)
    ensures ReadColumns(presence, row, columns, m) == m
    decreases |columns|
  {
    if |columns| > 0 {
      var c := columns[0];
      if Guard(presence, row, Subject(c)) {
        GuardOfPrefix(presence, row, path, Subject(c));
      }
      AbsentLeavesNoTrace(presence, row, columns[1..], path, m);
    }
  }

  // ---- Extraction computes the recursive meaning ----

  /** Every presence column is the one found for its path. */
  ghost predicate Finds(presence: map<seq<string>, string>, columns: seq<Column>) {
    forall c <- columns :: c.presence ==> PresencePath(c) in presence && presence[PresencePath(c)] == c.name
  }

  lemma {:induction false} DenoteSubs(prefix: string, embedded: bool, fields: seq<Field>, row: Row, a: string)
    requires a in Denote(prefix, embedded, fields, row).subs
    ensures exists i :: 0 <= i < |fields| && Accessor(fields[i]) == a
    decreases |fields|
  {
    var n := |fields| - 1;
    if Accessor(fields[n]) != a {
      DenoteSubs(prefix, embedded, fields[..n], row, a);
      var i :| 0 <= i < |fields[..n]| && Accessor(fields[..n][i]) == a;
      assert Accessor(fields[i]) == a;
    }
  }

  lemma {:induction false} FieldsExtract(presence: map<seq<string>, string>, row: Row, prefix: string, path: seq<string>,
                                        fields: seq<Field>, m: Message)
    requires ValidFields(fields) && Finds(presence, FieldColumns(prefix, path, fields)) && Guard(presence, row, path)
    ensures ReadColumns(presence, row, FieldColumns(prefix, path, fields), Put(m, path, UNSET))
         == Put(m, path, Denote(prefix, |path| > 0, fields, row))
    decreases fields, 1
  {
    if |fields| > 0 {
      var n := |fields| - 1;
      var before, f := fields[..n], fields[n];
      FieldsExtract(presence, row, prefix, path, before, m);
      ReadAppend(presence, row, FieldColumns(prefix, path, before), ColumnsOf(prefix, path, f), Put(m, path, UNSET));
      var read := Denote(prefix, |path| > 0, before, row);
      if Accessor(f) in read.subs {
        DenoteSubs(prefix, |path| > 0, before, row, Accessor(f));
      }
      FieldExtract(presence, row, prefix, path, f, m, read);
    }
  }

  lemma {:induction false} FieldExtract(presence: map<seq<string>, string>, row: Row, prefix: string, path: seq<string>,
                                       f: Field, m: Message, read: Message)
    requires f.ty.Embedded? ==> ValidFields(f.ty.msg.fields)
    requires Finds(presence, ColumnsOf(prefix, path, f)) && Guard(presence, row, path) && Accessor(f) !in read.subs
    ensures ReadColumns(presence, row, ColumnsOf(prefix, path, f), Put(m, path, read))
         == Put(m, path, DenoteField(prefix, |path| > 0, f, row, read))
    decreases f, 1
  {
    if !Visible(|path| > 0, f) || f.ty.Elsewhere? {
    } else if f.ty.Plain? {
      PlainExtract(presence, row, prefix, path, f, m, read);
    } else {
      EmbeddedExtract(presence, row, prefix, path, f, m, read);
    }
  }

  lemma PlainExtract(presence: map<seq<string>, string>, row: Row, prefix: string, path: seq<string>,
                     f: Field, m: Message, read: Message)
    requires Visible(|path| > 0, f) && f.ty.Plain? && Guard(presence, row, path)
    ensures ReadColumns(presence, row, ColumnsOf(prefix, path, f), Put(m, path, read))
         == Put(m, path, DenoteField(prefix, |path| > 0, f, row, read))
  {
    var c := ColumnsOf(prefix, path, f)[0];
    var start := Put(m, path, read);
    assert ReadColumns(presence, row, [c], start) == ReadColumn(presence, row, c, start);
    AtPut(m, path, read);
    PutPut(m, path, read, SetScalar(read, c.accessor, c.optional, c.kind, ValueIn(CellOf(row, c.name), c.kind)));
  }

  lemma {:induction false} EmbeddedExtract(presence: map<seq<string>, string>, row: Row, prefix: string, path: seq<string>,
                                          f: Field, m: Message, read: Message)
    requires Visible(|path| > 0, f) && f.ty.Embedded? && ValidFields(f.ty.msg.fields)
    requires Finds(presence, ColumnsOf(prefix, path, f)) && Guard(presence, row, path) && Accessor(f) !in read.subs
    ensures ReadColumns(presence, row, ColumnsOf(prefix, path, f), Put(m, path, read))
         == Put(m, path, DenoteField(prefix, |path| > 0, f, row, read))
    decreases f, 0
  {
    var name, inner := ColumnName(prefix, path, f), path + [Accessor(f)];
    var has, below := HasColumn(name, inner), FieldColumns(name, inner, f.ty.msg.fields);
    var start := Put(m, path, read);
    assert ColumnsOf(prefix, path, f) == [has] + below;
    assert PresencePath(has) == inner && has in ColumnsOf(prefix, path, f);
    assert inner[..|inner| - 1] == path;
    assert Guard(presence, row, inner) == ReadsPresent(CellOf(row, has.name));
    if Guard(presence, row, inner) {
      AtPut(m, path, read);
      AtStep(start, path, Accessor(f));
      assert At(start, inner) == UNSET;
      assert ([has] + below)[1..] == below;
      assert ReadColumn(presence, row, has, start) == Put(start, inner, UNSET);
      FieldsExtract(presence, row, name, inner, f.ty.msg.fields, start);
      var sub := Denote(name, true, f.ty.msg.fields, row);
      PutStep(start, path, Accessor(f), sub);
      PutPut(m, path, read, WithSub(read, Accessor(f), sub));
    } else {
      ColumnsOfUnder(prefix, path, f);
      AbsentLeavesNoTrace(presence, row, ColumnsOf(prefix, path, f), inner, start);
    }
  }

  // ---- Presence columns are told apart by their paths ----

  ghost predicate DistinctPresence(columns: seq<Column>) {
    forall i, j :: 0 <= i < j < |columns| && columns[i].presence && columns[j].presence ==>
      PresencePath(columns[i]) != PresencePath(columns[j])
  }

  lemma {:induction false} PresenceFinds(columns: seq<Column>)
    requires DistinctPresence(columns)
    ensures Finds(Presence(columns), columns)
    decreases |columns|
  {
    if |columns| > 0 {
      var n := |columns| - 1;
      PresenceFinds(columns[..n]);
      forall c | c in columns && c.presence
        ensures PresencePath(c) in Presence(columns) && Presence(columns)[PresencePath(c)] == c.name
      {
        var i :| 0 <= i < |columns| && columns[i] == c;
        if i < n {
          assert columns[..n][i] == c;
        }
      }
    }
  }

  /** Presence columns lie strictly below the message they are columns of, each under the
      accessor of one of its fields. */
  ghost predicate UnderSome(columns: seq<Column>, path: seq<string>, fields: seq<Field>) {
    forall c <- columns :: c.presence ==> exists i :: 0 <= i < |fields| && path + [Accessor(fields[i])] <= PresencePath(c)
  }

  lemma {:induction false} PresenceUnderSome(prefix: string, path: seq<string>, fields: seq<Field>)
    ensures UnderSome(FieldColumns(prefix, path, fields), path, fields)
    decreases fields
  {
    if |fields| > 0 {
      var n := |fields| - 1;
      PresenceUnderSome(prefix, path, fields[..n]);
      ColumnsOfUnder(prefix, path, fields[n]);
      forall c | c in FieldColumns(prefix, path, fields) && c.presence
        ensures exists i :: 0 <= i < |fields| && path + [Accessor(fields[i])] <= PresencePath(c)
      {
        if c in FieldColumns(prefix, path, fields[..n]) {
          var i :| 0 <= i < |fields[..n]| && path + [Accessor(fields[..n][i])] <= PresencePath(c);
          assert path + [Accessor(fields[i])] <= PresencePath(c);
        } else {
          assert c in ColumnsOf(prefix, path, fields[n]);
          assert path + [Accessor(fields[n])] <= PresencePath(c);
        }
      }
    }
  }

  lemma SiblingsApart(path: seq<string>, a: string, b: string, p: seq<string>)
    requires path + [a] <= p && path + [b] <= p
    ensures a == b
  {
    assert p[|path|] == (path + [a])[|path|] && p[|path|] == (path + [b])[|path|];
  }

  lemma {:induction false} FieldColumnsDistinct(prefix: string, path: seq<string>, fields: seq<Field>)
    requires ValidFields(fields)
    ensures DistinctPresence(FieldColumns(prefix, path, fields))
    decreases fields, 1
  {
    if |fields| > 0 {
      var n := |fields| - 1;
      var before, f := fields[..n], fields[n];
      var a, b := FieldColumns(prefix, path, before), ColumnsOf(prefix, path, f);
      FieldColumnsDistinct(prefix, path, before);
      ColumnsOfDistinct(prefix, path, f);
      PresenceUnderSome(prefix, path, before);
      ColumnsOfUnder(prefix, path, f);
      forall c, d | c in a && d in b && c.presence && d.presence ensures PresencePath(c) != PresencePath(d) {
        var i :| 0 <= i < |before| && path + [Accessor(before[i])] <= PresencePath(c);
        assert path + [Accessor(f)] <= PresencePath(d);
        if PresencePath(c) == PresencePath(d) {
          SiblingsApart(path, Accessor(before[i]), Accessor(f), PresencePath(c));
        }
      }
      AppendDistinct(a, b);
    }
  }

  lemma AppendDistinct(a: seq<Column>, b: seq<Column>)
    requires DistinctPresence(a) && DistinctPresence(b)
    requires forall c, d :: c in a && d in b && c.presence && d.presence ==> PresencePath(c) != PresencePath(d)
    ensures DistinctPresence(a + b)
  {
    var all := a + b;
    forall i, j | 0 <= i < j < |all| && all[i].presence && all[j].presence
      ensures PresencePath(all[i]) != PresencePath(all[j])
    {
      if i < |a| && |a| <= j {
        assert all[i] in a && all[j] in b;
      } else if |a| <= i {
        assert all[i] == b[i - |a|] && all[j] == b[j - |a|];
      }
    }
  }

  lemma {:induction false} ColumnsOfDistinct(prefix: string, path: seq<string>, f: Field)
    requires f.ty.Embedded? ==> ValidFields(f.ty.msg.fields)
    ensures DistinctPresence(ColumnsOf(prefix, path, f))
    decreases f, 0
  {
    if Visible(|path| > 0, f) && f.ty.Embedded? {
      var name, inner := ColumnName(prefix, path, f), path + [Accessor(f)];
      var has, below := HasColumn(name, inner), FieldColumns(name, inner, f.ty.msg.fields);
      FieldColumnsDistinct(name, inner, f.ty.msg.fields);
      PresenceUnderSome(name, inner, f.ty.msg.fields);
      assert PresencePath(has) == inner;
      forall d | d in below && d.presence ensures PresencePath(d) != inner {
        var i :| 0 <= i < |f.ty.msg.fields| && inner + [Accessor(f.ty.msg.fields[i])] <= PresencePath(d);
        assert |inner + [Accessor(f.ty.msg.fields[i])]| > |inner|;
      }
      AppendDistinct([has], below);
    }
  }

  /** For every row whatsoever, the flat statements compute the recursive meaning: a value
      is restored exactly when no enclosing presence column is stored 0, and NULL presence
      reads as present at every level. */
  lemma ExtractIsDenote(t: MessageType, row: Row)
    requires ValidFields(t.fields)
    ensures Extract(t, row) == Denote("", false, t.fields, row)
  {
    FieldColumnsDistinct("", [], t.fields);
    PresenceFinds(Analyze(t));
    FieldsExtract(Presence(Analyze(t)), row, "", [], t.fields, UNSET);
  }

  /** Presence coverage: above every column, each embedded message on its path has a
      presence column. */
  lemma {:induction false} PresenceCoverage(prefix: string, path: seq<string>, fields: seq<Field>, c: Column, n: nat)
    requires c in FieldColumns(prefix, path, fields) && |path| < n <= |Subject(c)|
    ensures exists p :: p in FieldColumns(prefix, path, fields) && p.presence && PresencePath(p) == Subject(c)[..n]
    decreases fields
  {
    var f := fields[|fields| - 1];
    if c in FieldColumns(prefix, path, fields[..|fields| - 1]) {
      PresenceCoverage(prefix, path, fields[..|fields| - 1], c, n);
      var p :| p in FieldColumns(prefix, path, fields[..|fields| - 1]) && p.presence && PresencePath(p) == Subject(c)[..n];
      assert p in FieldColumns(prefix, path, fields);
    } else {
      assert c in ColumnsOf(prefix, path, f);
      var name, inner := ColumnName(prefix, path, f), path + [Accessor(f)];
      assert f.ty.Embedded?;
      var has, below := HasColumn(name, inner), FieldColumns(name, inner, f.ty.msg.fields);
      ColumnsOfUnder(prefix, path, f);
      assert has in ColumnsOf(prefix, path, f) && PresencePath(has) == inner;
      if n == |inner| {
        assert Subject(c)[..n] == inner;
        assert has in FieldColumns(prefix, path, fields);
      } else {
        assert c in below;
        PresenceCoverage(name, inner, f.ty.msg.fields, c, n);
        var p :| p in below && p.presence && PresencePath(p) == Subject(c)[..n];
        assert p in ColumnsOf(prefix, path, f);
        assert p in FieldColumns(prefix, path, fields);
      }
    }
  }

  // ---- Round trip ----

  ghost predicate DistinctNames(columns: seq<Column>) {
    forall i, j :: 0 <= i < j < |columns| ==> columns[i].name != columns[j].name
  }

  ghost predicate Agrees(row: Row, columns: seq<Column>, m: Message) {
    forall c <- columns :: CellOf(row, c.name) == Bound(c, m)
  }

  lemma {:induction false} BindAgrees(columns: seq<Column>, m: Message)
    requires DistinctNames(columns)
    ensures Agrees(Bind(columns, m), columns, m)
    decreases |columns|
  {
    if |columns| > 0 {
      var n := |columns| - 1;
      BindAgrees(columns[..n], m);
      forall c | c in columns ensures CellOf(Bind(columns, m), c.name) == Bound(c, m) {
        var i :| 0 <= i < |columns| && columns[i] == c;
        if i < n {
          assert columns[..n][i] == c;
        }
      }
    }
  }

  /** What of a message has columns: its visible scalar and enum fields and, recursively,
      its embedded messages. */
  function Kept(embedded: bool, fields: seq<Field>, s: Message): Message
    decreases fields
  {
    if |fields| == 0 then UNSET
    else KeptField(embedded, fields[|fields| - 1], s, Kept(embedded, fields[..|fields| - 1], s))
  }

  function KeptField(embedded: bool, f: Field, s: Message, m: Message): Message
    decreases f
  {
    var a := Accessor(f);
    if !Visible(embedded, f) then m
    else
      match f.ty
      case Plain(kind) =>
        if f.optional && a !in s.scalars then m else SetScalar(m, a, f.optional, kind, GetScalar(s, a, kind))
      case Embedded(t) => if a in s.subs then WithSub(m, a, Kept(true, t.fields, s.subs[a])) else m
      case Elsewhere => m
  }

  lemma {:induction false} DenoteBound(prefix: string, path: seq<string>, fields: seq<Field>, row: Row, m: Message)
    requires Agrees(row, FieldColumns(prefix, path, fields), m) && AllSet(m, path)
    ensures Denote(prefix, |path| > 0, fields, row) == Kept(|path| > 0, fields, At(m, path))
    decreases fields, 1
  {
    if |fields| > 0 {
      var n := |fields| - 1;
      DenoteBound(prefix, path, fields[..n], row, m);
      DenoteFieldBound(prefix, path, fields[n], row, m, Denote(prefix, |path| > 0, fields[..n], row));
    }
  }

  lemma {:induction false} DenoteFieldBound(prefix: string, path: seq<string>, f: Field, row: Row, m: Message, read: Message)
    requires Agrees(row, ColumnsOf(prefix, path, f), m) && AllSet(m, path)
    ensures DenoteField(prefix, |path| > 0, f, row, read) == KeptField(|path| > 0, f, At(m, path), read)
    decreases f, 1
  {
    if Visible(|path| > 0, f) && f.ty.Plain? {
      var c := ColumnsOf(prefix, path, f)[0];
      assert c in ColumnsOf(prefix, path, f);
      PlainBound(prefix, path, f, row, m, c);
    } else if Visible(|path| > 0, f) && f.ty.Embedded? {
      EmbeddedBound(prefix, path, f, row, m, read);
    }
  }

  lemma PlainBound(prefix: string, path: seq<string>, f: Field, row: Row, m: Message, c: Column)
    requires f.ty.Plain? && AllSet(m, path)
    requires c == Column(ColumnName(prefix, path, f), f.ty.kind, path, Accessor(f), f.optional, false)
    requires CellOf(row, c.name) == Bound(c, m)
    ensures var cell, s, a := CellOf(row, FullName(prefix, |path| > 0, f)), At(m, path), Accessor(f);
            && (f.optional ==> (cell.Null? <==> a !in s.scalars))
            && (!(f.optional && cell.Null?) ==> ValueIn(cell, f.ty.kind) == GetScalar(s, a, f.ty.kind))
  {
  }

  lemma {:induction false} EmbeddedBound(prefix: string, path: seq<string>, f: Field, row: Row, m: Message, read: Message)
    requires Visible(|path| > 0, f) && f.ty.Embedded?
    requires Agrees(row, ColumnsOf(prefix, path, f), m) && AllSet(m, path)
    ensures DenoteField(prefix, |path| > 0, f, row, read) == KeptField(|path| > 0, f, At(m, path), read)
    decreases f, 0
  {
    var name, inner, a := ColumnName(prefix, path, f), path + [Accessor(f)], Accessor(f);
    var has, below := HasColumn(name, inner), FieldColumns(name, inner, f.ty.msg.fields);
    assert ColumnsOf(prefix, path, f) == [has] + below;
    assert has in [has] + below && inner[..|inner| - 1] == path;
    assert CellOf(row, has.name) == Bound(has, m) == Stored(IntValue(if a in At(m, path).subs then 1 else 0));
    if a in At(m, path).subs {
      AtStep(m, path, a);
      AllSetStep(m, path, a);
      assert Agrees(row, below, m);
      DenoteBound(name, inner, f.ty.msg.fields, row, m);
    }
  }

  /** Binding a message to its flat row and extracting a fresh one gives back everything
      that has a column, at every depth, with the same fields and embedded messages set. */
  lemma FlattenRoundTrip(t: MessageType, m: Message)
    requires ValidFields(t.fields) && DistinctNames(Analyze(t))
    ensures Extract(t, Bind(Analyze(t), m)) == Kept(false, t.fields, m)
  {
    var row := Bind(Analyze(t), m);
    BindAgrees(Analyze(t), m);
    ExtractIsDenote(t, row);
    DenoteBound("", [], t.fields, row, m);
  }

  /** Field f, visible and of the given sort, has accessor a. */
  predicate IsPlainAt(embedded: bool, f: Field, a: string) {
    Visible(embedded, f) && f.ty.Plain? && Accessor(f) == a
  }

  predicate IsEmbeddedAt(embedded: bool, f: Field, a: string) {
    Visible(embedded, f) && f.ty.Embedded? && Accessor(f) == a
  }

  /** Every field set in the message is declared, visible and of its sort; a field without
      explicit presence is there only with a value other than its default. */
  ghost predicate Declared(embedded: bool, fields: seq<Field>, s: Message) {
    && (forall a <- s.scalars :: exists i :: 0 <= i < |fields| && IsPlainAt(embedded, fields[i], a))
    && (forall a <- s.subs :: exists i :: 0 <= i < |fields| && IsEmbeddedAt(embedded, fields[i], a))
    && (forall i :: 0 <= i < |fields| && fields[i].ty.Plain? && !fields[i].optional && Accessor(fields[i]) in s.scalars ==>
          s.scalars[Accessor(fields[i])] != Default(fields[i].ty.kind))
  }

  /** A message of a type, all of whose content has columns. */
  ghost predicate Conforms(embedded: bool, fields: seq<Field>, s: Message)
    decreases fields
  {
    && Declared(embedded, fields, s)
    && (forall i :: 0 <= i < |fields| && fields[i].ty.Embedded? && Accessor(fields[i]) in s.subs ==>
          Conforms(true, fields[i].ty.msg.fields, s.subs[Accessor(fields[i])]))
  }

  function Accessors(fields: seq<Field>): set<string> {
    set f <- fields :: Accessor(f)
  }

  function Restrict(s: Message, to: set<string>): Message {
    Message(map a | a in s.scalars && a in to :: s.scalars[a], map a | a in s.subs && a in to :: s.subs[a])
  }

  /** Field f allows what the message holds under its accessor. */
  predicate Allows(embedded: bool, f: Field, s: Message) {
    var a := Accessor(f);
    && (a in s.scalars ==> IsPlainAt(embedded, f, a) && (f.optional || s.scalars[a] != Default(f.ty.kind)))
    && (a in s.subs ==> IsEmbeddedAt(embedded, f, a))
  }

  lemma DeclaredAllows(embedded: bool, fields: seq<Field>, s: Message, i: nat)
    requires forall j, k :: 0 <= j < k < |fields| ==> Accessor(fields[j]) != Accessor(fields[k])
    requires Declared(embedded, fields, s) && i < |fields|
    ensures Allows(embedded, fields[i], s)
  {
    var a := Accessor(fields[i]);
    if a in s.scalars {
      var j :| 0 <= j < |fields| && IsPlainAt(embedded, fields[j], a);
      assert i == j;
    }
    if a in s.subs {
      var j :| 0 <= j < |fields| && IsEmbeddedAt(embedded, fields[j], a);
      assert i == j;
    }
  }

  lemma KeptOne(embedded: bool, f: Field, s: Message, seen: set<string>)
    requires Allows(embedded, f, s) && Accessor(f) !in seen
    requires f.ty.Embedded? && Accessor(f) in s.subs ==>
               Kept(true, f.ty.msg.fields, s.subs[Accessor(f)]) == s.subs[Accessor(f)]
    ensures KeptField(embedded, f, s, Restrict(s, seen)) == Restrict(s, seen + {Accessor(f)})
  {
    var got, after := KeptField(embedded, f, s, Restrict(s, seen)), Restrict(s, seen + {Accessor(f)});
    assert got.scalars == after.scalars;
    assert got.subs == after.subs;
  }

  lemma AccessorsStep(fields: seq<Field>, n: nat)
    requires n < |fields|
    requires forall j, k :: 0 <= j < k < |fields| ==> Accessor(fields[j]) != Accessor(fields[k])
    ensures Accessors(fields[..n + 1]) == Accessors(fields[..n]) + {Accessor(fields[n])}
    ensures Accessor(fields[n]) !in Accessors(fields[..n])
  {
    assert fields[..n + 1] == fields[..n] + [fields[n]];
  }

  lemma {:induction false} KeptPrefix(embedded: bool, fields: seq<Field>, s: Message, n: nat)
    requires ValidFields(fields) && Conforms(embedded, fields, s) && n <= |fields|
    ensures Kept(embedded, fields[..n], s) == Restrict(s, Accessors(fields[..n]))
    decreases fields, n
  {
    if n > 0 {
      var f := fields[n - 1];
      KeptPrefix(embedded, fields, s, n - 1);
      assert fields[..n][..n - 1] == fields[..n - 1] && fields[..n][n - 1] == f;
      AccessorsStep(fields, n - 1);
      DeclaredAllows(embedded, fields, s, n - 1);
      if f.ty.Embedded? && Accessor(f) in s.subs {
        KeptIsAll(true, f.ty.msg.fields, s.subs[Accessor(f)]);
      }
      KeptOne(embedded, f, s, Accessors(fields[..n - 1]));
    }
  }

  lemma RestrictAll(embedded: bool, fields: seq<Field>, s: Message)
    requires Declared(embedded, fields, s)
    ensures Restrict(s, Accessors(fields)) == s
  {
    var all := Restrict(s, Accessors(fields));
    forall a | a in s.scalars ensures a in Accessors(fields) {
      var i :| 0 <= i < |fields| && IsPlainAt(embedded, fields[i], a);
      assert fields[i] in fields;
    }
    forall a | a in s.subs ensures a in Accessors(fields) {
      var i :| 0 <= i < |fields| && IsEmbeddedAt(embedded, fields[i], a);
      assert fields[i] in fields;
    }
    assert all.scalars == s.scalars && all.subs == s.subs;
  }

  lemma {:induction false} KeptIsAll(embedded: bool, fields: seq<Field>, s: Message)
    requires ValidFields(fields) && Conforms(embedded, fields, s)
    ensures Kept(embedded, fields, s) == s
    decreases fields, |fields| + 1
  {
    KeptPrefix(embedded, fields, s, |fields|);
    assert fields[..|fields|] == fields;
    RestrictAll(embedded, fields, s);
  }

  /** For a message whose content all has columns, the round trip is the identity. */
  lemma FlattenIdentity(t: MessageType, m: Message)
    requires ValidFields(t.fields) && DistinctNames(Analyze(t)) && Conforms(false, t.fields, m)
    ensures Extract(t, Bind(Analyze(t), m)) == m
  {
    FlattenRoundTrip(t, m);
    KeptIsAll(false, t.fields, m);
  }

  /** Distinct column names are a real condition: a field `a_b` beside an embedded `a` with
      a field `b` ask for one column. */
  lemma PrefixedNamesCollide(a: string, b: string, kind: Kind)
    requires !IsHidden(b)
    ensures var t := MessageType([Field(a + "_" + b, Plain(kind), false),
                                  Field(a, Embedded(MessageType([Field(b, Plain(kind), false)])), false)]);
            !DistinctNames(Analyze(t))
  {
    var inner, top := Field(b, Plain(kind), false), Field(a + "_" + b, Plain(kind), false);
    var embed := Field(a, Embedded(MessageType([inner])), false);
    var path := [] + [Accessor(embed)];
    OneField(a, path, inner);
    OneField("", [], top);
    assert ColumnsOf("", [], embed) == [HasColumn(a, path)] + ColumnsOf(a, path, inner);
    assert [top, embed][..1] == [top];
    var columns := FieldColumns("", [], [top, embed]);
    assert columns == ColumnsOf("", [], top) + ColumnsOf("", [], embed);
    assert columns[0].name == columns[2].name;
  }

  lemma OneField(prefix: string, path: seq<string>, f: Field)
    ensures FieldColumns(prefix, path, [f]) == ColumnsOf(prefix, path, f)
  {
    assert [f][..0] == [];
    assert FieldColumns(prefix, path, []) == [];
  }

  // ---- Which fields have columns, and under which names ----

  ghost predicate SpeltHidden(name: string) {
    exists s: string :: name == "HARPIA_" + s
  }

  lemma HiddenIff(name: string)
    ensures IsHidden(name) <==> SpeltHidden(name)
  {
    if IsHidden(name) {
      assert name == "HARPIA_" + name[7..];
    }
    if s: string :| name == "HARPIA_" + s {
      assert ("HARPIA_" + s)[..7] == "HARPIA_";
    }
  }

  /** A field of an embedded message has no column exactly when it has none of its own anywhere
      or is spelt like an injected field. */
  lemma NoColumnIff(prefix: string, path: seq<string>, f: Field)
    requires |path| > 0
    ensures ColumnsOf(prefix, path, f) == [] <==> f.ty.Elsewhere? || SpeltHidden(f.name)
  {
    HiddenIff(f.name);
  }

  /** A field reached from the table-bearing message through embedded ones. */
  ghost predicate IsChain(fields: seq<Field>, chain: seq<Field>, embedded: bool)
    decreases |chain|
  {
    && |chain| > 0 && chain[0] in fields && !(embedded && SpeltHidden(chain[0].name))
    && if |chain| == 1 then !chain[0].ty.Elsewhere?
       else chain[0].ty.Embedded? && IsChain(chain[0].ty.msg.fields, chain[1..], true)
  }

  function JoinedNames(chain: seq<Field>): string
    requires |chain| > 0
  {
    if |chain| == 1 then chain[0].name else chain[0].name + "_" + JoinedNames(chain[1..])
  }

  function AccessorsOf(chain: seq<Field>): seq<string> {
    seq(|chain|, i requires 0 <= i < |chain| => Accessor(chain[i]))
  }

  /** The column at the end of a chain: the names joined by underscores, after HARPIA_HAS_ for an
      embedded message, which the column says is set. */
  function ChainColumn(chain: seq<Field>): Column
    requires |chain| > 0 && !chain[|chain| - 1].ty.Elsewhere?
  {
    var n, f := |chain| - 1, chain[|chain| - 1];
    match f.ty
    case Plain(kind) => Column(JoinedNames(chain), kind, AccessorsOf(chain[..n]), Accessor(f), f.optional, false)
    case Embedded(_) => Column("HARPIA_HAS_" + JoinedNames(chain), IntKind, AccessorsOf(chain[..n]), Accessor(f), false, true)
  }

  lemma {:induction false} ChainEnds(fields: seq<Field>, chain: seq<Field>, embedded: bool)
    requires IsChain(fields, chain, embedded)
    ensures !chain[|chain| - 1].ty.Elsewhere?
    decreases |chain|
  {
    if |chain| > 1 {
      ChainEnds(chain[0].ty.msg.fields, chain[1..], true);
    }
  }

  /** The column of a chain below a prefix and a path. */
  ghost predicate IsColumnOf(prefix: string, path: seq<string>, chain: seq<Field>, c: Column)
    requires |chain| > 0 && !chain[|chain| - 1].ty.Elsewhere?
  {
    var end := ChainColumn(chain);
    && c.kind == end.kind && c.path == path + end.path && c.accessor == end.accessor
    && c.optional == end.optional && c.presence == end.presence
    && c.name == (if c.presence then "HARPIA_HAS_" else "") + (if |path| > 0 then prefix + "_" else "") + JoinedNames(chain)
  }

  ghost predicate FromChain(prefix: string, path: seq<string>, fields: seq<Field>, chain: seq<Field>, c: Column) {
    IsChain(fields, chain, |path| > 0) && !chain[|chain| - 1].ty.Elsewhere? && IsColumnOf(prefix, path, chain, c)
  }

  /** One step down: a chain below an embedded field is the chain from that field on. */
  lemma LongerChain(prefix: string, path: seq<string>, f: Field, rest: seq<Field>, c: Column)
    requires f.ty.Embedded? && |rest| > 0 && !rest[|rest| - 1].ty.Elsewhere?
    ensures IsColumnOf(ColumnName(prefix, path, f), path + [Accessor(f)], rest, c) <==> IsColumnOf(prefix, path, [f] + rest, c)
  {
    LongerPath(path, f, rest);
    var lead := if |path| > 0 then prefix + "_" else "";
    LongerName(lead, f, rest);
    assert lead + f.name == ColumnName(prefix, path, f);
  }

  lemma LongerPath(path: seq<string>, f: Field, rest: seq<Field>)
    requires |rest| > 0
    ensures var chain := [f] + rest;
            && chain[|chain| - 1] == rest[|rest| - 1]
            && path + [Accessor(f)] + AccessorsOf(rest[..|rest| - 1]) == path + AccessorsOf(chain[..|chain| - 1])
  {
    var chain := [f] + rest;
    assert chain[..|chain| - 1] == [f] + rest[..|rest| - 1];
    assert AccessorsOf(chain[..|chain| - 1]) == [Accessor(f)] + AccessorsOf(rest[..|rest| - 1]);
  }

  lemma LongerName(lead: string, f: Field, rest: seq<Field>)
    requires |rest| > 0
    ensures "" + lead + JoinedNames([f] + rest) == "" + (lead + f.name + "_") + JoinedNames(rest)
    ensures "HARPIA_HAS_" + lead + JoinedNames([f] + rest) == "HARPIA_HAS_" + (lead + f.name + "_") + JoinedNames(rest)
  {
    assert ([f] + rest)[1..] == rest;
    Regroup("", lead, f.name, "_", JoinedNames(rest));
    Regroup("HARPIA_HAS_", lead, f.name, "_", JoinedNames(rest));
  }

  lemma Regroup(a: string, b: string, c: string, d: string, e: string)
    ensures a + b + (c + d + e) == a + (b + c + d) + e
  {
  }

  function OwnColumn(prefix: string, path: seq<string>, f: Field): Column
    requires !f.ty.Elsewhere?
  {
    match f.ty
    case Plain(kind) => Column(ColumnName(prefix, path, f), kind, path, Accessor(f), f.optional, false)
    case Embedded(_) => HasColumn(ColumnName(prefix, path, f), path + [Accessor(f)])
  }

  lemma OwnColumnIff(prefix: string, path: seq<string>, f: Field, c: Column)
    requires !f.ty.Elsewhere?
    ensures IsColumnOf(prefix, path, [f], c) <==> c == OwnColumn(prefix, path, f)
  {
    OwnPath(path, f);
    OwnName(prefix, path, f);
  }

  lemma OwnPath(path: seq<string>, f: Field)
    ensures path + AccessorsOf([f][..0]) == path
    ensures var inner := path + [Accessor(f)]; inner[..|inner| - 1] == path && inner[|inner| - 1] == Accessor(f)
  {
    assert AccessorsOf([f][..0]) == [];
  }

  lemma OwnName(prefix: string, path: seq<string>, f: Field)
    ensures "" + (if |path| > 0 then prefix + "_" else "") + JoinedNames([f]) == ColumnName(prefix, path, f)
    ensures "HARPIA_HAS_" + (if |path| > 0 then prefix + "_" else "") + JoinedNames([f])
         == "HARPIA_HAS_" + ColumnName(prefix, path, f)
  {
    if |path| > 0 {
      LedName("", prefix + "_", f.name);
      LedName("HARPIA_HAS_", prefix + "_", f.name);
    } else {
      LedName("", "", f.name);
      LedName("HARPIA_HAS_", "", f.name);
    }
  }

  lemma LedName(a: string, b: string, c: string)
    ensures a + b + c == a + (b + c)
    ensures "" + c == c
  {
  }

  /** The columns of one field: its own, then those below it. */
  lemma FieldColumnIff(prefix: string, path: seq<string>, f: Field, c: Column)
    ensures c in ColumnsOf(prefix, path, f) <==>
              && !(|path| > 0 && SpeltHidden(f.name)) && !f.ty.Elsewhere?
              && (c == OwnColumn(prefix, path, f)
                  || (f.ty.Embedded? && c in FieldColumns(ColumnName(prefix, path, f), path + [Accessor(f)], f.ty.msg.fields)))
  {
    HiddenIff(f.name);
  }

  lemma {:induction false} ColumnHasChain(prefix: string, path: seq<string>, fields: seq<Field>, c: Column) returns (chain: seq<Field>)
    requires c in FieldColumns(prefix, path, fields)
    ensures FromChain(prefix, path, fields, chain, c)
    decreases fields
  {
    var n := |fields| - 1;
    if c in FieldColumns(prefix, path, fields[..n]) {
      chain := ColumnHasChain(prefix, path, fields[..n], c);
      assert chain[0] in fields;
    } else {
      var f := fields[n];
      FieldColumnIff(prefix, path, f, c);
      if c == OwnColumn(prefix, path, f) {
        chain := [f];
        OwnColumnIff(prefix, path, f, c);
      } else {
        var below := ColumnHasChain(ColumnName(prefix, path, f), path + [Accessor(f)], f.ty.msg.fields, c);
        chain := [f] + below;
        assert chain[1..] == below;
        LongerChain(prefix, path, f, below, c);
      }
    }
  }

  lemma {:induction false} ChainHasColumn(prefix: string, path: seq<string>, fields: seq<Field>, chain: seq<Field>, c: Column)
    requires FromChain(prefix, path, fields, chain, c)
    ensures c in FieldColumns(prefix, path, fields)
    decreases fields
  {
    var n, f := |fields| - 1, fields[|fields| - 1];
    if chain[0] in fields[..n] {
      ChainHasColumn(prefix, path, fields[..n], chain, c);
    } else {
      assert chain[0] == f;
      FieldColumnIff(prefix, path, f, c);
      if |chain| == 1 {
        assert chain == [f];
        OwnColumnIff(prefix, path, f, c);
      } else {
        assert chain == [f] + chain[1..];
        LongerChain(prefix, path, f, chain[1..], c);
        ChainHasColumn(ColumnName(prefix, path, f), path + [Accessor(f)], f.ty.msg.fields, chain[1..], c);
      }
    }
  }

  /** The columns of a message are exactly those at the ends of its chains of fields. */
  lemma ColumnsAreChains(t: MessageType, c: Column)
    ensures c in Analyze(t) <==> exists chain :: FromChain("", [], t.fields, chain, c)
  {
    if c in Analyze(t) {
      var chain := ColumnHasChain("", [], t.fields, c);
    }
    if chain :| FromChain("", [], t.fields, chain, c) {
      ChainHasColumn("", [], t.fields, chain, c);
    }
  }

  /** A field has its columns after those of the fields before it, ... */
  lemma ColumnsInOrder(prefix: string, path: seq<string>, fields: seq<Field>, f: Field)
    ensures FieldColumns(prefix, path, fields + [f]) == FieldColumns(prefix, path, fields) + ColumnsOf(prefix, path, f)
  {
    assert (fields + [f])[..|fields|] == fields;
  }

  /** ... and an embedded message has its own before those below it. */
  lemma OwnColumnFirst(prefix: string, path: seq<string>, f: Field)
    requires ColumnsOf(prefix, path, f) != []
    ensures ColumnsOf(prefix, path, f)[0] == OwnColumn(prefix, path, f)
  {
  }

  // ---- Which messages come back whole ----

  /** Every field set is declared and of its sort, whatever its name. */
  ghost predicate IsMessageOf(fields: seq<Field>, s: Message)
    decreases fields
  {
    && (forall a <- s.scalars :: exists i :: 0 <= i < |fields| && fields[i].ty.Plain? && Accessor(fields[i]) == a)
    && (forall a <- s.subs :: exists i :: 0 <= i < |fields| && fields[i].ty.Embedded? && Accessor(fields[i]) == a)
    && (forall i :: 0 <= i < |fields| && fields[i].ty.Plain? && !fields[i].optional && Accessor(fields[i]) in s.scalars ==>
          s.scalars[Accessor(fields[i])] != Default(fields[i].ty.kind))
    && (forall i :: 0 <= i < |fields| && fields[i].ty.Embedded? && Accessor(fields[i]) in s.subs ==>
          IsMessageOf(fields[i].ty.msg.fields, s.subs[Accessor(fields[i])]))
  }

  /** No field of an embedded message, at any depth, is spelt like an injected one. */
  ghost predicate HidesNothing(fields: seq<Field>, embedded: bool)
    decreases fields
  {
    forall i :: 0 <= i < |fields| && !fields[i].ty.Elsewhere? ==>
      && !(embedded && SpeltHidden(fields[i].name))
      && (fields[i].ty.Embedded? ==> HidesNothing(fields[i].ty.msg.fields, true))
  }

  lemma {:induction false} AllVisible(embedded: bool, fields: seq<Field>, s: Message)
    requires HidesNothing(fields, embedded) && IsMessageOf(fields, s)
    ensures Conforms(embedded, fields, s)
    decreases fields
  {
    forall i | 0 <= i < |fields| ensures Visible(embedded, fields[i]) || fields[i].ty.Elsewhere? {
      HiddenIff(fields[i].name);
    }
    forall a | a in s.scalars ensures exists i :: 0 <= i < |fields| && IsPlainAt(embedded, fields[i], a) {
      var i :| 0 <= i < |fields| && fields[i].ty.Plain? && Accessor(fields[i]) == a;
      assert IsPlainAt(embedded, fields[i], a);
    }
    forall a | a in s.subs ensures exists i :: 0 <= i < |fields| && IsEmbeddedAt(embedded, fields[i], a) {
      var i :| 0 <= i < |fields| && fields[i].ty.Embedded? && Accessor(fields[i]) == a;
      assert IsEmbeddedAt(embedded, fields[i], a);
    }
    forall i | 0 <= i < |fields| && fields[i].ty.Embedded? && Accessor(fields[i]) in s.subs
      ensures Conforms(true, fields[i].ty.msg.fields, s.subs[Accessor(fields[i])])
    {
      AllVisible(true, fields[i].ty.msg.fields, s.subs[Accessor(fields[i])]);
    }
  }

  ghost predicate DistinctAccessors(fields: seq<Field>) {
    forall i, j :: 0 <= i < j < |fields| ==> Accessor(fields[i]) != Accessor(fields[j])
  }

  /** The message holds the same under an accessor. */
  predicate SameAt(m: Message, s: Message, a: string) {
    && (a in m.scalars <==> a in s.scalars) && (a in m.scalars ==> m.scalars[a] == s.scalars[a])
    && (a in m.subs <==> a in s.subs) && (a in m.subs ==> m.subs[a] == s.subs[a])
  }

  lemma KeptOthers(embedded: bool, f: Field, s: Message, m: Message, a: string)
    requires Accessor(f) != a || !Visible(embedded, f)
    ensures SameAt(KeptField(embedded, f, s, m), m, a)
  {
  }

  lemma {:induction false} KeptNot(embedded: bool, fields: seq<Field>, s: Message, a: string)
    requires forall j :: 0 <= j < |fields| ==> Accessor(fields[j]) != a || !Visible(embedded, fields[j])
    ensures SameAt(Kept(embedded, fields, s), UNSET, a)
    decreases |fields|
  {
    if |fields| > 0 {
      var n := |fields| - 1;
      KeptNot(embedded, fields[..n], s, a);
      KeptOthers(embedded, fields[n], s, Kept(embedded, fields[..n], s), a);
    }
  }

  /** What is kept of an embedded message is kept of it. */
  lemma {:induction false} KeptThere(embedded: bool, fields: seq<Field>, s: Message, i: nat)
    requires DistinctAccessors(fields) && i < |fields| && Visible(embedded, fields[i])
    requires fields[i].ty.Embedded? && Accessor(fields[i]) in s.subs
    ensures var a, kept := Accessor(fields[i]), Kept(embedded, fields, s);
            a in kept.subs && kept.subs[a] == Kept(true, fields[i].ty.msg.fields, s.subs[a])
    decreases |fields|
  {
    var n := |fields| - 1;
    if i < n {
      KeptThere(embedded, fields[..n], s, i);
      KeptOthers(embedded, fields[n], s, Kept(embedded, fields[..n], s), Accessor(fields[i]));
    }
  }

  function Other(kind: Kind): Value {
    if kind == RealKind then RealValue(1.0) else IntValue(1)
  }

  /** A message that sets nothing but one field. */
  function Only(f: Field, below: Message): Message {
    if f.ty.Plain? then Message(map[Accessor(f) := Other(f.ty.kind)], map[])
    else Message(map[], map[Accessor(f) := below])
  }

  lemma OnlyIsMessage(fields: seq<Field>, i: nat, below: Message)
    requires DistinctAccessors(fields) && i < |fields| && !fields[i].ty.Elsewhere?
    requires fields[i].ty.Embedded? ==> IsMessageOf(fields[i].ty.msg.fields, below)
    ensures IsMessageOf(fields, Only(fields[i], below))
  {
    forall j | 0 <= j < |fields| && Accessor(fields[j]) == Accessor(fields[i]) ensures j == i {
    }
  }

  /** A message that sets one hidden field, and what is above it. */
  lemma {:induction false} HiddenIsLost(embedded: bool, fields: seq<Field>) returns (s: Message)
    requires ValidFields(fields) && !HidesNothing(fields, embedded)
    ensures IsMessageOf(fields, s) && Kept(embedded, fields, s) != s
    decreases fields
  {
    var i :| 0 <= i < |fields| && !fields[i].ty.Elsewhere?
             && ((embedded && SpeltHidden(fields[i].name))
                 || (fields[i].ty.Embedded? && !HidesNothing(fields[i].ty.msg.fields, true)));
    var f := fields[i];
    HiddenIff(f.name);
    var below := UNSET;
    if Visible(embedded, f) {
      below := HiddenIsLost(true, f.ty.msg.fields);
    }
    s := Only(f, below);
    OnlyIsMessage(fields, i, below);
    if Visible(embedded, f) {
      KeptThere(embedded, fields, s, i);
    } else {
      KeptNot(embedded, fields, s, Accessor(f));
      assert !SameAt(s, UNSET, Accessor(f));
    }
  }

  /** Every message of a type comes back whole if and only if none of its embedded messages has a
      field spelt "HARPIA_" and anything. */
  lemma WholeIff(t: MessageType)
    requires ValidFields(t.fields) && DistinctNames(Analyze(t))
    ensures (forall m :: IsMessageOf(t.fields, m) ==> Extract(t, Bind(Analyze(t), m)) == m) <==> HidesNothing(t.fields, false)
  {
    if HidesNothing(t.fields, false) {
      forall m | IsMessageOf(t.fields, m) ensures Extract(t, Bind(Analyze(t), m)) == m {
        AllVisible(false, t.fields, m);
        FlattenIdentity(t, m);
      }
    } else {
      var m := HiddenIsLost(false, t.fields);
      FlattenRoundTrip(t, m);
    }
  }

  // ---- What is read back from a row, in terms of its cells ----

  lemma OthersLeft(prefix: string, embedded: bool, f: Field, row: Row, m: Message, a: string)
    requires Accessor(f) != a
    ensures SameAt(DenoteField(prefix, embedded, f, row, m), m, a)
  {
  }

  /** The field holds the value of the cell; NULL is unset for an optional field and 0, 0.0 or the
      empty text for the others. */
  predicate IsRead(m: Message, f: Field, cell: Cell)
    requires f.ty.Plain?
  {
    var a, kind := Accessor(f), f.ty.kind;
    && (cell.Stored? ==> GetScalar(m, a, kind) == cell.v && (f.optional ==> a in m.scalars))
    && (cell.Null? ==> GetScalar(m, a, kind) == Zero(kind) && (f.optional ==> a !in m.scalars))
  }

  function Zero(kind: Kind): Value {
    if kind == TextKind then TextValue("") else if kind == RealKind then RealValue(0.0) else IntValue(0)
  }

  /** An embedded message is set unless its presence cell is stored 0. */
  ghost predicate IsSet(m: Message, f: Field, row: Row, name: string) {
    Accessor(f) in m.subs <==> CellOf(row, "HARPIA_HAS_" + name) != Stored(IntValue(0))
  }

  ghost predicate FieldIsRead(m: Message, prefix: string, embedded: bool, f: Field, row: Row) {
    var name := FullName(prefix, embedded, f);
    && (f.ty.Plain? ==> IsRead(m, f, CellOf(row, name)))
    && (f.ty.Embedded? ==> IsSet(m, f, row, name))
    && (f.ty.Embedded? && Accessor(f) in m.subs ==> m.subs[Accessor(f)] == Denote(name, true, f.ty.msg.fields, row))
  }

  lemma OneIsRead(prefix: string, embedded: bool, f: Field, row: Row, m: Message)
    requires Visible(embedded, f) && Accessor(f) !in m.scalars && Accessor(f) !in m.subs
    ensures FieldIsRead(DenoteField(prefix, embedded, f, row, m), prefix, embedded, f, row)
  {
  }

  lemma {:induction false} NotYetRead(prefix: string, embedded: bool, fields: seq<Field>, row: Row, a: string)
    requires forall j :: 0 <= j < |fields| ==> Accessor(fields[j]) != a
    ensures SameAt(Denote(prefix, embedded, fields, row), UNSET, a)
    decreases |fields|
  {
    if |fields| > 0 {
      var n := |fields| - 1;
      NotYetRead(prefix, embedded, fields[..n], row, a);
      OthersLeft(prefix, embedded, fields[n], row, Denote(prefix, embedded, fields[..n], row), a);
    }
  }

  lemma {:induction false} IsReadThere(prefix: string, embedded: bool, fields: seq<Field>, row: Row, i: nat)
    requires DistinctAccessors(fields) && i < |fields| && Visible(embedded, fields[i])
    ensures FieldIsRead(Denote(prefix, embedded, fields, row), prefix, embedded, fields[i], row)
    decreases |fields|
  {
    var n, f := |fields| - 1, fields[i];
    var before := Denote(prefix, embedded, fields[..n], row);
    if i == n {
      NotYetRead(prefix, embedded, fields[..n], row, Accessor(f));
      OneIsRead(prefix, embedded, f, row, before);
    } else {
      IsReadThere(prefix, embedded, fields[..n], row, i);
      OthersLeft(prefix, embedded, fields[n], row, before, Accessor(f));
    }
  }

  /** A chain of fields is read from a row: each embedded message on it is set unless its presence
      cell is stored 0, and the last field below set ones holds its cell. */
  ghost predicate ReadsAs(m: Message, prefix: string, embedded: bool, chain: seq<Field>, row: Row)
    requires |chain| > 0
    decreases |chain|
  {
    var f := chain[0];
    var name := if embedded then prefix + "_" + f.name else f.name;
    && (f.ty.Plain? ==> IsRead(m, f, CellOf(row, name)))
    && (f.ty.Embedded? ==> IsSet(m, f, row, name))
    && (|chain| > 1 && Accessor(f) in m.subs ==> ReadsAs(m.subs[Accessor(f)], name, true, chain[1..], row))
  }

  lemma {:induction false} DenoteReads(prefix: string, embedded: bool, fields: seq<Field>, row: Row, chain: seq<Field>)
    requires ValidFields(fields) && IsChain(fields, chain, embedded)
    ensures ReadsAs(Denote(prefix, embedded, fields, row), prefix, embedded, chain, row)
    decreases |chain|
  {
    var i :| 0 <= i < |fields| && fields[i] == chain[0];
    HiddenIff(chain[0].name);
    IsReadThere(prefix, embedded, fields, row, i);
    if |chain| > 1 {
      DenoteReads(FullName(prefix, embedded, fields[i]), true, fields[i].ty.msg.fields, row, chain[1..]);
    }
  }

  /** Whatever row is extracted, every chain of fields reads as its cells say; NULL in a presence
      cell reads as present at every level. */
  lemma ExtractReads(t: MessageType, row: Row, chain: seq<Field>)
    requires ValidFields(t.fields) && IsChain(t.fields, chain, false)
    ensures ReadsAs(Extract(t, row), "", false, chain, row)
  {
    ExtractIsDenote(t, row);
    DenoteReads("", false, t.fields, row, chain);
  }

  /** What is bound for a field without a value: 0, 0.0 or the empty text, NULL if it is optional
      or in a message that is not set, and 0 for an embedded message that is not set. */
  lemma UnsetIsBound(c: Column, m: Message)
    requires c.accessor !in At(m, c.path).scalars && c.accessor !in At(m, c.path).subs
    ensures Bound(c, m) == if c.presence then Stored(IntValue(0))
                           else if c.optional || !AllSet(m, c.path) then Null
                           else Stored(Zero(c.kind))
  {
  }

  /** What is bound for a field with a value, in a message that is set, and for an embedded message
      that is set. */
  lemma SetIsBound(c: Column, m: Message)
    requires AllSet(m, c.path)
    ensures c.presence && c.accessor in At(m, c.path).subs ==> Bound(c, m) == Stored(IntValue(1))
    ensures !c.presence && c.accessor in At(m, c.path).scalars ==>
              Bound(c, m) == Stored(At(m, c.path).scalars[c.accessor])
  {
  }
}
