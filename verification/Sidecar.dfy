/** The text of a fieldmap sidecar: what is written for a set of live wire numbers and a
    set of retired ones, and what is read back from any text. */
module Sidecar {
  import opened Characters
  import opened Sorting
  import opened Wrappers

  datatype Registry = Registry(numbers: map<string, nat>, reserved: set<nat>)

  const EMPTY := Registry(map[], {})

  // ---- Characters ----

  predicate IsSpace(c: char) {
    c == ' ' || c == '\t' || c == '\n' || c == '\r' || c == '\U{0B}' || c == '\U{0C}'
  }

  predicate IsIdentifier(s: string) {
    && |s| > 0 && IsLetter(s[0])
    && forall c <- s :: IsLetter(c) || IsDigit(c)
  }

  predicate IsNumeral(s: string) {
    |s| > 0 && forall c <- s :: IsDigit(c)
  }

  function TrimLeft(s: string): string {
    if |s| > 0 && IsSpace(s[0]) then TrimLeft(s[1..]) else s
  }

  function TrimRight(s: string): string {
    if |s| > 0 && IsSpace(s[|s| - 1]) then TrimRight(s[..|s| - 1]) else s
  }

  function Strip(s: string): string {
    TrimRight(TrimLeft(s))
  }

  function Split(s: string, sep: char): (parts: seq<string>)
    ensures |parts| > 0
  {
    if |s| == 0 then [""]
    else
      var rest := Split(s[1..], sep);
      if s[0] == sep then [""] + rest else [[s[0]] + rest[0]] + rest[1..]
  }

  // ---- Decimal numerals ----

  function Digit(d: nat): char
    requires d < 10
  {
    "0123456789"[d]
  }

  function Decimal(n: nat): string {
    if n < 10 then [Digit(n)] else Decimal(n / 10) + [Digit(n % 10)]
  }

  function ParseDecimal(s: string): nat
    requires forall c <- s :: IsDigit(c)
  {
    if |s| == 0 then 0
    else
      var last := s[|s| - 1];
      assert IsDigit(last) by { assert last in s; }
      10 * ParseDecimal(s[..|s| - 1]) + (last as int - '0' as int)
  }

  // ---- Writing ----

  function FieldLine(name: string, n: nat): string {
    name + ":" + Decimal(n)
  }

  function Join(parts: seq<string>): string {
    if |parts| == 0 then ""
    else if |parts| == 1 then parts[0]
    else parts[0] + "," + Join(parts[1..])
  }

  function Decimals(ns: seq<nat>): seq<string> {
    seq(|ns|, i requires 0 <= i < |ns| => Decimal(ns[i]))
  }

  function Members(ns: seq<nat>): set<nat> {
    set n <- ns
  }

  function ReservedLine(ns: seq<nat>): string {
    "# reserved: " + Join(Decimals(ns))
  }

  function FieldLines(entries: seq<(string, nat)>): string {
    if |entries| == 0 then "" else FieldLine(entries[0].0, entries[0].1) + "\n" + FieldLines(entries[1..])
  }

  /** The last line of the file, if any number is retired. */
  function ReservedTail(reserved: seq<nat>): string {
    if |reserved| == 0 then "" else ReservedLine(reserved) + "\n"
  }

  function Render(entries: seq<(string, nat)>, reserved: seq<nat>): string {
    FieldLines(entries) + ReservedTail(reserved)
  }

  /** The entries of a name-to-number map in ascending order of number. */
  ghost predicate Lists(entries: seq<(string, nat)>, numbers: map<string, nat>) {
    && (forall i :: 0 <= i < |entries| ==> entries[i].0 in numbers && numbers[entries[i].0] == entries[i].1)
    && (forall k <- numbers :: exists i :: 0 <= i < |entries| && entries[i].0 == k)
    && (forall i, j :: 0 <= i < j < |entries| ==> entries[i].0 != entries[j].0 && entries[i].1 <= entries[j].1)
  }

  /** What may be saved for a registry. Names with equal numbers come in any order. */
  ghost predicate IsTextOf(text: string, r: Registry) {
    exists entries: seq<(string, nat)>, reserved: seq<nat> :: Lists(entries, r.numbers) && Ascending(reserved, r.reserved) && text == Render(entries, reserved)
  }

  // ---- Reading ----

  datatype Line = Blank | Reserved(ns: set<nat>) | FieldNumber(name: string, n: nat) | BadNumber

  /** The numbers in a comma-separated list; None if one of them is not a numeral. */
  function ParseList(parts: seq<string>): Option<set<nat>> {
    if |parts| == 0 then Some({})
    else
      var token := Strip(parts[0]);
      match ParseList(parts[1..])
      case None => None
      case Some(rest) =>
        if token == "" then Some(rest)
        else if IsNumeral(token) then Some({ParseDecimal(token)} + rest)
        else None
  }

  /** The text after the colon of a "# reserved:" line. */
  function AfterReserved(s: string): Option<string> {
    if |s| == 0 || s[0] != '#' then None
    else
      var t := TrimLeft(s[1..]);
      if |t| >= 9 && t[..9] == "reserved:" then Some(t[9..]) else None
  }

  function ParseLine(raw: string): Line {
    var s := Strip(raw);
    match AfterReserved(s)
    case Some(list) =>
      (match ParseList(Split(list, ','))
       case Some(ns) => Reserved(ns)
       case None => BadNumber)
    case None =>
      var parts := Split(s, ':');
      if |parts| == 2 && IsIdentifier(parts[0]) && IsNumeral(parts[1])
      then FieldNumber(parts[0], ParseDecimal(parts[1]))
      else Blank
  }

  function Read(r: Registry, lines: seq<string>): Option<Registry>
    decreases |lines|
  {
    if |lines| == 0 then Some(r)
    else
      match ParseLine(lines[0])
      case Blank => Read(r, lines[1..])
      case Reserved(ns) => Read(r.(reserved := r.reserved + ns), lines[1..])
      case FieldNumber(name, n) => Read(r.(numbers := r.numbers[name := n]), lines[1..])
      case BadNumber => None
  }

  /** Reading a sidecar; a missing file is an empty registry. None is the error raised for
      a malformed number in a reserved list. */
  function Load(file: Option<string>): Option<Registry> {
    match file
    case None => Some(EMPTY)
    case Some(text) => Read(EMPTY, Split(Newlines(text), '\n'))
  }

  // ---- What is read from any line ----

  lemma SpaceCodes(c: char)
    ensures IsSpace(c) <==> c as int == 32 || 9 <= c as int <= 13
  {
  }

  /** What splits into parts is the first of them, the separator and what splits into the rest. */
  lemma {:induction false} SplitHead(s: string, sep: char) returns (rest: string)
    ensures |Split(s, sep)| == 1 ==> s == Split(s, sep)[0] && sep !in s
    ensures |Split(s, sep)| > 1 ==>
              && s == Split(s, sep)[0] + [sep] + rest && sep !in Split(s, sep)[0]
              && Split(rest, sep) == Split(s, sep)[1..]
  {
    rest := "";
    if |s| > 0 {
      var parts := Split(s[1..], sep);
      assert s == [s[0]] + s[1..];
      if s[0] == sep {
        rest := s[1..];
        assert Split(s, sep)[1..] == parts;
      } else {
        rest := SplitHead(s[1..], sep);
        assert Split(s, sep)[1..] == parts[1..];
      }
    }
  }

  lemma SplitTwo(s: string, sep: char)
    requires |Split(s, sep)| == 2
    ensures s == Split(s, sep)[0] + [sep] + Split(s, sep)[1]
  {
    var rest := SplitHead(s, sep);
    var end := SplitHead(rest, sep);
  }

  /** A line gives a field its number exactly when, but for the space around it, it is an
      identifier, a colon and a numeral. */
  lemma FieldLineIff(raw: string, name: string, n: nat)
    ensures ParseLine(raw) == FieldNumber(name, n) <==>
            exists d: string :: Strip(raw) == name + ":" + d && IsIdentifier(name) && IsNumeral(d) && ParseDecimal(d) == n
  {
    var s := Strip(raw);
    if ParseLine(raw) == FieldNumber(name, n) {
      var parts := Split(s, ':');
      SplitTwo(s, ':');
      assert s == name + ":" + parts[1];
    }
    if d: string :| s == name + ":" + d && IsIdentifier(name) && IsNumeral(d) && ParseDecimal(d) == n {
      assert s == name + [':'] + d;
      assert s[0] == name[0];
      SplitFirst(name, ':', d);
      SplitNone(d, ':');
    }
  }

  lemma {:induction false} TrimLeftSpaces(u: string, t: string)
    requires (forall c <- u :: IsSpace(c)) && |t| > 0 && !IsSpace(t[0])
    ensures TrimLeft(u + t) == t
  {
    if |u| == 0 {
      assert u + t == t;
    } else {
      assert (u + t)[1..] == u[1..] + t;
      TrimLeftSpaces(u[1..], t);
    }
  }

  /** The list of retired numbers follows "#" and "reserved:", whatever the space between them. */
  lemma ReservedSpaced(u: string, list: string)
    requires forall c <- u :: IsSpace(c)
    ensures AfterReserved("#" + u + "reserved:" + list) == Some(list)
  {
    var t := "reserved:" + list;
    TrimLeftSpaces(u, t);
    assert ("#" + u + "reserved:" + list)[1..] == u + t;
    assert t[..9] == "reserved:" && t[9..] == list;
  }

  /** Empty places in the list are passed over, space around a number is too, and anything else
      but a numeral is an error. */
  lemma ListToken(token: string, rest: seq<string>, ns: set<nat>)
    requires ParseList(rest) == Some(ns)
    ensures ParseList([token] + rest) ==
            (if Strip(token) == "" then Some(ns)
             else if IsNumeral(Strip(token)) then Some({ParseDecimal(Strip(token))} + ns)
             else None)
  {
    assert ([token] + rest)[1..] == rest;
  }

  /** One more line: a number replaces the one its field had, retired numbers add up, and after an
      error nothing counts. */
  lemma {:induction false} LastLine(r: Registry, lines: seq<string>, line: string)
    ensures var before, after := Read(r, lines), Read(r, lines + [line]);
            if before.None? then after == None
            else
              match ParseLine(line)
              case Blank => after == before
              case Reserved(ns) => after == Some(Registry(before.value.numbers, before.value.reserved + ns))
              case FieldNumber(name, n) => after == Some(Registry(before.value.numbers[name := n], before.value.reserved))
              case BadNumber => after == None
    decreases |lines|
  {
    if |lines| == 0 {
      assert lines + [line] == [line] && [line][1..] == [];
    } else {
      assert (lines + [line])[1..] == lines[1..] + [line];
      match ParseLine(lines[0])
      case Blank => LastLine(r, lines[1..], line);
      case Reserved(ns) => LastLine(r.(reserved := r.reserved + ns), lines[1..], line);
      case FieldNumber(name, n) => LastLine(r.(numbers := r.numbers[name := n]), lines[1..], line);
      case BadNumber =>
    }
  }

  // ---- Round trip of one line ----

  lemma {:induction false} DecimalRoundTrip(n: nat)
    ensures IsNumeral(Decimal(n)) && ParseDecimal(Decimal(n)) == n
  {
    if n >= 10 {
      DecimalRoundTrip(n / 10);
      var d := Decimal(n / 10);
      assert Decimal(n)[..|d|] == d;
    }
  }

  /** A numeral of a positive number does not start with a zero, and that of zero is "0". */
  lemma {:induction false} NoLeadingZero(n: nat)
    ensures |Decimal(n)| > 0 && (Decimal(n)[0] == '0' <==> n == 0)
    ensures n == 0 ==> Decimal(n) == "0"
  {
    if n >= 10 {
      NoLeadingZero(n / 10);
    }
  }

  /** Different numbers have different numerals. */
  lemma DecimalInjective(a: nat, b: nat)
    requires Decimal(a) == Decimal(b)
    ensures a == b
  {
    DecimalRoundTrip(a);
    DecimalRoundTrip(b);
  }

  /** Lines of a file, character by character: a field, ... */
  lemma SampleField()
    ensures FieldLines([("a_1", 12)]) == "a_1:12\n"
  {
    assert Decimal(12) == "12";
    assert FieldLine("a_1", 12) == "a_1:12";
    assert [("a_1", 12)][1..] == [];
    assert FieldLine("a_1", 12) + "\n" + "" == "a_1:12\n";
  }

  /** ... and the retired numbers. */
  lemma SampleReserved()
    ensures ReservedTail([2, 4]) == "# reserved: 2,4\n" && ReservedTail([]) == ""
  {
    var parts := Decimals([2, 4]);
    assert parts == ["2", "4"];
    assert parts[1..] == ["4"];
    assert Join(["4"]) == "4";
    assert Join(parts) == "2" + "," + "4";
    assert "2" + "," + "4" == "2,4";
    assert "# reserved: " + "2,4" == "# reserved: 2,4";
    assert "# reserved: 2,4" + "\n" == "# reserved: 2,4\n";
  }

  lemma NoStrip(s: string)
    requires |s| > 0 ==> !IsSpace(s[0]) && !IsSpace(s[|s| - 1])
    ensures Strip(s) == s
  {
  }

  lemma {:induction false} SplitNone(s: string, sep: char)
    requires sep !in s
    ensures Split(s, sep) == [s]
  {
    if |s| > 0 {
      SplitNone(s[1..], sep);
      assert [s[0]] + s[1..] == s;
    }
  }

  lemma {:induction false} SplitFirst(s: string, sep: char, t: string)
    requires sep !in s
    ensures Split(s + [sep] + t, sep) == [s] + Split(t, sep)
  {
    var whole := s + [sep] + t;
    if |s| == 0 {
      assert whole[1..] == t;
    } else {
      assert whole[1..] == s[1..] + [sep] + t;
      SplitFirst(s[1..], sep, t);
      assert [s[0]] + s[1..] == s;
    }
  }

  lemma FieldLineRoundTrip(name: string, n: nat)
    requires IsIdentifier(name)
    ensures ParseLine(FieldLine(name, n)) == FieldNumber(name, n)
    ensures '\n' !in FieldLine(name, n)
  {
    var line, d := FieldLine(name, n), Decimal(n);
    DecimalRoundTrip(n);
    assert line[0] == name[0] && line[|line| - 1] == d[|d| - 1];
    assert d[|d| - 1] in d;
    NoStrip(line);
    assert line == name + [':'] + d;
    SplitFirst(name, ':', d);
    SplitNone(d, ':');
  }

  lemma DecimalToken(n: nat)
    ensures ',' !in Decimal(n) && Decimal(n) != "" && Strip(Decimal(n)) == Decimal(n)
    ensures IsNumeral(Decimal(n)) && ParseDecimal(Decimal(n)) == n
  {
    var d := Decimal(n);
    DecimalRoundTrip(n);
    assert IsDigit(d[0]) && IsDigit(d[|d| - 1]) by { assert d[0] in d && d[|d| - 1] in d; }
    NoStrip(d);
  }

  lemma ParseListCons(n: nat, rest: seq<string>, ns: set<nat>)
    requires ParseList(rest) == Some(ns)
    ensures ParseList([Decimal(n)] + rest) == Some({n} + ns)
  {
    DecimalToken(n);
    assert ([Decimal(n)] + rest)[1..] == rest;
  }

  lemma {:induction false} JoinRoundTrip(ns: seq<nat>)
    requires |ns| > 0
    ensures ParseList(Split(Join(Decimals(ns)), ',')) == Some(Members(ns))
    decreases |ns|
  {
    var d, parts := Decimal(ns[0]), Decimals(ns);
    DecimalToken(ns[0]);
    if |ns| == 1 {
      SplitNone(d, ',');
      ParseListCons(ns[0], [], {});
      assert [d] + [] == [d];
      assert Members(ns) == {ns[0]} + {};
    } else {
      assert parts[1..] == Decimals(ns[1..]);
      JoinRoundTrip(ns[1..]);
      var rest := Join(Decimals(ns[1..]));
      assert Join(parts) == d + [','] + rest;
      SplitFirst(d, ',', rest);
      ParseListCons(ns[0], Split(rest, ','), Members(ns[1..]));
      assert Members(ns) == {ns[0]} + Members(ns[1..]);
    }
  }

  lemma {:induction false} JoinCharacters(ns: seq<nat>)
    requires |ns| > 0
    ensures var j := Join(Decimals(ns));
            && (forall c <- j :: IsDigit(c) || c == ',')
            && |j| > 0 && IsDigit(j[|j| - 1])
    decreases |ns|
  {
    var d, parts := Decimal(ns[0]), Decimals(ns);
    DecimalRoundTrip(ns[0]);
    assert d[|d| - 1] in d;
    if |ns| > 1 {
      assert parts[1..] == Decimals(ns[1..]);
      JoinCharacters(ns[1..]);
    }
  }

  lemma LeadingSpaceIgnored(s: string)
    ensures ParseList(Split(" " + s, ',')) == ParseList(Split(s, ','))
  {
    var parts := Split(s, ',');
    assert (" " + s)[1..] == s;
    assert Split(" " + s, ',') == [" " + parts[0]] + parts[1..];
    assert (" " + parts[0])[1..] == parts[0];
    assert TrimLeft(" " + parts[0]) == TrimLeft(parts[0]);
  }

  lemma AfterReservedPrefix(j: string)
    ensures AfterReserved("# reserved: " + j) == Some(" " + j)
  {
    var line := "# reserved: " + j;
    var t := "reserved: " + j;
    assert line[1..] == " " + t;
    assert (" " + t)[1..] == t;
    assert TrimLeft(line[1..]) == t;
    assert t[..9] == "reserved:" && t[9..] == " " + j;
  }

  lemma ReservedLineStrips(ns: seq<nat>)
    requires |ns| > 0
    ensures Strip(ReservedLine(ns)) == ReservedLine(ns)
    ensures '\n' !in ReservedLine(ns)
  {
    var line, j := ReservedLine(ns), Join(Decimals(ns));
    JoinCharacters(ns);
    assert line[|line| - 1] == j[|j| - 1];
    NoStrip(line);
  }

  lemma ReservedLineRoundTrip(ns: seq<nat>)
    requires |ns| > 0
    ensures ParseLine(ReservedLine(ns)) == Reserved(Members(ns))
  {
    ReservedLineStrips(ns);
    AfterReservedPrefix(Join(Decimals(ns)));
    LeadingSpaceIgnored(Join(Decimals(ns)));
    JoinRoundTrip(ns);
  }

  // ---- Round trip of the whole file ----

  /** Reading the field lines of a file and then whatever follows them. */
  lemma {:induction false} FieldLinesRead(r: Registry, entries: seq<(string, nat)>, tail: string)
    requires forall i :: 0 <= i < |entries| ==> IsIdentifier(entries[i].0)
    ensures Read(r, Split(FieldLines(entries) + tail, '\n'))
         == Read(Updated(r, entries), Split(tail, '\n'))
    decreases |entries|
  {
    if |entries| == 0 {
      assert FieldLines(entries) + tail == tail;
    } else {
      var (name, n) := entries[0];
      var rest := FieldLines(entries[1..]) + tail;
      FieldLineRoundTrip(name, n);
      assert FieldLines(entries) + tail == FieldLine(name, n) + ['\n'] + rest;
      SplitFirst(FieldLine(name, n), '\n', rest);
      var lines := [FieldLine(name, n)] + Split(rest, '\n');
      assert lines[1..] == Split(rest, '\n');
      FieldLinesRead(r.(numbers := r.numbers[name := n]), entries[1..], tail);
    }
  }

  function Updated(r: Registry, entries: seq<(string, nat)>): Registry
    decreases |entries|
  {
    if |entries| == 0 then r
    else Updated(r.(numbers := r.numbers[entries[0].0 := entries[0].1]), entries[1..])
  }

  lemma {:induction false} UpdatedNumbers(r: Registry, entries: seq<(string, nat)>)
    requires forall i, j :: 0 <= i < j < |entries| ==> entries[i].0 != entries[j].0
    ensures Updated(r, entries).reserved == r.reserved
    ensures forall i :: 0 <= i < |entries| ==>
              entries[i].0 in Updated(r, entries).numbers && Updated(r, entries).numbers[entries[i].0] == entries[i].1
    ensures forall k :: (forall i :: 0 <= i < |entries| ==> entries[i].0 != k) ==>
              (k in Updated(r, entries).numbers) == (k in r.numbers)
              && (k in r.numbers ==> Updated(r, entries).numbers[k] == r.numbers[k])
    decreases |entries|
  {
    if |entries| > 0 {
      var rest := entries[1..];
      var r1 := r.(numbers := r.numbers[entries[0].0 := entries[0].1]);
      UpdatedNumbers(r1, rest);
      forall i | 0 <= i < |entries|
        ensures entries[i].0 in Updated(r, entries).numbers && Updated(r, entries).numbers[entries[i].0] == entries[i].1
      {
        if i > 0 {
          assert rest[i - 1] == entries[i];
        }
      }
      forall k | forall i :: 0 <= i < |entries| ==> entries[i].0 != k
        ensures (k in Updated(r, entries).numbers) == (k in r.numbers)
        ensures k in r.numbers ==> Updated(r, entries).numbers[k] == r.numbers[k]
      {
        assert entries[0].0 != k;
        forall i | 0 <= i < |rest| ensures rest[i].0 != k { assert entries[i + 1].0 != k; }
      }
    }
  }

  lemma ReservedRead(r: Registry, ns: seq<nat>)
    ensures Read(r, Split(ReservedTail(ns), '\n'))
         == Some(r.(reserved := r.reserved + Members(ns)))
  {
    assert ParseLine("") == Blank;
    assert [""][1..] == [];
    if |ns| == 0 {
      assert r.reserved + Members(ns) == r.reserved;
    } else {
      ReservedLineRoundTrip(ns);
      ReservedLineStrips(ns);
      assert ReservedLine(ns) + "\n" == ReservedLine(ns) + ['\n'] + "";
      SplitFirst(ReservedLine(ns), '\n', "");
      var lines := [ReservedLine(ns)] + [""];
      assert lines[1..] == [""];
      var r1 := r.(reserved := r.reserved + Members(ns));
      assert Read(r1, [""]) == Some(r1);
    }
  }

  lemma UpdatedFromEmpty(entries: seq<(string, nat)>, numbers: map<string, nat>)
    requires Lists(entries, numbers)
    ensures Updated(EMPTY, entries) == Registry(numbers, {})
  {
    var loaded := Updated(EMPTY, entries).numbers;
    UpdatedNumbers(EMPTY, entries);
    forall k | k in numbers ensures k in loaded && loaded[k] == numbers[k] {
      var i: int :| 0 <= i < |entries| && entries[i].0 == k;
      assert entries[i].1 == numbers[k];
    }
    forall k | k in loaded ensures k in numbers {
    }
  }

  lemma RenderRead(entries: seq<(string, nat)>, ns: seq<nat>, r: Registry)
    requires forall k <- r.numbers :: IsIdentifier(k)
    requires Lists(entries, r.numbers) && Ascending(ns, r.reserved)
    ensures Read(EMPTY, Split(Render(entries, ns), '\n')) == Some(r)
  {
    FieldLinesRead(EMPTY, entries, ReservedTail(ns));
    UpdatedFromEmpty(entries, r.numbers);
    ReservedRead(Registry(r.numbers, {}), ns);
    assert {} + Members(ns) == r.reserved;
  }

  /** What was saved is what is loaded, for all identifiers and all numbers. */
  lemma LoadOfSaved(r: Registry, text: string)
    requires forall k <- r.numbers :: IsIdentifier(k)
    requires IsTextOf(text, r)
    ensures '\r' !in text && Load(Some(text)) == Some(r)
  {
    var entries: seq<(string, nat)>, ns: seq<nat> :|
      Lists(entries, r.numbers) && Ascending(ns, r.reserved) && text == Render(entries, ns);
    FieldLinesPlain(entries);
    ReservedTailPlain(ns);
    RenderRead(entries, ns, r);
  }

  lemma {:induction false} FieldLinesPlain(entries: seq<(string, nat)>)
    requires forall i :: 0 <= i < |entries| ==> IsIdentifier(entries[i].0)
    ensures '\r' !in FieldLines(entries)
  {
    if |entries| > 0 {
      DecimalRoundTrip(entries[0].1);
      FieldLinesPlain(entries[1..]);
    }
  }

  lemma ReservedTailPlain(ns: seq<nat>)
    ensures '\r' !in ReservedTail(ns)
  {
    if |ns| > 0 {
      JoinCharacters(ns);
    }
  }

  /** A text saved over a file that already reads like it leaves that file, and either way
      the file loads like the text. */
  lemma WrittenLoads(file: Option<string>, text: string)
    requires '\r' !in text
    ensures Load(WrittenIfDifferent(file, text)) == Load(Some(text))
  {
    assert Newlines(text) == text <==> '\r' !in text;
  }

  // ---- The text is determined when the numbers are distinct ----

  lemma ListsUnique(a: seq<(string, nat)>, b: seq<(string, nat)>, numbers: map<string, nat>)
    requires Lists(a, numbers) && Lists(b, numbers)
    requires forall k, l :: k in numbers && l in numbers && numbers[k] == numbers[l] ==> k == l
    ensures a == b
  {
    var s := set k <- numbers :: numbers[k];
    var na, nb := seq(|a|, i requires 0 <= i < |a| => a[i].1), seq(|b|, i requires 0 <= i < |b| => b[i].1);
    ListsNumbers(a, numbers, na, s);
    ListsNumbers(b, numbers, nb, s);
    AscendingUnique(na, nb, s);
    forall i | 0 <= i < |a| ensures a[i] == b[i] {
      assert na[i] == nb[i];
      assert numbers[a[i].0] == numbers[b[i].0];
    }
  }

  lemma ListsNumbers(a: seq<(string, nat)>, numbers: map<string, nat>, na: seq<nat>, s: set<nat>)
    requires Lists(a, numbers) && |na| == |a| && (forall i :: 0 <= i < |a| ==> na[i] == a[i].1)
    requires forall k, l :: k in numbers && l in numbers && numbers[k] == numbers[l] ==> k == l
    requires s == set k <- numbers :: numbers[k]
    ensures Ascending(na, s)
  {
    forall n | n in s ensures n in na {
      var k :| k in numbers && numbers[k] == n;
      var i :| 0 <= i < |a| && a[i].0 == k;
      assert na[i] == n;
    }
    forall i, j | 0 <= i < j < |na| ensures na[i] < na[j] {
      assert numbers[a[i].0] == na[i] && numbers[a[j].0] == na[j];
    }
  }

  /** With distinct numbers there is exactly one text for a registry. */
  lemma TextUnique(r: Registry, a: string, b: string)
    requires forall k, l :: k in r.numbers && l in r.numbers && r.numbers[k] == r.numbers[l] ==> k == l
    requires IsTextOf(a, r) && IsTextOf(b, r)
    ensures a == b
  {
    var ea: seq<(string, nat)>, na: seq<nat> :| Lists(ea, r.numbers) && Ascending(na, r.reserved) && a == Render(ea, na);
    var eb: seq<(string, nat)>, nb: seq<nat> :| Lists(eb, r.numbers) && Ascending(nb, r.reserved) && b == Render(eb, nb);
    ListsUnique(ea, eb, r.numbers);
    AscendingUnique(na, nb, r.reserved);
  }

  // ---- Saving ----

  method SortEntries(numbers: map<string, nat>) returns (entries: seq<(string, nat)>)
    ensures Lists(entries, numbers)
  {
    entries := [];
    var left := numbers.Keys;
    while left != {}
      invariant left <= numbers.Keys
      invariant Lists(entries, numbers - left)
      invariant forall k, i :: k in left && 0 <= i < |entries| ==> entries[i].1 <= numbers[k]
      decreases left
    {
      ghost var known := LeastKeyExists(numbers, left);
      var least :| least in left && forall k :: k in left ==> numbers[least] <= numbers[k];
      ghost var before := entries;
      assert left == (left - {least}) + {least};
      entries := entries + [(least, numbers[least])];
      left := left - {least};
      ListsExtend(before, numbers, left, least);
    }
    assert numbers - left == numbers;
  }

  lemma ListsExtend(before: seq<(string, nat)>, numbers: map<string, nat>, left: set<string>, least: string)
    requires least in numbers && least !in left && left <= numbers.Keys
    requires Lists(before, numbers - (left + {least}))
    requires forall i :: 0 <= i < |before| ==> before[i].1 <= numbers[least]
    ensures Lists(before + [(least, numbers[least])], numbers - left)
  {
    var entries := before + [(least, numbers[least])];
    forall k | k in numbers - left ensures exists i :: 0 <= i < |entries| && entries[i].0 == k {
      if k == least {
        assert entries[|before|].0 == k;
      } else {
        assert k in numbers - (left + {least});
        var i :| 0 <= i < |before| && before[i].0 == k;
        assert entries[i].0 == k;
      }
    }
  }

  lemma LeastKeyExists(numbers: map<string, nat>, s: set<string>) returns (least: string)
    requires s != {} && s <= numbers.Keys
    ensures least in s && forall k :: k in s ==> numbers[least] <= numbers[k]
  {
    var values := set k <- s :: numbers[k];
    var x :| x in s;
    assert numbers[x] in values;
    var n := LeastExists(values);
    least :| least in s && numbers[least] == n;
    assert forall k :: k in s ==> numbers[k] in values;
  }

  method Save(r: Registry) returns (text: string)
    ensures IsTextOf(text, r)
  {
    var entries := SortEntries(r.numbers);
    var ns := SortNumbers(r.reserved);
    text := Render(entries, ns);
  }
}
