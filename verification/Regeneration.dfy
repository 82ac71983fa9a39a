/** Regenerating an output tree: stale files are pruned, then every output is written into a
    temporary file and moved into place unless it is already there. Runs are sequences of
    single file-system changes, and may stop after any of them. */
module Regeneration {
  import opened Characters
  import opened Wrappers

  datatype Path = Path(dir: string, name: string)

  type Tree = map<Path, string>

  function Get(t: Tree, p: Path): Option<string> {
    if p in t then Some(t[p]) else None
  }

  // ---- Names of generated files ----

  predicate IsWord(c: char) {
    IsLetter(c) || IsDigit(c)
  }

  const HASH := 32

  /** `file` is a name of `i` characters, an underscore, a hash and anything. */
  predicate SplitsAt(file: string, i: nat) {
    && 1 <= i && i + 1 + HASH <= |file|
    && IsLetter(file[0])
    && (forall j :: 1 <= j < i ==> IsWord(file[j]))
    && file[i] == '_'
    && forall j :: i < j <= i + HASH ==> IsHex(file[j])
  }

  /** The longest name below `n`, as greedy matching finds it. */
  function LastSplit(file: string, n: nat): (r: Option<nat>)
    ensures r.Some? ==> r.value < n && SplitsAt(file, r.value)
    ensures forall i: nat :: i < n && (r.Some? ==> r.value < i) ==> !SplitsAt(file, i)
  {
    if n == 0 then None
    else if SplitsAt(file, n - 1) then Some(n - 1)
    else LastSplit(file, n - 1)
  }

  datatype Schema = Schema(hash: string, names: set<string>)

  predicate Current(name: string, hash: string, schema: Schema) {
    hash == schema.hash && (name in schema.names || name == "app" || name == "capabilities")
  }

  predicate Stale(file: string, schema: Schema) {
    var split := LastSplit(file, |file|);
    && split.Some?
    && !Current(file[..split.value], file[split.value + 1..split.value + 1 + HASH], schema)
  }

  predicate IsName(s: string) {
    |s| > 0 && IsLetter(s[0]) && forall i :: 0 <= i < |s| ==> IsWord(s[i])
  }

  predicate IsHash(s: string) {
    |s| == HASH && forall i :: 0 <= i < |s| ==> IsHex(s[i])
  }

  /** What follows the hash does not carry the match on to a second hash. */
  predicate Tail(s: string) {
    forall j :: 0 <= j && j + 1 + HASH <= |s| && s[j] == '_' && (forall k :: 0 <= k < j ==> IsWord(s[k])) ==>
      exists k :: j < k <= j + HASH && !IsHex(s[k])
  }

  /** An output named after a message and a root hash is pruned exactly when the message is
      gone or the hash is not the current one. */
  lemma PrunedIff(name: string, hash: string, tail: string, schema: Schema)
    requires IsName(name) && IsHash(hash) && Tail(tail)
    ensures !Stale(name + "_" + hash + tail, schema) <==>
            hash == schema.hash && (name in schema.names || name == "app" || name == "capabilities")
  {
    var file, n := name + "_" + hash + tail, |name|;
    assert file[..n] == name;
    assert file[n + 1..n + 1 + HASH] == hash;
    assert file[n + 1 + HASH..] == tail;
    assert forall j :: 0 <= j < n ==> file[j] == name[j];
    assert forall j :: 0 <= j < HASH ==> file[n + 1 + j] == hash[j];
    assert forall j :: 0 <= j < |tail| ==> file[n + 1 + HASH + j] == tail[j];
    assert SplitsAt(file, n);
    forall i: nat | n < i && SplitsAt(file, i) ensures false {
      NoLaterSplit(file, hash, tail, n, i);
    }
  }

  /** A name is letters, digits and underscores without a digit in front, a hash is 32 characters
      from 0-9 and a-f. */
  lemma NamesAndHashes(s: string)
    ensures IsName(s) <==> |s| > 0 && !IsDigit(s[0]) && forall i :: 0 <= i < |s| ==> IsLetter(s[i]) || IsDigit(s[i])
    ensures IsHash(s) <==> |s| == 32 && forall i :: 0 <= i < |s| ==> IsHex(s[i])
  {
  }

  /** A file whose name has no underscore with 32 hash characters behind it is never pruned. */
  lemma OthersStay(file: string, schema: Schema)
    requires forall i :: 0 <= i && i + 33 <= |file| && file[i] == '_' ==> exists k :: i < k <= i + 32 && !IsHex(file[k])
    ensures !Stale(file, schema)
  {
  }

  lemma NoLaterSplit(file: string, hash: string, tail: string, n: nat, i: nat)
    requires n < i && |file| == n + 1 + HASH + |tail| && IsHash(hash) && Tail(tail)
    requires forall j :: 0 <= j < HASH ==> file[n + 1 + j] == hash[j]
    requires forall j :: 0 <= j < |tail| ==> file[n + 1 + HASH + j] == tail[j]
    ensures !SplitsAt(file, i)
  {
    if n + HASH < i && i + 1 + HASH <= |file| && file[i] == '_' {
      var j := i - (n + 1 + HASH);
      assert tail[j] == file[n + 1 + HASH + j];
      if forall k :: 0 <= k < j ==> IsWord(tail[k]) {
        var k :| j < k <= j + HASH && !IsHex(tail[k]);
        assert file[n + 1 + HASH + k] == tail[k];
      } else {
        var k :| 0 <= k < j && !IsWord(tail[k]);
        assert file[n + 1 + HASH + k] == tail[k];
      }
    } else if i <= n + HASH {
      assert file[n + 1 + (i - n - 1)] == hash[i - n - 1];
    }
  }

  // ---- Temporary files ----

  predicate IsRandom(c: char) {
    'a' <= c <= 'z' || IsDigit(c) || c == '_'
  }

  const RANDOM := 8

  predicate IsSuffix(s: string) {
    |s| == RANDOM && forall i :: 0 <= i < |s| ==> IsRandom(s[i])
  }

  function TempName(p: Path, suffix: string): Path {
    Path(p.dir, "." + p.name + "." + suffix)
  }

  ghost predicate IsTemp(temp: Path, p: Path) {
    exists suffix :: IsSuffix(suffix) && temp == TempName(p, suffix)
  }

  predicate AllTaken(t: Tree, p: Path, draws: seq<string>) {
    forall d <- draws :: IsSuffix(d) ==> TempName(p, d) in t
  }

  /** A temporary file lies beside its destination, under a dot, its name, another dot and eight
      characters from a-z, 0-9 and the underscore. */
  lemma TempNameIff(temp: Path, p: Path)
    ensures IsTemp(temp, p) <==>
            temp.dir == p.dir && exists s: string :: temp.name == "." + p.name + "." + s && IsEightRandom(s)
  {
    forall s: string ensures IsEightRandom(s) <==> IsSuffix(s) {
    }
    if IsTemp(temp, p) {
      var s :| IsSuffix(s) && temp == TempName(p, s);
      assert temp.name == "." + p.name + "." + s;
    }
    if temp.dir == p.dir && exists s: string :: temp.name == "." + p.name + "." + s && IsEightRandom(s) {
      var s: string :| temp.name == "." + p.name + "." + s && IsEightRandom(s);
      assert temp == TempName(p, s);
    }
  }

  predicate IsEightRandom(s: string) {
    |s| == 8 && forall i :: 0 <= i < 8 ==> 97 <= s[i] as int <= 122 || 48 <= s[i] as int <= 57 || s[i] as int == 95
  }

  lemma TempNotStale(temp: Path, p: Path, schema: Schema)
    requires IsTemp(temp, p)
    ensures !Stale(temp.name, schema) && temp != p
  {
    assert temp.name[0] == '.';
    assert |temp.name| > |p.name|;
  }

  // ---- What one output does to its file ----

  /** A rendered text, or a copy of a file that does not change. */
  datatype Job = Write(path: Path, content: string) | Copy(path: Path, content: string)

  predicate UpToDate(x: Option<string>, job: Job) {
    if job.Write? then SameText(x, job.content) else x == Some(job.content)
  }

  /** A job finds its own output up to date unless it is a text with a carriage return. */
  lemma OwnOutputUpToDateIff(job: Job)
    ensures UpToDate(Some(job.content), job) <==> job.Copy? || '\r' !in job.content
  {
    assert Newlines(job.content) == job.content <==> '\r' !in job.content;
  }

  function After(x: Option<string>, job: Job, p: Path): Option<string> {
    if job.path != p || UpToDate(x, job) then x else Some(job.content)
  }

  function AfterJobs(x: Option<string>, jobs: seq<Job>, n: nat, p: Path): Option<string>
    requires n <= |jobs|
  {
    if n == 0 then x else After(AfterJobs(x, jobs, n - 1, p), jobs[n - 1], p)
  }

  function Start(x: Option<string>, p: Path, schema: Schema): Option<string> {
    if Stale(p.name, schema) then None else x
  }

  /** Every job on `p` up to `n` writes the text `c`. */
  predicate Only(jobs: seq<Job>, n: nat, p: Path, c: string)
    requires n <= |jobs|
  {
    forall j :: 0 <= j < n && jobs[j].path == p ==> jobs[j] == Write(p, c)
  }

  predicate Touched(jobs: seq<Job>, n: nat, p: Path)
    requires n <= |jobs|
  {
    exists j :: 0 <= j < n && jobs[j].path == p
  }

  /** From any two contents the jobs come to the same one, unless they all write one text and
      find it on both sides. */
  lemma {:induction false} Meet(x: Option<string>, z: Option<string>, jobs: seq<Job>, n: nat, p: Path)
    returns (c: string)
    requires n <= |jobs|
    ensures || AfterJobs(x, jobs, n, p) == AfterJobs(z, jobs, n, p)
            || (Only(jobs, n, p, c) && (Touched(jobs, n, p) ==>
                  && UpToDate(AfterJobs(x, jobs, n, p), Write(p, c))
                  && UpToDate(AfterJobs(z, jobs, n, p), Write(p, c))))
  {
    c := "";
    if n > 0 {
      c := Meet(x, z, jobs, n - 1, p);
      var job := jobs[n - 1];
      assert Touched(jobs, n, p) <==> Touched(jobs, n - 1, p) || job.path == p;
      if job.path == p && !Touched(jobs, n - 1, p) {
        c := job.content;
      }
    }
  }

  lemma {:induction false} Untouched(x: Option<string>, jobs: seq<Job>, n: nat, p: Path)
    requires n <= |jobs| && !Touched(jobs, n, p)
    ensures AfterJobs(x, jobs, n, p) == x
  {
    if n > 0 {
      assert forall j :: 0 <= j < n ==> jobs[j].path != p;
      Untouched(x, jobs, n - 1, p);
    }
  }

  lemma {:induction false} OnlyKeeps(x: Option<string>, jobs: seq<Job>, n: nat, p: Path, c: string)
    requires n <= |jobs| && Only(jobs, n, p, c) && UpToDate(x, Write(p, c))
    ensures AfterJobs(x, jobs, n, p) == x
  {
    if n > 0 {
      OnlyKeeps(x, jobs, n - 1, p, c);
    }
  }

  lemma {:induction false} SameAfter(x: Option<string>, z: Option<string>, jobs: seq<Job>, k: nat, n: nat, p: Path)
    requires k <= n <= |jobs| && AfterJobs(x, jobs, k, p) == AfterJobs(z, jobs, k, p)
    ensures AfterJobs(x, jobs, n, p) == AfterJobs(z, jobs, n, p)
    decreases n
  {
    if k < n {
      SameAfter(x, z, jobs, k, n - 1, p);
    }
  }

  /** Starting the jobs over, wherever they stopped, leads to the same content. */
  lemma StartOver(x: Option<string>, jobs: seq<Job>, k: nat, n: nat, p: Path)
    requires k <= n <= |jobs|
    ensures AfterJobs(AfterJobs(x, jobs, k, p), jobs, n, p) == AfterJobs(x, jobs, n, p)
  {
    var y := AfterJobs(x, jobs, k, p);
    var c := Meet(x, y, jobs, k, p);
    if AfterJobs(y, jobs, k, p) != y {
      if Touched(jobs, k, p) {
        OnlyKeeps(y, jobs, k, p, c);
      } else {
        Untouched(y, jobs, k, p);
      }
    }
    SameAfter(x, y, jobs, k, n, p);
  }

  // ---- Runs ----

  datatype Proc = Pruning | Working(done: nat) | Writing(done: nat, temp: Path, written: nat) | Failed(done: nat)

  datatype State = State(tree: Tree, proc: Proc)

  datatype Plan = Plan(schema: Schema, jobs: seq<Job>)

  ghost predicate PruneOne(plan: Plan, s: State, s': State) {
    && s.proc == Pruning && s'.proc == Pruning
    && exists p <- s.tree :: Stale(p.name, plan.schema) && s'.tree == s.tree - {p}
  }

  predicate PruneDone(plan: Plan, s: State, s': State) {
    && s.proc == Pruning && s' == State(s.tree, Working(0))
    && forall p <- s.tree :: !Stale(p.name, plan.schema)
  }

  predicate AtJob(plan: Plan, s: State) {
    s.proc.Working? && s.proc.done < |plan.jobs|
  }

  predicate Skip(plan: Plan, s: State, s': State) {
    && AtJob(plan, s) && s' == State(s.tree, Working(s.proc.done + 1))
    && UpToDate(Get(s.tree, plan.jobs[s.proc.done].path), plan.jobs[s.proc.done])
  }

  ghost predicate MakeTemp(plan: Plan, s: State, s': State) {
    && AtJob(plan, s) && s'.proc.Writing? && s'.proc == Writing(s.proc.done, s'.proc.temp, 0)
    && !UpToDate(Get(s.tree, plan.jobs[s.proc.done].path), plan.jobs[s.proc.done])
    && IsTemp(s'.proc.temp, plan.jobs[s.proc.done].path) && s'.proc.temp !in s.tree
    && s'.tree == s.tree[s'.proc.temp := ""]
  }

  predicate Busy(plan: Plan, s: State) {
    s.proc.Writing? && s.proc.done < |plan.jobs|
  }

  predicate Fill(plan: Plan, s: State, s': State) {
    && Busy(plan, s) && s'.proc.Writing? && s'.proc == s.proc.(written := s'.proc.written)
    && s.proc.written < s'.proc.written <= |plan.jobs[s.proc.done].content|
    && s'.tree == s.tree[s.proc.temp := plan.jobs[s.proc.done].content[..s'.proc.written]]
  }

  predicate Replace(plan: Plan, s: State, s': State) {
    && Busy(plan, s) && s.proc.written == |plan.jobs[s.proc.done].content| && s.proc.temp in s.tree
    && s' == State((s.tree - {s.proc.temp})[plan.jobs[s.proc.done].path := s.tree[s.proc.temp]],
                   Working(s.proc.done + 1))
  }

  /** An error while writing: the temporary file is removed if it can be. */
  predicate Fail(plan: Plan, s: State, s': State) {
    && Busy(plan, s) && s'.proc == Failed(s.proc.done)
    && (s'.tree == s.tree - {s.proc.temp} || s'.tree == s.tree)
  }

  /** No temporary file could be made. */
  predicate FailEarly(plan: Plan, s: State, s': State) {
    && AtJob(plan, s) && s' == State(s.tree, Failed(s.proc.done))
    && !UpToDate(Get(s.tree, plan.jobs[s.proc.done].path), plan.jobs[s.proc.done])
  }

  ghost predicate Next(plan: Plan, s: State, s': State) {
    || PruneOne(plan, s, s') || PruneDone(plan, s, s')
    || Skip(plan, s, s') || MakeTemp(plan, s, s') || Fill(plan, s, s') || Replace(plan, s, s')
    || Fail(plan, s, s') || FailEarly(plan, s, s')
  }

  ghost predicate IsRun(plan: Plan, from: Tree, run: seq<State>) {
    && |run| > 0 && run[0] == State(from, Pruning)
    && forall i :: 0 <= i < |run| - 1 ==> Next(plan, run[i], run[i + 1])
  }

  lemma Extend(plan: Plan, from: Tree, run: seq<State>, s: State)
    requires IsRun(plan, from, run) && Next(plan, run[|run| - 1], s)
    ensures IsRun(plan, from, run + [s])
  {
  }

  // ---- Every state of a run ----

  /** What `p` is to hold once n jobs are done. */
  ghost function Due(plan: Plan, from: Tree, n: nat, p: Path): Option<string>
    requires n <= |plan.jobs|
  {
    AfterJobs(Start(Get(from, p), p, plan.schema), plan.jobs, n, p)
  }

  /** On some tree job k does not find its output up to date. */
  ghost predicate CanWrite(plan: Plan, k: nat) {
    && k < |plan.jobs|
    && exists x: Option<string> ::
         !UpToDate(AfterJobs(Start(x, plan.jobs[k].path, plan.schema), plan.jobs, k, plan.jobs[k].path), plan.jobs[k])
  }

  /** `p` is what job k has left of its temporary file. */
  ghost predicate Leftover(plan: Plan, k: nat, t: Tree, p: Path) {
    && CanWrite(plan, k) && IsTemp(p, plan.jobs[k].path)
    && exists n :: IsPart(plan.jobs[k].content, n, Get(t, p))
  }

  predicate IsPart(content: string, n: nat, x: Option<string>) {
    n <= |content| && x == Some(content[..n])
  }

  /** What `p` can hold in a state: until the pruning is over what it held at first, or nothing
      if it is stale; from then on what is due, except that where nothing is due it can be the
      temporary file at work or one left behind. */
  ghost predicate Expected(plan: Plan, from: Tree, s: State, p: Path) {
    match s.proc
    case Pruning => Get(s.tree, p) == Get(from, p) || (Stale(p.name, plan.schema) && p !in s.tree)
    case Working(k) => k <= |plan.jobs| && Get(s.tree, p) == Due(plan, from, k, p)
    case Writing(k, temp, _) =>
      k <= |plan.jobs| && if p == temp then Due(plan, from, k, p) == None else Get(s.tree, p) == Due(plan, from, k, p)
    case Failed(k) =>
      k <= |plan.jobs|
      && (Get(s.tree, p) == Due(plan, from, k, p) || (Due(plan, from, k, p) == None && Leftover(plan, k, s.tree, p)))
  }

  ghost predicate TempHolds(plan: Plan, s: State) {
    s.proc.Writing? ==>
      && s.proc.done < |plan.jobs| && s.proc.written <= |plan.jobs[s.proc.done].content|
      && IsTemp(s.proc.temp, plan.jobs[s.proc.done].path)
      && Get(s.tree, s.proc.temp) == Some(plan.jobs[s.proc.done].content[..s.proc.written])
      && !UpToDate(Get(s.tree, plan.jobs[s.proc.done].path), plan.jobs[s.proc.done])
  }

  lemma TempHoldsKept(plan: Plan, s: State, s': State)
    requires TempHolds(plan, s) && Next(plan, s, s')
    ensures TempHolds(plan, s')
  {
    if MakeTemp(plan, s, s') || Fill(plan, s, s') {
      TempNotStale(s'.proc.temp, plan.jobs[s'.proc.done].path, plan.schema);
    }
  }

  lemma WritingCan(plan: Plan, from: Tree, s: State)
    requires TempHolds(plan, s) && s.proc.Writing? && Expected(plan, from, s, plan.jobs[s.proc.done].path)
    ensures CanWrite(plan, s.proc.done)
  {
    var p := plan.jobs[s.proc.done].path;
    TempNotStale(s.proc.temp, p, plan.schema);
    assert Get(s.tree, p) == AfterJobs(Start(Get(from, p), p, plan.schema), plan.jobs, s.proc.done, p);
  }

  lemma ExpectedKept(plan: Plan, from: Tree, s: State, s': State, p: Path)
    requires TempHolds(plan, s) && Next(plan, s, s') && Expected(plan, from, s, p)
    requires s.proc.Writing? ==> CanWrite(plan, s.proc.done)
    ensures Expected(plan, from, s', p)
  {
    if Replace(plan, s, s') {
      var job := plan.jobs[s.proc.done];
      TempNotStale(s.proc.temp, job.path, plan.schema);
      assert job.content[..|job.content|] == job.content;
    } else if Fail(plan, s, s') && p == s.proc.temp && p in s'.tree {
      assert IsPart(plan.jobs[s.proc.done].content, s.proc.written, Get(s'.tree, p));
    }
  }

  lemma {:induction false} RunExpected(plan: Plan, from: Tree, run: seq<State>, i: nat)
    requires IsRun(plan, from, run) && i < |run|
    ensures TempHolds(plan, run[i]) && forall p :: Expected(plan, from, run[i], p)
    decreases i
  {
    if i > 0 {
      var s, s' := run[i - 1], run[i];
      RunExpected(plan, from, run, i - 1);
      assert Next(plan, s, s');
      TempHoldsKept(plan, s, s');
      if s.proc.Writing? {
        WritingCan(plan, from, s);
      }
      forall p ensures Expected(plan, from, s', p) {
        ExpectedKept(plan, from, s, s', p);
      }
    }
  }

  /** Where nothing is due no job has written. */
  lemma {:induction false} NothingDue(x: Option<string>, jobs: seq<Job>, n: nat, p: Path)
    requires n <= |jobs| && AfterJobs(x, jobs, n, p) == None
    ensures x == None && forall l :: 0 <= l < n ==> jobs[l].path != p
  {
    if n > 0 {
      NothingDue(x, jobs, n - 1, p);
    }
  }

  lemma {:induction false} OneOf(x: Option<string>, jobs: seq<Job>, n: nat, p: Path)
    requires n <= |jobs|
    ensures || AfterJobs(x, jobs, n, p) == x
            || exists j :: 0 <= j < n && jobs[j].path == p && AfterJobs(x, jobs, n, p) == Some(jobs[j].content)
  {
    if n > 0 {
      OneOf(x, jobs, n - 1, p);
    }
  }

  // ---- No file is torn ----

  /** A file holds all it held before, or all that some job writes to it, or is gone because
      it was stale. */
  ghost predicate Whole(plan: Plan, from: Tree, t: Tree, p: Path) {
    || Get(t, p) == Get(from, p)
    || (Stale(p.name, plan.schema) && Get(t, p) == None)
    || exists job <- plan.jobs :: job.path == p && Get(t, p) == Some(job.content)
  }

  /** `p` can be the temporary file of a job that comes before all jobs on `p` and does write,
      and some part of its content is not all that a job writes to `p`. */
  ghost predicate CanTear(plan: Plan, p: Path) {
    exists k, n :: CanTearAt(plan, p, k, n)
  }

  ghost predicate CanTearAt(plan: Plan, p: Path, k: nat, n: nat) {
    && CanWrite(plan, k) && n <= |plan.jobs[k].content| && IsTemp(p, plan.jobs[k].path)
    && (forall l :: 0 <= l < k ==> plan.jobs[l].path != p)
    && forall job <- plan.jobs :: job.path == p ==> job.content != plan.jobs[k].content[..n]
  }

  /** A file that is no output's temporary file cannot tear. */
  lemma OrdinaryCannotTear(plan: Plan, p: Path)
    requires forall k :: 0 <= k < |plan.jobs| ==> !IsTemp(p, plan.jobs[k].path)
    ensures !CanTear(plan, p)
  {
  }

  /** What a job leaves of its temporary file, if it cannot tear, is all that some job writes. */
  lemma LeftoverComplete(plan: Plan, from: Tree, k: nat, t: Tree, p: Path)
    requires !CanTear(plan, p) && Leftover(plan, k, t, p) && Due(plan, from, k, p) == None
    ensures !Stale(p.name, plan.schema) && Get(from, p) == None
    ensures exists job <- plan.jobs :: job.path == p && Get(t, p) == Some(job.content)
  {
    TempNotStale(p, plan.jobs[k].path, plan.schema);
    NothingDue(Get(from, p), plan.jobs, k, p);
    var n :| IsPart(plan.jobs[k].content, n, Get(t, p));
    assert !CanTearAt(plan, p, k, n);
  }

  /** Where a run stands while it writes, its temporary file is a leftover. */
  lemma WritingLeaves(plan: Plan, from: Tree, s: State)
    requires TempHolds(plan, s) && s.proc.Writing? && forall p :: Expected(plan, from, s, p)
    ensures Leftover(plan, s.proc.done, s.tree, s.proc.temp) && Due(plan, from, s.proc.done, s.proc.temp) == None
  {
    WritingCan(plan, from, s);
    assert Expected(plan, from, s, s.proc.temp);
    assert IsPart(plan.jobs[s.proc.done].content, s.proc.written, Get(s.tree, s.proc.temp));
  }

  lemma NeverTorn(plan: Plan, from: Tree, run: seq<State>, i: nat, p: Path)
    requires IsRun(plan, from, run) && i < |run| && !CanTear(plan, p)
    ensures Whole(plan, from, run[i].tree, p)
  {
    var s := run[i];
    RunExpected(plan, from, run, i);
    assert Expected(plan, from, s, p);
    if s.proc.Writing? && p == s.proc.temp {
      WritingLeaves(plan, from, s);
      LeftoverComplete(plan, from, s.proc.done, s.tree, p);
    } else if s.proc.Failed? && Get(s.tree, p) != Due(plan, from, s.proc.done, p) {
      LeftoverComplete(plan, from, s.proc.done, s.tree, p);
    } else if !s.proc.Pruning? {
      OneOf(Start(Get(from, p), p, plan.schema), plan.jobs, s.proc.done, p);
      assert forall j :: 0 <= j < |plan.jobs| ==> plan.jobs[j] in plan.jobs;
    }
  }

  // Runs that get as far as any job, while there are names for temporary files.

  ghost predicate IsOutput(plan: Plan, p: Path) {
    exists job <- plan.jobs :: job.path == p
  }

  /** Every output has a temporary name that is not itself an output. */
  ghost predicate FreeNames(plan: Plan) {
    forall job <- plan.jobs :: exists suffix :: IsFree(plan, job.path, suffix)
  }

  ghost predicate IsFree(plan: Plan, p: Path, suffix: string) {
    IsSuffix(suffix) && !IsOutput(plan, TempName(p, suffix))
  }

  ghost predicate OnlyOutputs(plan: Plan, t: Tree) {
    forall p <- t :: IsOutput(plan, p)
  }

  /** One more job, from start to end. */
  lemma RunJob(plan: Plan, from: Tree, run: seq<State>) returns (longer: seq<State>)
    requires FreeNames(plan) && IsRun(plan, from, run)
    requires AtJob(plan, run[|run| - 1]) && OnlyOutputs(plan, run[|run| - 1].tree)
    ensures IsRun(plan, from, longer) && OnlyOutputs(plan, longer[|longer| - 1].tree)
    ensures longer[|longer| - 1].proc == Working(run[|run| - 1].proc.done + 1)
  {
    var s := run[|run| - 1];
    var t, k, job := s.tree, s.proc.done, plan.jobs[s.proc.done];
    assert job in plan.jobs;
    if UpToDate(Get(t, job.path), job) {
      var skipped := State(t, Working(k + 1));
      assert Skip(plan, s, skipped);
      Extend(plan, from, run, skipped);
      return run + [skipped];
    }
    var suffix :| IsFree(plan, job.path, suffix);
    var temp := TempName(job.path, suffix);
    longer := StartJob(plan, from, run, temp, |job.content|);
    var filled := longer[|longer| - 1];
    var replaced := State((filled.tree - {temp})[job.path := filled.tree[temp]], Working(k + 1));
    assert Replace(plan, filled, replaced);
    Extend(plan, from, longer, replaced);
    longer := longer + [replaced];
    assert IsOutput(plan, job.path);
  }

  /** A job up to n characters of its temporary file. */
  lemma StartJob(plan: Plan, from: Tree, run: seq<State>, temp: Path, n: nat) returns (longer: seq<State>)
    requires IsRun(plan, from, run) && AtJob(plan, run[|run| - 1])
    requires var s := run[|run| - 1];
      var job := plan.jobs[s.proc.done];
      !UpToDate(Get(s.tree, job.path), job) && IsTemp(temp, job.path) && temp !in s.tree && n <= |job.content|
    ensures IsRun(plan, from, longer)
    ensures var s := run[|run| - 1];
      longer[|longer| - 1] == State(s.tree[temp := plan.jobs[s.proc.done].content[..n]], Writing(s.proc.done, temp, n))
  {
    var s := run[|run| - 1];
    var t, k, content := s.tree, s.proc.done, plan.jobs[s.proc.done].content;
    var made := State(t[temp := ""], Writing(k, temp, 0));
    assert MakeTemp(plan, s, made);
    Extend(plan, from, run, made);
    longer := run + [made];
    assert content[..0] == "";
    if n > 0 {
      var filled := State(t[temp := content[..n]], Writing(k, temp, n));
      assert made.tree[temp := content[..n]] == filled.tree;
      assert Fill(plan, made, filled);
      Extend(plan, from, longer, filled);
      longer := longer + [filled];
    }
  }

  lemma {:induction false} RunOutputs(plan: Plan, from: Tree, k: nat) returns (run: seq<State>)
    requires FreeNames(plan) && OnlyOutputs(plan, from) && k <= |plan.jobs|
    requires forall p <- from :: !Stale(p.name, plan.schema)
    ensures IsRun(plan, from, run) && run[|run| - 1].proc == Working(k) && OnlyOutputs(plan, run[|run| - 1].tree)
    decreases k
  {
    if k == 0 {
      run := [State(from, Pruning), State(from, Working(0))];
      assert PruneDone(plan, run[0], run[1]);
    } else {
      run := RunOutputs(plan, from, k - 1);
      run := RunJob(plan, from, run);
    }
  }

  /** A run that stops in the middle of the temporary file `p`. */
  lemma TornRun(plan: Plan, p: Path, k: nat, n: nat) returns (from: Tree, run: seq<State>)
    requires FreeNames(plan) && CanTearAt(plan, p, k, n)
    ensures IsRun(plan, from, run) && !Whole(plan, from, run[|run| - 1].tree, p)
  {
    var job := plan.jobs[k];
    assert job in plan.jobs && IsOutput(plan, job.path);
    TempNotStale(p, job.path, plan.schema);
    var x: Option<string> :| !UpToDate(AfterJobs(Start(x, job.path, plan.schema), plan.jobs, k, job.path), job);
    from := if x.Some? && !Stale(job.path.name, plan.schema) then map[job.path := x.value] else map[];
    assert Start(Get(from, job.path), job.path, plan.schema) == Start(x, job.path, plan.schema);
    run := RunOutputs(plan, from, k);
    RunExpected(plan, from, run, |run| - 1);
    assert Expected(plan, from, run[|run| - 1], p) && Expected(plan, from, run[|run| - 1], job.path);
    Untouched(None, plan.jobs, k, p);
    run := StartJob(plan, from, run, p, n);
  }

  /** Exactly which files are never torn, on any tree and wherever a run stops. */
  lemma NeverTornIff(plan: Plan, p: Path)
    requires FreeNames(plan)
    ensures (forall from: Tree, run: seq<State> :: IsRun(plan, from, run) ==> Whole(plan, from, run[|run| - 1].tree, p))
       <==> !CanTear(plan, p)
  {
    if CanTear(plan, p) {
      var k, n :| CanTearAt(plan, p, k, n);
      var from: Tree, run := TornRun(plan, p, k, n);
    } else {
      forall from: Tree, run: seq<State> | IsRun(plan, from, run) ensures Whole(plan, from, run[|run| - 1].tree, p) {
        NeverTorn(plan, from, run, |run| - 1, p);
      }
    }
  }

  /** The smallest case: an output named like the temporary file of the output before it. */
  lemma TempNamedOutputTorn(a: Job, b: Job, schema: Schema) returns (run: seq<State>)
    requires IsTemp(b.path, a.path) && b.content != ""
    ensures var plan := Plan(schema, [a, b]);
            && IsRun(plan, map[], run)
            && Get(run[|run| - 1].tree, b.path) == Some("")
  {
    var plan := Plan(schema, [a, b]);
    var s0, s1 := State(map[], Pruning), State(map[], Working(0));
    var s2 := State(map[b.path := ""], Writing(0, b.path, 0));
    assert PruneDone(plan, s0, s1);
    assert MakeTemp(plan, s1, s2);
    run := [s0, s1, s2];
  }

  // ---- There are names enough ----

  function Power(w: nat): nat {
    if w == 0 then 1 else 10 * Power(w - 1)
  }

  /** The last w decimal digits of n. */
  function Digits(n: nat, w: nat): (s: string)
    ensures |s| == w && forall i :: 0 <= i < w ==> IsDigit(s[i])
    decreases w, n
  {
    if w == 0 then "" else Digits(n / 10, w - 1) + ["0123456789"[n % 10]]
  }

  lemma {:induction false} DigitsDiffer(a: nat, b: nat, w: nat)
    requires a < Power(w) && b < Power(w) && Digits(a, w) == Digits(b, w)
    ensures a == b
    decreases w
  {
    if w > 0 {
      var s, t := Digits(a, w), Digits(b, w);
      assert s[..w - 1] == Digits(a / 10, w - 1) && t[..w - 1] == Digits(b / 10, w - 1);
      assert s[w - 1] == "0123456789"[a % 10] && t[w - 1] == "0123456789"[b % 10];
      DigitsDiffer(a / 10, b / 10, w - 1);
    }
  }

  function NumberedName(p: Path, n: nat): Path {
    TempName(p, Digits(n, RANDOM))
  }

  lemma NumberedDiffer(p: Path, a: nat, b: nat, w: nat)
    requires w == RANDOM && a < Power(w) && b < Power(w) && NumberedName(p, a) == NumberedName(p, b)
    ensures a == b
  {
    var prefix := "." + p.name + ".";
    assert (prefix + Digits(a, w))[|prefix|..] == Digits(a, w);
    assert (prefix + Digits(b, w))[|prefix|..] == Digits(b, w);
    DigitsDiffer(a, b, w);
  }

  lemma SubsetSize<T>(a: set<T>, b: set<T>)
    requires a <= b
    ensures |a| <= |b|
  {
    assert b == a + (b - a);
  }

  ghost function Paths(jobs: seq<Job>): (s: set<Path>)
    ensures forall job <- jobs :: job.path in s
    ensures |s| <= |jobs|
  {
    if |jobs| == 0 then {} else Paths(jobs[..|jobs| - 1]) + {jobs[|jobs| - 1].path}
  }

  /** As many outputs as numbered names that are outputs. */
  lemma {:induction false} NumberedOutputs(plan: Plan, p: Path, m: nat, w: nat) returns (names: set<Path>)
    requires w == RANDOM && m <= Power(w)
    requires forall n: nat :: n < m ==> IsOutput(plan, NumberedName(p, n))
    ensures |names| == m && names <= Paths(plan.jobs)
    ensures forall x <- names :: exists n: nat :: n < m && x == NumberedName(p, n)
    decreases m
  {
    names := {};
    if m > 0 {
      names := NumberedOutputs(plan, p, m - 1, w);
      var last := NumberedName(p, m - 1);
      if last in names {
        var n: nat :| n < m - 1 && last == NumberedName(p, n);
        NumberedDiffer(p, m - 1, n, w);
      }
      assert IsOutput(plan, last);
      names := names + {last};
    }
  }

  lemma EighthPower()
    ensures Power(RANDOM) == 100_000_000
  {
    assert Power(4) == 10_000;
  }

  /** With fewer than 10^8 outputs there is always a free name. */
  lemma FreeNamesWhenFew(plan: Plan)
    requires |plan.jobs| < 100_000_000
    ensures FreeNames(plan)
  {
    EighthPower();
    forall job | job in plan.jobs ensures exists suffix :: IsFree(plan, job.path, suffix) {
      if forall n: nat :: n < |plan.jobs| + 1 ==> IsOutput(plan, NumberedName(job.path, n)) {
        var names := NumberedOutputs(plan, job.path, |plan.jobs| + 1, RANDOM);
        SubsetSize(names, Paths(plan.jobs));
        assert false;
      } else {
        var n: nat :| n < |plan.jobs| + 1 && !IsOutput(plan, NumberedName(job.path, n));
        assert IsFree(plan, job.path, Digits(n, RANDOM));
      }
    }
  }

  // ---- Recovery ----

  ghost predicate Interrupted(plan: Plan, from: Tree, to: Tree) {
    exists run: seq<State> :: IsRun(plan, from, run) && run[|run| - 1].tree == to
  }

  ghost predicate Completed(plan: Plan, from: Tree, to: Tree) {
    exists run: seq<State> :: IsRun(plan, from, run) && run[|run| - 1] == State(to, Working(|plan.jobs|))
  }

  /** What a complete run leaves in `p`. */
  ghost function Outcome(plan: Plan, from: Tree, p: Path): Option<string> {
    Due(plan, from, |plan.jobs|, p)
  }

  lemma CompletedOutcome(plan: Plan, from: Tree, to: Tree, p: Path)
    requires Completed(plan, from, to)
    ensures Get(to, p) == Outcome(plan, from, p)
  {
    var run: seq<State> :| IsRun(plan, from, run) && run[|run| - 1] == State(to, Working(|plan.jobs|));
    RunExpected(plan, from, run, |run| - 1);
    assert Expected(plan, from, run[|run| - 1], p);
  }

  /** Starting from the content of a job on `p` is as good as starting from nothing. */
  lemma OwnContent(jobs: seq<Job>, j: nat, p: Path)
    requires j < |jobs| && jobs[j].path == p
    ensures AfterJobs(Some(jobs[j].content), jobs, |jobs|, p) == AfterJobs(None, jobs, |jobs|, p)
  {
    var own := Some(jobs[j].content);
    var c := Meet(own, None, jobs, |jobs|, p);
    OneOf(own, jobs, |jobs|, p);
    OneOf(None, jobs, |jobs|, p);
    assert Touched(jobs, |jobs|, p);
  }

  lemma InterruptedOutcome(plan: Plan, from: Tree, to: Tree, p: Path)
    requires Interrupted(plan, from, to) && !CanTear(plan, p)
    ensures Outcome(plan, to, p) == Outcome(plan, from, p)
  {
    var run: seq<State> :| IsRun(plan, from, run) && run[|run| - 1].tree == to;
    var s := run[|run| - 1];
    RunExpected(plan, from, run, |run| - 1);
    assert Expected(plan, from, s, p);
    if s.proc.Writing? && p == s.proc.temp {
      WritingLeaves(plan, from, s);
      LeftoverOutcome(plan, from, s.proc.done, to, p);
    } else if s.proc.Failed? && Get(to, p) != Due(plan, from, s.proc.done, p) {
      LeftoverOutcome(plan, from, s.proc.done, to, p);
    } else if !Stale(p.name, plan.schema) && !s.proc.Pruning? {
      StartOver(Get(from, p), plan.jobs, s.proc.done, |plan.jobs|, p);
    }
  }

  lemma LeftoverOutcome(plan: Plan, from: Tree, k: nat, to: Tree, p: Path)
    requires !CanTear(plan, p) && Leftover(plan, k, to, p) && Due(plan, from, k, p) == None
    ensures Outcome(plan, to, p) == Outcome(plan, from, p)
  {
    LeftoverComplete(plan, from, k, to, p);
    var job :| job in plan.jobs && job.path == p && Get(to, p) == Some(job.content);
    var j :| 0 <= j < |plan.jobs| && plan.jobs[j] == job;
    OwnContent(plan.jobs, j, p);
  }

  lemma {:induction false} InterruptedOutcomes(plan: Plan, trees: seq<Tree>, n: nat, p: Path)
    requires n < |trees| && !CanTear(plan, p)
    requires forall i :: 0 <= i < |trees| - 1 ==> Interrupted(plan, trees[i], trees[i + 1])
    ensures Outcome(plan, trees[n], p) == Outcome(plan, trees[0], p)
    decreases n
  {
    if n > 0 {
      InterruptedOutcomes(plan, trees, n - 1, p);
      assert Interrupted(plan, trees[n - 1], trees[n - 1 + 1]);
      InterruptedOutcome(plan, trees[n - 1], trees[n], p);
    }
  }

  /** However many runs were interrupted and wherever, a complete run after them leaves what one
      complete run would have left in the first place. */
  lemma Recovery(plan: Plan, trees: seq<Tree>, recovered: Tree, direct: Tree, p: Path)
    requires |trees| > 0
    requires forall i :: 0 <= i < |trees| - 1 ==> Interrupted(plan, trees[i], trees[i + 1])
    requires Completed(plan, trees[|trees| - 1], recovered) && Completed(plan, trees[0], direct)
    requires !CanTear(plan, p)
    ensures Get(recovered, p) == Get(direct, p)
  {
    InterruptedOutcomes(plan, trees, |trees| - 1, p);
    CompletedOutcome(plan, trees[|trees| - 1], recovered, p);
    CompletedOutcome(plan, trees[0], direct, p);
  }

  // ---- The tree of a complete run ----

  /** The last job on a file decides what it holds, to the byte or up to line ends; a file
      without a job is gone if stale and as before if not. */
  lemma CompletedTree(plan: Plan, from: Tree, to: Tree, i: nat)
    requires Completed(plan, from, to) && i < |plan.jobs|
    requires forall j :: i < j < |plan.jobs| ==> plan.jobs[j].path != plan.jobs[i].path
    ensures Get(to, plan.jobs[i].path) == Some(plan.jobs[i].content) || UpToDate(Get(to, plan.jobs[i].path), plan.jobs[i])
  {
    var p := plan.jobs[i].path;
    CompletedOutcome(plan, from, to, p);
    LastJob(Start(Get(from, p), p, plan.schema), plan.jobs, i, |plan.jobs|);
  }

  lemma {:induction false} LastJob(x: Option<string>, jobs: seq<Job>, i: nat, n: nat)
    requires i < n <= |jobs|
    requires forall j :: i < j < n ==> jobs[j].path != jobs[i].path
    ensures AfterJobs(x, jobs, n, jobs[i].path) == After(AfterJobs(x, jobs, i, jobs[i].path), jobs[i], jobs[i].path)
    decreases n
  {
    if i < n - 1 {
      LastJob(x, jobs, i, n - 1);
    }
  }

  lemma CompletedElsewhere(plan: Plan, from: Tree, to: Tree, p: Path)
    requires Completed(plan, from, to)
    requires forall job <- plan.jobs :: job.path != p
    ensures Get(to, p) == if Stale(p.name, plan.schema) then None else Get(from, p)
  {
    CompletedOutcome(plan, from, to, p);
    Untouched(Start(Get(from, p), p, plan.schema), plan.jobs, |plan.jobs|, p);
  }

  // ---- Regenerating unchanged outputs ----

  /** Outputs are not stale names, texts have no carriage return, and two jobs on
      one file agree. */
  ghost predicate Steady(plan: Plan) {
    && (forall job <- plan.jobs :: SteadyJob(plan, job))
    && forall i, j :: 0 <= i < j < |plan.jobs| && plan.jobs[i].path == plan.jobs[j].path ==>
         plan.jobs[i].content == plan.jobs[j].content
  }

  ghost predicate SteadyJob(plan: Plan, job: Job) {
    !Stale(job.path.name, plan.schema) && (job.Write? ==> '\r' !in job.content)
  }

  lemma {:induction false} AllUpToDate(plan: Plan, x: Option<string>, i: nat, n: nat)
    requires Steady(plan) && i < n <= |plan.jobs|
    ensures UpToDate(AfterJobs(x, plan.jobs, n, plan.jobs[i].path), plan.jobs[i])
    decreases n
  {
    var jobs := plan.jobs;
    assert SteadyJob(plan, jobs[i]) && SteadyJob(plan, jobs[n - 1]);
    OwnOutputUpToDateIff(jobs[i]);
    if i < n - 1 {
      AllUpToDate(plan, x, i, n - 1);
    }
  }

  ghost predicate Quiet(plan: Plan, t: Tree) {
    && (forall p <- t :: !Stale(p.name, plan.schema))
    && forall i :: 0 <= i < |plan.jobs| ==> UpToDate(Get(t, plan.jobs[i].path), plan.jobs[i])
  }

  lemma CompletedQuiet(plan: Plan, from: Tree, to: Tree)
    requires Steady(plan) && Completed(plan, from, to)
    ensures Quiet(plan, to)
  {
    forall p | p in to ensures !Stale(p.name, plan.schema) {
      if forall job <- plan.jobs :: job.path != p {
        CompletedElsewhere(plan, from, to, p);
      } else {
        var job :| job in plan.jobs && job.path == p;
        assert SteadyJob(plan, job);
      }
    }
    forall i | 0 <= i < |plan.jobs| ensures UpToDate(Get(to, plan.jobs[i].path), plan.jobs[i]) {
      var p := plan.jobs[i].path;
      assert SteadyJob(plan, plan.jobs[i]);
      CompletedOutcome(plan, from, to, p);
      AllUpToDate(plan, Start(Get(from, p), p, plan.schema), i, |plan.jobs|);
    }
  }

  lemma {:induction false} QuietRun(plan: Plan, from: Tree, run: seq<State>, i: nat)
    requires Quiet(plan, from) && IsRun(plan, from, run) && i < |run|
    ensures run[i].tree == from && (run[i].proc.Pruning? || run[i].proc.Working?)
    decreases i
  {
    if i > 0 {
      QuietRun(plan, from, run, i - 1);
      assert Next(plan, run[i - 1], run[i - 1 + 1]);
    }
  }

  /** After a complete run the same outputs are regenerated without touching any file. */
  lemma RegenerationTouchesNothing(plan: Plan, from: Tree, to: Tree, run: seq<State>, i: nat)
    requires Steady(plan) && Completed(plan, from, to) && IsRun(plan, to, run) && i < |run|
    ensures run[i].tree == to && !run[i].proc.Writing?
  {
    CompletedQuiet(plan, from, to);
    QuietRun(plan, to, run, i);
  }

  // ---- The generator ----

  /** What the outside decides about one output: the names drawn for its temporary file, and
      whether writing it fails after some characters and the file can then be removed. */
  datatype Io = Io(draws: seq<string>, fault: Option<Fault>)
  datatype Fault = Fault(written: nat, removed: bool)

  datatype Result = Unchanged | Changed | Raised

  /** The tree on disk. The ghost trace records it after every single change. */
  class Generator {
    var files: Tree
    ghost const from: Tree
    ghost const plan: Plan
    ghost var trace: seq<State>

    ghost predicate Valid()
      reads this
    {
      IsRun(plan, from, trace) && trace[|trace| - 1].tree == files
    }

    ghost predicate At(proc: Proc)
      reads this
    {
      Valid() && trace[|trace| - 1].proc == proc
    }

    constructor (files: Tree, ghost plan: Plan)
      ensures this.files == files && from == files && this.plan == plan && At(Pruning)
    {
      this.files, from, this.plan, trace := files, files, plan, [State(files, Pruning)];
    }

    /** One change of the tree. */
    method Change(files: Tree, ghost proc: Proc)
      requires Valid() && Next(plan, trace[|trace| - 1], State(files, proc))
      modifies this
      ensures this.files == files && At(proc) && trace == old(trace) + [State(files, proc)]
    {
      Extend(plan, from, trace, State(files, proc));
      this.files, trace := files, trace + [State(files, proc)];
    }

    /** Remove every stale file, in any order. */
    method Prune(schema: Schema)
      requires At(Pruning) && plan.schema == schema
      modifies this
      ensures At(Working(0)) && old(trace) <= trace
      ensures files == map p | p in old(files) && !Stale(p.name, schema) :: old(files)[p]
    {
      var left := files.Keys;
      while left != {}
        invariant left <= files.Keys <= old(files).Keys && At(Pruning) && old(trace) <= trace
        invariant forall p <- files :: p in left || !Stale(p.name, schema)
        invariant forall p <- old(files) :: p in files || Stale(p.name, schema)
        invariant forall p <- files :: files[p] == old(files)[p]
        decreases left
      {
        var p :| p in left;
        if Stale(p.name, schema) {
          assert PruneOne(plan, State(files, Pruning), State(files - {p}, Pruning));
          Change(files - {p}, Pruning);
        }
        left := left - {p};
      }
      assert PruneDone(plan, State(files, Pruning), State(files, Working(0)));
      Change(files, Working(0));
    }

    /** The first drawn name that is free. */
    method FreeName(path: Path, draws: seq<string>) returns (temp: Option<Path>)
      ensures temp.Some? ==> IsTemp(temp.value, path) && temp.value !in files && !AllTaken(files, path, draws)
      ensures temp.None? ==> AllTaken(files, path, draws)
    {
      for i := 0 to |draws|
        invariant forall j :: 0 <= j < i ==> !IsSuffix(draws[j]) || TempName(path, draws[j]) in files
      {
        if IsSuffix(draws[i]) && TempName(path, draws[i]) !in files {
          assert draws[i] in draws;
          return Some(TempName(path, draws[i]));
        }
      }
      return None;
    }

    /** Create the temporary file, empty. */
    method Create(path: Path, draws: seq<string>, ghost k: nat) returns (temp: Option<Path>)
      requires At(Working(k)) && k < |plan.jobs| && plan.jobs[k].path == path
      requires !UpToDate(Get(files, path), plan.jobs[k])
      modifies this
      ensures old(trace) <= trace
      ensures temp.Some? ==>
                && At(Writing(k, temp.value, 0)) && files == old(files)[temp.value := ""]
                && IsTemp(temp.value, path) && temp.value !in old(files) && !AllTaken(old(files), path, draws)
      ensures temp.None? ==> At(Failed(k)) && files == old(files) && AllTaken(files, path, draws)
    {
      temp := FreeName(path, draws);
      if temp.None? {
        Change(files, Failed(k));
      } else {
        assert MakeTemp(plan, State(files, Working(k)), State(files[temp.value := ""], Writing(k, temp.value, 0)));
        Change(files[temp.value := ""], Writing(k, temp.value, 0));
      }
    }

    /** Write the first `n` characters into the temporary file. */
    method Populate(temp: Path, content: string, n: nat, ghost k: nat)
      requires At(Writing(k, temp, 0)) && k < |plan.jobs| && plan.jobs[k].content == content
      requires n <= |content| && Get(files, temp) == Some("")
      modifies this
      ensures old(trace) <= trace
      ensures At(Writing(k, temp, n)) && files == old(files)[temp := content[..n]]
    {
      if n > 0 {
        assert Fill(plan, State(files, Writing(k, temp, 0)), State(files[temp := content[..n]], Writing(k, temp, n)));
        Change(files[temp := content[..n]], Writing(k, temp, n));
      }
    }

    /** Move the complete file into its place. */
    method MoveInto(temp: Path, path: Path, ghost k: nat)
      requires k < |plan.jobs| && plan.jobs[k].path == path
      requires At(Writing(k, temp, |plan.jobs[k].content|)) && temp in files
      modifies this
      ensures old(trace) <= trace
      ensures At(Working(k + 1)) && files == (old(files) - {temp})[path := old(files)[temp]]
    {
      Change((files - {temp})[path := files[temp]], Working(k + 1));
    }

    method Abandon(temp: Path, removed: bool, ghost k: nat)
      requires Valid() && k < |plan.jobs| && trace[|trace| - 1].proc.Writing?
      requires trace[|trace| - 1].proc.done == k && trace[|trace| - 1].proc.temp == temp
      modifies this
      ensures old(trace) <= trace
      ensures At(Failed(k)) && files == if removed then old(files) - {temp} else old(files)
    {
      Change(if removed then files - {temp} else files, Failed(k));
    }

    /** Build the file beside its place, then move it there; on an error remove it again. */
    method AtomicReplace(path: Path, content: string, io: Io, ghost k: nat) returns (ok: bool)
      requires At(Working(k)) && k < |plan.jobs| && plan.jobs[k].path == path && plan.jobs[k].content == content
      requires !UpToDate(Get(files, path), plan.jobs[k])
      modifies this
      ensures old(trace) <= trace
      ensures ok ==> At(Working(k + 1)) && files == old(files)[path := content]
      ensures !ok ==> At(Failed(k)) && forall p :: !IsTemp(p, path) ==> Get(files, p) == Get(old(files), p)
      ensures ok <==> io.fault.None? && !AllTaken(old(files), path, io.draws)
      ensures io.fault.Some? && io.fault.value.removed ==> files == old(files)
    {
      var temp := Create(path, io.draws, k);
      if temp.None? {
        return false;
      }
      TempNotStale(temp.value, path, plan.schema);
      ok := io.fault.None?;
      var n := if ok || io.fault.value.written > |content| then |content| else io.fault.value.written;
      Populate(temp.value, content, n, k);
      if ok {
        assert content[..n] == content;
        MoveInto(temp.value, path, k);
        assert files == old(files)[path := content];
      } else {
        Abandon(temp.value, io.fault.value.removed, k);
      }
    }

    method WriteIfDifferent(path: Path, content: string, io: Io, ghost k: nat) returns (r: Result)
      requires At(Working(k)) && k < |plan.jobs| && plan.jobs[k] == Write(path, content)
      modifies this
      ensures old(trace) <= trace
      ensures r.Unchanged? <==> path in old(files) && Newlines(old(files)[path]) == content
      ensures r.Unchanged? ==> At(Working(k + 1)) && files == old(files)
      ensures r.Changed? ==> At(Working(k + 1)) && files == old(files)[path := content]
      ensures r.Raised? ==> At(Failed(k)) && forall p :: !IsTemp(p, path) ==> Get(files, p) == Get(old(files), p)
    {
      if path in files && Newlines(files[path]) == content {
        Change(files, Working(k + 1));
        return Unchanged;
      }
      var ok := AtomicReplace(path, content, io, k);
      return if ok then Changed else Raised;
    }

    method CopyIfDifferent(content: string, path: Path, io: Io, ghost k: nat) returns (r: Result)
      requires At(Working(k)) && k < |plan.jobs| && plan.jobs[k] == Copy(path, content)
      modifies this
      ensures old(trace) <= trace
      ensures r.Unchanged? <==> path in old(files) && old(files)[path] == content
      ensures !r.Raised? ==> At(Working(k + 1)) && files == old(files)[path := content]
      ensures r.Raised? ==> At(Failed(k)) && forall p :: !IsTemp(p, path) ==> Get(files, p) == Get(old(files), p)
    {
      if path in files && files[path] == content {
        Change(files, Working(k + 1));
        assert files == old(files)[path := content];
        return Unchanged;
      }
      var ok := AtomicReplace(path, content, io, k);
      return if ok then Changed else Raised;
    }

    /** A whole run. The trace is one, so it ends as a complete run or an interrupted one. */
    method Regenerate(schema: Schema, jobs: seq<Job>, ios: seq<Io>) returns (completed: bool)
      requires At(Pruning) && files == from && plan == Plan(schema, jobs) && |ios| == |jobs|
      modifies this
      ensures Valid() && old(trace) <= trace
      ensures completed ==> Completed(plan, old(files), files)
      ensures !completed ==> Interrupted(plan, old(files), files) && trace[|trace| - 1].proc.Failed?
      ensures completed ==> forall p :: Get(files, p) == Outcome(plan, old(files), p)
    {
      Prune(schema);
      var k := 0;
      while k < |jobs|
        invariant k <= |jobs| && At(Working(k)) && old(trace) <= trace
      {
        var r;
        match jobs[k] {
          case Write(path, content) => r := WriteIfDifferent(path, content, ios[k], k);
          case Copy(path, content) => r := CopyIfDifferent(content, path, ios[k], k);
        }
        if r.Raised? {
          assert IsRun(plan, from, trace);
          return false;
        }
        k := k + 1;
      }
      completed := true;
      assert IsRun(plan, from, trace) && trace[|trace| - 1] == State(files, Working(|jobs|));
      forall p ensures Get(files, p) == Outcome(plan, from, p) {
        CompletedOutcome(plan, from, files, p);
      }
    }
  }
}
