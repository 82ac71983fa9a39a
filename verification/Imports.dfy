/** Import resolution: the transitive closure of the root's imports, depth first, every file
    after everything it imports, with cycle detection. Files are told apart by their
    resolved path; a path as written is what gets pre-lexed. */
module Imports {
  import opened Wrappers

  datatype PreLex = Failed(error: nat) | Imports(paths: seq<string>)

  /** The file system as the resolver sees it: the resolved form of a path, the outcome of
      pre-lexing the file at a path, and the finitely many resolved files there are. */
  datatype Files = Files(resolve: string -> string, preLex: string -> PreLex, all: set<string>)

  ghost predicate Bounded(fs: Files) {
    forall p, c :: Imported(fs, p, c) ==> fs.resolve(c) in fs.all
  }

  /** The file at path p imports path c. */
  predicate Imported(fs: Files, p: string, c: string) {
    fs.preLex(p).Imports? && c in fs.preLex(p).paths
  }

  /** The files done so far, in order, and their resolved paths. */
  datatype Walk = Walk(order: seq<string>, done: set<string>)

  /** Why a search stops: an import cycle with the files on it, or a file that does not
      pre-lex. */
  datatype Failure = Cycle(files: seq<string>) | Broken(error: nat)

  datatype Result = Finished(walk: Walk) | Stopped(why: Failure)

  function IndexOf(stack: seq<string>, x: string): (i: nat)
    requires x in stack
    ensures i < |stack| && stack[i] == x
  {
    if stack[0] == x then 0 else 1 + IndexOf(stack[1..], x)
  }

  /** The resolved files neither done nor on the stack: the measure of the search. */
  ghost function Open(fs: Files, stack: seq<string>, w: Walk): set<string> {
    fs.all - w.done - (set s | s in stack)
  }

  ghost predicate Extends(r: Result, w: Walk) {
    r.Finished? ==> w.order <= r.walk.order && w.done <= r.walk.done
  }

  ghost function Visit(fs: Files, path: string, stack: seq<string>, w: Walk): (r: Result)
    requires Bounded(fs) && fs.resolve(path) in fs.all
    ensures Extends(r, w)
    decreases Open(fs, stack, w), 0
  {
    var file := fs.resolve(path);
    if file in w.done then Finished(w)
    else if file in stack then Stopped(Cycle(stack[IndexOf(stack, file)..] + [file]))
    else
      match fs.preLex(path)
      case Failed(e) => Stopped(Broken(e))
      case Imports(children) =>
        assert forall c <- children :: Imported(fs, path, c);
        assert file in Open(fs, stack, w) && file !in Open(fs, stack + [file], w);
        match VisitAll(fs, children, stack + [file], w)
        case Finished(v) => Finished(Walk(v.order + [path], v.done + {file}))
        case Stopped(why) => Stopped(why)
  }

  ghost function VisitAll(fs: Files, paths: seq<string>, stack: seq<string>, w: Walk): (r: Result)
    requires Bounded(fs) && forall p <- paths :: fs.resolve(p) in fs.all
    ensures Extends(r, w)
    decreases Open(fs, stack, w), |paths|
  {
    if |paths| == 0 then Finished(w)
    else
      match Visit(fs, paths[0], stack, w)
      case Finished(v) => VisitAll(fs, paths[1..], stack, v)
      case Stopped(why) => Stopped(why)
  }

  // ---- The search in place ----

  class Resolver {
    var order: seq<string>
    var done: set<string>

    constructor ()
      ensures State() == Walk([], {})
    {
      order, done := [], {};
    }

    ghost function State(): Walk
      reads this
    {
      Walk(order, done)
    }

    method VisitFile(fs: Files, path: string, stack: seq<string>) returns (failure: Option<Failure>)
      requires Bounded(fs) && fs.resolve(path) in fs.all
      modifies this
      ensures Visit(fs, path, stack, old(State()))
           == match failure case None => Finished(State()) case Some(why) => Stopped(why)
      decreases Open(fs, stack, State()), 0
    {
      var file := fs.resolve(path);
      if file in done {
        return None;
      }
      if file in stack {
        return Some(Cycle(stack[IndexOf(stack, file)..] + [file]));
      }
      var lexed := fs.preLex(path);
      if lexed.Failed? {
        return Some(Broken(lexed.error));
      }
      assert forall c <- lexed.paths :: Imported(fs, path, c);
      assert file in Open(fs, stack, State()) && file !in Open(fs, stack + [file], State());
      var deeper, n := stack + [file], 0;
      while n < |lexed.paths|
        invariant n <= |lexed.paths| && old(done) <= done
        invariant forall c <- lexed.paths :: fs.resolve(c) in fs.all
        invariant VisitAll(fs, lexed.paths[n..], deeper, State()) == VisitAll(fs, lexed.paths, deeper, old(State()))
      {
        assert lexed.paths[n..][0] == lexed.paths[n] && lexed.paths[n..][1..] == lexed.paths[n + 1..];
        failure := VisitFile(fs, lexed.paths[n], deeper);
        if failure.Some? {
          return;
        }
        n := n + 1;
      }
      assert lexed.paths[n..] == [];
      done := done + {file};
      order := order + [path];
      failure := None;
    }
  }

  /** The whole resolution: the order of the files, or why there is none. */
  method ResolveImports(fs: Files, roots: seq<string>) returns (order: seq<string>, failure: Option<Failure>)
    requires Bounded(fs) && forall p <- roots :: fs.resolve(p) in fs.all
    ensures var r := VisitAll(fs, roots, [], Walk([], {}));
            && (r.Finished? ==> failure == None && order == r.walk.order)
            && (r.Stopped? ==> failure == Some(r.why))
  {
    var resolver := new Resolver();
    var n := 0;
    while n < |roots|
      invariant n <= |roots|
      invariant VisitAll(fs, roots[n..], [], resolver.State()) == VisitAll(fs, roots, [], Walk([], {}))
    {
      assert roots[n..][0] == roots[n] && roots[n..][1..] == roots[n + 1..];
      failure := resolver.VisitFile(fs, roots[n], []);
      if failure.Some? {
        return [], failure;
      }
      n := n + 1;
    }
    assert roots[n..] == [];
    return resolver.order, None;
  }

  // ---- Reachability ----

  /** A chain of imports from a root. */
  ghost predicate IsTrail(fs: Files, roots: seq<string>, trail: seq<string>) {
    && |trail| > 0 && trail[0] in roots
    && forall i :: 0 < i < |trail| ==> Imported(fs, trail[i - 1], trail[i])
  }

  ghost predicate Reachable(fs: Files, roots: seq<string>, p: string) {
    exists trail :: IsTrail(fs, roots, trail) && trail[|trail| - 1] == p
  }

  /** The named files form a cycle of imports among the reachable files: each imports the
      next, under some path it is reached by, and the last is the first. */
  ghost predicate IsCycle(fs: Files, roots: seq<string>, files: seq<string>) {
    exists paths: seq<string> :: IsCycleOf(fs, roots, files, paths)
  }

  ghost predicate IsCycleOf(fs: Files, roots: seq<string>, files: seq<string>, paths: seq<string>) {
    && |paths| == |files| > 1 && files[0] == files[|files| - 1]
    && Reachable(fs, roots, paths[0])
    && (forall i :: 0 <= i < |files| ==> fs.resolve(paths[i]) == files[i])
    && (forall i :: 0 < i < |files| ==> Imported(fs, paths[i - 1], paths[i]))
  }

  /** Some file among order[..n] resolves to x. */
  ghost predicate Listed(fs: Files, order: seq<string>, n: nat, x: string) {
    exists j :: 0 <= j < n <= |order| && fs.resolve(order[j]) == x
  }

  /** Each file is listed once, is reachable, and comes after everything it imports. */
  ghost predicate Good(fs: Files, roots: seq<string>, w: Walk) {
    && (forall x :: x in w.done <==> Listed(fs, w.order, |w.order|, x))
    && (forall i, j :: 0 <= i < j < |w.order| ==> fs.resolve(w.order[i]) != fs.resolve(w.order[j]))
    && (forall k :: 0 <= k < |w.order| ==> Reachable(fs, roots, w.order[k]))
    && (forall k :: 0 <= k < |w.order| ==> fs.preLex(w.order[k]).Imports?)
    && (forall k, c :: 0 <= k < |w.order| && Imported(fs, w.order[k], c) ==> Listed(fs, w.order, k, fs.resolve(c)))
  }

  ghost predicate RootsDone(fs: Files, roots: seq<string>, w: Walk) {
    forall p <- roots :: fs.resolve(p) in w.done
  }

  /** What a search that stops was stopped by. */
  ghost predicate Justified(fs: Files, roots: seq<string>, why: Failure) {
    match why
    case Cycle(files) => IsCycle(fs, roots, files)
    case Broken(e) => exists p :: Reachable(fs, roots, p) && fs.preLex(p) == Failed(e)
  }

  ghost predicate Resolves(fs: Files, trail: seq<string>, stack: seq<string>) {
    |trail| == |stack| && forall i :: 0 <= i < |stack| ==> fs.resolve(trail[i]) == stack[i]
  }

  ghost predicate Apart(w: Walk, stack: seq<string>) {
    forall s <- stack :: s !in w.done
  }

  lemma ListedMore(fs: Files, order: seq<string>, path: string)
    ensures forall n: nat, x :: n <= |order| && Listed(fs, order, n, x) ==> Listed(fs, order + [path], n, x)
    ensures forall n: nat, x :: n <= |order| && Listed(fs, order + [path], n, x) ==> Listed(fs, order, n, x)
    ensures forall x :: Listed(fs, order + [path], |order| + 1, x) <==> Listed(fs, order, |order|, x) || x == fs.resolve(path)
  {
    var longer := order + [path];
    forall n: nat, x | n <= |order| && Listed(fs, order, n, x) ensures Listed(fs, longer, n, x) {
      var j :| 0 <= j < n <= |order| && fs.resolve(order[j]) == x;
      assert longer[j] == order[j];
    }
    forall n: nat, x | n <= |order| && Listed(fs, longer, n, x) ensures Listed(fs, order, n, x) {
      var j :| 0 <= j < n && fs.resolve(longer[j]) == x;
      assert longer[j] == order[j];
    }
    forall x ensures Listed(fs, longer, |order| + 1, x) <==> Listed(fs, order, |order|, x) || x == fs.resolve(path) {
      if Listed(fs, longer, |order| + 1, x) {
        var j :| 0 <= j < |longer| && fs.resolve(longer[j]) == x;
        assert j < |order| ==> fs.resolve(order[j]) == x;
      }
      if x == fs.resolve(path) {
        assert fs.resolve(longer[|order|]) == x;
      }
      if Listed(fs, order, |order|, x) {
        var j :| 0 <= j < |order| && fs.resolve(order[j]) == x;
        assert fs.resolve(longer[j]) == x;
      }
    }
  }

  lemma GoodAppend(fs: Files, roots: seq<string>, w: Walk, path: string)
    requires Good(fs, roots, w) && fs.resolve(path) !in w.done
    requires Reachable(fs, roots, path) && fs.preLex(path).Imports?
    requires forall c :: Imported(fs, path, c) ==> fs.resolve(c) in w.done
    ensures Good(fs, roots, Walk(w.order + [path], w.done + {fs.resolve(path)}))
  {
    var longer, n := w.order + [path], |w.order|;
    ListedMore(fs, w.order, path);
    forall i, j | 0 <= i < j < |longer| ensures fs.resolve(longer[i]) != fs.resolve(longer[j]) {
      assert i < n && longer[i] == w.order[i];
      assert Listed(fs, w.order, n, fs.resolve(w.order[i]));
    }
    forall k, c | 0 <= k < |longer| && Imported(fs, longer[k], c) ensures Listed(fs, longer, k, fs.resolve(c)) {
      if k < n {
        assert longer[k] == w.order[k];
        assert Listed(fs, w.order, k, fs.resolve(c));
      }
    }
  }

  lemma CycleFound(fs: Files, roots: seq<string>, trail: seq<string>, path: string, stack: seq<string>, i: nat)
    requires IsTrail(fs, roots, trail + [path]) && Resolves(fs, trail, stack)
    requires i < |stack| && stack[i] == fs.resolve(path)
    ensures IsCycle(fs, roots, stack[i..] + [fs.resolve(path)])
  {
    var whole := trail + [path];
    var paths, files := whole[i..], stack[i..] + [fs.resolve(path)];
    assert IsTrail(fs, roots, whole[..i + 1]) && whole[..i + 1][i] == paths[0];
    forall k | 0 < k < |files| ensures Imported(fs, paths[k - 1], paths[k]) {
      assert paths[k - 1] == whole[i + k - 1] && paths[k] == whole[i + k];
      assert Imported(fs, whole[(i + k) - 1], whole[i + k]);
    }
    assert IsCycleOf(fs, roots, files, paths);
  }

  lemma TrailStep(fs: Files, roots: seq<string>, trail: seq<string>, c: string)
    requires IsTrail(fs, roots, trail) && Imported(fs, trail[|trail| - 1], c)
    ensures IsTrail(fs, roots, trail + [c])
  {
    var longer := trail + [c];
    forall i | 0 < i < |longer| ensures Imported(fs, longer[i - 1], longer[i]) {
      if i < |trail| {
        assert longer[i - 1] == trail[i - 1] && longer[i] == trail[i];
      }
    }
  }

  // ---- The search is right ----

  ghost predicate VisitOk(fs: Files, roots: seq<string>, stack: seq<string>, r: Result) {
    match r
    case Finished(v) => Good(fs, roots, v) && Apart(v, stack)
    case Stopped(why) => Justified(fs, roots, why)
  }

  lemma {:induction false} VisitIsRight(fs: Files, roots: seq<string>, trail: seq<string>, path: string, stack: seq<string>, w: Walk)
    requires Bounded(fs) && fs.resolve(path) in fs.all && Good(fs, roots, w) && Apart(w, stack)
    requires IsTrail(fs, roots, trail + [path]) && Resolves(fs, trail, stack)
    ensures VisitOk(fs, roots, stack, Visit(fs, path, stack, w))
    ensures Visit(fs, path, stack, w).Finished? ==> fs.resolve(path) in Visit(fs, path, stack, w).walk.done
    decreases Open(fs, stack, w), 0
  {
    var file, here := fs.resolve(path), trail + [path];
    assert here[|here| - 1] == path;
    if file in w.done {
    } else if file in stack {
      CycleFound(fs, roots, trail, path, stack, IndexOf(stack, file));
    } else if fs.preLex(path).Imports? {
      var children, deeper := fs.preLex(path).paths, stack + [file];
      assert file in Open(fs, stack, w) && file !in Open(fs, deeper, w);
      assert forall c <- children :: Imported(fs, path, c);
      forall c | c in children ensures IsTrail(fs, roots, here + [c]) {
        TrailStep(fs, roots, here, c);
      }
      VisitAllIsRight(fs, roots, here, children, deeper, w);
      var r := VisitAll(fs, children, deeper, w);
      if r.Finished? {
        assert file in deeper;
        GoodAppend(fs, roots, r.walk, path);
        assert forall s <- stack :: s in deeper;
      }
    }
  }

  lemma {:induction false} VisitAllIsRight(fs: Files, roots: seq<string>, trail: seq<string>, paths: seq<string>, stack: seq<string>, w: Walk)
    requires Bounded(fs) && (forall p <- paths :: fs.resolve(p) in fs.all) && Good(fs, roots, w) && Apart(w, stack)
    requires (forall p <- paths :: IsTrail(fs, roots, trail + [p])) && Resolves(fs, trail, stack)
    ensures VisitOk(fs, roots, stack, VisitAll(fs, paths, stack, w))
    ensures VisitAll(fs, paths, stack, w).Finished? ==>
              forall p <- paths :: fs.resolve(p) in VisitAll(fs, paths, stack, w).walk.done
    decreases Open(fs, stack, w), |paths|
  {
    if |paths| > 0 {
      assert paths[0] in paths;
      VisitIsRight(fs, roots, trail, paths[0], stack, w);
      var r := Visit(fs, paths[0], stack, w);
      if r.Finished? {
        VisitAllIsRight(fs, roots, trail, paths[1..], stack, r.walk);
        assert forall p <- paths :: p == paths[0] || p in paths[1..];
      }
    }
  }

  /** On success every file is listed once, reachable and after everything it imports, and
      every root is there. A failure names what is really there: a cycle of reachable files
      each importing the next, or the error of a reachable file. */
  lemma ResolutionIsRight(fs: Files, roots: seq<string>)
    requires Bounded(fs) && forall p <- roots :: fs.resolve(p) in fs.all
    ensures var r := VisitAll(fs, roots, [], Walk([], {}));
            && (r.Finished? ==> Good(fs, roots, r.walk) && RootsDone(fs, roots, r.walk))
            && (r.Stopped? ==> Justified(fs, roots, r.why))
  {
    VisitAllIsRight(fs, roots, [], roots, [], Walk([], {}));
  }

  // ---- When what a file imports depends on the resolved file only ----

  /** Paths to one reachable file all pre-lex or all fail, and import the same files. */
  ghost predicate ByFile(fs: Files, roots: seq<string>) {
    forall p, q :: Reachable(fs, roots, p) && Reachable(fs, roots, q) && fs.resolve(p) == fs.resolve(q) ==>
      SameImports(fs, p, q)
  }

  ghost predicate SameImports(fs: Files, p: string, q: string) {
    && (fs.preLex(p).Imports? ==> fs.preLex(q).Imports?)
    && forall c :: Imported(fs, p, c) ==> ImportsFile(fs, q, fs.resolve(c))
  }

  ghost predicate ImportsFile(fs: Files, p: string, x: string) {
    exists d :: Imported(fs, p, d) && fs.resolve(d) == x
  }

  /** Every reachable path pre-lexes. */
  ghost predicate Clean(fs: Files, roots: seq<string>) {
    forall p :: Reachable(fs, roots, p) ==> fs.preLex(p).Imports?
  }

  lemma ReachableStep(fs: Files, roots: seq<string>, p: string, c: string)
    requires Reachable(fs, roots, p) && Imported(fs, p, c)
    ensures Reachable(fs, roots, c)
  {
    var trail :| IsTrail(fs, roots, trail) && trail[|trail| - 1] == p;
    TrailStep(fs, roots, trail, c);
    assert (trail + [c])[|trail|] == c;
  }

  /** What a listed file imports, however it is spelled, is listed before it. */
  lemma ImportedListed(fs: Files, roots: seq<string>, w: Walk, p: string, c: string, k: nat)
    requires ByFile(fs, roots) && Good(fs, roots, w) && Reachable(fs, roots, p) && Imported(fs, p, c)
    requires k < |w.order| && fs.resolve(w.order[k]) == fs.resolve(p)
    ensures Listed(fs, w.order, k, fs.resolve(c)) && Reachable(fs, roots, c)
  {
    ReachableStep(fs, roots, p, c);
    assert Reachable(fs, roots, w.order[k]);
    assert SameImports(fs, p, w.order[k]);
    assert ImportsFile(fs, w.order[k], fs.resolve(c));
    var d :| Imported(fs, w.order[k], d) && fs.resolve(d) == fs.resolve(c);
  }

  lemma DoneStep(fs: Files, roots: seq<string>, w: Walk, p: string, c: string)
    requires ByFile(fs, roots) && Good(fs, roots, w) && Reachable(fs, roots, p) && Imported(fs, p, c)
    requires fs.resolve(p) in w.done
    ensures fs.resolve(c) in w.done && Reachable(fs, roots, c)
  {
    assert Listed(fs, w.order, |w.order|, fs.resolve(p));
    var k :| 0 <= k < |w.order| && fs.resolve(w.order[k]) == fs.resolve(p);
    ImportedListed(fs, roots, w, p, c, k);
    var j :| 0 <= j < k && fs.resolve(w.order[j]) == fs.resolve(c);
    assert Listed(fs, w.order, |w.order|, fs.resolve(c));
  }

  lemma {:induction false} TrailDone(fs: Files, roots: seq<string>, w: Walk, trail: seq<string>)
    requires ByFile(fs, roots) && Good(fs, roots, w) && RootsDone(fs, roots, w)
    requires IsTrail(fs, roots, trail)
    ensures fs.resolve(trail[|trail| - 1]) in w.done && Reachable(fs, roots, trail[|trail| - 1])
    decreases |trail|
  {
    var n := |trail| - 1;
    if n > 0 {
      assert IsTrail(fs, roots, trail[..n]);
      TrailDone(fs, roots, w, trail[..n]);
      assert Imported(fs, trail[n - 1], trail[n]);
      DoneStep(fs, roots, w, trail[n - 1], trail[n]);
    }
  }

  lemma ReachableDone(fs: Files, roots: seq<string>, w: Walk, p: string)
    requires ByFile(fs, roots) && Good(fs, roots, w) && RootsDone(fs, roots, w) && Reachable(fs, roots, p)
    ensures fs.resolve(p) in w.done && fs.preLex(p).Imports?
  {
    var trail :| IsTrail(fs, roots, trail) && trail[|trail| - 1] == p;
    TrailDone(fs, roots, w, trail);
    var k :| 0 <= k < |w.order| && fs.resolve(w.order[k]) == fs.resolve(p);
    assert Reachable(fs, roots, w.order[k]);
    assert SameImports(fs, w.order[k], p);
  }

  /** Import closure: the files listed are exactly the resolved files reachable. */
  lemma ClosureIsExact(fs: Files, roots: seq<string>, x: string)
    requires Bounded(fs) && (forall p <- roots :: fs.resolve(p) in fs.all) && ByFile(fs, roots)
    requires VisitAll(fs, roots, [], Walk([], {})).Finished?
    ensures var w := VisitAll(fs, roots, [], Walk([], {})).walk;
            Listed(fs, w.order, |w.order|, x) <==> exists p :: Reachable(fs, roots, p) && fs.resolve(p) == x
  {
    ResolutionIsRight(fs, roots);
    var w := VisitAll(fs, roots, [], Walk([], {})).walk;
    if Listed(fs, w.order, |w.order|, x) {
      var j :| 0 <= j < |w.order| && fs.resolve(w.order[j]) == x;
      assert Reachable(fs, roots, w.order[j]);
    }
    forall p | Reachable(fs, roots, p) ensures fs.resolve(p) in w.done {
      ReachableDone(fs, roots, w, p);
    }
  }

  /** Along a chain of imports the place in the order only goes down. */
  lemma {:induction false} PlacesDescend(fs: Files, roots: seq<string>, w: Walk, paths: seq<string>, i: nat, k: nat)
    requires ByFile(fs, roots) && Good(fs, roots, w) && 0 < i < |paths| && Reachable(fs, roots, paths[0])
    requires forall j :: 0 < j < |paths| ==> Imported(fs, paths[j - 1], paths[j])
    requires k < |w.order| && fs.resolve(w.order[k]) == fs.resolve(paths[0])
    ensures Listed(fs, w.order, k, fs.resolve(paths[i])) && Reachable(fs, roots, paths[i])
    decreases i
  {
    assert Imported(fs, paths[i - 1], paths[i]);
    if i == 1 {
      ImportedListed(fs, roots, w, paths[0], paths[1], k);
    } else {
      PlacesDescend(fs, roots, w, paths, i - 1, k);
      var j :| 0 <= j < k && fs.resolve(w.order[j]) == fs.resolve(paths[i - 1]);
      ImportedListed(fs, roots, w, paths[i - 1], paths[i], j);
      var l :| 0 <= l < j && fs.resolve(w.order[l]) == fs.resolve(paths[i]);
    }
  }

  lemma NoCycleWhenFinished(fs: Files, roots: seq<string>, w: Walk, files: seq<string>)
    requires ByFile(fs, roots) && Good(fs, roots, w) && RootsDone(fs, roots, w)
    ensures !IsCycle(fs, roots, files)
  {
    if IsCycle(fs, roots, files) {
      var paths :| IsCycleOf(fs, roots, files, paths);
      ReachableDone(fs, roots, w, paths[0]);
      var k :| 0 <= k < |w.order| && fs.resolve(w.order[k]) == fs.resolve(paths[0]);
      PlacesDescend(fs, roots, w, paths, |paths| - 1, k);
      assert false;
    }
  }

  /** The call succeeds exactly when every reachable path pre-lexes and the reachable files
      have no import cycle. */
  lemma FinishedIff(fs: Files, roots: seq<string>)
    requires Bounded(fs) && (forall p <- roots :: fs.resolve(p) in fs.all) && ByFile(fs, roots)
    ensures VisitAll(fs, roots, [], Walk([], {})).Finished? <==>
            Clean(fs, roots) && !exists files :: IsCycle(fs, roots, files)
  {
    ResolutionIsRight(fs, roots);
    var r := VisitAll(fs, roots, [], Walk([], {}));
    if r.Finished? {
      forall files ensures !IsCycle(fs, roots, files) {
        NoCycleWhenFinished(fs, roots, r.walk, files);
      }
      forall p | Reachable(fs, roots, p) ensures fs.preLex(p).Imports? {
        ReachableDone(fs, roots, r.walk, p);
      }
    }
  }

  /** An import cycle is answered only where there is one, and when every reachable path
      pre-lexes exactly where there is one. */
  lemma CycleReportedIff(fs: Files, roots: seq<string>)
    requires Bounded(fs) && (forall p <- roots :: fs.resolve(p) in fs.all) && ByFile(fs, roots)
    ensures var r := VisitAll(fs, roots, [], Walk([], {}));
            && (r.Stopped? && r.why.Cycle? ==> exists files :: IsCycle(fs, roots, files))
            && (Clean(fs, roots) ==> (r.Stopped? && r.why.Cycle? <==> exists files :: IsCycle(fs, roots, files)))
            && (r.Stopped? && r.why.Broken? ==> !Clean(fs, roots))
  {
    ResolutionIsRight(fs, roots);
    FinishedIff(fs, roots);
  }

  /** Paths are followed one after the other, and the first failure is the answer. */
  lemma {:induction false} FirstFailure(fs: Files, a: seq<string>, b: seq<string>, stack: seq<string>, w: Walk)
    requires Bounded(fs) && forall p <- a + b :: fs.resolve(p) in fs.all
    ensures (forall p <- a :: fs.resolve(p) in fs.all) && forall p <- b :: fs.resolve(p) in fs.all
    ensures VisitAll(fs, a + b, stack, w)
         == match VisitAll(fs, a, stack, w)
            case Finished(v) => VisitAll(fs, b, stack, v)
            case Stopped(why) => Stopped(why)
    decreases |a|
  {
    forall p | p in a || p in b ensures fs.resolve(p) in fs.all {
      assert p in a + b;
    }
    if |a| == 0 {
      assert a + b == b;
    } else {
      assert (a + b)[0] == a[0] && (a + b)[1..] == a[1..] + b;
      var r := Visit(fs, a[0], stack, w);
      if r.Finished? {
        FirstFailure(fs, a[1..], b, stack, r.walk);
      }
    }
  }

  /** Files that import nothing keep the order they are imported in. */
  lemma {:induction false} LeavesKeepOrder(fs: Files, paths: seq<string>, w: Walk)
    requires Bounded(fs) && forall p <- paths :: fs.resolve(p) in fs.all
    requires forall i :: 0 <= i < |paths| ==> fs.preLex(paths[i]) == Imports([]) && fs.resolve(paths[i]) !in w.done
    requires forall i, j :: 0 <= i < j < |paths| ==> fs.resolve(paths[i]) != fs.resolve(paths[j])
    ensures VisitAll(fs, paths, [], w).Finished? && VisitAll(fs, paths, [], w).walk.order == w.order + paths
    decreases |paths|
  {
    if |paths| > 0 {
      var next := Walk(w.order + [paths[0]], w.done + {fs.resolve(paths[0])});
      assert VisitAll(fs, [], [fs.resolve(paths[0])], w) == Finished(w);
      assert [] + [fs.resolve(paths[0])] == [fs.resolve(paths[0])];
      assert Visit(fs, paths[0], [], w) == Finished(next);
      LeavesKeepOrder(fs, paths[1..], next);
      assert w.order + paths == next.order + paths[1..];
    }
  }

  // ---- The order of the files ----

  /** The paths imported at the end of a trail of import indices; the roots at the start. */
  function ImportsAt(fs: Files, roots: seq<string>, trail: seq<nat>): seq<string>
    decreases |trail|
  {
    if |trail| == 0 then roots
    else
      var n := |trail| - 1;
      var paths := ImportsAt(fs, roots, trail[..n]);
      if trail[n] < |paths| && fs.preLex(paths[trail[n]]).Imports? then fs.preLex(paths[trail[n]]).paths else []
  }

  /** Following the imports with these indices from the roots leads to path p. */
  predicate LeadsTo(fs: Files, roots: seq<string>, trail: seq<nat>, p: string) {
    && |trail| > 0
    && var n, paths := |trail| - 1, ImportsAt(fs, roots, trail[..|trail| - 1]);
       trail[n] < |paths| && paths[trail[n]] == p
  }

  /** Trail a leaves the way of b at a smaller index. */
  ghost predicate Branches(a: seq<nat>, b: seq<nat>) {
    exists d: nat :: BranchesAt(a, b, d)
  }

  predicate BranchesAt(a: seq<nat>, b: seq<nat>, d: nat) {
    d < |a| && d < |b| && (forall i :: 0 <= i < d ==> a[i] == b[i]) && a[d] < b[d]
  }

  /** A file comes before another if its trail goes on from the other's, or branches off before it. */
  ghost predicate PostBefore(a: seq<nat>, b: seq<nat>) {
    (b <= a && a != b) || Branches(a, b)
  }

  lemma BranchesTransitive(a: seq<nat>, b: seq<nat>, c: seq<nat>)
    requires Branches(a, b) && Branches(b, c)
    ensures Branches(a, c)
  {
    var d: nat :| BranchesAt(a, b, d);
    var e: nat :| BranchesAt(b, c, e);
    assert BranchesAt(a, c, if d < e then d else e);
  }

  /** What branches off before b branches off before all that goes on from b. */
  lemma BranchesLonger(a: seq<nat>, b: seq<nat>, longer: seq<nat>)
    requires Branches(a, b) && b <= longer
    ensures Branches(a, longer)
  {
    var d: nat :| BranchesAt(a, b, d);
    assert BranchesAt(a, longer, d);
  }

  lemma BranchesFromLonger(a: seq<nat>, longer: seq<nat>, b: seq<nat>)
    requires Branches(a, b) && a <= longer
    ensures Branches(longer, b)
  {
    var d: nat :| BranchesAt(a, b, d);
    assert BranchesAt(longer, b, d);
  }

  lemma SiblingsBranch(base: seq<nat>, i: nat, j: nat, a: seq<nat>, b: seq<nat>)
    requires i < j && base + [i] <= a && base + [j] <= b
    ensures Branches(a, b)
  {
    var d := |base|;
    assert a[d] == (base + [i])[d] && b[d] == (base + [j])[d];
    assert forall k :: 0 <= k < d ==> a[k] == (base + [i])[k] && b[k] == (base + [j])[k];
    assert BranchesAt(a, b, d);
  }

  lemma BranchesIrreflexive(a: seq<nat>, b: seq<nat>)
    requires Branches(a, b)
    ensures !(a <= b) && !(b <= a) && !Branches(b, a)
  {
    var d: nat :| BranchesAt(a, b, d);
  }

  /** Two different trails are one before the other, and not the other way round. */
  lemma PostOrderTotal(a: seq<nat>, b: seq<nat>)
    requires a != b
    ensures PostBefore(a, b) <==> !PostBefore(b, a)
  {
    if Branches(a, b) {
      BranchesIrreflexive(a, b);
    } else if Branches(b, a) {
      BranchesIrreflexive(b, a);
    } else if !(a <= b) && !(b <= a) {
      FindBranch(a, b, 0);
    }
  }

  lemma {:induction false} FindBranch(a: seq<nat>, b: seq<nat>, d: nat)
    requires d <= |a| && d <= |b| && (forall i :: 0 <= i < d ==> a[i] == b[i]) && !(a <= b) && !(b <= a)
    ensures Branches(a, b) || Branches(b, a)
    decreases |a| - d
  {
    if d < |a| && d < |b| {
      if a[d] == b[d] {
        FindBranch(a, b, d + 1);
      } else {
        assert BranchesAt(a, b, d) || BranchesAt(b, a, d);
      }
    }
  }

  /** Every listed path has a trail that leads to it, and the list is ordered by them. */
  ghost predicate Trails(fs: Files, roots: seq<string>, order: seq<string>, trails: seq<seq<nat>>) {
    && |trails| == |order|
    && (forall k :: 0 <= k < |order| ==> LeadsTo(fs, roots, trails[k], order[k]))
    && (forall i, j :: 0 <= i < j < |order| ==> PostBefore(trails[i], trails[j]))
  }

  /** Import i at the end of a trail leads to a file that is listed under that very trail or one
      that branches off before it. */
  ghost predicate Reached(fs: Files, order: seq<string>, trails: seq<seq<nat>>, x: string, trail: seq<nat>) {
    exists m :: 0 <= m < |order| && m < |trails| && fs.resolve(order[m]) == x && (trails[m] == trail || Branches(trails[m], trail))
  }

  ghost predicate AllReached(fs: Files, order: seq<string>, trails: seq<seq<nat>>, paths: seq<string>, base: seq<nat>, n: nat) {
    forall i: nat :: i < n && i < |paths| ==> Reached(fs, order, trails, fs.resolve(paths[i]), base + [i])
  }

  ghost predicate ListedReached(fs: Files, roots: seq<string>, order: seq<string>, trails: seq<seq<nat>>, k: nat)
    requires k < |order| && |trails| == |order|
  {
    fs.preLex(order[k]).Imports? ==>
      AllReached(fs, order, trails, fs.preLex(order[k]).paths, trails[k], |fs.preLex(order[k]).paths|)
  }

  /** The trails of a walk: ordered, and each listed file's imports reached. */
  ghost predicate Walked(fs: Files, roots: seq<string>, w: Walk, trails: seq<seq<nat>>) {
    && Trails(fs, roots, w.order, trails)
    && (forall k: nat :: k < |w.order| ==> ListedReached(fs, roots, w.order, trails, k))
    && (forall x <- w.done :: Listed(fs, w.order, |w.order|, x))
  }

  /** All trails branch off before the place the search is at. */
  ghost predicate Behind(trails: seq<seq<nat>>, at: seq<nat>) {
    forall k :: 0 <= k < |trails| ==> Branches(trails[k], at)
  }

  /** The trails from n on go on from a place. */
  ghost predicate Below(trails: seq<seq<nat>>, n: nat, at: seq<nat>) {
    forall k :: n <= k < |trails| ==> at <= trails[k] && trails[k] != at
  }

  lemma ReachedMore(fs: Files, order: seq<string>, trails: seq<seq<nat>>, p: string, t: seq<nat>, x: string, trail: seq<nat>)
    requires |trails| == |order| && Reached(fs, order, trails, x, trail)
    ensures Reached(fs, order + [p], trails + [t], x, trail)
  {
    var m :| 0 <= m < |order| && m < |trails| && fs.resolve(order[m]) == x && (trails[m] == trail || Branches(trails[m], trail));
    assert (order + [p])[m] == order[m] && (trails + [t])[m] == trails[m];
  }

  lemma AllReachedMore(fs: Files, order: seq<string>, trails: seq<seq<nat>>, p: string, t: seq<nat>,
                       paths: seq<string>, base: seq<nat>, n: nat)
    requires |trails| == |order| && AllReached(fs, order, trails, paths, base, n)
    ensures AllReached(fs, order + [p], trails + [t], paths, base, n)
  {
    forall i: nat | i < n && i < |paths| ensures Reached(fs, order + [p], trails + [t], fs.resolve(paths[i]), base + [i]) {
      ReachedMore(fs, order, trails, p, t, fs.resolve(paths[i]), base + [i]);
    }
  }

  /** The file whose imports have all been followed comes next. */
  lemma WalkedAppend(fs: Files, roots: seq<string>, w: Walk, trails: seq<seq<nat>>, path: string, at: seq<nat>, n: nat)
    requires Walked(fs, roots, w, trails) && LeadsTo(fs, roots, at, path) && fs.preLex(path).Imports?
    requires n <= |trails| && Behind(trails[..n], at) && Below(trails, n, at)
    requires AllReached(fs, w.order, trails, fs.preLex(path).paths, at, |fs.preLex(path).paths|)
    ensures Walked(fs, roots, Walk(w.order + [path], w.done + {fs.resolve(path)}), trails + [at])
  {
    var order, all := w.order + [path], trails + [at];
    ListedMore(fs, w.order, path);
    forall i, j | 0 <= i < j < |order| ensures PostBefore(all[i], all[j]) {
      if j == |w.order| {
        assert i < n ==> trails[..n][i] == all[i];
      }
    }
    forall k: nat | k < |order| ensures ListedReached(fs, roots, order, all, k) {
      var p := order[k];
      if fs.preLex(p).Imports? {
        var paths := fs.preLex(p).paths;
        assert k < |w.order| ==> ListedReached(fs, roots, w.order, trails, k);
        AllReachedMore(fs, w.order, trails, path, at, paths, all[k], |paths|);
      }
    }
    forall x | x in w.done + {fs.resolve(path)} ensures Listed(fs, order, |order|, x) {
      if x in w.done {
        assert Listed(fs, w.order, |w.order|, x);
        var j :| 0 <= j < |w.order| && fs.resolve(w.order[j]) == x;
        assert order[j] == w.order[j];
      } else {
        assert order[|w.order|] == path;
      }
    }
  }

  lemma BehindNext(trails: seq<seq<nat>>, base: seq<nat>, i: nat, n: nat)
    requires n <= |trails| && Behind(trails[..n], base + [i])
    requires forall k :: n <= k < |trails| ==> base + [i] <= trails[k]
    ensures Behind(trails, base + [i + 1])
  {
    forall k | 0 <= k < |trails| ensures Branches(trails[k], base + [i + 1]) {
      if k < n {
        assert trails[..n][k] == trails[k];
        NextSibling(trails[k], base, i);
      } else {
        SiblingsBranch(base, i, i + 1, trails[k], base + [i + 1]);
      }
    }
  }

  lemma NextSibling(a: seq<nat>, base: seq<nat>, i: nat)
    requires Branches(a, base + [i])
    ensures Branches(a, base + [i + 1])
  {
    var d: nat :| BranchesAt(a, base + [i], d);
    assert BranchesAt(a, base + [i + 1], d);
  }

  // What a visit adds to the trails, and where the search then is.

  ghost predicate Visited(fs: Files, roots: seq<string>, v: Walk, all: seq<seq<nat>>, trails: seq<seq<nat>>, x: string, at: seq<nat>) {
    && Walked(fs, roots, v, all) && trails <= all
    && (forall k :: |trails| <= k < |all| ==> at <= all[k])
    && Reached(fs, v.order, all, x, at)
  }

  lemma {:induction false} VisitTrails(fs: Files, roots: seq<string>, path: string, stack: seq<string>, w: Walk,
                                       trails: seq<seq<nat>>, at: seq<nat>) returns (all: seq<seq<nat>>)
    requires Bounded(fs) && fs.resolve(path) in fs.all
    requires Walked(fs, roots, w, trails) && LeadsTo(fs, roots, at, path) && Behind(trails, at)
    ensures var r := Visit(fs, path, stack, w);
            r.Finished? ==> Visited(fs, roots, r.walk, all, trails, fs.resolve(path), at)
    decreases Open(fs, stack, w), 0
  {
    var file := fs.resolve(path);
    all := trails;
    if file in w.done {
      DoneVisited(fs, roots, w, trails, file, at);
    } else if file !in stack && fs.preLex(path).Imports? {
      var children, deeper := fs.preLex(path).paths, stack + [file];
      assert forall c <- children :: Imported(fs, path, c);
      assert file in Open(fs, stack, w) && file !in Open(fs, deeper, w);
      ImportsOf(fs, roots, at, path);
      BehindFirst(trails, at);
      var below := VisitAllTrails(fs, roots, children, 0, deeper, w, trails, at);
      assert children[0..] == children;
      var r := VisitAll(fs, children, deeper, w);
      if r.Finished? {
        VisitedAppend(fs, roots, r.walk, below, trails, path, at);
        all := below + [at];
      }
    }
  }

  lemma DoneVisited(fs: Files, roots: seq<string>, w: Walk, trails: seq<seq<nat>>, x: string, at: seq<nat>)
    requires Walked(fs, roots, w, trails) && Behind(trails, at) && x in w.done
    ensures Visited(fs, roots, w, trails, trails, x, at)
  {
    assert Listed(fs, w.order, |w.order|, x);
    var m :| 0 <= m < |w.order| && fs.resolve(w.order[m]) == x;
    assert Branches(trails[m], at);
  }

  lemma VisitedAppend(fs: Files, roots: seq<string>, w: Walk, below: seq<seq<nat>>, trails: seq<seq<nat>>, path: string, at: seq<nat>)
    requires Walked(fs, roots, w, below) && trails <= below && Below(below, |trails|, at) && Behind(trails, at)
    requires LeadsTo(fs, roots, at, path) && fs.preLex(path).Imports?
    requires AllReached(fs, w.order, below, fs.preLex(path).paths, at, |fs.preLex(path).paths|)
    ensures Visited(fs, roots, Walk(w.order + [path], w.done + {fs.resolve(path)}), below + [at], trails, fs.resolve(path), at)
  {
    assert below[..|trails|] == trails;
    WalkedAppend(fs, roots, w, below, path, at, |trails|);
    var n := |w.order|;
    assert (w.order + [path])[n] == path && (below + [at])[n] == at;
  }

  lemma BehindFirst(trails: seq<seq<nat>>, at: seq<nat>)
    requires Behind(trails, at)
    ensures Behind(trails, at + [0])
  {
    forall k | 0 <= k < |trails| ensures Branches(trails[k], at + [0]) {
      BranchesLonger(trails[k], at, at + [0]);
    }
  }

  lemma ImportsOf(fs: Files, roots: seq<string>, at: seq<nat>, path: string)
    requires LeadsTo(fs, roots, at, path) && fs.preLex(path).Imports?
    ensures ImportsAt(fs, roots, at) == fs.preLex(path).paths
  {
  }

  lemma {:induction false} VisitAllTrails(fs: Files, roots: seq<string>, paths: seq<string>, i: nat, stack: seq<string>, w: Walk,
                                          trails: seq<seq<nat>>, base: seq<nat>) returns (all: seq<seq<nat>>)
    requires Bounded(fs) && (forall p <- paths :: fs.resolve(p) in fs.all) && i <= |paths|
    requires Walked(fs, roots, w, trails) && ImportsAt(fs, roots, base) == paths && Behind(trails, base + [i])
    requires AllReached(fs, w.order, trails, paths, base, i)
    ensures var r := VisitAll(fs, paths[i..], stack, w);
            r.Finished? ==>
              && Walked(fs, roots, r.walk, all) && trails <= all && Below(all, |trails|, base)
              && AllReached(fs, r.walk.order, all, paths, base, |paths|)
    decreases Open(fs, stack, w), |paths| - i
  {
    all := trails;
    if i < |paths| {
      var at := base + [i];
      assert at[..|base|] == base;
      assert paths[i..][0] == paths[i] && paths[i..][1..] == paths[i + 1..];
      var next := VisitTrails(fs, roots, paths[i], stack, w, trails, at);
      var r := Visit(fs, paths[i], stack, w);
      if r.Finished? {
        assert next[..|trails|] == trails;
        BehindNext(next, base, i, |trails|);
        StillReached(fs, w.order, trails, r.walk.order, next, paths, base, i);
        all := VisitAllTrails(fs, roots, paths, i + 1, stack, r.walk, next, base);
      }
    }
  }

  lemma StillReached(fs: Files, order: seq<string>, trails: seq<seq<nat>>, longer: seq<string>, all: seq<seq<nat>>,
                     paths: seq<string>, base: seq<nat>, i: nat)
    requires order <= longer && trails <= all && |trails| == |order| && |all| == |longer| && i < |paths|
    requires AllReached(fs, order, trails, paths, base, i) && Reached(fs, longer, all, fs.resolve(paths[i]), base + [i])
    ensures AllReached(fs, longer, all, paths, base, i + 1)
  {
    forall j: nat | j < i + 1 && j < |paths| ensures Reached(fs, longer, all, fs.resolve(paths[j]), base + [j]) {
      if j < i {
        var x, trail := fs.resolve(paths[j]), base + [j];
        assert Reached(fs, order, trails, x, trail);
        var m :| 0 <= m < |order| && m < |trails| && fs.resolve(order[m]) == x && (trails[m] == trail || Branches(trails[m], trail));
        assert longer[m] == order[m] && all[m] == trails[m];
      }
    }
  }

  // ---- The trails of a finished resolution ----

  /** The walk of the whole resolution has trails: every listed path is led to by its own, the
      list is in their order, and each import of the roots and of a listed file leads to a file
      listed under that trail or one that branches off before it. */
  lemma OrderHasTrails(fs: Files, roots: seq<string>) returns (trails: seq<seq<nat>>)
    requires Bounded(fs) && forall p <- roots :: fs.resolve(p) in fs.all
    ensures var r := VisitAll(fs, roots, [], Walk([], {}));
            r.Finished? ==> Walked(fs, roots, r.walk, trails) && AllReached(fs, r.walk.order, trails, roots, [], |roots|)
  {
    trails := VisitAllTrails(fs, roots, roots, 0, [], Walk([], {}), [], []);
    assert roots[0..] == roots;
  }

  lemma ParentLeads(fs: Files, roots: seq<string>, trail: seq<nat>, p: string) returns (q: string)
    requires LeadsTo(fs, roots, trail, p) && |trail| > 1
    ensures var n := |trail| - 1;
            && LeadsTo(fs, roots, trail[..n], q) && fs.preLex(q).Imports?
            && trail[n] < |fs.preLex(q).paths| && fs.preLex(q).paths[trail[n]] == p
  {
    var before := trail[..|trail| - 1];
    var n := |before| - 1;
    var paths := ImportsAt(fs, roots, before[..n]);
    q := if before[n] < |paths| then paths[before[n]] else "";
  }

  lemma {:induction false} LeadsReachable(fs: Files, roots: seq<string>, trail: seq<nat>, p: string)
    requires LeadsTo(fs, roots, trail, p)
    ensures Reachable(fs, roots, p)
    decreases |trail|
  {
    if |trail| > 1 {
      var q := ParentLeads(fs, roots, trail, p);
      LeadsReachable(fs, roots, trail[..|trail| - 1], q);
      ReachableStep(fs, roots, q, p);
    } else {
      assert trail[..0] == [];
      assert IsTrail(fs, roots, [p]) && [p][|[p]| - 1] == p;
    }
  }

  /** A trail leads to one path only. */
  lemma LeadsOnce(fs: Files, roots: seq<string>, trail: seq<nat>, p: string, q: string)
    requires LeadsTo(fs, roots, trail, p) && LeadsTo(fs, roots, trail, q)
    ensures p == q
  {
  }

  /** The trail of a listed file is its first: every trail to it, under any path, is that one or
      one that it branches off before. */
  lemma {:induction false} TrailsAreFirst(fs: Files, roots: seq<string>, w: Walk, trails: seq<seq<nat>>, trail: seq<nat>, p: string)
    requires ByFile(fs, roots) && Walked(fs, roots, w, trails) && AllReached(fs, w.order, trails, roots, [], |roots|)
    requires LeadsTo(fs, roots, trail, p)
    ensures Reached(fs, w.order, trails, fs.resolve(p), trail)
    decreases |trail|
  {
    var n := |trail| - 1;
    assert trail == trail[..n] + [trail[n]];
    if n == 0 {
      assert trail[..0] == [];
      assert Reached(fs, w.order, trails, fs.resolve(roots[trail[0]]), [] + [trail[0]]);
    } else {
      var q := ParentLeads(fs, roots, trail, p);
      TrailsAreFirst(fs, roots, w, trails, trail[..n], q);
      var m: nat :| m < |w.order| && m < |trails| && fs.resolve(w.order[m]) == fs.resolve(q)
                    && (trails[m] == trail[..n] || Branches(trails[m], trail[..n]));
      assert ListedReached(fs, roots, w.order, trails, m);
      if trails[m] == trail[..n] {
        LeadsOnce(fs, roots, trail[..n], q, w.order[m]);
        assert Reached(fs, w.order, trails, fs.resolve(fs.preLex(q).paths[trail[n]]), trails[m] + [trail[n]]);
      } else {
        LeadsReachable(fs, roots, trail[..n], q);
        LeadsReachable(fs, roots, trails[m], w.order[m]);
        ReachedBefore(fs, roots, w, trails, trail, p, q, m);
      }
    }
  }

  /** The file is imported by a listed one whose trail branches off before. */
  lemma ReachedBefore(fs: Files, roots: seq<string>, w: Walk, trails: seq<seq<nat>>, trail: seq<nat>, p: string, q: string, m: nat)
    requires ByFile(fs, roots) && Walked(fs, roots, w, trails) && m < |w.order|
    requires Reachable(fs, roots, q) && Reachable(fs, roots, w.order[m]) && fs.resolve(w.order[m]) == fs.resolve(q)
    requires Imported(fs, q, p) && |trail| > 0 && Branches(trails[m], trail[..|trail| - 1])
    ensures Reached(fs, w.order, trails, fs.resolve(p), trail)
  {
    assert SameImports(fs, q, w.order[m]);
    assert ImportsFile(fs, w.order[m], fs.resolve(p));
    var d :| Imported(fs, w.order[m], d) && fs.resolve(d) == fs.resolve(p);
    var paths := fs.preLex(w.order[m]).paths;
    var i: nat :| i < |paths| && paths[i] == d;
    var longer := trails[m] + [i];
    assert ListedReached(fs, roots, w.order, trails, m);
    assert Reached(fs, w.order, trails, fs.resolve(paths[i]), longer);
    BranchesLonger(trails[m], trail[..|trail| - 1], trail);
    BranchesFromLonger(trails[m], longer, trail);
    var k: nat :| k < |w.order| && k < |trails| && fs.resolve(w.order[k]) == fs.resolve(d)
                  && (trails[k] == longer || Branches(trails[k], longer));
    if trails[k] != longer {
      BranchesTransitive(trails[k], longer, trail);
    }
  }

  /** The order of the files: with each listed file's first trail, one file comes before another
      if and only if its trail goes on from the other's or branches off at a smaller index. */
  lemma OrderIsPostorder(fs: Files, roots: seq<string>) returns (trails: seq<seq<nat>>)
    requires Bounded(fs) && (forall p <- roots :: fs.resolve(p) in fs.all)
    requires VisitAll(fs, roots, [], Walk([], {})).Finished?
    ensures var order := VisitAll(fs, roots, [], Walk([], {})).walk.order;
            && |trails| == |order|
            && (forall k :: 0 <= k < |order| ==> LeadsTo(fs, roots, trails[k], order[k]))
            && (forall i, j :: 0 <= i < |order| && 0 <= j < |order| && i != j ==> (i < j <==> PostBefore(trails[i], trails[j])))
            && (ByFile(fs, roots) ==> forall trail, p :: LeadsTo(fs, roots, trail, p) ==>
                  Reached(fs, order, trails, fs.resolve(p), trail))
  {
    trails := OrderHasTrails(fs, roots);
    var w := VisitAll(fs, roots, [], Walk([], {})).walk;
    forall i, j | 0 <= i < |w.order| && 0 <= j < |w.order| && i != j
      ensures i < j <==> PostBefore(trails[i], trails[j])
    {
      if i < j {
        OneWay(trails[i], trails[j]);
      } else {
        OneWay(trails[j], trails[i]);
      }
    }
    if ByFile(fs, roots) {
      forall trail, p | LeadsTo(fs, roots, trail, p) ensures Reached(fs, w.order, trails, fs.resolve(p), trail) {
        TrailsAreFirst(fs, roots, w, trails, trail, p);
      }
    }
  }

  lemma OneWay(a: seq<nat>, b: seq<nat>)
    requires PostBefore(a, b)
    ensures !PostBefore(b, a)
  {
    if Branches(a, b) {
      BranchesIrreflexive(a, b);
    }
    if a != b {
      PostOrderTotal(a, b);
    }
  }
}
