/** The shared-cursor worker pools `par_map` and `patch_all`
    (src/autoformatelf.rs) as interleaved steps: a worker either takes the next
    index from the cursor or finishes the item it holds. */
module Pool {
  import opened Ir
  import Sorting

  /** What processing one item yields: results to keep, or an error that stops the worker. */
  datatype Outcome<R> = Good(results: seq<R>) | Bad(error: Error)

  datatype Status = Running | Finished | Failed(error: Error)

  datatype Worker<R> = Worker(busy: Option<nat>, applied: seq<nat>, local: seq<(nat, R)>, status: Status)

  datatype State<R> = State(cursor: nat, workers: seq<Worker<R>>)

  function Start<R>(n: nat): State<R>
  {
    State(0, seq(n, i => Worker(None, [], [], Running)))
  }

  function Tagged<R>(i: nat, rs: seq<R>): (r: seq<(nat, R)>)
    ensures |r| == |rs|
  {
    seq(|rs|, k requires 0 <= k < |rs| => (i, rs[k]))
  }

  /** What a worker becomes in one step, given the cursor it reads. */
  function Next<T, R>(items: seq<T>, f: T -> Outcome<R>, cursor: nat, k: Worker<R>): Worker<R>
  {
    if k.status != Running then k
    else if k.busy.Some? && k.busy.value < |items| then
      var i := k.busy.value;
      match f(items[i])
      case Good(rs) => Worker(None, k.applied + [i], k.local + Tagged(i, rs), Running)
      case Bad(e) => Worker(None, k.applied + [i], k.local, Failed(e))
    else if cursor < |items| then k.(busy := Some(cursor))
    else k.(busy := None, status := Finished)
  }

  /** Whether the worker's step is a fetch, which increments the cursor. */
  predicate Fetches<T, R>(items: seq<T>, k: Worker<R>)
  {
    k.status == Running && !(k.busy.Some? && k.busy.value < |items|)
  }

  /** One step of worker `w`: finish the item in hand, or fetch-and-increment the cursor. */
  function Step<T, R>(items: seq<T>, f: T -> Outcome<R>, s: State<R>, w: nat): (r: State<R>)
    requires w < |s.workers|
    ensures |r.workers| == |s.workers|
  {
    State(if Fetches(items, s.workers[w]) then s.cursor + 1 else s.cursor,
          s.workers[w := Next(items, f, s.cursor, s.workers[w])])
  }

  ghost predicate Stopped<R>(s: State<R>)
  {
    forall w :: 0 <= w < |s.workers| ==> s.workers[w].status != Running
  }

  /** The state after running the workers in the order a schedule names them. */
  function Exec<T, R>(items: seq<T>, f: T -> Outcome<R>, s: State<R>, schedule: seq<nat>): State<R>
    requires forall k :: 0 <= k < |schedule| ==> schedule[k] < |s.workers|
    decreases |schedule|
  {
    if schedule == [] then s else Exec(items, f, Step(items, f, s, schedule[0]), schedule[1..])
  }

  // ---- Which indices are held ----

  function Min(a: nat, b: nat): nat
  {
    if a < b then a else b
  }

  function Range(n: nat): (r: seq<nat>)
    ensures |r| == n && forall i :: 0 <= i < n ==> r[i] == i
  {
    seq(n, i => i)
  }

  /** How often a worker holds index `i`: processed, or in hand. */
  function HeldBy<R>(k: Worker<R>, i: nat): nat
  {
    multiset(k.applied)[i] + if k.busy == Some(i) then 1 else 0
  }

  /** How often the workers together hold index `i`. */
  function Held<R>(ws: seq<Worker<R>>, i: nat): nat
  {
    if ws == [] then 0 else Held(ws[..|ws| - 1], i) + HeldBy(ws[|ws| - 1], i)
  }

  lemma {:induction false} HeldUpdate<R>(ws: seq<Worker<R>>, w: nat, k: Worker<R>, i: nat)
    requires w < |ws|
    ensures Held(ws[w := k], i) + HeldBy(ws[w], i) == Held(ws, i) + HeldBy(k, i)
  {
    var n := |ws| - 1;
    if w < n {
      HeldUpdate(ws[..n], w, k, i);
      assert ws[w := k][..n] == ws[..n][w := k];
    } else {
      assert ws[w := k][..n] == ws[..n];
    }
  }

  lemma {:induction false} HeldAtLeast<R>(ws: seq<Worker<R>>, w: nat, i: nat)
    requires w < |ws|
    ensures HeldBy(ws[w], i) <= Held(ws, i)
  {
    if w < |ws| - 1 {
      HeldAtLeast(ws[..|ws| - 1], w, i);
    }
  }

  /** Every index below the cursor is held by exactly one worker, exactly once. */
  ghost predicate Inv<T, R>(items: seq<T>, f: T -> Outcome<R>, s: State<R>)
  {
    && (forall i: nat :: Held(s.workers, i) == if i < Min(s.cursor, |items|) then 1 else 0)
    && forall w :: 0 <= w < |s.workers| ==> WorkerInv(items, f, s.cursor, s.workers[w])
  }

  /** What a worker keeps of item `i`'s outcome. */
  function Kept<R>(o: Outcome<R>, i: nat): seq<(nat, R)>
  {
    match o case Good(rs) => Tagged(i, rs) case Bad(_) => []
  }

  /** Results of the items a worker has processed, in its order. */
  function Results<T, R>(items: seq<T>, f: T -> Outcome<R>, applied: seq<nat>): seq<(nat, R)>
    requires forall k :: 0 <= k < |applied| ==> applied[k] < |items|
  {
    if applied == [] then []
    else
      var i := applied[|applied| - 1];
      Results(items, f, applied[..|applied| - 1]) + Kept(f(items[i]), i)
  }

  ghost predicate WorkerInv<T, R>(items: seq<T>, f: T -> Outcome<R>, cursor: nat, k: Worker<R>)
  {
    && (forall x :: 0 <= x < |k.applied| ==> k.applied[x] < |items|)
    && k.local == Results(items, f, k.applied)
    && (k.busy.Some? ==> k.busy.value < |items| && k.status == Running)
    && (k.status == Finished ==> cursor > |items|)
    && (!k.status.Failed? ==> forall x :: 0 <= x < |k.applied| ==> f(items[k.applied[x]]).Good?)
    && (k.status.Failed? ==> exists x :: 0 <= x < |k.applied| && f(items[k.applied[x]]) == Bad(k.status.error))
  }

  lemma StartInv<T, R>(items: seq<T>, f: T -> Outcome<R>, n: nat)
    ensures Inv(items, f, Start<R>(n))
  {
    var s := Start<R>(n);
    forall i: nat ensures Held(s.workers, i) == 0 {
      HeldNothing(s.workers, i);
    }
  }

  lemma {:induction false} HeldNothing<R>(ws: seq<Worker<R>>, i: nat)
    requires forall w :: 0 <= w < |ws| ==> ws[w] == Worker(None, [], [], Running)
    ensures Held(ws, i) == 0
  {
    if ws != [] {
      HeldNothing(ws[..|ws| - 1], i);
    }
  }

  lemma ResultsSnoc<T, R>(items: seq<T>, f: T -> Outcome<R>, applied: seq<nat>, i: nat)
    requires i < |items| && forall k :: 0 <= k < |applied| ==> applied[k] < |items|
    ensures Results(items, f, applied + [i])
            == Results(items, f, applied) + Kept(f(items[i]), i)
  {
    assert (applied + [i])[..|applied|] == applied;
  }

  /** One worker's step keeps its invariant, and takes the cursor's index if it fetches one. */
  lemma NextInv<T, R>(items: seq<T>, f: T -> Outcome<R>, cursor: nat, k: Worker<R>)
    requires WorkerInv(items, f, cursor, k)
    ensures var k', fetches := Next(items, f, cursor, k), Fetches(items, k);
            && WorkerInv(items, f, if fetches then cursor + 1 else cursor, k')
            && forall i: nat :: HeldBy(k', i) == HeldBy(k, i) + if fetches && i == cursor < |items| then 1 else 0
  {
    if k.status == Running && k.busy.Some? {
      FinishWorker(items, f, cursor, k, k.busy.value);
    }
  }

  lemma FinishWorker<T, R>(items: seq<T>, f: T -> Outcome<R>, cursor: nat, k: Worker<R>, i: nat)
    requires WorkerInv(items, f, cursor, k) && k.busy == Some(i) && k.status == Running
    ensures WorkerInv(items, f, cursor, Next(items, f, cursor, k))
    ensures forall x: nat :: HeldBy(Next(items, f, cursor, k), x) == HeldBy(k, x)
  {
    ResultsSnoc(items, f, k.applied, i);
    MultisetSnoc(k.applied, i);
  }

  lemma MultisetSnoc<T>(a: seq<T>, x: T)
    ensures multiset(a + [x]) == multiset(a) + multiset{x}
  {
  }

  /** Every interleaved step keeps the invariant. */
  lemma StepInv<T, R>(items: seq<T>, f: T -> Outcome<R>, s: State<R>, w: nat)
    requires Inv(items, f, s) && w < |s.workers|
    ensures Inv(items, f, Step(items, f, s, w))
  {
    var k, s' := s.workers[w], Step(items, f, s, w);
    NextInv(items, f, s.cursor, k);
    forall i: nat
      ensures Held(s'.workers, i) == if i < Min(s'.cursor, |items|) then 1 else 0
    {
      HeldUpdate(s.workers, w, s'.workers[w], i);
    }
    forall x | 0 <= x < |s'.workers|
      ensures WorkerInv(items, f, s'.cursor, s'.workers[x])
    {
      assert WorkerInv(items, f, s.cursor, s.workers[x]);
    }
  }

  lemma {:induction false} ExecInv<T, R>(items: seq<T>, f: T -> Outcome<R>, s: State<R>, schedule: seq<nat>)
    requires Inv(items, f, s) && forall k :: 0 <= k < |schedule| ==> schedule[k] < |s.workers|
    ensures Inv(items, f, Exec(items, f, s, schedule)) && |Exec(items, f, s, schedule).workers| == |s.workers|
    decreases |schedule|
  {
    if schedule != [] {
      StepInv(items, f, s, schedule[0]);
      ExecInv(items, f, Step(items, f, s, schedule[0]), schedule[1..]);
    }
  }

  // ---- Termination: every effective step uses up work ----

  function Work<R>(ws: seq<Worker<R>>): nat
  {
    if ws == [] then 0
    else
      var k := ws[|ws| - 1];
      Work(ws[..|ws| - 1]) + (if k.status == Running then 2 else 0) + (if k.busy.Some? then 1 else 0)
  }

  function Measure<T, R>(items: seq<T>, s: State<R>): nat
  {
    2 * (|items| - Min(s.cursor, |items|)) + Work(s.workers)
  }

  lemma {:induction false} WorkUpdate<R>(ws: seq<Worker<R>>, w: nat, k: Worker<R>)
    requires w < |ws|
    ensures Work(ws[w := k]) + (if ws[w].status == Running then 2 else 0) + (if ws[w].busy.Some? then 1 else 0)
         == Work(ws) + (if k.status == Running then 2 else 0) + (if k.busy.Some? then 1 else 0)
  {
    var n := |ws| - 1;
    if w < n {
      WorkUpdate(ws[..n], w, k);
      assert ws[w := k][..n] == ws[..n][w := k];
    } else {
      assert ws[w := k][..n] == ws[..n];
    }
  }

  /** A step of a running worker brings the pool closer to its end. */
  lemma StepProgress<T, R>(items: seq<T>, f: T -> Outcome<R>, s: State<R>, w: nat)
    requires Inv(items, f, s) && w < |s.workers| && s.workers[w].status == Running
    ensures Measure(items, Step(items, f, s, w)) < Measure(items, s)
  {
    WorkUpdate(s.workers, w, Step(items, f, s, w).workers[w]);
  }

  // ---- What the stopped pool holds ----

  /** The indices processed, worker by worker. */
  function AllApplied<R>(ws: seq<Worker<R>>): seq<nat>
  {
    if ws == [] then [] else AllApplied(ws[..|ws| - 1]) + ws[|ws| - 1].applied
  }

  /** The results kept, in the order the threads are joined. */
  function AllLocal<R>(ws: seq<Worker<R>>): seq<(nat, R)>
  {
    if ws == [] then [] else AllLocal(ws[..|ws| - 1]) + ws[|ws| - 1].local
  }

  ghost predicate InBounds<T>(items: seq<T>, applied: seq<nat>)
  {
    forall k :: 0 <= k < |applied| ==> applied[k] < |items|
  }

  lemma ResultsJoin<T, R>(items: seq<T>, f: T -> Outcome<R>, a: seq<nat>, b: seq<nat>, i: nat)
    requires InBounds(items, a) && InBounds(items, b) && i < |items| && InBounds(items, a + b)
    requires Results(items, f, a + b) == Results(items, f, a) + Results(items, f, b)
    ensures InBounds(items, b + [i]) && InBounds(items, a + (b + [i]))
    ensures Results(items, f, a + (b + [i])) == Results(items, f, a) + Results(items, f, b + [i])
  {
    SeqAssoc(a, b, [i]);
    ResultsSnoc(items, f, a + b, i);
    ResultsSnoc(items, f, b, i);
    SeqAssoc(Results(items, f, a), Results(items, f, b), Kept(f(items[i]), i));
  }

  lemma {:induction false} ResultsConcat<T, R>(items: seq<T>, f: T -> Outcome<R>, a: seq<nat>, b: seq<nat>)
    requires InBounds(items, a) && InBounds(items, b)
    ensures InBounds(items, a + b) && Results(items, f, a + b) == Results(items, f, a) + Results(items, f, b)
    decreases |b|
  {
    if b == [] {
      assert a + b == a;
    } else {
      var b', i := b[..|b| - 1], b[|b| - 1];
      assert b == b' + [i];
      ResultsConcat(items, f, a, b');
      ResultsJoin(items, f, a, b', i);
    }
  }

  lemma {:induction false} LocalsAreResults<T, R>(items: seq<T>, f: T -> Outcome<R>, cursor: nat, ws: seq<Worker<R>>)
    requires forall w :: 0 <= w < |ws| ==> WorkerInv(items, f, cursor, ws[w])
    ensures InBounds(items, AllApplied(ws)) && AllLocal(ws) == Results(items, f, AllApplied(ws))
  {
    if ws != [] {
      var n := |ws| - 1;
      LocalsAreResults(items, f, cursor, ws[..n]);
      assert WorkerInv(items, f, cursor, ws[n]);
      ResultsConcat(items, f, AllApplied(ws[..n]), ws[n].applied);
    }
  }

  lemma {:induction false} AppliedCount<R>(ws: seq<Worker<R>>, i: nat)
    requires forall w :: 0 <= w < |ws| ==> ws[w].busy.None?
    ensures multiset(AllApplied(ws))[i] == Held(ws, i)
  {
    if ws != [] {
      AppliedCount(ws[..|ws| - 1], i);
    }
  }

  ghost predicate NoneFailed<R>(s: State<R>)
  {
    forall w :: 0 <= w < |s.workers| ==> !s.workers[w].status.Failed?
  }

  /** A pool that stops without an error has processed every item exactly once. */
  lemma StoppedCoversAll<T, R>(items: seq<T>, f: T -> Outcome<R>, s: State<R>)
    requires Inv(items, f, s) && s.workers != [] && Stopped(s) && NoneFailed(s)
    ensures multiset(AllApplied(s.workers)) == multiset(Range(|items|))
  {
    assert WorkerInv(items, f, s.cursor, s.workers[0]);
    forall w | 0 <= w < |s.workers| ensures s.workers[w].busy.None? {
      assert WorkerInv(items, f, s.cursor, s.workers[w]);
    }
    forall i: nat
      ensures multiset(AllApplied(s.workers))[i] == multiset(Range(|items|))[i]
    {
      AppliedCount(s.workers, i);
      RangeCount(|items|, i);
    }
  }

  lemma {:induction false} RangeCount(n: nat, i: nat)
    ensures multiset(Range(n))[i] == if i < n then 1 else 0
  {
    if n > 0 {
      RangeCount(n - 1, i);
      assert Range(n) == Range(n - 1) + [n - 1];
    }
  }

  /** Where the last element of `a` sits in a permutation of `a`. */
  lemma TakeOut<T>(a: seq<T>, b: seq<T>) returns (b1: seq<T>, b2: seq<T>)
    requires a != [] && multiset(a) == multiset(b)
    ensures b == b1 + [a[|a| - 1]] + b2 && multiset(a[..|a| - 1]) == multiset(b1 + b2)
  {
    var n := |a| - 1;
    var x := a[n];
    assert a == a[..n] + [x];
    assert x in multiset(b);
    var k :| 0 <= k < |b| && b[k] == x;
    b1, b2 := b[..k], b[k + 1..];
    assert b == b1 + [x] + b2;
    MultisetMiddle(b1, [x], b2);
    assert multiset(a[..n]) == multiset(a) - multiset{x};
    assert multiset(b1 + b2) == multiset(b) - multiset{x};
  }

  lemma MultisetMiddle<T>(x: seq<T>, y: seq<T>, z: seq<T>)
    ensures multiset(x + y + z) == multiset(x + z) + multiset(y)
  {
  }

  lemma MultisetAppend<T>(x: seq<T>, y: seq<T>, u: seq<T>, w: seq<T>)
    requires multiset(x) == multiset(u + w)
    ensures multiset(x + y) == multiset(u + y + w)
  {
    MultisetMiddle(u, y, w);
  }

  lemma NoneLeft<T>(b: seq<T>)
    requires multiset(b) == multiset{}
    ensures b == []
  {
    assert |multiset(b)| == |b|;
  }

  /** Processing the same items in another order keeps the same results. */
  lemma {:induction false} ResultsPermute<T, R>(items: seq<T>, f: T -> Outcome<R>, a: seq<nat>, b: seq<nat>)
    requires InBounds(items, a) && InBounds(items, b) && multiset(a) == multiset(b)
    ensures multiset(Results(items, f, a)) == multiset(Results(items, f, b))
    decreases |a|
  {
    if a == [] {
      NoneLeft(b);
    } else {
      var a', i := a[..|a| - 1], a[|a| - 1];
      var b1, b2 := TakeOut(a, b);
      InBoundsParts(items, b1, i, b2);
      InBoundsConcat(items, b1, b2);
      assert a == a' + [i];
      ResultsPermute(items, f, a', b1 + b2);
      SameResultsAround(items, f, a', b1, i, b2);
    }
  }

  lemma InBoundsConcat<T>(items: seq<T>, a: seq<nat>, b: seq<nat>)
    requires InBounds(items, a) && InBounds(items, b)
    ensures InBounds(items, a + b)
  {
  }

  lemma SameResultsAround<T, R>(items: seq<T>, f: T -> Outcome<R>, a: seq<nat>, b1: seq<nat>, i: nat, b2: seq<nat>)
    requires InBounds(items, a) && InBounds(items, b1) && i < |items| && InBounds(items, b2) && InBounds(items, b1 + b2)
    requires multiset(Results(items, f, a)) == multiset(Results(items, f, b1 + b2))
    ensures InBounds(items, a + [i]) && InBounds(items, b1 + [i] + b2)
    ensures multiset(Results(items, f, a + [i])) == multiset(Results(items, f, b1 + [i] + b2))
  {
    ResultsAround(items, f, b1, i, b2);
    ResultsSnoc(items, f, a, i);
    MultisetAppend(Results(items, f, a), Kept(f(items[i]), i), Results(items, f, b1), Results(items, f, b2));
  }

  lemma InBoundsParts<T>(items: seq<T>, b1: seq<nat>, i: nat, b2: seq<nat>)
    requires InBounds(items, b1 + [i] + b2)
    ensures InBounds(items, b1) && i < |items| && InBounds(items, b2)
  {
    var b := b1 + [i] + b2;
    assert b[|b1|] == i;
    forall k | 0 <= k < |b1| ensures b1[k] < |items| {
      assert b[k] == b1[k];
    }
    forall k | 0 <= k < |b2| ensures b2[k] < |items| {
      assert b[|b1| + 1 + k] == b2[k];
    }
  }

  lemma ResultsAround<T, R>(items: seq<T>, f: T -> Outcome<R>, b1: seq<nat>, i: nat, b2: seq<nat>)
    requires InBounds(items, b1) && i < |items| && InBounds(items, b2)
    ensures InBounds(items, b1 + [i] + b2) && InBounds(items, b1 + b2)
    ensures Results(items, f, b1 + [i] + b2)
            == Results(items, f, b1) + Kept(f(items[i]), i) + Results(items, f, b2)
    ensures Results(items, f, b1 + b2) == Results(items, f, b1) + Results(items, f, b2)
  {
    ResultsConcat(items, f, b1, b2);
    ResultsSnoc(items, f, b1, i);
    ResultsConcat(items, f, b1 + [i], b2);
  }

  function Values<R>(rs: seq<(nat, R)>): (v: seq<R>)
    ensures |v| == |rs|
  {
    seq(|rs|, k requires 0 <= k < |rs| => rs[k].1)
  }

  lemma ValuesAround<R>(b1: seq<(nat, R)>, x: (nat, R), b2: seq<(nat, R)>)
    ensures Values(b1 + [x] + b2) == Values(b1) + [x.1] + Values(b2)
    ensures Values(b1 + b2) == Values(b1) + Values(b2)
  {
  }

  lemma {:induction false} ValuesPermute<R>(a: seq<(nat, R)>, b: seq<(nat, R)>)
    requires multiset(a) == multiset(b)
    ensures multiset(Values(a)) == multiset(Values(b))
    decreases |a|
  {
    if a == [] {
      NoneLeft(b);
    } else {
      var a', x := a[..|a| - 1], a[|a| - 1];
      var b1, b2 := TakeOut(a, b);
      ValuesPermute(a', b1 + b2);
      ValuesAround(b1, x, b2);
      assert Values(a) == Values(a') + [x.1];
      MultisetAppend(Values(a'), [x.1], Values(b1), Values(b2));
    }
  }

  // ---- par_map ----

  /** The sequential result: each item's value in order, `None`s dropped. */
  function FilterMap<T, R>(items: seq<T>, f: T -> Option<R>): seq<R>
  {
    if items == [] then []
    else
      var n := |items| - 1;
      FilterMap(items[..n], f) + match f(items[n]) case None => [] case Some(r) => [r]
  }

  /** `par_map`'s item function never fails and yields at most one result. */
  function AsOutcome<T, R>(f: T -> Option<R>): T -> Outcome<R>
  {
    x => match f(x) case None => Good([]) case Some(r) => Good([r])
  }

  function Index<R>(p: (nat, R)): int
  {
    p.0
  }

  ghost predicate Increasing<R>(rs: seq<(nat, R)>)
  {
    forall i, j :: 0 <= i < j < |rs| ==> rs[i].0 < rs[j].0
  }

  ghost predicate IncreasingBelow<R>(rs: seq<(nat, R)>, n: nat)
  {
    Increasing(rs) && forall k :: 0 <= k < |rs| ==> rs[k].0 < n
  }

  lemma SequentialStep<R>(before: seq<(nat, R)>, o: Option<R>, n: nat)
    requires IncreasingBelow(before, n)
    ensures var now := before + Kept(match o case None => Good([]) case Some(r) => Good([r]), n);
            && IncreasingBelow(now, n + 1)
            && Values(now) == Values(before) + match o case None => [] case Some(r) => [r]
  {
    match o {
      case None => assert before + [] == before;
      case Some(r) => assert Tagged(n, [r]) == [(n, r)];
    }
  }

  lemma {:induction false} SequentialResults<T, R>(items: seq<T>, f: T -> Option<R>, n: nat)
    requires n <= |items|
    ensures InBounds(items, Range(n))
    ensures var rs := Results(items, AsOutcome(f), Range(n));
            Values(rs) == FilterMap(items[..n], f) && IncreasingBelow(rs, n)
  {
    if n > 0 {
      SequentialResults(items, f, n - 1);
      ResultsSnoc(items, AsOutcome(f), Range(n - 1), n - 1);
      assert Range(n) == Range(n - 1) + [n - 1];
      assert items[..n][..n - 1] == items[..n - 1];
      SequentialStep(Results(items, AsOutcome(f), Range(n - 1)), f(items[n - 1]), n - 1);
    }
  }

  /** The largest index comes last both in a sorted and in an increasing order. */
  lemma SameLast<R>(a: seq<(nat, R)>, b: seq<(nat, R)>)
    requires a != [] && b != [] && Sorting.SortedBy(a, Index) && Increasing(b) && multiset(a) == multiset(b)
    ensures a[|a| - 1] == b[|b| - 1]
  {
    var x, y := a[|a| - 1], b[|b| - 1];
    assert y in multiset(a) && x in multiset(b);
    var i :| 0 <= i < |a| && a[i] == y;
    var j :| 0 <= j < |b| && b[j] == x;
    assert Index(a[i]) <= Index(x);
    assert b[j].0 <= y.0;
  }

  lemma DropLasts<T>(a: seq<T>, b: seq<T>)
    requires a != [] && b != [] && a[|a| - 1] == b[|b| - 1] && multiset(a) == multiset(b)
    ensures multiset(a[..|a| - 1]) == multiset(b[..|b| - 1])
  {
    var x := a[|a| - 1];
    assert a == a[..|a| - 1] + [x] && b == b[..|b| - 1] + [x];
    assert multiset(a[..|a| - 1]) == multiset(a) - multiset{x};
    assert multiset(b[..|b| - 1]) == multiset(b) - multiset{x};
  }

  /** Sorting by index restores the one strictly increasing order. */
  lemma {:induction false} SortedIsUnique<R>(a: seq<(nat, R)>, b: seq<(nat, R)>)
    requires Sorting.SortedBy(a, Index) && Increasing(b) && multiset(a) == multiset(b)
    ensures a == b
    decreases |a|
  {
    if a == [] {
      NoneLeft(b);
    } else if b == [] {
      NoneLeft(a);
    } else {
      SameLast(a, b);
      var a', b', x := a[..|a| - 1], b[..|b| - 1], a[|a| - 1];
      DropLasts(a, b);
      SortedIsUnique(a', b');
      assert a == a' + [x] && b == b' + [x];
    }
  }

  lemma NeverFails<T, R>(items: seq<T>, f: T -> Option<R>, s: State<R>)
    requires Inv(items, AsOutcome(f), s)
    ensures NoneFailed(s)
  {
    forall w | 0 <= w < |s.workers| ensures !s.workers[w].status.Failed? {
      assert WorkerInv(items, AsOutcome(f), s.cursor, s.workers[w]);
    }
  }

  /** Whatever the interleaving, the sorted results are the sequential ones, and
      every item was processed exactly once. */
  lemma StoppedParMap<T, R>(items: seq<T>, f: T -> Option<R>, s: State<R>)
    requires Inv(items, AsOutcome(f), s) && s.workers != [] && Stopped(s)
    ensures Values(Sorting.Sort(AllLocal(s.workers), Index)) == FilterMap(items, f)
    ensures multiset(AllApplied(s.workers)) == multiset(Range(|items|))
  {
    NeverFails(items, f, s);
    StoppedCoversAll(items, AsOutcome(f), s);
    LocalsAreResults(items, AsOutcome(f), s.cursor, s.workers);
    SequentialResults(items, f, |items|);
    assert items[..|items|] == items;
    ResultsPermute(items, AsOutcome(f), AllApplied(s.workers), Range(|items|));
    var sorted := Sorting.Sort(AllLocal(s.workers), Index);
    Sorting.SortSorted(AllLocal(s.workers), Index);
    SortedIsUnique(sorted, Results(items, AsOutcome(f), Range(|items|)));
  }

  /** For any worker count and any schedule that lets every worker finish,
      `par_map` returns the sequential result. */
  lemma ParMapAnySchedule<T, R>(items: seq<T>, f: T -> Option<R>, workers: nat, schedule: seq<nat>)
    requires workers > 0 && forall k :: 0 <= k < |schedule| ==> schedule[k] < workers
    requires Stopped(Exec(items, AsOutcome(f), Start<R>(workers), schedule))
    ensures var s := Exec(items, AsOutcome(f), Start<R>(workers), schedule);
            && Values(Sorting.Sort(AllLocal(s.workers), Index)) == FilterMap(items, f)
            && multiset(AllApplied(s.workers)) == multiset(Range(|items|))
  {
    StartInv(items, AsOutcome(f), workers);
    ExecInv(items, AsOutcome(f), Start<R>(workers), schedule);
    StoppedParMap(items, f, Exec(items, AsOutcome(f), Start<R>(workers), schedule));
  }

  /** At any moment no two workers hold the same item, and none holds it twice. */
  lemma HeldOnce<T, R>(items: seq<T>, f: T -> Outcome<R>, s: State<R>, v: nat, w: nat, i: nat)
    requires Inv(items, f, s) && v < |s.workers| && w < |s.workers|
    requires HeldBy(s.workers[v], i) > 0 && HeldBy(s.workers[w], i) > 0
    ensures v == w && HeldBy(s.workers[v], i) == 1
  {
    HeldAtLeast(s.workers, v, i);
    if v != w {
      HeldTwice(s.workers, if v < w then v else w, if v < w then w else v, i);
    }
  }

  lemma {:induction false} HeldTwice<R>(ws: seq<Worker<R>>, v: nat, w: nat, i: nat)
    requires v < w < |ws|
    ensures HeldBy(ws[v], i) + HeldBy(ws[w], i) <= Held(ws, i)
  {
    if w < |ws| - 1 {
      HeldTwice(ws[..|ws| - 1], v, w, i);
    } else {
      HeldAtLeast(ws[..|ws| - 1], v, i);
    }
  }

  /** `par_map`: up to `workers` threads taking items from the shared cursor, in
      an arbitrary interleaving. */
  method ParMap<T, R>(items: seq<T>, workers: nat, f: T -> Option<R>) returns (out: seq<R>)
    ensures out == FilterMap(items, f)
  {
    var workers := Min(workers, |items|);
    if workers <= 1 {
      out := [];
      for i := 0 to |items|
        invariant out == FilterMap(items[..i], f)
      {
        var r := f(items[i]);
        if r.Some? {
          out := out + [r.value];
        }
        assert items[..i + 1][..i] == items[..i];
      }
      assert items[..|items|] == items;
      return;
    }
    var s := Start<R>(workers);
    StartInv(items, AsOutcome(f), workers);
    while exists w :: 0 <= w < |s.workers| && s.workers[w].status == Running
      invariant Inv(items, AsOutcome(f), s) && |s.workers| == workers
      decreases Measure(items, s)
    {
      var w :| 0 <= w < |s.workers| && s.workers[w].status == Running;
      StepInv(items, AsOutcome(f), s, w);
      StepProgress(items, AsOutcome(f), s, w);
      s := Step(items, AsOutcome(f), s, w);
    }
    StoppedParMap(items, f, s);
    out := Values(Sorting.Sort(AllLocal(s.workers), Index));
  }

  // ---- patch_all ----

  /** The error of the first failed worker in join order, else all that the workers kept. */
  function Merge<R>(ws: seq<Worker<R>>): Result<seq<R>>
  {
    if ws == [] then Ok([])
    else
      var n := |ws| - 1;
      match Merge(ws[..n])
      case Err(e) => Err(e)
      case Ok(kept) => if ws[n].status.Failed? then Err(ws[n].status.error) else Ok(kept + Values(ws[n].local))
  }

  /** Patching the files in order, stopping at the first error. */
  function InOrder<T, R>(items: seq<T>, f: T -> Outcome<R>): Result<seq<R>>
  {
    if items == [] then Ok([])
    else
      var n := |items| - 1;
      match InOrder(items[..n], f)
      case Err(e) => Err(e)
      case Ok(kept) => match f(items[n]) case Bad(e) => Err(e) case Good(rs) => Ok(kept + rs)
  }

  lemma {:induction false} MergeDecides<R>(ws: seq<Worker<R>>)
    ensures match Merge(ws)
            case Ok(kept) => kept == Values(AllLocal(ws)) && forall w :: 0 <= w < |ws| ==> !ws[w].status.Failed?
            case Err(e) => exists w :: 0 <= w < |ws| && ws[w].status == Failed(e)
  {
    if ws != [] {
      var n := |ws| - 1;
      MergeDecides(ws[..n]);
      if Merge(ws[..n]).Ok? {
        ValuesConcat(AllLocal(ws[..n]), ws[n].local);
      } else {
        var w :| 0 <= w < n && ws[..n][w].status == Failed(Merge(ws[..n]).error);
        assert ws[w].status == Failed(Merge(ws).error);
      }
    }
  }

  lemma ValuesConcat<R>(a: seq<(nat, R)>, b: seq<(nat, R)>)
    ensures Values(a + b) == Values(a) + Values(b)
  {
  }

  ghost predicate GoodBelow<T, R>(items: seq<T>, f: T -> Outcome<R>, n: nat)
    requires n <= |items|
  {
    forall i :: 0 <= i < n ==> f(items[i]).Good?
  }

  lemma InOrderStep<T, R>(items: seq<T>, f: T -> Outcome<R>, n: nat)
    requires n < |items|
    ensures InOrder(items[..n + 1], f) == match InOrder(items[..n], f)
                                          case Err(e) => Err(e)
                                          case Ok(kept) => (match f(items[n])
                                                            case Bad(e) => Err(e)
                                                            case Good(rs) => Ok(kept + rs))
    ensures GoodBelow(items, f, n + 1) <==> GoodBelow(items, f, n) && f(items[n]).Good?
  {
    assert items[..n + 1][..n] == items[..n];
  }

  lemma RangeSnoc(n: nat)
    ensures Range(n + 1) == Range(n) + [n]
  {
  }

  lemma RangeResults<T, R>(items: seq<T>, f: T -> Outcome<R>, n: nat)
    requires n < |items|
    ensures InBounds(items, Range(n)) && InBounds(items, Range(n + 1))
    ensures Results(items, f, Range(n + 1)) == Results(items, f, Range(n)) + Kept(f(items[n]), n)
  {
    RangeSnoc(n);
    ResultsSnoc(items, f, Range(n), n);
  }

  lemma {:induction false} InOrderDecides<T, R>(items: seq<T>, f: T -> Outcome<R>, n: nat)
    requires n <= |items|
    ensures InBounds(items, Range(n))
    ensures InOrder(items[..n], f).Ok? <==> GoodBelow(items, f, n)
    ensures InOrder(items[..n], f).Ok? ==> InOrder(items[..n], f).value == Values(Results(items, f, Range(n)))
  {
    if n > 0 {
      InOrderDecides(items, f, n - 1);
      InOrderStep(items, f, n - 1);
      RangeResults(items, f, n - 1);
      var o := f(items[n - 1]);
      ValuesConcat(Results(items, f, Range(n - 1)), Kept(o, n - 1));
      if o.Good? {
        assert Values(Kept(o, n - 1)) == o.results;
      }
    }
  }

  /** What a stopped pool's merged result says: an Ok means every file was patched
      exactly once and the merged list is a permutation of the sequential one; an
      error is that of a file that fails, and there is one exactly when the
      sequential run fails. */
  lemma StoppedPatchAll<T, R>(items: seq<T>, f: T -> Outcome<R>, s: State<R>)
    requires Inv(items, f, s) && s.workers != [] && Stopped(s)
    ensures Merge(s.workers).Ok? <==> InOrder(items, f).Ok?
    ensures Merge(s.workers).Ok? ==>
              && multiset(AllApplied(s.workers)) == multiset(Range(|items|))
              && multiset(Merge(s.workers).value) == multiset(InOrder(items, f).value)
    ensures Merge(s.workers).Err? ==> exists i :: 0 <= i < |items| && f(items[i]) == Bad(Merge(s.workers).error)
  {
    assert items[..|items|] == items;
    InOrderDecides(items, f, |items|);
    MergeDecides(s.workers);
    match Merge(s.workers) {
      case Ok(kept) =>
        assert NoneFailed(s);
        AllGood(items, f, s);
        LocalsAreResults(items, f, s.cursor, s.workers);
        ResultsPermute(items, f, AllApplied(s.workers), Range(|items|));
        ValuesPermute(AllLocal(s.workers), Results(items, f, Range(|items|)));
      case Err(e) =>
        var w :| 0 <= w < |s.workers| && s.workers[w].status == Failed(e);
        assert WorkerInv(items, f, s.cursor, s.workers[w]);
    }
  }

  lemma AllGood<T, R>(items: seq<T>, f: T -> Outcome<R>, s: State<R>)
    requires Inv(items, f, s) && s.workers != [] && Stopped(s) && NoneFailed(s)
    ensures multiset(AllApplied(s.workers)) == multiset(Range(|items|))
    ensures forall i :: 0 <= i < |items| ==> f(items[i]).Good?
  {
    StoppedCoversAll(items, f, s);
    forall i | 0 <= i < |items| ensures f(items[i]).Good? {
      RangeCount(|items|, i);
      assert i in multiset(AllApplied(s.workers));
      var w := AppliedSomewhere(s.workers, i);
      assert WorkerInv(items, f, s.cursor, s.workers[w]);
    }
  }

  lemma {:induction false} AppliedSomewhere<R>(ws: seq<Worker<R>>, i: nat) returns (w: nat)
    requires i in AllApplied(ws)
    ensures w < |ws| && i in ws[w].applied
  {
    var n := |ws| - 1;
    if i in ws[n].applied {
      w := n;
    } else {
      w := AppliedSomewhere(ws[..n], i);
    }
  }

  /** For any worker count and any interleaving that runs the workers to their end,
      the merged result is the sequential one up to order. */
  lemma PatchAllAnySchedule<T, R>(items: seq<T>, f: T -> Outcome<R>, workers: nat, schedule: seq<nat>)
    requires workers > 0 && forall k :: 0 <= k < |schedule| ==> schedule[k] < workers
    requires Stopped(Exec(items, f, Start<R>(workers), schedule))
    ensures var s := Exec(items, f, Start<R>(workers), schedule);
            && (Merge(s.workers).Ok? <==> InOrder(items, f).Ok?)
            && (Merge(s.workers).Ok? ==>
                  && multiset(AllApplied(s.workers)) == multiset(Range(|items|))
                  && multiset(Merge(s.workers).value) == multiset(InOrder(items, f).value))
            && (Merge(s.workers).Err? ==> exists i :: 0 <= i < |items| && f(items[i]) == Bad(Merge(s.workers).error))
  {
    StartInv(items, f, workers);
    ExecInv(items, f, Start<R>(workers), schedule);
    StoppedPatchAll(items, f, Exec(items, f, Start<R>(workers), schedule));
  }

  /** `patch_all`: `f` patches one file and yields its unresolved dependencies. */
  method PatchAll<T, R>(files: seq<T>, workers: nat, f: T -> Outcome<R>) returns (r: Result<seq<R>>)
    ensures r.Ok? <==> forall i :: 0 <= i < |files| ==> f(files[i]).Good?
    ensures r.Ok? ==> InOrder(files, f).Ok? && multiset(r.value) == multiset(InOrder(files, f).value)
    ensures r.Err? ==> exists i :: 0 <= i < |files| && f(files[i]) == Bad(r.error)
  {
    assert files[..|files|] == files;
    InOrderDecides(files, f, |files|);
    var workers := Min(workers, |files|);
    if workers <= 1 {
      var missing: seq<R> := [];
      for i := 0 to |files|
        invariant InOrder(files[..i], f) == Ok(missing)
      {
        assert files[..i + 1][..i] == files[..i];
        match f(files[i]) {
          case Good(rs) => missing := missing + rs;
          case Bad(e) => return Err(e);
        }
      }
      return Ok(missing);
    }
    var s := Start<R>(workers);
    StartInv(files, f, workers);
    while exists w :: 0 <= w < |s.workers| && s.workers[w].status == Running
      invariant Inv(files, f, s) && |s.workers| == workers
      decreases Measure(files, s)
    {
      var w :| 0 <= w < |s.workers| && s.workers[w].status == Running;
      StepInv(files, f, s, w);
      StepProgress(files, f, s, w);
      s := Step(files, f, s, w);
    }
    StoppedPatchAll(files, f, s);
    r := Merge(s.workers);
  }
}
