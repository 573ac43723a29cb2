/**
 The threaded delta search: `ll_find_deltas`, `threaded_find_deltas` and the list consumption of
 `find_deltas` in docs/gitc/pack-objects.c. Pointers into the object list are positions in it, and
 a stretch of code run under one lock is one step.
 */
module DeltaSearch {
  import opened Basics

  // ---------------------------------------------------------------- the shared state

  /** Where a worker stands between two critical sections. */
  datatype Pc =
    | Absent                // no thread was created for this slot
    | Check                 // about to test `remaining`
    | Call                  // saw work, about to read `list`
    | Find(cursor: nat)     // in `find_deltas`
    | Done                  // `find_deltas` has returned
    | Await                 // about to test `data_ready`
    | Asleep                // waiting for the condition
    | Exited

  datatype Thread = Thread(list: nat, size: nat, remaining: nat, working: bool, ready: bool, pc: Pc)

  datatype Main =
    | Scan                              // about to look for an idle worker
    | Sleep                             // waiting for the condition
    | Signal(target: nat, sub: nat)     // has assigned work, about to set `data_ready`
    | Join(thread: nat)
    | Finished

  /** `taken` lists the positions handed to the delta search, in the order they were taken. */
  datatype State = State(threads: seq<Thread>, main: Main, active: nat, taken: seq<nat>)

  datatype Event =
    | Test(i: nat) | Begin(i: nat) | Take(i: nat) | Idle(i: nat) | Wait(i: nat)
    | Rest | Hand(target: nat, victim: Option<nat>, cut: nat) | Post | Reap
    | SpuriousMain | SpuriousWorker(i: nat)

  // ---------------------------------------------------------------- splitting the list

  /** Two neighbours may be separated here: the paths differ or the path is not known. */
  predicate Boundary(hash: seq<nat>, p: nat)
    requires 0 < p < |hash|
  {
    hash[p] == 0 || hash[p] != hash[p - 1]
  }

  /** `q` is the first boundary from `p` on, or `e` if there is none before it. */
  ghost predicate FirstBoundary(hash: seq<nat>, p: nat, e: nat, q: nat) {
    && 0 < p <= q <= e <= |hash|
    && (q < e ==> Boundary(hash, q))
    && forall x :: p <= x < q ==> !Boundary(hash, x)
  }

  lemma {:induction false} BoundaryExists(hash: seq<nat>, p: nat, e: nat) returns (q: nat)
    requires 0 < p <= e <= |hash|
    ensures FirstBoundary(hash, p, e, q)
    decreases e - p
  {
    if p == e || Boundary(hash, p) { return p; }
    q := BoundaryExists(hash, p + 1, e);
  }

  method SeekBoundary(hash: seq<nat>, p: nat, e: nat) returns (q: nat)
    requires 0 < p <= e <= |hash|
    ensures FirstBoundary(hash, p, e, q)
    ensures q < e ==> hash[q] == 0 || hash[q] != hash[q - 1]
    ensures forall x :: p <= x < q ==> hash[x] != 0 && hash[x] == hash[x - 1]
  {
    q := p;
    while q < e && hash[q] != 0 && hash[q] == hash[q - 1]
      invariant p <= q <= e && forall x :: p <= x < q ==> !Boundary(hash, x)
      invariant forall x :: p <= x < q ==> hash[x] != 0 && hash[x] == hash[x - 1]
    {
      q := q + 1;
    }
  }

  /** Slot `i` of the initial partition: it starts at `lo` and leaves the rest to its successors. */
  ghost predicate Share(hash: seq<nat>, window: nat, k: nat, i: nat, lo: nat, t: Thread)
    requires i < k
  {
    && t == Thread(lo, t.size, t.size, true, false, if t.size == 0 then Absent else Check)
    && lo + t.size <= |hash|
    && (i + 1 == k ==> lo + t.size == |hash|)
    && (0 < t.size && lo + t.size < |hash| ==> Boundary(hash, lo + t.size))
    && (0 < t.size ==> lo <= |hash| && FirstBoundary(hash, lo + (|hash| - lo) / (k - i), |hash|, lo + t.size))
    && (0 < t.size && i + 1 < k ==> t.size >= 2 * window && t.size >= (|hash| - lo) / (k - i))
    && (t.size == 0 && i + 1 < k ==> (|hash| - lo) / (k - i) < 2 * window || |hash| - lo < k - i)
  }

  ghost function EndOf(threads: seq<Thread>, i: nat): nat
    requires i <= |threads|
  {
    if i == 0 then 0 else threads[i - 1].list + threads[i - 1].size
  }

  ghost predicate Partitioned(hash: seq<nat>, window: nat, k: nat, threads: seq<Thread>) {
    |threads| <= k && forall i :: 0 <= i < |threads| ==> Share(hash, window, k, i, EndOf(threads, i), threads[i])
  }

  /** Splits the list among `k` workers, on path boundaries where it can. */
  method Partition(hash: seq<nat>, window: nat, k: nat) returns (threads: seq<Thread>)
    requires k > 0
    ensures |threads| == k && Partitioned(hash, window, k, threads)
  {
    hide Share;
    threads := [];
    var list: nat := 0;
    for i := 0 to k
      invariant |threads| == i && Partitioned(hash, window, k, threads)
      invariant list == EndOf(threads, i) <= |hash|
    {
      var t := NextShare(hash, window, k, i, list);
      ShareExtends(hash, window, k, threads, t);
      threads := threads + [t];
      list := t.list + t.size;
    }
  }

  method NextShare(hash: seq<nat>, window: nat, k: nat, i: nat, list: nat) returns (t: Thread)
    requires i < k && list <= |hash|
    ensures Share(hash, window, k, i, list, t)
  {
    var size := |hash| - list;
    var sub := size / (k - i);
    ShareWithin(size, k - i);
    if sub < 2 * window && i + 1 < k { sub := 0; }
    if sub > 0 {
      var q := SeekBoundary(hash, list + sub, |hash|);
      sub := q - list;
    }
    t := Thread(list, sub, sub, true, false, if sub == 0 then Absent else Check);
  }

  lemma ShareExtends(hash: seq<nat>, window: nat, k: nat, threads: seq<Thread>, t: Thread)
    requires |threads| < k && Partitioned(hash, window, k, threads)
    requires Share(hash, window, k, |threads|, EndOf(threads, |threads|), t)
    ensures Partitioned(hash, window, k, threads + [t])
    ensures EndOf(threads + [t], |threads| + 1) == t.list + t.size <= |hash|
  {
    hide Share;
    ShareInList(hash, window, k, |threads|, EndOf(threads, |threads|), t);
    var more := threads + [t];
    forall i | 0 <= i < |more| ensures Share(hash, window, k, i, EndOf(more, i), more[i]) {
      EndOfPrefix(threads, t, i);
      if i < |threads| { assert Share(hash, window, k, i, EndOf(threads, i), threads[i]); }
    }
  }

  lemma EndOfPrefix(threads: seq<Thread>, t: Thread, i: nat)
    requires i <= |threads|
    ensures EndOf(threads + [t], i) == EndOf(threads, i)
  {
  }

  lemma ShareInList(hash: seq<nat>, window: nat, k: nat, i: nat, lo: nat, t: Thread)
    requires i < k && Share(hash, window, k, i, lo, t)
    ensures lo == t.list && t.list + t.size <= |hash|
  {
  }

  lemma ShareWithin(size: nat, parts: nat)
    requires parts > 0
    ensures size / parts <= size && (size / parts == 0 ==> size < parts) && (parts == 1 ==> size / parts == size)
  {
    assert size == parts * (size / parts) + size % parts;
    NonzeroMultiple(size / parts, parts);
    assert size / parts == 0 ==> parts * (size / parts) == 0;
  }

  // ---------------------------------------------------------------- choosing a victim

  /** The worker with most left to do, the first one on a tie; none if nobody has enough. */
  ghost predicate Richest(threads: seq<Thread>, upto: nat, window: nat, v: Option<nat>)
    requires upto <= |threads|
  {
    match v
    case None => forall j :: 0 <= j < upto ==> threads[j].remaining <= 2 * window
    case Some(i) =>
      && i < upto && threads[i].remaining > 2 * window
      && (forall j :: 0 <= j < upto ==> threads[j].remaining <= threads[i].remaining)
      && (forall j :: 0 <= j < i ==> threads[j].remaining < threads[i].remaining)
  }

  function Richer(threads: seq<Thread>, window: nat, v: Option<nat>, j: nat): Option<nat>
    requires j < |threads| && (v.Some? ==> v.value < |threads|)
  {
    if threads[j].remaining > 2 * window && (v.None? || threads[v.value].remaining < threads[j].remaining)
    then Some(j) else v
  }

  lemma {:induction false} RichestExists(threads: seq<Thread>, upto: nat, window: nat) returns (v: Option<nat>)
    requires upto <= |threads|
    ensures Richest(threads, upto, window, v)
  {
    if upto == 0 { return None; }
    v := RichestExists(threads, upto - 1, window);
    v := Richer(threads, window, v, upto - 1);
  }

  method PickVictim(threads: seq<Thread>, window: nat) returns (v: Option<nat>)
    ensures Richest(threads, |threads|, window, v)
  {
    v := None;
    for j := 0 to |threads|
      invariant Richest(threads, j, window, v)
    {
      v := Richer(threads, window, v, j);
    }
  }

  /** The first idle worker, or the number of workers. */
  method PickTarget(threads: seq<Thread>) returns (i: nat)
    ensures FirstIdle(threads, i) || (i == |threads| && forall j :: 0 <= j < i ==> threads[j].working)
  {
    i := 0;
    while i < |threads| && threads[i].working
      invariant i <= |threads| && forall j :: 0 <= j < i ==> threads[j].working
    {
      i := i + 1;
    }
  }

  ghost predicate FirstIdle(threads: seq<Thread>, i: nat) {
    i < |threads| && !threads[i].working && forall j :: 0 <= j < i ==> threads[j].working
  }

  // ---------------------------------------------------------------- steps

  /**
   Where a worker's list is cut: at the first path boundary of its second half, or, if that half
   holds none, exactly in the middle.
   */
  ghost predicate CutPoint(hash: seq<nat>, t: Thread, cut: nat) {
    var e, half := t.list + t.size, t.remaining / 2;
    half < e <= |hash| && CutBetween(hash, e - half, e, cut)
  }

  ghost predicate CutBetween(hash: seq<nat>, middle: nat, e: nat, cut: nat) {
    exists q: nat :: FirstBoundary(hash, middle, e, q) && cut == if q < e then q else middle
  }

  ghost predicate Enabled(hash: seq<nat>, window: nat, s: State, e: Event) {
    var k := |s.threads|;
    match e
    case Test(i) => i < k && s.threads[i].pc.Check?
    case Begin(i) => i < k && s.threads[i].pc.Call?
    case Take(i) => i < k && s.threads[i].pc.Find?
    case Idle(i) => i < k && s.threads[i].pc.Done?
    case Wait(i) => i < k && s.threads[i].pc.Await?
    case Rest => s.main.Scan? && forall i :: 0 <= i < k ==> s.threads[i].working
    case Hand(target, victim, cut) =>
      && s.main.Scan? && FirstIdle(s.threads, target) && Richest(s.threads, k, window, victim)
      && (victim.Some? ==> CutPoint(hash, s.threads[victim.value], cut))
    case Post => s.main.Signal? && s.main.target < k
    case Reap => s.main.Join? && s.main.thread < k && s.threads[s.main.thread].pc.Exited? && s.active > 0
    case SpuriousMain => s.main.Sleep?
    case SpuriousWorker(i) => i < k && s.threads[i].pc.Asleep?
  }

  /** What is left of the victim, and what the idle worker gets. */
  function Robbed(t: Thread, cut: nat): Thread
    requires t.list + t.size - t.remaining <= cut <= t.list + t.size && t.remaining <= t.size
  {
    var sub := t.list + t.size - cut;
    t.(size := t.size - sub, remaining := t.remaining - sub)
  }

  function Assigned(t: Thread, list: nat, sub: nat): Thread {
    t.(list := list, size := sub, remaining := sub, working := true)
  }

  ghost function After(hash: seq<nat>, window: nat, s: State, e: Event): State
    requires Enabled(hash, window, s, e) && Local(s.threads, |hash|)
  {
    match e
    case Test(i) =>
      s.(threads := s.threads[i := s.threads[i].(pc := if s.threads[i].remaining == 0 then Exited else Call)])
    case Begin(i) =>
      s.(threads := s.threads[i := s.threads[i].(pc := Find(s.threads[i].list))])
    case Take(i) =>
      var t := s.threads[i];
      if t.remaining == 0 then s.(threads := s.threads[i := t.(pc := Done)])
      else s.(threads := s.threads[i := t.(remaining := t.remaining - 1, pc := Find(t.pc.cursor + 1))],
              taken := s.taken + [t.pc.cursor])
    case Idle(i) =>
      s.(threads := s.threads[i := s.threads[i].(working := false, pc := Await)],
         main := if s.main.Sleep? then Scan else s.main)
    case Wait(i) =>
      var t := s.threads[i];
      s.(threads := s.threads[i := if t.ready then t.(ready := false, pc := Check) else t.(pc := Asleep)])
    case Rest => s.(main := Sleep)
    case Hand(target, None, _) =>
      s.(threads := s.threads[target := Assigned(s.threads[target], s.threads[target].list, 0)], main := Signal(target, 0))
    case Hand(target, Some(v), cut) =>
      var t := s.threads[v];
      var sub := t.list + t.size - cut;
      CutWithin(hash, t, cut);
      s.(threads := s.threads[v := Robbed(t, cut)][target := Assigned(s.threads[target], cut, sub)],
         main := Signal(target, sub))
    case Post =>
      var t := s.threads[s.main.target];
      s.(threads := s.threads[s.main.target := t.(ready := true, pc := if t.pc.Asleep? then Await else t.pc)],
         main := if s.main.sub == 0 then Join(s.main.target) else Scan)
    case Reap => s.(active := s.active - 1, main := if s.active == 1 then Finished else Scan)
    case SpuriousMain => s.(main := Scan)
    case SpuriousWorker(i) => s.(threads := s.threads[i := s.threads[i].(pc := Await)])
  }

  lemma CutWithin(hash: seq<nat>, t: Thread, cut: nat)
    requires CutPoint(hash, t, cut) && t.remaining <= t.size
    ensures t.list + t.size - t.remaining / 2 <= cut <= t.list + t.size
    ensures t.remaining >= 2 ==> cut < t.list + t.size
  {
  }

  // ---------------------------------------------------------------- the invariant

  /** What every step keeps of one worker's fields. The worker still owns the last `remaining` objects of its list. */
  ghost predicate Sane(t: Thread, n: nat) {
    && t.remaining <= t.size && t.list + t.size <= n
    && match t.pc
       case Absent | Exited | Done => t.working && !t.ready && t.remaining == 0
       case Check => t.working && !t.ready && t.remaining == t.size
       case Call => t.working && !t.ready && t.remaining == t.size && t.remaining > 0
       case Find(c) => t.working && !t.ready && c + t.remaining == t.list + t.size
       case Await => if t.working then t.remaining == t.size else !t.ready && t.remaining == 0
       case Asleep => !t.ready && if t.working then t.remaining == t.size else t.remaining == 0
  }

  ghost predicate Local(threads: seq<Thread>, n: nat) {
    forall i :: 0 <= i < |threads| ==> Sane(threads[i], n)
  }

  /** The worker has been given work but not told so yet. */
  predicate Unsignalled(t: Thread) {
    (t.pc.Await? || t.pc.Asleep?) && t.working && !t.ready
  }

  /** The worker will find nothing to do and exit. */
  predicate Dismissed(t: Thread) {
    t.remaining == 0 && (t.pc.Check? || t.ready)
  }

  /** Main thread and worker `i` agree on what the worker is going to see. */
  ghost predicate InStep(main: Main, t: Thread, i: nat) {
    && (Unsignalled(t) <==> main.Signal? && main.target == i)
    && (Unsignalled(t) ==> t.remaining == main.sub)
    && (Dismissed(t) ==> main == Join(i))
    && (main == Join(i) ==> Dismissed(t) || t.pc.Exited?)
    && (main.Sleep? ==> t.working)
  }

  ghost predicate Agree(main: Main, threads: seq<Thread>) {
    && (main.Signal? ==> main.target < |threads|)
    && (main.Join? ==> main.thread < |threads|)
    && forall i :: 0 <= i < |threads| ==> InStep(main, threads[i], i)
  }

  function Total(f: Thread -> nat, threads: seq<Thread>): nat {
    if threads == [] then 0 else Total(f, threads[..|threads| - 1]) + f(threads[|threads| - 1])
  }

  /** Position `p` is among the objects the worker still owns. */
  predicate Owns(t: Thread, p: nat) {
    t.list + t.size - t.remaining <= p < t.list + t.size
  }

  function Owner(p: nat): Thread -> nat {
    (t: Thread) => if Owns(t, p) then 1 else 0
  }

  function Alive(): Thread -> nat {
    (t: Thread) => if t.pc.Absent? || t.pc.Exited? then 0 else 1
  }

  /** `active` counts the threads not joined yet. */
  ghost predicate Counted(s: State) {
    && s.active == Total(Alive(), s.threads) + (if Unjoined(s) then 1 else 0)
    && (s.active == 0 <==> s.main.Finished?)
  }

  predicate Unjoined(s: State) {
    s.main.Join? && s.main.thread < |s.threads| && s.threads[s.main.thread].pc.Exited?
  }

  /** Every object of the list has been taken once and is owned by nobody, or has one owner and has not been taken. */
  ghost predicate Accounted(n: nat, threads: seq<Thread>, taken: seq<nat>) {
    forall p: nat :: multiset(taken)[p] + Total(Owner(p), threads) == if p < n then 1 else 0
  }

  ghost predicate Inv(n: nat, s: State) {
    Local(s.threads, n) && Agree(s.main, s.threads) && Counted(s) && Accounted(n, s.threads, s.taken)
  }

  // ---------------------------------------------------------------- sums over the workers

  lemma {:induction false} TotalUpdate(f: Thread -> nat, threads: seq<Thread>, i: nat, t: Thread)
    requires i < |threads|
    ensures Total(f, threads[i := t]) == Total(f, threads) - f(threads[i]) + f(t)
  {
    var k := |threads| - 1;
    if i < k {
      TotalUpdate(f, threads[..k], i, t);
      assert threads[i := t][..k] == threads[..k][i := t];
    } else {
      assert threads[i := t][..k] == threads[..k];
    }
  }

  lemma {:induction false} TotalAtLeast(f: Thread -> nat, threads: seq<Thread>, i: nat)
    requires i < |threads|
    ensures Total(f, threads) >= f(threads[i])
  {
    if i < |threads| - 1 { TotalAtLeast(f, threads[..|threads| - 1], i); }
  }

  lemma {:induction false} TotalSomewhere(f: Thread -> nat, threads: seq<Thread>) returns (i: nat)
    requires Total(f, threads) > 0
    ensures i < |threads| && f(threads[i]) > 0
  {
    if f(threads[|threads| - 1]) > 0 { return |threads| - 1; }
    i := TotalSomewhere(f, threads[..|threads| - 1]);
  }

  lemma {:induction false} TotalZero(f: Thread -> nat, threads: seq<Thread>)
    requires forall i :: 0 <= i < |threads| ==> f(threads[i]) == 0
    ensures Total(f, threads) == 0
  {
    if threads != [] { TotalZero(f, threads[..|threads| - 1]); }
  }

  // ---------------------------------------------------------------- what every step keeps

  lemma LocalUpdate(threads: seq<Thread>, i: nat, t: Thread, n: nat)
    requires Local(threads, n) && i < |threads| && Sane(t, n)
    ensures Local(threads[i := t], n)
  {
  }

  lemma AccountedSame(n: nat, s: State, s': State, i: nat, t: Thread)
    requires Accounted(n, s.threads, s.taken) && i < |s.threads| && s'.threads == s.threads[i := t] && s'.taken == s.taken
    requires forall p: nat :: Owns(t, p) <==> Owns(s.threads[i], p)
    ensures Accounted(n, s'.threads, s'.taken)
  {
    forall p: nat
      ensures multiset(s'.taken)[p] + Total(Owner(p), s'.threads) == if p < n then 1 else 0
    {
      TotalUpdate(Owner(p), s.threads, i, t);
    }
  }

  lemma AccountedTake(n: nat, s: State, s': State, i: nat, t: Thread)
    requires Accounted(n, s.threads, s.taken) && i < |s.threads| && Sane(s.threads[i], n)
    requires s.threads[i].pc.Find? && s.threads[i].remaining > 0
    requires t == s.threads[i].(remaining := s.threads[i].remaining - 1, pc := Find(s.threads[i].pc.cursor + 1))
    requires s'.threads == s.threads[i := t] && s'.taken == s.taken + [s.threads[i].pc.cursor]
    ensures Accounted(n, s'.threads, s'.taken)
  {
    forall p: nat
      ensures multiset(s'.taken)[p] + Total(Owner(p), s'.threads) == if p < n then 1 else 0
    {
      TotalUpdate(Owner(p), s.threads, i, t);
    }
  }

  /** Cutting a list in two hands every object to exactly one of the two. */
  lemma AccountedHand(n: nat, s: State, s': State, v: nat, target: nat, cut: nat)
    requires Accounted(n, s.threads, s.taken) && v < |s.threads| && target < |s.threads| && v != target
    requires Local(s.threads, n) && s.threads[target].remaining == 0
    requires s.threads[v].list + s.threads[v].size - s.threads[v].remaining <= cut <= s.threads[v].list + s.threads[v].size
    requires s'.threads == s.threads[v := Robbed(s.threads[v], cut)]
                                    [target := Assigned(s.threads[target], cut, s.threads[v].list + s.threads[v].size - cut)]
    requires s'.taken == s.taken
    ensures Accounted(n, s'.threads, s'.taken)
  {
    var robbed, got := Robbed(s.threads[v], cut), Assigned(s.threads[target], cut, s.threads[v].list + s.threads[v].size - cut);
    forall p: nat
      ensures multiset(s'.taken)[p] + Total(Owner(p), s'.threads) == if p < n then 1 else 0
    {
      TotalUpdate(Owner(p), s.threads, v, robbed);
      TotalUpdate(Owner(p), s.threads[v := robbed], target, got);
    }
  }

  /** A worker moves alone: it owns what it owned, stays alive or is the one being joined, and stays in step. */
  lemma OneMoves(n: nat, s: State, i: nat, t: Thread, main: Main)
    requires Inv(n, s) && i < |s.threads| && Sane(t, n) && InStep(main, t, i)
    requires main == s.main || (s.main.Sleep? && main.Scan?)
    requires t.list + t.size == s.threads[i].list + s.threads[i].size && t.remaining == s.threads[i].remaining
    requires Alive()(s.threads[i]) == 1 && (t.pc.Exited? ==> main == Join(i)) && !t.pc.Absent?
    ensures Inv(n, s.(threads := s.threads[i := t], main := main))
  {
    var s' := s.(threads := s.threads[i := t], main := main);
    LocalUpdate(s.threads, i, t, n);
    AccountedSame(n, s, s', i, t);
    TotalUpdate(Alive(), s.threads, i, t);
    TotalAtLeast(Alive(), s.threads, i);
    AgreeUpdate(s.main, main, s.threads, i, t);
    hide Local, Accounted, Total, Agree, Sane, InStep;
  }

  lemma AgreeUpdate(main: Main, main': Main, threads: seq<Thread>, i: nat, t: Thread)
    requires Agree(main, threads) && i < |threads| && InStep(main', t, i)
    requires main' == main || (main.Sleep? && main'.Scan?)
    ensures Agree(main', threads[i := t])
  {
    var threads' := threads[i := t];
    forall j | 0 <= j < |threads| ensures InStep(main', threads'[j], j) {
      assert InStep(main, threads[j], j);
    }
  }

  lemma WorkerKeeps(hash: seq<nat>, window: nat, s: State, e: Event)
    requires Inv(|hash|, s) && Enabled(hash, window, s, e) && (e.Test? || e.Begin? || e.Idle? || e.Wait? || e.SpuriousWorker?)
    ensures Inv(|hash|, After(hash, window, s, e))
  {
    var s' := After(hash, window, s, e);
    assert Sane(s.threads[e.i], |hash|) && InStep(s.main, s.threads[e.i], e.i);
    hide Inv, Local, Agree, Counted, Accounted;
    OneMoves(|hash|, s, e.i, s'.threads[e.i], s'.main);
    assert s' == s.(threads := s.threads[e.i := s'.threads[e.i]], main := s'.main);
  }

  lemma TakeKeeps(hash: seq<nat>, window: nat, s: State, i: nat)
    requires Inv(|hash|, s) && Enabled(hash, window, s, Take(i))
    ensures Inv(|hash|, After(hash, window, s, Take(i)))
  {
    var s' := After(hash, window, s, Take(i));
    var t := s'.threads[i];
    assert Sane(s.threads[i], |hash|) && InStep(s.main, s.threads[i], i);
    if s.threads[i].remaining == 0 {
      OneMoves(|hash|, s, i, t, s.main);
    } else {
      LocalUpdate(s.threads, i, t, |hash|);
      AgreeUpdate(s.main, s.main, s.threads, i, t);
      AccountedTake(|hash|, s, s', i, t);
      TotalUpdate(Alive(), s.threads, i, t);
    }
    hide Local, Accounted, Total, Agree;
  }

  lemma MainKeeps(hash: seq<nat>, window: nat, s: State, e: Event)
    requires Inv(|hash|, s) && Enabled(hash, window, s, e) && (e.Rest? || e.Reap? || e.SpuriousMain?)
    ensures Inv(|hash|, After(hash, window, s, e))
  {
    hide Accounted, Total;
    var s' := After(hash, window, s, e);
    forall i | 0 <= i < |s.threads| ensures InStep(s'.main, s'.threads[i], i) {
      assert InStep(s.main, s.threads[i], i) && Sane(s.threads[i], |hash|);
    }
  }

  lemma PostKeeps(hash: seq<nat>, window: nat, s: State)
    requires Inv(|hash|, s) && Enabled(hash, window, s, Post)
    ensures Inv(|hash|, After(hash, window, s, Post))
  {
    var s' := After(hash, window, s, Post);
    var i := s.main.target;
    var t := s'.threads[i];
    assert Sane(s.threads[i], |hash|) && InStep(s.main, s.threads[i], i);
    LocalUpdate(s.threads, i, t, |hash|);
    AccountedSame(|hash|, s, s', i, t);
    TotalUpdate(Alive(), s.threads, i, t);
    TotalAtLeast(Alive(), s.threads, i);
    forall j | 0 <= j < |s.threads| ensures InStep(s'.main, s'.threads[j], j) {
      assert InStep(s.main, s.threads[j], j);
    }
    hide Local, Accounted, Total, InStep, Sane;
  }

  /** The main thread assigns work to an idle worker, having taken none of it or a part of another's. */
  lemma AgreeHand(threads: seq<Thread>, threads': seq<Thread>, target: nat, sub: nat, n: nat)
    requires Agree(Scan, threads) && Local(threads, n) && |threads'| == |threads| && FirstIdle(threads, target)
    requires threads'[target] == Assigned(threads[target], threads'[target].list, sub)
    requires forall j :: 0 <= j < |threads| && j != target ==>
      threads'[j] == threads[j].(size := threads'[j].size, remaining := threads'[j].remaining) &&
      (threads'[j].remaining == threads[j].remaining || threads'[j].remaining > 0)
    ensures Agree(Signal(target, sub), threads')
  {
    forall j | 0 <= j < |threads| ensures InStep(Signal(target, sub), threads'[j], j) {
      assert InStep(Scan, threads[j], j);
      assert Sane(threads[j], n);
    }
  }

  lemma HandNothingKeeps(hash: seq<nat>, window: nat, s: State, e: Event)
    requires Inv(|hash|, s) && Enabled(hash, window, s, e) && e.Hand? && e.victim.None?
    ensures Inv(|hash|, After(hash, window, s, e))
  {
    var s' := After(hash, window, s, e);
    var t := s'.threads[e.target];
    assert Sane(s.threads[e.target], |hash|) && InStep(s.main, s.threads[e.target], e.target);
    LocalUpdate(s.threads, e.target, t, |hash|);
    AgreeHand(s.threads, s'.threads, e.target, 0, |hash|);
    AccountedSame(|hash|, s, s', e.target, t);
    TotalUpdate(Alive(), s.threads, e.target, t);
    hide Local, Accounted, Total, Agree, Sane, InStep, Richest;
  }

  lemma RobbedSane(t: Thread, cut: nat, n: nat)
    requires Sane(t, n) && t.remaining > 0 && t.list + t.size - t.remaining / 2 <= cut <= t.list + t.size
    ensures Sane(Robbed(t, cut), n) && Robbed(t, cut).remaining > 0
  {
  }

  lemma HandParts(hash: seq<nat>, window: nat, s: State, e: Event)
    requires Inv(|hash|, s) && Enabled(hash, window, s, e) && e.Hand? && e.victim.Some?
    ensures e.victim.value < |s.threads| && e.target < |s.threads| && e.victim.value != e.target
    ensures var t, v := s.threads[e.target], s.threads[e.victim.value];
      && Sane(t, |hash|) && t.remaining == 0 && !t.working && (t.pc.Await? || t.pc.Asleep?)
      && Sane(v, |hash|) && v.remaining > 0
      && v.list + v.size - v.remaining / 2 <= e.cut <= v.list + v.size
      && Sane(Robbed(v, e.cut), |hash|) && Robbed(v, e.cut).remaining > 0
  {
    hide Accounted, Total, Agree;
    assert Sane(s.threads[e.target], |hash|) && Sane(s.threads[e.victim.value], |hash|);
    hide CutPoint;
    CutWithin(hash, s.threads[e.victim.value], e.cut);
    RobbedSane(s.threads[e.victim.value], e.cut, |hash|);
  }

  lemma HandPartKeeps(hash: seq<nat>, window: nat, s: State, e: Event)
    requires Inv(|hash|, s) && Enabled(hash, window, s, e) && e.Hand? && e.victim.Some?
    ensures Inv(|hash|, After(hash, window, s, e))
  {
    hide Local, Accounted, Total, Agree, CutPoint, Richest, FirstIdle;
    var s', v, target := After(hash, window, s, e), e.victim.value, e.target;
    HandParts(hash, window, s, e);
    var robbed, got := s'.threads[v], s'.threads[target];
    LocalUpdate(s.threads, v, robbed, |hash|);
    LocalUpdate(s.threads[v := robbed], target, got, |hash|);
    AgreeHand(s.threads, s'.threads, target, got.size, |hash|);
    AccountedHand(|hash|, s, s', v, target, e.cut);
    TotalUpdate(Alive(), s.threads, v, robbed);
    TotalUpdate(Alive(), s.threads[v := robbed], target, got);
  }

  lemma StepKeeps(hash: seq<nat>, window: nat, s: State, e: Event)
    requires Inv(|hash|, s) && Enabled(hash, window, s, e)
    ensures Inv(|hash|, After(hash, window, s, e))
  {
    hide Inv, After;
    match e
    case Take(i) => TakeKeeps(hash, window, s, i);
    case Post => PostKeeps(hash, window, s);
    case Hand(_, None, _) => HandNothingKeeps(hash, window, s, e);
    case Hand(_, Some(_), _) => HandPartKeeps(hash, window, s, e);
    case Rest | Reap | SpuriousMain => MainKeeps(hash, window, s, e);
    case _ => WorkerKeeps(hash, window, s, e);
  }

  // ---------------------------------------------------------------- the start

  /** The state once the threads have been created. */
  ghost function Started(threads: seq<Thread>): State {
    var active := Total(Alive(), threads);
    State(threads, if active == 0 then Finished else Scan, active, [])
  }

  lemma ShareAt(hash: seq<nat>, window: nat, k: nat, threads: seq<Thread>, i: nat)
    requires Partitioned(hash, window, k, threads) && i < |threads|
    ensures var t := threads[i];
      t == Thread(EndOf(threads, i), t.size, t.size, true, false, if t.size == 0 then Absent else Check)
    ensures EndOf(threads, i + 1) == EndOf(threads, i) + threads[i].size <= |hash|
    ensures i + 1 == k ==> EndOf(threads, i + 1) == |hash|
  {
    assert Share(hash, window, k, i, EndOf(threads, i), threads[i]);
  }

  lemma {:induction false} SharesTile(hash: seq<nat>, window: nat, k: nat, threads: seq<Thread>, i: nat, p: nat)
    requires Partitioned(hash, window, k, threads) && i <= |threads|
    ensures Total(Owner(p), threads[..i]) == if p < EndOf(threads, i) then 1 else 0
  {
    hide Partitioned, EndOf;
    if i > 0 {
      SharesTile(hash, window, k, threads, i - 1, p);
      assert threads[..i][..i - 1] == threads[..i - 1];
      ShareAt(hash, window, k, threads, i - 1);
    } else {
      EndOfNone(threads);
    }
  }

  lemma EndOfNone(threads: seq<Thread>)
    ensures EndOf(threads, 0) == 0
  {
  }

  lemma StartKeeps(hash: seq<nat>, window: nat, k: nat, threads: seq<Thread>)
    requires |threads| == k > 0 && Partitioned(hash, window, k, threads)
    ensures Inv(|hash|, Started(threads))
  {
    hide Partitioned, EndOf, Total;
    var s := Started(threads);
    forall i | 0 <= i < k ensures Sane(threads[i], |hash|) && InStep(s.main, threads[i], i) {
      ShareAt(hash, window, k, threads, i);
    }
    hide Sane, InStep;
    ShareAt(hash, window, k, threads, k - 1);
    forall p: nat ensures Total(Owner(p), threads) == if p < |hash| then 1 else 0 {
      SharesTile(hash, window, k, threads, k, p);
      assert threads[..k] == threads;
    }
  }

  // ---------------------------------------------------------------- whole runs

  /** The state after some events, each of which could happen when it did. */
  ghost predicate Reaches(hash: seq<nat>, window: nat, s: State, run: seq<Event>, s': State)
    requires Inv(|hash|, s)
    decreases |run|
  {
    if run == [] then s' == s
    else
      && Enabled(hash, window, s, run[0])
      && (StepKeeps(hash, window, s, run[0]);
          Reaches(hash, window, After(hash, window, s, run[0]), run[1..], s'))
  }

  lemma {:induction false} RunKeeps(hash: seq<nat>, window: nat, s: State, run: seq<Event>, s': State)
    requires Inv(|hash|, s) && Reaches(hash, window, s, run, s')
    ensures Inv(|hash|, s')
    decreases |run|
  {
    hide Local, Agree, Counted, Accounted, After, Enabled;
    if run != [] {
      StepKeeps(hash, window, s, run[0]);
      RunKeeps(hash, window, After(hash, window, s, run[0]), run[1..], s');
    }
  }

  /** In every state of every run no two workers own the same object, and no owned object has been taken. */
  lemma OwnersDisjoint(n: nat, s: State, i: nat, j: nat, p: nat)
    requires Inv(n, s) && i < j < |s.threads| && Owns(s.threads[i], p)
    ensures !Owns(s.threads[j], p) && p !in s.taken && p < n
  {
    var f := Owner(p);
    var front := s.threads[..j + 1];
    TotalAtLeast(f, front[..j], i);
    assert Total(f, front) == Total(f, front[..j]) + f(s.threads[j]);
    TotalPrefix(f, s.threads, j + 1);
  }

  lemma {:induction false} TotalPrefix(f: Thread -> nat, threads: seq<Thread>, i: nat)
    requires i <= |threads|
    ensures Total(f, threads[..i]) <= Total(f, threads)
  {
    if i < |threads| {
      TotalPrefix(f, threads[..|threads| - 1], i);
      assert threads[..|threads| - 1][..i] == threads[..i];
    } else {
      assert threads[..i] == threads;
    }
  }

  /** When the main thread is done every object of the list has been taken exactly once. */
  lemma FinishedTookAll(n: nat, s: State)
    requires Inv(n, s) && s.main.Finished?
    ensures forall p: nat :: multiset(s.taken)[p] == if p < n then 1 else 0
  {
    forall i | 0 <= i < |s.threads| ensures s.threads[i].remaining == 0 {
      TotalAtLeast(Alive(), s.threads, i);
      assert Sane(s.threads[i], n);
    }
    forall p: nat ensures Total(Owner(p), s.threads) == 0 {
      TotalZero(Owner(p), s.threads);
    }
  }

  // ---------------------------------------------------------------- progress

  predicate Spurious(e: Event) {
    e.SpuriousMain? || e.SpuriousWorker?
  }

  /** Until the main thread is done some thread can move, and no sleeper has to wake by itself for it. */
  lemma NeverStuck(hash: seq<nat>, window: nat, s: State) returns (e: Event)
    requires Inv(|hash|, s) && !s.main.Finished?
    ensures Enabled(hash, window, s, e) && !Spurious(e)
  {
    match s.main
    case Scan => e := ScanMoves(hash, window, s);
    case Signal(_, _) => e := Post;
    case Join(i) =>
      assert InStep(s.main, s.threads[i], i) && Sane(s.threads[i], |hash|);
      e := if s.threads[i].pc.Exited? then Reap else if s.threads[i].pc.Check? then Test(i) else Wait(i);
    case Sleep =>
      var i := TotalSomewhere(Alive(), s.threads);
      assert InStep(s.main, s.threads[i], i) && Sane(s.threads[i], |hash|);
      e := match s.threads[i].pc
        case Check => Test(i)
        case Call => Begin(i)
        case Find(_) => Take(i)
        case Done => Idle(i)
        case _ => Wait(i);
  }

  lemma ScanMoves(hash: seq<nat>, window: nat, s: State) returns (e: Event)
    requires Inv(|hash|, s) && s.main.Scan?
    ensures Enabled(hash, window, s, e) && !Spurious(e)
  {
    var target := IdleExists(s.threads, 0);
    if target == |s.threads| { return Rest; }
    var v := RichestExists(s.threads, |s.threads|, window);
    if v.None? { return Hand(target, v, 0); }
    var t := s.threads[v.value];
    assert Sane(t, |hash|);
    var end, middle := t.list + t.size, t.list + t.size - t.remaining / 2;
    var q := BoundaryExists(hash, middle, end);
    var cut := if q < end then q else middle;
    assert CutBetween(hash, middle, end, cut);
    e := Hand(target, v, cut);
  }

  lemma {:induction false} IdleExists(threads: seq<Thread>, from: nat) returns (i: nat)
    requires from <= |threads| && forall j :: 0 <= j < from ==> threads[j].working
    ensures FirstIdle(threads, i) || (i == |threads| && forall j :: 0 <= j < i ==> threads[j].working)
    decreases |threads| - from
  {
    if from == |threads| || !threads[from].working { return from; }
    i := IdleExists(threads, from + 1);
  }

  /** How far a worker is from its next object or its end. */
  function Distance(t: Thread): nat {
    match t.pc
    case Absent | Exited => 0
    case Find(_) => if t.remaining > 0 then 3 else 15
    case Call => 4
    case Check => 5
    case Await => if t.ready then 6 else if t.working then 9 else 12
    case Asleep => if t.working then 8 else 11
    case Done => 14
  }

  function Weight(): Thread -> nat {
    (t: Thread) => 20 * t.remaining + Distance(t)
  }

  function Remaining(s: State): nat {
    Total(Weight(), s.threads) + 2 * s.active + if s.main.Scan? then 1 else 0
  }

  lemma StepDecreases(hash: seq<nat>, window: nat, s: State, e: Event)
    requires Inv(|hash|, s) && Enabled(hash, window, s, e) && !Spurious(e)
    ensures Remaining(After(hash, window, s, e)) < Remaining(s)
  {
    hide After, Inv, Enabled, Remaining;
    match e
    case Hand(_, victim, _) =>
      if victim.None? { HandNothingDecreases(hash, window, s, e); } else { HandPartDecreases(hash, window, s, e); }
    case Post | Rest | Reap => MainDecreases(hash, window, s, e);
    case _ => WorkerDecreases(hash, window, s, e);
  }

  lemma MainDecreases(hash: seq<nat>, window: nat, s: State, e: Event)
    requires Inv(|hash|, s) && Enabled(hash, window, s, e) && (e.Post? || e.Rest? || e.Reap?)
    ensures Remaining(After(hash, window, s, e)) < Remaining(s)
  {
    var s' := After(hash, window, s, e);
    if e.Post? {
      var i := s.main.target;
      TotalUpdate(Weight(), s.threads, i, s'.threads[i]);
      assert InStep(s.main, s.threads[i], i) && Sane(s.threads[i], |hash|);
    }
    hide Local, Accounted, Total, Agree;
  }

  lemma WorkerDecreases(hash: seq<nat>, window: nat, s: State, e: Event)
    requires Inv(|hash|, s) && Enabled(hash, window, s, e) && (e.Test? || e.Begin? || e.Take? || e.Idle? || e.Wait?)
    ensures Remaining(After(hash, window, s, e)) < Remaining(s)
  {
    hide Accounted, Total;
    var s' := After(hash, window, s, e);
    TotalUpdate(Weight(), s.threads, e.i, s'.threads[e.i]);
    assert InStep(s.main, s.threads[e.i], e.i) && Sane(s.threads[e.i], |hash|);
    hide Local, Agree;
  }

  lemma HandNothingDecreases(hash: seq<nat>, window: nat, s: State, e: Event)
    requires Inv(|hash|, s) && Enabled(hash, window, s, e) && e.Hand? && e.victim.None?
    ensures Remaining(After(hash, window, s, e)) < Remaining(s)
  {
    var s' := After(hash, window, s, e);
    assert InStep(s.main, s.threads[e.target], e.target) && Sane(s.threads[e.target], |hash|);
    TotalUpdate(Weight(), s.threads, e.target, s'.threads[e.target]);
    hide Local, Accounted, Total, Agree, Richest;
  }

  lemma HandPartDecreases(hash: seq<nat>, window: nat, s: State, e: Event)
    requires Inv(|hash|, s) && Enabled(hash, window, s, e) && e.Hand? && e.victim.Some?
    ensures Remaining(After(hash, window, s, e)) < Remaining(s)
  {
    hide Local, Accounted, Total, Agree, CutPoint, Richest, FirstIdle;
    var s', v, target := After(hash, window, s, e), e.victim.value, e.target;
    HandParts(hash, window, s, e);
    TotalUpdate(Weight(), s.threads, v, s'.threads[v]);
    TotalUpdate(Weight(), s.threads[v := s'.threads[v]], target, s'.threads[target]);
  }

  /** However the threads interleave, the search ends. */
  lemma {:induction false} RunsEnd(hash: seq<nat>, window: nat, s: State, run: seq<Event>, s': State)
    requires Inv(|hash|, s) && Reaches(hash, window, s, run, s')
    requires forall i :: 0 <= i < |run| ==> !Spurious(run[i])
    ensures |run| + Remaining(s') <= Remaining(s)
    decreases |run|
  {
    hide Local, Agree, Counted, Accounted, After, Enabled, Remaining;
    if run != [] {
      StepKeeps(hash, window, s, run[0]);
      StepDecreases(hash, window, s, run[0]);
      RunsEnd(hash, window, After(hash, window, s, run[0]), run[1..], s');
    }
  }

  lemma {:induction false} StartBound(hash: seq<nat>, window: nat, k: nat, threads: seq<Thread>, i: nat)
    requires Partitioned(hash, window, k, threads) && i <= |threads|
    ensures Total(Weight(), threads[..i]) <= 20 * EndOf(threads, i) + 5 * i
    ensures Total(Alive(), threads[..i]) <= i
  {
    hide Partitioned, EndOf;
    if i > 0 {
      StartBound(hash, window, k, threads, i - 1);
      assert threads[..i][..i - 1] == threads[..i - 1];
      ShareAt(hash, window, k, threads, i - 1);
    } else {
      EndOfNone(threads);
    }
  }

  /**
   The whole search, from the partition on and under every interleaving: it takes at most
   `20 * n + 7 * k + 1` steps, and a run that cannot go on has taken every object exactly once.
   */
  lemma SearchTakesAll(hash: seq<nat>, window: nat, k: nat, threads: seq<Thread>, run: seq<Event>, s': State)
    requires |threads| == k > 0 && Partitioned(hash, window, k, threads)
    requires Inv(|hash|, Started(threads)) && Reaches(hash, window, Started(threads), run, s')
    ensures (forall e :: Enabled(hash, window, s', e) ==> Spurious(e)) ==>
      s'.main.Finished? && forall p: nat :: multiset(s'.taken)[p] == if p < |hash| then 1 else 0
    ensures (forall i :: 0 <= i < |run| ==> !Spurious(run[i])) ==> |run| <= 20 * |hash| + 7 * k + 1
  {
    hide Enabled, Partitioned, EndOf, Inv;
    RunKeeps(hash, window, Started(threads), run, s');
    if !s'.main.Finished? {
      var e := NeverStuck(hash, window, s');
    } else {
      FinishedTookAll(|hash|, s');
    }
    if forall i :: 0 <= i < |run| ==> !Spurious(run[i]) {
      RunsEnd(hash, window, Started(threads), run, s');
      StartBound(hash, window, k, threads, k);
      assert threads[..k] == threads;
      ShareAt(hash, window, k, threads, k - 1);
    }
  }

  // ---------------------------------------------------------------- the critical sections as code

  class Search {
    const hash: seq<nat>
    const window: nat
    var threads: seq<Thread>
    var main: Main
    var active: nat
    var taken: seq<nat>

    ghost function Now(): State
      reads this
    {
      State(threads, main, active, taken)
    }

    /** Partitions the list and creates a thread for every slot that got a share. */
    constructor (hash: seq<nat>, window: nat, k: nat)
      requires k > 0
      ensures this.hash == hash && this.window == window && |threads| == k
      ensures Partitioned(hash, window, k, threads) && Now() == Started(threads) && Inv(|hash|, Now())
    {
      var slots := Partition(hash, window, k);
      var count := CountStarted(slots);
      this.hash, this.window, threads, active, taken := hash, window, slots, count, [];
      main := if count == 0 then Finished else Scan;
      StartKeeps(hash, window, k, slots);
    }

    /** A worker runs its next critical section. */
    method WorkerStep(i: nat) returns (ghost e: Event)
      requires Inv(|hash|, Now()) && i < |threads|
      requires !threads[i].pc.Absent? && !threads[i].pc.Exited? && !threads[i].pc.Asleep?
      modifies this`threads, this`main, this`taken
      ensures Enabled(hash, window, old(Now()), e) && Now() == After(hash, window, old(Now()), e)
      ensures Inv(|hash|, Now())
    {
      hide Agree, Counted, Accounted;
      var t := threads[i];
      assert Sane(t, |hash|);
      match t.pc {
        case Check =>
          e := Test(i);
          if t.remaining == 0 { t := t.(pc := Exited); } else { t := t.(pc := Call); }
        case Call =>
          e := Begin(i);
          t := t.(pc := Find(t.list));
        case Find(cursor) =>
          e := Take(i);
          if t.remaining == 0 {
            t := t.(pc := Done);
          } else {
            taken := taken + [cursor];
            t := t.(remaining := t.remaining - 1, pc := Find(cursor + 1));
          }
        case Done =>
          e := Idle(i);
          t := t.(working := false, pc := Await);
          if main.Sleep? { main := Scan; }
        case Await =>
          e := Wait(i);
          if t.ready { t := t.(ready := false, pc := Check); } else { t := t.(pc := Asleep); }
      }
      threads := threads[i := t];
      StepKeeps(hash, window, old(Now()), e);
    }

    /** The main thread looks for an idle worker and gives it a part of the longest list, if that is long enough. */
    method Balance() returns (ghost e: Event)
      requires Inv(|hash|, Now()) && main.Scan?
      modifies this`threads, this`main
      ensures Enabled(hash, window, old(Now()), e) && (e.Rest? || e.Hand?)
      ensures Now() == After(hash, window, old(Now()), e) && Inv(|hash|, Now())
    {
      hide Agree, Counted, Accounted, Sane;
      var target := PickTarget(threads);
      if target == |threads| {
        e := Rest;
        main := Sleep;
      } else {
        var victim := PickVictim(threads, window);
        var sub: nat, list: nat := 0, threads[target].list;
        if victim.Some? {
          list := FindCut(victim.value);
          var v := threads[victim.value];
          sub := v.list + v.size - list;
          threads := threads[victim.value := v.(size := v.size - sub, remaining := v.remaining - sub)];
        }
        e := Hand(target, victim, list);
        IdleHasNothing(old(threads), target, |hash|);
        threads := threads[target := threads[target].(list := list, size := sub, remaining := sub, working := true)];
        main := Signal(target, sub);
      }
      StepKeeps(hash, window, old(Now()), e);
    }

    /** The main thread sets `data_ready` for the worker it has assigned to, or reaps one that has ended. */
    method Follow() returns (ghost e: Event)
      requires Inv(|hash|, Now())
      requires main.Signal? || (main.Join? && threads[main.thread].pc.Exited?)
      modifies this`threads, this`main, this`active
      ensures Enabled(hash, window, old(Now()), e) && (e.Post? || e.Reap?)
      ensures Now() == After(hash, window, old(Now()), e) && Inv(|hash|, Now())
    {
      hide Accounted, Total, InStep, Sane;
      if main.Signal? {
        e := Post;
        var target, sub := main.target, main.sub;
        var t := threads[target];
        if t.pc.Asleep? { t := t.(pc := Await); }
        threads := threads[target := t.(ready := true)];
        main := if sub == 0 then Join(target) else Scan;
      } else {
        e := Reap;
        active := active - 1;
        main := if active == 0 then Finished else Scan;
      }
      StepKeeps(hash, window, old(Now()), e);
    }

    method FindCut(v: nat) returns (cut: nat)
      requires Local(threads, |hash|) && v < |threads| && threads[v].remaining > 0
      ensures CutPoint(hash, threads[v], cut)
      ensures threads[v].list + threads[v].size - threads[v].remaining / 2 <= cut <= threads[v].list + threads[v].size
      ensures threads[v].remaining <= threads[v].size
    {
      var t := threads[v];
      assert Sane(t, |hash|);
      var sub := t.remaining / 2;
      var end := t.list + t.size;
      cut := SeekBoundary(hash, end - sub, end);
      ghost var q := cut;
      if cut == end { cut := cut - sub; }
      assert CutBetween(hash, end - sub, end, cut);
    }
  }

  /** An idle worker has nothing left, so it is never the one that gives. */
  lemma IdleHasNothing(threads: seq<Thread>, i: nat, n: nat)
    requires Local(threads, n) && i < |threads| && !threads[i].working
    ensures threads[i].remaining == 0
  {
    assert Sane(threads[i], n);
  }

  method CountStarted(threads: seq<Thread>) returns (active: nat)
    ensures active == Total(Alive(), threads)
  {
    active := 0;
    for i := 0 to |threads|
      invariant active == Total(Alive(), threads[..i])
    {
      assert threads[..i + 1][..i] == threads[..i];
      if !threads[i].pc.Absent? && !threads[i].pc.Exited? { active := active + 1; }
    }
    assert threads[..|threads|] == threads;
  }
}
