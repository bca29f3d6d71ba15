/** A barrier of worker threads and the thread that releases them, as atomic steps:
    each critical section up to a wait or to the end, and each return from a wait. */
module Barrier {
  import opened OrderedSets

  type Thread = nat

  /** A worker calls `block`; a releaser calls `releaseThreads(num)`. */
  datatype Role = Worker | Releaser(num: nat)

  /** The counters, and the threads by where they are: waiting on the condition, woken from
      it but not gone on yet, or gone. All other threads have not entered. */
  datatype State = State(n: nat, waitFor: nat, waiting: set<Thread>, woken: set<Thread>, gone: set<Thread>) {
    function Entered(): set<Thread> {
      waiting + woken + gone
    }
  }

  const INITIAL := State(0, 0, {}, {}, {})

  /** Resets both counters and wakes every waiting thread. */
  function Unblock(s: State): State {
    State(0, 0, {}, s.woken + s.waiting, s.gone)
  }

  /** `block` up to its wait, or to its end if this worker is the last one awaited. */
  function EnterWorker(s: State, t: Thread): State {
    var n := s.n + 1;
    if s.waitFor > 0 && n == s.waitFor then
      var u := Unblock(s);
      u.(gone := u.gone + {t})
    else s.(n := n, waiting := s.waiting + {t})
  }

  /** `releaseThreads` up to its wait, or to its end if enough workers are waiting. */
  function EnterReleaser(s: State, t: Thread, num: nat): State {
    if s.n >= num then
      var u := Unblock(s);
      u.(gone := u.gone + {t})
    else s.(waitFor := num, waiting := s.waiting + {t})
  }

  /** The assertion at the start of `block`, after the worker has been counted. */
  predicate BlockAssertion(s: State) {
    s.waitFor == 0 || s.n + 1 <= s.waitFor
  }

  /** A thread enters, leaves after it was woken, or is woken for no reason. */
  datatype Act = Enter(t: Thread) | Leave(t: Thread) | Spurious(t: Thread)

  predicate Enabled(roles: seq<Role>, s: State, a: Act) {
    match a
    case Enter(t) => t < |roles| && t !in s.Entered()
    case Leave(t) => t in s.woken
    case Spurious(t) => t in s.waiting
  }

  function Apply(roles: seq<Role>, s: State, a: Act): State
    requires Enabled(roles, s, a)
  {
    match a
    case Enter(t) => if roles[t].Worker? then EnterWorker(s, t) else EnterReleaser(s, t, roles[t].num)
    case Leave(t) => s.(woken := s.woken - {t}, gone := s.gone + {t})
    case Spurious(t) => s.(waiting := s.waiting - {t}, woken := s.woken + {t})
  }

  /** The states a schedule can lead to; a schedule that takes a disabled step leads nowhere. */
  ghost predicate Reaches(roles: seq<Role>, acts: seq<Act>, s: State) {
    if acts == [] then s == INITIAL
    else
      var last := |acts| - 1;
      exists r :: Reaches(roles, acts[..last], r) && Enabled(roles, r, acts[last]) && s == Apply(roles, r, acts[last])
  }

  predicate Calm(acts: seq<Act>) {
    forall i :: 0 <= i < |acts| ==> !acts[i].Spurious?
  }

  // ----- the assertion -----

  /** Whatever the threads and the schedule, even with spurious wake-ups, the assertion in
      `block` holds when any worker enters. */
  lemma {:induction false} AssertionHolds(roles: seq<Role>, acts: seq<Act>, s: State)
    requires Reaches(roles, acts, s)
    ensures BlockAssertion(s)
  {
    if acts == [] {
    } else {
      var last := |acts| - 1;
      var r :| Reaches(roles, acts[..last], r) && Enabled(roles, r, acts[last]) && s == Apply(roles, r, acts[last]);
      AssertionHolds(roles, acts[..last], r);
    }
  }

  // ----- what the counters count -----

  /** The workers that wait. */
  function Blocked(roles: seq<Role>, s: State): set<Thread> {
    set t | t in s.waiting && t < |roles| && roles[t].Worker?
  }

  ghost predicate ReleaserWaits(roles: seq<Role>, s: State) {
    exists t :: t in s.waiting && t < |roles| && roles[t].Releaser?
  }

  /** Whatever the threads, any number of releasers among them: no waiting worker is ever left out of
      the count, and without spurious wake-ups `n` is the number of workers that wait, over any number
      of releases, and `waitFor` is set exactly while a releaser waits. */
  lemma {:induction false} CountersCount(roles: seq<Role>, acts: seq<Act>, s: State)
    requires Reaches(roles, acts, s)
    ensures |Blocked(roles, s)| <= s.n && (ReleaserWaits(roles, s) ==> s.waitFor > 0)
    ensures Calm(acts) ==> |Blocked(roles, s)| == s.n && (s.waitFor > 0 ==> ReleaserWaits(roles, s))
  {
    if acts == [] {
      assert Blocked(roles, s) == {};
    } else {
      hide Blocked, ReleaserWaits, Apply;
      var last := |acts| - 1;
      var r :| Reaches(roles, acts[..last], r) && Enabled(roles, r, acts[last]) && s == Apply(roles, r, acts[last]);
      CountersCount(roles, acts[..last], r);
      match acts[last]
      case Enter(t) => EnterCounts(roles, r, t);
      case Leave(t) => LeaveCounts(roles, r, t);
      case Spurious(t) => SpuriousCounts(roles, r, t);
    }
  }

  lemma NobodyBlocked(roles: seq<Role>, s: State)
    requires s.waiting == {}
    ensures Blocked(roles, s) == {} && !ReleaserWaits(roles, s)
  {
  }

  lemma OneMoreBlocked(roles: seq<Role>, r: State, s: State, t: Thread)
    requires t < |roles| && t !in r.waiting && s.waiting == r.waiting + {t}
    ensures roles[t].Worker? ==>
              |Blocked(roles, s)| == |Blocked(roles, r)| + 1 && (ReleaserWaits(roles, s) <==> ReleaserWaits(roles, r))
    ensures roles[t].Releaser? ==> Blocked(roles, s) == Blocked(roles, r) && ReleaserWaits(roles, s)
  {
    if roles[t].Worker? {
      assert Blocked(roles, s) == Blocked(roles, r) + {t};
    } else {
      assert Blocked(roles, s) == Blocked(roles, r);
    }
  }

  lemma EnterCounts(roles: seq<Role>, r: State, t: Thread)
    requires Enabled(roles, r, Enter(t)) && |Blocked(roles, r)| <= r.n && (ReleaserWaits(roles, r) ==> r.waitFor > 0)
    ensures var s := Apply(roles, r, Enter(t));
            && |Blocked(roles, s)| <= s.n && (ReleaserWaits(roles, s) ==> s.waitFor > 0)
            && (|Blocked(roles, r)| == r.n ==> |Blocked(roles, s)| == s.n)
            && ((r.waitFor > 0 ==> ReleaserWaits(roles, r)) ==> (s.waitFor > 0 ==> ReleaserWaits(roles, s)))
  {
    hide Blocked, ReleaserWaits;
    var s := Apply(roles, r, Enter(t));
    if s.waiting == {} {
      NobodyBlocked(roles, s);
    }
    if s.waiting == r.waiting + {t} {
      OneMoreBlocked(roles, r, s, t);
    }
  }

  lemma LeaveCounts(roles: seq<Role>, r: State, t: Thread)
    requires Enabled(roles, r, Leave(t))
    ensures var s := Apply(roles, r, Leave(t));
            && s.n == r.n && s.waitFor == r.waitFor
            && Blocked(roles, s) == Blocked(roles, r) && (ReleaserWaits(roles, s) <==> ReleaserWaits(roles, r))
  {
  }

  lemma SpuriousCounts(roles: seq<Role>, r: State, t: Thread)
    requires Enabled(roles, r, Spurious(t))
    ensures var s := Apply(roles, r, Spurious(t));
            && s.n == r.n && s.waitFor == r.waitFor
            && |Blocked(roles, s)| <= |Blocked(roles, r)| && (ReleaserWaits(roles, s) ==> ReleaserWaits(roles, r))
  {
    SubsetCount(Blocked(roles, Apply(roles, r, Spurious(t))), Blocked(roles, r));
  }

  // ----- any number of workers and one releaser -----

  function Crew(workers: nat, num: nat): seq<Role> {
    seq(workers, _ => Worker) + [Releaser(num)]
  }

  ghost predicate Apart(workers: nat, s: State) {
    && (forall t :: t in s.Entered() ==> t <= workers)
    && s.waiting !! s.woken && s.waiting !! s.gone && s.woken !! s.gone
  }

  /** No release has happened: the releaser has not entered, or has asked for more workers than
      have entered. Threads may have been woken for no reason. */
  ghost predicate Closed(workers: nat, num: nat, s: State) {
    && s.n == |s.Entered() - {workers}|
    && if workers in s.Entered() then s.waitFor == num && s.n < num else s.waitFor == 0
  }

  /** The releaser has been let go, together with at least `num` workers. */
  ghost predicate Open(workers: nat, num: nat, s: State) {
    s.waitFor == 0 && workers in s.woken + s.gone && |(s.woken + s.gone) - {workers}| >= num
  }

  ghost predicate Inv(workers: nat, num: nat, s: State) {
    Apart(workers, s) && (Closed(workers, num, s) || Open(workers, num, s))
  }

  /** Every reachable state is in one of the two phases, spurious wake-ups or not. */
  lemma {:induction false} InvHolds(workers: nat, num: nat, acts: seq<Act>, s: State)
    requires Reaches(Crew(workers, num), acts, s)
    ensures Inv(workers, num, s)
  {
    if acts == [] {
    } else {
      var last := |acts| - 1;
      var roles := Crew(workers, num);
      var r :| Reaches(roles, acts[..last], r) && Enabled(roles, r, acts[last]) && s == Apply(roles, r, acts[last]);
      InvHolds(workers, num, acts[..last], r);
      InvStep(workers, num, r, acts[last]);
    }
  }

  lemma InvStep(workers: nat, num: nat, r: State, a: Act)
    requires Inv(workers, num, r) && Enabled(Crew(workers, num), r, a)
    ensures Inv(workers, num, Apply(Crew(workers, num), r, a))
  {
    match a
    case Leave(t) => LeaveStep(workers, num, r, t);
    case Enter(t) =>
      if t == workers {
        BossStep(workers, num, r);
      } else {
        WorkerStep(workers, num, r, t);
      }
    case Spurious(t) => SpuriousStep(workers, num, r, t);
  }

  lemma SpuriousStep(workers: nat, num: nat, r: State, t: Thread)
    requires Inv(workers, num, r) && t in r.waiting
    ensures Inv(workers, num, r.(waiting := r.waiting - {t}, woken := r.woken + {t}))
  {
    var s := r.(waiting := r.waiting - {t}, woken := r.woken + {t});
    SpuriousApart(workers, r, t);
    hide Apart;
    if Open(workers, num, r) {
      hide Closed;
      SubsetCount((r.woken + r.gone) - {workers}, (s.woken + s.gone) - {workers});
    } else {
      hide Open;
    }
  }

  lemma SpuriousApart(workers: nat, r: State, t: Thread)
    requires Apart(workers, r) && t in r.waiting
    ensures var s := r.(waiting := r.waiting - {t}, woken := r.woken + {t});
            Apart(workers, s) && s.Entered() == r.Entered()
  {
  }

  lemma LeaveStep(workers: nat, num: nat, r: State, t: Thread)
    requires Inv(workers, num, r) && t in r.woken
    ensures Inv(workers, num, r.(woken := r.woken - {t}, gone := r.gone + {t}))
  {
    var s := r.(woken := r.woken - {t}, gone := r.gone + {t});
    assert s.woken + s.gone == r.woken + r.gone;
    assert s.Entered() == r.Entered();
  }

  lemma BossStep(workers: nat, num: nat, r: State)
    requires Inv(workers, num, r) && workers !in r.Entered()
    ensures Inv(workers, num, EnterReleaser(r, workers, num))
  {
    BossApart(workers, num, r);
    if r.n >= num {
      BossReleases(workers, num, r);
    } else {
      BossWaits(workers, num, r);
    }
    hide EnterReleaser, Apart, Closed, Open;
  }

  lemma BossApart(workers: nat, num: nat, r: State)
    requires Apart(workers, r) && workers !in r.Entered()
    ensures Apart(workers, EnterReleaser(r, workers, num))
  {
    assert EnterReleaser(r, workers, num).Entered() == r.Entered() + {workers};
  }

  lemma BossReleases(workers: nat, num: nat, r: State)
    requires Closed(workers, num, r) && workers !in r.Entered() && r.n >= num
    ensures Open(workers, num, EnterReleaser(r, workers, num))
  {
    var s := EnterReleaser(r, workers, num);
    assert (s.woken + s.gone) - {workers} == r.Entered() - {workers};
  }

  lemma BossWaits(workers: nat, num: nat, r: State)
    requires Closed(workers, num, r) && workers !in r.Entered() && r.n < num
    ensures Closed(workers, num, EnterReleaser(r, workers, num))
  {
    assert EnterReleaser(r, workers, num).Entered() - {workers} == r.Entered() - {workers};
  }

  lemma WorkerStep(workers: nat, num: nat, r: State, t: Thread)
    requires Inv(workers, num, r) && t !in r.Entered() && t < workers
    ensures Inv(workers, num, EnterWorker(r, t))
  {
    WorkerApart(workers, r, t);
    hide Apart, EnterWorker;
    if Open(workers, num, r) {
      hide Closed, Open;
      LateWorker(workers, num, r, t);
    } else if workers in r.Entered() && r.n + 1 == num {
      hide Open;
      LastWorker(workers, num, r, t);
    } else {
      hide Open;
      OneMoreWaits(workers, num, r, t);
    }
  }

  lemma WorkerApart(workers: nat, r: State, t: Thread)
    requires Apart(workers, r) && t !in r.Entered() && t < workers
    ensures Apart(workers, EnterWorker(r, t))
  {
    assert EnterWorker(r, t).Entered() == r.Entered() + {t};
  }

  lemma LateWorker(workers: nat, num: nat, r: State, t: Thread)
    requires Open(workers, num, r)
    ensures Open(workers, num, EnterWorker(r, t))
  {
  }

  lemma LastWorker(workers: nat, num: nat, r: State, t: Thread)
    requires Closed(workers, num, r) && workers in r.Entered() && r.n + 1 == num && t !in r.Entered() && t != workers
    ensures Open(workers, num, EnterWorker(r, t))
  {
    var s := EnterWorker(r, t);
    assert (s.woken + s.gone) - {workers} == (r.Entered() - {workers}) + {t};
  }

  lemma OneMoreWaits(workers: nat, num: nat, r: State, t: Thread)
    requires Closed(workers, num, r) && !(workers in r.Entered() && r.n + 1 == num) && t !in r.Entered() && t != workers
    ensures Closed(workers, num, EnterWorker(r, t))
  {
    assert EnterWorker(r, t).Entered() - {workers} == (r.Entered() - {workers}) + {t};
    assert |(r.Entered() - {workers}) + {t}| == |r.Entered() - {workers}| + 1;
  }

  // ----- who passes, and when -----

  /** Without spurious wake-ups nobody has been woken before the release. */
  lemma {:induction false} NobodyStirs(workers: nat, num: nat, acts: seq<Act>, s: State)
    requires Calm(acts) && Reaches(Crew(workers, num), acts, s)
    ensures Closed(workers, num, s) ==> s.woken == s.gone == {}
  {
    if acts == [] {
    } else {
      var last, roles := |acts| - 1, Crew(workers, num);
      var r :| Reaches(roles, acts[..last], r) && Enabled(roles, r, acts[last]) && s == Apply(roles, r, acts[last]);
      NobodyStirs(workers, num, acts[..last], r);
      InvHolds(workers, num, acts[..last], r);
      StaysAsleep(workers, num, r, acts[last]);
    }
  }

  lemma StaysAsleep(workers: nat, num: nat, r: State, a: Act)
    requires Inv(workers, num, r) && !a.Spurious? && Enabled(Crew(workers, num), r, a)
    requires Closed(workers, num, r) ==> r.woken == r.gone == {}
    ensures var s := Apply(Crew(workers, num), r, a); Closed(workers, num, s) ==> s.woken == s.gone == {}
  {
    hide Closed, Open, Apart, EnterWorker, EnterReleaser;
    if Open(workers, num, r) {
      OpenStays(workers, num, r, a);
    } else if a.Enter? {
      EntersInRole(workers, num, r, a.t);
      if a.t == workers {
        BossKeepsAsleep(workers, num, r);
      } else {
        WorkerKeepsAsleep(workers, num, r, a.t);
      }
    }
  }

  lemma EntersInRole(workers: nat, num: nat, r: State, t: Thread)
    requires Enabled(Crew(workers, num), r, Enter(t))
    ensures t <= workers && t !in r.Entered() && Crew(workers, num)[t] == if t == workers then Releaser(num) else Worker
  {
  }

  /** After a release the counters say so for ever. */
  lemma OpenStays(workers: nat, num: nat, r: State, a: Act)
    requires Apart(workers, r) && Open(workers, num, r) && Enabled(Crew(workers, num), r, a)
    ensures !Closed(workers, num, Apply(Crew(workers, num), r, a))
  {
    var s := Apply(Crew(workers, num), r, a);
    assert s.waitFor == 0 && workers in s.Entered();
  }

  lemma BossKeepsAsleep(workers: nat, num: nat, r: State)
    requires Closed(workers, num, r) && workers !in r.Entered() && r.woken == r.gone == {}
    ensures var s := EnterReleaser(r, workers, num); Closed(workers, num, s) ==> s.woken == s.gone == {}
  {
    assert workers in EnterReleaser(r, workers, num).Entered();
  }

  lemma WorkerKeepsAsleep(workers: nat, num: nat, r: State, t: Thread)
    requires Closed(workers, num, r) && t < workers && t !in r.Entered() && r.woken == r.gone == {}
    ensures var s := EnterWorker(r, t); Closed(workers, num, s) ==> s.woken == s.gone == {}
  {
    assert workers in r.Entered() ==> workers in EnterWorker(r, t).Entered();
  }

  lemma EnteredOneMore(roles: seq<Role>, r: State, a: Act)
    requires Enabled(roles, r, a)
    ensures Apply(roles, r, a).Entered() == if a.Enter? then r.Entered() + {a.t} else r.Entered()
  {
  }

  /** A thread passes early if it has been woken, or gone, before the releaser has entered and
      `num` workers have arrived. */
  ghost predicate NobodyEarly(workers: nat, num: nat, s: State) {
    s.woken + s.gone != {} ==> workers in s.Entered() && |s.Entered() - {workers}| >= num
  }

  /** Without spurious wake-ups no thread passes early. */
  lemma NobodyPassesEarly(workers: nat, num: nat, acts: seq<Act>, s: State)
    requires Calm(acts) && Reaches(Crew(workers, num), acts, s)
    ensures NobodyEarly(workers, num, s)
  {
    InvHolds(workers, num, acts, s);
    NobodyStirs(workers, num, acts, s);
    SubsetCount((s.woken + s.gone) - {workers}, s.Entered() - {workers});
  }

  /** The threads that a schedule lets enter. */
  function Entrants(acts: seq<Act>): set<Thread> {
    set i | 0 <= i < |acts| && acts[i].Enter? :: acts[i].t
  }

  /** The schedule has let the releaser enter, and `num` workers. */
  predicate Gathered(workers: nat, num: nat, acts: seq<Act>) {
    workers in Entrants(acts) && |Entrants(acts) - {workers}| >= num
  }

  /** Every spurious wake-up comes after the releaser and `num` workers have entered. */
  predicate LateWakeUpsOnly(workers: nat, num: nat, acts: seq<Act>) {
    forall i :: 0 <= i < |acts| && acts[i].Spurious? ==> Gathered(workers, num, acts[..i])
  }

  /** No prefix of the schedule lets a thread pass early. */
  ghost predicate NeverEarly(workers: nat, num: nat, acts: seq<Act>) {
    forall i, s :: 0 <= i <= |acts| && Reaches(Crew(workers, num), acts[..i], s) ==> NobodyEarly(workers, num, s)
  }

  lemma {:induction false} EntrantsEntered(roles: seq<Role>, acts: seq<Act>, s: State)
    requires Reaches(roles, acts, s)
    ensures s.Entered() == Entrants(acts)
  {
    if acts == [] {
      assert Entrants(acts) == {};
    } else {
      var last := |acts| - 1;
      var r :| Reaches(roles, acts[..last], r) && Enabled(roles, r, acts[last]) && s == Apply(roles, r, acts[last]);
      EntrantsEntered(roles, acts[..last], r);
      EntrantsOneMore(acts[..last], acts[last]);
      assert acts == acts[..last] + [acts[last]];
      EnteredOneMore(roles, r, acts[last]);
    }
  }

  lemma EntrantsOneMore(acts: seq<Act>, a: Act)
    ensures Entrants(acts + [a]) == if a.Enter? then Entrants(acts) + {a.t} else Entrants(acts)
  {
    var more := acts + [a];
    forall t ensures t in Entrants(more) <==> t in Entrants(acts) || (a.Enter? && t == a.t) {
      if i :| 0 <= i < |acts| && acts[i].Enter? && acts[i].t == t {
        assert more[i] == acts[i];
      }
      assert more[|acts|] == a;
    }
  }

  /** Once gathered, always gathered. */
  lemma GatheredStays(workers: nat, num: nat, acts: seq<Act>, i: nat)
    requires i <= |acts| && Gathered(workers, num, acts[..i])
    ensures Gathered(workers, num, acts)
  {
    assert forall j :: 0 <= j < i ==> acts[..i][j] == acts[j];
    assert Entrants(acts[..i]) <= Entrants(acts);
    SubsetCount(Entrants(acts[..i]) - {workers}, Entrants(acts) - {workers});
  }

  /** Exactly when nobody passes early, for any number of workers, any number asked for and any
      schedule: when every spurious wake-up comes after the releaser and `num` workers have entered. */
  lemma NeverEarlyIff(workers: nat, num: nat, acts: seq<Act>, end: State)
    requires Reaches(Crew(workers, num), acts, end)
    ensures NeverEarly(workers, num, acts) <==> LateWakeUpsOnly(workers, num, acts)
  {
    hide Gathered, Reaches, NobodyEarly;
    if NeverEarly(workers, num, acts) {
      forall i | 0 <= i < |acts| && acts[i].Spurious? ensures Gathered(workers, num, acts[..i]) {
        SpuriousIsLate(workers, num, acts, end, i);
      }
    }
    if LateWakeUpsOnly(workers, num, acts) {
      forall i, s | 0 <= i <= |acts| && Reaches(Crew(workers, num), acts[..i], s) ensures NobodyEarly(workers, num, s) {
        LateIsHarmless(workers, num, acts, i, s);
      }
    }
  }

  lemma SpuriousIsLate(workers: nat, num: nat, acts: seq<Act>, end: State, i: nat)
    requires Reaches(Crew(workers, num), acts, end) && i < |acts| && acts[i].Spurious? && NeverEarly(workers, num, acts)
    ensures Gathered(workers, num, acts[..i])
  {
    var roles := Crew(workers, num);
    var s := ReachedBefore(roles, acts, end, i);
    NextEnabled(roles, acts, i, s);
    OneMoreStep(roles, acts[..i], s, acts[i]);
    assert acts[..i] + [acts[i]] == acts[..i + 1];
    var t := Apply(roles, s, acts[i]);
    assert acts[i].t in t.woken;
    assert NobodyEarly(workers, num, t);
    EnteredOneMore(roles, s, acts[i]);
    EntrantsEntered(roles, acts[..i], s);
  }

  lemma LateIsHarmless(workers: nat, num: nat, acts: seq<Act>, i: nat, s: State)
    requires LateWakeUpsOnly(workers, num, acts) && i <= |acts| && Reaches(Crew(workers, num), acts[..i], s)
    ensures NobodyEarly(workers, num, s)
  {
    hide Reaches;
    if Gathered(workers, num, acts[..i]) {
      EntrantsEntered(Crew(workers, num), acts[..i], s);
    } else {
      forall j | 0 <= j < i ensures !acts[j].Spurious? {
        assert acts[..i][..j] == acts[..j];
        if acts[j].Spurious? { GatheredStays(workers, num, acts[..i], j); }
      }
      NobodyPassesEarly(workers, num, acts[..i], s);
    }
  }

  /** A schedule that leads somewhere has led somewhere before. */
  lemma {:induction false} ReachedBefore(roles: seq<Role>, acts: seq<Act>, end: State, i: nat) returns (s: State)
    requires Reaches(roles, acts, end) && i <= |acts|
    ensures Reaches(roles, acts[..i], s)
  {
    if i == |acts| {
      assert acts[..i] == acts;
      s := end;
    } else {
      var last := |acts| - 1;
      var r :| Reaches(roles, acts[..last], r) && Enabled(roles, r, acts[last]) && end == Apply(roles, r, acts[last]);
      s := ReachedBefore(roles, acts[..last], r, i);
      assert acts[..last][..i] == acts[..i];
    }
  }

  /** One wake-up can be enough to let a worker pass before the releaser has even entered. */
  lemma SpuriousWakeUpBreaksBarrier()
    ensures var acts := [Enter(0), Spurious(0), Leave(0)];
            && (exists s :: Reaches(Crew(1, 1), acts, s) && 0 in s.gone && 1 !in s.Entered())
            && !NeverEarly(1, 1, acts)
  {
    var roles := Crew(1, 1);
    var s1 := Apply(roles, INITIAL, Enter(0));
    var s2 := Apply(roles, s1, Spurious(0));
    var s3 := Apply(roles, s2, Leave(0));
    var acts := [Enter(0), Spurious(0), Leave(0)];
    assert acts[..2] == [Enter(0), Spurious(0)];
    assert acts[..2][..1] == [Enter(0)];
    assert acts[..2][..1][..0] == [];
    assert Reaches(roles, acts[..2][..1][..0], INITIAL);
    assert Reaches(roles, acts[..2][..1], s1);
    assert Reaches(roles, acts[..2], s2);
    assert Reaches(roles, acts, s3);
    assert acts[..|acts|] == acts;
    assert 0 in s3.woken + s3.gone;
    assert !NobodyEarly(1, 1, s3);
  }

  /** Once exactly `num` workers and the releaser have entered, nobody is left waiting; spurious
      wake-ups do not change that. */
  lemma NobodyLeftWaiting(num: nat, acts: seq<Act>, s: State)
    requires Reaches(Crew(num, num), acts, s)
    requires forall t :: 0 <= t <= num ==> t in s.Entered()
    ensures s.waiting == {}
  {
    InvHolds(num, num, acts, s);
    AllEntered(num, s);
    hide Reaches, Inv;
    FullHouse(num, s);
  }

  lemma AllEntered(workers: nat, s: State)
    requires Apart(workers, s) && forall t :: 0 <= t <= workers ==> t in s.Entered()
    ensures workers in s.Entered() && |s.Entered() - {workers}| == workers
  {
    assert workers in s.Entered();
    UpToIs(workers, s.Entered() - {workers});
  }

  lemma FullHouse(num: nat, s: State)
    requires Inv(num, num, s) && num in s.Entered() && |s.Entered() - {num}| == num
    ensures s.waiting == {}
  {
    if !Closed(num, num, s) {
      AllPassed(s.waiting, (s.woken + s.gone) - {num}, s.Entered() - {num});
    }
  }

  lemma AllPassed(waiting: set<Thread>, passed: set<Thread>, all: set<Thread>)
    requires passed <= all && |passed| >= |all| && waiting <= all && waiting !! passed
    ensures waiting == {}
  {
    SubsetCount(passed, all);
  }

  /** The k first threads. */
  function UpTo(k: nat): (r: set<Thread>)
    ensures |r| == k && forall t :: t in r <==> 0 <= t < k
  {
    if k == 0 then {} else UpTo(k - 1) + {k - 1}
  }

  lemma UpToIs(k: nat, s: set<Thread>)
    requires forall t :: t in s <==> 0 <= t < k
    ensures |s| == k
  {
    assert s == UpTo(k);
  }

  // ----- complete runs -----

  /** Every step brings some thread further: to waiting, to woken, to gone. */
  function Weight(s: State): nat {
    |s.waiting| + 2 * |s.woken| + 3 * |s.gone|
  }

  ghost predicate Over(roles: seq<Role>, s: State) {
    s.woken == {} && forall t :: 0 <= t < |roles| ==> t in s.Entered()
  }

  /** In every complete run all threads get past the barrier. */
  ghost predicate AllAlwaysPass(workers: nat, num: nat) {
    forall acts, s :: Reaches(Crew(workers, num), acts, s) && Over(Crew(workers, num), s)
      ==> s.waiting == {}
  }

  lemma WeightBound(workers: nat, s: State)
    requires Apart(workers, s)
    ensures Weight(s) <= 3 * (workers + 1)
  {
    assert |s.Entered()| == |s.waiting + s.woken| + |s.gone| == |s.waiting| + |s.woken| + |s.gone|;
    SubsetCount(s.Entered(), UpTo(workers + 1));
  }

  lemma StepWeight(workers: nat, num: nat, r: State, a: Act)
    requires Apart(workers, r) && Enabled(Crew(workers, num), r, a)
    ensures Weight(Apply(Crew(workers, num), r, a)) > Weight(r)
  {
    match a
    case Leave(t) =>
      assert |r.woken - {t}| == |r.woken| - 1 && |r.gone + {t}| == |r.gone| + 1;
    case Enter(t) => EnterWeight(workers, num, r, t);
    case Spurious(t) =>
      assert |r.waiting - {t}| == |r.waiting| - 1 && |r.woken + {t}| == |r.woken| + 1;
  }

  lemma EnterWeight(workers: nat, num: nat, r: State, t: Thread)
    requires Apart(workers, r) && t !in r.Entered() && t <= workers
    ensures Weight(Apply(Crew(workers, num), r, Enter(t))) > Weight(r)
  {
    assert |r.gone + {t}| == |r.gone| + 1;
    assert |r.waiting + {t}| == |r.waiting| + 1;
    assert |r.woken + r.waiting| == |r.woken| + |r.waiting|;
  }

  /** No run takes more than three steps a thread. */
  lemma {:induction false} RunsAreShort(workers: nat, num: nat, acts: seq<Act>, s: State)
    requires Reaches(Crew(workers, num), acts, s)
    ensures |acts| <= Weight(s) <= 3 * (workers + 1)
  {
    InvHolds(workers, num, acts, s);
    WeightBound(workers, s);
    if acts == [] {
    } else {
      var last, roles := |acts| - 1, Crew(workers, num);
      var r :| Reaches(roles, acts[..last], r) && Enabled(roles, r, acts[last]) && s == Apply(roles, r, acts[last]);
      InvHolds(workers, num, acts[..last], r);
      RunsAreShort(workers, num, acts[..last], r);
      StepWeight(workers, num, r, acts[last]);
    }
  }

  lemma SomeStep(roles: seq<Role>, s: State) returns (a: Act)
    requires !Over(roles, s)
    ensures !a.Spurious? && Enabled(roles, s, a)
  {
    if s.woken != {} {
      var t :| t in s.woken;
      a := Leave(t);
    } else {
      var t: nat :| t < |roles| && t !in s.Entered();
      a := Enter(t);
    }
  }

  lemma OneMoreStep(roles: seq<Role>, acts: seq<Act>, s: State, a: Act)
    requires Reaches(roles, acts, s) && Enabled(roles, s, a)
    ensures Reaches(roles, acts + [a], Apply(roles, s, a))
  {
    assert (acts + [a])[..|acts|] == acts;
  }

  /** From any state some schedule runs to the end without spurious wake-ups. */
  lemma {:induction false} RunToEnd(workers: nat, num: nat, acts: seq<Act>, s: State) returns (more: seq<Act>, end: State)
    requires Calm(acts) && Reaches(Crew(workers, num), acts, s)
    ensures acts <= more && Calm(more) && Reaches(Crew(workers, num), more, end) && Over(Crew(workers, num), end)
    decreases 3 * (workers + 1) - Weight(s) as int
  {
    var roles := Crew(workers, num);
    InvHolds(workers, num, acts, s);
    if Over(roles, s) {
      more, end := acts, s;
    } else {
      var a := SomeStep(roles, s);
      var next := Apply(roles, s, a);
      OneMoreStep(roles, acts, s, a);
      InvStep(workers, num, s, a);
      StepWeight(workers, num, s, a);
      WeightBound(workers, next);
      hide Weight, Apply, Enabled, Over, Inv;
      more, end := RunToEnd(workers, num, acts + [a], next);
    }
  }

  // ----- when every complete run lets everybody pass -----

  /** A releaser that enters first releases no more than `num` workers. */
  ghost predicate AtMost(workers: nat, num: nat, s: State) {
    workers in s.Entered() && |(s.woken + s.gone) - {workers}| <= num
  }

  lemma AtMostStep(workers: nat, num: nat, r: State, a: Act)
    requires Inv(workers, num, r) && AtMost(workers, num, r)
    requires !a.Spurious? && Enabled(Crew(workers, num), r, a)
    ensures AtMost(workers, num, Apply(Crew(workers, num), r, a))
  {
    hide AtMost, EnterWorker, EnterReleaser, Inv;
    if a.Enter? {
      EntersAsWorker(workers, num, r, a.t);
      AtMostEnter(workers, num, r, a.t);
    } else {
      AtMostLeave(workers, num, r, a.t);
    }
  }

  lemma EntersAsWorker(workers: nat, num: nat, r: State, t: Thread)
    requires AtMost(workers, num, r) && t < |Crew(workers, num)| && t !in r.Entered()
    ensures t < workers && Crew(workers, num)[t].Worker?
  {
  }

  lemma AtMostLeave(workers: nat, num: nat, r: State, t: Thread)
    requires AtMost(workers, num, r) && t in r.woken
    ensures AtMost(workers, num, r.(woken := r.woken - {t}, gone := r.gone + {t}))
  {
    assert r.woken - {t} + (r.gone + {t}) == r.woken + r.gone;
  }

  lemma AtMostEnter(workers: nat, num: nat, r: State, t: Thread)
    requires Inv(workers, num, r) && AtMost(workers, num, r) && t < workers && t !in r.Entered()
    ensures AtMost(workers, num, EnterWorker(r, t))
  {
    var s := EnterWorker(r, t);
    if Open(workers, num, r) {
      hide Closed, Open, Apart;
    } else if r.n + 1 == num {
      hide Open, Apart;
      assert (s.woken + s.gone) - {workers} == (r.Entered() - {workers}) + {t};
    }
  }

  lemma {:induction false} AtMostHolds(workers: nat, num: nat, acts: seq<Act>, s: State)
    requires Calm(acts) && Reaches(Crew(workers, num), acts, s) && acts != [] && acts[0] == Enter(workers)
    ensures AtMost(workers, num, s)
  {
    var last, roles := |acts| - 1, Crew(workers, num);
    var r :| Reaches(roles, acts[..last], r) && Enabled(roles, r, acts[last]) && s == Apply(roles, r, acts[last]);
    if last > 0 {
      InvHolds(workers, num, acts[..last], r);
      AtMostHolds(workers, num, acts[..last], r);
      AtMostStep(workers, num, r, acts[last]);
    } else {
      assert acts[..0] == [];
      assert (s.woken + s.gone) - {workers} == {};
    }
  }

  /** Every complete run lets every thread pass exactly when there are as many workers as the
      releaser asks for: with fewer it waits for ever, with more some schedule leaves a worker behind. */
  lemma AllPassIffCountsAgree(workers: nat, num: nat)
    ensures AllAlwaysPass(workers, num) <==> workers == num
  {
    var roles := Crew(workers, num);
    if workers == num {
      forall acts, s | Reaches(roles, acts, s) && Over(roles, s) ensures s.waiting == {} {
        NobodyLeftWaiting(num, acts, s);
      }
    } else {
      var first := if workers < num then [] else [Enter(workers)];
      var s := if workers < num then INITIAL else Apply(roles, INITIAL, Enter(workers));
      assert [Enter(workers)][..0] == [];
      assert Reaches(roles, [], INITIAL);
      var acts, end := RunToEnd(workers, num, first, s);
      StuckAtEnd(workers, num, acts, end);
    }
  }

  lemma StuckAtEnd(workers: nat, num: nat, acts: seq<Act>, s: State)
    requires workers != num && Calm(acts) && Reaches(Crew(workers, num), acts, s) && Over(Crew(workers, num), s)
    requires workers > num ==> acts != [] && acts[0] == Enter(workers)
    ensures s.waiting != {}
  {
    InvHolds(workers, num, acts, s);
    NobodyStirs(workers, num, acts, s);
    if workers > num {
      AtMostHolds(workers, num, acts, s);
    }
    if s.waiting == {} {
      AllGone(workers, num, s);
    }
  }

  lemma AllGone(workers: nat, num: nat, s: State)
    requires Inv(workers, num, s) && Over(Crew(workers, num), s) && s.waiting == {}
    requires Closed(workers, num, s) ==> s.woken == s.gone == {}
    ensures |(s.woken + s.gone) - {workers}| == workers && workers >= num
  {
    AllEntered(workers, s);
    assert s.woken + s.gone == s.Entered();
  }

  /** The barrier object. Each method is one critical section: it holds the mutex from its start
      to its return, or to the point where it waits on the condition and gives the mutex up. */
  class WaitForThreads {
    var n: nat
    var waitFor: nat
    // where the threads are: in the condition's queue, woken from it, or back with their callers
    var waiting: set<Thread>
    var woken: set<Thread>
    var gone: set<Thread>

    ghost function Now(): State
      reads this
    {
      State(n, waitFor, waiting, woken, gone)
    }

    constructor ()
      ensures Now() == INITIAL
    {
      n, waitFor, waiting, woken, gone := 0, 0, {}, {}, {};
    }

    method Block(me: Thread)
      requires BlockAssertion(Now())
      modifies this
      ensures Now() == EnterWorker(old(Now()), me)
    {
      n := n + 1;
      assert waitFor == 0 || n <= waitFor;
      if waitFor > 0 && n == waitFor {
        UnblockThreads();
        gone := gone + {me};
      } else {
        waiting := waiting + {me};
      }
    }

    method ReleaseThreads(num: nat, me: Thread)
      modifies this
      ensures Now() == EnterReleaser(old(Now()), me, num)
    {
      if n >= num {
        UnblockThreads();
        gone := gone + {me};
      } else {
        waitFor := num;
        waiting := waiting + {me};
      }
    }

    /** Resetting the counters first makes threads that enter later wait for another release. */
    method UnblockThreads()
      modifies this
      ensures Now() == Unblock(old(Now()))
    {
      n := 0;
      waitFor := 0;
      woken, waiting := woken + waiting, {};
    }

    /** A woken thread gets the mutex back, unlocks it and returns. */
    method ReturnFromWait(me: Thread)
      requires me in woken
      modifies this
      ensures Now() == old(Now()).(woken := old(woken) - {me}, gone := old(gone) + {me})
    {
      woken, gone := woken - {me}, gone + {me};
    }

    /** A wait may also return for no reason: the thread gets up although nobody has signalled. */
    method WakeForNoReason(me: Thread)
      requires me in waiting
      modifies this
      ensures Now() == old(Now()).(waiting := old(waiting) - {me}, woken := old(woken) + {me})
    {
      waiting, woken := waiting - {me}, woken + {me};
    }

    /** Threads taking the steps of a schedule one by one: the barrier goes through the states
        of the schedule, and its assertion never fails. */
    method RunSchedule(roles: seq<Role>, acts: seq<Act>)
      requires Now() == INITIAL
      requires exists s :: Reaches(roles, acts, s)
      modifies this
      ensures Reaches(roles, acts, Now())
    {
      var i := 0;
      assert acts[..0] == [];
      while i < |acts|
        invariant 0 <= i <= |acts| && Reaches(roles, acts[..i], Now())
      {
        NextEnabled(roles, acts, i, Now());
        AssertionHolds(roles, acts[..i], Now());
        OneMoreStep(roles, acts[..i], Now(), acts[i]);
        assert acts[..i] + [acts[i]] == acts[..i + 1];
        match acts[i] {
          case Enter(t) =>
            match roles[t] {
              case Worker => Block(t);
              case Releaser(num) => ReleaseThreads(num, t);
            }
          case Leave(t) => ReturnFromWait(t);
          case Spurious(t) => WakeForNoReason(t);
        }
        i := i + 1;
      }
      assert acts[..i] == acts;
    }
  }

  lemma {:induction false} ReachesOne(roles: seq<Role>, acts: seq<Act>, r: State, s: State)
    requires Reaches(roles, acts, r) && Reaches(roles, acts, s)
    ensures r == s
  {
    if acts == [] {
    } else {
      var last := |acts| - 1;
      var p :| Reaches(roles, acts[..last], p) && Enabled(roles, p, acts[last]) && r == Apply(roles, p, acts[last]);
      var q :| Reaches(roles, acts[..last], q) && Enabled(roles, q, acts[last]) && s == Apply(roles, q, acts[last]);
      ReachesOne(roles, acts[..last], p, q);
    }
  }

  lemma {:induction false} NextEnabled(roles: seq<Role>, acts: seq<Act>, i: nat, s: State)
    requires i < |acts| && (exists e :: Reaches(roles, acts, e)) && Reaches(roles, acts[..i], s)
    ensures Enabled(roles, s, acts[i])
  {
    var last := |acts| - 1;
    var e :| Reaches(roles, acts, e);
    var r :| Reaches(roles, acts[..last], r) && Enabled(roles, r, acts[last]) && e == Apply(roles, r, acts[last]);
    if i == last {
      ReachesOne(roles, acts[..last], r, s);
    } else {
      assert acts[..last][..i] == acts[..i];
      NextEnabled(roles, acts[..last], i, s);
    }
  }
}
