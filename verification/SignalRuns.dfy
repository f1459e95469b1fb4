/** Whole runs of signal requests and deliveries (m_signals.c). */
module SignalRuns {
  import opened Options
  import opened Signals

  datatype Event =
    | Action(signo: Signal, newAct: Option<Scss>)
    | Mask(tid: nat, how: How, set_: Option<set<Signal>>)
    | Clone(parent: nat, child: nat)
    | Exit(tid: nat)
    | Deliver(tid: nat, sigNo: Signal)
    | Fault(tid: nat, sigNo: Signal)
    | Pending(tid: nat, sigNo: Signal)

  predicate Possible(e: Event, nThreads: nat, maxSignal: Signal) {
    match e
    case Action(_, _) => true
    case Mask(tid, _, _) => tid < nThreads
    case Clone(parent, child) => parent < nThreads && child < nThreads
    case Exit(tid) => tid < nThreads
    case Deliver(tid, sigNo) => tid < nThreads && 1 <= sigNo <= maxSignal
    case Fault(tid, sigNo) => tid < nThreads && 1 <= sigNo < maxSignal
    case Pending(tid, sigNo) => tid < nThreads && 1 <= sigNo <= maxSignal
  }

  // ----- the client's view, as a value

  /** What a run depends on: the client's settings and the threads. */
  datatype View = View(scss: seq<Scss>, threads: seq<Thread>, maxSignal: Signal)

  ghost function ViewOf(s: SignalState): View
    reads s, s.scss, s.threads
  {
    View(s.scss[..], s.threads[..], s.maxSignal)
  }

  predicate Fits(v: View) { |v.scss| == NSIG + 1 && SIGSYS <= v.maxSignal <= NSIG }

  /** The events at which the source's assertion fails: the internal kill signal reaches a thread that is not exiting,
      and, if it comes by polling, the client has set it to its default action. */
  predicate Fails(v: View, e: Event)
    requires Fits(v) && Possible(e, |v.threads|, v.maxSignal)
  {
    match e
    case Deliver(tid, sigNo) => Unexpected(sigNo, v.maxSignal, v.threads[tid])
    case Pending(tid, sigNo) => v.scss[sigNo].handler != Ign && Unexpected(sigNo, v.maxSignal, v.threads[tid])
    case _ => false
  }

  function Delivered(v: View, tid: nat, sigNo: Signal): View
    requires Fits(v) && tid < |v.threads| && 1 <= sigNo <= v.maxSignal
  {
    var s := v.scss[sigNo];
    if !OutcomeOf(sigNo, s, v.maxSignal).Frame? then v
    else v.(scss := if OneShot in s.flags then v.scss[sigNo := s.(handler := Dfl)] else v.scss,
            threads := v.threads[tid := Entering(sigNo, s, v.threads[tid])])
  }

  /** What an event makes of the client's view. */
  function After(v: View, e: Event): (w: View)
    requires Fits(v) && Possible(e, |v.threads|, v.maxSignal)
    ensures Fits(w) && |w.threads| == |v.threads| && w.maxSignal == v.maxSignal
  {
    match e
    case Action(signo, newAct) =>
      if Refused(signo, v.maxSignal, newAct) || newAct.None? then v
      else v.(scss := v.scss[signo := Recorded(newAct.value)])
    case Mask(tid, how, set_) =>
      if how == Unknown || set_.None? then v
      else
        var m := NewMask(how, v.threads[tid].mask, set_.value);
        v.(threads := v.threads[tid := v.threads[tid].(mask := m, tmp := m)])
    case Clone(parent, child) =>
      v.(threads := v.threads[child := Thread(v.threads[parent].mask, v.threads[parent].mask, false)])
    case Exit(tid) => v.(threads := v.threads[tid := v.threads[tid].(exiting := true)])
    case Deliver(tid, sigNo) => Delivered(v, tid, sigNo)
    case Fault(tid, sigNo) =>
      if sigNo in v.threads[tid].mask then v.(scss := v.scss[sigNo := Scss(Dfl, {}, {}, 0)])
      else Delivered(v, tid, sigNo)
    case Pending(tid, sigNo) => if v.scss[sigNo].handler == Ign then v else Delivered(v, tid, sigNo)
  }

  ghost predicate AllPossible(events: seq<Event>, nThreads: nat, maxSignal: Signal) {
    forall i :: 0 <= i < |events| ==> Possible(events[i], nThreads, maxSignal)
  }

  /** The first events, in order. */
  ghost function AfterAll(v: View, events: seq<Event>): (w: View)
    requires Fits(v) && AllPossible(events, |v.threads|, v.maxSignal)
    ensures Fits(w) && |w.threads| == |v.threads| && w.maxSignal == v.maxSignal
  {
    if events == [] then v else After(AfterAll(v, events[..|events| - 1]), events[|events| - 1])
  }

  /** One event. */
  method Do(s: SignalState, e: Event) returns (ok: bool)
    requires s.Valid() && Possible(e, s.threads.Length, s.maxSignal)
    modifies s.scss, s.skss, s.kernel, s.threads
    ensures s.Valid() && (ok <==> !Fails(old(ViewOf(s)), e)) && (ok ==> ViewOf(s) == After(old(ViewOf(s)), e))
  {
    hide SignalState.Derived, SignalState.InKernel, SignalState.Clean, SignalState.Stoppable, Recorded, NewMask;
    hide Refused, Entering;
    ok := true;
    match e {
      case Action(signo, newAct) =>
        RefusedRange(signo, s.maxSignal, newAct);
        var res, oldAct;
        ok, res, oldAct := s.DoSysSigaction(signo, newAct);
      case Mask(tid, how, set_) =>
        var res, oldSet := s.DoSysSigprocmask(tid, how, set_);
      case Clone(parent, child) => s.CloneThread(parent, child);
      case Exit(tid) => s.StartExit(tid);
      case Deliver(tid, sigNo) =>
        var out;
        ok, out := s.DeliverSignal(tid, sigNo);
      case Fault(tid, sigNo) =>
        var out;
        ok, out := s.ForceFault(tid, sigNo);
      case Pending(tid, sigNo) =>
        var out;
        ok, out := s.Poll(tid, sigNo);
    }
  }

  lemma RefusedRange(signo: Signal, maxSignal: Signal, newAct: Option<Scss>)
    ensures !Refused(signo, maxSignal, newAct) ==> 1 <= signo <= maxSignal
  {
  }

  /** A run goes on as long as no event fails; `n` is the number of events that have happened. The run is exactly what
      the client's view makes of them; an assertion fails if and only if the next event is one that fails in that view.
      Whatever happens, SKSS is the function of SCSS, the kernel knows it, and no thread blocks SIGKILL or SIGSTOP. */
  method Run(s: SignalState, events: seq<Event>) returns (ok: bool, n: nat)
    requires s.Valid() && AllPossible(events, s.threads.Length, s.maxSignal)
    modifies s.scss, s.skss, s.kernel, s.threads
    ensures s.Valid() && n <= |events| && (ok <==> n == |events|)
    ensures ok ==> ViewOf(s) == AfterAll(old(ViewOf(s)), events)
    ensures !ok ==> Fails(AfterAll(old(ViewOf(s)), events[..n]), events[n])
    ensures forall i :: 0 <= i < n ==> !Fails(AfterAll(old(ViewOf(s)), events[..i]), events[i])
  {
    hide SignalState.Derived, SignalState.InKernel, SignalState.Clean, SignalState.Stoppable, After, Fails;
    ghost var v := ViewOf(s);
    ok, n := true, 0;
    while n < |events|
      invariant ok && s.Valid() && n <= |events| && ViewOf(s) == AfterAll(v, events[..n])
      invariant forall i :: 0 <= i < n ==> !Fails(AfterAll(v, events[..i]), events[i])
    {
      assert events[..n + 1][..n] == events[..n];
      ok := Do(s, events[n]);
      if !ok {
        return;
      }
      n := n + 1;
    }
    assert events[..n] == events;
  }

  /** Two events that make the assertion fail, after any startup: the client sets the last signal to its default action,
      and that signal is pending for a thread that is not exiting. */
  method KillSignalUnexpected(s: SignalState, tid: nat) returns (ok: bool, n: nat)
    requires s.Valid() && tid < s.threads.Length && !s.threads[tid].exiting
    modifies s.scss, s.skss, s.kernel, s.threads
    ensures !ok && n == 1
  {
    hide SignalState.Derived, SignalState.InKernel, SignalState.Clean, SignalState.Stoppable;
    ghost var v := ViewOf(s);
    var events := [Action(s.maxSignal, Some(Scss(Dfl, {}, {}, 0))), Pending(tid, s.maxSignal)];
    assert events[..0] == [] && events[..1] == [events[0]] && events[..1][..0] == [] && events[..2][..1] == events[..1];
    assert AfterAll(v, events[..1]) == After(v, events[0]);
    assert !Fails(AfterAll(v, events[..0]), events[0]) && Fails(AfterAll(v, events[..1]), events[1]);
    ok, n := Run(s, events);
  }

  /** However they were reached, two states with the same client view have told the kernel the same: what lazy updates
      have added up to is what one forced update would do. */
  lemma KernelFollowsClient(a: SignalState, b: SignalState, sig: Signal)
    requires a.Valid() && b.Valid() && a.maxSignal == b.maxSignal && a.scss[..] == b.scss[..]
    requires 1 <= sig <= a.maxSignal && sig !in UNSTOPPABLE
    ensures a.skss[sig] == b.skss[sig] && a.kernel[sig] == b.kernel[sig]
    ensures a.kernel[sig] == Told(Required(sig, b.scss[sig], b.maxSignal))
  {
    assert a.scss[..][sig] == b.scss[..][sig];
  }

  /** What the kernel is told about each signal. The five faults are always caught. Four signals whose default action is
      to do nothing are left to the kernel unless the client catches them. The last signal is the core's own. Every
      other one is caught unless the client ignores it. */
  lemma KernelIsTold(s: SignalState, sig: Signal)
    requires s.Valid() && 1 <= sig <= s.maxSignal && sig != 9 && sig != 19
    ensures var told, client := s.kernel[sig].handler, s.scss[sig].handler;
            if sig in {4, 5, 7, 8, 11} then told == SyncHandler
            else if sig in {17, 18, 23, 28} then
              && (told == Dfl <==> client == Dfl) && (told == Ign <==> client == Ign)
              && (client != Dfl && client != Ign ==> told == AsyncHandler)
            else if sig == s.maxSignal then told == VgKillHandler
            else told == Ign || told == AsyncHandler
    ensures sig !in {4, 5, 7, 8, 11} && sig != s.maxSignal ==>
      (s.kernel[sig].handler == Ign <==> s.scss[sig].handler == Ign)
    ensures forall f :: f in s.kernel[sig].flags <==>
              f == Restart || f == SigInfo || f == Restorer ||
              (f in s.scss[sig].flags && (f == NoCldStop || f == NoCldWait))
    ensures forall t :: t in s.kernel[sig].mask <==> 1 <= t <= 64 && t != 9 && t != 19
    ensures s.kernel[sig].restorer == MY_SIGRETURN
  {
  }

  /** The two signals that nobody can catch keep their default action. */
  lemma TwoLeftAlone(s: SignalState)
    requires s.Valid()
    ensures s.skss[9].handler == Dfl && s.skss[19].handler == Dfl && s.scss[9].handler == Dfl
    ensures s.scss[19].handler == Dfl
  {
    assert CleanEntry(9, s.scss[9], s.maxSignal) && CleanEntry(19, s.scss[19], s.maxSignal);
  }

  /** The requests that sigaction serves: queries about any usable signal; the default action for any; to ignore any but
      the two; and a handler for any but the two and the last. */
  lemma Accepted(signo: Signal, maxSignal: Signal, newAct: Option<Scss>)
    requires SIGSYS <= maxSignal
    ensures !Refused(signo, maxSignal, newAct) <==>
              && 1 <= signo <= maxSignal
              && (newAct == None || newAct.value.handler == Dfl || (signo != 9 && signo != 19 &&
                                                                   (newAct.value.handler == Ign || signo < maxSignal)))
  {
  }

  /** An ordinary signal that the client has not ignored always reaches the core, and the five faults always do. */
  lemma CoreIsTold(s: SignalState, sig: Signal)
    requires s.Valid() && 1 <= sig < s.maxSignal && sig !in UNSTOPPABLE
    ensures s.kernel[sig].handler == Ign ==> s.scss[sig].handler == Ign
    ensures s.scss[sig].handler.Fn? ==> s.kernel[sig].handler == SyncHandler || s.kernel[sig].handler == AsyncHandler
    ensures sig in {SIGSEGV, SIGBUS, SIGFPE, SIGILL, SIGTRAP} ==> s.kernel[sig].handler == SyncHandler
    ensures UNSTOPPABLE !! s.kernel[sig].mask && OneShot !in s.kernel[sig].flags && Restart in s.kernel[sig].flags
  {
  }

  /** Setting an action and then putting back what was there before changes nothing, for the client and for the
      kernel. */
  method SetAndRestore(s: SignalState, signo: Signal, newAct: Scss) returns (ok: bool)
    requires s.Valid() && signo < s.maxSignal && !Refused(signo, s.maxSignal, Some(newAct))
    modifies s.scss, s.skss, s.kernel
    ensures ok && s.Valid() && s.scss[..] == old(s.scss[..]) && s.skss[1..] == old(s.skss[1..])
    ensures forall sig :: 1 <= sig <= s.maxSignal ==> s.kernel[sig] == old(s.kernel[sig])
  {
    var before := s.scss[..];
    ghost var skss0, kernel0 := s.skss[..], s.kernel[..];
    var res, oldAct;
    ok, res, oldAct := s.DoSysSigaction(signo, Some(newAct));
    var fine, oldAct2;
    assert CleanEntry(signo, before[signo], s.maxSignal);
    assert Recorded(before[signo]) == before[signo];
    fine, res, oldAct2 := s.DoSysSigaction(signo, oldAct);
    ok := ok && fine;
    assert s.scss[..] == before;
    forall sig | Range(sig)
      ensures s.skss[sig] == skss0[sig]
    {
      assert s.scss[..][sig] == before[sig];
    }
  }

  /** A query after a successful request tells what was asked for, less SIGKILL and SIGSTOP. */
  method SetThenQuery(s: SignalState, signo: Signal, newAct: Scss) returns (ok: bool, got: Option<Scss>)
    requires s.Valid() && !Refused(signo, s.maxSignal, Some(newAct))
    modifies s.scss, s.skss, s.kernel
    ensures ok && got == Some(newAct.(mask := newAct.mask - {SIGKILL, SIGSTOP}))
  {
    var res, oldAct;
    ok, res, oldAct := s.DoSysSigaction(signo, Some(newAct));
    var fine;
    fine, res, got := s.DoSysSigaction(signo, None);
    ok := ok && fine;
  }

  /** A one-shot handler runs once: delivered again, the signal has its default action. */
  method OneShotRunsOnce(s: SignalState, tid: nat, signo: Signal) returns (ok: bool, first: Outcome, second: Outcome)
    requires s.Valid() && tid < s.threads.Length && 1 <= signo < s.maxSignal && s.scss[signo].handler.Fn?
    requires OneShot in s.scss[signo].flags
    modifies s.scss, s.skss, s.kernel, s.threads
    ensures ok && first == Frame(old(s.scss[signo].handler)) && second == DefaultAction && s.Valid()
  {
    ok, first := s.DeliverSignal(tid, signo);
    var fine;
    assert s.scss[..][signo].handler == Dfl;
    fine, second := s.DeliverSignal(tid, signo);
    ok := ok && fine;
  }

  /** The mask that sigprocmask sets, signal by signal; and the mask before comes back when it is set again. */
  method MaskAndRestore(s: SignalState, tid: nat, how: How, set_: set<Signal>) returns (between: set<Signal>)
    requires s.Valid() && tid < s.threads.Length && how != Unknown
    modifies s.threads
    ensures forall t :: t in between <==>
              && t != 9 && t != 19
              && match how
                 case Block => t in old(s.threads[tid].mask) || t in set_
                 case Unblock => t in old(s.threads[tid].mask) && t !in set_
                 case SetMask => t in set_
                 case Unknown => false
    ensures s.Valid() && s.threads[tid].mask == old(s.threads[tid].mask) == s.threads[tid].tmp
    ensures forall other :: 0 <= other < s.threads.Length && other != tid ==> s.threads[other] == old(s.threads[other])
  {
    var res, oldSet := s.DoSysSigprocmask(tid, how, Some(set_));
    between := s.threads[tid].mask;
    assert s.threads[..][tid].mask == between;
    ghost var middle := s.threads[..];
    var res', oldSet' := s.DoSysSigprocmask(tid, SetMask, oldSet);
    assert s.threads[..][tid].mask == old(s.threads[tid].mask);
    forall other | 0 <= other < s.threads.Length && other != tid
      ensures s.threads[other] == old(s.threads[other])
    {
      assert s.threads[..][other] == middle[other] == old(s.threads[..])[other];
    }
  }

  /** A handler for which the client has asked for no masking runs with the temporary mask, and nothing else is
      blocked. */
  method NotBlockedInHandler(s: SignalState, tid: nat, signo: Signal) returns (ok: bool, out: Outcome)
    requires s.Valid() && tid < s.threads.Length && 1 <= signo < s.maxSignal && s.scss[signo].handler.Fn?
    requires NoMask in s.scss[signo].flags
    modifies s.scss, s.skss, s.kernel, s.threads
    ensures ok && s.Valid() && out == Frame(old(s.scss[signo].handler))
    ensures s.threads[tid] == Thread(old(s.threads[tid].tmp), old(s.threads[tid].tmp), old(s.threads[tid].exiting))
  {
    ok, out := s.DeliverSignal(tid, signo);
    assert s.threads[..][tid] == Entering(signo, old(s.scss[signo]), old(s.threads[tid]));
  }

  /** While a handler runs, exactly its own signal and its mask are blocked besides what was, unless the client asked
      otherwise. */
  method BlockedInHandler(s: SignalState, tid: nat, signo: Signal) returns (ok: bool, out: Outcome)
    requires s.Valid() && tid < s.threads.Length && 1 <= signo < s.maxSignal && s.scss[signo].handler.Fn?
    requires NoMask !in s.scss[signo].flags
    modifies s.scss, s.skss, s.kernel, s.threads
    ensures ok && s.Valid() && out == Frame(old(s.scss[signo].handler))
    ensures forall t :: t in s.threads[tid].mask <==>
              t == signo || t in old(s.threads[tid].tmp) || t in old(s.scss[signo].mask)
    ensures s.threads[tid].tmp == s.threads[tid].mask && s.threads[tid].exiting == old(s.threads[tid].exiting)
    ensures SIGKILL !in s.threads[tid].mask && SIGSTOP !in s.threads[tid].mask
  {
    ok, out := s.DeliverSignal(tid, signo);
    assert s.threads[..][tid] == Entering(signo, old(s.scss[signo]), old(s.threads[tid]));
  }
}
