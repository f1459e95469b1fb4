/** The signal state: what the client asked for, what the kernel is told, and the threads' masks (m_signals.c). */
module Signals {
  import opened Options

  type Signal = int

  const NSIG: nat := 64
  const SIGILL: Signal := 4
  const SIGTRAP: Signal := 5
  const SIGBUS: Signal := 7
  const SIGFPE: Signal := 8
  const SIGKILL: Signal := 9
  const SIGSEGV: Signal := 11
  const SIGCHLD: Signal := 17
  const SIGCONT: Signal := 18
  const SIGSTOP: Signal := 19
  const SIGURG: Signal := 23
  const SIGWINCH: Signal := 28
  const SIGSYS: Signal := 31
  const SIGRTMIN: Signal := 32

  /** SIG_DFL, SIG_IGN, a function of the client, or one of the core's own three handlers. */
  datatype Handler = Dfl | Ign | Fn(addr: nat) | SyncHandler | AsyncHandler | VgKillHandler

  datatype Flag = NoCldStop | NoCldWait | SigInfo | Restorer | OnStack | Restart | NoMask | OneShot

  /** SCSS_Per_Signal. */
  datatype Scss = Scss(handler: Handler, flags: set<Flag>, mask: set<Signal>, restorer: nat)

  /** SKSS_Per_Signal. */
  datatype Skss = Skss(handler: Handler, flags: set<Flag>)

  /** A disposition as the kernel keeps it. */
  datatype KAction = KAction(handler: Handler, flags: set<Flag>, mask: set<Signal>, restorer: nat)

  /** The parts of a ThreadState that signals touch; `exiting` is VG_(is_exiting). */
  datatype Thread = Thread(mask: set<Signal>, tmp: set<Signal>, exiting: bool)

  datatype How = Block | Unblock | SetMask | Unknown

  /** What happens to a thread that a signal is delivered to. */
  datatype Outcome = Nothing | DefaultAction | Frame(fn: Handler)

  const FULL: set<Signal> := set s: Signal | 1 <= s <= NSIG
  const MY_SIGRETURN: nat := 1

  /** The two signals that nobody can catch or block. */
  const UNSTOPPABLE: set<Signal> := {SIGKILL, SIGSTOP}

  function Range(sig: Signal): bool { 1 <= sig <= NSIG }

  // ----- from the client's view to the kernel's

  /** The heart of calculate_SKSS_from_SCSS: what the kernel is to be told about one signal. */
  function Required(sig: Signal, s: Scss, vgKill: Signal): Skss {
    var handler :=
      if sig == SIGKILL || sig == SIGSTOP then Dfl
      else if sig in {SIGSEGV, SIGBUS, SIGFPE, SIGILL, SIGTRAP} then SyncHandler
      else if sig in {SIGCONT, SIGCHLD, SIGWINCH, SIGURG} then
        if s.handler == Dfl || s.handler == Ign then s.handler else AsyncHandler
      else if sig == vgKill then VgKillHandler
      else if s.handler == Ign then Ign
      else AsyncHandler;
    Skss(handler, s.flags * {NoCldStop, NoCldWait} + {Restart, SigInfo, Restorer})
  }

  /** The kernel's disposition for an entry. */
  function Told(s: Skss): KAction { KAction(s.handler, s.flags, FULL - UNSTOPPABLE, MY_SIGRETURN) }

  /** The conditions under which sigaction is refused. */
  predicate Refused(signo: Signal, maxSignal: Signal, new_: Option<Scss>) {
    || signo < 1 || signo > maxSignal
    || (signo > maxSignal - 1 && new_.Some? && new_.value.handler != Dfl && new_.value.handler != Ign)
    || ((signo == SIGKILL || signo == SIGSTOP) && new_.Some? && new_.value.handler != Dfl)
  }

  /** What SCSS records of a request. */
  function Recorded(new_: Scss): Scss { new_.(mask := new_.mask - UNSTOPPABLE) }

  ghost predicate CleanEntry(sig: Signal, s: Scss, vgKill: Signal) {
    && (sig == SIGKILL || sig == SIGSTOP ==> s.handler == Dfl)
    && (sig == vgKill ==> s.handler == Dfl || s.handler == Ign)
    && (sig != vgKill ==> s.mask !! UNSTOPPABLE)
  }

  class SignalState {
    /** Entry 0 of each table is not used. */
    const scss: array<Scss>
    const skss: array<Skss>
    /** The kernel's own table. */
    const kernel: array<KAction>
    const threads: array<Thread>
    var maxSignal: Signal

    ghost predicate Shaped()
      reads this
    {
      scss.Length == NSIG + 1 && skss.Length == NSIG + 1 && kernel.Length == NSIG + 1 && SIGSYS <= maxSignal <= NSIG
    }

    /** SKSS is the function of SCSS. */
    ghost predicate Derived()
      requires Shaped()
      reads this, scss, skss
    {
      forall sig :: Range(sig) ==> skss[sig] == Required(sig, scss[sig], maxSignal)
    }

    /** The kernel has been told, for every usable signal but the two. */
    ghost predicate InKernel()
      requires Shaped()
      reads this, skss, kernel
    {
      forall sig :: 1 <= sig <= maxSignal && sig !in UNSTOPPABLE ==> kernel[sig] == Told(skss[sig])
    }

    /** The client's view never has a handler for SIGKILL or SIGSTOP, nor for the internal kill signal; and only the
        internal kill signal's own mask may hold SIGKILL and SIGSTOP. */
    ghost predicate Clean()
      requires Shaped()
      reads this, scss
    {
      forall sig :: Range(sig) ==> CleanEntry(sig, scss[sig], maxSignal)
    }

    /** No thread blocks SIGKILL or SIGSTOP. */
    ghost predicate Stoppable()
      reads threads
    {
      forall t :: 0 <= t < threads.Length ==> threads[t].mask !! UNSTOPPABLE && threads[t].tmp !! UNSTOPPABLE
    }

    ghost predicate Valid()
      reads this, scss, skss, kernel, threads
    {
      Shaped() && Derived() && InKernel() && Clean() && Stoppable()
    }

    // ----- SKSS and the kernel

    /** calculate_SKSS_from_SCSS. False stands for a failed sanity check. */
    method CalculateSkss() returns (ok: bool)
      requires Shaped()
      modifies skss
      ensures Derived() && ok
    {
      for i := 1 to NSIG + 1
        invariant forall sig :: 1 <= sig < i ==> skss[sig] == Required(sig, scss[sig], maxSignal)
      {
        var s := scss[i];
        var handler;
        if i == SIGSEGV || i == SIGBUS || i == SIGFPE || i == SIGILL || i == SIGTRAP {
          handler := SyncHandler;
        } else if i == SIGCONT || i == SIGCHLD || i == SIGWINCH || i == SIGURG {
          if s.handler == Dfl {
            handler := Dfl;
          } else if s.handler == Ign {
            handler := Ign;
          } else {
            handler := AsyncHandler;
          }
        } else if i == maxSignal {
          handler := VgKillHandler;
        } else if s.handler == Ign {
          handler := Ign;
        } else {
          handler := AsyncHandler;
        }
        var flags: set<Flag> := s.flags * {NoCldStop, NoCldWait};
        flags := flags + {Restart};
        flags := flags + {SigInfo};
        flags := flags + {Restorer};
        skss[i] := Skss(if i != SIGKILL && i != SIGSTOP then handler else Dfl, flags);
        assert flags == s.flags * {NoCldStop, NoCldWait} + {Restart, SigInfo, Restorer};
      }
      ok := skss[SIGKILL].handler == Dfl && skss[SIGSTOP].handler == Dfl;
    }

    /** The kernel's side of rt_sigaction, which drops SIGKILL and SIGSTOP from masks. */
    method KernelSigaction(sig: Signal, act: KAction) returns (old_: KAction)
      requires Shaped() && Range(sig)
      modifies kernel
      ensures old_ == old(kernel[sig]) && kernel[..] == old(kernel[..])[sig := act.(mask := act.mask - UNSTOPPABLE)]
    {
      old_ := kernel[sig];
      kernel[sig] := act.(mask := act.mask - UNSTOPPABLE);
    }

    /** handle_SCSS_change. A lazy update tells the kernel only what has changed, and checks what the kernel says the
        old disposition was; it leads to the same state as a forced one, and the checks never fail. */
    method HandleScssChange(force: bool) returns (ok: bool)
      requires Shaped() && (force || InKernel())
      modifies skss, kernel
      ensures Derived() && InKernel() && ok
      ensures forall sig :: Range(sig) && (sig > maxSignal || sig in UNSTOPPABLE) ==> kernel[sig] == old(kernel[sig])
    {
      var skssOld := skss[..];
      ok := CalculateSkss();
      ghost var k0 := kernel[..];
      for sig := 1 to maxSignal + 1
        invariant ok && Derived()
        invariant forall t :: 1 <= t < sig && t !in UNSTOPPABLE ==> kernel[t] == Told(skss[t])
        invariant forall t :: Range(t) && (t >= sig || t in UNSTOPPABLE) ==> kernel[t] == k0[t]
      {
        if sig == SIGKILL || sig == SIGSTOP {
          continue;
        }
        if !force && skssOld[sig].handler == skss[sig].handler && skssOld[sig].flags == skss[sig].flags {
          assert skssOld[sig] == skss[sig];
          continue;
        }
        var ksa := KAction(skss[sig].handler, skss[sig].flags, FULL, MY_SIGRETURN);
        ksa := ksa.(mask := ksa.mask - {SIGKILL});
        ksa := ksa.(mask := ksa.mask - {SIGSTOP});
        assert ksa.(mask := ksa.mask - UNSTOPPABLE) == Told(skss[sig]);
        var ksaOld := KernelSigaction(sig, ksa);
        if !force {
          assert ksaOld == Told(skssOld[sig]);
          ok := ok && ksaOld.handler == skssOld[sig].handler && ksaOld.flags == skssOld[sig].flags &&
                ksaOld.restorer == MY_SIGRETURN;
          ksaOld := ksaOld.(mask := ksaOld.mask + {SIGKILL});
          ksaOld := ksaOld.(mask := ksaOld.mask + {SIGSTOP});
          ok := ok && ksaOld.mask == FULL;
        }
      }
    }

    // ----- requests of the client

    /** VG_(do_sys_sigaction). `res` is false for EINVAL; `ok` is false if an assertion failed. */
    method DoSysSigaction(signo: Signal, newAct: Option<Scss>) returns (ok: bool, res: bool, oldAct: Option<Scss>)
      requires Valid()
      modifies scss, skss, kernel
      ensures Valid() && ok && (res <==> !Refused(signo, maxSignal, newAct))
      ensures !res ==> oldAct == None && scss[..] == old(scss[..])
      ensures res ==> oldAct == Some(old(scss[signo]))
      ensures res ==> scss[..] == if newAct.Some? then old(scss[..])[signo := Recorded(newAct.value)] else old(scss[..])
      ensures newAct.None? || !res ==> skss[..] == old(skss[..]) && kernel[..] == old(kernel[..])
      ensures forall sig :: Range(sig) && (sig > maxSignal || sig in UNSTOPPABLE) ==> kernel[sig] == old(kernel[sig])
    {
      ok := true;
      if signo < 1 || signo > maxSignal {
        return ok, false, None;
      }
      if signo > maxSignal - 1 && newAct.Some? && !(newAct.value.handler == Dfl || newAct.value.handler == Ign) {
        return ok, false, None;
      }
      if (signo == SIGKILL || signo == SIGSTOP) && newAct.Some? && newAct.value.handler != Dfl {
        return ok, false, None;
      }
      oldAct := Some(scss[signo]);
      if newAct.Some? {
        var entry := newAct.value;
        entry := entry.(mask := entry.mask - {SIGKILL});
        entry := entry.(mask := entry.mask - {SIGSTOP});
        assert entry == Recorded(newAct.value);
        scss[signo] := entry;
        ok := HandleScssChange(false);
      }
      res := true;
    }

    /** VG_(set_default_handler). */
    method SetDefaultHandler(signo: Signal) returns (ok: bool)
      requires Valid() && 1 <= signo <= maxSignal
      modifies scss, skss, kernel
      ensures Valid() && ok && scss[..] == old(scss[..])[signo := Scss(Dfl, {}, {}, 0)]
      ensures forall sig :: Range(sig) && (sig > maxSignal || sig in UNSTOPPABLE) ==> kernel[sig] == old(kernel[sig])
    {
      var res, oldAct;
      ok, res, oldAct := DoSysSigaction(signo, Some(Scss(Dfl, {}, {}, 0)));
      assert Recorded(Scss(Dfl, {}, {}, 0)) == Scss(Dfl, {}, {}, 0);
    }

    /** VG_(do_sys_sigprocmask), with do_setmask. `res` is false for EINVAL. */
    method DoSysSigprocmask(tid: nat, how: How, set_: Option<set<Signal>>)
      returns (res: bool, oldSet: Option<set<Signal>>)
      requires Valid() && tid < threads.Length
      modifies threads
      ensures Valid() && (res <==> how != Unknown) && (!res ==> oldSet == None)
      ensures res ==> oldSet == Some(old(threads[tid].mask))
      ensures !res || set_.None? ==> threads[..] == old(threads[..])
      ensures res && set_.Some? ==>
        var m := NewMask(how, old(threads[tid].mask), set_.value);
        threads[..] == old(threads[..])[tid := old(threads[tid]).(mask := m, tmp := m)]
    {
      if how == Unknown {
        return false, None;
      }
      oldSet := Some(threads[tid].mask);
      if set_.Some? {
        var m := Combined(how, threads[tid].mask, set_.value);
        m := m - {SIGKILL};
        m := m - {SIGSTOP};
        assert m == NewMask(how, threads[tid].mask, set_.value);
        threads[tid] := threads[tid].(mask := m, tmp := m);
      }
      res := true;
    }

    /** The child inherits its parent's mask (syswrap, x86 and others). */
    method CloneThread(parent: nat, child: nat)
      requires Valid() && parent < threads.Length && child < threads.Length
      modifies threads
      ensures Valid()
      ensures threads[..] ==
          old(threads[..])[child := Thread(old(threads[parent].mask), old(threads[parent].mask), false)]
    {
      threads[child] := Thread(threads[parent].mask, threads[parent].mask, false);
    }

    // ----- delivery

    /** A thread starts to exit. */
    method StartExit(tid: nat)
      requires Valid() && tid < threads.Length
      modifies threads
      ensures Valid() && threads[..] == old(threads[..])[tid := old(threads[tid]).(exiting := true)]
    {
      threads[tid] := threads[tid].(exiting := true);
    }

    /** deliver_signal. `ok` is false for the failed assertion that a thread which gets the internal kill signal is
        exiting; then nothing changes. A frame for the client's handler is built only if there is one; an ignored signal
        that is delivered all the same has its default action. */
    method DeliverSignal(tid: nat, sigNo: Signal) returns (ok: bool, out: Outcome)
      requires Valid() && tid < threads.Length && 1 <= sigNo <= maxSignal
      modifies scss, skss, kernel, threads
      ensures Valid() && (ok <==> (sigNo == maxSignal ==> old(threads[tid].exiting)))
      ensures out == OutcomeOf(sigNo, old(scss[sigNo]), maxSignal)
      ensures out.Nothing? <==> sigNo == maxSignal
      ensures out.DefaultAction? <==> sigNo != maxSignal && (old(scss[sigNo]).handler in {Dfl, Ign})
      ensures out.Frame? ==> out.fn == old(scss[sigNo]).handler
      ensures scss[..] ==
                if out.Frame? && OneShot in old(scss[sigNo]).flags
                then old(scss[..])[sigNo := old(scss[sigNo]).(handler := Dfl)]
                else old(scss[..])
      ensures threads[..] ==
                if out.Frame? then old(threads[..])[tid := Entering(sigNo, old(scss[sigNo]), old(threads[tid]))]
                else old(threads[..])
      ensures forall sig :: Range(sig) && (sig > maxSignal || sig in UNSTOPPABLE) ==> kernel[sig] == old(kernel[sig])
    {
      ok := true;
      if sigNo == maxSignal {
        return threads[tid].exiting, Nothing;
      }
      var handlerFn := scss[sigNo].handler;
      if handlerFn == Ign {
        handlerFn := Dfl;
      }
      if handlerFn == Dfl {
        return ok, DefaultAction;
      }
      out := Frame(handlerFn);
      if OneShot in scss[sigNo].flags {
        scss[sigNo] := scss[sigNo].(handler := Dfl);
        ok := HandleScssChange(false);
      }
      var mask := threads[tid].tmp;
      if NoMask !in scss[sigNo].flags {
        mask := mask + scss[sigNo].mask;
        mask := mask + {sigNo};
        threads[tid] := threads[tid].(mask := mask, tmp := mask);
      } else {
        threads[tid] := threads[tid].(mask := mask);
      }
    }

    /** A synchronous fault, real or synthesized: it cannot be blocked. If the thread blocks it, the handler is reset
        first, so that the default action is taken. */
    method ForceFault(tid: nat, sigNo: Signal) returns (ok: bool, out: Outcome)
      requires Valid() && tid < threads.Length && 1 <= sigNo < maxSignal
      modifies scss, skss, kernel, threads
      ensures Valid() && ok && out != Nothing
      ensures sigNo in old(threads[tid].mask) ==> out == DefaultAction && threads[..] == old(threads[..])
                                                  && scss[..] == old(scss[..])[sigNo := Scss(Dfl, {}, {}, 0)]
      ensures sigNo !in old(threads[tid].mask) ==> out == OutcomeOf(sigNo, old(scss[sigNo]), maxSignal)
      ensures sigNo !in old(threads[tid].mask) ==>
        scss[..] ==
          if out.Frame? && OneShot in old(scss[sigNo]).flags
          then old(scss[..])[sigNo := old(scss[sigNo]).(handler := Dfl)]
          else old(scss[..])
      ensures sigNo !in old(threads[tid].mask) ==>
        threads[..] == if out.Frame? then old(threads[..])[tid := Entering(sigNo, old(scss[sigNo]), old(threads[tid]))]
                       else old(threads[..])
      ensures forall sig :: Range(sig) && (sig > maxSignal || sig in UNSTOPPABLE) ==> kernel[sig] == old(kernel[sig])
    {
      ok := true;
      if sigNo in threads[tid].mask {
        ok := SetDefaultHandler(sigNo);
      }
      var fine;
      fine, out := DeliverSignal(tid, sigNo);
      ok := ok && fine;
    }

    /** The delivering part of VG_(poll_signals) and async_signalhandler: an ignored signal is dropped. `ok` as for
        delivery. */
    method Poll(tid: nat, sigNo: Signal) returns (ok: bool, out: Outcome)
      requires Valid() && tid < threads.Length && 1 <= sigNo <= maxSignal
      modifies scss, skss, kernel, threads
      ensures Valid()
      ensures ok <==> old(scss[sigNo]).handler == Ign || (sigNo == maxSignal ==> old(threads[tid].exiting))
      ensures out == if old(scss[sigNo]).handler == Ign then Nothing else OutcomeOf(sigNo, old(scss[sigNo]), maxSignal)
      ensures scss[..] ==
                if out.Frame? && OneShot in old(scss[sigNo]).flags
                then old(scss[..])[sigNo := old(scss[sigNo]).(handler := Dfl)]
                else old(scss[..])
      ensures threads[..] ==
                if out.Frame? then old(threads[..])[tid := Entering(sigNo, old(scss[sigNo]), old(threads[tid]))]
                else old(threads[..])
      ensures forall sig :: Range(sig) && (sig > maxSignal || sig in UNSTOPPABLE) ==> kernel[sig] == old(kernel[sig])
    {
      ok, out := true, Nothing;
      if scss[sigNo].handler != Ign {
        ok, out := DeliverSignal(tid, sigNo);
      }
    }

    // ----- startup

    /** VG_(sigstartup_actions), in a process whose kernel answers queries about the first `queries` signals and accepts
        handlers for the first `accepts`. What is inherited respects the kernel's own rules. */
    constructor (inherited: seq<KAction>, savedMask: set<Signal>, nThreads: nat, queries: nat, accepts: nat)
      requires |inherited| == NSIG + 1 && nThreads > 1 && SIGSYS <= queries <= NSIG && SIGSYS <= accepts <= NSIG
      requires forall sig :: Range(sig) ==> inherited[sig].mask !! UNSTOPPABLE
      requires inherited[SIGKILL].handler == Dfl && inherited[SIGSTOP].handler == Dfl && savedMask !! UNSTOPPABLE
      ensures Valid() && threads.Length == nThreads && maxSignal == if queries < accepts then queries else accepts
      ensures forall sig :: 1 <= sig < maxSignal ==>
        scss[sig] == Scss(inherited[sig].handler, inherited[sig].flags, inherited[sig].mask, inherited[sig].restorer)
      ensures scss[maxSignal].handler == Ign && scss[maxSignal].flags == {SigInfo}
      ensures scss[maxSignal].restorer == inherited[maxSignal].restorer
      ensures forall t :: t in scss[maxSignal].mask <==> 1 <= t <= 64
      ensures threads[..] == seq(nThreads,
                                 i => if i == 1 then Thread(savedMask, savedMask, false) else Thread({}, {}, false))
      ensures fresh(scss) && fresh(skss) && fresh(kernel) && fresh(threads)
      ensures kernel[SIGKILL] == inherited[SIGKILL] && kernel[SIGSTOP] == inherited[SIGSTOP]
    {
      hide SignalState.Derived, SignalState.InKernel, Required;
      var kernel1 := new KAction[NSIG + 1](i requires 0 <= i < NSIG + 1 => inherited[i]);
      var skss1 := new Skss[NSIG + 1](_ => Skss(Dfl, {}));
      var threads1 := new Thread[nThreads](_ => Thread({}, {}, false));
      var scss1, max := CopyHandlers(kernel1, queries, accepts);
      scss1[max] := Scss(Ign, {SigInfo}, FULL, scss1[max].restorer);
      threads1[1] := Thread(savedMask, savedMask, false);
      scss, skss, kernel, threads, maxSignal := scss1, skss1, kernel1, threads1, max;
      new;
      CleanAtStart(scss[..], inherited, max);
      var ok := HandleScssChange(true);
    }
  }

  /** What is inherited, with the entry for the internal kill signal, is clean. */
  lemma CleanAtStart(scss: seq<Scss>, inherited: seq<KAction>, max: Signal)
    requires |inherited| == |scss| == NSIG + 1 && SIGSYS <= max <= NSIG
    requires forall sig :: Range(sig) ==> inherited[sig].mask !! UNSTOPPABLE
    requires inherited[SIGKILL].handler == Dfl && inherited[SIGSTOP].handler == Dfl
    requires scss[max].handler == Ign
    requires forall sig :: Range(sig) && sig != max ==>
      scss[sig] == if sig < max then FromKernel(inherited[sig]) else Scss(Dfl, {}, {}, 0)
    ensures forall sig :: Range(sig) ==> CleanEntry(sig, scss[sig], max)
  {
  }

  /** The loop of VG_(sigstartup_actions): copy the per-signal settings, as far as the kernel has usable signals. */
  method CopyHandlers(kernel: array<KAction>, queries: nat, accepts: nat) returns (scss: array<Scss>, max: nat)
    requires kernel.Length == NSIG + 1 && SIGSYS <= queries <= NSIG && SIGSYS <= accepts <= NSIG
    modifies kernel
    ensures fresh(scss) && scss.Length == NSIG + 1 && kernel[..] == old(kernel[..])
    ensures max == if queries < accepts then queries else accepts
    ensures forall sig :: Range(sig) ==>
      scss[sig] == if sig <= max then FromKernel(kernel[sig]) else Scss(Dfl, {}, {}, 0)
  {
    scss := new Scss[NSIG + 1](_ => Scss(Dfl, {}, {}, 0));
    max := NSIG;
    var i := 1;
    while i <= NSIG
      invariant 1 <= i <= NSIG + 1 && i - 1 <= queries && i - 1 <= accepts && (i > 1 ==> max == i - 1)
      invariant kernel[..] == old(kernel[..]) && fresh(scss) && scss.Length == NSIG + 1
      invariant forall sig :: Range(sig) ==>
        scss[sig] == if sig < i then FromKernel(kernel[sig]) else Scss(Dfl, {}, {}, 0)
    {
      if i > queries {
        break;
      }
      var sa := kernel[i];
      if i >= SIGRTMIN {
        if i > accepts {
          break;
        }
        kernel[i] := KAction(SyncHandler, {SigInfo}, FULL - UNSTOPPABLE, 0);
        kernel[i] := sa;
      }
      max := i;
      scss[i] := FromKernel(sa);
      i := i + 1;
    }
  }

  function FromKernel(sa: KAction): Scss { Scss(sa.handler, sa.flags, sa.mask, sa.restorer) }

  /** do_sigprocmask_bitops. */
  function Combined(how: How, old_: set<Signal>, set_: set<Signal>): set<Signal> {
    match how
    case Block => old_ + set_
    case Unblock => old_ - set_
    case SetMask => set_
    case Unknown => old_
  }

  function NewMask(how: How, old_: set<Signal>, set_: set<Signal>): set<Signal>
  {
    Combined(how, old_, set_) - UNSTOPPABLE
  }

  function OutcomeOf(sig: Signal, s: Scss, vgKill: Signal): Outcome {
    if sig == vgKill then Nothing
    else if s.handler == Dfl || s.handler == Ign then DefaultAction
    else Frame(s.handler)
  }

  /** The internal kill signal for a thread that is not exiting. */
  predicate Unexpected(sig: Signal, vgKill: Signal, t: Thread) { sig == vgKill && !t.exiting }

  /** The masks of a thread that enters a handler. */
  function Entering(sig: Signal, s: Scss, t: Thread): Thread {
    if NoMask in s.flags then t.(mask := t.tmp)
    else var m := t.tmp + s.mask + {sig}; t.(mask := m, tmp := m)
  }
}
