/** The signal queue of lib/sigevent.c: an asynchronous handler raises flags that a
    scanning main loop lowers before it runs the user's handlers.  Every read or write of
    a flag is one step, and steps of any number of handler activations interleave freely
    with steps of the main loop. */
module SigEvent {

  /** Where the main thread stands in quagga_sigevent_process. */
  datatype Pc =
    | Idle                // outside the function
    | Enter               // about to read the master flag
    | ClearMaster         // read it as set, about to clear it
    | Test(i: nat)        // about to read flag i, or to return when i is past the last
    | Clear(i: nat)       // read flag i as set, about to clear it
    | Dispatch(i: nat)    // flag i cleared, about to call user handler i

  /** One run of quagga_signal_handler: `next` is the entry it looks at next. */
  datatype Activation = Activation(signo: int, next: nat)

  /** The flags, the threads' positions, and what an observer has counted. */
  datatype State = State(
    caught: seq<bool>, master: bool, pc: Pc, active: seq<Activation>,
    arrivals: seq<nat>,   // handler activations started for entry i
    begun: seq<nat>,      // calls of user handler i
    owed: seq<bool>,      // entry i's signal arrived since its user handler last began
    finished: nat)         // completed calls of quagga_sigevent_process

  datatype Event = Arrive(signo: int) | Handler(k: nat) | Main

  function Init(n: nat): State {
    State(seq(n, _ => false), false, Idle, [], seq(n, _ => 0), seq(n, _ => 0), seq(n, _ => false), 0)
  }

  ghost predicate Shape(signals: seq<int>, s: State) {
    var n := |signals|;
    && |s.caught| == |s.arrivals| == |s.begun| == |s.owed| == n
    && (s.pc.Test? ==> s.pc.i <= n)
    && (s.pc.Clear? || s.pc.Dispatch? ==> s.pc.i < n)
    && forall k | 0 <= k < |s.active| :: s.active[k].next <= n
  }

  function Arrived(signals: seq<int>, s: State, signo: int): State
    requires Shape(signals, s)
  {
    s.(active := s.active + [Activation(signo, 0)],
       arrivals := seq(|signals|, i requires 0 <= i < |signals| =>
         if signals[i] == signo then s.arrivals[i] + 1 else s.arrivals[i]),
       owed := seq(|signals|, i requires 0 <= i < |signals| => s.owed[i] || signals[i] == signo))
  }

  /** One step of activation k: look at one entry, or set the master flag and finish. */
  function HandlerStep(signals: seq<int>, s: State, k: nat): State
    requires Shape(signals, s)
  {
    if k >= |s.active| then s
    else
      var a := s.active[k];
      if a.next < |signals| then
        s.(active := s.active[k := a.(next := a.next + 1)],
           caught := if signals[a.next] == a.signo then s.caught[a.next := true] else s.caught)
      else
        s.(active := s.active[..k] + s.active[k + 1..], master := true)
  }

  function MainStep(signals: seq<int>, s: State): State
    requires Shape(signals, s)
  {
    match s.pc
    case Idle => s.(pc := Enter)
    case Enter => if s.master then s.(pc := ClearMaster) else s.(pc := Idle, finished := s.finished + 1)
    case ClearMaster => s.(master := false, pc := Test(0))
    case Test(i) =>
      if i == |signals| then s.(pc := Idle, finished := s.finished + 1)
      else if s.caught[i] then s.(pc := Clear(i))
      else s.(pc := Test(i + 1))
    case Clear(i) => s.(caught := s.caught[i := false], pc := Dispatch(i))
    case Dispatch(i) => s.(begun := s.begun[i := s.begun[i] + 1], owed := s.owed[i := false], pc := Test(i + 1))
  }

  function Next(signals: seq<int>, s: State, e: Event): (r: State)
    requires Shape(signals, s)
    ensures Shape(signals, r)
  {
    match e
    case Arrive(signo) => Arrived(signals, s, signo)
    case Handler(k) => HandlerStep(signals, s, k)
    case Main => MainStep(signals, s)
  }

  /** The state after a sequence of events; every sequence of events is a run. */
  function Exec(signals: seq<int>, s: State, es: seq<Event>): (r: State)
    requires Shape(signals, s)
    ensures Shape(signals, r)
    decreases |es|
  {
    if es == [] then s else Exec(signals, Next(signals, s, es[0]), es[1..])
  }

  // ----- Invariants -----

  /** Activation a will still store the flag of entry i. */
  predicate WillStore(signals: seq<int>, a: Activation, i: nat)
    requires i < |signals|
  {
    a.signo == signals[i] && a.next <= i
  }

  /** The current scan has yet to look at flag i. */
  predicate ScanAhead(pc: Pc, i: nat) {
    match pc
    case Test(j) => j <= i
    case Clear(j) => j <= i
    case Dispatch(j) => j < i
    case _ => false
  }

  /** No arrival is lost: an owed entry has its flag set, is about to be dispatched, or has
      an activation that has not reached it. */
  ghost predicate NoneLost(signals: seq<int>, s: State)
    requires Shape(signals, s)
  {
    forall i | 0 <= i < |signals| && s.owed[i] ::
      s.caught[i] || s.pc == Dispatch(i)
      || exists k | 0 <= k < |s.active| :: WillStore(signals, s.active[k], i)
  }

  /** Activation a handles the signal of entry i. */
  predicate Handles(signals: seq<int>, a: Activation, i: nat)
    requires i < |signals|
  {
    a.signo == signals[i]
  }

  /** No set flag is stranded: a later call will look at it, an activation of its own signal has
      yet to set the master flag, or the current scan will look at it. */
  ghost predicate NoneStranded(signals: seq<int>, s: State)
    requires Shape(signals, s)
  {
    forall i | 0 <= i < |signals| && s.caught[i] ::
      s.master || ScanAhead(s.pc, i) || exists k | 0 <= k < |s.active| :: Handles(signals, s.active[k], i)
  }

  /** How many activations will still store flag i. */
  function Storers(signals: seq<int>, active: seq<Activation>, i: nat): nat
    requires i < |signals|
  {
    if active == [] then 0
    else (if WillStore(signals, active[0], i) then 1 else 0) + Storers(signals, active[1..], i)
  }

  function Pending(s: State, i: nat): nat
    requires i < |s.caught|
  {
    (if s.caught[i] then 1 else 0) + (if s.pc == Dispatch(i) then 1 else 0)
  }

  /** No dispatch is invented: each one, begun or in the making, has an arrival of its own. */
  ghost predicate NoneInvented(signals: seq<int>, s: State)
    requires Shape(signals, s)
  {
    forall i | 0 <= i < |signals| ::
      s.begun[i] + Pending(s, i) + Storers(signals, s.active, i) <= s.arrivals[i]
  }

  ghost predicate Inv(signals: seq<int>, s: State) {
    && Shape(signals, s)
    && (s.pc == ClearMaster ==> s.master)
    && (s.pc.Clear? ==> s.caught[s.pc.i])
    && NoneLost(signals, s) && NoneStranded(signals, s) && NoneInvented(signals, s)
  }

  // ----- Counting activations -----

  lemma {:induction false} StorersConcat(signals: seq<int>, x: seq<Activation>, y: seq<Activation>, i: nat)
    requires i < |signals|
    ensures Storers(signals, x + y, i) == Storers(signals, x, i) + Storers(signals, y, i)
  {
    if x == [] {
      assert x + y == y;
    } else {
      assert (x + y)[1..] == x[1..] + y;
      StorersConcat(signals, x[1..], y, i);
    }
  }

  lemma StorersSplit(signals: seq<int>, active: seq<Activation>, k: nat, i: nat)
    requires i < |signals| && k < |active|
    ensures Storers(signals, active, i)
         == Storers(signals, active[..k], i) + Storers(signals, [active[k]], i) + Storers(signals, active[k + 1..], i)
  {
    assert active == active[..k] + [active[k]] + active[k + 1..];
    StorersConcat(signals, active[..k] + [active[k]], active[k + 1..], i);
    StorersConcat(signals, active[..k], [active[k]], i);
  }

  // ----- Preservation -----

  lemma ArrivePreserves(signals: seq<int>, s: State, signo: int)
    requires Inv(signals, s)
    ensures Inv(signals, Arrived(signals, s, signo))
  {
    var a := Activation(signo, 0);
    var r := Arrived(signals, s, signo);
    forall i | 0 <= i < |signals|
      ensures r.begun[i] + Pending(r, i) + Storers(signals, r.active, i) <= r.arrivals[i]
    {
      StorersConcat(signals, s.active, [a], i);
    }
    forall i | 0 <= i < |signals| && r.owed[i]
      ensures r.caught[i] || r.pc == Dispatch(i) || exists k | 0 <= k < |r.active| :: WillStore(signals, r.active[k], i)
    {
      if signals[i] == signo {
        assert WillStore(signals, r.active[|s.active|], i);
      } else if !(s.caught[i] || s.pc == Dispatch(i)) {
        var k :| 0 <= k < |s.active| && WillStore(signals, s.active[k], i);
        assert r.active[k] == s.active[k];
      }
    }
    forall i | 0 <= i < |signals| && r.caught[i]
      ensures r.master || ScanAhead(r.pc, i) || exists k | 0 <= k < |r.active| :: Handles(signals, r.active[k], i)
    {
      if !(s.master || ScanAhead(s.pc, i)) {
        var k :| 0 <= k < |s.active| && Handles(signals, s.active[k], i);
        assert r.active[k] == s.active[k];
      }
    }
  }

  lemma HandlerKeepsCounts(signals: seq<int>, s: State, k: nat, i: nat)
    requires Inv(signals, s) && k < |s.active| && i < |signals|
    ensures var r := HandlerStep(signals, s, k);
            r.begun[i] + Pending(r, i) + Storers(signals, r.active, i) <= r.arrivals[i]
  {
    var a := s.active[k];
    var rest := if a.next < |signals| then [a.(next := a.next + 1)] else [];
    assert HandlerStep(signals, s, k).active == s.active[..k] + rest + s.active[k + 1..];
    StorersSplit(signals, s.active, k, i);
    StorersConcat(signals, s.active[..k] + rest, s.active[k + 1..], i);
    StorersConcat(signals, s.active[..k], rest, i);
  }

  /** A step of activation k strands no flag: it finishes only by setting the master flag. */
  lemma HandlerStrandsNone(signals: seq<int>, s: State, k: nat)
    requires Inv(signals, s) && k < |s.active|
    ensures NoneStranded(signals, HandlerStep(signals, s, k))
  {
    var r := HandlerStep(signals, s, k);
    var a := s.active[k];
    forall i | 0 <= i < |signals| && r.caught[i]
      ensures r.master || ScanAhead(r.pc, i) || exists j | 0 <= j < |r.active| :: Handles(signals, r.active[j], i)
    {
      if a.next < |signals| {
        if !s.caught[i] {
          assert Handles(signals, r.active[k], i);
        } else if !(s.master || ScanAhead(s.pc, i)) {
          var j :| 0 <= j < |s.active| && Handles(signals, s.active[j], i);
          assert Handles(signals, r.active[j], i);
        }
      }
    }
  }

  lemma HandlerPreserves(signals: seq<int>, s: State, k: nat)
    requires Inv(signals, s) && k < |s.active|
    ensures Inv(signals, HandlerStep(signals, s, k))
  {
    var r := HandlerStep(signals, s, k);
    var a := s.active[k];
    HandlerStrandsNone(signals, s, k);
    forall i | 0 <= i < |signals|
      ensures r.begun[i] + Pending(r, i) + Storers(signals, r.active, i) <= r.arrivals[i]
    {
      HandlerKeepsCounts(signals, s, k, i);
    }
    forall i | 0 <= i < |signals| && r.owed[i]
      ensures r.caught[i] || r.pc == Dispatch(i) || exists j | 0 <= j < |r.active| :: WillStore(signals, r.active[j], i)
    {
      if !(s.caught[i] || s.pc == Dispatch(i)) {
        var j :| 0 <= j < |s.active| && WillStore(signals, s.active[j], i);
        if j == k {
          assert !r.caught[i] ==> WillStore(signals, r.active[k], i);
        } else {
          var j' := if a.next == |signals| && j > k then j - 1 else j;
          assert r.active[j'] == s.active[j];
        }
      }
    }
  }

  lemma MainPreserves(signals: seq<int>, s: State)
    requires Inv(signals, s)
    ensures Inv(signals, MainStep(signals, s))
  {
    var r := MainStep(signals, s);
    assert r.active == s.active;
    forall i | 0 <= i < |signals| && r.owed[i]
      ensures r.caught[i] || r.pc == Dispatch(i) || exists k | 0 <= k < |r.active| :: WillStore(signals, r.active[k], i)
    {
      assert s.owed[i];
    }
  }

  /** Every step of either thread keeps the whole invariant. */
  lemma StepPreserves(signals: seq<int>, s: State, e: Event)
    requires Inv(signals, s)
    ensures Inv(signals, Next(signals, s, e))
  {
    match e
    case Arrive(signo) => ArrivePreserves(signals, s, signo);
    case Handler(k) => if k < |s.active| { HandlerPreserves(signals, s, k); }
    case Main => MainPreserves(signals, s);
  }

  lemma {:induction false} ExecPreserves(signals: seq<int>, s: State, es: seq<Event>)
    requires Inv(signals, s)
    ensures Inv(signals, Exec(signals, s, es))
    decreases |es|
  {
    if es != [] {
      StepPreserves(signals, s, es[0]);
      ExecPreserves(signals, Next(signals, s, es[0]), es[1..]);
    }
  }

  /** Safety of the protocol over every interleaving from the initial state. */
  lemma NoSignalLostOrInvented(signals: seq<int>, es: seq<Event>)
    ensures var s := Exec(signals, Init(|signals|), es);
            NoneLost(signals, s) && NoneStranded(signals, s)
            && forall i | 0 <= i < |signals| :: s.begun[i] <= s.arrivals[i]
  {
    ExecPreserves(signals, Init(|signals|), es);
    var s := Exec(signals, Init(|signals|), es);
    forall i | 0 <= i < |signals| ensures s.begun[i] <= s.arrivals[i] {
      assert s.begun[i] + Pending(s, i) + Storers(signals, s.active, i) <= s.arrivals[i];
    }
  }

  // ----- Delivery -----

  /** Since a state with `begun0` calls and `finished0` finished, handler i has been called or
      the call under way is still bound to call it. */
  predicate Bound(s: State, i: nat, begun0: nat, finished0: nat)
    requires i < |s.caught| && i < |s.begun|
  {
    || s.begun[i] > begun0
    || (&& s.begun[i] == begun0 && s.finished == finished0
        && (|| s.pc == Dispatch(i)
            || (s.caught[i] && (ScanAhead(s.pc, i) || (s.master && (s.pc.Idle? || s.pc.Enter? || s.pc.ClearMaster?))))))
  }

  lemma {:induction false} BoundPersists(signals: seq<int>, s: State, es: seq<Event>, i: nat, begun0: nat,
                                         finished0: nat)
    requires Shape(signals, s) && i < |signals| && Bound(s, i, begun0, finished0)
    ensures Bound(Exec(signals, s, es), i, begun0, finished0)
    decreases |es|
  {
    if es != [] {
      BoundPersists(signals, Next(signals, s, es[0]), es[1..], i, begun0, finished0);
    }
  }

  /** A process call that starts after a signal's own handler activations have finished
      dispatches the signal before it returns, whatever arrives meanwhile and whatever
      activations of other signals are unfinished. */
  lemma ProcessDelivers(signals: seq<int>, before: seq<Event>, after: seq<Event>, i: nat)
    requires i < |signals|
    requires var s := Exec(signals, Init(|signals|), before);
             && s.pc.Idle? && s.owed[i]
             && forall k | 0 <= k < |s.active| :: !Handles(signals, s.active[k], i)
    ensures var s := Exec(signals, Init(|signals|), before);
            var r := Exec(signals, s, after);
            r.finished > s.finished ==> r.begun[i] > s.begun[i]
  {
    var s := Exec(signals, Init(|signals|), before);
    ExecPreserves(signals, Init(|signals|), before);
    forall k | 0 <= k < |s.active| ensures !WillStore(signals, s.active[k], i) {
      assert !Handles(signals, s.active[k], i);
    }
    BoundPersists(signals, s, after, i, s.begun[i], s.finished);
  }

  function Remaining(signals: seq<int>, pc: Pc): nat {
    var n := |signals|;
    match pc
    case Idle => 3 * n + 4
    case Enter => 3 * n + 3
    case ClearMaster => 3 * n + 2
    case Test(j) => if j <= n then 3 * (n - j) + 1 else 0
    case Clear(j) => if j < n then 3 * (n - j) else 0
    case Dispatch(j) => if j < n then 3 * (n - j) - 1 else 0
  }

  function Mains(es: seq<Event>): nat {
    if es == [] then 0 else (if es[0].Main? then 1 else 0) + Mains(es[1..])
  }

  /** Every call returns: within a fixed number of its own steps, under any interleaving. */
  lemma {:induction false} ProcessReturns(signals: seq<int>, s: State, es: seq<Event>)
    requires Shape(signals, s)
    requires Mains(es) >= Remaining(signals, s.pc)
    ensures Exec(signals, s, es).finished > s.finished
    decreases |es|
  {
    var t := Next(signals, s, es[0]);
    if t.finished > s.finished {
      ReturnsGrow(signals, t, es[1..]);
    } else {
      ProcessReturns(signals, t, es[1..]);
    }
  }

  lemma {:induction false} ReturnsGrow(signals: seq<int>, s: State, es: seq<Event>)
    requires Shape(signals, s)
    ensures Exec(signals, s, es).finished >= s.finished
    decreases |es|
  {
    if es != [] {
      ReturnsGrow(signals, Next(signals, s, es[0]), es[1..]);
    }
  }

  // ----- Why the master flag is cleared before the scan -----

  /** The order the comment at lib/sigevent.c:100-102 forbids: scan first, clear the master
      flag afterwards. */
  function MainStepLate(signals: seq<int>, s: State): (r: State)
    requires Shape(signals, s)
    ensures Shape(signals, r)
  {
    match s.pc
    case Enter => if s.master then s.(pc := Test(0)) else s.(pc := Idle, finished := s.finished + 1)
    case Test(i) => if i == |signals| then s.(pc := ClearMaster) else MainStep(signals, s)
    case ClearMaster => s.(master := false, pc := Idle, finished := s.finished + 1)
    case _ => MainStep(signals, s)
  }

  /** A lone activation's steps, one after the other. */
  function Repeated(n: nat): seq<Event> {
    seq(n, _ => Handler(0))
  }

  /** An owed signal that no thread will act on: its flag is set behind a clear master flag. */
  predicate Lost(signals: seq<int>, s: State, i: nat)
    requires Shape(signals, s) && i < |signals|
  {
    s.owed[i] && s.caught[i] && !s.master && s.active == [] && (s.pc.Idle? || s.pc.Enter?)
  }

  /** The state after n steps of the reversed order, with no further arrival. */
  function LateSteps(signals: seq<int>, s: State, n: nat): (r: State)
    requires Shape(signals, s)
    ensures Shape(signals, r)
    decreases n
  {
    if n == 0 then s else LateSteps(signals, MainStepLate(signals, s), n - 1)
  }

  /** A lost signal stays lost, and no user handler is called, through any number of calls
      until another signal arrives. */
  lemma {:induction false} LostStaysLost(signals: seq<int>, s: State, i: nat, n: nat)
    requires Shape(signals, s) && i < |signals| && Lost(signals, s, i)
    ensures var r := LateSteps(signals, s, n); Lost(signals, r, i) && r.begun == s.begun
    decreases n
  {
    if n > 0 { LostStaysLost(signals, MainStepLate(signals, s), i, n - 1); }
  }

  /** With the order reversed, a signal that arrives between the end of the scan and the
      clearing of the master flag is lost until another signal arrives: no number of further
      calls runs its handler. */
  lemma {:induction false} LateClearLosesSignal(signals: seq<int>, s: State, i: nat)
    requires Shape(signals, s) && i < |signals| && s.active == [] && s.pc == Test(|signals|)
    ensures var a := Exec(signals, Arrived(signals, s, signals[i]), Repeated(|signals| + 1));
            var r := MainStepLate(signals, MainStepLate(signals, a));
            && Lost(signals, r, i) && r.begun == s.begun
            && forall n: nat :: Lost(signals, LateSteps(signals, r, n), i) && LateSteps(signals, r, n).begun == s.begun
  {
    var b := Arrived(signals, s, signals[i]);
    assert WillStore(signals, b.active[0], i);
    LoneHandlerFinishes(signals, b, signals[i], |signals| + 1);
    var a := Exec(signals, b, Repeated(|signals| + 1));
    LateClearIgnoresFlag(signals, a, i);
    var r := MainStepLate(signals, MainStepLate(signals, a));
    forall n: nat ensures Lost(signals, LateSteps(signals, r, n), i) && LateSteps(signals, r, n).begun == s.begun {
      LostStaysLost(signals, r, i, n);
    }
  }

  lemma LateClearIgnoresFlag(signals: seq<int>, s: State, i: nat)
    requires Shape(signals, s) && i < |signals| && s.active == [] && s.pc == Test(|signals|)
    requires s.caught[i] && s.owed[i]
    ensures var r := MainStepLate(signals, MainStepLate(signals, s));
            Lost(signals, r, i) && r.begun == s.begun
  {
  }

  lemma {:induction false} LoneHandlerFinishes(signals: seq<int>, s: State, signo: int, n: nat)
    requires Shape(signals, s) && |s.active| == 1 && s.active[0].signo == signo
    requires n == |signals| + 1 - s.active[0].next
    ensures var r := Exec(signals, s, Repeated(n));
            && r.active == [] && r.master && r.pc == s.pc && r.owed == s.owed && r.begun == s.begun
            && forall i | 0 <= i < |signals| :: r.caught[i] == (s.caught[i] || WillStore(signals, s.active[0], i))
    decreases n
  {
    var es: seq<Event> := Repeated(n);
    var t := HandlerStep(signals, s, 0);
    assert es[1..] == Repeated(n - 1);
    if s.active[0].next < |signals| {
      LoneHandlerFinishes(signals, t, signo, n - 1);
    } else {
      assert es[1..] == [];
    }
  }
}
