/**
 Buyer::wait_for_signature_or_time_lock: the main thread polls two atomic flags while one thread
 forces the timed commitments and redeems, and another waits for the signature and factors.  Every
 access to shared state is one step; any thread may take the next one.  An exception that escapes a
 thread ends the program.  The flags are locals of the call, so a thread that is detached sets its
 flag in a frame that is gone; `deadWrite` records that this has happened.
 */
module BuyerThreads {

  datatype TimeLockThread = Forcing(j: nat) | Redeeming(j: nat) | GotMoney | LockDone | AsleepForever

  datatype SignatureThread = Waiting | Reading | Stored | SignatureDone

  datatype MainThread =
    | ReadSignatureFlag
    | ReadTimeLockFlag
    | LeftLoop
    | JoinSignature
    | JoinTimeLock
    | ReturnedBySignature
    | ReturnedByTimeLock

  datatype State = State(
    lock: TimeLockThread, signature: SignatureThread, main: MainThread,
    signatureFinished: bool, timeLockFinished: bool,
    redeemed: bool, p: int, q: int, aborted: bool, deadWrite: bool)

  datatype Step =
    | Force
    | Redeem(ok: bool)
    | FinishLock
    | SeeTransaction(ok: bool)
    | Factorise(p: int, q: int)
    | FinishSignature
    | Main

  function Initial(p: int, q: int): State {
    State(Forcing(0), Waiting, ReadSignatureFlag, false, false, false, p, q, false, false)
  }

  predicate Returned(s: State) {
    s.main == ReturnedBySignature || s.main == ReturnedByTimeLock
  }

  function LockStep(s: State, R: nat, step: Step): State {
    match (s.lock, step)
    case (Forcing(j), Force) => s.(lock := if j < R then Redeeming(j) else AsleepForever)
    case (Redeeming(j), Redeem(ok)) => if ok then s.(lock := GotMoney, redeemed := true) else s.(lock := Forcing(j + 1))
    case (GotMoney, FinishLock) => s.(lock := LockDone, timeLockFinished := true, deadWrite := s.deadWrite || Returned(s))
    case _ => s
  }

  /** `Factorise(p, q)` is the pair of GCDs the scan ends with; it is stored only if its product is n. */
  function SignatureStep(s: State, n: int, step: Step): State {
    match (s.signature, step)
    case (Waiting, SeeTransaction(ok)) => if ok then s.(signature := Reading) else s.(aborted := true)
    case (Reading, Factorise(p, q)) => if p * q == n then s.(signature := Stored, p := p, q := q) else s.(aborted := true)
    case (Stored, FinishSignature) => s.(signature := SignatureDone, signatureFinished := true, deadWrite := s.deadWrite || Returned(s))
    case _ => s
  }

  /** The polling loop, the second look at the signature flag, and the joins. */
  function MainStep(s: State): State {
    match s.main
    case ReadSignatureFlag => s.(main := if s.signatureFinished then LeftLoop else ReadTimeLockFlag)
    case ReadTimeLockFlag => s.(main := if s.timeLockFinished then LeftLoop else ReadSignatureFlag)
    case LeftLoop => s.(main := if s.signatureFinished then JoinSignature else JoinTimeLock)
    case JoinSignature => if s.signature == SignatureDone then s.(main := ReturnedBySignature) else s
    case JoinTimeLock => if s.lock == LockDone then s.(main := ReturnedByTimeLock) else s
    case _ => s
  }

  /** A step of a thread that is not ready for it, or of an aborted program, changes nothing. */
  function Next(s: State, n: int, R: nat, step: Step): State {
    if s.aborted then s else
      match step
      case Force => LockStep(s, R, step)
      case Redeem(_) => LockStep(s, R, step)
      case FinishLock => LockStep(s, R, step)
      case SeeTransaction(_) => SignatureStep(s, n, step)
      case Factorise(_, _) => SignatureStep(s, n, step)
      case FinishSignature => SignatureStep(s, n, step)
      case Main => MainStep(s)
  }

  function Run(s: State, n: int, R: nat, steps: seq<Step>): State
  {
    if steps == [] then s else Next(Run(s, n, R, steps[..|steps| - 1]), n, R, steps[|steps| - 1])
  }

  predicate Invariant(s: State, n: int) {
    && (s.signature == Stored || s.signature == SignatureDone ==> s.p * s.q == n)
    && (s.signatureFinished <==> s.signature == SignatureDone)
    && (s.lock == GotMoney || s.lock == LockDone ==> s.redeemed)
    && (s.timeLockFinished <==> s.lock == LockDone)
    && (s.main == LeftLoop ==> s.signatureFinished || s.timeLockFinished)
    && (s.main == JoinSignature || s.main == ReturnedBySignature ==> s.signatureFinished)
    && (s.main == JoinTimeLock || s.main == ReturnedByTimeLock ==> s.timeLockFinished)
    && (s.deadWrite ==> Returned(s) && s.signatureFinished && s.timeLockFinished)
  }

  lemma StepKeepsInvariant(s: State, n: int, R: nat, step: Step)
    requires Invariant(s, n)
    ensures Invariant(Next(s, n, R, step), n)
  {
  }

  lemma {:induction false} RunKeepsInvariant(p: int, q: int, n: int, R: nat, steps: seq<Step>)
    ensures Invariant(Run(Initial(p, q), n, R, steps), n)
  {
    if steps != [] {
      RunKeepsInvariant(p, q, n, R, steps[..|steps| - 1]);
      StepKeepsInvariant(Run(Initial(p, q), n, R, steps[..|steps| - 1]), n, R, steps[|steps| - 1]);
    }
  }

  /** In every interleaving the call returns only with a stored factorisation or a successful redeem,
      and the signature branch means the former. */
  lemma ReturnsServed(p: int, q: int, n: int, R: nat, steps: seq<Step>)
    ensures var s := Run(Initial(p, q), n, R, steps);
      && (Returned(s) ==> s.p * s.q == n || s.redeemed)
      && (s.main == ReturnedBySignature ==> s.p * s.q == n)
  {
    RunKeepsInvariant(p, q, n, R, steps);
  }

  // ---------------------------------------------------------------- progress

  /** How many steps of the main thread are left to a return, once a flag is set. */
  function Distance(s: State): nat {
    match s.main
    case ReadSignatureFlag => if s.signatureFinished then 3 else 4
    case ReadTimeLockFlag => if s.timeLockFinished then 3 else 4
    case LeftLoop => 2
    case JoinSignature => 1
    case JoinTimeLock => 1
    case _ => 0
  }

  function MainSteps(steps: seq<Step>): nat {
    if steps == [] then 0 else MainSteps(steps[..|steps| - 1]) + (if steps[|steps| - 1] == Main then 1 else 0)
  }

  lemma DistanceShrinks(s: State, n: int, R: nat, step: Step)
    requires Invariant(s, n) && (s.signatureFinished || s.timeLockFinished)
    ensures var t := Next(s, n, R, step);
      && (t.signatureFinished || t.timeLockFinished) && Distance(t) <= Distance(s)
      && (!s.aborted && step == Main && Distance(s) > 0 ==> Distance(t) < Distance(s))
      && (s.aborted ==> t.aborted)
  {
  }

  /** Once a flag is set the call returns after at most four steps of the main thread, whatever the other
      threads do in between, unless the program is cut short. */
  lemma {:induction false} PollingEnds(s: State, n: int, R: nat, steps: seq<Step>)
    requires Invariant(s, n) && (s.signatureFinished || s.timeLockFinished)
    ensures var t := Run(s, n, R, steps);
      && Invariant(t, n) && (t.signatureFinished || t.timeLockFinished)
      && (t.aborted || Distance(t) + MainSteps(steps) <= Distance(s) || Returned(t))
      && (MainSteps(steps) >= 4 && !t.aborted ==> Returned(t))
  {
    if steps != [] {
      var front, last := steps[..|steps| - 1], steps[|steps| - 1];
      PollingEnds(s, n, R, front);
      StepKeepsInvariant(Run(s, n, R, front), n, R, last);
      DistanceShrinks(Run(s, n, R, front), n, R, last);
    }
  }

  predicate Polling(s: State) {
    s.main == ReadSignatureFlag || s.main == ReadTimeLockFlag || s.main == LeftLoop
  }

  /** With a flag set, four steps of the main thread return: by the thread that set it, and by the signature
      if both are set before main has chosen. */
  lemma ReturnsByTheFlag(s: State, n: int, R: nat)
    requires Invariant(s, n) && !s.aborted && !Returned(s) && (s.signatureFinished || s.timeLockFinished)
    requires Polling(s) || !(s.signatureFinished && s.timeLockFinished)
    ensures var t := Next(Next(Next(Next(s, n, R, Main), n, R, Main), n, R, Main), n, R, Main);
      t.main == (if s.signatureFinished then ReturnedBySignature else ReturnedByTimeLock)
  {
    var s1 := Next(s, n, R, Main);
    var s2 := Next(s1, n, R, Main);
    var s3 := Next(s2, n, R, Main);
    StepKeepsInvariant(s, n, R, Main);
    StepKeepsInvariant(s1, n, R, Main);
    StepKeepsInvariant(s2, n, R, Main);
    DistanceShrinks(s, n, R, Main);
    DistanceShrinks(s1, n, R, Main);
    DistanceShrinks(s2, n, R, Main);
    DistanceShrinks(s3, n, R, Main);
    MainChangesOnlyMain(s, n, R);
    MainChangesOnlyMain(s1, n, R);
    MainChangesOnlyMain(s2, n, R);
    MainChangesOnlyMain(s3, n, R);
    StepKeepsInvariant(s3, n, R, Main);
  }

  lemma MainChangesOnlyMain(s: State, n: int, R: nat)
    ensures Next(s, n, R, Main) == s.(main := Next(s, n, R, Main).main)
  {
  }

  /** j refusals take the time-lock thread to instance j, and R refusals to sleep. */
  function Refusals(j: nat): seq<Step> {
    if j == 0 then [] else Refusals(j - 1) + [Force, Redeem(false)]
  }

  lemma RefusalsAdvance(s: State, n: int, R: nat, j: nat)
    requires s.lock == Forcing(0) && !s.aborted && j <= R
    ensures Run(s, n, R, Refusals(j)) == s.(lock := Forcing(j))
    ensures Run(s, n, R, Refusals(R) + [Force]) == s.(lock := AsleepForever)
  {
    RefusedTo(s, n, R, j);
    RefusedTo(s, n, R, R);
    RunConcat(s, n, R, Refusals(R), [Force]);
    RunOneStep(s.(lock := Forcing(R)), n, R, Force);
  }

  lemma {:induction false} RefusedTo(s: State, n: int, R: nat, j: nat)
    requires s.lock == Forcing(0) && !s.aborted && j <= R
    ensures Run(s, n, R, Refusals(j)) == s.(lock := Forcing(j))
  {
    if j > 0 {
      RefusedTo(s, n, R, j - 1);
      RunConcat(s, n, R, Refusals(j - 1), [Force, Redeem(false)]);
      RunTwo(s.(lock := Forcing(j - 1)), n, R, Force, Redeem(false));
    }
  }

  function Refused(steps: seq<Step>): nat {
    if steps == [] then 0 else Refused(steps[..|steps| - 1]) + (if steps[|steps| - 1] == Redeem(false) then 1 else 0)
  }

  /** In any interleaving the thread is at instance j, or asleep after R instances, only after that many
      refusals: no instance is passed over. */
  lemma {:induction false} NoInstanceSkipped(p: int, q: int, n: int, R: nat, steps: seq<Step>)
    ensures match Run(Initial(p, q), n, R, steps).lock
      case Forcing(j) => Refused(steps) >= j
      case Redeeming(j) => Refused(steps) >= j
      case AsleepForever => Refused(steps) >= R
      case _ => true
  {
    LockCounts(p, q, n, R, steps);
    if steps != [] {
      NoInstanceSkipped(p, q, n, R, steps[..|steps| - 1]);
      LockAdvances(Run(Initial(p, q), n, R, steps[..|steps| - 1]), n, R, steps[|steps| - 1]);
    }
  }

  lemma LockAdvances(s: State, n: int, R: nat, step: Step)
    ensures var t := Next(s, n, R, step);
      t.lock == s.lock ||
      match t.lock
      case Forcing(j) => j > 0 && s.lock == Redeeming(j - 1) && step == Redeem(false)
      case Redeeming(j) => s.lock == Forcing(j) && j < R
      case AsleepForever => s.lock.Forcing? && s.lock.j >= R
      case GotMoney => s.lock.Redeeming? && step == Redeem(true)
      case LockDone => s.lock == GotMoney
  {
  }

  /** An exception in the signature thread ends the program: a failed wait, or a scan without a result. */
  lemma AbortsExactly(s: State, n: int, R: nat, step: Step)
    requires !s.aborted
    ensures Next(s, n, R, step).aborted <==>
      || (s.signature == Waiting && step == SeeTransaction(false))
      || (s.signature == Reading && step.Factorise? && step.p * step.q != n)
  {
  }

  /** Once main has decided which thread to join, that thread has ended: the join cannot block. */
  lemma JoinDoesNotBlock(p: int, q: int, n: int, R: nat, steps: seq<Step>)
    ensures var s := Run(Initial(p, q), n, R, steps);
      !s.aborted && (s.main == JoinSignature || s.main == JoinTimeLock) ==> Returned(Next(s, n, R, Main))
  {
    RunKeepsInvariant(p, q, n, R, steps);
  }

  lemma {:induction false} RunConcat(s: State, n: int, R: nat, a: seq<Step>, b: seq<Step>)
    ensures Run(s, n, R, a + b) == Run(Run(s, n, R, a), n, R, b)
  {
    if b == [] {
      assert a + b == a;
    } else {
      RunConcat(s, n, R, a, b[..|b| - 1]);
      assert (a + b)[..|a + b| - 1] == a + b[..|b| - 1];
    }
  }

  lemma StoredStep(s: State, n: int, R: nat, step: Step)
    requires s.signature == SignatureDone
    ensures var t := Next(s, n, R, step); t.signature == SignatureDone && t.p == s.p && t.q == s.q
  {
  }

  lemma {:induction false} StoredStays(s: State, n: int, R: nat, steps: seq<Step>)
    requires s.signature == SignatureDone
    ensures var t := Run(s, n, R, steps); t.signature == SignatureDone && t.p == s.p && t.q == s.q
  {
    if steps != [] {
      StoredStays(s, n, R, steps[..|steps| - 1]);
      StoredStep(Run(s, n, R, steps[..|steps| - 1]), n, R, steps[|steps| - 1]);
    }
  }

  /** After a return by the signature branch the result is final in every continuation. */
  lemma ResultIsFinal(p: int, q: int, n: int, R: nat, steps: seq<Step>, later: seq<Step>)
    requires Run(Initial(p, q), n, R, steps).main == ReturnedBySignature
    ensures var s, t := Run(Initial(p, q), n, R, steps), Run(Initial(p, q), n, R, steps + later);
      t.p == s.p && t.q == s.q && t.p * t.q == n
  {
    RunKeepsInvariant(p, q, n, R, steps);
    RunConcat(Initial(p, q), n, R, steps, later);
    StoredStays(Run(Initial(p, q), n, R, steps), n, R, later);
  }

  // ---------------------------------------------------------------- one output, one spend

  /** The seller's transaction and the refund spend the same output, so a chain that keeps what it has
      confirmed lets the buyer see at most one of them. */
  predicate OneSpend(steps: seq<Step>) {
    !(SeeTransaction(true) in steps && Redeem(true) in steps)
  }

  // A signature thread past its wait has seen the transaction, and before the scan ends p and q are unset.
  lemma {:induction false} SeenByStep(p: int, q: int, n: int, R: nat, steps: seq<Step>)
    ensures var s := Run(Initial(p, q), n, R, steps);
      && (s.signature != Waiting ==> SeeTransaction(true) in steps)
      && (s.signature == Waiting || s.signature == Reading ==> s.p == p && s.q == q)
  {
    if steps != [] {
      var front, last := steps[..|steps| - 1], steps[|steps| - 1];
      SeenByStep(p, q, n, R, front);
      SeenStep(Run(Initial(p, q), n, R, front), n, R, last);
      assert steps == front + [last];
    }
  }

  lemma SeenStep(s: State, n: int, R: nat, step: Step)
    ensures var t := Next(s, n, R, step);
      && (s.signature == Waiting && t.signature != Waiting ==> step == SeeTransaction(true))
      && (t.signature == Waiting || t.signature == Reading ==>
           ((s.signature == Waiting || s.signature == Reading) && t.p == s.p && t.q == s.q))
  {
  }

  /** The buyer is served in exactly one way: with one spend of the output, a return by the signature
      comes without a refund, a return by the time lock comes without factors, and no flag is written
      after the return. */
  lemma ServedOnce(p: int, q: int, n: int, R: nat, steps: seq<Step>)
    requires OneSpend(steps)
    ensures var s := Run(Initial(p, q), n, R, steps);
      && !s.deadWrite
      && (s.main == ReturnedBySignature ==> s.p * s.q == n && !s.redeemed)
      && (s.main == ReturnedByTimeLock ==> s.redeemed && s.signature == Waiting && s.p == p && s.q == q)
  {
    RunKeepsInvariant(p, q, n, R, steps);
    SeenByStep(p, q, n, R, steps);
    RedeemedByStep(p, q, n, R, steps);
  }

  predicate BothFinished(s: State) {
    s.signature == SignatureDone && s.lock == LockDone
  }

  lemma {:induction false} DeadWriteAfter(s: State, n: int, R: nat, later: seq<Step>)
    requires Invariant(s, n) && Returned(s) && !s.deadWrite
    ensures var t := Run(s, n, R, later);
      && Returned(t) && Invariant(t, n) && (BothFinished(s) ==> BothFinished(t))
      && (t.deadWrite <==> !BothFinished(s) && BothFinished(t))
  {
    if later != [] {
      DeadWriteAfter(s, n, R, later[..|later| - 1]);
      StepKeepsInvariant(Run(s, n, R, later[..|later| - 1]), n, R, later[|later| - 1]);
    }
  }

  /** The detached thread writes to the dead frame exactly when it finishes after the return, and that
      takes two confirmed spends of the one output. */
  lemma DeadWriteExactly(p: int, q: int, n: int, R: nat, steps: seq<Step>, later: seq<Step>)
    requires var s := Run(Initial(p, q), n, R, steps); Returned(s) && !s.deadWrite
    ensures var s, t := Run(Initial(p, q), n, R, steps), Run(Initial(p, q), n, R, steps + later);
      && (t.deadWrite <==> !BothFinished(s) && BothFinished(t))
      && (t.deadWrite ==> !OneSpend(steps + later))
  {
    RunKeepsInvariant(p, q, n, R, steps);
    if OneSpend(steps + later) { ServedOnce(p, q, n, R, steps + later); }
    RunConcat(Initial(p, q), n, R, steps, later);
    DeadWriteAfter(Run(Initial(p, q), n, R, steps), n, R, later);
  }

  lemma RunThree(s: State, n: int, R: nat, a: Step, b: Step, c: Step)
    ensures Run(s, n, R, [a, b, c]) == Next(Next(Next(s, n, R, a), n, R, b), n, R, c)
  {
    assert [a, b, c][..2] == [a, b] && [a, b][..1] == [a] && [a][..0] == [];
    assert Run(s, n, R, [a]) == Next(s, n, R, a);
    assert Run(s, n, R, [a, b]) == Next(Run(s, n, R, [a]), n, R, b);
  }

  const SIGNED := [SeeTransaction(true), Factorise(3, 5), FinishSignature]

  const RETURNED := [Main, Main, Main]

  const REDEEMED := [Force, Redeem(true), FinishLock]

  lemma SignedRun()
    ensures Run(Initial(0, 0), 15, 1, SIGNED)
         == State(Forcing(0), SignatureDone, ReadSignatureFlag, true, false, false, 3, 5, false, false)
  {
    RunThree(Initial(0, 0), 15, 1, SeeTransaction(true), Factorise(3, 5), FinishSignature);
  }

  lemma ReturnedRun()
    ensures Run(State(Forcing(0), SignatureDone, ReadSignatureFlag, true, false, false, 3, 5, false, false), 15, 1, RETURNED)
         == State(Forcing(0), SignatureDone, ReturnedBySignature, true, false, false, 3, 5, false, false)
  {
    RunThree(State(Forcing(0), SignatureDone, ReadSignatureFlag, true, false, false, 3, 5, false, false), 15, 1, Main, Main, Main);
  }

  lemma RedeemedRun()
    ensures Run(State(Forcing(0), SignatureDone, ReturnedBySignature, true, false, false, 3, 5, false, false), 15, 1, REDEEMED).deadWrite
  {
    RunThree(State(Forcing(0), SignatureDone, ReturnedBySignature, true, false, false, 3, 5, false, false), 15, 1, Force, Redeem(true), FinishLock);
  }

  // ---------------------------------------------------------------- two spends

  /** Whether the thread that was detached at the return can still come to its end. */
  predicate DetachedCanFinish(s: State, R: nat) {
    && !s.aborted
    && if s.main == ReturnedBySignature then s.lock == GotMoney || s.lock.Redeeming? || (s.lock.Forcing? && s.lock.j < R)
       else s.signature != SignatureDone
  }

  predicate LockIsStuck(s: State, R: nat) {
    s.lock == AsleepForever || (s.lock.Forcing? && s.lock.j >= R)
  }

  lemma {:induction false} StuckStays(s: State, n: int, R: nat, later: seq<Step>)
    requires s.aborted || LockIsStuck(s, R)
    ensures var t := Run(s, n, R, later); (s.aborted ==> t == s) && (LockIsStuck(s, R) ==> LockIsStuck(t, R))
  {
    if later != [] {
      StuckStays(s, n, R, later[..|later| - 1]);
    }
  }

  lemma RunOneStep(s: State, n: int, R: nat, a: Step)
    ensures Run(s, n, R, [a]) == Next(s, n, R, a)
  {
    assert [a][..0] == [];
  }

  lemma RunTwo(s: State, n: int, R: nat, a: Step, b: Step)
    ensures Run(s, n, R, [a, b]) == Next(Next(s, n, R, a), n, R, b)
  {
    assert [a, b][..1] == [a];
    RunOneStep(s, n, R, a);
  }

  /** What is left of the time-lock thread, when its redeem succeeds. */
  lemma LockCompletes(s: State, n: int, R: nat) returns (later: seq<Step>)
    requires s.main == ReturnedBySignature && DetachedCanFinish(s, R)
    ensures Run(s, n, R, later).deadWrite
  {
    if s.lock.Forcing? {
      later := [Force, Redeem(true), FinishLock];
      RunThree(s, n, R, Force, Redeem(true), FinishLock);
    } else if s.lock.Redeeming? {
      later := [Redeem(true), FinishLock];
      RunTwo(s, n, R, Redeem(true), FinishLock);
    } else {
      later := [FinishLock];
      RunOneStep(s, n, R, FinishLock);
    }
  }

  /** What is left of the signature thread, when the transaction is seen and a product is n. */
  lemma SignatureCompletes(s: State, n: int, R: nat) returns (later: seq<Step>)
    requires s.main == ReturnedByTimeLock && DetachedCanFinish(s, R)
    ensures Run(s, n, R, later).deadWrite
  {
    if s.signature == Waiting {
      later := [SeeTransaction(true), Factorise(1, n), FinishSignature];
      RunThree(s, n, R, SeeTransaction(true), Factorise(1, n), FinishSignature);
    } else if s.signature == Reading {
      later := [Factorise(1, n), FinishSignature];
      RunTwo(s, n, R, Factorise(1, n), FinishSignature);
    } else {
      later := [FinishSignature];
      RunOneStep(s, n, R, FinishSignature);
    }
  }

  /** At the return it is decided whether a later step of the detached thread can write to the dead
      frame: exactly when that thread has neither ended, nor gone to sleep, nor run out of instances. */
  lemma DeadWriteReachable(s: State, n: int, R: nat)
    requires Invariant(s, n) && Returned(s) && !s.deadWrite
    ensures (exists later :: Run(s, n, R, later).deadWrite) <==> DetachedCanFinish(s, R)
  {
    if DetachedCanFinish(s, R) {
      var later;
      if s.main == ReturnedBySignature {
        later := LockCompletes(s, n, R);
      } else {
        later := SignatureCompletes(s, n, R);
      }
    } else {
      forall later ensures !Run(s, n, R, later).deadWrite {
        DeadWriteAfter(s, n, R, later);
        if s.aborted || LockIsStuck(s, R) { StuckStays(s, n, R, later); }
      }
    }
  }

  /** A run in which it does, with both spends confirmed: main returns with the factors 3 and 5, and then
      the first redeem succeeds. */
  lemma DetachedThreadOutlivesFlag()
    ensures var s := Run(Initial(0, 0), 15, 1, SIGNED + RETURNED);
      s.main == ReturnedBySignature && s.p == 3 && s.q == 5 && !s.deadWrite
    ensures Run(Initial(0, 0), 15, 1, SIGNED + RETURNED + REDEEMED).deadWrite
    ensures SeeTransaction(true) in SIGNED + RETURNED && Redeem(true) in REDEEMED
  {
    SignedRun();
    ReturnedRun();
    RedeemedRun();
    RunConcat(Initial(0, 0), 15, 1, SIGNED, RETURNED);
    RunConcat(Initial(0, 0), 15, 1, SIGNED + RETURNED, REDEEMED);
  }

  predicate LockLost(s: State, R: nat) {
    match s.lock
    case Forcing(j) => j <= R
    case Redeeming(j) => j < R
    case _ => true
  }

  // Nothing but a successful redeem call sets the history variable.
  lemma {:induction false} RedeemedByStep(p: int, q: int, n: int, R: nat, steps: seq<Step>)
    ensures Run(Initial(p, q), n, R, steps).redeemed ==> Redeem(true) in steps
  {
    if steps != [] {
      var front, last := steps[..|steps| - 1], steps[|steps| - 1];
      RedeemedByStep(p, q, n, R, front);
      assert steps == front + [last];
    }
  }

  lemma {:induction false} LockCounts(p: int, q: int, n: int, R: nat, steps: seq<Step>)
    ensures LockLost(Run(Initial(p, q), n, R, steps), R)
  {
    if steps != [] { LockCounts(p, q, n, R, steps[..|steps| - 1]); }
  }

  /** A time lock that never redeems cannot make the call return: it forces each of the R commitments
      at most once and then sleeps. */
  lemma UnredeemedLockIsSilent(p: int, q: int, n: int, R: nat, steps: seq<Step>)
    requires Redeem(true) !in steps
    ensures var s := Run(Initial(p, q), n, R, steps);
      LockLost(s, R) && !s.timeLockFinished && s.main != ReturnedByTimeLock && s.main != JoinTimeLock
  {
    RunKeepsInvariant(p, q, n, R, steps);
    RedeemedByStep(p, q, n, R, steps);
    LockCounts(p, q, n, R, steps);
  }
}
