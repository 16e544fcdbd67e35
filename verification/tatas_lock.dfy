/** `Tatas_lock` (main.cpp): a test-and-test-and-set spin lock held in one
    `atomic_bool flag`, `false` meaning free. `lock()` spins reading the flag
    until it sees `false`, then exchanges in `true`, and starts over when the
    exchange returns `true`; `unlock()` stores `false`. */
module TatasLock {
  import opened Outcomes
  import Atomics
  import Threads

  datatype Pc =
    | Idle
    | Test     // inner `while (flag);`: about to load the flag
    | Swap     // saw `false`: about to `exchange(true)`
    | Held     // lock() returned; the next action is unlock()

  datatype Next = Next(flag: bool, pc: Pc)

  /** One atomic action of a thread in state `pc` on the flag. */
  function Step(flag: bool, pc: Pc): (r: Next)
    // the test phase never writes and moves on only after reading `false`
    ensures pc == Test ==> r.flag == flag && (r.pc == Swap <==> !flag)
    // lock() returns only after an exchange that returned `false`: this call set the flag
    ensures r.pc == Held && pc != Held ==> pc == Swap && !flag && r.flag
    // an exchange that returned `true` goes back to the test phase and leaves the flag set
    ensures pc == Swap && flag ==> r == Next(true, Test)
    // unlock() stores `false`
    ensures pc == Held ==> r == Next(false, Idle)
  {
    match pc
    case Idle => Next(flag, Idle)
    case Test => Next(flag, if flag then Test else Swap)
    case Swap =>
      var x := Atomics.Exchange(flag, true);
      Next(x.word, if x.prior then Test else Held)
    case Held => Next(false, Idle)
  }

  /** A single thread taking `k` steps with no other thread touching the flag. */
  function Run(flag: bool, pc: Pc, k: nat): Next
    decreases k
  {
    if k == 0 then Next(flag, pc)
    else
      var n := Step(flag, pc);
      Run(n.flag, n.pc, k - 1)
  }

  /** The flag after an uncontended `lock()`, or `None` when the call never
      returns because the flag is set and no other thread runs. */
  function LockSolo(flag: bool): (r: Option<bool>)
    ensures r.Some? <==> !flag
    ensures r.Some? ==> Run(flag, Test, 2) == Next(r.value, Held)
    ensures r.None? ==> Step(flag, Test) == Next(flag, Test)
  {
    if flag then None else Some(true)
  }

  /** The flag after `unlock()`. */
  function UnlockSolo(flag: bool): (r: bool)
    ensures Step(flag, Held) == Next(r, Idle)
  {
    false
  }

  /** From a free lock, `lock` then `unlock` leaves it free again: a test,
      an exchange and a store bring the thread back to idle. */
  lemma LockUnlockRestores()
    ensures Run(false, Test, 3) == Next(false, Idle)
    ensures LockSolo(false) == Some(true) && UnlockSolo(true) == false
  {
  }

  // ---------------------------------------------------------------------
  // Interleaved threads

  datatype Sys = Sys(flag: bool, threads: seq<Pc>)

  /** An idle thread calls `lock()`, or a busy thread takes its next step. */
  datatype Event = Begin(tid: nat) | Act(tid: nat)

  predicate Enabled(s: Sys, e: Event) {
    e.tid < |s.threads| && (e.Begin? <==> s.threads[e.tid] == Idle)
  }

  function Apply(s: Sys, e: Event): (t: Sys)
    requires Enabled(s, e)
    ensures |t.threads| == |s.threads|
    ensures forall i | 0 <= i < |s.threads| && i != e.tid :: t.threads[i] == s.threads[i]
  {
    match e
    case Begin(tid) => Sys(s.flag, s.threads[tid := Test])
    case Act(tid) =>
      var n := Step(s.flag, s.threads[tid]);
      Sys(n.flag, s.threads[tid := n.pc])
  }

  function Init(n: nat): Sys {
    Sys(false, seq(n, _ => Idle))
  }

  function Exec(s: Sys, trace: seq<Event>): Option<Sys>
    decreases |trace|
  {
    if |trace| == 0 then Some(s)
    else if !Enabled(s, trace[0]) then None
    else Exec(Apply(s, trace[0]), trace[1..])
  }

  predicate IsHolder(pc: Pc) {
    pc.Held?
  }

  /** Ghost count of the threads inside the critical section. */
  function Holders(ts: seq<Pc>): nat {
    Threads.Count(ts, IsHolder)
  }

  /** The flag is set exactly when one thread holds the lock, and no more
      than one ever does. */
  predicate Inv(s: Sys) {
    Holders(s.threads) == (if s.flag then 1 else 0)
  }

  lemma StepKeepsInv(s: Sys, e: Event)
    requires Inv(s) && Enabled(s, e)
    ensures Inv(Apply(s, e))
  {
    var t := Apply(s, e);
    var i := e.tid;
    assert t.threads == s.threads[i := t.threads[i]];
    Threads.CountUpdate(s.threads, i, t.threads[i], IsHolder);
    if s.threads[i] == Held {
      assert Holders(s.threads) >= 1;
    }
  }

  lemma {:induction false} ExecKeepsInv(s: Sys, trace: seq<Event>)
    requires Inv(s)
    ensures Exec(s, trace).Some? ==> Inv(Exec(s, trace).value)
    decreases |trace|
  {
    if |trace| > 0 && Enabled(s, trace[0]) {
      StepKeepsInv(s, trace[0]);
      ExecKeepsInv(Apply(s, trace[0]), trace[1..]);
    }
  }

  /** Mutual exclusion: under every schedule of any number of threads, at most
      one thread is inside the critical section, and the flag says whether
      one is. */
  lemma MutualExclusion(n: nat, trace: seq<Event>)
    ensures var r := Exec(Init(n), trace);
            r.Some? ==> Holders(r.value.threads) <= 1
                        && (r.value.flag <==> Holders(r.value.threads) == 1)
  {
    assert Inv(Init(n));
    ExecKeepsInv(Init(n), trace);
  }
}
