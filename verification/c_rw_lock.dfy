/** `C_rw_lock` (main.cpp): a counting lock held in a plain `int l` and
    driven by GCC's `__sync` builtins. It has only the shared mode: `lock()`
    reads `l`, and when the value is non-negative tries
    `__sync_val_compare_and_swap(&l, old_val, old_val + 1)`; `unlock()`
    subtracts one with `__sync_fetch_and_sub`.

    As written, `lock()` leaves its loop when the value the builtin RETURNS is
    non-zero. That value is the word's prior content, not a success flag: a
    CAS that succeeded from 0 is taken for a failure (and the loop increments
    again), and a CAS that failed against a non-zero value is taken for a
    success. The corrected version leaves the loop when the returned value
    equals `old_val`, that is, when the CAS succeeded. */
module CRwLock {
  import opened Outcomes
  import Atomics
  import Threads

  datatype Pc =
    | Idle
    | Load                 // top of lock()'s loop: about to read l
    | Cas(oldVal: int)     // read old_val >= 0: about to CAS old_val -> old_val + 1
    | Held                 // lock() returned; the next action is unlock()

  datatype Next = Next(l: int, pc: Pc)

  /** Whether `lock()` leaves its loop after the builtin returned `prior`. */
  predicate Commits(v: Version, oldVal: int, prior: int) {
    if v == AsWritten then prior != 0 else prior == oldVal
  }

  /** One atomic action of a thread in state `pc` on the word `l`. */
  function Step(v: Version, l: int, pc: Pc): (r: Next)
    // the read moves on to the CAS exactly when it saw a non-negative value
    ensures pc == Load ==> r.l == l && (r.pc == Cas(l) <==> l >= 0)
    // the CAS writes old_val + 1 exactly when the word still held old_val
    ensures pc.Cas? ==> r.l == (if l == pc.oldVal then l + 1 else l)
    // as written, lock() returns when the word's prior value was non-zero ...
    ensures pc.Cas? && v == AsWritten ==> (r.pc == Held <==> l != 0)
    // ... the corrected lock() returns exactly when its CAS succeeded
    ensures pc.Cas? && v == Corrected ==> (r.pc == Held <==> l == pc.oldVal)
    // a CAS that does not commit goes back to the read
    ensures pc.Cas? && r.pc != Held ==> r.pc == Load
    // unlock() subtracts exactly one
    ensures pc == Held ==> r == Next(l - 1, Idle)
  {
    match pc
    case Idle => Next(l, Idle)
    case Load => if l >= 0 then Next(l, Cas(l)) else Next(l, Load)
    case Cas(oldVal) =>
      var c := Atomics.ValCompareAndSwap(l, oldVal, oldVal + 1);
      Next(c.word, if Commits(v, oldVal, c.prior) then Held else Load)
    case Held => Next(Atomics.FetchAdd(l, -1).word, Idle)
  }

  /** A single thread taking `k` steps with no other thread touching the word. */
  function Run(v: Version, l: int, pc: Pc, k: nat): Next
    decreases k
  {
    if k == 0 then Next(l, pc)
    else
      var n := Step(v, l, pc);
      Run(v, n.l, n.pc, k - 1)
  }

  /** The word after an uncontended `lock()`, or `None` when the call never
      returns (the word is negative and no other thread runs). As written, a
      call on a free lock goes round the loop twice and adds two. */
  function LockSolo(v: Version, l: int): (r: Option<int>)
    ensures r.Some? <==> l >= 0
    ensures r.None? ==> Step(v, l, Load) == Next(l, Load)
    ensures v == AsWritten && l == 0 ==> Run(v, l, Load, 2) == Next(1, Load)
                                         && Run(v, l, Load, 4) == Next(2, Held) && r == Some(2)
    ensures (v == Corrected || l != 0) && r.Some? ==> Run(v, l, Load, 2) == Next(r.value, Held)
                                                       && r.value == l + 1
  {
    if l < 0 then None
    else if v == AsWritten && l == 0 then Some(2)
    else Some(l + 1)
  }

  /** The word after `unlock()`. */
  function UnlockSolo(l: int): (r: int)
    ensures forall v :: Step(v, l, Held) == Next(r, Idle)
  {
    l - 1
  }

  /** As written, `lock` then `unlock` on a free lock leaves `l == 1`: the
      lock no longer reads as free although nobody holds it. */
  lemma LockUnlockFromZeroLeavesOne()
    ensures LockSolo(AsWritten, 0) == Some(2) && UnlockSolo(2) == 1
  {
  }

  /** Corrected, `lock` then `unlock` restores any non-negative word. */
  lemma CorrectedLockUnlockRestores(l: int)
    requires l >= 0
    ensures LockSolo(Corrected, l).Some? && UnlockSolo(LockSolo(Corrected, l).value) == l
  {
  }

  /** As written, a thread whose CAS lost the race to a non-zero value leaves
      `lock()` without having counted itself. */
  lemma LostCasCommits(l: int, oldVal: int)
    requires l != 0 && l != oldVal
    ensures Step(AsWritten, l, Cas(oldVal)) == Next(l, Held)
    ensures Step(Corrected, l, Cas(oldVal)) == Next(l, Load)
  {
  }

  // ---------------------------------------------------------------------
  // Interleaved threads

  datatype Sys = Sys(l: int, threads: seq<Pc>)

  datatype Event = Begin(tid: nat) | Act(tid: nat)

  predicate Enabled(s: Sys, e: Event) {
    e.tid < |s.threads| && (e.Begin? <==> s.threads[e.tid] == Idle)
  }

  function Apply(v: Version, s: Sys, e: Event): (t: Sys)
    requires Enabled(s, e)
    ensures |t.threads| == |s.threads|
    ensures forall i | 0 <= i < |s.threads| && i != e.tid :: t.threads[i] == s.threads[i]
  {
    match e
    case Begin(tid) => Sys(s.l, s.threads[tid := Load])
    case Act(tid) =>
      var n := Step(v, s.l, s.threads[tid]);
      Sys(n.l, s.threads[tid := n.pc])
  }

  function Init(n: nat): Sys {
    Sys(0, seq(n, _ => Idle))
  }

  function Exec(v: Version, s: Sys, trace: seq<Event>): Option<Sys>
    decreases |trace|
  {
    if |trace| == 0 then Some(s)
    else if !Enabled(s, trace[0]) then None
    else Exec(v, Apply(v, s, trace[0]), trace[1..])
  }

  predicate IsHolder(pc: Pc) {
    pc.Held?
  }

  function Holders(ts: seq<Pc>): nat {
    Threads.Count(ts, IsHolder)
  }

  /** The word counts the threads holding the lock. */
  predicate Inv(s: Sys) {
    s.l == Holders(s.threads)
  }

  lemma CorrectedStepKeepsInv(s: Sys, e: Event)
    requires Inv(s) && Enabled(s, e)
    ensures Inv(Apply(Corrected, s, e))
  {
    var t := Apply(Corrected, s, e);
    var i := e.tid;
    assert t.threads == s.threads[i := t.threads[i]];
    Threads.CountUpdate(s.threads, i, t.threads[i], IsHolder);
  }

  lemma {:induction false} CorrectedExecKeepsInv(s: Sys, trace: seq<Event>)
    requires Inv(s)
    ensures Exec(Corrected, s, trace).Some? ==> Inv(Exec(Corrected, s, trace).value)
    decreases |trace|
  {
    if |trace| > 0 && Enabled(s, trace[0]) {
      CorrectedStepKeepsInv(s, trace[0]);
      CorrectedExecKeepsInv(Apply(Corrected, s, trace[0]), trace[1..]);
    }
  }

  /** Corrected, under every schedule the word is the number of holders. */
  lemma CorrectedCountsHolders(n: nat, trace: seq<Event>)
    ensures var r := Exec(Corrected, Init(n), trace);
            r.Some? ==> r.value.l == Holders(r.value.threads)
  {
    assert Inv(Init(n));
    CorrectedExecKeepsInv(Init(n), trace);
  }

  /** Running a schedule from its `k`-th event on. */
  lemma ExecFrom(v: Version, s: Sys, trace: seq<Event>, k: nat, t: Sys)
    requires k < |trace| && Enabled(s, trace[k]) && Apply(v, s, trace[k]) == t
    ensures Exec(v, s, trace[k..]) == Exec(v, t, trace[k + 1..])
  {
    assert trace[k..][1..] == trace[k + 1..];
  }

  /** One thread of any system calls `lock()` on a free lock. */
  function SoloSchedule(tid: nat): seq<Event> {
    [Begin(tid), Act(tid), Act(tid), Act(tid), Act(tid)]
  }

  /** As written, one uncontended `lock()` leaves the word at 2 with a single
      holder, so the word no longer counts the holders. */
  lemma AsWrittenDoubleCount(n: nat, tid: nat)
    requires tid < n
    ensures var s := Sys(2, Init(n).threads[tid := Held]);
            Exec(AsWritten, Init(n), SoloSchedule(tid)) == Some(s)
            && Holders(s.threads) == 1 && !Inv(s)
  {
    var t := SoloSchedule(tid);
    var I := Init(n).threads;
    var v := AsWritten;
    assert t[0..] == t;
    ExecFrom(v, Init(n), t, 0, Sys(0, I[tid := Load]));
    ExecFrom(v, Sys(0, I[tid := Load]), t, 1, Sys(0, I[tid := Cas(0)]));
    ExecFrom(v, Sys(0, I[tid := Cas(0)]), t, 2, Sys(1, I[tid := Load]));
    ExecFrom(v, Sys(1, I[tid := Load]), t, 3, Sys(1, I[tid := Cas(1)]));
    ExecFrom(v, Sys(1, I[tid := Cas(1)]), t, 4, Sys(2, I[tid := Held]));
    assert t[5..] == [];
    var s := Sys(2, I[tid := Held]);
    assert IsHolder(s.threads[tid]);
    assert s.threads == I[tid := Held];
    Threads.CountUpdate(I, tid, Held, IsHolder);
    assert Holders(I) == 0;
  }
}
