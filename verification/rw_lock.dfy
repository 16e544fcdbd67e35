/** `Rw_lock` (main.cpp): a reader/writer lock held in one `atomic_int l`.
    `l == 0` is free, `l == -1` is held by a writer, `l == n > 0` is held by
    `n` readers. Every atomic access of `lock`, `unlock`, `acquire_write`
    and `release_write` is one step of a thread; an interleaved system of
    such threads, with ghost reader and writer counts, states the lock's
    invariant. */
module RwLock {
  import opened Outcomes
  import Atomics
  import Threads

  /** Where a thread is in its use of the lock. The parameters are the
      thread's local variables: `old_val` of `lock` and `zero` of
      `acquire_write`. */
  datatype Pc =
    | Idle
    | ReadLoad                 // top of lock()'s loop: about to load l
    | ReadCas(oldVal: int)     // loaded old_val >= 0: about to CAS old_val -> old_val + 1
    | Reading                  // lock() returned; the next action is unlock()
    | WriteLoad(zero: int)     // top of acquire_write()'s loop: about to load l
    | WriteCas(zero: int)      // loaded 0: about to CAS with expected `zero` -> -1
    | Writing                  // acquire_write() returned; the next action is release_write()

  /** The two ways an idle thread can start to take the lock. */
  datatype Call = Lock | AcquireWrite

  /** Entry state of a call; `acquire_write` starts with `zero = 0`. */
  function Start(c: Call): (pc: Pc)
    ensures c == Lock ==> pc == ReadLoad
    ensures c == AcquireWrite ==> pc == WriteLoad(0)
  {
    match c
    case Lock => ReadLoad
    case AcquireWrite => WriteLoad(0)
  }

  datatype Next = Next(l: int, pc: Pc)

  /** One atomic action of a thread in state `pc` on the lock word `l`.
      `spurious` makes a `compare_exchange_weak` fail spuriously. As written,
      a failed CAS of `acquire_write` leaves the observed value in `zero`,
      which the next iteration uses as its expected value; the corrected
      version declares `zero` inside the loop, so every CAS expects 0. */
  function Step(v: Version, l: int, pc: Pc, spurious: bool): (r: Next)
    // lock(): after the load, go on to the CAS exactly when old_val >= 0
    ensures pc == ReadLoad ==> r.l == l && (r.pc == ReadCas(l) <==> l >= 0)
    // lock() returns only from a successful CAS, which adds one to old_val
    ensures r.pc == Reading && pc != Reading ==> pc.ReadCas? && l == pc.oldVal && r.l == l + 1
    // a failed CAS of lock() leaves the word alone and goes back to the load
    ensures pc.ReadCas? && r.pc != Reading ==> r == Next(l, ReadLoad)
    // unlock(): subtracts exactly one
    ensures pc == Reading ==> r == Next(l - 1, Idle)
    // acquire_write(): go on to the CAS only after loading 0
    ensures pc.WriteLoad? ==> r.l == l && (r.pc == WriteCas(pc.zero) <==> l == 0)
    // ... and after loading anything else it loads again, keeping `zero`
    ensures pc.WriteLoad? && l != 0 ==> r == Next(l, pc)
    // acquire_write() returns only from a CAS whose expected value was l; it stores -1
    ensures r.pc == Writing && pc != Writing ==> pc.WriteCas? && l == pc.zero && r.l == -1
    // a failed CAS of acquire_write() leaves the observed value in `zero` (as written)
    ensures pc.WriteCas? && r.pc != Writing ==>
              r == Next(l, WriteLoad(if v == AsWritten then l else 0))
    // release_write(): stores 0 whatever l held
    ensures pc == Writing ==> r == Next(0, Idle)
    // without spurious failure, a CAS whose expected value equals l succeeds
    ensures !spurious && pc.ReadCas? && l == pc.oldVal ==> r.pc == Reading
    ensures !spurious && pc.WriteCas? && l == pc.zero ==> r.pc == Writing
  {
    match pc
    case Idle => Next(l, Idle)
    case ReadLoad =>
      if l >= 0 then Next(l, ReadCas(l)) else Next(l, ReadLoad)
    case ReadCas(oldVal) =>
      var c := Atomics.CompareExchangeWeak(l, oldVal, oldVal + 1, spurious);
      Next(c.word, if c.success then Reading else ReadLoad)
    case Reading =>
      Next(Atomics.FetchAdd(l, -1).word, Idle)
    case WriteLoad(zero) =>
      Next(l, if l == 0 then WriteCas(zero) else WriteLoad(zero))
    case WriteCas(zero) =>
      var c := Atomics.CompareExchangeWeak(l, zero, -1, spurious);
      if c.success then Next(c.word, Writing)
      else Next(c.word, WriteLoad(if v == AsWritten then c.expected else 0))
    case Writing =>
      Next(0, Idle)
  }

  /** A single thread taking the steps chosen by `spurious`, with no other
      thread touching the word. */
  function Run(v: Version, l: int, pc: Pc, spurious: seq<bool>): Next
    decreases |spurious|
  {
    if |spurious| == 0 then Next(l, pc)
    else
      var n := Step(v, l, pc, spurious[0]);
      Run(v, n.l, n.pc, spurious[1..])
  }

  /** The word after an uncontended `lock()`, or `None` when the call never
      returns because a writer holds the lock and no other thread runs. */
  function LockSolo(l: int): (r: Option<int>)
    ensures r.Some? <==> l >= 0
    ensures r.Some? ==> forall v :: Run(v, l, ReadLoad, [false, false]) == Next(r.value, Reading)
    ensures r.None? ==> forall v, sp :: Step(v, l, ReadLoad, sp) == Next(l, ReadLoad)
  {
    if l >= 0 then Some(l + 1) else None
  }

  /** The word after `unlock()`. */
  function UnlockSolo(l: int): (r: int)
    ensures forall v :: Run(v, l, Reading, [false]) == Next(r, Idle)
  {
    l - 1
  }

  /** From any `l >= 0`, an uncontended `lock` then `unlock` restores `l`:
      a load, a CAS and a `fetch_add(-1)` bring the thread back to idle. */
  lemma LockUnlockRestores(v: Version, l: int)
    requires l >= 0
    ensures Run(v, l, Start(Lock), [false, false, false]) == Next(l, Idle)
    ensures LockSolo(l).Some? && UnlockSolo(LockSolo(l).value) == l
  {
  }

  /** An uncontended `acquire_write` from a free lock takes the word from 0 to
      -1, and `release_write` brings it back to 0. */
  lemma AcquireReleaseWriteUncontended(v: Version)
    ensures Run(v, 0, Start(AcquireWrite), [false, false]) == Next(-1, Writing)
    ensures Run(v, -1, Writing, [false]) == Next(0, Idle)
  {
  }

  /** After one failed CAS against a reader count `n`, the as-written
      `acquire_write` expects `n`: with no other thread it first fails once
      more against 0 and only then succeeds. */
  lemma StaleExpectedRetry(n: int)
    requires n > 0
    ensures Step(AsWritten, n, WriteCas(0), false) == Next(n, WriteLoad(n))
    ensures Run(AsWritten, 0, WriteLoad(n), [false, false]) == Next(0, WriteLoad(0))
    ensures Run(AsWritten, 0, WriteLoad(0), [false, false]) == Next(-1, Writing)
  {
  }

  // ---------------------------------------------------------------------
  // Interleaved threads

  /** The lock word and the state of every thread using it. */
  datatype Sys = Sys(l: int, threads: seq<Pc>)

  /** A scheduling decision: an idle thread starts a call, or a busy thread
      takes its next atomic step. */
  datatype Event = Begin(tid: nat, call: Call) | Act(tid: nat, spurious: bool)

  predicate Enabled(s: Sys, e: Event) {
    e.tid < |s.threads| && (e.Begin? <==> s.threads[e.tid] == Idle)
  }

  /** The system after one event; only the scheduled thread and the word change. */
  function Apply(v: Version, s: Sys, e: Event): (t: Sys)
    requires Enabled(s, e)
    ensures |t.threads| == |s.threads|
    ensures forall i | 0 <= i < |s.threads| && i != e.tid :: t.threads[i] == s.threads[i]
    ensures e.Begin? ==> t.l == s.l
  {
    match e
    case Begin(tid, c) => Sys(s.l, s.threads[tid := Start(c)])
    case Act(tid, sp) =>
      var n := Step(v, s.l, s.threads[tid], sp);
      Sys(n.l, s.threads[tid := n.pc])
  }

  /** A free lock and `n` idle threads. */
  function Init(n: nat): Sys {
    Sys(0, seq(n, _ => Idle))
  }

  /** Runs a schedule; `None` if some event is not enabled when it comes. */
  function Exec(v: Version, s: Sys, trace: seq<Event>): Option<Sys>
    decreases |trace|
  {
    if |trace| == 0 then Some(s)
    else if !Enabled(s, trace[0]) then None
    else Exec(v, Apply(v, s, trace[0]), trace[1..])
  }

  predicate IsReader(pc: Pc) {
    pc.Reading?
  }

  predicate IsWriter(pc: Pc) {
    pc.Writing?
  }

  /** Ghost holder counts. */
  function Readers(ts: seq<Pc>): nat {
    Threads.Count(ts, IsReader)
  }

  function Writers(ts: seq<Pc>): nat {
    Threads.Count(ts, IsWriter)
  }

  /** Facts about a thread's local variables that the invariant needs. */
  predicate LocalOk(pc: Pc) {
    match pc
    case ReadCas(oldVal) => oldVal >= 0
    case WriteLoad(zero) => zero == 0
    case WriteCas(zero) => zero == 0
    case _ => true
  }

  /** `l == -1` exactly when one writer and no reader holds the lock, and
      otherwise `l` is the number of readers and no writer holds it. */
  predicate Inv(s: Sys) {
    (forall i | 0 <= i < |s.threads| :: LocalOk(s.threads[i]))
    && ((s.l == -1 && Writers(s.threads) == 1 && Readers(s.threads) == 0)
        || (s.l == Readers(s.threads) && Writers(s.threads) == 0))
  }

  /** At most one writer, and never a writer together with a reader. */
  predicate Exclusive(s: Sys) {
    Writers(s.threads) <= 1 && (Writers(s.threads) == 0 || Readers(s.threads) == 0)
  }

  lemma InitInv(n: nat)
    ensures Inv(Init(n))
  {
    assert forall i | 0 <= i < n :: Init(n).threads[i] == Idle;
  }

  /** Every step of the corrected lock keeps the invariant. */
  lemma CorrectedStepKeepsInv(s: Sys, e: Event)
    requires Inv(s) && Enabled(s, e)
    ensures Inv(Apply(Corrected, s, e))
  {
    var t := Apply(Corrected, s, e);
    var i := e.tid;
    var x := t.threads[i];
    assert t.threads == s.threads[i := x];
    Threads.CountUpdate(s.threads, i, x, IsReader);
    Threads.CountUpdate(s.threads, i, x, IsWriter);
    if e.Act? {
      CorrectedActKeepsInv(s, i, e.spurious);
    }
  }

  /** One atomic step of the corrected lock keeps the invariant. */
  lemma CorrectedActKeepsInv(s: Sys, i: nat, spurious: bool)
    requires Inv(s) && Enabled(s, Act(i, spurious))
    ensures Inv(Apply(Corrected, s, Act(i, spurious)))
  {
    var t := Apply(Corrected, s, Act(i, spurious));
    var x := t.threads[i];
    assert t.threads == s.threads[i := x];
    Threads.CountUpdate(s.threads, i, x, IsReader);
    Threads.CountUpdate(s.threads, i, x, IsWriter);
    var pc := s.threads[i];
    assert LocalOk(pc);
    CorrectedStepLocalOk(s.l, pc, spurious);
    assert forall j | 0 <= j < |t.threads| :: LocalOk(t.threads[j]);
    match pc
    case Reading =>
      assert Readers(s.threads) >= 1;
    case Writing =>
      assert Writers(s.threads) >= 1;
    case _ =>
  }

  /** A step of the corrected lock keeps a thread's local facts. */
  lemma CorrectedStepLocalOk(l: int, pc: Pc, spurious: bool)
    requires LocalOk(pc)
    ensures LocalOk(Step(Corrected, l, pc, spurious).pc)
  {
  }

  lemma {:induction false} CorrectedExecKeepsInv(s: Sys, trace: seq<Event>)
    requires Inv(s)
    ensures Exec(Corrected, s, trace).Some? ==> Inv(Exec(Corrected, s, trace).value)
    decreases |trace|
  {
    if |trace| > 0 && Enabled(s, trace[0]) {
      CorrectedStepKeepsInv(s, trace[0]);
      CorrectedExecKeepsInv(Apply(Corrected, s, trace[0]), trace[1..]);
    }
  }

  /** With the corrected `acquire_write`, every schedule of any number of
      threads keeps the invariant, so readers and a writer never overlap. */
  lemma CorrectedExclusion(n: nat, trace: seq<Event>)
    ensures var r := Exec(Corrected, Init(n), trace);
            r.Some? ==> Inv(r.value) && Exclusive(r.value)
  {
    InitInv(n);
    CorrectedExecKeepsInv(Init(n), trace);
  }

  /** Running a schedule from its `k`-th event on. */
  lemma ExecFrom(v: Version, s: Sys, trace: seq<Event>, k: nat, t: Sys)
    requires k < |trace| && Enabled(s, trace[k]) && Apply(v, s, trace[k]) == t
    ensures Exec(v, s, trace[k..]) == Exec(v, t, trace[k + 1..])
  {
    assert trace[k..][1..] == trace[k + 1..];
  }

  /** Writer `w` loses its CAS to reader `r` and keeps the reader count 1 as
      its expected value; once the reader has left and come back, that stale
      CAS succeeds while the reader holds the lock. */
  function StaleSchedule(w: nat, r: nat): seq<Event> {
    [ Begin(w, AcquireWrite), Act(w, false),             // writer loads 0
      Begin(r, Lock), Act(r, false), Act(r, false),      // reader: 0 -> 1
      Act(w, false),                                     // writer's CAS fails: zero := 1
      Act(r, false),                                     // reader unlocks: 1 -> 0
      Act(w, false),                                     // writer loads 0
      Begin(r, Lock), Act(r, false), Act(r, false),      // reader: 0 -> 1
      Act(w, false) ]                                    // writer's CAS(1, -1) succeeds
  }

  /** `t` is `StaleSchedule(w, r)`, event by event. */
  predicate IsStaleSchedule(t: seq<Event>, w: nat, r: nat) {
    && |t| == 12
    && t[0] == Begin(w, AcquireWrite) && t[1] == Act(w, false)
    && t[2] == Begin(r, Lock) && t[3] == Act(r, false) && t[4] == Act(r, false)
    && t[5] == Act(w, false) && t[6] == Act(r, false) && t[7] == Act(w, false)
    && t[8] == Begin(r, Lock) && t[9] == Act(r, false) && t[10] == Act(r, false)
    && t[11] == Act(w, false)
  }

  /** With any number of threads, the as-written `acquire_write` lets a writer
      in while a reader holds the lock; the reader's `unlock` then leaves
      `l == -2`, a value no state of the lock stands for. */
  lemma StaleExpectedBreaksExclusion(n: nat, w: nat, r: nat)
    requires w < n && r < n && w != r
    ensures var both := Init(n).threads[w := Writing][r := Reading];
            Exec(AsWritten, Init(n), StaleSchedule(w, r)) == Some(Sys(-1, both))
            && !Exclusive(Sys(-1, both)) && !Inv(Sys(-1, both))
            && Apply(AsWritten, Sys(-1, both), Act(r, false)) == Sys(-2, both[r := Idle])
  {
    var t := StaleSchedule(w, r);
    AsWrittenStaleRun(n, w, r, t);
    var both := Init(n).threads[w := Writing][r := Reading];
    assert IsWriter(both[w]) && IsReader(both[r]);
  }

  lemma AsWrittenStaleRun(n: nat, w: nat, r: nat, t: seq<Event>)
    requires w < n && r < n && w != r
    requires IsStaleSchedule(t, w, r)
    ensures Exec(AsWritten, Init(n), t) == Some(Sys(-1, Init(n).threads[w := Writing][r := Reading]))
  {
    AsWrittenStaleFirstHalf(n, w, r, t);
    AsWrittenStaleSecondHalf(n, w, r, t);
    assert t[12..] == [];
  }

  lemma AsWrittenStaleFirstHalf(n: nat, w: nat, r: nat, t: seq<Event>)
    requires w < n && r < n && w != r
    requires IsStaleSchedule(t, w, r)
    ensures Exec(AsWritten, Init(n), t) == Exec(AsWritten, Sys(1, Init(n).threads[w := WriteLoad(1)][r := Reading]), t[6..])
  {
    var v := AsWritten;
    var I := Init(n).threads;
    assert t[0..] == t;
    ExecFrom(v, Init(n), t, 0, Sys(0, I[w := WriteLoad(0)]));
    ExecFrom(v, Sys(0, I[w := WriteLoad(0)]), t, 1, Sys(0, I[w := WriteCas(0)]));
    ExecFrom(v, Sys(0, I[w := WriteCas(0)]), t, 2, Sys(0, I[w := WriteCas(0)][r := ReadLoad]));
    ExecFrom(v, Sys(0, I[w := WriteCas(0)][r := ReadLoad]), t, 3, Sys(0, I[w := WriteCas(0)][r := ReadCas(0)]));
    ExecFrom(v, Sys(0, I[w := WriteCas(0)][r := ReadCas(0)]), t, 4, Sys(1, I[w := WriteCas(0)][r := Reading]));
    assert I[w := WriteCas(0)][r := Reading][w := WriteLoad(1)] == I[w := WriteLoad(1)][r := Reading];
    ExecFrom(v, Sys(1, I[w := WriteCas(0)][r := Reading]), t, 5, Sys(1, I[w := WriteLoad(1)][r := Reading]));
  }

  lemma AsWrittenStaleSecondHalf(n: nat, w: nat, r: nat, t: seq<Event>)
    requires w < n && r < n && w != r
    requires IsStaleSchedule(t, w, r)
    ensures Exec(AsWritten, Sys(1, Init(n).threads[w := WriteLoad(1)][r := Reading]), t[6..])
            == Exec(AsWritten, Sys(-1, Init(n).threads[w := Writing][r := Reading]), t[12..])
  {
    var v := AsWritten;
    var I := Init(n).threads;
    assert I[w := WriteLoad(1)][r := Reading][r := Idle] == I[w := WriteLoad(1)];
    ExecFrom(v, Sys(1, I[w := WriteLoad(1)][r := Reading]), t, 6, Sys(0, I[w := WriteLoad(1)]));
    ExecFrom(v, Sys(0, I[w := WriteLoad(1)]), t, 7, Sys(0, I[w := WriteCas(1)]));
    ExecFrom(v, Sys(0, I[w := WriteCas(1)]), t, 8, Sys(0, I[w := WriteCas(1)][r := ReadLoad]));
    ExecFrom(v, Sys(0, I[w := WriteCas(1)][r := ReadLoad]), t, 9, Sys(0, I[w := WriteCas(1)][r := ReadCas(0)]));
    ExecFrom(v, Sys(0, I[w := WriteCas(1)][r := ReadCas(0)]), t, 10, Sys(1, I[w := WriteCas(1)][r := Reading]));
    assert I[w := WriteCas(1)][r := Reading][w := Writing] == I[w := Writing][r := Reading];
    ExecFrom(v, Sys(1, I[w := WriteCas(1)][r := Reading]), t, 11, Sys(-1, I[w := Writing][r := Reading]));
  }

  /** Under the same schedule the corrected writer is still waiting. */
  lemma CorrectedWaitsOnStaleSchedule(n: nat, w: nat, r: nat)
    requires w < n && r < n && w != r
    ensures Exec(Corrected, Init(n), StaleSchedule(w, r))
            == Some(Sys(1, Init(n).threads[w := WriteLoad(0)][r := Reading]))
  {
    CorrectedStaleRun(n, w, r, StaleSchedule(w, r));
  }

  lemma CorrectedStaleRun(n: nat, w: nat, r: nat, t: seq<Event>)
    requires w < n && r < n && w != r
    requires IsStaleSchedule(t, w, r)
    ensures Exec(Corrected, Init(n), t) == Some(Sys(1, Init(n).threads[w := WriteLoad(0)][r := Reading]))
  {
    CorrectedStaleFirstHalf(n, w, r, t);
    CorrectedStaleSecondHalf(n, w, r, t);
    assert t[12..] == [];
  }

  lemma CorrectedStaleFirstHalf(n: nat, w: nat, r: nat, t: seq<Event>)
    requires w < n && r < n && w != r
    requires IsStaleSchedule(t, w, r)
    ensures Exec(Corrected, Init(n), t) == Exec(Corrected, Sys(1, Init(n).threads[w := WriteLoad(0)][r := Reading]), t[6..])
  {
    var v := Corrected;
    var I := Init(n).threads;
    assert t[0..] == t;
    ExecFrom(v, Init(n), t, 0, Sys(0, I[w := WriteLoad(0)]));
    ExecFrom(v, Sys(0, I[w := WriteLoad(0)]), t, 1, Sys(0, I[w := WriteCas(0)]));
    ExecFrom(v, Sys(0, I[w := WriteCas(0)]), t, 2, Sys(0, I[w := WriteCas(0)][r := ReadLoad]));
    ExecFrom(v, Sys(0, I[w := WriteCas(0)][r := ReadLoad]), t, 3, Sys(0, I[w := WriteCas(0)][r := ReadCas(0)]));
    ExecFrom(v, Sys(0, I[w := WriteCas(0)][r := ReadCas(0)]), t, 4, Sys(1, I[w := WriteCas(0)][r := Reading]));
    assert I[w := WriteCas(0)][r := Reading][w := WriteLoad(0)] == I[w := WriteLoad(0)][r := Reading];
    ExecFrom(v, Sys(1, I[w := WriteCas(0)][r := Reading]), t, 5, Sys(1, I[w := WriteLoad(0)][r := Reading]));
  }

  lemma CorrectedStaleSecondHalf(n: nat, w: nat, r: nat, t: seq<Event>)
    requires w < n && r < n && w != r
    requires IsStaleSchedule(t, w, r)
    ensures Exec(Corrected, Sys(1, Init(n).threads[w := WriteLoad(0)][r := Reading]), t[6..])
            == Exec(Corrected, Sys(1, Init(n).threads[w := WriteLoad(0)][r := Reading]), t[12..])
  {
    var v := Corrected;
    var I := Init(n).threads;
    assert I[w := WriteLoad(0)][r := Reading][r := Idle] == I[w := WriteLoad(0)];
    ExecFrom(v, Sys(1, I[w := WriteLoad(0)][r := Reading]), t, 6, Sys(0, I[w := WriteLoad(0)]));
    ExecFrom(v, Sys(0, I[w := WriteLoad(0)]), t, 7, Sys(0, I[w := WriteCas(0)]));
    ExecFrom(v, Sys(0, I[w := WriteCas(0)]), t, 8, Sys(0, I[w := WriteCas(0)][r := ReadLoad]));
    ExecFrom(v, Sys(0, I[w := WriteCas(0)][r := ReadLoad]), t, 9, Sys(0, I[w := WriteCas(0)][r := ReadCas(0)]));
    ExecFrom(v, Sys(0, I[w := WriteCas(0)][r := ReadCas(0)]), t, 10, Sys(1, I[w := WriteCas(0)][r := Reading]));
    assert I[w := WriteCas(0)][r := Reading][w := WriteLoad(0)] == I[w := WriteLoad(0)][r := Reading];
    ExecFrom(v, Sys(1, I[w := WriteCas(0)][r := Reading]), t, 11, Sys(1, I[w := WriteLoad(0)][r := Reading]));
  }
}
