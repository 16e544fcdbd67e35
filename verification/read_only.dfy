/** The part of `read_only_test` (main.cpp) that the model keeps: the fill
    loop over the 5005-slot buffer followed by one `sum` over its first
    `arr_size` slots, for the run the command line selects and the freshly
    constructed lock of its class. The worker threads that repeat the call
    are not modelled. */
module ReadOnlyTest {
  import opened Outcomes
  import opened MachineInt
  import Args
  import GuardedSum

  /** The lock `main` constructs for a lock class: a default-constructed
      `No_lock`, `std::mutex`, `Tatas_lock` (flag `false`) or `C_rw_lock`
      (word 0). */
  function Fresh(c: Args.LockClass): (lk: GuardedSum.Lock)
    ensures GuardedSum.Free(lk)
    ensures forall v :: GuardedSum.Acquire(v, lk).Some?
    ensures c == Args.NoLockClass <==> lk.NoLock?
    ensures c == Args.MutexClass <==> lk.Mutex?
    ensures c == Args.TatasClass <==> lk.Tatas?
    ensures c == Args.CRwClass <==> lk.CRw?
  {
    match c
    case NoLockClass => GuardedSum.NoLock
    case MutexClass => GuardedSum.Mutex(false)
    case TatasClass => GuardedSum.Tatas(false)
    case CRwClass => GuardedSum.CRw(0)
  }

  /** The first `sum` of a read-only run chosen by the corrected command line,
      on the lock `main` constructs for it: the fill stays inside the buffer,
      `sum` returns the total of the values `rand()` produced, reduced to 32
      bits, and the lock is left as it was constructed. */
  method FirstSum(argv: seq<string>, rands: seq<Int32>, before: seq<Int32>)
    returns (r: Int32, after: GuardedSum.Lock)
    requires Args.Plan(Corrected, argv).Ok? && Args.Plan(Corrected, argv).value.ReadOnlyRun?
    requires |before| == GuardedSum.Capacity
    requires Args.Plan(Corrected, argv).value.arrSize <= |rands|
    ensures var n := GuardedSum.Clamp(Args.Plan(Corrected, argv).value.arrSize);
            r == Wrap32(GuardedSum.Total(rands[..n]))
    ensures after == Fresh(Args.Plan(Corrected, argv).value.lock)
  {
    var run := Args.Plan(Corrected, argv).value;
    Args.CorrectedRunsFitBuffer(argv);
    var arr := GuardedSum.Fill(run.arrSize, rands, before);
    r, after := GuardedSum.Sum(Corrected, arr, run.arrSize, Fresh(run.lock));
  }
}
