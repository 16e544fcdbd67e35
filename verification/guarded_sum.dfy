/** The guarded reduction `sum` (main.cpp) and the buffer `read_only_test`
    fills for it. `sum` takes the lock, adds up `arr[0..size)` in a 32-bit
    `int`, releases the lock and returns the total; it does the same whatever
    lock it is given. */
module GuardedSum {
  import opened Outcomes
  import opened MachineInt
  import TatasLock
  import RwLock
  import CRwLock

  /** Number of slots of the stack buffer `int arr[5005]` of `read_only_test`. */
  const Capacity: nat := 5005

  /** The state of the lock `sum` is given: `No_lock`, `std::mutex` (only
      whether it is locked), `Tatas_lock`, `C_rw_lock` or `Rw_lock` (in
      shared mode). */
  datatype Lock = NoLock | Mutex(locked: bool) | Tatas(flag: bool) | CRw(l: int) | Rw(l: int)

  /** A lock as its default constructor leaves it: unlocked, flag `false`,
      word 0. */
  predicate Free(lk: Lock) {
    match lk
    case NoLock => true
    case Mutex(locked) => !locked
    case Tatas(flag) => !flag
    case CRw(l) => l == 0
    case Rw(l) => l == 0
  }

  /** The lock after an uncontended `lock()`, or `None` when that call never
      returns because the lock is taken and no other thread runs. */
  function Acquire(v: Version, lk: Lock): (r: Option<Lock>)
    ensures r.Some? <==> (match lk
                          case NoLock => true
                          case Mutex(locked) => !locked
                          case Tatas(flag) => !flag
                          case CRw(l) => l >= 0
                          case Rw(l) => l >= 0)
    // the lock keeps its class ...
    ensures r.Some? ==> r.value.NoLock? == lk.NoLock? && r.value.Mutex? == lk.Mutex?
                        && r.value.Tatas? == lk.Tatas? && r.value.CRw? == lk.CRw? && r.value.Rw? == lk.Rw?
    // ... and, but for `No_lock`, is held once lock() returns
    ensures r.Some? && !lk.NoLock? ==> !Free(r.value)
    // a counting lock counts the caller once (the as-written C_rw_lock on 0 aside)
    ensures r.Some? && lk.Rw? ==> r.value.l == lk.l + 1
    ensures r.Some? && lk.CRw? && (v == Corrected || lk.l != 0) ==> r.value.l == lk.l + 1
  {
    match lk
    case NoLock => Some(NoLock)
    case Mutex(locked) => if locked then None else Some(Mutex(true))
    case Tatas(flag) =>
      var f := TatasLock.LockSolo(flag);
      if f.Some? then Some(Tatas(f.value)) else None
    case CRw(l) =>
      var w := CRwLock.LockSolo(v, l);
      if w.Some? then Some(CRw(w.value)) else None
    case Rw(l) =>
      var w := RwLock.LockSolo(l);
      if w.Some? then Some(Rw(w.value)) else None
  }

  /** The lock after `unlock()`. */
  function Release(lk: Lock): Lock {
    match lk
    case NoLock => NoLock
    case Mutex(_) => Mutex(false)
    case Tatas(flag) => Tatas(TatasLock.UnlockSolo(flag))
    case CRw(l) => CRw(CRwLock.UnlockSolo(l))
    case Rw(l) => Rw(RwLock.UnlockSolo(l))
  }

  /** An uncontended `lock` then `unlock` leaves every lock as it found it,
      except the as-written `C_rw_lock` on a free word, which it leaves at 1. */
  lemma AcquireReleaseRoundTrip(v: Version, lk: Lock)
    requires Acquire(v, lk).Some?
    ensures v == AsWritten && lk == CRw(0) ==> Release(Acquire(v, lk).value) == CRw(1)
    ensures v == Corrected || lk != CRw(0) ==> Release(Acquire(v, lk).value) == lk
  {
    match lk
    case NoLock =>
    case Mutex(_) =>
    case Tatas(flag) => TatasLock.LockUnlockRestores();
    case CRw(l) =>
      if v == AsWritten && l == 0 {
        CRwLock.LockUnlockFromZeroLeavesOne();
      } else {
        assert CRwLock.LockSolo(v, l) == Some(l + 1);
      }
    case Rw(l) => RwLock.LockUnlockRestores(v, l);
  }

  /** Mathematical sum of a sequence. */
  function Total(s: seq<int>): int {
    if |s| == 0 then 0 else Total(s[..|s| - 1]) + s[|s| - 1]
  }

  function Clamp(size: int): nat {
    if size < 0 then 0 else size
  }

  /** `sum(arr, size, lock)`. The result is the total of `arr[0..size)` (none
      when `size` is negative) reduced to 32 bits, so it equals the true total
      whenever that fits an `int`; it does not depend on the lock. The lock is
      taken once before the loop and released once after it. Only calls that
      return are modelled: the lock must be obtainable without another thread. */
  method Sum(v: Version, arr: seq<Int32>, size: int, lk: Lock) returns (r: Int32, after: Lock)
    requires size <= |arr|
    requires Acquire(v, lk).Some?
    ensures r == Wrap32(Total(arr[..Clamp(size)]))
    ensures InRange32(Total(arr[..Clamp(size)])) ==> r == Total(arr[..Clamp(size)])
    ensures after == Release(Acquire(v, lk).value)
    ensures v == Corrected || lk != CRw(0) ==> after == lk
    ensures v == AsWritten && lk == CRw(0) ==> after == CRw(1)
  {
    var held := Acquire(v, lk).value;
    var result: Int32 := 0;
    var i := 0;
    while i < size
      invariant 0 <= i <= Clamp(size)
      invariant result == Wrap32(Total(arr[..i]))
    {
      assert arr[..i + 1][..i] == arr[..i];
      WrapAdd(Total(arr[..i]), arr[i]);
      result := Wrap32(result + arr[i]);
      i := i + 1;
    }
    after := Release(held);
    AcquireReleaseRoundTrip(v, lk);
    r := result;
  }

  /** The loop of `read_only_test` that writes `rand()` into
      `arr[0..arr_size)`; `rands` stands for the successive values of
      `rand()` and `before` for the buffer's indeterminate prior contents.
      The C array has `Capacity` slots, so the loop stays inside it only when
      `arrSize <= Capacity`. */
  method Fill(arrSize: int, rands: seq<Int32>, before: seq<Int32>) returns (arr: seq<Int32>)
    requires |before| == Capacity
    requires arrSize <= Capacity && arrSize <= |rands|
    ensures |arr| == Capacity
    ensures forall i | 0 <= i < Capacity :: arr[i] == (if i < arrSize then rands[i] else before[i])
    ensures arr[..Clamp(arrSize)] == rands[..Clamp(arrSize)]
  {
    arr := before;
    var i := 0;
    while i < arrSize
      invariant 0 <= i <= Clamp(arrSize)
      invariant |arr| == Capacity
      invariant forall j | 0 <= j < Capacity :: arr[j] == (if j < i then rands[j] else before[j])
    {
      arr := arr[i := rands[i]];
      i := i + 1;
    }
  }
}
