/** The atomic primitives the locks are built from, each as a pure step on one
    machine word that returns the new word together with what the primitive
    returns to its caller. Memory-order tags are not modelled: every step is
    one indivisible transition of the word. */
module Atomics {

  /** Outcome of `compare_exchange_weak(expected, desired)` on a word holding
      `word`: whether it succeeded, the word afterwards, and the caller's
      `expected` variable afterwards. */
  datatype CasWeak<W> = CasWeak(success: bool, word: W, expected: W)

  /** `std::atomic<T>::compare_exchange_weak`. It may fail spuriously even
      when the word equals `expected`; `spurious` makes that choice. On any
      failure the value it observed is written back into `expected`
      (the atomic operations clause of ISO C++17). */
  function CompareExchangeWeak<W(==)>(word: W, expected: W, desired: W, spurious: bool): (r: CasWeak<W>)
    ensures r.success ==> word == expected && r.word == desired
    ensures !r.success ==> r.word == word
    ensures r.expected == word
    ensures word == expected && !spurious ==> r.success
  {
    if word == expected && !spurious then CasWeak(true, desired, expected)
    else CasWeak(false, word, word)
  }

  /** Outcome of a read-modify-write primitive that returns the prior value. */
  datatype Rmw<W> = Rmw(prior: W, word: W)

  /** GCC's `__sync_val_compare_and_swap(&word, oldVal, newVal)`: a strong CAS
      that returns the value the word held before, whether or not it wrote. */
  function ValCompareAndSwap(word: int, oldVal: int, newVal: int): (r: Rmw<int>)
    ensures r.prior == word
    ensures r.word == (if word == oldVal then newVal else word)
  {
    Rmw(word, if word == oldVal then newVal else word)
  }

  /** `std::atomic<T>::exchange(v)`. */
  function Exchange<W>(word: W, v: W): (r: Rmw<W>)
    ensures r.prior == word && r.word == v
  {
    Rmw(word, v)
  }

  /** `std::atomic<int>::fetch_add(d)` and GCC's `__sync_fetch_and_sub`
      (as `FetchAdd(word, -d)`). */
  function FetchAdd(word: int, d: int): (r: Rmw<int>)
    ensures r.prior == word && r.word - r.prior == d
  {
    Rmw(word, word + d)
  }

  /** The strong CAS succeeds exactly when its returned prior value equals the
      expected one, and then writes what a non-spurious weak CAS writes. So a
      caller of `__sync_val_compare_and_swap` learns of success only by
      comparing the returned value with `oldVal`, not by testing it for zero. */
  lemma ValCasAgreesWithWeak(word: int, oldVal: int, newVal: int)
    ensures var s := ValCompareAndSwap(word, oldVal, newVal);
            var w := CompareExchangeWeak(word, oldVal, newVal, false);
            (s.prior == oldVal <==> w.success) && s.word == w.word
  {
  }

  /** Test-for-zero and compare-with-expected disagree whenever `oldVal` is 0 or
      the CAS lost a race to a non-zero value. */
  lemma ValCasNonZeroIsNotSuccess()
    ensures ValCompareAndSwap(0, 0, 1) == Rmw(0, 1)
    ensures ValCompareAndSwap(2, 1, 2) == Rmw(2, 2)
  {
  }
}
