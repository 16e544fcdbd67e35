# Lock micro-benchmark: a Dafny model

The program is a small lock benchmark written in one C++ file (`main.cpp`).
It defines four lock classes:

- `No_lock`, which does nothing;
- `Rw_lock`, a reader/writer lock on one `atomic_int`;
- `C_rw_lock`, a counting lock on a plain `int` driven by GCC's `__sync` builtins;
- `Tatas_lock`, a test-and-test-and-set spin lock on one `atomic_bool`.

It also defines a guarded reduction `sum`, which locks, adds up a prefix of
an array and unlocks. `main` turns the command line into a configuration by
matching each token as a prefix of a fixed list of flags. It then runs a
spinning benchmark or the read-only benchmark. The read-only benchmark fills
a 5005-slot stack buffer and calls `sum` under the chosen lock.

The model keeps the following parts:

- **Atomic primitives** (`Atomics`). Each primitive is a pure step on one
  word that returns the new word and what the primitive returns to its
  caller. The primitives are `compare_exchange_weak` (with spurious failure,
  writing the observed value back into `expected`),
  `__sync_val_compare_and_swap` (returns the prior value), `exchange` and
  `fetch_add`.
- **Locks as state machines** (`RwLock`, `TatasLock`, `CRwLock`).
  - Every atomic access of a lock method is one step of a thread, and `Step`
    is the per-thread transition.
  - An uncontended `lock()`/`unlock()` is a composition of steps (`LockSolo`,
    `UnlockSolo`).
  - Interleaved systems of any number of threads (`Sys`, `Event`, `Exec`)
    carry ghost holder counts. Their invariants are proved inductively over
    every schedule.
- **The guarded reduction** (`GuardedSum`). `sum` is a method with a loop
  invariant. Its 32-bit `int` accumulator is modelled by explicit
  two's-complement wrap-around. Alongside it sit the fill loop of the 5005-slot
  buffer and the uncontended `lock`/`unlock` of each lock class.
- **The command line** (`Decimal`, `Args`, `ReadOnlyTest`).
  - `std::stoi` is modelled as the character scan it performs, and is proved
    equal to a reference definition stated on the token's parts.
  - `Args` covers the prefix test `constant.find(token) == 0`, the argument
    loop with its defaults and its precedence, and the dispatch to a
    benchmark and a lock class.
  - `ReadOnlyTest` composes the chosen run's fill and one `sum` call.

Several operations of the program behave in a way that is evidently
unintended (see "Findings"). They take a `Version` parameter: `AsWritten`
follows the code, and `Corrected` is the evidently intended behaviour. Each
finding is proved for both versions.

Two facts about the code shape the model:

- `C_rw_lock` (main.cpp:93-107) has only a shared `lock()` that counts
  holders. It has no exclusive mode.
- `Rw_lock::acquire_write` (main.cpp:66-72) does not always compare against
  0: after a failed CAS it compares against the value that CAS observed.

## Model

| member | source | states |
|---|---|---|
| `Atomics.CompareExchangeWeak` | main.cpp:69 | `compare_exchange_weak` succeeds only if the word equals `expected`, and then stores `desired`. On failure it leaves the word unchanged. Either way `expected` ends up holding the observed word. Without a spurious failure, equal values always succeed. |
| `Atomics.ValCompareAndSwap` | main.cpp:100 | `__sync_val_compare_and_swap` returns the word's prior value and stores `newVal` exactly when the word held `oldVal` |
| `Atomics.Exchange` | main.cpp:116 | `exchange(v)` returns the prior value and leaves `v` in the word |
| `Atomics.FetchAdd` | main.cpp:89 | `fetch_add(d)` returns the prior value and changes the word by exactly `d` |
| `Atomics.ValCasAgreesWithWeak` | main.cpp:100 | the strong CAS succeeded exactly when its returned prior value equals `oldVal`; it then writes what a non-spurious weak CAS writes |
| `Atomics.ValCasNonZeroIsNotSuccess` | main.cpp:100 | a successful CAS from 0 returns 0; a CAS that lost to the value 2 returns 2 and writes nothing |
| `MachineInt.WrapAdd` | main.cpp:132-135 | wrapping to 32 bits after every `result += arr[i]` gives the same value as wrapping the exact total once |
| `RwLock.Start` | main.cpp:66-67 | `lock()` starts at its load, and `acquire_write()` starts at its load with `zero == 0` |
| `RwLock.Step` | main.cpp:66-90 | `lock()` goes on to its CAS only after loading `old_val >= 0`. It returns only from a successful CAS, which stores `old_val + 1`. A failed CAS of `lock()` leaves the word alone and goes back to the load. `unlock()` subtracts exactly 1. `acquire_write()` goes on to its CAS only after loading 0. After loading anything else it loads again with `zero` unchanged. It returns only from a CAS whose `zero` equalled `l`, which stores -1. As written, a failed CAS leaves the observed value in `zero`. `release_write()` stores 0 unconditionally. |
| `RwLock.LockSolo` | main.cpp:79-86 | an uncontended `lock()` returns exactly when `l >= 0`, after a load and a CAS, leaving `l + 1`; on a negative word it spins without changing anything |
| `RwLock.UnlockSolo` | main.cpp:88-90 | `unlock()` leaves `l - 1` |
| `RwLock.LockUnlockRestores` | main.cpp:79-90 | from any `l >= 0`, the steps of an uncontended `lock` then `unlock` (a load, a CAS, a `fetch_add(-1)`) bring the thread back to idle with `l` restored |
| `RwLock.AcquireReleaseWriteUncontended` | main.cpp:66-77 | an uncontended `acquire_write` takes the word from 0 to -1 and `release_write` brings it back to 0 |
| `RwLock.StaleExpectedRetry` | main.cpp:67-72 | after a CAS that failed against a reader count `n`, the as-written `acquire_write` expects `n`: on a free word it first fails once more and only then succeeds |
| `RwLock.Apply` | main.cpp:64-90 | one scheduling event changes only the scheduled thread, and starting a call does not touch the word |
| `RwLock.InitInv` | main.cpp:64 | a fresh lock (`l = 0`) with idle threads satisfies the invariant |
| `RwLock.CorrectedStepKeepsInv` | main.cpp:64-90 | every event of the corrected lock keeps the invariant. The invariant is: `l == -1` with exactly one writer and no reader, or `l` equals the number of readers and there is no writer. |
| `RwLock.CorrectedExecKeepsInv` | main.cpp:64-90 | every schedule of the corrected lock, from a state satisfying the invariant, keeps it |
| `RwLock.CorrectedExclusion` | main.cpp:64-90 | for any number of threads and any schedule, the corrected lock keeps the invariant: at most one writer, never a writer together with a reader |
| `RwLock.StaleExpectedBreaksExclusion` | main.cpp:66-90 | a twelve-event schedule of the as-written lock ends with a writer and a reader both holding it, at `l == -1`; the reader's `unlock` then takes the word to -2 |
| `RwLock.CorrectedWaitsOnStaleSchedule` | main.cpp:66-73 | on the same schedule the corrected writer is still waiting while the reader holds the lock |
| `TatasLock.Step` | main.cpp:113-121 | the test loop only reads and moves on after reading `false`. `lock()` returns only after an `exchange(true)` that returned `false`, so this call set the flag. An exchange that returned `true` goes back to testing. `unlock()` stores `false`. |
| `TatasLock.LockSolo` | main.cpp:113-117 | an uncontended `lock()` returns exactly when the flag is `false`, after a test and an exchange, leaving it `true`; on a set flag it spins |
| `TatasLock.UnlockSolo` | main.cpp:119-121 | `unlock()` leaves the flag `false` |
| `TatasLock.LockUnlockRestores` | main.cpp:113-121 | from `false`, the steps of `lock` then `unlock` (a test, an exchange, a store) bring the thread back to idle with the flag `false` again |
| `TatasLock.Apply` | main.cpp:109-122 | one scheduling event changes only the scheduled thread |
| `TatasLock.StepKeepsInv` | main.cpp:109-122 | every event keeps "the flag is set exactly when one thread holds the lock" |
| `TatasLock.ExecKeepsInv` | main.cpp:109-122 | every schedule from a state satisfying that invariant keeps it |
| `TatasLock.MutualExclusion` | main.cpp:109-122 | for any number of threads and any schedule, at most one thread holds the lock, and the flag says whether one does |
| `CRwLock.Step` | main.cpp:97-106 | the read goes on to the CAS exactly when it saw a non-negative value. The CAS writes `old_val + 1` exactly when the word still held `old_val`. As written, `lock()` returns exactly when the prior value was non-zero; corrected, exactly when its CAS succeeded. A CAS that does not return goes back to the read. `unlock()` subtracts one. |
| `CRwLock.LockSolo` | main.cpp:97-102 | an uncontended `lock()` returns exactly when `l >= 0`. As written, from 0 it goes round the loop twice and leaves 2. Otherwise it leaves `l + 1` after one read and one CAS. |
| `CRwLock.UnlockSolo` | main.cpp:104-106 | `unlock()` leaves `l - 1` |
| `CRwLock.LockUnlockFromZeroLeavesOne` | main.cpp:97-106 | as written, `lock` then `unlock` on a free lock leaves `l == 1` |
| `CRwLock.CorrectedLockUnlockRestores` | main.cpp:97-106 | corrected, `lock` then `unlock` restores any `l >= 0` |
| `CRwLock.LostCasCommits` | main.cpp:100 | as written, a thread whose CAS lost to a non-zero value leaves `lock()` without having counted itself; corrected, it retries |
| `CRwLock.Apply` | main.cpp:93-107 | one scheduling event changes only the scheduled thread |
| `CRwLock.CorrectedStepKeepsInv` | main.cpp:93-107 | every event of the corrected lock keeps "the word equals the number of holders" |
| `CRwLock.CorrectedExecKeepsInv` | main.cpp:93-107 | every schedule of the corrected lock keeps that invariant |
| `CRwLock.CorrectedCountsHolders` | main.cpp:93-107 | for any number of threads and any schedule, the corrected word is the number of holders |
| `CRwLock.AsWrittenDoubleCount` | main.cpp:97-102 | as written, one uncontended `lock()` ends with one holder and the word at 2, which breaks the counting invariant |
| `GuardedSum.Acquire` | main.cpp:56-117 | for each lock class, an uncontended `lock()` is obtainable exactly when the lock is free for the caller. `No_lock` is always free. `std::mutex` must be unlocked. The others need a clear flag, or a word that is not negative. Once `lock()` returns, the lock keeps its class, and every class but `No_lock` is held. `Rw_lock` counts the caller once, and so does `C_rw_lock`, except as written on a free word. |
| `GuardedSum.AcquireReleaseRoundTrip` | main.cpp:130-137 | an uncontended `lock` then `unlock` leaves every lock as it was, except the as-written `C_rw_lock` on a free word, which it leaves at 1 |
| `GuardedSum.Sum` | main.cpp:127-140 | `sum` returns the total of `arr[0..size)` (empty for a negative size), wrapped to 32 bits, so it is the exact total whenever that fits an `int`. The result does not depend on the lock. The lock is taken once and released once. |
| `GuardedSum.Fill` | main.cpp:162-165 | the fill loop writes the successive `rand()` values into `arr[0..arr_size)` and nothing else. It stays inside the 5005-slot buffer only under `arr_size <= 5005`, which it requires. |
| `Decimal.Finish` | main.cpp:250 | the digit run's signed value is returned exactly when it fits an `int`; otherwise the one error raised is `out_of_range` |
| `Decimal.Scan` | main.cpp:250 | the conversion succeeds only when a digit has been or will be read |
| `Decimal.Stoi` | main.cpp:250 | `stoi` produces a value only for a token holding a digit |
| `Decimal.StoiMatchesSpec` | main.cpp:250 | the character scan produces the value of the longest digit run after the white space and sign, or one of the two errors |
| `Decimal.StoiShow` | main.cpp:250 | `stoi` reads back every `int` written in decimal |
| `Args.Find` | main.cpp:237 | `find` returns the first position where the needle occurs, or none |
| `Args.FindZeroIffPrefix` | main.cpp:237 | `constant.find(token) == 0` holds exactly when the token is a prefix of the constant, the empty token included |
| `Args.ValueSetting` | main.cpp:247-257 | a value flag is ignored exactly when it is the last token. Otherwise it sets its own field to the value `stoi` reads from the next token. When that `stoi` throws, the token fails with `stoi`'s error, naming the next token. |
| `Args.ParseFromLastWins` | main.cpp:235-259 | from any token on, each field ends with the setting of the last token that sets it, or keeps its starting value |
| `Args.ParseLastWins` | main.cpp:228-259 | each field of the configuration is the setting of the last token that sets it, or its default (4 threads, delay 10000, `arr_size` 5, no lock, SPIN) |
| `Args.ParseFromFails` | main.cpp:235-259 | the loop fails exactly when some token fails, and with the first failing token's error |
| `Args.EffectFails` | main.cpp:247-257 | a token fails only when it is a value flag that is not last and `stoi` rejects the next token |
| `Args.NumberIsNoFlag` | main.cpp:195-203 | a token holding a digit is a prefix of no flag or command |
| `Args.NumberHasNoEffect` | main.cpp:235-258 | a token holding a digit leaves the configuration unchanged |
| `Args.ValueTokenIsInert` | main.cpp:247-257 | not skipping the value token after a value flag gives the same result as skipping it |
| `Args.AsWrittenNeverRw` | main.cpp:245-246 | as written, no token after the start selects the counting read/write lock |
| `Args.Dispatch` | main.cpp:264-288 | SPIN runs the spinning benchmark with `num_threads` and `delay`. READ_ONLY runs the read-only benchmark with `num_threads`, `arr_size` and `delay` as its loop count. The lock class follows the lock type one for one. |
| `Args.Plan` | main.cpp:225-288 | a `stoi` failure stops the program before any benchmark with that failure. A parsed command line runs the dispatch of its configuration. The one exception is in the corrected program: it refuses a read-only run with `arr_size > 5005`, with an error naming that size. |
| `Args.AsWrittenNeverRunsCRw` | main.cpp:245-286 | as written, no command line runs the read-only benchmark with `C_rw_lock` |
| `Args.CorrectedRunsFitBuffer` | main.cpp:162-165 | corrected, every read-only run has `arr_size <= 5005` |
| `ArgsExamples.PrefixExamples` | main.cpp:237-254 | tokens match as prefixes in source order. The empty token and `S` select SPIN, `R` selects READ_ONLY, `-` selects the mutex, `-t` TATAS, `-r` the read/write flag, and `-n`, `-d`, `-a` the three value flags. |
| `ArgsExamples.NoFlagExamples` | main.cpp:198 | `-num-loops` is declared but matches nothing, and `SPIN!` matches nothing |
| `ArgsExamples.RwFlagExample` | main.cpp:245-246 | `READ_ONLY -rw-lock` runs the read-only benchmark with `Tatas_lock` as written, and with `C_rw_lock` corrected |
| `ArgsExamples.ArrSizeOverrunExample` | main.cpp:254-256 | `READ_ONLY -arr-size 6000` reaches the read-only benchmark with 6000 > 5005 as written; corrected, it is refused |
| `ReadOnlyTest.Fresh` | main.cpp:268-287 | the lock `main` constructs for each lock class is of that class and in its default state: `std::mutex` unlocked, the flag `false`, the word 0. So `lock()` can be taken without another thread. |
| `ReadOnlyTest.FirstSum` | main.cpp:162-172 | for a read-only run chosen by the corrected command line, on the lock `main` constructs for its class, the fill and the first `sum` stay inside the buffer. The call returns the wrapped total of the `rand()` values and leaves the lock as constructed. |

## Left out

- Threads and joins are not modelled: `spin_threads_test`, `thread_fn`, the
  worker threads of `read_only_test` and their `done` flag. The lock
  interleavings stand in for them. Termination of spin loops under contention
  is a liveness question that no contract here states.
- `memory_order_*` tags and visibility are not modelled: every atomic access
  is one indivisible step on a sequentially consistent word.
- `std::mutex` is a library primitive whose implementation is not part of
  this model. It appears as a lock class that dispatch can select, and as a
  lock that is either locked or not, taken uncontended exactly when it is
  not.
- `delay`, `rand()`, `thread::hardware_concurrency`, all output and the
  `Timer` clock are not modelled. `rand()` values are a parameter of `Fill`,
  and the buffer's prior contents a parameter too.
- `spin.py` is not part of this model: it only reads log files and averages
  floating-point numbers.
- `RwLock.Step`: lock words are unbounded integers. Overflowing a 32-bit word
  would need 2^31 simultaneous holders.
- `CRwLock.Step`: the same unbounded word.
- `CRwLock.Step`: `int old_val = l;` (main.cpp:99) is a plain read of a
  non-atomic `int` that the `__sync` builtins write concurrently. In C++ that
  is a data race. Under optimisation the compiler may keep the value in a
  register on the `old_val < 0` path, which has no barrier. The model treats
  the read as one atomic load of the current word.
- `GuardedSum.Sum`: models only calls whose `lock()` returns without help
  from another thread. The waiting is covered by the interleaved systems of
  the lock modules.
- `GuardedSum.Acquire`: same restriction, an uncontended `lock()` only.
- `Decimal.Stoi`: white space is the C locale's set. Other locales are not
  modelled.
- `Decimal.Stoi`: a thrown exception is an `Err` value, because the program
  does not catch it and terminates.
- `MachineInt.WrapAdd`: signed overflow in `sum` is undefined behaviour in
  C++. The model takes the two's-complement wrap-around that GCC produces at
  `-O0`.
- The value of `s` accumulated across repeated `sum` calls is not modelled.
  It lives only in the worker threads.

## Findings

| source | as written | input that shows it | evidently intended | confidence | as-written member | corrected member |
|---|---|---|---|---|---|---|
| main.cpp:245-246 | `-rw-lock` assigns `Lock_type::tatas` | `READ_ONLY -rw-lock` | `Lock_type::rw`, so that `C_rw_lock` can be run | high, not executed | `Args.AsWrittenNeverRunsCRw` | `ArgsExamples.RwFlagExample` |
| main.cpp:100 | `lock()` leaves its loop when `__sync_val_compare_and_swap` returns non-zero. That value is the prior value, not a success flag. | one `lock()` on a free lock leaves `l == 2`; `lock;unlock` leaves 1 | leave exactly when the returned value equals `old_val` | high, not executed | `CRwLock.AsWrittenDoubleCount` | `CRwLock.CorrectedCountsHolders` |
| main.cpp:67-69 | `zero` is declared outside the loop, so a failed `compare_exchange_weak` leaves the observed reader count in it for the next CAS | writer loads 0; reader takes the lock (0 to 1); writer's CAS fails and stores 1 in `zero`; reader unlocks; writer loads 0; reader locks again (0 to 1); writer's CAS expecting 1 succeeds while the reader holds the lock | every CAS of `acquire_write` expects 0 | high, not executed | `RwLock.StaleExpectedBreaksExclusion` | `RwLock.CorrectedExclusion` |
| main.cpp:162-165 | the fill loop writes `arr[0..arr_size)` into `int arr[5005]` with no bound check on `arr_size`, which comes from the command line | `READ_ONLY -arr-size 6000` | refuse `arr_size > 5005` before filling | high, not executed | `ArgsExamples.ArrSizeOverrunExample` | `ReadOnlyTest.FirstSum` |
