/** The command line of `main` (main.cpp): defaults, the argument loop that
    matches each token as a prefix of the known flags, and the dispatch to a
    benchmark and a lock class. */
module Args {
  import opened Outcomes
  import Decimal
  import GuardedSum

  const NumThreadsFlag: string := "-num_threads"
  const DelayFlag: string := "-delay"
  const ArrSizeFlag: string := "-arr-size"
  /** Declared by the program but never consulted: the loop count of the
      read-only benchmark is the delay value. */
  const NumLoopsFlag: string := "-num-loops"
  const MutexFlag: string := "-mutex"
  const TatasFlag: string := "-tatas"
  const RwFlag: string := "-rw-lock"
  const SpinCommand: string := "SPIN"
  const ReadOnlyCommand: string := "READ_ONLY"

  datatype LockType = NoLockType | MutexType | TatasType | RwType
  datatype Test = Spin | ReadOnly

  datatype Config = Config(numThreads: int, delay: int, arrSize: int, lockType: LockType, test: Test)

  const Defaults: Config := Config(4, 10000, 5, NoLockType, Spin)

  // ---------------------------------------------------------------------
  // Prefix matching with std::string::find

  predicate OccursAt(hay: string, needle: string, j: nat) {
    j + |needle| <= |hay| && hay[j..j + |needle|] == needle
  }

  /** `hay.find(needle)`: the first position where `needle` occurs, `None`
      for `npos`. */
  function Find(hay: string, needle: string): (r: Option<nat>)
    ensures r.Some? ==> OccursAt(hay, needle, r.value)
                        && forall j | 0 <= j < r.value :: !OccursAt(hay, needle, j)
    ensures r.None? ==> forall j: nat :: !OccursAt(hay, needle, j)
  {
    FindFrom(hay, needle, 0)
  }

  function FindFrom(hay: string, needle: string, i: nat): (r: Option<nat>)
    requires forall j | 0 <= j < i :: !OccursAt(hay, needle, j)
    ensures r.Some? ==> OccursAt(hay, needle, r.value)
                        && forall j | 0 <= j < r.value :: !OccursAt(hay, needle, j)
    ensures r.None? ==> forall j: nat :: !OccursAt(hay, needle, j)
    decreases |hay| - i
  {
    if i + |needle| > |hay| then None
    else if OccursAt(hay, needle, i) then Some(i)
    else FindFrom(hay, needle, i + 1)
  }

  /** `token` is a prefix of `constant`, compared character by character. */
  predicate IsPrefix(token: string, constant: string)
    decreases |token|
  {
    |token| == 0 || (|constant| > 0 && token[0] == constant[0] && IsPrefix(token[1..], constant[1..]))
  }

  lemma {:induction false} IsPrefixIff(token: string, constant: string)
    ensures IsPrefix(token, constant) <==> token <= constant
    decreases |token|
  {
    if |token| > 0 && |constant| > 0 {
      IsPrefixIff(token[1..], constant[1..]);
      if token <= constant {
        assert token[1..] <= constant[1..];
      }
      if token[0] == constant[0] && token[1..] <= constant[1..] {
        assert forall k | 0 <= k < |token| :: token[k] == constant[k] by {
          forall k | 0 <= k < |token| ensures token[k] == constant[k] {
            if k > 0 {
              assert token[k] == token[1..][k - 1];
            }
          }
        }
      }
    }
  }

  /** `constant.find(token) == 0`, the test of the argument loop, holds
      exactly when the token is a prefix of the constant (the empty token
      included). The loop below is written with the prefix test. */
  lemma FindZeroIffPrefix(constant: string, token: string)
    ensures Find(constant, token) == Some(0) <==> IsPrefix(token, constant)
  {
    IsPrefixIff(token, constant);
    if token <= constant {
      assert OccursAt(constant, token, 0);
    }
  }

  /** What a token is taken for: the first of the tests of the loop, in
      source order, that it passes. */
  datatype Token =
    | SpinCmd | ReadOnlyCmd | MutexOpt | TatasOpt | RwOpt
    | NumThreadsOpt | DelayOpt | ArrSizeOpt | Other

  function Classify(token: string): Token {
    if IsPrefix(token, SpinCommand) then SpinCmd
    else if IsPrefix(token, ReadOnlyCommand) then ReadOnlyCmd
    else if IsPrefix(token, MutexFlag) then MutexOpt
    else if IsPrefix(token, TatasFlag) then TatasOpt
    else if IsPrefix(token, RwFlag) then RwOpt
    else if IsPrefix(token, NumThreadsFlag) then NumThreadsOpt
    else if IsPrefix(token, DelayFlag) then DelayOpt
    else if IsPrefix(token, ArrSizeFlag) then ArrSizeOpt
    else Other
  }

  /** The constants the loop tests tokens against. */
  function AllFlags(): set<string> {
    {SpinCommand, ReadOnlyCommand, MutexFlag, TatasFlag, RwFlag, NumThreadsFlag, DelayFlag, ArrSizeFlag}
  }

  // ---------------------------------------------------------------------
  // The argument loop

  /** A field of the configuration together with a value for it. */
  datatype Setting =
    | SetTest(test: Test)
    | SetLock(lockType: LockType)
    | SetThreads(threads: int)
    | SetDelay(delay: int)
    | SetArrSize(arrSize: int)

  datatype Field = TestField | LockField | ThreadsField | DelayField | ArrSizeField

  function FieldOf(s: Setting): Field {
    match s
    case SetTest(_) => TestField
    case SetLock(_) => LockField
    case SetThreads(_) => ThreadsField
    case SetDelay(_) => DelayField
    case SetArrSize(_) => ArrSizeField
  }

  /** The value a configuration holds for a field. */
  function Get(c: Config, f: Field): (s: Setting)
    ensures FieldOf(s) == f
  {
    match f
    case TestField => SetTest(c.test)
    case LockField => SetLock(c.lockType)
    case ThreadsField => SetThreads(c.numThreads)
    case DelayField => SetDelay(c.delay)
    case ArrSizeField => SetArrSize(c.arrSize)
  }

  /** A setting changes its own field and no other. */
  function Put(c: Config, s: Setting): (d: Config)
    ensures Get(d, FieldOf(s)) == s
    ensures forall f | f != FieldOf(s) :: Get(d, f) == Get(c, f)
  {
    match s
    case SetTest(t) => c.(test := t)
    case SetLock(l) => c.(lockType := l)
    case SetThreads(n) => c.(numThreads := n)
    case SetDelay(n) => c.(delay := n)
    case SetArrSize(n) => c.(arrSize := n)
  }

  /** Why the program stops before running a benchmark: `stoi` threw on the
      token at `index`, or (corrected version only) the buffer is too small. */
  datatype Failure = BadValue(index: nat, reason: Decimal.StoiError) | ArrSizeTooLarge(arrSize: int)

  /** The value following a value flag at `i`; the flag is ignored when it is
      the last token. */
  function ValueSetting(argv: seq<string>, i: nat, f: Field): (r: Result<Option<Setting>, Failure>)
    requires 1 <= i < |argv|
    requires f == ThreadsField || f == DelayField || f == ArrSizeField
    ensures r.Ok? && r.value.Some? ==> FieldOf(r.value.value) == f
    ensures r.Ok? && r.value.None? <==> i + 1 == |argv|
    ensures r.Err? ==> i + 1 < |argv| && r.error.BadValue? && r.error.index == i + 1 && Decimal.Stoi(argv[i + 1]) == Err(r.error.reason)
    // the field receives the value `stoi` reads from the next token ...
    ensures r.Ok? && r.value.Some? ==> Decimal.Stoi(argv[i + 1]).Ok?
                                       && r.value.value == SetValue(f, Decimal.Stoi(argv[i + 1]).value)
    // ... and a `stoi` that throws stops the program
    ensures i + 1 < |argv| && Decimal.Stoi(argv[i + 1]).Err? ==> r.Err?
  {
    if i + 1 == |argv| then Ok(None)
    else
      var value := Decimal.Stoi(argv[i + 1]);
      if value.Err? then Err(BadValue(i + 1, value.error))
      else Ok(Some(SetValue(f, value.value)))
  }

  /** The setting a value flag for field `f` makes. */
  function SetValue(f: Field, n: int): (s: Setting)
    requires f == ThreadsField || f == DelayField || f == ArrSizeField
    ensures FieldOf(s) == f
  {
    match f
    case ThreadsField => SetThreads(n)
    case DelayField => SetDelay(n)
    case _ => SetArrSize(n)
  }

  /** What the loop body does with the token at `i`. As written, `-rw-lock`
      selects the TATAS lock; corrected, it selects the counting lock. */
  function Effect(v: Version, argv: seq<string>, i: nat): Result<Option<Setting>, Failure>
    requires 1 <= i < |argv|
  {
    match Classify(argv[i])
    case SpinCmd => Ok(Some(SetTest(Spin)))
    case ReadOnlyCmd => Ok(Some(SetTest(ReadOnly)))
    case MutexOpt => Ok(Some(SetLock(MutexType)))
    case TatasOpt => Ok(Some(SetLock(TatasType)))
    case RwOpt => Ok(Some(SetLock(if v == AsWritten then TatasType else RwType)))
    case NumThreadsOpt => ValueSetting(argv, i, ThreadsField)
    case DelayOpt => ValueSetting(argv, i, DelayField)
    case ArrSizeOpt => ValueSetting(argv, i, ArrSizeField)
    case Other => Ok(None)
  }

  /** The loop from token `i` on, starting from `c`; the first failing `stoi`
      ends it. The token after a value flag is not skipped. */
  function ParseFrom(v: Version, argv: seq<string>, i: nat, c: Config): Result<Config, Failure>
    requires 1 <= i
    decreases |argv| - i
  {
    if i >= |argv| then Ok(c)
    else
      match Effect(v, argv, i)
      case Err(e) => Err(e)
      case Ok(None) => ParseFrom(v, argv, i + 1, c)
      case Ok(Some(s)) => ParseFrom(v, argv, i + 1, Put(c, s))
  }

  /** The argument loop of `main`; `argv[0]` is the program name. */
  function Parse(v: Version, argv: seq<string>): Result<Config, Failure> {
    ParseFrom(v, argv, 1, Defaults)
  }

  // ---------------------------------------------------------------------
  // Properties of the loop

  /** The setting of the last token in `[lo, hi)` that sets field `f`. */
  function LastSetting(v: Version, argv: seq<string>, lo: nat, hi: nat, f: Field): (r: Option<Setting>)
    requires 1 <= lo && hi <= |argv|
    ensures r.Some? ==> FieldOf(r.value) == f
    decreases hi
  {
    if hi <= lo then None
    else
      var e := Effect(v, argv, hi - 1);
      if e.Ok? && e.value.Some? && FieldOf(e.value.value) == f then e.value
      else LastSetting(v, argv, lo, hi - 1, f)
  }

  /** Dropping the first token of the range keeps the last setting unless the
      first token was the only one to set the field. */
  lemma {:induction false} LastSettingFront(v: Version, argv: seq<string>, lo: nat, hi: nat, f: Field)
    requires 1 <= lo < hi <= |argv|
    ensures var e := Effect(v, argv, lo);
            var rest := LastSetting(v, argv, lo + 1, hi, f);
            LastSetting(v, argv, lo, hi, f)
            == if rest.Some? then rest
               else if e.Ok? && e.value.Some? && FieldOf(e.value.value) == f then e.value
               else None
    decreases hi
  {
    if hi - 1 > lo {
      LastSettingFront(v, argv, lo, hi - 1, f);
    }
  }

  /** Each field ends up with the value of the last token that sets it, or
      keeps its starting value when no token does. */
  lemma {:induction false} ParseFromLastWins(v: Version, argv: seq<string>, i: nat, c: Config, f: Field)
    requires 1 <= i
    requires ParseFrom(v, argv, i, c).Ok?
    ensures var last := if i <= |argv| then LastSetting(v, argv, i, |argv|, f) else None;
            Get(ParseFrom(v, argv, i, c).value, f) == if last.Some? then last.value else Get(c, f)
    decreases |argv| - i
  {
    if i < |argv| {
      LastSettingFront(v, argv, i, |argv|, f);
      match Effect(v, argv, i)
      case Ok(None) =>
        ParseFromLastWins(v, argv, i + 1, c, f);
      case Ok(Some(s)) =>
        ParseFromLastWins(v, argv, i + 1, Put(c, s), f);
    }
  }

  /** The whole command line: last one wins, defaults otherwise. */
  lemma ParseLastWins(v: Version, argv: seq<string>, f: Field)
    requires Parse(v, argv).Ok?
    ensures var last := if 1 <= |argv| then LastSetting(v, argv, 1, |argv|, f) else None;
            Get(Parse(v, argv).value, f) == if last.Some? then last.value else Get(Defaults, f)
  {
    ParseFromLastWins(v, argv, 1, Defaults, f);
  }

  /** The first token from `i` on whose effect is a failure. */
  function FirstFailure(v: Version, argv: seq<string>, i: nat): (r: Option<nat>)
    requires 1 <= i
    ensures r.Some? ==> i <= r.value < |argv| && Effect(v, argv, r.value).Err?
                        && forall k | i <= k < r.value :: Effect(v, argv, k).Ok?
    ensures r.None? ==> forall k | i <= k < |argv| :: Effect(v, argv, k).Ok?
    decreases |argv| - i
  {
    if i >= |argv| then None
    else if Effect(v, argv, i).Err? then Some(i)
    else FirstFailure(v, argv, i + 1)
  }

  /** The loop fails exactly when some token's effect fails, and it reports
      the first such failure. */
  lemma {:induction false} ParseFromFails(v: Version, argv: seq<string>, i: nat, c: Config)
    requires 1 <= i
    ensures var f := FirstFailure(v, argv, i);
            ParseFrom(v, argv, i, c).Err? <==> f.Some?
    ensures var f := FirstFailure(v, argv, i);
            f.Some? ==> ParseFrom(v, argv, i, c).error == Effect(v, argv, f.value).error
    decreases |argv| - i
  {
    if i < |argv| {
      match Effect(v, argv, i)
      case Err(e) =>
      case Ok(None) =>
        ParseFromFails(v, argv, i + 1, c);
      case Ok(Some(s)) =>
        ParseFromFails(v, argv, i + 1, Put(c, s));
    }
  }

  /** A token's effect fails only on a value flag followed by a bad number. */
  lemma EffectFails(v: Version, argv: seq<string>, i: nat)
    requires 1 <= i < |argv|
    ensures Effect(v, argv, i).Err? <==>
              Classify(argv[i]) in {NumThreadsOpt, DelayOpt, ArrSizeOpt}
              && i + 1 < |argv| && Decimal.Stoi(argv[i + 1]).Err?
  {
  }

  /** The argument loop as if it skipped the token after a value flag. */
  function ParseSkipping(v: Version, argv: seq<string>, i: nat, c: Config): Result<Config, Failure>
    requires 1 <= i
    decreases |argv| - i
  {
    if i >= |argv| then Ok(c)
    else
      match Effect(v, argv, i)
      case Err(e) => Err(e)
      case Ok(None) => ParseSkipping(v, argv, i + 1, c)
      case Ok(Some(s)) =>
        if FieldOf(s) in {ThreadsField, DelayField, ArrSizeField}
        then ParseSkipping(v, argv, i + 2, Put(c, s))
        else ParseSkipping(v, argv, i + 1, Put(c, s))
  }

  /** A token holding a digit is no prefix of a constant without digits. */
  lemma DigitBlocksPrefix(token: string, constant: string)
    requires Decimal.HasDigit(token)
    requires forall m | 0 <= m < |constant| :: !Decimal.IsDigit(constant[m])
    ensures !IsPrefix(token, constant)
  {
    IsPrefixIff(token, constant);
  }

  /** No flag holds a digit, so a token `stoi` accepts matches no flag. */
  lemma NumberIsNoFlag(token: string)
    requires Decimal.HasDigit(token)
    ensures Classify(token) == Other
  {
    forall c | c in AllFlags() ensures !IsPrefix(token, c) {
      DigitBlocksPrefix(token, c);
    }
  }

  /** A value flag that takes effect is followed by a token `stoi` accepts. */
  lemma ValueFlagFollowedByNumber(v: Version, argv: seq<string>, i: nat)
    requires 1 <= i < |argv|
    requires Effect(v, argv, i).Ok? && Effect(v, argv, i).value.Some?
    requires FieldOf(Effect(v, argv, i).value.value) in {ThreadsField, DelayField, ArrSizeField}
    ensures i + 1 < |argv| && Decimal.Stoi(argv[i + 1]).Ok?
  {
  }

  /** A token holding a digit has no effect. */
  lemma NumberHasNoEffect(v: Version, argv: seq<string>, j: nat)
    requires 1 <= j < |argv| && Decimal.HasDigit(argv[j])
    ensures Effect(v, argv, j) == Ok(None)
  {
    NumberIsNoFlag(argv[j]);
  }

  /** Not skipping the value token changes nothing: a value `stoi` accepts
      matches no flag and the loop passes over it. */
  lemma {:induction false} ValueTokenIsInert(v: Version, argv: seq<string>, i: nat, c: Config)
    requires 1 <= i
    ensures ParseFrom(v, argv, i, c) == ParseSkipping(v, argv, i, c)
    decreases |argv| - i
  {
    if i < |argv| {
      match Effect(v, argv, i)
      case Err(e) =>
      case Ok(None) =>
        ValueTokenIsInert(v, argv, i + 1, c);
      case Ok(Some(s)) =>
        var d := Put(c, s);
        if FieldOf(s) in {ThreadsField, DelayField, ArrSizeField} {
          ValueFlagFollowedByNumber(v, argv, i);
          NumberHasNoEffect(v, argv, i + 1);
          assert ParseFrom(v, argv, i + 1, d) == ParseFrom(v, argv, i + 2, d);
          ValueTokenIsInert(v, argv, i + 2, d);
        } else {
          ValueTokenIsInert(v, argv, i + 1, d);
        }
    }
  }

  /** As written, no token selects the counting read/write lock. */
  lemma AsWrittenEffectNeverRw(argv: seq<string>, i: nat)
    requires 1 <= i < |argv|
    ensures Effect(AsWritten, argv, i) != Ok(Some(SetLock(RwType)))
  {
    match Classify(argv[i])
    case NumThreadsOpt => assert Effect(AsWritten, argv, i) == ValueSetting(argv, i, ThreadsField);
    case DelayOpt => assert Effect(AsWritten, argv, i) == ValueSetting(argv, i, DelayField);
    case ArrSizeOpt => assert Effect(AsWritten, argv, i) == ValueSetting(argv, i, ArrSizeField);
    case _ =>
  }

  /** As written, no command line selects the counting read/write lock. */
  lemma {:induction false} AsWrittenNeverRw(argv: seq<string>, i: nat, c: Config)
    requires 1 <= i && c.lockType != RwType
    ensures ParseFrom(AsWritten, argv, i, c).Ok? ==> ParseFrom(AsWritten, argv, i, c).value.lockType != RwType
    decreases |argv| - i
  {
    if i < |argv| {
      AsWrittenEffectNeverRw(argv, i);
      match Effect(AsWritten, argv, i)
      case Err(e) =>
      case Ok(None) =>
        AsWrittenNeverRw(argv, i + 1, c);
      case Ok(Some(s)) =>
        AsWrittenNeverRw(argv, i + 1, Put(c, s));
    }
  }

  // ---------------------------------------------------------------------
  // Dispatch

  /** The lock class `read_only_test` is instantiated with. `Rw_lock` has
      no entry: `main` never instantiates it. */
  datatype LockClass = NoLockClass | MutexClass | TatasClass | CRwClass

  /** The benchmark `main` runs. The read-only benchmark's loop count is the
      delay value. */
  datatype Run =
    | SpinThreads(numThreads: int, delay: int)
    | ReadOnlyRun(numThreads: int, arrSize: int, numLoops: int, lock: LockClass)

  function Dispatch(c: Config): (r: Run)
    ensures r.SpinThreads? <==> c.test == Spin
    ensures r.SpinThreads? ==> r.numThreads == c.numThreads && r.delay == c.delay
    ensures r.ReadOnlyRun? ==> r.numThreads == c.numThreads && r.arrSize == c.arrSize && r.numLoops == c.delay
    ensures r.ReadOnlyRun? ==> (r.lock == CRwClass <==> c.lockType == RwType)
    ensures r.ReadOnlyRun? ==> (r.lock == TatasClass <==> c.lockType == TatasType)
    ensures r.ReadOnlyRun? ==> (r.lock == MutexClass <==> c.lockType == MutexType)
  {
    match c.test
    case Spin => SpinThreads(c.numThreads, c.delay)
    case ReadOnly =>
      ReadOnlyRun(c.numThreads, c.arrSize, c.delay,
        match c.lockType
        case NoLockType => NoLockClass
        case MutexType => MutexClass
        case TatasType => TatasClass
        case RwType => CRwClass)
  }

  /** From the command line to the benchmark run. The corrected version stops
      with an error when the read-only buffer cannot hold `arr_size` values. */
  function Plan(v: Version, argv: seq<string>): (r: Result<Run, Failure>)
    ensures Parse(v, argv).Err? ==> r == Err(Parse(v, argv).error)
    ensures r.Ok? ==> Parse(v, argv).Ok? && r.value == Dispatch(Parse(v, argv).value)
    // a parsed command line is refused only by the corrected buffer bound
    ensures Parse(v, argv).Ok? ==>
              (r.Err? <==> v == Corrected && Parse(v, argv).value.test == ReadOnly
                                          && Parse(v, argv).value.arrSize > GuardedSum.Capacity)
    ensures Parse(v, argv).Ok? && r.Err? ==> r.error == ArrSizeTooLarge(Parse(v, argv).value.arrSize)
  {
    match Parse(v, argv)
    case Err(e) => Err(e)
    case Ok(c) =>
      var run := Dispatch(c);
      if v == Corrected && run.ReadOnlyRun? && run.arrSize > GuardedSum.Capacity
      then Err(ArrSizeTooLarge(run.arrSize))
      else Ok(run)
  }

  /** As written, `C_rw_lock` is unreachable: no command line runs it. */
  lemma AsWrittenNeverRunsCRw(argv: seq<string>)
    ensures var r := Plan(AsWritten, argv);
            r.Ok? && r.value.ReadOnlyRun? ==> r.value.lock != CRwClass
  {
    AsWrittenNeverRw(argv, 1, Defaults);
  }

  /** Corrected, every read-only run fits the buffer `sum` reads. */
  lemma CorrectedRunsFitBuffer(argv: seq<string>)
    ensures var r := Plan(Corrected, argv);
            r.Ok? && r.value.ReadOnlyRun? ==> r.value.arrSize <= GuardedSum.Capacity
  {
  }
}

module ArgsExamples {
  import opened Outcomes
  import opened Args
  import GuardedSum

  /** Tokens are matched as prefixes, in source order: the empty token and
      `S` select SPIN, a lone `-` selects the mutex, and `-t` the TATAS lock. */
  lemma PrefixExamples()
    ensures Classify("") == SpinCmd && Classify("S") == SpinCmd
    ensures Classify("R") == ReadOnlyCmd
    ensures Classify("-") == MutexOpt && Classify("-t") == TatasOpt && Classify("-r") == RwOpt
    ensures Classify("-n") == NumThreadsOpt && Classify("-d") == DelayOpt && Classify("-a") == ArrSizeOpt
  {
    assert "R"[0] != SpinCommand[0];
    assert "-t"[1] != MutexFlag[1];
    assert "-r"[1] != MutexFlag[1] && "-r"[1] != TatasFlag[1];
  }

  /** `-num-loops` is declared but matches nothing, and a token longer than
      every constant it starts like matches nothing either. */
  lemma NoFlagExamples()
    ensures Classify(NumLoopsFlag) == Other && Classify("SPIN!") == Other
  {
    NumLoopsIsNoFlag(NumLoopsFlag);
    assert |"SPIN!"| > |SpinCommand|;
    assert "SPIN!"[0] != ReadOnlyCommand[0] && "SPIN!"[0] != MutexFlag[0];
  }

  lemma NumLoopsIsNoFlag(n: string)
    requires n == "-num-loops"
    ensures Classify(n) == Other
  {
    assert n[0] != SpinCommand[0] && n[0] != ReadOnlyCommand[0];
    assert n[1] != MutexFlag[1] && n[1] != TatasFlag[1] && n[1] != RwFlag[1];
    assert n[4] != NumThreadsFlag[4] && n[1] != DelayFlag[1] && n[1] != ArrSizeFlag[1];
    IsPrefixIff(n, NumThreadsFlag);
    assert !IsPrefix(n, SpinCommand);
    assert !IsPrefix(n, ReadOnlyCommand);
    assert !IsPrefix(n, MutexFlag);
    assert !IsPrefix(n, TatasFlag);
    assert !IsPrefix(n, RwFlag);
    assert !IsPrefix(n, NumThreadsFlag);
    assert !IsPrefix(n, DelayFlag);
    assert !IsPrefix(n, ArrSizeFlag);
  }

  /** As written, `-rw-lock` runs the read-only benchmark with the TATAS lock;
      corrected, with the counting lock. */
  lemma RwFlagExample(argv: seq<string>)
    requires |argv| == 3 && argv[1] == "READ_ONLY" && argv[2] == "-rw-lock"
    ensures Plan(AsWritten, argv) == Ok(ReadOnlyRun(4, 5, 10000, TatasClass))
    ensures Plan(Corrected, argv) == Ok(ReadOnlyRun(4, 5, 10000, CRwClass))
  {
    RwFlagParse(AsWritten, argv);
    RwFlagParse(Corrected, argv);
  }

  lemma RwFlagParse(v: Version, argv: seq<string>)
    requires |argv| == 3 && argv[1] == "READ_ONLY" && argv[2] == "-rw-lock"
    ensures Parse(v, argv) == Ok(Defaults.(test := ReadOnly).(lockType := if v == AsWritten then TatasType else RwType))
  {
    ReadOnlyEffect(v, argv, 1);
    ClassifyRwFlag(argv[2]);
    var c1 := Defaults.(test := ReadOnly);
    var c2 := c1.(lockType := if v == AsWritten then TatasType else RwType);
    assert ParseFrom(v, argv, 3, c2) == Ok(c2);
    assert ParseFrom(v, argv, 2, c1) == Ok(c2);
  }

  lemma ClassifyRwFlag(token: string)
    requires token == "-rw-lock"
    ensures Classify(token) == RwOpt
  {
    assert token[0] != SpinCommand[0] && token[0] != ReadOnlyCommand[0];
    assert token[1] != MutexFlag[1] && token[1] != TatasFlag[1];
    IsPrefixIff(token, RwFlag);
  }

  lemma ClassifyArrSizeFlag(token: string)
    requires token == "-arr-size"
    ensures Classify(token) == ArrSizeOpt
  {
    assert token[0] != SpinCommand[0] && token[0] != ReadOnlyCommand[0];
    assert token[1] != MutexFlag[1] && token[1] != TatasFlag[1] && token[1] != RwFlag[1];
    assert token[1] != NumThreadsFlag[1] && token[1] != DelayFlag[1];
    IsPrefixIff(token, ArrSizeFlag);
  }

  lemma ReadOnlyEffect(v: Version, argv: seq<string>, i: nat)
    requires 1 <= i < |argv| && argv[i] == "READ_ONLY"
    ensures Effect(v, argv, i) == Ok(Some(SetTest(ReadOnly)))
  {
    assert argv[i][0] != SpinCommand[0];
    IsPrefixIff(argv[i], ReadOnlyCommand);
  }

  /** As written, `-arr-size 6000` reaches the read-only benchmark, whose
      fill loop then writes past the 5005-slot buffer; corrected, the run is
      refused. */
  lemma ArrSizeOverrunExample(argv: seq<string>)
    requires |argv| == 4 && argv[1] == "READ_ONLY" && argv[2] == "-arr-size" && argv[3] == "6000"
    ensures Plan(AsWritten, argv) == Ok(ReadOnlyRun(4, 6000, 10000, NoLockClass))
    ensures 6000 > GuardedSum.Capacity
    ensures Plan(Corrected, argv) == Err(ArrSizeTooLarge(6000))
  {
    ArrSizeParse(AsWritten, argv);
    ArrSizeParse(Corrected, argv);
  }

  lemma ArrSizeParse(v: Version, argv: seq<string>)
    requires |argv| == 4 && argv[1] == "READ_ONLY" && argv[2] == "-arr-size" && argv[3] == "6000"
    ensures Parse(v, argv) == Ok(Defaults.(test := ReadOnly).(arrSize := 6000))
  {
    ArrSizeEffects(v, argv);
    var c1 := Defaults.(test := ReadOnly);
    var c2 := c1.(arrSize := 6000);
    assert ParseFrom(v, argv, 3, c2) == Ok(c2);
    assert ParseFrom(v, argv, 2, c1) == Ok(c2);
  }

  lemma ArrSizeEffects(v: Version, argv: seq<string>)
    requires |argv| == 4 && argv[1] == "READ_ONLY" && argv[2] == "-arr-size" && argv[3] == "6000"
    ensures Effect(v, argv, 1) == Ok(Some(SetTest(ReadOnly)))
    ensures Effect(v, argv, 2) == Ok(Some(SetArrSize(6000)))
    ensures Effect(v, argv, 3) == Ok(None)
  {
    ReadOnlyEffect(v, argv, 1);
    ArrSizeFlagEffect(v, argv);
    assert Decimal.HasDigit(argv[3]) by { assert Decimal.IsDigit(argv[3][0]); }
    NumberHasNoEffect(v, argv, 3);
  }

  lemma ArrSizeFlagEffect(v: Version, argv: seq<string>)
    requires |argv| == 4 && argv[2] == "-arr-size" && argv[3] == "6000"
    ensures Effect(v, argv, 2) == Ok(Some(SetArrSize(6000)))
  {
    ClassifyArrSizeFlag(argv[2]);
    Decimal.StoiDigitsExample();
    assert ValueSetting(argv, 2, ArrSizeField) == Ok(Some(SetArrSize(6000)));
  }
}
