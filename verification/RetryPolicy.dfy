/** The request retry policy of azbfs/zc_policy_retry.go, whose secondary host is always the empty string. Durations are
    int64 nanoseconds, and float32 values are reals. */
module RetryPolicy {
  import opened Int64

  datatype Policy = Exponential | Fixed

  datatype RetryOptions = RetryOptions(policy: Policy, maxTries: int, tryTimeout: int, retryDelay: int, maxRetryDelay: int)

  datatype Result<T> = Ok(value: T) | Panic

  const SECOND := 1_000_000_000

  function IfDefault(current: int, desired: int): int {
    if current == 0 then desired else current
  }

  function Defaults(o: RetryOptions): Result<RetryOptions> {
    if o.maxTries < 0 || o.tryTimeout < 0 || o.retryDelay < 0 || o.maxRetryDelay < 0 then Panic
    else if o.retryDelay > o.maxRetryDelay then Panic
    else if (o.retryDelay == 0) != (o.maxRetryDelay == 0) then Panic
    else
      Ok(RetryOptions(o.policy, IfDefault(o.maxTries, 4), IfDefault(o.tryTimeout, 60 * SECOND),
                      IfDefault(o.retryDelay, if o.policy.Exponential? then 4 * SECOND else 30 * SECOND),
                      IfDefault(o.maxRetryDelay, 120 * SECOND)))
  }

  /** What the options are once the defaults are filled in. */
  predicate Usable(o: RetryOptions) {
    1 <= o.maxTries <= MAX_INT32 && 0 < o.retryDelay <= o.maxRetryDelay < TWO_63
  }

  lemma DefaultsAreUsable(o: RetryOptions)
    requires Defaults(o).Ok? && o.maxTries <= MAX_INT32 && o.maxRetryDelay < TWO_63
    ensures Usable(Defaults(o).value)
  {
  }

  /** Options that leave everything open get 4 tries of a minute each and waits of up to 2 minutes, which start at 4
      seconds for the exponential policy and at 30 seconds for the fixed one. */
  lemma DefaultsOfNothing()
    ensures Defaults(RetryOptions(Exponential, 0, 0, 0, 0))
         == Ok(RetryOptions(Exponential, 4, 60_000_000_000, 4_000_000_000, 120_000_000_000))
    ensures Defaults(RetryOptions(Fixed, 0, 0, 0, 0))
         == Ok(RetryOptions(Fixed, 4, 60_000_000_000, 30_000_000_000, 120_000_000_000))
  {
  }

  /** Options that are set are kept, and the two delays must be ordered, and set or left open together. */
  lemma DefaultsKeepIff(o: RetryOptions)
    ensures Defaults(o) == Ok(o) <==> o.maxTries > 0 && o.tryTimeout > 0 && 0 < o.retryDelay <= o.maxRetryDelay
    ensures Defaults(o).Ok? <==>
              && o.maxTries >= 0 && o.tryTimeout >= 0
              && (0 < o.retryDelay <= o.maxRetryDelay || (o.retryDelay == 0 && o.maxRetryDelay == 0))
    ensures Defaults(o).Ok? ==> Defaults(Defaults(o).value) == Defaults(o) && Defaults(o).value.policy == o.policy
                                && (o.maxTries > 0 ==> Defaults(o).value.maxTries == o.maxTries)
                                && (o.retryDelay > 0 ==> Defaults(o).value.retryDelay == o.retryDelay
                                                         && Defaults(o).value.maxRetryDelay == o.maxRetryDelay)
  {
  }

  // ---------- Back-off ----------

  function Pow2(e: nat): nat {
    if e == 0 then 1 else 2 * Pow2(e - 1)
  }

  /** The local power loop, in int64. */
  function WrappedPow2(e: nat): int {
    if e == 0 then 1 else Wrap64(WrappedPow2(e - 1) * 2)
  }

  method PowLoop(exponent: nat) returns (result: int)
    ensures result == WrappedPow2(exponent)
  {
    result := 1;
    for n := 0 to exponent
      invariant result == WrappedPow2(n)
    {
      result := Wrap64(result * 2);
    }
  }

  lemma {:induction false} WrappedPow2Exact(e: nat)
    requires Pow2(e) < TWO_63
    ensures WrappedPow2(e) == Pow2(e)
  {
    if e > 0 {
      WrappedPow2Exact(e - 1);
    }
  }

  lemma {:induction false} Pow2Grows(a: nat, b: nat)
    requires a <= b
    ensures Pow2(a) <= Pow2(b)
  {
    if a < b {
      Pow2Grows(a, b - 1);
    }
  }

  /** How often the power loop multiplies; int32, so that the smallest int32 less one is the largest. */
  function Exponent(try: int): nat {
    var e := Previous32(try);
    if e > 0 then e else 0
  }

  /** The delay before jitter. */
  function Backoff(o: RetryOptions, try: int): int {
    match o.policy
    case Exponential => Wrap64(Wrap64(WrappedPow2(Exponent(try)) - 1) * o.retryDelay)
    case Fixed => if try > 1 then o.retryDelay else 0
  }

  function CalcDelay(o: RetryOptions, try: int, jitter: real, wild: int): int {
    Jittered(Backoff(o, try), o.maxRetryDelay, jitter, wild)
  }

  function Jittered(backoff: int, maximum: int, jitter: real, wild: int): int {
    Capped(backoff as real * jitter, maximum, wild)
  }

  /** Conversion of a float to an int64, towards zero if the result is representable; otherwise Go leaves it to the
      platform, and it may be any int64 wild. */
  function ToInt64(x: real, wild: int): int {
    var t := if x >= 0.0 then x.Floor else -((-x).Floor);
    if Fits64(t) then t else wild
  }

  function Capped(x: real, maximum: int, wild: int): int {
    var delay := ToInt64(x, wild);
    if delay > maximum then maximum else delay
  }

  // 1 + 2^-22, which is more than the two roundings to float32 can make of a product.
  const ROUNDING: real := 4_194_305.0 / 4_194_304.0
  const LOWEST: real := 0.8 / ROUNDING
  const HIGHEST: real := 1.3 * ROUNDING

  /** What the delay is multiplied by: a random number in [0.8, 1.3), and roundings. */
  predicate IsJitter(j: real) {
    LOWEST <= j < HIGHEST
  }

  /** A back-off that stays an int64 with any jitter. */
  predicate HasRoom(w: int) {
    0 <= w && w as real * HIGHEST <= TWO_63 as real
  }

  lemma MulStrict(x: real, a: real, b: real)
    requires x > 0.0 && a < b
    ensures x * a < x * b
  {
  }

  lemma MulCancel(x: real, a: real, b: real)
    requires x > 0.0 && x * a < x * b
    ensures a < b
  {
  }

  lemma RoomIsEnough(w: int, j: real)
    requires HasRoom(w) && IsJitter(j)
    ensures 0.0 <= w as real * j < TWO_63 as real
  {
    var x := w as real;
    if w > 0 {
      MulStrict(x, j, HIGHEST);
      MulStrict(x, 0.0, j);
      assert 0.0 < x * j < x * HIGHEST <= TWO_63 as real;
    } else {
      assert x == 0.0;
      assert 0.0 * j == 0.0;
    }
  }

  lemma CappedInRange(x: real, maximum: int, wild: int)
    requires 0.0 <= x < TWO_63 as real && maximum >= 0
    ensures 0 <= Capped(x, maximum, wild) <= maximum
    ensures x == 0.0 ==> Capped(x, maximum, wild) == 0
  {
  }

  lemma JitteredInRange(w: int, maximum: int, jitter: real, wild: int)
    requires HasRoom(w) && IsJitter(jitter) && maximum >= 0
    ensures 0 <= Jittered(w, maximum, jitter, wild) <= maximum
  {
    RoomIsEnough(w, jitter);
    CappedInRange(w as real * jitter, maximum, wild);
  }

  lemma CappedBelowZero(x: real, maximum: int, wild: int)
    requires -(TWO_63 as real) <= x <= -1.0
    ensures Capped(x, maximum, wild) < 0
  {
  }

  /** A jitter and a conversion that make a delay without room negative. */
  lemma BelowZero(w: int, maximum: int) returns (jitter: real, wild: int)
    requires Fits64(w) && !HasRoom(w)
    ensures IsJitter(jitter) && Fits64(wild) && Jittered(w, maximum, jitter, wild) < 0
  {
    wild := -1;
    if w < 0 {
      jitter := 1.0;
      assert w as real * 1.0 == w as real;
      CappedBelowZero(w as real, maximum, wild);
    } else {
      jitter := JitterToLimit(w);
      assert Capped(TWO_63 as real, maximum, wild) < 0;
    }
  }

  /** A jitter that takes the delay to exactly 2^63. */
  lemma JitterToLimit(w: int) returns (jitter: real)
    requires 0 < w < TWO_63 && !HasRoom(w)
    ensures IsJitter(jitter) && w as real * jitter == TWO_63 as real
  {
    var x := w as real;
    jitter := TWO_63 as real / x;
    assert x * jitter == TWO_63 as real;
    assert x * 1.0 == x;
    MulCancel(x, 1.0, jitter);
    MulCancel(x, jitter, HIGHEST);
  }

  /** The documented back-off, without any wrapping. */
  function Product(o: RetryOptions, try: nat): nat
    requires try >= 1 && o.retryDelay >= 0
  {
    match o.policy
    case Exponential => PowPositive(try - 1); (Pow2(try - 1) - 1) * o.retryDelay
    case Fixed => if try > 1 then o.retryDelay else 0
  }

  lemma {:induction false} PowPositive(e: nat)
    ensures Pow2(e) >= 1
  {
    if e > 0 {
      PowPositive(e - 1);
    }
  }

  /** What the product wraps to has room for the jitter. */
  predicate FitsJittered(o: RetryOptions, try: nat)
    requires try >= 1 && o.retryDelay >= 0
  {
    HasRoom(Wrap64(Product(o, try)))
  }

  lemma {:induction false} PowWraps(e: nat) returns (k: int)
    ensures Pow2(e) == WrappedPow2(e) + k * TWO_64
  {
    k := 0;
    if e > 0 {
      var before := PowWraps(e - 1);
      k := 2 * before + (WrappedPow2(e - 1) * 2 - WrappedPow2(e)) / TWO_64;
    }
  }

  /** Wrapping at every step is wrapping once. */
  lemma BackoffWraps(o: RetryOptions, try: nat)
    requires Usable(o) && 1 <= try <= MAX_INT32
    ensures Backoff(o, try) == Wrap64(Product(o, try))
  {
    if o.policy.Exponential? {
      assert Exponent(try) == try - 1;
      var k := PowWraps(try - 1);
      ProductWraps(WrappedPow2(try - 1), Pow2(try - 1), k, o.retryDelay);
    }
  }

  lemma ProductWraps(wrapped: int, power: int, k: int, d: int)
    requires power == wrapped + k * TWO_64
    ensures Wrap64(Wrap64(wrapped - 1) * d) == Wrap64((power - 1) * d)
  {
    var minusOne := Wrap64(wrapped - 1);
    var q := (wrapped - 1 - minusOne) / TWO_64;
    assert power - 1 == minusOne + (k + q) * TWO_64;
    SpreadWraps(minusOne, k + q, d);
    WrapUnique((power - 1) * d, minusOne * d, (k + q) * d);
  }

  lemma SpreadWraps(x: int, k: int, d: int)
    ensures (x + k * TWO_64) * d == x * d + (k * d) * TWO_64
  {
  }

  lemma DelayInBounds(o: RetryOptions, try: nat, jitter: real, wild: int)
    requires Usable(o) && 1 <= try <= MAX_INT32 && IsJitter(jitter)
    ensures FitsJittered(o, try) ==> 0 <= CalcDelay(o, try, jitter, wild) <= o.maxRetryDelay
  {
    if FitsJittered(o, try) {
      BackoffWraps(o, try);
      JitteredInRange(Backoff(o, try), o.maxRetryDelay, jitter, wild);
    }
  }

  /** The delay before a try is between 0 and MaxRetryDelay, whatever the jitter and the platform, exactly when the
      wrapped product has room for the jitter. */
  lemma DelayInBoundsIff(o: RetryOptions, try: nat)
    requires Usable(o) && 1 <= try <= MAX_INT32
    ensures (forall jitter, wild | IsJitter(jitter) && Fits64(wild) :: 0 <= CalcDelay(o, try, jitter, wild) <= o.maxRetryDelay)
            <==> FitsJittered(o, try)
  {
    if FitsJittered(o, try) {
      forall jitter, wild | IsJitter(jitter) && Fits64(wild)
        ensures 0 <= CalcDelay(o, try, jitter, wild) <= o.maxRetryDelay
      {
        DelayInBounds(o, try, jitter, wild);
      }
    } else {
      BackoffWraps(o, try);
      var jitter, wild := BelowZero(Backoff(o, try), o.maxRetryDelay);
      assert CalcDelay(o, try, jitter, wild) < 0;
    }
  }

  /** The jittered product without its fraction, or the maximum if that is smaller. */
  predicate IsJitteredProduct(delay: int, w: int, maximum: int, jitter: real) {
    if w as real * jitter >= maximum as real then delay == maximum
    else delay as real <= w as real * jitter < delay as real + 1.0
  }

  lemma JitteredValue(w: int, maximum: int, jitter: real, wild: int)
    requires HasRoom(w) && IsJitter(jitter)
    ensures IsJitteredProduct(Jittered(w, maximum, jitter, wild), w, maximum, jitter)
  {
    RoomIsEnough(w, jitter);
    CappedValue(w as real * jitter, maximum, wild);
  }

  /** A delay with room is the jittered product, up to the maximum. */
  lemma DelayIsJitteredProduct(o: RetryOptions, try: nat, jitter: real, wild: int)
    requires Usable(o) && 1 <= try <= MAX_INT32 && IsJitter(jitter)
    ensures FitsJittered(o, try) ==>
              IsJitteredProduct(CalcDelay(o, try, jitter, wild), Wrap64(Product(o, try)), o.maxRetryDelay, jitter)
  {
    if FitsJittered(o, try) {
      BackoffWraps(o, try);
      JitteredValue(Wrap64(Product(o, try)), o.maxRetryDelay, jitter, wild);
    }
  }

  lemma CappedValue(x: real, maximum: int, wild: int)
    requires 0.0 <= x < TWO_63 as real
    ensures var delay := Capped(x, maximum, wild);
            if x >= maximum as real then delay == maximum else delay as real <= x < delay as real + 1.0
  {
  }

  /** What is multiplied: at least 0.79 and less than 1.31 times, and every number from 0.8 up to 1.3 is possible. */
  lemma JitterRange(j: real)
    ensures IsJitter(j) ==> 0.79 < j < 1.31
    ensures 0.8 <= j < 1.3 ==> IsJitter(j)
  {
  }

  /** The exponential back-off is 0, 1, 3, 7, ... times the delay; the fixed one is 0 once and then the delay. */
  lemma ProductOfTries(o: RetryOptions, try: nat)
    requires o.retryDelay >= 0 && try >= 1
    ensures o.policy.Exponential? ==> Product(o, 1) == 0 && Product(o, 2) == o.retryDelay
                                      && Product(o, try + 1) == 2 * Product(o, try) + o.retryDelay
    ensures o.policy.Fixed? ==> Product(o, 1) == 0 && Product(o, try + 1) == o.retryDelay
  {
    if o.policy.Exponential? {
      assert Pow2(0) == 1 && Pow2(1) == 2;
      NextProduct(o, try + 1);
    }
  }

  /** With 1 second and at most 60, and no jitter, the third try waits for 3 seconds and the seventh for 60. */
  lemma DelaysOfExample(wild: int)
    ensures var o := RetryOptions(Exponential, 10, 60 * SECOND, 1 * SECOND, 60 * SECOND);
            CalcDelay(o, 3, 1.0, wild) == 3 * SECOND && CalcDelay(o, 7, 1.0, wild) == 60 * SECOND
  {
    var o := RetryOptions(Exponential, 10, 60 * SECOND, 1 * SECOND, 60 * SECOND);
    assert Pow2(2) == 4 && Pow2(6) == 64 by { assert Pow2(4) == 16; }
    assert Product(o, 3) == 3 * SECOND && Product(o, 7) == 63 * SECOND;
    DelayIsJitteredProduct(o, 3, 1.0, wild);
    DelayIsJitteredProduct(o, 7, 1.0, wild);
    assert Wrap64(3 * SECOND) as real * 1.0 == (3 * SECOND) as real;
    assert Wrap64(63 * SECOND) as real * 1.0 == (63 * SECOND) as real;
  }

  /** Every try of a run fits. */
  ghost predicate BackoffFits(o: RetryOptions)
    requires o.retryDelay >= 0
  {
    forall try | 1 <= try <= o.maxTries :: FitsJittered(o, try)
  }

  lemma ProductGrows(o: RetryOptions, a: nat, b: nat)
    requires Usable(o) && 1 <= a <= b
    ensures Product(o, a) <= Product(o, b)
  {
    if o.policy.Exponential? {
      Pow2Grows(a - 1, b - 1);
      MulLe(Pow2(a - 1) - 1, Pow2(b - 1) - 1, o.retryDelay);
    }
  }

  lemma MulLe(a: int, b: int, d: int)
    requires a <= b && d >= 0
    ensures a * d <= b * d
  {
  }

  /** For a retry delay of up to 73 years the last try decides for the whole run: its product, computed without
      wrapping, has room for the jitter exactly when every try fits. */
  lemma LastTryDecides(o: RetryOptions)
    requires Usable(o) && 4 * o.retryDelay <= TWO_63
    ensures BackoffFits(o) <==> HasRoom(Product(o, o.maxTries))
  {
    if HasRoom(Product(o, o.maxTries)) {
      forall try | 1 <= try <= o.maxTries ensures FitsJittered(o, try) {
        ProductGrows(o, try, o.maxTries);
      }
    }
    if BackoffFits(o) {
      FittingProducts(o, o.maxTries);
    }
  }

  /** Products grow by less than a wrap, so the first that does not fit is seen. */
  lemma {:induction false} FittingProducts(o: RetryOptions, n: nat)
    requires Usable(o) && 4 * o.retryDelay <= TWO_63 && n >= 1
    requires forall try | 1 <= try <= n :: FitsJittered(o, try)
    ensures HasRoom(Product(o, n))
  {
    assert FitsJittered(o, n);
    if n > 1 {
      FittingProducts(o, n - 1);
      if o.policy.Exponential? {
        NextProduct(o, n);
        NoWrap(Product(o, n - 1), o.retryDelay);
      }
    }
  }

  lemma NextProduct(o: RetryOptions, n: nat)
    requires o.policy.Exponential? && o.retryDelay >= 0 && n > 1
    ensures Product(o, n) == 2 * Product(o, n - 1) + o.retryDelay
  {
    PowPositive(n - 2);
    OneMoreDoubling(Pow2(n - 2), o.retryDelay);
  }

  lemma OneMoreDoubling(p: int, d: int)
    ensures (2 * p - 1) * d == 2 * ((p - 1) * d) + d
  {
  }

  lemma NoWrap(p: int, d: int)
    requires HasRoom(p) && 0 <= 4 * d <= TWO_63 && HasRoom(Wrap64(2 * p + d))
    ensures HasRoom(2 * p + d)
  {
    if 2 * p + d >= TWO_63 {
      WrapPastTop(2 * p + d);
    }
  }

  lemma PowersOf30And31()
    ensures Pow2(30) == 0x4000_0000 && Pow2(31) == 0x8000_0000
  {
    Times1024(0);
    Times1024(10);
    Times1024(20);
    assert Pow2(31) == 2 * Pow2(30);
  }

  /** With the default delays 31 tries fit, and a 32nd overflows on its jitter alone. */
  lemma DefaultDelaysFitIff(o: RetryOptions)
    requires Usable(o) && o.policy.Exponential? && o.retryDelay == 4 * SECOND
    ensures BackoffFits(o) <==> o.maxTries <= 31
    ensures Fits64(Product(o, 32))
  {
    PowersOf30And31();
    var p31, p32 := Product(o, 31), Product(o, 32);
    assert p31 == 0x3fff_ffff * (4 * SECOND) && p32 == 0x7fff_ffff * (4 * SECOND);
    assert HasRoom(p31) && !HasRoom(p32) && p32 < TWO_63;
    LastTryDecides(o);
    if o.maxTries <= 31 {
      ProductGrows(o, o.maxTries, 31);
    } else {
      ProductGrows(o, 32, o.maxTries);
    }
  }

  /** From the 65th try on the power has wrapped to 0 and the back-off is -RetryDelay: every delay that converts is
      negative, which time.Sleep takes for none. */
  lemma LateTriesDoNotWait(o: RetryOptions, try: nat, jitter: real, wild: int)
    requires Usable(o) && o.policy.Exponential? && o.retryDelay >= 2 && 65 <= try <= MAX_INT32 && IsJitter(jitter)
    requires o.retryDelay as real * jitter <= TWO_63 as real
    ensures CalcDelay(o, try, jitter, wild) < 0
  {
    LateBackoff(o, try);
    NegativeStaysNegative(o.retryDelay, o.maxRetryDelay, jitter, wild);
  }

  lemma NegativeStaysNegative(d: int, maximum: int, jitter: real, wild: int)
    requires d >= 2 && IsJitter(jitter) && d as real * jitter <= TWO_63 as real
    ensures Jittered(-d, maximum, jitter, wild) < 0
  {
    MinusOut(d, jitter);
    CappedBelowZero((-d) as real * jitter, maximum, wild);
  }

  lemma LateBackoff(o: RetryOptions, try: nat)
    requires Usable(o) && o.policy.Exponential? && 65 <= try <= MAX_INT32
    ensures Backoff(o, try) == -o.retryDelay
  {
    assert Exponent(try) == try - 1;
    PowHasWrapped(try - 1);
    assert Wrap64(0 - 1) == -1;
    assert -1 * o.retryDelay == -o.retryDelay;
  }

  lemma MinusOut(d: int, j: real)
    requires d >= 2 && IsJitter(j)
    ensures (-d) as real * j == -(d as real * j) && d as real * j >= 1.0
  {
    MulStrict(j, 1.5, d as real);
  }

  lemma Times1024(e: nat)
    ensures Pow2(e + 10) == 1024 * Pow2(e)
  {
    assert Pow2(e + 4) == 16 * Pow2(e) by { assert Pow2(e + 2) == 4 * Pow2(e); }
    assert Pow2(e + 8) == 16 * Pow2(e + 4) by { assert Pow2(e + 6) == 4 * Pow2(e + 4); }
  }

  lemma {:induction false} PowHasWrapped(e: nat)
    requires e >= 64
    ensures WrappedPow2(e) == 0
  {
    if e == 64 {
      PowOf62();
      WrappedPow2Exact(62);
      WrapAtPowers();
      WrappedPow2Step(62);
      WrappedPow2Step(63);
    } else {
      PowHasWrapped(e - 1);
      WrappedPow2Step(e - 1);
    }
  }

  lemma WrappedPow2Step(e: nat)
    ensures WrappedPow2(e + 1) == Wrap64(WrappedPow2(e) * 2)
  {
  }

  lemma PowOf62()
    ensures Pow2(62) == 0x4000_0000_0000_0000
  {
    assert Pow2(2) == 4;
    Times1024(2);
    Times1024(12);
    Times1024(22);
    Times1024(32);
    Times1024(42);
    Times1024(52);
  }

  lemma WrapAtPowers()
    ensures Wrap64(TWO_63) == -TWO_63 && Wrap64(-TWO_63 * 2) == 0
  {
  }

  // ---------- The try loop ----------

  datatype AttemptError = NoError | Temporary | UnexpectedEOF | OtherError

  /** What one call of the next policy returns, and whether the user's context has ended by then. */
  datatype Attempt = Attempt(contextEnded: bool, error: AttemptError, hasResponse: bool)

  /** The action starts with 'R'. */
  predicate Retries(a: Attempt) {
    !a.contextEnded && (a.error.Temporary? || a.error.UnexpectedEOF?)
  }

  function Total(delays: seq<int>): int {
    if delays == [] then 0 else Total(delays[..|delays| - 1]) + delays[|delays| - 1]
  }

  lemma OneMoreDelay(delays: seq<int>, delay: int, maximum: int)
    requires delay <= maximum && (delays == [] ==> delay == 0)
    requires delays != [] ==> Total(delays) <= (|delays| - 1) * maximum
    ensures Total(delays + [delay]) <= |delays| * maximum
    ensures Total(delays) >= 0 && delay >= 0 ==> Total(delays + [delay]) >= 0
  {
    assert (delays + [delay])[..|delays|] == delays;
    assert |delays| * maximum == (|delays| - 1) * maximum + maximum;
  }

  /** No delay is above the maximum, the first is zero and their total is bounded; none is negative if every try fits. */
  ghost predicate Bounded(o: RetryOptions, delays: seq<int>)
    requires o.retryDelay >= 0
  {
    && (forall k | 0 <= k < |delays| :: delays[k] <= o.maxRetryDelay)
    && (delays != [] ==> delays[0] == 0 && Total(delays) <= (|delays| - 1) * o.maxRetryDelay)
    && (BackoffFits(o) ==> Total(delays) >= 0 && forall k | 0 <= k < |delays| :: delays[k] >= 0)
  }

  lemma BoundedNext(o: RetryOptions, delays: seq<int>, delay: int)
    requires o.retryDelay >= 0 && Bounded(o, delays)
    requires delay <= o.maxRetryDelay && (delays == [] ==> delay == 0) && (BackoffFits(o) ==> delay >= 0)
    ensures Bounded(o, delays + [delay])
  {
    OneMoreDelay(delays, delay, o.maxRetryDelay);
    assert forall k | 0 <= k < |delays| :: (delays + [delay])[k] == delays[k];
  }

  /** The try counter, which is int32, after n retried tries. */
  function Counter(n: nat): (c: int)
    ensures -TWO_31 <= c <= MAX_INT32
    ensures n < MAX_INT32 ==> c == n + 1
  {
    if n == 0 then 1 else Next32(Counter(n - 1))
  }

  /** The delay before the try with number k, counted from 0, in a run with these draws of the jitter and these conversions. */
  function DelayAt(o: RetryOptions, jitter: nat -> real, wild: nat -> int, k: nat): int {
    CalcDelay(o, Counter(k), jitter(k), wild(k))
  }

  /** The delays of the first tries of a run. */
  ghost predicate AreDelays(o: RetryOptions, delays: seq<int>, jitter: nat -> real, wild: nat -> int) {
    forall k {:trigger DelayAt(o, jitter, wild, k)} | 0 <= k < |delays| :: delays[k] == DelayAt(o, jitter, wild, k)
  }

  /** Sleeps before the try with number k, counted from 0. */
  method Sleep(o: RetryOptions, primaryTry: int, jitter: nat -> real, wild: nat -> int, k: nat) returns (delay: int)
    requires Usable(o) && primaryTry == Counter(k) && (k < o.maxTries || o.maxTries == MAX_INT32)
    requires forall n: nat :: IsJitter(jitter(n)) && Fits64(wild(n))
    ensures delay == DelayAt(o, jitter, wild, k) <= o.maxRetryDelay
    ensures (k == 0 ==> delay == 0) && (BackoffFits(o) ==> delay >= 0)
  {
    delay := CalcDelay(o, primaryTry, jitter(k), wild(k));
    DelayOfCounter(o, primaryTry, jitter(k), wild(k));
  }

  /** Also of a try whose number has wrapped. */
  lemma DelayOfCounter(o: RetryOptions, try: int, jitter: real, wild: int)
    requires Usable(o) && -TWO_31 <= try <= o.maxTries && (try >= 1 || o.maxTries == MAX_INT32)
    requires IsJitter(jitter) && Fits64(wild)
    ensures var delay := CalcDelay(o, try, jitter, wild);
            delay <= o.maxRetryDelay && (try == 1 ==> delay == 0) && (BackoffFits(o) ==> delay >= 0)
  {
    if try == 1 || (o.policy.Fixed? && try < 1) {
      ZeroBackoff(o, try);
      RoomIsEnough(0, jitter);
      CappedInRange(0 as real * jitter, o.maxRetryDelay, wild);
    } else if BackoffFits(o) {
      if o.policy.Exponential? && o.maxTries == MAX_INT32 {
        EndlessDoesNotFit(o);
      }
      DelayInBounds(o, try, jitter, wild);
    }
  }

  lemma ZeroBackoff(o: RetryOptions, try: int)
    requires Usable(o) && (try == 1 || (o.policy.Fixed? && try < 1))
    ensures Backoff(o, try) == 0
  {
    assert Wrap64(0) == 0;
    assert 0 * o.retryDelay == 0;
    assert WrappedPow2(0) == 1;
  }

  lemma EndlessDoesNotFit(o: RetryOptions)
    requires Usable(o) && o.policy.Exponential? && o.maxTries >= 65
    ensures !BackoffFits(o)
  {
    LateBackoff(o, 65);
    BackoffWraps(o, 65);
    assert !FitsJittered(o, 65);
  }

  /** The counter passes MaxTries some time, if every try is retried, exactly when MaxTries is not the largest int32. */
  lemma CounterEndsIff(maxTries: nat)
    requires 1 <= maxTries <= MAX_INT32
    ensures (exists n: nat :: Counter(n) > maxTries) <==> maxTries < MAX_INT32
  {
    assert forall n: nat :: Counter(n) <= MAX_INT32;
    if maxTries < MAX_INT32 {
      assert Counter(maxTries) > maxTries;
      assert exists n: nat :: Counter(n) > maxTries;
    }
  }

  /** Either MaxTries ends the loop, or an outcome that is not retried. */
  ghost predicate Ends(o: RetryOptions, next: nat -> Attempt) {
    o.maxTries < MAX_INT32 || exists n: nat :: !Retries(next(n))
  }

  /** That is when the loop ends: there is a try that the loop does not get to or does not get past. */
  lemma EndsIff(o: RetryOptions, next: nat -> Attempt)
    requires Usable(o)
    ensures Ends(o, next) <==> (exists n: nat :: Counter(n) > o.maxTries) || exists n: nat :: !Retries(next(n))
  {
    CounterEndsIff(o.maxTries);
  }

  /** After some calls: all but the last were retried, exactly the retried responses were drained and closed, and the
      delays slept are those of the tries. */
  ghost predicate Tried(o: RetryOptions, next: nat -> Attempt, jitter: nat -> real, wild: nat -> int,
                        calls: nat, delays: seq<int>, closed: set<nat>)
    requires o.retryDelay >= 0
  {
    && (forall k | 0 <= k < calls - 1 :: Retries(next(k)))
    && (forall k: nat :: k in closed <==> k < calls && Retries(next(k)) && next(k).hasResponse)
    && |delays| == calls && AreDelays(o, delays, jitter, wild) && Bounded(o, delays)
  }

  /** The outcomes that are retried: a temporary error or an unexpected end of the stream, in a context that has not
      ended. */
  lemma RetriedOutcomes(o: RetryOptions, next: nat -> Attempt, jitter: nat -> real, wild: nat -> int,
                        calls: nat, delays: seq<int>, closed: set<nat>, k: nat)
    requires o.retryDelay >= 0 && Tried(o, next, jitter, wild, calls, delays, closed)
    ensures k + 1 < calls ==> !next(k).contextEnded && (next(k).error == Temporary || next(k).error == UnexpectedEOF)
    ensures k in closed ==> k < calls && next(k).hasResponse
    ensures k + 1 < calls && next(k).hasResponse ==> k in closed
    ensures !Retries(next(k)) <==> next(k).contextEnded || next(k).error == NoError || next(k).error == OtherError
  {
  }

  /** The body of the loop: sleeps, calls the next policy, and closes the response if it is retried. */
  method TryOnce(o: RetryOptions, next: nat -> Attempt, jitter: nat -> real, wild: nat -> int, primaryTry: int,
                 calls: nat, delays: seq<int>, closed: set<nat>)
    returns (retried: bool, delays': seq<int>, closed': set<nat>)
    requires Usable(o) && forall n: nat :: IsJitter(jitter(n)) && Fits64(wild(n))
    requires primaryTry == Counter(calls) && (calls < o.maxTries || o.maxTries == MAX_INT32)
    requires Tried(o, next, jitter, wild, calls, delays, closed) && (calls > 0 ==> Retries(next(calls - 1)))
    ensures Tried(o, next, jitter, wild, calls + 1, delays', closed') && retried == Retries(next(calls))
  {
    var delay := Sleep(o, primaryTry, jitter, wild, calls);
    BoundedNext(o, delays, delay);
    delays' := delays + [delay];
    var response := next(calls);
    retried := Retries(response);
    closed' := if retried && response.hasResponse then closed + {calls} else closed;
  }

  /** The calls made, the delays slept, and the tries whose response was drained and closed. The last call's result is
      what the policy returns. */
  method TryLoop(o: RetryOptions, next: nat -> Attempt, jitter: nat -> real, wild: nat -> int)
    returns (calls: nat, delays: seq<int>, closed: set<nat>)
    requires Usable(o) && Ends(o, next) && forall n: nat :: IsJitter(jitter(n)) && Fits64(wild(n))
    ensures calls >= 1 && Tried(o, next, jitter, wild, calls, delays, closed)
    ensures o.maxTries < MAX_INT32 ==> calls <= o.maxTries
    ensures !Retries(next(calls - 1)) || (calls == o.maxTries && o.maxTries < MAX_INT32)
  {
    ghost var limit: nat := o.maxTries;
    if o.maxTries == MAX_INT32 {
      limit :| !Retries(next(limit));
    }
    calls, delays, closed := 0, [], {};
    var primaryTry := 0;
    var try := 1;
    while try <= o.maxTries
      invariant calls <= limit && try == Counter(calls)
      invariant primaryTry == if calls == 0 then 0 else Counter(calls - 1)
      invariant Tried(o, next, jitter, wild, calls, delays, closed) && (calls > 0 ==> Retries(next(calls - 1)))
      decreases limit - calls
    {
      primaryTry := Next32(primaryTry);
      var retried;
      retried, delays, closed := TryOnce(o, next, jitter, wild, primaryTry, calls, delays, closed);
      calls := calls + 1;
      if !retried {
        return;
      }
      try := Next32(try);
    }
  }
}
