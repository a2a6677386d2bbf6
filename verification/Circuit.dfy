/** `CircuitBreaker`: the state machine in front of an external dependency, with the clock as input. */
module Circuit {
  import opened Common
  import opened Words

  datatype CircuitState = Closed | Open | HalfOpen

  /** Thresholds are u64; the timeout is a duration in whole milliseconds, which may exceed u64. */
  datatype Config = Config(failureThreshold: u64, resetTimeout: nat, successThreshold: u64) {
    /** `reset_timeout_millis`: the cast to u64 wraps. */
    function TimeoutMillis(): u64 { resetTimeout % (USIZE_MAX + 1) }
  }

  datatype Breaker = Breaker(state: CircuitState, failures: u64, successes: u64, lastFailure: u64)

  datatype Call = Check(now: u64) | RecordSuccess | RecordFailure(now: u64) | Reset

  const START := Breaker(Closed, 0, 0, 0)

  function AtLeastOne(n: u64): (m: u64) { if n == 0 then 1 else n }

  /** `fetch_add(1)`. */
  function Bump(n: u64): u64 { if n == USIZE_MAX then 0 else n + 1 }

  function Elapsed(b: Breaker, now: u64): nat { if now >= b.lastFailure then now - b.lastFailure else 0 }

  predicate Admits(c: Config, b: Breaker, now: u64) {
    b.state != Open || Elapsed(b, now) >= c.TimeoutMillis()
  }

  function After(c: Config, b: Breaker, call: Call): Breaker {
    match call
    case Check(now) =>
      if b.state == Open && Admits(c, b, now) then b.(state := HalfOpen, successes := 0) else b
    case RecordSuccess =>
      if b.state == Closed then b.(failures := 0)
      else if b.state == Open then b
      else if Bump(b.successes) >= c.successThreshold then
        b.(state := Closed, failures := 0, successes := Bump(b.successes))
      else b.(successes := Bump(b.successes))
    case RecordFailure(now) =>
      if b.state == Open then b
      else if b.state == HalfOpen then Breaker(Open, Bump(b.failures), 0, now)
      else b.(state := if Bump(b.failures) >= c.failureThreshold then Open else Closed,
              failures := Bump(b.failures), lastFailure := now)
    case Reset => Breaker(Closed, 0, 0, b.lastFailure)
  }

  function AfterAll(c: Config, calls: seq<Call>): Breaker {
    if calls == [] then START else After(c, AfterAll(c, calls[..|calls| - 1]), calls[|calls| - 1])
  }

  /** The counters that are compared with a threshold stay below it, so their increments never wrap. */
  predicate Counting(c: Config, b: Breaker) {
    && (b.state == Closed ==> b.failures < AtLeastOne(c.failureThreshold))
    && (b.state == HalfOpen ==> b.successes < AtLeastOne(c.successThreshold))
  }

  class CircuitBreaker {
    const config: Config
    var state: CircuitState
    var failureCount: u64
    var successCount: u64
    var lastFailureTime: u64

    predicate Valid()
      reads this
    {
      Counting(config, View())
    }

    function View(): Breaker
      reads this
    {
      Breaker(state, failureCount, successCount, lastFailureTime)
    }

    constructor (config: Config)
      ensures Valid() && this.config == config && View() == START
    {
      this.config := config;
      state, failureCount, successCount, lastFailureTime := Closed, 0, 0, 0;
    }

    /** Refuses exactly while open and before the deadline; the first check past it enters half-open. */
    method Check(now: u64) returns (r: Result<()>)
      requires Valid()
      modifies this
      ensures Valid() && View() == After(config, old(View()), Call.Check(now))
      ensures r.Success? <==> Admits(config, old(View()), now)
      ensures r.Failure? ==> r.error == GraphError.CircuitOpen
      ensures r.Failure? <==>
                && old(state) == Open
                && now < old(lastFailureTime) + config.resetTimeout % 0x1_0000_0000_0000_0000
                && config.resetTimeout % 0x1_0000_0000_0000_0000 > 0
      ensures unchanged(`failureCount) && unchanged(`lastFailureTime)
      ensures if old(state) == Open && r.Success? then state == HalfOpen && successCount == 0
              else unchanged(`state) && unchanged(`successCount)
    {
      if state != Open { return Success(()); }
      var elapsed := if now >= lastFailureTime then now - lastFailureTime else 0;
      if elapsed < config.TimeoutMillis() { return Failure(GraphError.CircuitOpen); }
      state := HalfOpen;
      successCount := 0;
      return Success(());
    }

    method RecordSuccess()
      requires Valid()
      modifies this
      ensures Valid() && View() == After(config, old(View()), Call.RecordSuccess)
      ensures unchanged(`lastFailureTime)
      ensures old(state) == Open ==> unchanged(`state) && unchanged(`failureCount) && unchanged(`successCount)
      ensures old(state) == Closed ==> unchanged(`state) && failureCount == 0 && unchanged(`successCount)
      ensures old(state) == HalfOpen ==>
                && successCount == old(successCount) + 1
                && if successCount >= config.successThreshold then state == Closed && failureCount == 0
                   else state == HalfOpen && unchanged(`failureCount)
    {
      match state
      case Closed => failureCount := 0;
      case HalfOpen =>
        successCount := successCount + 1;
        if successCount >= config.successThreshold {
          state := Closed;
          failureCount := 0;
        }
      case Open =>
    }

    method RecordFailure(now: u64)
      requires Valid()
      modifies this
      ensures Valid() && View() == After(config, old(View()), Call.RecordFailure(now))
      ensures old(state) == Open ==> unchanged(this)
      ensures old(state) != Open ==> lastFailureTime == now
      ensures old(state) == Closed ==>
                && unchanged(`successCount) && failureCount == old(failureCount) + 1
                && state == if failureCount >= config.failureThreshold then Open else Closed
      ensures old(state) == HalfOpen ==>
                && state == Open && successCount == 0
                && failureCount == (old(failureCount) + 1) % 0x1_0000_0000_0000_0000
    {
      match state
      case Closed =>
        failureCount := failureCount + 1;
        lastFailureTime := now;
        if failureCount >= config.failureThreshold { state := Open; }
      case HalfOpen =>
        successCount := 0;
        failureCount := Bump(failureCount);
        lastFailureTime := now;
        state := Open;
      case Open =>
    }

    method Reset()
      requires Valid()
      modifies this
      ensures Valid() && View() == After(config, old(View()), Call.Reset)
      ensures state == Closed && failureCount == successCount == 0 && unchanged(`lastFailureTime)
    {
      state, failureCount, successCount := Closed, 0, 0;
    }
  }

  // ----- what holds over every run

  lemma {:induction false} RunCounts(c: Config, calls: seq<Call>)
    ensures Counting(c, AfterAll(c, calls))
  {
    if calls == [] {
    } else {
      RunCounts(c, calls[..|calls| - 1]);
    }
  }

  /** The failures recorded since the last success or reset. */
  function TrailingFailures(calls: seq<Call>): nat {
    if calls == [] then 0
    else
      var front := TrailingFailures(calls[..|calls| - 1]);
      match calls[|calls| - 1]
      case RecordFailure(_) => front + 1
      case Check(_) => front
      case _ => 0
  }

  function Successes(calls: seq<Call>): nat {
    if calls == [] then 0
    else Successes(calls[..|calls| - 1]) + if calls[|calls| - 1].RecordSuccess? then 1 else 0
  }

  /** A closed breaker counts exactly the failures since the last success or reset. */
  lemma {:induction false} ClosedCountsFailures(c: Config, calls: seq<Call>)
    requires AfterAll(c, calls).state == Closed
    ensures AfterAll(c, calls).failures == TrailingFailures(calls)
  {
    RunCounts(c, calls);
    if calls == [] {
    } else {
      var m := |calls| - 1;
      RunCounts(c, calls[..m]);
      if AfterAll(c, calls[..m]).state == Closed { ClosedCountsFailures(c, calls[..m]); }
    }
  }

  /** It opens on a failure that is the threshold-th since the last success or reset, and on nothing else. */
  lemma OpensIff(c: Config, calls: seq<Call>, call: Call)
    requires AfterAll(c, calls).state == Closed
    ensures AfterAll(c, calls + [call]).state == Open <==>
            call.RecordFailure? && TrailingFailures(calls + [call]) == AtLeastOne(c.failureThreshold)
    ensures AfterAll(c, calls + [call]).state != HalfOpen
  {
    assert (calls + [call])[..|calls|] == calls;
    RunCounts(c, calls);
    ClosedCountsFailures(c, calls);
  }

  /** The breaker has been in its current state since call k and not before. */
  ghost predicate Since(c: Config, calls: seq<Call>, k: nat) {
    && k < |calls|
    && AfterAll(c, calls[..k]).state != AfterAll(c, calls).state
    && forall j :: k < j <= |calls| ==> AfterAll(c, calls[..j]).state == AfterAll(c, calls).state
  }

  lemma SinceFront(c: Config, calls: seq<Call>, k: nat)
    requires Since(c, calls, k) && k < |calls| - 1
    ensures Since(c, calls[..|calls| - 1], k)
    ensures AfterAll(c, calls[..|calls| - 1]).state == AfterAll(c, calls).state
  {
    var m := |calls| - 1;
    assert calls[..m][..k] == calls[..k];
    forall j | k < j <= m ensures AfterAll(c, calls[..m][..j]).state == AfterAll(c, calls).state {
      assert calls[..m][..j] == calls[..j];
    }
  }

  /** An open breaker was opened by a failure, and measures from the time of that failure: later ones
      do not push the deadline back. */
  lemma {:induction false} OpenSince(c: Config, calls: seq<Call>, k: nat)
    requires Since(c, calls, k) && AfterAll(c, calls).state == Open
    ensures calls[k].RecordFailure? && AfterAll(c, calls).lastFailure == calls[k].now
  {
    var m := |calls| - 1;
    if k < m {
      SinceFront(c, calls, k);
      OpenSince(c, calls[..m], k);
    }
  }

  /** Once opened at time t it rejects every check before t plus the u64 timeout and admits every later one;
      the exception is a zero u64 timeout, which admits even when the clock has gone back before t. */
  lemma AdmittedIff(c: Config, calls: seq<Call>, k: nat, now: u64)
    requires Since(c, calls, k) && AfterAll(c, calls).state == Open
    ensures calls[k].RecordFailure?
    ensures var timeout := c.resetTimeout % 0x1_0000_0000_0000_0000;
            Admits(c, AfterAll(c, calls), now) <==>
            now >= calls[k].now + timeout || (timeout == 0 && now < calls[k].now)
  {
    OpenSince(c, calls, k);
  }

  /** A check is admitted before the configured timeout is over exactly when the configured timeout does not
      fit in u64 and its remainder is over, or when that remainder is zero and the clock has gone back. */
  lemma AdmittedEarlyIff(c: Config, calls: seq<Call>, k: nat, now: u64)
    requires Since(c, calls, k) && AfterAll(c, calls).state == Open
    ensures calls[k].RecordFailure?
    ensures Admits(c, AfterAll(c, calls), now) && now < calls[k].now + c.resetTimeout <==>
            (c.resetTimeout > USIZE_MAX && now >= calls[k].now + c.TimeoutMillis()) ||
            (c.TimeoutMillis() == 0 && now < calls[k].now)
  {
    AdmittedIff(c, calls, k, now);
  }

  /** A timeout of 18446744073709552000 milliseconds is cut to 384: a failure at 5 opens the breaker and a
      check at 389 is admitted. */
  lemma LongTimeoutAdmitsEarly()
    ensures var c, calls := Config(1, 18446744073709552000, 1), [RecordFailure(5)];
            && AfterAll(c, calls).state == Open && Since(c, calls, 0)
            && Admits(c, AfterAll(c, calls), 389) && 389 < 5 + c.resetTimeout
  {
    var c, calls := Config(1, 18446744073709552000, 1), [RecordFailure(5)];
    assert calls[..0] == [] && calls[..1] == calls;
    assert c.TimeoutMillis() == 384;
  }

  /** The call leaves an open breaker alone: no reset, and no check at or past the deadline. */
  predicate Bounces(c: Config, b: Breaker, call: Call) {
    !call.Reset? && (call.Check? ==> Elapsed(b, call.now) < c.TimeoutMillis())
  }

  /** An open breaker stays open over one call exactly when the call leaves it alone. */
  lemma BouncesIff(c: Config, b: Breaker, call: Call)
    requires b.state == Open
    ensures After(c, b, call).state == Open <==> Bounces(c, b, call)
    ensures Bounces(c, b, call) ==> After(c, b, call) == b
  {
  }

  lemma {:induction false} BouncedAll(c: Config, calls: seq<Call>, rest: seq<Call>)
    requires AfterAll(c, calls).state == Open
    requires forall i :: 0 <= i < |rest| ==> Bounces(c, AfterAll(c, calls), rest[i])
    ensures AfterAll(c, calls + rest) == AfterAll(c, calls)
  {
    if rest == [] {
      assert calls + rest == calls;
    } else {
      var m := |rest| - 1;
      hide After, Bounces;
      assert forall i :: 0 <= i < m ==> rest[..m][i] == rest[i];
      BouncedAll(c, calls, rest[..m]);
      assert (calls + rest)[..|calls| + m] == calls + rest[..m];
      BouncesIff(c, AfterAll(c, calls), rest[m]);
    }
  }

  /** A breaker that is open stays open over a continuation for exactly as long as no reset and no check at
      or past the deadline comes; until then it is unchanged and rejects every check, and neither successes
      nor failures move it. */
  lemma StaysOpenIff(c: Config, calls: seq<Call>, rest: seq<Call>)
    requires AfterAll(c, calls).state == Open
    ensures (forall j :: 0 <= j <= |rest| ==> AfterAll(c, calls + rest[..j]).state == Open) <==>
            (forall i :: 0 <= i < |rest| ==> Bounces(c, AfterAll(c, calls), rest[i]))
    ensures (forall i :: 0 <= i < |rest| ==> Bounces(c, AfterAll(c, calls), rest[i])) ==>
            AfterAll(c, calls + rest) == AfterAll(c, calls)
  {
    hide After, Bounces;
    if forall i :: 0 <= i < |rest| ==> Bounces(c, AfterAll(c, calls), rest[i]) {
      BouncedAll(c, calls, rest);
      forall j | 0 <= j <= |rest| ensures AfterAll(c, calls + rest[..j]).state == Open {
        assert forall i :: 0 <= i < j ==> rest[..j][i] == rest[i];
        BouncedAll(c, calls, rest[..j]);
      }
    }
    if forall j :: 0 <= j <= |rest| ==> AfterAll(c, calls + rest[..j]).state == Open {
      OpenMeansBounced(c, calls, rest, |rest|);
    }
  }

  lemma {:induction false} OpenMeansBounced(c: Config, calls: seq<Call>, rest: seq<Call>, n: nat)
    requires n <= |rest| && AfterAll(c, calls).state == Open
    requires forall j :: 0 <= j <= |rest| ==> AfterAll(c, calls + rest[..j]).state == Open
    ensures forall i :: 0 <= i < n ==> Bounces(c, AfterAll(c, calls), rest[i])
    decreases n
  {
    hide After, Bounces;
    if n == 0 {
    } else {
      var m := n - 1;
      OpenMeansBounced(c, calls, rest, m);
      assert forall i :: 0 <= i < m ==> rest[..m][i] == rest[i];
      BouncedAll(c, calls, rest[..m]);
      assert (calls + rest[..n])[..|calls| + m] == calls + rest[..m];
      assert AfterAll(c, calls + rest[..n]).state == Open;
      BouncesIff(c, AfterAll(c, calls), rest[m]);
    }
  }

  lemma HalfOpenStep(c: Config, b: Breaker, call: Call)
    requires Counting(c, b) && After(c, b, call).state == HalfOpen
    ensures !call.RecordFailure? && !call.Reset?
    ensures b.state == HalfOpen ==>
            After(c, b, call).successes == b.successes + if call.RecordSuccess? then 1 else 0
    ensures b.state != HalfOpen ==> b.state == Open && call.Check? && After(c, b, call).successes == 0
  {
  }

  /** A half-open breaker was entered by an admitted check, has seen no failure and no reset since,
      and counts exactly the successes since. */
  lemma {:induction false} HalfOpenSince(c: Config, calls: seq<Call>, k: nat)
    requires Since(c, calls, k) && AfterAll(c, calls).state == HalfOpen
    ensures calls[k].Check? && AfterAll(c, calls[..k]).state == Open
    ensures forall i :: k < i < |calls| ==> !calls[i].RecordFailure? && !calls[i].Reset?
    ensures AfterAll(c, calls).successes == Successes(calls[k..])
  {
    hide After, Counting, Bump;
    var m := |calls| - 1;
    RunCounts(c, calls[..m]);
    HalfOpenStep(c, AfterAll(c, calls[..m]), calls[m]);
    assert calls[k..][..m - k] == calls[k..m];
    if k < m {
      SinceFront(c, calls, k);
      HalfOpenSince(c, calls[..m], k);
      assert calls[..m][k..] == calls[k..m];
      assert calls[..m][..k] == calls[..k];
      assert forall i :: k < i < m ==> calls[..m][i] == calls[i];
    } else {
      assert calls[k..][..0] == [];
    }
  }

  /** It closes without a reset exactly on the success that makes the successes since it was entered
      reach the threshold, and reopens on any failure. */
  lemma ClosesIff(c: Config, calls: seq<Call>, k: nat, call: Call)
    requires Since(c, calls, k) && AfterAll(c, calls).state == HalfOpen
    ensures AfterAll(c, calls + [call]).state == Closed <==>
            call.Reset? || (call.RecordSuccess? && Successes(calls[k..]) + 1 == AtLeastOne(c.successThreshold))
    ensures AfterAll(c, calls + [call]).state == Open <==> call.RecordFailure?
  {
    assert (calls + [call])[..|calls|] == calls;
    RunCounts(c, calls);
    HalfOpenSince(c, calls, k);
  }

  /** Every run is either still in its first closed state or has been in its current state since some call. */
  lemma {:induction false} SinceExists(c: Config, calls: seq<Call>)
    requires AfterAll(c, calls).state != Closed
    ensures exists k: nat :: Since(c, calls, k)
  {
    hide After;
    var m := |calls| - 1;
    var front := calls[..m];
    if AfterAll(c, front).state == AfterAll(c, calls).state {
      SinceExists(c, front);
      var k: nat :| Since(c, front, k);
      assert front[..k] == calls[..k];
      forall j | k < j <= |calls| ensures AfterAll(c, calls[..j]).state == AfterAll(c, calls).state {
        if j <= m { assert front[..j] == calls[..j]; } else { assert calls[..j] == calls; }
      }
      assert Since(c, calls, k);
    } else {
      assert calls[..|calls|] == calls;
      assert Since(c, calls, m);
    }
  }

  /** Over every run a check is refused if and only if the breaker has been open since some failure and that
      failure's deadline is not reached: in any other state, and with a zero u64 timeout, all are admitted. */
  lemma RefusedIff(c: Config, calls: seq<Call>, now: u64)
    ensures !Admits(c, AfterAll(c, calls), now) <==>
            && AfterAll(c, calls).state == Open
            && exists k: nat :: Since(c, calls, k) && calls[k].RecordFailure? &&
                 0 < c.resetTimeout % 0x1_0000_0000_0000_0000 &&
                 now < calls[k].now + c.resetTimeout % 0x1_0000_0000_0000_0000
  {
    if AfterAll(c, calls).state == Open {
      SinceExists(c, calls);
      forall k: nat | Since(c, calls, k)
        ensures calls[k].RecordFailure?
        ensures !Admits(c, AfterAll(c, calls), now) <==>
                0 < c.resetTimeout % 0x1_0000_0000_0000_0000 &&
                now < calls[k].now + c.resetTimeout % 0x1_0000_0000_0000_0000
      {
        hide Since, AfterAll, Admits;
        AdmittedIff(c, calls, k, now);
      }
    }
  }

  // ----- a check split by another thread

  /** The successes of another thread, n of them. */
  function Successful(c: Config, b: Breaker, n: nat): Breaker {
    if n == 0 then b else After(c, Successful(c, b, n - 1), RecordSuccess)
  }

  /** An admitted check of an open breaker whose exchange and store are split by n successes: the state is
      half-open while they are recorded, the count is cleared after them. */
  function SplitCheck(c: Config, b: Breaker, n: nat): Breaker {
    Successful(c, b.(state := HalfOpen), n).(successes := 0)
  }

  lemma {:induction false} SuccessfulIs(c: Config, b: Breaker, n: nat)
    requires b.state == HalfOpen && b.successes + 1 <= USIZE_MAX && b.successes < AtLeastOne(c.successThreshold)
    ensures Successful(c, b, n) ==
            if b.successes + n < AtLeastOne(c.successThreshold) then b.(successes := b.successes + n)
            else b.(state := Closed, failures := 0, successes := AtLeastOne(c.successThreshold))
  {
    if n == 0 {
    } else {
      SuccessfulIs(c, b, n - 1);
    }
  }

  /** When the count left over from earlier already meets the threshold, the first success closes. */
  lemma {:induction false} StaleSuccessfulIs(c: Config, b: Breaker, n: nat)
    requires b.state == HalfOpen && AtLeastOne(c.successThreshold) <= b.successes < USIZE_MAX && n > 0
    ensures Successful(c, b, n) == b.(state := Closed, failures := 0, successes := b.successes + 1)
  {
    if n > 1 { StaleSuccessfulIs(c, b, n - 1); } else { assert Successful(c, b, 0) == b; }
  }

  /** Successes recorded between a check's exchange and its store survive exactly when there are none or
      enough of them to close the breaker on their own. Fewer are erased, or close it early when the count left
      over from before the breaker opened makes up the difference. */
  lemma SplitCheckIff(c: Config, b: Breaker, now: u64, n: nat)
    requires b.state == Open && Admits(c, b, now) && b.successes < USIZE_MAX
    ensures var split, whole := SplitCheck(c, b, n), Successful(c, After(c, b, Check(now)), n);
            && (split.state == whole.state && (whole.state == HalfOpen ==> split.successes == whole.successes) <==>
                n == 0 || n >= AtLeastOne(c.successThreshold))
            && (split.state == Closed && whole.state == HalfOpen <==>
                0 < n < AtLeastOne(c.successThreshold) <= b.successes + n)
  {
    var threshold := AtLeastOne(c.successThreshold);
    var entered := b.(state := HalfOpen);
    if entered.successes < threshold {
      SuccessfulIs(c, entered, n);
    } else if n > 0 {
      StaleSuccessfulIs(c, entered, n);
    }
    SuccessfulIs(c, After(c, b, Check(now)), n);
  }

  /** Two successes close, one is recorded while the check is between its exchange and its store: it is gone. */
  lemma SplitCheckErasesASuccess()
    ensures var c, b := Config(1, 10, 2), Breaker(Open, 1, 0, 5);
            && Admits(c, b, 15) && Successful(c, After(c, b, Check(15)), 1) == Breaker(HalfOpen, 1, 1, 5)
            && SplitCheck(c, b, 1) == Breaker(HalfOpen, 1, 0, 5)
  {
    var c, b := Config(1, 10, 2), Breaker(Open, 1, 0, 5);
    assert Successful(c, After(c, b, Check(15)), 0) == After(c, b, Check(15));
    assert Successful(c, b.(state := HalfOpen), 0) == b.(state := HalfOpen);
  }

  /** After a full open and close the count of two successes is left over: the next time the breaker opens, one
      success inside the split closes it. */
  lemma SplitCheckClosesEarly()
    ensures var c := Config(1, 10, 2);
            var calls := [RecordFailure(0), Check(10), RecordSuccess, RecordSuccess, RecordFailure(20)];
            var b := AfterAll(c, calls);
            && b == Breaker(Open, 1, 2, 20) && Admits(c, b, 30)
            && SplitCheck(c, b, 1).state == Closed && Successful(c, After(c, b, Check(30)), 1).state == HalfOpen
  {
    var c := Config(1, 10, 2);
    var calls := [RecordFailure(0), Check(10), RecordSuccess, RecordSuccess, RecordFailure(20)];
    assert calls[..0] == [];
    assert calls[..1][..0] == [] && AfterAll(c, calls[..1]) == Breaker(Open, 1, 0, 0);
    assert calls[..2][..1] == calls[..1] && AfterAll(c, calls[..2]) == Breaker(HalfOpen, 1, 0, 0);
    assert calls[..3][..2] == calls[..2] && AfterAll(c, calls[..3]) == Breaker(HalfOpen, 1, 1, 0);
    assert calls[..4][..3] == calls[..3] && AfterAll(c, calls[..4]) == Breaker(Closed, 0, 2, 0);
    SplitCheckIff(c, AfterAll(c, calls), 30, 1);
  }
}
