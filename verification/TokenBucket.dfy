/** The token bucket that bounds how many packets an interface sends (check_bucket in
    babeld/message.c; the initial values in babeld/babel_interface.c). */
module TokenBucket {

  const BUCKET_TOKENS_MAX: int := 200
  const BUCKET_TOKENS_PER_SEC: int := 40

  datatype State = State(bucket: int, time: int)

  function Fresh(now: int): State {
    State(BUCKET_TOKENS_MAX, now)
  }

  function Min(a: int, b: int): int {
    if a < b then a else b
  }

  /** An empty bucket is filled for the time since it was last filled. */
  function Refilled(s: State, now: int): State {
    if s.bucket > 0 then s
    else State(if now > s.time then Min(BUCKET_TOKENS_MAX, (now - s.time) * BUCKET_TOKENS_PER_SEC) else s.bucket, now)
  }

  function Check(s: State, now: int): (State, bool) {
    var r := Refilled(s, now);
    if r.bucket > 0 then (r.(bucket := r.bucket - 1), true) else (r, false)
  }

  class Interface {
    var bucket: int
    var bucketTime: int

    constructor (now: int)
      ensures State(bucket, bucketTime) == Fresh(now)
    {
      bucket, bucketTime := BUCKET_TOKENS_MAX, now;
    }

    /** check_bucket */
    method CheckBucket(now: int) returns (pass: bool)
      modifies this
      ensures (State(bucket, bucketTime), pass) == Check(old(State(bucket, bucketTime)), now)
    {
      if bucket <= 0 {
        var seconds := now - bucketTime;
        if seconds > 0 {
          bucket := Min(BUCKET_TOKENS_MAX, seconds * BUCKET_TOKENS_PER_SEC);
        }
        bucketTime := now;
      }
      if bucket > 0 {
        bucket := bucket - 1;
        pass := true;
      } else {
        pass := false;
      }
    }
  }

  // ----- runs -----------------------------------------------------------------------

  /** The state after packets offered at the given times, and how many of them passed. */
  function Run(s: State, times: seq<int>): (State, nat) {
    if times == [] then (s, 0)
    else
      var (r, n) := Run(s, times[..|times| - 1]);
      var (r', pass) := Check(r, times[|times| - 1]);
      (r', if pass then n + 1 else n)
  }

  /** A clock that starts at `t0` and never goes back. */
  predicate Monotone(t0: int, times: seq<int>) {
    && (forall i :: 0 <= i < |times| ==> t0 <= times[i])
    && (forall i, j :: 0 <= i < j < |times| ==> times[i] <= times[j])
  }

  function Last(t0: int, times: seq<int>): int {
    if times == [] then t0 else times[|times| - 1]
  }

  /** What holds after every packet, counted from a state that held at most a full bucket: the
      packets passed and the tokens left are paid for by the start and by the time since. */
  lemma {:induction false} RunPaid(s: State, t0: int, times: seq<int>)
    requires 0 <= s.bucket <= BUCKET_TOKENS_MAX && s.time <= t0 && Monotone(t0, times)
    ensures var (r, n) := Run(s, times);
            && 0 <= r.bucket <= BUCKET_TOKENS_MAX
            && s.time <= r.time <= Last(t0, times)
            && n + r.bucket <= s.bucket + BUCKET_TOKENS_PER_SEC * (r.time - s.time)
            && (r.time < t0 ==> r.time == s.time)
            && (r.time >= t0 ==>
                  n + r.bucket <= s.bucket + BUCKET_TOKENS_MAX + BUCKET_TOKENS_PER_SEC * (r.time - t0))
  {
    if times != [] {
      var front := times[..|times| - 1];
      assert Monotone(t0, front);
      RunPaid(s, t0, front);
      assert Last(t0, front) <= times[|times| - 1];
    }
  }

  /** An interface created at `t0` passes at most 200 packets, and 40 for every second since. */
  lemma RateBound(t0: int, times: seq<int>)
    requires Monotone(t0, times)
    ensures var (r, n) := Run(Fresh(t0), times);
            && 0 <= r.bucket <= BUCKET_TOKENS_MAX
            && n <= BUCKET_TOKENS_MAX + BUCKET_TOKENS_PER_SEC * (Last(t0, times) - t0)
  {
    RunPaid(Fresh(t0), t0, times);
  }

  lemma {:induction false} RunConcat(s: State, a: seq<int>, b: seq<int>)
    ensures Run(s, a + b).0 == Run(Run(s, a).0, b).0
    ensures Run(s, a + b).1 == Run(s, a).1 + Run(Run(s, a).0, b).1
  {
    if b == [] {
      assert a + b == a;
    } else {
      RunConcat(s, a, b[..|b| - 1]);
      assert (a + b)[..|a + b| - 1] == a + b[..|b| - 1];
    }
  }

  /** In any later window the bound is 400 and 40 for every second: what was left in the bucket
      may be followed at once by a full refill for the time before the window. */
  lemma WindowBound(t0: int, before: seq<int>, window: seq<int>)
    requires window != [] && Monotone(t0, before + window)
    ensures Run(Fresh(t0), before + window).1 - Run(Fresh(t0), before).1
              <= 2 * BUCKET_TOKENS_MAX + BUCKET_TOKENS_PER_SEC * (window[|window| - 1] - window[0])
  {
    var all := before + window;
    assert forall i :: 0 <= i < |before| ==> all[i] == before[i];
    assert forall i :: 0 <= i < |window| ==> all[|before| + i] == window[i];
    assert Monotone(t0, before) && Monotone(window[0], window);
    RunPaid(Fresh(t0), t0, before);
    RunConcat(Fresh(t0), before, window);
    RunPaid(Run(Fresh(t0), before).0, window[0], window);
  }

  function Repeat(t: int, n: nat): seq<int> {
    seq(n, _ => t)
  }

  /** While there are tokens every packet passes. */
  lemma {:induction false} Burst(s: State, t: int, n: nat)
    requires 0 <= n <= s.bucket
    ensures Run(s, Repeat(t, n)) == (s.(bucket := s.bucket - n), n)
  {
    if n > 0 {
      Burst(s, t, n - 1);
      assert Repeat(t, n)[..n - 1] == Repeat(t, n - 1);
    }
  }

  /** And that bound is reached: 400 packets in one second, five seconds after the start. */
  lemma WindowBoundReached(t0: int)
    ensures Run(Fresh(t0), Repeat(t0 + 5, 400)).1 == 400
  {
    var t, s := t0 + 5, State(0, t0);
    Burst(Fresh(t0), t, 200);
    assert Repeat(t, 400) == Repeat(t, 200) + (Repeat(t, 1) + Repeat(t, 199));
    RunConcat(Fresh(t0), Repeat(t, 200), Repeat(t, 1) + Repeat(t, 199));
    RunConcat(s, Repeat(t, 1), Repeat(t, 199));
    assert Repeat(t, 1)[..0] == [];
    assert Run(s, Repeat(t, 1)) == (State(199, t), 1);
    Burst(State(199, t), t, 199);
  }
}
