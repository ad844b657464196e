/**
  The startup gate: before the service listens, it probes the renderer's
  base URL up to six times. A probe is healthy when the reply's status is
  2xx (`resp.ok`) or 404; the gate then listens and stops. After an
  unhealthy reply or a failed connection it waits ten seconds, but only
  if attempts remain; after the sixth unhealthy probe it exits with code 1.
  The probe results are the environment's answers, one per attempt number.
 */
module StartupGate {
  const MaxAttempts: nat := 6
  const RetryDelayMs: nat := 10000

  /** What one `fetch` of the base URL gave: a rejected promise, or a reply. */
  datatype Probe = TransportError | Status(code: int)

  /** `resp.ok || resp.status === 404`: a reply in the 2xx hundred or a
      404; a failed connection never is. */
  predicate Healthy(p: Probe) {
    p.Status? && ((200 <= p.code <= 299) || p.code == 404)
  }

  datatype Outcome = Listen | Exit(code: int)

  /** How many probes ran, how many waits happened, and how the gate ended. */
  datatype Trace = Trace(probes: nat, waits: nat, outcome: Outcome)

  /** The gate as a state machine: `Probing(n)` moves to `Ready` on a
      healthy probe, to `Probing(n + 1)` on an unhealthy one while attempts
      remain, and to `Fatal` on an unhealthy last attempt. */
  datatype State = Probing(attempt: nat) | Ready | Fatal

  function Step(st: State, p: Probe): State
    requires st.Probing? && 1 <= st.attempt <= MaxAttempts
  {
    if Healthy(p) then Ready
    else if st.attempt < MaxAttempts then Probing(st.attempt + 1)
    else Fatal
  }

  /** Runs the state machine from `Probing(n)` to a terminal state. The
      trace counts probes and waits from attempt 1, as if attempts `1` to
      `n - 1` had run and failed: every step out of `Probing(k)` into
      `Probing(k + 1)` is one wait. */
  function RunFrom(n: nat, probe: nat -> Probe): (t: Trace)
    requires 1 <= n <= MaxAttempts
    ensures n <= t.probes <= MaxAttempts && t.waits == t.probes - 1
    ensures t.outcome == Listen || t.outcome == Exit(1)
    decreases MaxAttempts - n
  {
    match Step(Probing(n), probe(n))
    case Ready => Trace(n, n - 1, Listen)
    case Fatal => Trace(n, n - 1, Exit(1))
    case Probing(k) => RunFrom(k, probe)
  }

  /** The machine started in `Probing(n)` stops at the first healthy probe
      from `n` on, or after the last attempt. */
  lemma {:induction false} RunFromStopsAtFirstHealthy(n: nat, probe: nat -> Probe)
    requires 1 <= n <= MaxAttempts
    ensures var t := RunFrom(n, probe);
      && n <= t.probes <= MaxAttempts
      && t.waits == t.probes - 1
      && (forall i :: n <= i < t.probes ==> !Healthy(probe(i)))
      && (t.outcome == Listen <==> Healthy(probe(t.probes)))
      && (t.outcome != Listen ==> t.outcome == Exit(1) && t.probes == MaxAttempts)
    decreases MaxAttempts - n
  {
    if !Healthy(probe(n)) && n < MaxAttempts {
      RunFromStopsAtFirstHealthy(n + 1, probe);
    }
  }

  /** `checkPdfApiAndStart`: the retry loop with its attempt counter and
      early return. */
  method CheckHealthAndStart(probe: nat -> Probe) returns (t: Trace)
    ensures t == RunFrom(1, probe)
    ensures 1 <= t.probes <= MaxAttempts
    ensures t.waits == t.probes - 1
    ensures forall i :: 1 <= i < t.probes ==> !Healthy(probe(i))
    ensures t.outcome == Listen <==> Healthy(probe(t.probes))
    ensures t.outcome != Listen ==> t.outcome == Exit(1) && t.probes == MaxAttempts
  {
    RunFromStopsAtFirstHealthy(1, probe);
    var attempt := 0;
    var waits := 0;
    while attempt < MaxAttempts
      invariant 0 <= attempt <= MaxAttempts
      invariant waits == if attempt < MaxAttempts then attempt else MaxAttempts - 1
      invariant forall i :: 1 <= i <= attempt ==> !Healthy(probe(i))
      invariant attempt < MaxAttempts ==> RunFrom(1, probe) == RunFrom(attempt + 1, probe)
    {
      attempt := attempt + 1;
      var p := probe(attempt);
      if Healthy(p) {
        return Trace(attempt, waits, Listen);
      }
      if attempt < MaxAttempts {
        waits := waits + 1;
      }
    }
    t := Trace(attempt, waits, Exit(1));
  }

  /** A healthy first probe opens the port at once, with no wait. */
  lemma FirstProbeHealthy(probe: nat -> Probe)
    requires Healthy(probe(1))
    ensures RunFrom(1, probe) == Trace(1, 0, Listen)
  {
  }

  /** Six unhealthy probes end in exit code 1 after five waits, fifty
      seconds of waiting in all. */
  lemma NeverHealthy(probe: nat -> Probe)
    requires forall i :: 1 <= i <= MaxAttempts ==> !Healthy(probe(i))
    ensures RunFrom(1, probe) == Trace(MaxAttempts, MaxAttempts - 1, Exit(1))
    ensures RunFrom(1, probe).waits * RetryDelayMs == 50000
  {
    RunFromStopsAtFirstHealthy(1, probe);
  }
}
