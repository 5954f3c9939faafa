/**
 The monitoring session and its cycles. A cycle takes what the price API
 returned (a quote, or nothing when the request failed), updates the
 baseline and decides about the alert. The program runs one cycle at
 start-up and then one every ten minutes; the model takes the sequence of
 fetch results in the order the cycles ran.
 */
module Monitor {
  import opened Options
  import opened Variation
  import opened Notifier

  /** Price and 24-hour volume as reported by the API. */
  datatype Quote = Quote(price: real, volume: real)

  /** The threshold and address fixed at start-up, and the baseline that evolves. */
  datatype Session = Session(threshold: real, email: string, baseline: Option<real>)

  /** A session as it starts: no price observed yet. */
  function NewSession(threshold: real, email: string): (s: Session)
    ensures s.baseline.None? && s.threshold == threshold && s.email == email
  {
    Session(threshold, email, None)
  }

  /** One cycle's outcome: skipped for lack of a price, or checked with the change and gate decision. */
  datatype Outcome = Skipped | Checked(change: Change, decision: Decision)

  datatype Cycle = Cycle(session: Session, outcome: Outcome)

  /**
   `send_scheduled_email` (and the identical first cycle at start-up): a
   failed fetch skips everything and leaves the baseline alone; a price
   moves the baseline to that price and goes through the alert gate.
   */
  function RunCycle(s: Session, fetched: Option<Quote>, credentials: Credentials): (c: Cycle)
    requires fetched.Some? ==> s.baseline != Some(0.0)
    ensures c.session.threshold == s.threshold && c.session.email == s.email
    ensures fetched.None? ==> c.session == s && c.outcome == Skipped
    ensures fetched.Some? ==> c.session.baseline == Some(fetched.value.price) && c.outcome.Checked?
    ensures (c.outcome.Checked? && c.outcome.decision.Attempt?) <==>
              (fetched.Some? && fetched.value.price < s.threshold && Configured(credentials.address) && Configured(credentials.password))
  {
    match fetched
    case None => Cycle(s, Skipped)
    case Some(q) =>
      var step := CalculateVariation(s.baseline, q.price);
      var decision := SendEmail(s.email, s.threshold, q.price, q.volume, step.change, credentials);
      Cycle(s.(baseline := step.baseline), Checked(step.change, decision))
  }

  /** The baseline a cycle leaves behind, stated without running it. */
  function After(baseline: Option<real>, fetched: Option<Quote>): Option<real> {
    if fetched.Some? then Some(fetched.value.price) else baseline
  }

  /**
   Reference definition of the baseline: the price of the most recent
   successful fetch, or the starting baseline when no fetch succeeded.
   */
  function LatestPrice(baseline: Option<real>, fetches: seq<Option<Quote>>): Option<real> {
    if |fetches| == 0 then baseline
    else if fetches[|fetches| - 1].Some? then Some(fetches[|fetches| - 1].value.price)
    else LatestPrice(baseline, fetches[..|fetches| - 1])
  }

  lemma {:induction false} LatestPriceCons(baseline: Option<real>, first: Option<Quote>, rest: seq<Option<Quote>>)
    ensures LatestPrice(baseline, [first] + rest) == LatestPrice(After(baseline, first), rest)
    decreases |rest|
  {
    if |rest| > 0 {
      var all := [first] + rest;
      assert all[..|all| - 1] == [first] + rest[..|rest| - 1];
      LatestPriceCons(baseline, first, rest[..|rest| - 1]);
    }
  }

  /** The program never divides by a zero baseline: no price arrives while the baseline is zero. */
  predicate NoZeroBaseline(baseline: Option<real>, fetches: seq<Option<Quote>>) {
    forall i :: 0 <= i < |fetches| && fetches[i].Some? ==> LatestPrice(baseline, fetches[..i]) != Some(0.0)
  }

  lemma NoZeroBaselineTail(baseline: Option<real>, fetches: seq<Option<Quote>>)
    requires |fetches| > 0 && NoZeroBaseline(baseline, fetches)
    ensures NoZeroBaseline(After(baseline, fetches[0]), fetches[1..])
  {
    var rest := fetches[1..];
    forall i | 0 <= i < |rest| && rest[i].Some?
      ensures LatestPrice(After(baseline, fetches[0]), rest[..i]) != Some(0.0)
    {
      assert fetches[..i + 1] == [fetches[0]] + rest[..i];
      LatestPriceCons(baseline, fetches[0], rest[..i]);
      assert fetches[i + 1].Some?;
    }
  }

  /** The session after a sequence of cycles, with every cycle's outcome in order. */
  datatype History = History(session: Session, outcomes: seq<Outcome>)

  /** Runs one cycle per fetch result, in order, threading the session through. */
  function RunCycles(s: Session, fetches: seq<Option<Quote>>, credentials: Credentials): (h: History)
    requires NoZeroBaseline(s.baseline, fetches)
    ensures |h.outcomes| == |fetches|
    ensures h.session.threshold == s.threshold && h.session.email == s.email
    decreases |fetches|
  {
    if |fetches| == 0 then History(s, [])
    else
      assert fetches[..0] == [];
      var c := RunCycle(s, fetches[0], credentials);
      NoZeroBaselineTail(s.baseline, fetches);
      var h := RunCycles(c.session, fetches[1..], credentials);
      History(h.session, [c.outcome] + h.outcomes)
  }

  /** After any run the baseline is the latest successfully fetched price; failed fetches leave no trace. */
  lemma {:induction false} BaselineIsLatestPrice(s: Session, fetches: seq<Option<Quote>>, credentials: Credentials)
    requires NoZeroBaseline(s.baseline, fetches)
    ensures RunCycles(s, fetches, credentials).session.baseline == LatestPrice(s.baseline, fetches)
    decreases |fetches|
  {
    if |fetches| > 0 {
      var c := RunCycle(s, fetches[0], credentials);
      NoZeroBaselineTail(s.baseline, fetches);
      BaselineIsLatestPrice(c.session, fetches[1..], credentials);
      assert fetches == [fetches[0]] + fetches[1..];
      LatestPriceCons(s.baseline, fetches[0], fetches[1..]);
    }
  }

  /**
   Cycle by cycle: a cycle is skipped exactly when its fetch failed, an alert
   is attempted exactly when the fetched price is below the threshold and
   both credentials are configured, and the reported change is measured
   against the latest price before that cycle.
   */
  lemma {:induction false} OutcomesOfRun(s: Session, fetches: seq<Option<Quote>>, credentials: Credentials, i: nat)
    requires NoZeroBaseline(s.baseline, fetches)
    requires i < |fetches|
    ensures var o := RunCycles(s, fetches, credentials).outcomes[i];
      && (o.Skipped? <==> fetches[i].None?)
      && ((o.Checked? && o.decision.Attempt?) <==>
            (fetches[i].Some? && fetches[i].value.price < s.threshold
             && Configured(credentials.address) && Configured(credentials.password)))
      && (o.Checked? && LatestPrice(s.baseline, fetches[..i]).None? ==> o.change == NoChange)
      && (o.Checked? && LatestPrice(s.baseline, fetches[..i]).Some? ==>
            o.change.difference == fetches[i].value.price - LatestPrice(s.baseline, fetches[..i]).value)
    decreases i
  {
    var c := RunCycle(s, fetches[0], credentials);
    NoZeroBaselineTail(s.baseline, fetches);
    if i == 0 {
      assert fetches[..0] == [];
    } else {
      OutcomesOfRun(c.session, fetches[1..], credentials, i - 1);
      assert fetches[..i] == [fetches[0]] + fetches[1..][..i - 1];
      LatestPriceCons(s.baseline, fetches[0], fetches[1..][..i - 1]);
      assert fetches[1..][i - 1] == fetches[i];
    }
  }

  /** Sum of the absolute changes reported by the checked cycles. */
  function TotalChange(outcomes: seq<Outcome>): real {
    if |outcomes| == 0 then 0.0
    else (if outcomes[0].Checked? then outcomes[0].change.difference else 0.0) + TotalChange(outcomes[1..])
  }

  /** The changes telescope: starting from a baseline, they add up to the net move to the final baseline. */
  lemma {:induction false} ChangesTelescope(s: Session, fetches: seq<Option<Quote>>, credentials: Credentials)
    requires s.baseline.Some?
    requires NoZeroBaseline(s.baseline, fetches)
    ensures var h := RunCycles(s, fetches, credentials);
      h.session.baseline.Some? && s.baseline.value + TotalChange(h.outcomes) == h.session.baseline.value
    decreases |fetches|
  {
    if |fetches| > 0 {
      var c := RunCycle(s, fetches[0], credentials);
      NoZeroBaselineTail(s.baseline, fetches);
      ChangesTelescope(c.session, fetches[1..], credentials);
      var h := RunCycles(c.session, fetches[1..], credentials);
      assert RunCycles(s, fetches, credentials).outcomes == [c.outcome] + h.outcomes;
      assert ([c.outcome] + h.outcomes)[1..] == h.outcomes;
    }
  }

  /**
   Three cycles against a threshold of 30000: the first price seeds the
   baseline and alerts with no change and the down arrow, the rise to 31000
   stays quiet, the fall to 25000 alerts with a negative change.
   */
  lemma ThreeCycleScenario(credentials: Credentials)
    requires Configured(credentials.address) && Configured(credentials.password)
    ensures var fetches := [Some(Quote(29000.0, 1000000.0)), Some(Quote(31000.0, 1000000.0)), Some(Quote(25000.0, 1000000.0))];
      NoZeroBaseline(None, fetches) &&
      var h := RunCycles(NewSession(30000.0, "me@example.com"), fetches, credentials);
      && h.outcomes[0] == Checked(NoChange, h.outcomes[0].decision)
      && h.outcomes[0].decision.Attempt? && h.outcomes[0].decision.message.report.arrow == Down
      && h.outcomes[1] == Checked(Change(2000.0, 200.0 / 29.0), AboveThreshold)
      && h.outcomes[2].Checked? && h.outcomes[2].change == Change(-6000.0, -600.0 / 31.0)
      && h.outcomes[2].decision.Attempt? && h.outcomes[2].decision.message.report.arrow == Down
      && h.session.baseline == Some(25000.0)
  {
    var fetches := [Some(Quote(29000.0, 1000000.0)), Some(Quote(31000.0, 1000000.0)), Some(Quote(25000.0, 1000000.0))];
    assert LatestPrice(None, fetches[..0]) == None;
    assert LatestPrice(None, fetches[..1]) == Some(29000.0);
    assert LatestPrice(None, fetches[..2]) == Some(31000.0);
    assert NoZeroBaseline(None, fetches);
    var s0 := NewSession(30000.0, "me@example.com");
    var c0 := RunCycle(s0, fetches[0], credentials);
    var c1 := RunCycle(c0.session, fetches[1], credentials);
    var c2 := RunCycle(c1.session, fetches[2], credentials);
    assert c1.outcome == Checked(Change(2000.0, 200.0 / 29.0), AboveThreshold);
    assert c2.outcome.change == Change(-6000.0, -600.0 / 31.0);
    assert fetches[1..][1..] == fetches[2..];
    assert fetches[2..][1..] == [];
    assert RunCycles(c1.session, fetches[2..], credentials) == History(c2.session, [c2.outcome]);
    assert RunCycles(c0.session, fetches[1..], credentials) == History(c2.session, [c1.outcome, c2.outcome]);
    assert RunCycles(s0, fetches, credentials) == History(c2.session, [c0.outcome, c1.outcome, c2.outcome]);
  }
}
