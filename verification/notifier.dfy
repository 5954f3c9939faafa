/**
 The decision part of `send_email`: whether an alert is attempted at all,
 and what the attempted message carries. Opening the mail session, logging
 in and sending are outside the model; the decision says what would be sent.
 */
module Notifier {
  import opened Options
  import opened Variation

  /** The trend glyph shown next to the price. */
  datatype Arrow = Up | Down

  /** Up only for a strictly positive difference; no change counts as down. */
  function TrendArrow(difference: real): (a: Arrow)
    ensures a == Up <==> difference > 0.0
    ensures a == Down <==> difference <= 0.0
  {
    if difference > 0.0 then Up else Down
  }

  /** A configuration value as Python's truthiness sees it: set and not empty. */
  predicate Configured(value: Option<string>) {
    value.Some? && |value.value| > 0
  }

  /** The sender mailbox and its password, read from the process environment. */
  datatype Credentials = Credentials(address: Option<string>, password: Option<string>)

  const Subject := "Bitcoin Price Monitoring Report"

  /** What the report shows: price, 24-hour volume, change against the baseline and trend. */
  datatype Report = Report(price: real, volume: real, change: Change, arrow: Arrow)

  /** The message handed to the mail relay, logged in as `sender` with `password`. */
  datatype Message = Message(sender: string, password: string, recipient: string, subject: string, report: Report)

  /** The outcome of the gate: nothing to do, a configuration failure, or one send attempt. */
  datatype Decision = AboveThreshold | MissingCredentials | Attempt(message: Message)

  /**
   `send_email` up to the mail session: no alert while the price is at or
   above the threshold; below it, a send is attempted only with both
   credentials configured, and carries the report with the trend arrow.
   */
  function SendEmail(email: string, threshold: real, price: real, volume: real, change: Change, credentials: Credentials): (d: Decision)
    ensures d.AboveThreshold? <==> price >= threshold
    ensures d.Attempt? <==> price < threshold && Configured(credentials.address) && Configured(credentials.password)
    ensures d.MissingCredentials? <==> price < threshold && !(Configured(credentials.address) && Configured(credentials.password))
    ensures d.Attempt? ==> d.message == Message(credentials.address.value, credentials.password.value, email, Subject,
                                                Report(price, volume, change, TrendArrow(change.difference)))
  {
    if price >= threshold then AboveThreshold
    else if !Configured(credentials.address) || !Configured(credentials.password) then MissingCredentials
    else
      var report := Report(price, volume, change, TrendArrow(change.difference));
      Attempt(Message(credentials.address.value, credentials.password.value, email, Subject, report))
  }

  /** Raising the price never turns a quiet cycle into an alert: the gate is monotone in the price. */
  lemma GateMonotone(email: string, threshold: real, low: real, high: real, volume: real, change: Change, credentials: Credentials)
    requires low <= high
    ensures SendEmail(email, threshold, high, volume, change, credentials).Attempt? ==>
              SendEmail(email, threshold, low, volume, change, credentials).Attempt?
  {
  }
}
