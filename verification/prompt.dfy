/**
 The start-up dialogue (`get_user_value`) over the lines the user types, in
 order. It asks for an amount until one validates, then for an address
 until one validates, then for a `y`/`n` confirmation. Running out of lines
 (end of input) yields `None`.
 */
module Prompt {
  import opened Options
  import opened Text
  import opened Amount
  import opened Decimal
  import opened Email

  /**
   The threshold and address the monitoring session is started with. The code
   as written yields a Python float threshold (`PyFloat`); the corrected
   dialogue yields a positive `real`.
   */
  datatype Setup<N> = Setup(threshold: N, email: string)

  /** A confirmation reply after `.strip().lower()`. */
  datatype Answer = Yes | No | Other

  /** Reads a confirmation reply; only `y`/`Y` and `n`/`N`, with any surrounding whitespace, are recognised. */
  function ReadAnswer(line: string): (a: Answer)
    ensures a == Yes <==> (Strip(line) == "y" || Strip(line) == "Y")
    ensures a == No <==> (Strip(line) == "n" || Strip(line) == "N")
  {
    var t := Strip(line);
    LowerSingle(t);
    var w := LowerAscii(t);
    if w == "y" then Yes else if w == "n" then No else Other
  }

  lemma LowerSingle(t: string)
    ensures |t| == 1 ==> LowerAscii(t) == [LowerChar(t[0])]
  {
    if |t| == 1 {
      LowerAsciiAt(t, 0);
    }
  }

  /**
   An input loop that keeps reading until `accept` takes a line: the result
   is the first accepted line's value and the lines after it. Lines before it
   were all refused; if every line is refused the input runs out.
   */
  function FirstAccepted<T>(lines: seq<string>, accept: string -> Option<T>): (r: Option<(T, seq<string>)>)
    ensures r.None? ==> forall j :: 0 <= j < |lines| ==> accept(lines[j]).None?
    ensures r.Some? ==> var k := |lines| - |r.value.1| - 1;
      && 0 <= k && r.value.1 == lines[k + 1..] && accept(lines[k]) == Some(r.value.0)
      && forall j :: 0 <= j < k ==> accept(lines[j]).None?
    decreases |lines|
  {
    if |lines| == 0 then None
    else match accept(lines[0])
      case Some(v) => Some((v, lines[1..]))
      case None =>
        var r := FirstAccepted(lines[1..], accept);
        assert forall j :: 0 < j < |lines| ==> lines[j] == lines[1..][j - 1];
        r
  }

  /** The amount loop as written: `validate_value` on each line until it returns a float other than `None`. */
  function ReadAmountAsWritten(lines: seq<string>): (r: Option<(PyFloat, seq<string>)>)
    ensures r.Some? ==> !r.value.0.AtMostZero() && |r.value.1| < |lines|
  {
    FirstAccepted(lines, ValidateValueAsWritten)
  }

  /** The amount loop with the corrected validator: the threshold it yields is positive and finite. */
  function ReadAmount(lines: seq<string>): (r: Option<(real, seq<string>)>)
    ensures r.Some? ==> r.value.0 > 0.0 && |r.value.1| < |lines|
  {
    FirstAccepted(lines, ValidateValue)
  }

  /** `get_user_value` as written: any float for which `x <= 0` is false, and see ConfirmAsWritten for the address. */
  function CollectAsWritten(lines: seq<string>): (r: Option<Setup<PyFloat>>)
    ensures r.Some? ==> !r.value.threshold.AtMostZero() && r.value.email in lines
  {
    match ReadAmountAsWritten(lines)
    case None => None
    case Some((v, rest)) => EmailLoopAsWritten(v, rest)
  }

  /**
   The address loop: lines that fail `validate_email` are skipped; the first
   that passes is put up for confirmation. The address finally returned is
   one of the lines.
   */
  function EmailLoopAsWritten<N>(threshold: N, lines: seq<string>): (r: Option<Setup<N>>)
    ensures r.Some? ==> r.value.threshold == threshold && r.value.email in lines
    decreases |lines|, 1
  {
    if |lines| == 0 then None
    else if ValidateEmail(lines[0]) then ConfirmAsWritten(threshold, lines[0], lines[1..])
    else EmailLoopAsWritten(threshold, lines[1..])
  }

  /**
   The confirmation loop as written: `y` accepts the address on display; `n`
   reads the next line as the new address and, whatever `validate_email`
   says of it, asks for confirmation of that line; any other reply asks again.
   The address returned is the one first displayed or a line typed right
   after an `n`, and it is returned only after a `y`.
   */
  function ConfirmAsWritten<N>(threshold: N, email: string, lines: seq<string>): (r: Option<Setup<N>>)
    ensures r.Some? ==> r.value.threshold == threshold
    ensures r.Some? ==> r.value.email == email || exists j :: ReplacedAt(lines, j, r.value.email)
    ensures r.Some? ==> exists j :: ConfirmedAt(lines, j)
    decreases |lines|, 0
  {
    if |lines| == 0 then None
    else match ReadAnswer(lines[0])
      case Yes =>
        assert ConfirmedAt(lines, 0);
        Some(Setup(threshold, email))
      case No =>
        if |lines| == 1 then None
        else
          var r := ConfirmAsWritten(threshold, lines[1], lines[2..]);
          if r.Some? then
            assert ReplacedAt(lines, 1, lines[1]);
            RepliesShift(lines, 2, r.value.email);
            r
          else r
      case Other =>
        var r := ConfirmAsWritten(threshold, email, lines[1..]);
        if r.Some? then
          RepliesShift(lines, 1, r.value.email);
          r
        else r
  }

  /** `lines[j]` was typed right after an `n` reply, so it replaced the address on display. */
  predicate ReplacedAt(lines: seq<string>, j: int, e: string) {
    0 < j < |lines| && ReadAnswer(lines[j - 1]) == No && lines[j] == e
  }

  /** `lines[j]` is a `y` reply. */
  predicate ConfirmedAt(lines: seq<string>, j: int) {
    0 <= j < |lines| && ReadAnswer(lines[j]) == Yes
  }

  /** What happens in a suffix `lines[d..]` happens `d` positions further on in `lines`. */
  lemma RepliesShift(lines: seq<string>, d: nat, e: string)
    requires d <= |lines|
    ensures (exists j :: ReplacedAt(lines[d..], j, e)) ==> exists j :: ReplacedAt(lines, j, e)
    ensures (exists j :: ConfirmedAt(lines[d..], j)) ==> exists j :: ConfirmedAt(lines, j)
  {
    if exists j :: ReplacedAt(lines[d..], j, e) {
      var j :| ReplacedAt(lines[d..], j, e);
      assert lines[d..][j - 1] == lines[j + d - 1] && lines[d..][j] == lines[j + d];
      assert ReplacedAt(lines, j + d, e);
    }
    if exists j :: ConfirmedAt(lines[d..], j) {
      var j :| ConfirmedAt(lines[d..], j);
      assert lines[d..][j] == lines[j + d];
      assert ConfirmedAt(lines, j + d);
    }
  }

  /**
   `get_user_value` as intended: every address that is finally confirmed has
   passed `validate_email`, so the session starts with a positive threshold
   and a syntactically valid address.
   */
  function Collect(lines: seq<string>): (r: Option<Setup<real>>)
    ensures r.Some? ==> r.value.threshold > 0.0 && ValidateEmail(r.value.email) && r.value.email in lines
  {
    match ReadAmount(lines)
    case None => None
    case Some((v, rest)) => EmailLoop(v, rest)
  }

  /** The address loop: only an address that passes `validate_email` is put up for confirmation. */
  function EmailLoop<N>(threshold: N, lines: seq<string>): (r: Option<Setup<N>>)
    ensures r.Some? ==> r.value.threshold == threshold && ValidateEmail(r.value.email) && r.value.email in lines
    decreases |lines|, 1
  {
    if |lines| == 0 then None
    else if ValidateEmail(lines[0]) then Confirm(threshold, lines[0], lines[1..])
    else EmailLoop(threshold, lines[1..])
  }

  /** The confirmation loop as intended: `n` goes back to asking for an address, which is validated again. */
  function Confirm<N>(threshold: N, email: string, lines: seq<string>): (r: Option<Setup<N>>)
    requires ValidateEmail(email)
    ensures r.Some? ==> r.value.threshold == threshold && ValidateEmail(r.value.email)
    ensures r.Some? ==> r.value.email == email || r.value.email in lines
    decreases |lines|, 0
  {
    if |lines| == 0 then None
    else match ReadAnswer(lines[0])
      case Yes => Some(Setup(threshold, email))
      case No => EmailLoop(threshold, lines[1..])
      case Other => Confirm(threshold, email, lines[1..])
  }

  /** No reply in `lines` is `n`. */
  predicate NeverDeclined(lines: seq<string>) {
    forall j :: 0 <= j < |lines| ==> ReadAnswer(lines[j]) != No
  }

  /**
   The two confirmation loops differ only on `n`: as long as the user never
   answers `n`, the dialogue as written and the intended one give the same
   result, from the address loop on.
   */
  lemma {:induction false} NeverDeclinedAgrees<N>(threshold: N, lines: seq<string>)
    requires NeverDeclined(lines)
    ensures EmailLoopAsWritten(threshold, lines) == EmailLoop(threshold, lines)
    decreases |lines|, 1
  {
    if |lines| > 0 {
      assert NeverDeclined(lines[1..]) by {
        forall j | 0 <= j < |lines[1..]| ensures ReadAnswer(lines[1..][j]) != No {
          assert lines[1..][j] == lines[j + 1];
        }
      }
      if ValidateEmail(lines[0]) {
        NeverDeclinedConfirmAgrees(threshold, lines[0], lines[1..]);
      } else {
        NeverDeclinedAgrees(threshold, lines[1..]);
      }
    }
  }

  lemma {:induction false} NeverDeclinedConfirmAgrees<N>(threshold: N, email: string, lines: seq<string>)
    requires ValidateEmail(email) && NeverDeclined(lines)
    ensures ConfirmAsWritten(threshold, email, lines) == Confirm(threshold, email, lines)
    decreases |lines|, 0
  {
    if |lines| > 0 && ReadAnswer(lines[0]) == Other {
      assert NeverDeclined(lines[1..]) by {
        forall j | 0 <= j < |lines[1..]| ensures ReadAnswer(lines[1..][j]) != No {
          assert lines[1..][j] == lines[j + 1];
        }
      }
      NeverDeclinedConfirmAgrees(threshold, email, lines[1..]);
    } else if |lines| > 0 {
      assert ReadAnswer(lines[0]) != No;
    }
  }

  /** A line the amount loop accepts at once ends it, and the dialogue goes on with the next line. */
  lemma ReadAmountFirstLine(lines: seq<string>)
    requires |lines| > 0 && ValidateValue(lines[0]).Some?
    ensures ReadAmount(lines) == Some((ValidateValue(lines[0]).value, lines[1..]))
  {
  }

  lemma ReadAmountAsWrittenFirstLine(lines: seq<string>)
    requires |lines| > 0 && ValidateValueAsWritten(lines[0]).Some?
    ensures ReadAmountAsWritten(lines) == Some((ValidateValueAsWritten(lines[0]).value, lines[1..]))
  {
  }

  /**
   When the user types a valid amount, a valid address and `y`, both versions
   agree: they return that amount (as a float, as written) and that address.
   */
  lemma ImmediateConfirmationAgrees(amount: string, email: string, reply: string)
    requires ValidateValue(amount).Some? && ValidateEmail(email) && ReadAnswer(reply) == Yes
    ensures Collect([amount, email, reply]) == Some(Setup(ValidateValue(amount).value, email))
    ensures CollectAsWritten([amount, email, reply]) == Some(Setup(Finite(ValidateValue(amount).value), email))
  {
    var lines := [amount, email, reply];
    var v := ValidateValue(amount).value;
    ValidateValueAgrees(amount);
    ReadAmountFirstLine(lines);
    ReadAmountAsWrittenFirstLine(lines);
    ImmediateConfirmation(v, email, reply);
    ImmediateConfirmation(Finite(v), email, reply);
  }

  lemma ImmediateConfirmation<N>(v: N, email: string, reply: string)
    requires ValidateEmail(email) && ReadAnswer(reply) == Yes
    ensures EmailLoopAsWritten(v, [email, reply]) == Some(Setup(v, email))
    ensures EmailLoop(v, [email, reply]) == Some(Setup(v, email))
  {
    assert [email, reply][1..] == [reply];
    assert ConfirmAsWritten(v, email, [reply]) == Some(Setup(v, email));
    assert Confirm(v, email, [reply]) == Some(Setup(v, email));
  }

  /**
   The first finding carried into the dialogue: `nan` in any letter case,
   a valid address and `y` start monitoring with a NaN threshold as written,
   while the corrected validator refuses `nan`.
   */
  lemma NanThresholdAsWritten(amount: string, email: string, reply: string)
    requires LowerAscii(amount) == "nan" && ValidateEmail(email) && ReadAnswer(reply) == Yes
    ensures CollectAsWritten([amount, email, reply]) == Some(Setup(NaN, email))
    ensures ValidateValue(amount) == None
  {
    var lines := [amount, email, reply];
    NanAcceptedAsWritten(amount);
    ReadAmountAsWrittenFirstLine(lines);
    assert lines[1..] == [email, reply];
    ImmediateConfirmation(NaN, email, reply);
  }

  /**
   The second finding: after a valid address, answering `n` and typing an
   address without `@` or `.`, then `y`, starts monitoring with that invalid
   address; the intended dialogue keeps asking and here runs out of input
   instead.
   */
  lemma UnvalidatedEmailAcceptedAsWritten()
    ensures var lines := ["USD 1.234,56", "me@example.com", "n", "nobody", "y"];
      && CollectAsWritten(lines) == Some(Setup(Finite(1234.56), "nobody"))
      && !ValidateEmail("nobody")
      && Collect(lines) == None
  {
    var lines := ["USD 1.234,56", "me@example.com", "n", "nobody", "y"];
    PromptExample();
    ValidateValueAgrees("USD 1.234,56");
    ReadAmountFirstLine(lines);
    ReadAmountAsWrittenFirstLine(lines);
    assert lines[1..] == ["me@example.com", "n", "nobody", "y"];
    ReplacementDialogue(1234.56);
    ReplacementDialogue(Finite(1234.56));
  }

  lemma ReplacementDialogue<N>(v: N)
    ensures EmailLoopAsWritten(v, ["me@example.com", "n", "nobody", "y"]) == Some(Setup(v, "nobody"))
    ensures !ValidateEmail("nobody")
    ensures EmailLoop(v, ["me@example.com", "n", "nobody", "y"]) == None
  {
    var rest := ["me@example.com", "n", "nobody", "y"];
    ExampleAddressValid();
    assert rest[1..] == ["n", "nobody", "y"];
    ReplacementAsWritten(v);
    ReplacementIntended(v);
  }

  lemma ExampleAddressValid()
    ensures ValidateEmail("me@example.com")
  {
    assert "me@example.com"[2] == '@' && "me@example.com"[10] == '.';
  }

  lemma ReplacementAsWritten<N>(v: N)
    ensures ConfirmAsWritten(v, "me@example.com", ["n", "nobody", "y"]) == Some(Setup(v, "nobody"))
  {
    Answers();
    assert ["n", "nobody", "y"][2..] == ["y"];
    assert ConfirmAsWritten(v, "nobody", ["y"]) == Some(Setup(v, "nobody"));
  }

  lemma ReplacementIntended<N>(v: N)
    ensures !ValidateEmail("nobody")
    ensures Confirm(v, "me@example.com", ["n", "nobody", "y"]) == None
  {
    assert !ValidateEmail("nobody") by {
      var s := "nobody";
      assert forall i :: 0 <= i < |s| ==> s[i] != '@';
    }
    assert !ValidateEmail("y") by {
      assert forall i :: 0 <= i < |"y"| ==> "y"[i] != '@';
    }
    Answers();
    assert ["n", "nobody", "y"][1..] == ["nobody", "y"];
    assert ["nobody", "y"][1..] == ["y"];
    assert EmailLoop(v, ["y"]) == None;
    assert EmailLoop(v, ["nobody", "y"]) == None;
  }

  lemma Answers()
    ensures ReadAnswer("n") == No && ReadAnswer("y") == Yes
  {
    StripUnchanged("n");
    StripUnchanged("y");
  }
}
