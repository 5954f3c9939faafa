# CryptoMonitoringBot decision core in Dafny

CryptoMonitoringBot watches the Bitcoin price. At start-up it asks the user
for a threshold amount, typed in the format `USD 00.000,00`, and for an email
address that the user must confirm. It then fetches the price once, and again
every ten minutes. Each time it compares the price with the last price it
saw, and it emails a report when the price is below the threshold.

This project models the program's decisions as pure functions over explicit
inputs and proves properties about them:

- **`Amount`** models `validate_value`:
  - the currency and separator normalisation, then `float()`, then the
    positivity guard;
  - the inverse formatter (`FormatAmount`, `FormatUsd`), used for the round trip.
- **`Decimal`** models the subset of Python's `float(str)` that this input can
  reach:
  - an optional sign;
  - a plain decimal numeral, or `nan` / `inf` / `infinity` in any case;
  - surrounding whitespace, in the narrower sense `float()` uses: unlike
    `str.strip()`, it keeps the ASCII separators U+001C..U+001F.
- **`Text`** models `strip`, `startswith`, `replace`, ASCII `lower` and
  character counting.
- **`Email`** models `validate_email`.
- **`Prompt`** models `get_user_value` over the sequence of lines the user
  types.
- **`Variation`** models `calculate_variation`. The module-level
  `previous_bitcoin_price` becomes an explicit `Option<real>` baseline that
  is passed in and returned.
- **`Notifier`** models the send gate and trend arrow of `send_email`. Its
  result is a decision:
  - the price is not below the threshold;
  - the credentials are missing;
  - otherwise, the message that would be sent.
- **`Monitor`** models one cycle of `send_scheduled_email`, and also the
  identical first cycle in the main block. It also models any sequence of
  cycles, given the fetch results in order.

## Model

| member | source | states |
|---|---|---|
| Amount.ValidateValue | app.py:50-66 | The accepted amount is exactly the finite value `float()` returns for the normalised text, and it is accepted exactly when that value is greater than zero; text `float()` rejects, and zero, negative, NaN or infinite values, give `None` |
| Amount.ValidateValueAsWritten | app.py:59-66 | As written, whatever `float()` returns for the normalised text is returned exactly when `x <= 0` is false for it, which includes NaN and `inf`; otherwise `None` |
| Amount.Guard | app.py:60-62 | The intended guard passes a float unchanged exactly when it is finite and greater than zero |
| Amount.GuardAsWritten | app.py:60-62 | The guard as written passes a float unchanged exactly when `x <= 0` is false for it |
| Amount.Normalise | app.py:52-56 | After stripping, dropping a leading `USD`, deleting every `.` and turning every `,` into `.`, no comma is left and the number of points equals the number of commas typed |
| Amount.StripCurrency | app.py:52-54 | The result is a suffix of the stripped text with no whitespace at either end; it is shorter exactly when the stripped text starts with a case-sensitive `USD`, and then only `USD` and the whitespace after it are dropped; every other character keeps its count |
| Amount.AfterUsd | app.py:54 | What follows a leading `USD` is stripped, which removes only the whitespace right after `USD`, and every other character is kept |
| Amount.StripCurrencyUsd | app.py:53-54 | `"USD " + x` loses exactly its prefix when `x` has no surrounding whitespace |
| Amount.TwoCommasRejected | app.py:55-59 | Text with two or more commas becomes a numeral with two points, which `float()` rejects; both the as-written and the corrected validator refuse it |
| Amount.FormattedAmountAccepted | app.py:50-62 | Round trip: `c` cents typed in the `USD 00.000,00` format, with or without `USD`, validates to exactly `c / 100` when `c > 0`, and is refused when `c = 0` |
| Amount.NormaliseUsd | app.py:52-56 | Normalising `FormatUsd(c)` yields the plain numeral `RenderCents(c)` |
| Amount.NormaliseAmount | app.py:55-56 | Normalising `FormatAmount(c)` yields the plain numeral `RenderCents(c)` |
| Amount.GroupThousands | app.py:55 | The inverse of removing the thousands separators: the points sit exactly four, eight, ... places from the end, so each is followed by three digits and none leads; no comma is added; deleting the points gives back the digits in order |
| Amount.NegativeAmountRejected | app.py:60-61 | A well-formed amount with a leading minus sign is refused by both validators |
| Amount.ValidateValueAgrees | app.py:59-62 | Both validators accept the same finite amounts, with the same value; they differ only on NaN and infinities |
| Amount.NanAcceptedAsWritten | app.py:59-62 | `nan` in any letter case passes the guard as written and yields NaN, which is not positive; the corrected validator refuses it |
| Amount.InfAcceptedAsWritten | app.py:59-62 | `inf` in any letter case passes the guard as written as positive infinity, which is not a finite amount; the corrected validator refuses it |
| Amount.PromptExample | app.py:82 | The example in the prompt, `USD 1.234,56`, is read as 1234.56 |
| Decimal.ParseFloat | app.py:59 | A literal `float()` accepts has at most one `.`; the value it reads is stated by `Decimal.ParseFloatNumeral`, and the whitespace it does not ignore by `Decimal.SeparatorRefused` |
| Decimal.ParseUnsigned | app.py:59 | An unsigned numeral without a point is accepted exactly when it is a non-empty run of digits; every accepted numeral has at most one point and a value of at least zero |
| Decimal.ParseFloatNumeral | app.py:59 | A numeral that starts and ends with a digit is read as exactly the value of its digits and point |
| Decimal.ParseFloatRoundTrip | app.py:59 | The numeral rendered from `c` cents reads back as the finite value `c / 100` |
| Decimal.ParseFloatSigned | app.py:59 | A leading `-` negates the value of a numeral and a leading `+` keeps it |
| Decimal.ParseFloatNan | app.py:59 | `nan` in any letter case, with or without a sign, is accepted and denotes NaN |
| Decimal.ParseFloatInf | app.py:59 | `inf` in any letter case is accepted as an infinity, negative exactly when it carries a `-` sign |
| Decimal.RenderCentsRoundTrip | app.py:59 | The unsigned numeral parser reads the rendering of `c` cents back as exactly `c / 100` |
| Decimal.SeparatorRefused | app.py:59 | A literal that starts with one of U+001C..U+001F is refused, although `strip()` at line 52 would have removed it |
| Text.Strip | app.py:52 | `strip()` returns the slice that starts right after the leading whitespace, has non-space ends and is followed only by whitespace; every non-space character keeps its count |
| Text.StripIdempotent | app.py:52-54 | Stripping twice is the same as stripping once |
| Text.DeleteAll | app.py:55 | `replace('.', '')` leaves no `.`, shortens the text by the number of points, and keeps every other character in order: the one at position `i` moves left by the number of points before it |
| Text.DeleteAllAppend | app.py:55 | Deleting a character from a concatenation deletes it from each part |
| Text.ReplaceAll | app.py:56 | `replace(',', '.')` keeps the length and changes exactly the commas, position by position |
| Text.ReplaceAllCounts | app.py:56 | After `replace(',', '.')` no comma is left, and the former commas are counted as points |
| Email.ValidateEmail | app.py:68-75 | An address is valid exactly when it contains an `@` and a `.`, anywhere and in either order |
| Email.ValidateEmailOrderFree | app.py:70 | Validity does not depend on the order of the two parts of an address |
| Prompt.ReadAnswer | app.py:91-94 | A reply is `y` exactly when it strips to `y` or `Y`, and `n` exactly when it strips to `n` or `N` |
| Prompt.FirstAccepted | app.py:81-85 | The input loop returns the first line the validator accepts and continues after it; every earlier line was refused, and if no line is accepted the input runs out |
| Prompt.ReadAmountAsWritten | app.py:81-85 | The amount loop as written yields a float for which `x <= 0` is false, so it may be NaN or `inf`, and consumes at least one line |
| Prompt.ReadAmount | app.py:81-85 | The amount loop with the corrected validator yields a positive finite threshold and consumes at least one line |
| Prompt.CollectAsWritten | app.py:77-105 | The dialogue as written yields a float threshold for which `x <= 0` is false, NaN included, and an address that is one of the typed lines, with no guarantee that it passes `validate_email` |
| Prompt.EmailLoopAsWritten | app.py:87-102 | The address loop as written returns an address that is one of the typed lines, whether or not it passes `validate_email`, and passes the threshold through |
| Prompt.ConfirmAsWritten | app.py:90-101 | The confirmation loop as written returns only after a `y` reply, and the address it returns is the one first displayed or a line typed right after an `n`, whether or not it passes `validate_email` |
| Prompt.Collect | app.py:77-105 | The corrected dialogue yields a positive threshold and an address that is one of the typed lines and passes `validate_email` |
| Prompt.EmailLoop | app.py:87-102 | The corrected address loop returns only a typed address that passes `validate_email` |
| Prompt.Confirm | app.py:90-101 | The corrected confirmation loop only ever confirms an address that passes `validate_email`: the one displayed or a later line |
| Prompt.NeverDeclinedAgrees | app.py:87-102 | When no reply is `n`, the as-written and corrected address loops give the same result |
| Prompt.ImmediateConfirmationAgrees | app.py:81-102 | When a valid amount, a valid address and `y` are typed in that order, both dialogues return that amount and address |
| Prompt.NanThresholdAsWritten | app.py:81-85 | `nan` in any letter case, a valid address and `y`: the dialogue as written starts monitoring with a NaN threshold, and the corrected validator refuses `nan` |
| Prompt.UnvalidatedEmailAcceptedAsWritten | app.py:94-99 | A valid address, then `n`, then `nobody`, then `y`: the dialogue as written starts with the invalid address `nobody`, and the corrected one does not accept it |
| Variation.CalculateVariation | app.py:131-140 | Without a baseline the change is zero; otherwise the difference is the current price minus the baseline, and the percentage times the baseline is 100 times the difference; either way the baseline becomes the current price |
| Variation.RiseIsPositive | app.py:137 | The difference is positive exactly when the price rose |
| Variation.PercentageFollowsDifference | app.py:137-138 | With a positive baseline, the percentage has the sign of the difference |
| Notifier.TrendArrow | app.py:163 | The arrow points up exactly when the difference is positive, and down for zero or a fall |
| Notifier.SendEmail | app.py:148-163 | No email when the price is at or above the threshold; a missing or empty address or password stops the send; otherwise it attempts a message from the configured address to the user, with the fixed subject, the price, the volume, the change and the arrow |
| Monitor.RunCycle | app.py:245-251 | A failed fetch skips the cycle and leaves the session alone; a price moves the baseline to that price, and an email is attempted exactly when the price is below the threshold and both credentials are set |
| Monitor.RunCycles | app.py:241-251 | A run has one outcome per fetch and never changes the threshold or the address |
| Monitor.BaselineIsLatestPrice | app.py:131-140 | After any run, the baseline is the price of the most recent successful fetch, or the starting baseline when none succeeded |
| Monitor.OutcomesOfRun | app.py:245-251 | In every cycle of a run: skipped exactly when the fetch failed; an email attempted exactly when the price is below the threshold and credentials are set; the change is measured against the latest earlier price, and is zero when there is none |
| Monitor.ChangesTelescope | app.py:131-140 | From a known baseline, the reported differences add up to the net move from the starting baseline to the final one |
| Monitor.ThreeCycleScenario | app.py:258-266 | Threshold 30000, prices 29000, 31000, 25000: an alert with no change, then silence with a change of +2000 (6.90 %), then an alert with -6000 (-19.35 %) and a down arrow |

## Left out

- The HTTP request to the price API (app.py:107-129) is left out. Each cycle takes the fetch result as an `Option<Quote>`; `None` stands for a non-200 response.
- Building and sending the email is left out: the `EmailMessage`, the HTML body, SMTP over SSL and the `except` that logs send failures (app.py:158-161, 165-239). The model stops at the decision and the fields of the message it would send.
- Locale-based number formatting in the report and the logs (app.py:166-168) is left out, because it is presentation only.
- Notifier.SendEmail assumes that `locale.setlocale(locale.LC_ALL, 'en_US.UTF-8')` at app.py:143 succeeds. That call runs before the gate and outside the `try`, so on a host without that locale it raises `locale.Error`, which ends the cycle and the process even when no email would be sent.
- Variation.CalculateVariation works on exact reals, so prices, differences and percentages carry no floating-point rounding (app.py:137-138). Its `difference + baseline == current` and `Monitor.ChangesTelescope` hold for exact arithmetic; IEEE subtraction can break them for prices far apart in magnitude. The gate (app.py:150) and the sign of the difference that picks the arrow (app.py:163) do not depend on this, because float subtraction of two finite prices keeps the sign of the exact difference.
- Scheduling is left out: `schedule.every(10).minutes`, the `run_pending`/`sleep` loop and the clock (app.py:241-243, 268-273). A run is the sequence of fetch results in order.
- The ASCII-art banner, console messages and logging are left out, because they have no effect on the decisions.
- Environment lookups (`load_dotenv`, `os.getenv`) are left out. The credentials are a parameter and stay the same across cycles, as they do while the process runs.
- Decimal.ParseFloat covers only part of `float()`: signs, plain decimal numerals and `nan`/`inf`/`infinity`. It leaves out exponents, `_` digit separators and non-ASCII digits, which the `USD 00.000,00` format does not produce.
- Decimal.ParseFloat uses exact rational values, so it does not model IEEE-754 rounding or overflow to infinity for very long numerals.
- Prompt.ReadAnswer lower-cases only ASCII letters. The difference from Unicode `lower()` does not affect whether a reply equals `y` or `n`.
- Variation.CalculateVariation requires the baseline not to be zero. Python would raise `ZeroDivisionError` there, and that exception is outside the `try` in the scheduled job, so it is a crash the model does not describe. A run keeps the same condition through `Monitor.NoZeroBaseline`.
- Running out of input (`EOFError` from `input()`) is modelled as `None` rather than an exception.
- The docstring at app.py:78 promises validated inputs, and the address loop asks again until `validate_email` passes (app.py:87-89). After an `n` reply, though, the new address is not checked (app.py:94-99). `Prompt.CollectAsWritten` follows the code; `Prompt.Collect` checks every confirmed address, as the docstring promises (see Findings).

## Findings

| source | as written | input that shows it | evidently intended | confidence | as-written member | corrected member |
|---|---|---|---|---|---|---|
| app.py:59-62 | The only guard is `if value <= 0`, and every comparison with NaN is false, so `float("nan")` passes | typed amount `nan`, in any letter case | Only a positive, finite amount is accepted, as the error message "must be a positive number" says | high; not executed | Amount.NanAcceptedAsWritten | Amount.ValidateValue |
| app.py:94-99 | After `n`, the new address is read and both branches `continue` the confirmation loop, so an invalid address can be confirmed | lines `USD 1.234,56`, `me@example.com`, `n`, `nobody`, `y` | Every confirmed address has passed `validate_email`, as the function's docstring promises | high; not executed | Prompt.UnvalidatedEmailAcceptedAsWritten | Prompt.Collect |

The corrected validator also refuses `inf` (`Amount.InfAcceptedAsWritten`). A NaN or infinite threshold makes `bitcoin_price >= value` false on every cycle, so the program would send an alert every time. The rest of the model uses `Amount.ValidateValue` and `Prompt.Collect`.
