/** The deliberately weak syntax check applied to the address alerts are sent to. */
module Email {
  import opened Text

  /**
   `validate_email`: the address contains at least one `@` and at least one
   `.`, wherever they are and in whichever order.
   */
  function ValidateEmail(email: string): (ok: bool)
    ensures ok <==> (exists i :: 0 <= i < |email| && email[i] == '@') && (exists j :: 0 <= j < |email| && email[j] == '.')
    ensures ok <==> Count('@', email) > 0 && Count('.', email) > 0
  {
    CountZero('@', email);
    CountZero('.', email);
    '@' in email && '.' in email
  }

  /** Only the characters present matter, not where they sit: any split of the address may be swapped. */
  lemma ValidateEmailOrderFree(a: string, b: string)
    ensures ValidateEmail(a + b) == ValidateEmail(b + a)
  {
    CountAppend('@', a, b);
    CountAppend('@', b, a);
    CountAppend('.', a, b);
    CountAppend('.', b, a);
  }

  /** A `.` before the `@` and nothing else still passes; a host name without any `.` does not. */
  lemma ValidateEmailExamples()
    ensures ValidateEmail(".@")
    ensures !ValidateEmail("me@host")
  {
    assert ".@"[0] == '.' && ".@"[1] == '@';
    var s := "me@host";
    assert forall i :: 0 <= i < |s| ==> s[i] != '.';
  }
}
