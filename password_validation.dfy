/** `PasswordValidationAttribute.IsValid`: five checks in a fixed order; the first that
    fails decides the single message returned. */
module PasswordValidation {
  import opened Wrappers
  import opened Text

  const RequiredMessage := "Password is required."
  const TooShortMessage := "Password must be at least 8 characters long."
  const UppercaseMessage := "Password must contain at least one uppercase letter."
  const LowercaseMessage := "Password must contain at least one lowercase letter."
  const DigitMessage := "Password must contain at least one number."

  const MinLength: nat := 8

  /** Every message the attribute can return. */
  const Messages: set<string> :=
    {RequiredMessage, TooShortMessage, UppercaseMessage, LowercaseMessage, DigitMessage}

  /** `[A-Z]`, `[a-z]` and `\d` (taken here as ASCII `0-9`) each occur somewhere in `s`. */
  ghost predicate HasUppercase(s: string) { exists i :: 0 <= i < |s| && 'A' <= s[i] <= 'Z' }
  ghost predicate HasLowercase(s: string) { exists i :: 0 <= i < |s| && 'a' <= s[i] <= 'z' }
  ghost predicate HasDigit(s: string) { exists i :: 0 <= i < |s| && '0' <= s[i] <= '9' }

  /** `value as string` with `null` read as the empty string: `IsNullOrEmpty` treats both alike. */
  function Password(value: Option<string>): string
  {
    if value.None? then "" else value.value
  }

  /** The attribute's result: `None` is `ValidationResult.Success`, `Some(m)` a failure with
      message `m`. Each message is returned exactly when every earlier check passed and its
      own check failed. */
  function IsValid(value: Option<string>): (r: Option<string>)
    ensures r.Some? ==> r.value in Messages
    ensures r == Some(RequiredMessage) <==> Password(value) == ""
    ensures r == Some(TooShortMessage) <==> 0 < |Password(value)| < MinLength
    ensures r == Some(UppercaseMessage) <==>
      |Password(value)| >= MinLength && !HasUppercase(Password(value))
    ensures r == Some(LowercaseMessage) <==>
      |Password(value)| >= MinLength && HasUppercase(Password(value)) && !HasLowercase(Password(value))
    ensures r == Some(DigitMessage) <==>
      |Password(value)| >= MinLength && HasUppercase(Password(value)) && HasLowercase(Password(value))
      && !HasDigit(Password(value))
    ensures r.None? <==>
      |Password(value)| >= MinLength && HasUppercase(Password(value)) && HasLowercase(Password(value))
      && HasDigit(Password(value))
  {
    var password := Password(value);
    if password == "" then Some(RequiredMessage)
    else if |password| < MinLength then Some(TooShortMessage)
    else if !ContainsCharIn(password, 'A', 'Z') then Some(UppercaseMessage)
    else if !ContainsCharIn(password, 'a', 'z') then Some(LowercaseMessage)
    else if !ContainsCharIn(password, '0', '9') then Some(DigitMessage)
    else None
  }

  /** One check of the policy: whether it passed, and the message it fails with. */
  datatype Check = Check(passed: bool, message: string)

  /** The policy as an ordered list of independent checks. */
  ghost function Checks(value: Option<string>): seq<Check>
  {
    var s := Password(value);
    [ Check(s != "", RequiredMessage),
      Check(|s| >= MinLength, TooShortMessage),
      Check(HasUppercase(s), UppercaseMessage),
      Check(HasLowercase(s), LowercaseMessage),
      Check(HasDigit(s), DigitMessage) ]
  }

  /** The message of the first failing check, if any: "first failure wins". */
  function FirstFailure(checks: seq<Check>): (r: Option<string>)
    ensures r.None? <==> forall i :: 0 <= i < |checks| ==> checks[i].passed
    ensures r.Some? ==>
      exists i :: 0 <= i < |checks| && !checks[i].passed && r.value == checks[i].message
        && forall j :: 0 <= j < i ==> checks[j].passed
  {
    if checks == [] then None
    else if !checks[0].passed then Some(checks[0].message)
    else
      var rest := FirstFailure(checks[1..]);
      assert forall i :: 0 < i < |checks| ==> checks[i] == checks[1..][i - 1];
      if rest.Some? then
        var k :| 0 <= k < |checks[1..]| && !checks[1..][k].passed
          && rest.value == checks[1..][k].message && forall j :: 0 <= j < k ==> checks[1..][j].passed;
        assert !checks[k + 1].passed && rest.value == checks[k + 1].message;
        assert forall j :: 0 <= j < k + 1 ==> checks[j].passed by {
          forall j | 0 <= j < k + 1 ensures checks[j].passed {
            if j > 0 { assert checks[j] == checks[1..][j - 1]; }
          }
        }
        rest
      else
        rest
  }

  /** The attribute returns exactly the message of the first failing check of the policy,
      and returns success exactly when all five checks pass. */
  lemma {:induction false} IsValidIsFirstFailure(value: Option<string>)
    ensures IsValid(value) == FirstFailure(Checks(value))
  {
    var s := Password(value);
    var digit := [Check(HasDigit(s), DigitMessage)];
    var lower := [Check(HasLowercase(s), LowercaseMessage)] + digit;
    var upper := [Check(HasUppercase(s), UppercaseMessage)] + lower;
    var length := [Check(|s| >= MinLength, TooShortMessage)] + upper;
    var all := [Check(s != "", RequiredMessage)] + length;
    assert Checks(value) == all;
    FirstFailureCons(all);
    FirstFailureCons(length);
    FirstFailureCons(upper);
    FirstFailureCons(lower);
    FirstFailureCons(digit);
  }

  /** The first failure of a list is its head's message if the head fails, and otherwise
      the first failure of the rest. */
  lemma FirstFailureCons(checks: seq<Check>)
    requires checks != []
    ensures FirstFailure(checks) ==
      if checks[0].passed then FirstFailure(checks[1..]) else Some(checks[0].message)
  {
  }

  /** The examples of the controller tests: each invalid password gets the message of the
      first check it fails, and a password passing all five gets none. */
  lemma Examples()
    ensures IsValid(None) == Some(RequiredMessage)
    ensures IsValid(Some("")) == Some(RequiredMessage)
    ensures IsValid(Some("p")) == Some(TooShortMessage)
    ensures IsValid(Some("password")) == Some(UppercaseMessage)
    ensures IsValid(Some("PASSWORD")) == Some(LowercaseMessage)
    ensures IsValid(Some("Password")) == Some(DigitMessage)
    ensures IsValid(Some("Pass1234")) == None
  {
    var lower, upper, mixed, good := "password", "PASSWORD", "Password", "Pass1234";
    assert !HasUppercase(lower) by {
      forall i | 0 <= i < |lower| ensures !('A' <= lower[i] <= 'Z') {
        assert lower[i] in {'p', 'a', 's', 'w', 'o', 'r', 'd'};
      }
    }
    assert HasUppercase(upper) && !HasLowercase(upper) by {
      assert 'A' <= upper[0] <= 'Z';
      forall i | 0 <= i < |upper| ensures !('a' <= upper[i] <= 'z') {
        assert upper[i] in {'P', 'A', 'S', 'W', 'O', 'R', 'D'};
      }
    }
    assert HasUppercase(mixed) && HasLowercase(mixed) && !HasDigit(mixed) by {
      assert 'A' <= mixed[0] <= 'Z' && 'a' <= mixed[1] <= 'z';
      forall i | 0 <= i < |mixed| ensures !('0' <= mixed[i] <= '9') {
        assert mixed[i] in {'P', 'a', 's', 'w', 'o', 'r', 'd'};
      }
    }
    assert HasUppercase(good) && HasLowercase(good) && HasDigit(good) by {
      assert 'A' <= good[0] <= 'Z' && 'a' <= good[1] <= 'z' && '0' <= good[4] <= '9';
    }
  }
}
