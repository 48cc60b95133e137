/**
 * `validateUser`: four independent rules over a loosely typed candidate
 * record, checked in the fixed order username, email, phone, dateOfBirth.
 * Each failing rule contributes one fixed message; the result is `null`
 * (None) when no rule fails and the list of messages otherwise.
 */
module Validation {
  import opened Wrappers
  import opened Patterns

  /**
   * One property of the parsed body. A string is kept; any other present
   * value (number, boolean, object, array, null) is `NonStr`, since every
   * one of them fails a rule whatever its truthiness.
   */
  datatype Field = Missing | Str(s: string) | NonStr

  /** The four properties `validateUser` reads from the parsed body. */
  datatype Candidate = Candidate(username: Field, email: Field, phone: Field, dateOfBirth: Field)

  datatype Rule = UsernameRule | EmailRule | PhoneRule | DateOfBirthRule

  /** The rules in the order the validator checks them. */
  const Rules: seq<Rule> := [UsernameRule, EmailRule, PhoneRule, DateOfBirthRule]

  const UsernameMessage := "username is required and should be at least 1 character long."
  const EmailMessage := "email is required and should be a valid email address."
  const PhoneMessage := "phone is required and should be a valid phone number."
  const DateOfBirthMessage := "dateOfBirth is required and must be in YYYY-MM-DD format."

  function MessageOf(r: Rule): string {
    match r
    case UsernameRule => UsernameMessage
    case EmailRule => EmailMessage
    case PhoneRule => PhoneMessage
    case DateOfBirthRule => DateOfBirthMessage
  }

  /** Position of a rule in the checking order. */
  function RankOf(r: Rule): nat {
    match r
    case UsernameRule => 0
    case EmailRule => 1
    case PhoneRule => 2
    case DateOfBirthRule => 3
  }

  function FieldOf(r: Rule, c: Candidate): Field {
    match r
    case UsernameRule => c.username
    case EmailRule => c.email
    case PhoneRule => c.phone
    case DateOfBirthRule => c.dateOfBirth
  }

  /** The format a non-empty string must have for the rule to pass. */
  predicate FormatOk(r: Rule, s: string) {
    match r
    case UsernameRule => true
    case EmailRule => IsEmail(s)
    case PhoneRule => IsPhone(s)
    case DateOfBirthRule => IsDate(s)
  }

  /** A rule passes when its field is a non-empty string of the right format. */
  predicate Passes(r: Rule, c: Candidate) {
    match FieldOf(r, c)
    case Str(s) => |s| >= 1 && FormatOk(r, s)
    case _ => false
  }

  /** The rules of `rs` that fail for `c`, in the order of `rs`. */
  function FailingRules(rs: seq<Rule>, c: Candidate): (failing: seq<Rule>)
    ensures |failing| <= |rs|
  {
    if rs == [] then []
    else if Passes(rs[0], c) then FailingRules(rs[1..], c)
    else [rs[0]] + FailingRules(rs[1..], c)
  }

  lemma {:induction false} FailingRulesMembers(rs: seq<Rule>, c: Candidate, r: Rule)
    ensures r in FailingRules(rs, c) <==> r in rs && !Passes(r, c)
  {
    if rs != [] {
      FailingRulesMembers(rs[1..], c, r);
      assert r in rs <==> r == rs[0] || r in rs[1..];
    }
  }

  function Messages(rs: seq<Rule>): (ms: seq<string>)
    ensures |ms| == |rs|
  {
    if rs == [] then [] else [MessageOf(rs[0])] + Messages(rs[1..])
  }

  lemma {:induction false} MessagesAt(rs: seq<Rule>, i: nat)
    requires i < |rs|
    ensures Messages(rs)[i] == MessageOf(rs[i])
  {
    if i > 0 {
      MessagesAt(rs[1..], i - 1);
    }
  }

  lemma {:induction false} MessagesAppend(a: seq<Rule>, b: seq<Rule>)
    ensures Messages(a + b) == Messages(a) + Messages(b)
  {
    if a == [] {
      assert a + b == b;
    } else {
      assert (a + b)[1..] == a[1..] + b;
      MessagesAppend(a[1..], b);
    }
  }

  /** The specification of the validator: the messages of the failing rules, or None if there are none. */
  function ValidationResult(c: Candidate): Option<seq<string>> {
    var errors := Messages(FailingRules(Rules, c));
    if errors == [] then None else Some(errors)
  }

  /** The contribution of one rule to the failing rules: itself when it fails, nothing otherwise. */
  function Check(r: Rule, c: Candidate): seq<Rule> {
    if Passes(r, c) then [] else [r]
  }

  /** The failing rules written out rule by rule, in the checking order. */
  lemma FailingRulesUnfolded(c: Candidate)
    ensures FailingRules(Rules, c) ==
      Check(UsernameRule, c) + Check(EmailRule, c) + Check(PhoneRule, c) + Check(DateOfBirthRule, c)
  {
    var d := FailingRules([DateOfBirthRule], c);
    assert [DateOfBirthRule][1..] == [];
    var p := FailingRules([PhoneRule, DateOfBirthRule], c);
    assert [PhoneRule, DateOfBirthRule][1..] == [DateOfBirthRule];
    assert p == Check(PhoneRule, c) + d;
    var e := FailingRules([EmailRule, PhoneRule, DateOfBirthRule], c);
    assert [EmailRule, PhoneRule, DateOfBirthRule][1..] == [PhoneRule, DateOfBirthRule];
    assert e == Check(EmailRule, c) + p;
    assert Rules[1..] == [EmailRule, PhoneRule, DateOfBirthRule];
  }

  /** One rule's share of the error list: its message when it fails, nothing otherwise. */
  function Report(r: Rule, c: Candidate): seq<string> {
    if Passes(r, c) then [] else [MessageOf(r)]
  }

  lemma CheckMessages(r: Rule, c: Candidate)
    ensures Messages(Check(r, c)) == Report(r, c)
  {
    assert [r][1..] == [];
  }

  lemma ErrorsUnfolded(c: Candidate)
    ensures Messages(FailingRules(Rules, c)) ==
      Report(UsernameRule, c) + Report(EmailRule, c) + Report(PhoneRule, c) + Report(DateOfBirthRule, c)
  {
    FailingRulesUnfolded(c);
    var u, e, p, d := Check(UsernameRule, c), Check(EmailRule, c), Check(PhoneRule, c), Check(DateOfBirthRule, c);
    MessagesAppend(u, e);
    MessagesAppend(u + e, p);
    MessagesAppend(u + e + p, d);
    CheckMessages(UsernameRule, c);
    CheckMessages(EmailRule, c);
    CheckMessages(PhoneRule, c);
    CheckMessages(DateOfBirthRule, c);
  }

  predicate IsValid(c: Candidate) {
    ValidationResult(c).None?
  }

  /** The validator as the source writes it: an error list grown by one push per failing check. */
  method ValidateUser(user: Candidate) returns (result: Option<seq<string>>)
    ensures result == ValidationResult(user)
  {
    var errors: seq<string> := [];
    if user.username.Missing? || !user.username.Str? || |user.username.s| < 1 {
      errors := errors + [UsernameMessage];
    }
    ghost var upTo := errors;
    assert upTo == Report(UsernameRule, user);
    if !user.email.Str? || user.email.s == "" || !IsEmail(user.email.s) {
      errors := errors + [EmailMessage];
    }
    assert errors == upTo + Report(EmailRule, user);
    upTo := errors;
    if !user.phone.Str? || user.phone.s == "" || !IsPhone(user.phone.s) {
      errors := errors + [PhoneMessage];
    }
    assert errors == upTo + Report(PhoneRule, user);
    upTo := errors;
    if !user.dateOfBirth.Str? || user.dateOfBirth.s == "" || !IsDate(user.dateOfBirth.s) {
      errors := errors + [DateOfBirthMessage];
    }
    assert errors == upTo + Report(DateOfBirthRule, user);
    ErrorsUnfolded(user);
    if |errors| > 0 {
      result := Some(errors);
    } else {
      result := None;
    }
  }

  // ---------------------------------------------------------------------------
  // Properties of the validator

  /** No errors exactly when every field is a string of the required form, as the regular expressions read it. */
  lemma ValidIffAllFieldsWellFormed(c: Candidate)
    ensures IsValid(c) <==>
      && c.username.Str? && |c.username.s| >= 1
      && c.email.Str? && EmailRegex(c.email.s)
      && c.phone.Str? && PhoneShape(c.phone.s)
      && c.dateOfBirth.Str? && DateShape(c.dateOfBirth.s)
  {
    if c.email.Str? { EmailMatchesRegex(c.email.s); }
    if c.phone.Str? { PhoneMatchesRegex(c.phone.s); }
    if c.dateOfBirth.Str? { DateMatchesRegex(c.dateOfBirth.s); }
    FailingRulesUnfolded(c);
    if c.email.Str? && EmailRegex(c.email.s) { EmailNeedsAt(c.email.s); }
  }

  /** A rule's message is reported exactly when that rule fails, whatever the other fields hold. */
  lemma MessageIffRuleFails(c: Candidate, r: Rule)
    ensures ValidationResult(c).Some? && MessageOf(r) in ValidationResult(c).value <==> !Passes(r, c)
  {
    var failing := FailingRules(Rules, c);
    var errors := Messages(failing);
    FailingRulesMembers(Rules, c, r);
    if !Passes(r, c) {
      var i :| 0 <= i < |failing| && failing[i] == r;
      MessagesAt(failing, i);
    }
    if MessageOf(r) in errors {
      var i :| 0 <= i < |errors| && errors[i] == MessageOf(r);
      MessagesAt(failing, i);
      assert failing[i] == r;
    }
  }

  /** A field that is missing, not a string, or the empty string always yields its rule's message. */
  lemma AbsentFieldReported(c: Candidate, r: Rule)
    requires FieldOf(r, c).Missing? || FieldOf(r, c).NonStr? || FieldOf(r, c) == Str("")
    ensures ValidationResult(c).Some?
    ensures MessageOf(r) in ValidationResult(c).value
  {
    MessageIffRuleFails(c, r);
  }

  /** Number of rules `c` violates, counted rule by rule. */
  function ViolationCount(c: Candidate): nat {
    (if Passes(UsernameRule, c) then 0 else 1)
    + (if Passes(EmailRule, c) then 0 else 1)
    + (if Passes(PhoneRule, c) then 0 else 1)
    + (if Passes(DateOfBirthRule, c) then 0 else 1)
  }

  /** One message per violated rule, no short-circuiting: between one and four messages when invalid. */
  lemma ErrorCountIsViolationCount(c: Candidate)
    ensures ValidationResult(c).None? <==> ViolationCount(c) == 0
    ensures ValidationResult(c).Some? ==>
      |ValidationResult(c).value| == ViolationCount(c) && 1 <= ViolationCount(c) <= 4
  {
    FailingRulesUnfolded(c);
  }

  /** The failing rules keep the checking order: each one ranks strictly before the next. */
  lemma {:induction false} FailingRulesOrdered(rs: seq<Rule>, c: Candidate)
    requires forall i, j :: 0 <= i < j < |rs| ==> RankOf(rs[i]) < RankOf(rs[j])
    ensures forall i, j :: 0 <= i < j < |FailingRules(rs, c)| ==>
      RankOf(FailingRules(rs, c)[i]) < RankOf(FailingRules(rs, c)[j])
  {
    if rs != [] {
      var tail := rs[1..];
      assert forall i, j :: 0 <= i < j < |tail| ==> RankOf(tail[i]) < RankOf(tail[j]) by {
        forall i, j | 0 <= i < j < |tail| ensures RankOf(tail[i]) < RankOf(tail[j]) {
          assert tail[i] == rs[i + 1] && tail[j] == rs[j + 1];
        }
      }
      FailingRulesOrdered(tail, c);
      var ft := FailingRules(tail, c);
      forall r | r in ft ensures RankOf(rs[0]) < RankOf(r) {
        FailingRulesMembers(tail, c, r);
        var k :| 0 <= k < |tail| && tail[k] == r;
        assert tail[k] == rs[k + 1];
      }
    }
  }

  /**
   * The reported messages are those of the failing rules, in the order
   * username, email, phone, dateOfBirth, with no message twice.
   */
  lemma ErrorsInRuleOrder(c: Candidate)
    requires ValidationResult(c).Some?
    ensures forall i :: 0 <= i < |ValidationResult(c).value| ==>
      exists r :: !Passes(r, c) && ValidationResult(c).value[i] == MessageOf(r)
    ensures forall i, j :: 0 <= i < j < |ValidationResult(c).value| ==>
      RankOfMessage(ValidationResult(c).value[i]) < RankOfMessage(ValidationResult(c).value[j])
  {
    var failing := FailingRules(Rules, c);
    var errors := Messages(failing);
    assert ValidationResult(c).value == errors;
    FailingRulesOrdered(Rules, c);
    forall i | 0 <= i < |errors| ensures exists r :: !Passes(r, c) && errors[i] == MessageOf(r) {
      FailingRulesMembers(Rules, c, failing[i]);
      MessagesAt(failing, i);
    }
    forall i, j | 0 <= i < j < |errors| ensures RankOfMessage(errors[i]) < RankOfMessage(errors[j]) {
      MessagesAt(failing, i);
      MessagesAt(failing, j);
      RankOfMessageOf(failing[i]);
      RankOfMessageOf(failing[j]);
    }
  }

  /** Position of a message in the checking order (4 for any other string). */
  function RankOfMessage(m: string): nat {
    if m == UsernameMessage then 0
    else if m == EmailMessage then 1
    else if m == PhoneMessage then 2
    else if m == DateOfBirthMessage then 3
    else 4
  }

  lemma RankOfMessageOf(r: Rule)
    ensures RankOfMessage(MessageOf(r)) == RankOf(r)
  {
  }
}
