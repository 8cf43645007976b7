/**
 * The credential validators of the registration and login forms: the email shape and
 * gmail-only policy, the password length rule with its 0..4 strength score, and the
 * confirm-password equality check. All of them are total; a failure is reported as a
 * result carrying the message the form shows, never as an exception.
 */
module Validation {
  import opened Wrappers
  import opened Text

  /** `{ isValid, error? }`, the result of validateEmail and validateConfirmPassword. */
  datatype FieldCheck = FieldCheck(isValid: bool, error: Option<string>)

  /** `{ isValid, strength, error? }`, the result of validatePassword. */
  datatype PasswordCheck = PasswordCheck(isValid: bool, strength: nat, error: Option<string>)

  const InvalidEmailMessage := "Please enter a valid email address"
  const GmailOnlyMessage := "Only gmail.com email addresses are allowed"
  const GmailSuffix := "@gmail.com"
  const PasswordRequiredMessage := "Password is required"
  const PasswordTooShortMessage := "Password must be at least 6 characters"
  const PasswordMismatchMessage := "Passwords do not match"

  // ---------------------------------------------------------------------------
  // Email

  /** A character of the class `[^\s@]`. */
  predicate PartChar(c: char) { !IsSpace(c) && c != '@' }

  /** A match of `[^\s@]+`. */
  predicate IsPart(s: string) {
    0 < |s| && forall k :: 0 <= k < |s| ==> PartChar(s[k])
  }

  /**
   * The regular expression `^[^\s@]+@[^\s@]+\.[^\s@]+$`: the string splits as
   * part '@' part '.' part, with the '@' at i and the '.' at j.
   */
  predicate MatchesEmailPattern(s: string) {
    exists i, j | 0 < i < |s| && 0 <= j < |s| ::
      && i + 1 < j && j + 1 < |s|
      && s[i] == '@' && s[j] == '.'
      && IsPart(s[..i]) && IsPart(s[i + 1..j]) && IsPart(s[j + 1..])
  }

  /** The '@' at index i is the only one in s. */
  ghost predicate OnlyAtSignAt(s: string, i: int) {
    forall k :: 0 <= k < |s| && s[k] == '@' ==> k == i
  }

  /**
   * The shape in plain words: no whitespace anywhere, exactly one '@', not at the start,
   * and a '.' after it that has at least one character on each side.
   */
  ghost predicate SingleAtDottedDomain(s: string) {
    && (forall k :: 0 <= k < |s| ==> !IsSpace(s[k]))
    && exists i :: 0 < i < |s| && s[i] == '@' && OnlyAtSignAt(s, i)
                   && exists j :: i + 1 < j < |s| - 1 && s[j] == '.'
  }

  /** In a match of the pattern, every character except the '@' and the '.' is a part character. */
  lemma PartsCoverAllButSeparators(s: string, i: int, j: int)
    requires 0 < i && i + 1 < j && j + 1 < |s|
    requires IsPart(s[..i]) && IsPart(s[i + 1..j]) && IsPart(s[j + 1..])
    ensures forall k :: 0 <= k < |s| && k != i && k != j ==> PartChar(s[k])
  {
    forall k | 0 <= k < |s| && k != i && k != j
      ensures PartChar(s[k])
    {
      if k < i {
        assert s[..i][k] == s[k];
      } else if k < j {
        assert s[i + 1..j][k - i - 1] == s[k];
      } else {
        assert s[j + 1..][k - j - 1] == s[k];
      }
    }
  }

  /** A match of the pattern has the plain-words shape. */
  lemma PatternHasShape(s: string)
    requires MatchesEmailPattern(s)
    ensures SingleAtDottedDomain(s)
  {
    var i, j :| 0 < i < |s| && 0 <= j < |s| && i + 1 < j && j + 1 < |s|
                && s[i] == '@' && s[j] == '.'
                && IsPart(s[..i]) && IsPart(s[i + 1..j]) && IsPart(s[j + 1..]);
    PartsCoverAllButSeparators(s, i, j);
    assert OnlyAtSignAt(s, i);
  }

  /** A string of the plain-words shape matches the pattern, split at its '@' and a '.'. */
  lemma ShapeMatchesPattern(s: string)
    requires SingleAtDottedDomain(s)
    ensures MatchesEmailPattern(s)
  {
    var i :| 0 < i < |s| && s[i] == '@' && OnlyAtSignAt(s, i)
             && exists j :: i + 1 < j < |s| - 1 && s[j] == '.';
    var j :| i + 1 < j < |s| - 1 && s[j] == '.';
    assert IsPart(s[..i]);
    assert IsPart(s[i + 1..j]);
    assert IsPart(s[j + 1..]);
  }

  /** The regular expression accepts exactly the strings of the plain-words shape. */
  lemma EmailPatternIff(s: string)
    ensures MatchesEmailPattern(s) <==> SingleAtDottedDomain(s)
  {
    if MatchesEmailPattern(s) {
      PatternHasShape(s);
    }
    if SingleAtDottedDomain(s) {
      ShapeMatchesPattern(s);
    }
  }

  /**
   * validateEmail: the shape check runs first and its message wins; only a well-shaped
   * address reaches the gmail.com policy, which compares the lower-cased address.
   */
  function ValidateEmail(email: string): (r: FieldCheck)
    ensures r.isValid <==> r.error == None
    ensures r.isValid <==> SingleAtDottedDomain(email) && EndsWith(ToLower(email), GmailSuffix)
    ensures r.error == Some(InvalidEmailMessage) <==> !SingleAtDottedDomain(email)
    ensures r.error == Some(GmailOnlyMessage)
            <==> SingleAtDottedDomain(email) && !EndsWith(ToLower(email), GmailSuffix)
  {
    EmailPatternIff(email);
    if !MatchesEmailPattern(email) then
      FieldCheck(false, Some(InvalidEmailMessage))
    else if !EndsWith(ToLower(email), GmailSuffix) then
      FieldCheck(false, Some(GmailOnlyMessage))
    else
      FieldCheck(true, None)
  }

  /** Lower-casing never creates or removes an '@'. */
  lemma LowerCharAt(c: char)
    ensures LowerChar(c) == '@' <==> c == '@'
  {}

  /** If the lower-cased s ends with "@gmail.com", that '@' is the one at i. */
  lemma SuffixStartsAtTheAt(s: string, i: nat)
    requires i < |s| && s[i] == '@' && OnlyAtSignAt(s, i)
    requires EndsWith(ToLower(s), GmailSuffix)
    ensures |s| - 10 == i
  {
    var low := ToLower(s);
    assert low[|s| - 10..][0] == low[|s| - 10];
    LowerCharAt(s[|s| - 10]);
  }

  /** Dropping the '@' from a string ending in "@gmail.com" at i leaves "gmail.com". */
  lemma DropAtFromSuffix(low: string, i: nat)
    requires i + 10 == |low| && EndsWith(low, GmailSuffix)
    ensures low[i + 1..] == "gmail.com"
  {}

  /** An '@' at i followed by exactly "gmail.com" makes the string end in "@gmail.com". */
  lemma PrependAtToDomain(low: string, i: nat)
    requires i < |low| && low[i] == '@' && low[i + 1..] == "gmail.com"
    ensures EndsWith(low, GmailSuffix)
  {}

  /** The policy's suffix test, read back as a statement about the domain after the one '@'. */
  lemma DomainOfGmailAddress(s: string, i: nat)
    requires i < |s| && s[i] == '@' && OnlyAtSignAt(s, i)
    requires EndsWith(ToLower(s), GmailSuffix)
    ensures ToLower(s[i + 1..]) == "gmail.com"
  {
    SuffixStartsAtTheAt(s, i);
    DropAtFromSuffix(ToLower(s), i);
    ToLowerSlice(s, i + 1, |s|);
  }

  /** A "gmail.com" domain after the '@', in any case, passes the policy's suffix test. */
  lemma GmailAddressOfDomain(s: string, i: nat)
    requires i < |s| && s[i] == '@'
    requires ToLower(s[i + 1..]) == "gmail.com"
    ensures EndsWith(ToLower(s), GmailSuffix)
  {
    ToLowerSlice(s, i + 1, |s|);
    PrependAtToDomain(ToLower(s), i);
  }

  /**
   * When s has a single '@', at i, its lower-cased form ends with "@gmail.com" exactly
   * when the text after the '@', lower-cased, is "gmail.com".
   */
  lemma SuffixAfterAt(s: string, i: nat)
    requires i < |s| && s[i] == '@' && OnlyAtSignAt(s, i)
    ensures EndsWith(ToLower(s), GmailSuffix) <==> ToLower(s[i + 1..]) == "gmail.com"
  {
    if EndsWith(ToLower(s), GmailSuffix) {
      DomainOfGmailAddress(s, i);
    }
    if ToLower(s[i + 1..]) == "gmail.com" {
      GmailAddressOfDomain(s, i);
    }
  }

  /**
   * A well-shaped address is accepted exactly when the text after its one '@',
   * lower-cased, is "gmail.com": so "a@GMAIL.com" passes and "x@mail.gmail.com" does not.
   */
  lemma GmailPolicy(email: string, i: nat)
    requires SingleAtDottedDomain(email)
    requires i < |email| && email[i] == '@'
    ensures ValidateEmail(email).isValid <==> ToLower(email[i + 1..]) == "gmail.com"
  {
    var i' :| 0 < i' < |email| && email[i'] == '@' && OnlyAtSignAt(email, i')
              && exists j :: i' + 1 < j < |email| - 1 && email[j] == '.';
    assert i == i';
    SuffixAfterAt(email, i);
  }

  /** Both example addresses pass the shape check. */
  lemma ExampleAddressesWellShaped()
    ensures SingleAtDottedDomain("a@GMAIL.com") && SingleAtDottedDomain("a@yahoo.com")
  {
    assert OnlyAtSignAt("a@GMAIL.com", 1) && "a@GMAIL.com"[7] == '.';
    assert OnlyAtSignAt("a@yahoo.com", 1) && "a@yahoo.com"[7] == '.';
  }

  /** The lower-cased domains of the two example addresses. */
  lemma ExampleDomainsLowered()
    ensures ToLower("a@GMAIL.com"[2..]) == "gmail.com"
    ensures ToLower("a@yahoo.com"[2..]) != "gmail.com"
  {
    assert "a@GMAIL.com"[2..] == "GMAIL.com";
    assert ToLower("a@yahoo.com"[2..])[0] == 'y';
  }

  /**
   * The addresses "a@GMAIL.com" and "a@yahoo.com": the first is accepted, as the policy compares
   * the lower-cased domain; "a@yahoo.com" is well shaped and gets the policy message.
   */
  lemma DomainPolicyExamples()
    ensures ValidateEmail("a@GMAIL.com") == FieldCheck(true, None)
    ensures ValidateEmail("a@yahoo.com") == FieldCheck(false, Some(GmailOnlyMessage))
  {
    ExampleAddressesWellShaped();
    ExampleDomainsLowered();
    GmailPolicy("a@GMAIL.com", 1);
    GmailPolicy("a@yahoo.com", 1);
  }

  /** "a b@gmail.com" ends in @gmail.com but holds a space: the shape message wins. */
  lemma MalformedGmailGetsShapeMessage()
    ensures ValidateEmail("a b@gmail.com") == FieldCheck(false, Some(InvalidEmailMessage))
  {
    assert IsSpace("a b@gmail.com"[1]);
  }

  // ---------------------------------------------------------------------------
  // Password

  /** `/[a-z]/.test(p)` */
  predicate HasLowercase(p: string) { exists i :: 0 <= i < |p| && IsAsciiLower(p[i]) }
  /** `/[A-Z]/.test(p)` */
  predicate HasUppercase(p: string) { exists i :: 0 <= i < |p| && IsAsciiUpper(p[i]) }
  /** `/[0-9]/.test(p)` */
  predicate HasDigit(p: string) { exists i :: 0 <= i < |p| && IsAsciiDigit(p[i]) }
  /** `/[^A-Za-z0-9]/.test(p)` */
  predicate HasSpecial(p: string) {
    exists i :: 0 <= i < |p| && !IsAsciiLower(p[i]) && !IsAsciiUpper(p[i]) && !IsAsciiDigit(p[i])
  }

  /** The five strength criteria, each worth one point. */
  datatype Criterion = AtLeast8 | Lowercase | Uppercase | Digit | Special

  const AllCriteria: set<Criterion> := {AtLeast8, Lowercase, Uppercase, Digit, Special}

  predicate Meets(p: string, c: Criterion) {
    match c
    case AtLeast8 => |p| >= 8
    case Lowercase => HasLowercase(p)
    case Uppercase => HasUppercase(p)
    case Digit => HasDigit(p)
    case Special => HasSpecial(p)
  }

  /** The criteria a password satisfies. */
  ghost function Satisfied(p: string): set<Criterion> {
    set c | c in AllCriteria && Meets(p, c)
  }

  function Min(a: int, b: int): int { if a <= b then a else b }

  /** The strength of an acceptable password: its number of satisfied criteria, capped at 4. */
  ghost function Strength(p: string): int {
    Min(4, |Satisfied(p)|)
  }

  /** A set holding each criterion exactly when the password meets it is the satisfied set. */
  lemma SatisfiedByMembers(p: string, met: set<Criterion>)
    requires AtLeast8 in met <==> Meets(p, AtLeast8)
    requires Lowercase in met <==> Meets(p, Lowercase)
    requires Uppercase in met <==> Meets(p, Uppercase)
    requires Digit in met <==> Meets(p, Digit)
    requires Special in met <==> Meets(p, Special)
    ensures met == Satisfied(p)
  {
    forall c ensures c in met <==> c in Satisfied(p) {
      match c
      case AtLeast8 =>
      case Lowercase =>
      case Uppercase =>
      case Digit =>
      case Special =>
    }
  }

  /** One point when the condition holds, none otherwise. */
  function Point(b: bool): nat { if b then 1 else 0 }

  /** `met` with `c` added when it holds. */
  ghost function Including(met: set<Criterion>, c: Criterion, holds: bool): (r: set<Criterion>)
    ensures forall x :: x in r <==> x in met || (holds && x == c)
    ensures c !in met ==> |r| == |met| + Point(holds)
  {
    if holds then met + {c} else met
  }

  /** The number of satisfied criteria is the sum of one point per criterion met. */
  lemma SatisfiedCount(p: string)
    ensures |Satisfied(p)| == Point(|p| >= 8) + Point(HasLowercase(p)) + Point(HasUppercase(p))
                              + Point(HasDigit(p)) + Point(HasSpecial(p))
  {
    var s1 := Including({}, AtLeast8, |p| >= 8);
    var s2 := Including(s1, Lowercase, HasLowercase(p));
    var s3 := Including(s2, Uppercase, HasUppercase(p));
    var s4 := Including(s3, Digit, HasDigit(p));
    var s5 := Including(s4, Special, HasSpecial(p));
    SatisfiedByMembers(p, s5);
  }

  /** Every character is a lower-case letter, an upper-case letter, a digit or something else. */
  lemma SomeCriterionAlwaysMet(p: string)
    requires |p| > 0
    ensures Meets(p, Lowercase) || Meets(p, Uppercase) || Meets(p, Digit) || Meets(p, Special)
    ensures |Satisfied(p)| >= 1
  {
    var c := p[0];
    var m: Criterion;
    if IsAsciiLower(c) {
      m := Lowercase;
    } else if IsAsciiUpper(c) {
      m := Uppercase;
    } else if IsAsciiDigit(c) {
      m := Digit;
    } else {
      m := Special;
    }
    assert Meets(p, m);
    assert m in Satisfied(p);
  }

  /**
   * validatePassword. The empty password scores 0, any password of 1 to 5 characters
   * scores a fixed 1 whatever it contains, and from 6 characters on the password is
   * valid and scores its satisfied criteria, capped at 4, which is never below 1.
   */
  method ValidatePassword(password: string) returns (r: PasswordCheck)
    ensures |password| == 0 ==> r == PasswordCheck(false, 0, Some(PasswordRequiredMessage))
    ensures 0 < |password| < 6 ==> r == PasswordCheck(false, 1, Some(PasswordTooShortMessage))
    ensures |password| >= 6 ==> r == PasswordCheck(true, Strength(password), None)
    ensures r.strength <= 4
    ensures r.isValid ==> 1 <= r.strength
  {
    if |password| == 0 {
      return PasswordCheck(false, 0, Some(PasswordRequiredMessage));
    }
    if |password| < 6 {
      return PasswordCheck(false, 1, Some(PasswordTooShortMessage));
    }
    var strength := 0;
    if |password| >= 8 {
      strength := strength + 1;
    }
    if HasLowercase(password) {
      strength := strength + 1;
    }
    if HasUppercase(password) {
      strength := strength + 1;
    }
    if HasDigit(password) {
      strength := strength + 1;
    }
    if HasSpecial(password) {
      strength := strength + 1;
    }
    SatisfiedCount(password);
    SomeCriterionAlwaysMet(password);
    r := PasswordCheck(true, Min(4, strength), None);
  }

  /**
   * The passwords "Abc12345!" and "abcdefgh": the first meets all five criteria and still scores 4;
   * "abcdefgh" meets only length and lower case and scores 2.
   */
  lemma PasswordExamples()
    ensures Satisfied("Abc12345!") == AllCriteria && Strength("Abc12345!") == 4
    ensures Satisfied("abcdefgh") == {AtLeast8, Lowercase} && Strength("abcdefgh") == 2
  {
    var strong := "Abc12345!";
    assert IsAsciiLower(strong[1]) && IsAsciiUpper(strong[0]);
    assert IsAsciiDigit(strong[3]);
    assert !IsAsciiLower(strong[8]) && !IsAsciiUpper(strong[8]) && !IsAsciiDigit(strong[8]);
    assert forall c :: c in AllCriteria ==> Meets(strong, c);

    var plain := "abcdefgh";
    assert IsAsciiLower(plain[0]);
    assert forall i :: 0 <= i < |plain| ==> IsAsciiLower(plain[i]);
    assert !Meets(plain, Uppercase) && !Meets(plain, Digit) && !Meets(plain, Special);
    assert Satisfied(plain) == {AtLeast8, Lowercase};
  }

  // ---------------------------------------------------------------------------
  // Confirm password

  /** validateConfirmPassword: valid exactly when the two strings are identical, case and all. */
  function ValidateConfirmPassword(password: string, confirmPassword: string): (r: FieldCheck)
    ensures r.isValid <==> password == confirmPassword
    ensures r.isValid <==> r.error == None
    ensures !r.isValid ==> r.error == Some(PasswordMismatchMessage)
  {
    if password != confirmPassword then FieldCheck(false, Some(PasswordMismatchMessage))
    else FieldCheck(true, None)
  }

  /** Matching a password with itself always succeeds, the empty password included. */
  lemma ConfirmReflexive(p: string)
    ensures ValidateConfirmPassword(p, p) == FieldCheck(true, None)
  {}
}
