/** The article form's checks (components/NewsForm.tsx): the email pattern,
    the form-validity condition that enables submission, the email error
    message, and the word-count input's `parseInt(...) || 500` fallback. */
module NewsForm {
  import opened Wrappers
  import opened Text
  import opened Types

  /** The word count used when the input does not parse to a non-zero
      integer. */
  const DefaultWordCount: int := 500

  /** `s.trim()` is truthy. */
  predicate HasContent(s: string) {
    Trim(s) != []
  }

  /** One `[^\s@]+` part of the email pattern. */
  predicate IsEmailPart(s: string) {
    s != [] && forall i :: 0 <= i < |s| ==> !IsWhitespace(s[i]) && s[i] != '@'
  }

  /** The `[^\s@]+\.[^\s@]+` domain of the email pattern: some `.` splits it
      into two parts. */
  predicate IsEmailDomain(d: string) {
    exists m | 0 <= m < |d| :: d[m] == '.' && IsEmailPart(d[..m]) && IsEmailPart(d[m + 1..])
  }

  /** `/^[^\s@]+@[^\s@]+\.[^\s@]+$/.test(email)`: some `@` splits the email
      into a part and a domain. */
  predicate IsEmailValid(email: string) {
    exists k | 0 <= k < |email| :: email[k] == '@' && IsEmailPart(email[..k]) && IsEmailDomain(email[k + 1..])
  }

  /** Number of occurrences of `c` in `s`. */
  function CountChar(s: string, c: char): (n: nat)
    ensures n <= |s|
    ensures n == 0 <==> c !in s
  {
    if s == [] then 0 else (if s[0] == c then 1 else 0) + CountChar(s[1..], c)
  }

  lemma {:induction false} CountCharAppend(a: string, b: string, c: char)
    ensures CountChar(a + b, c) == CountChar(a, c) + CountChar(b, c)
  {
    if a == [] {
      assert a + b == b;
    } else {
      assert (a + b)[0] == a[0];
      assert (a + b)[1..] == a[1..] + b;
      CountCharAppend(a[1..], b, c);
    }
  }

  /** The domain has a `.` with at least one character on each side. */
  predicate HasInnerDot(d: string) {
    exists m | 0 <= m < |d| :: d[m] == '.' && 0 < m < |d| - 1
  }

  /** The shape the email pattern stands for, stated with counts. */
  predicate IsEmailShape(email: string) {
    && NoWhitespace(email)
    && CountChar(email, '@') == 1
    && exists k | 0 <= k < |email| :: email[k] == '@' && k > 0 && HasInnerDot(email[k + 1..])
  }

  /** The `@`s of a string are those before, at and after position `k`. */
  lemma SplitAround(s: string, k: nat)
    requires k < |s|
    ensures CountChar(s, '@') == CountChar(s[..k], '@') + CountChar([s[k]], '@') + CountChar(s[k + 1..], '@')
  {
    SliceAround(s, k);
    CountAround(s[..k], s[k], s[k + 1..]);
  }

  lemma SliceAround(s: string, k: nat)
    requires k < |s|
    ensures s == s[..k] + [s[k]] + s[k + 1..]
  {
  }

  lemma CountAround(a: string, x: char, b: string)
    ensures CountChar(a + [x] + b, '@') == CountChar(a, '@') + CountChar([x], '@') + CountChar(b, '@')
  {
    CountCharAppend(a + [x], b, '@');
    CountCharAppend(a, [x], '@');
  }

  lemma NoWhitespaceAround(s: string, k: nat)
    requires k < |s|
    ensures NoWhitespace(s) <==> NoWhitespace(s[..k]) && !IsWhitespace(s[k]) && NoWhitespace(s[k + 1..])
  {
    if NoWhitespace(s[..k]) && !IsWhitespace(s[k]) && NoWhitespace(s[k + 1..]) {
      forall i | 0 <= i < |s| ensures !IsWhitespace(s[i]) {
        if i < k {
          assert s[i] == s[..k][i];
        } else if i > k {
          assert s[i] == s[k + 1..][i - k - 1];
        }
      }
    }
  }

  /** An email part holds neither whitespace nor `@`. */
  lemma EmailPartFacts(s: string)
    requires IsEmailPart(s)
    ensures NoWhitespace(s) && CountChar(s, '@') == 0
  {
  }

  /** A string without `@` and whitespace, if non-empty, is an email part. */
  lemma EmailPartFromFacts(s: string)
    requires s != [] && NoWhitespace(s) && CountChar(s, '@') == 0
    ensures IsEmailPart(s)
  {
  }

  lemma DomainFacts(d: string)
    requires IsEmailDomain(d)
    ensures NoWhitespace(d) && CountChar(d, '@') == 0 && HasInnerDot(d)
  {
    var m :| 0 <= m < |d| && d[m] == '.' && IsEmailPart(d[..m]) && IsEmailPart(d[m + 1..]);
    EmailPartFacts(d[..m]);
    EmailPartFacts(d[m + 1..]);
    SplitAround(d, m);
    NoWhitespaceAround(d, m);
    assert 0 < m < |d| - 1;
  }

  lemma EmailValidHasShape(email: string)
    requires IsEmailValid(email)
    ensures IsEmailShape(email)
  {
    var k :| 0 <= k < |email| && email[k] == '@' && IsEmailPart(email[..k]) && IsEmailDomain(email[k + 1..]);
    EmailPartFacts(email[..k]);
    DomainFacts(email[k + 1..]);
    SplitAround(email, k);
    NoWhitespaceAround(email, k);
    assert k > 0;
  }

  lemma EmailShapeIsValid(email: string)
    requires IsEmailShape(email)
    ensures IsEmailValid(email)
  {
    var k :| 0 <= k < |email| && email[k] == '@' && k > 0 && HasInnerDot(email[k + 1..]);
    var d := email[k + 1..];
    var m :| 0 <= m < |d| && d[m] == '.' && 0 < m < |d| - 1;
    SplitAround(email, k);
    NoWhitespaceAround(email, k);
    SplitAround(d, m);
    NoWhitespaceAround(d, m);
    EmailPartFromFacts(email[..k]);
    EmailPartFromFacts(d[..m]);
    EmailPartFromFacts(d[m + 1..]);
    assert IsEmailDomain(d);
  }

  /** A string accepted by the email pattern is exactly one holding no
      whitespace and exactly one `@`, with a character before the `@` and a
      `.` after it that has a character on each side. */
  lemma EmailValidIff(email: string)
    ensures IsEmailValid(email) <==> IsEmailShape(email)
  {
    if IsEmailValid(email) {
      EmailValidHasShape(email);
    }
    if IsEmailShape(email) {
      EmailShapeIsValid(email);
    }
  }

  /** An email accepted by the pattern is not blank. */
  lemma EmailValidHasContent(email: string)
    requires IsEmailValid(email)
    ensures HasContent(email)
  {
    var k :| 0 <= k < |email| && email[k] == '@' && IsEmailPart(email[..k]) && IsEmailDomain(email[k + 1..]);
    assert email[0] == email[..k][0];
    TrimNonEmptyIff(email);
  }

  /** `isFormValid`: topic, facts and email are non-blank and the email
      matches the pattern. */
  predicate IsFormValid(form: NewsFormData) {
    HasContent(form.topic) && HasContent(form.facts) && HasContent(form.email) && IsEmailValid(form.email)
  }

  /** The form is valid exactly when topic and facts each hold a
      non-whitespace character and the email matches the pattern: the
      `email.trim()` test is implied by the pattern. */
  lemma FormValidIff(form: NewsFormData)
    ensures IsFormValid(form) <==>
      && (exists i :: 0 <= i < |form.topic| && !IsWhitespace(form.topic[i]))
      && (exists i :: 0 <= i < |form.facts| && !IsWhitespace(form.facts[i]))
      && IsEmailValid(form.email)
  {
    TrimNonEmptyIff(form.topic);
    TrimNonEmptyIff(form.facts);
    if IsEmailValid(form.email) {
      EmailValidHasContent(form.email);
    }
  }

  /** The Generate button is enabled (`!(!isFormValid || isSubmitting)`)
      exactly when the form is valid and no generation is running. */
  predicate IsSubmitEnabled(form: NewsFormData, isSubmitting: bool) {
    !(!IsFormValid(form) || isSubmitting)
  }

  /** Submission is blocked while a generation runs, and otherwise follows
      the form's validity. */
  lemma SubmitEnabledIff(form: NewsFormData, isSubmitting: bool)
    ensures IsSubmitEnabled(form, isSubmitting) <==> IsFormValid(form) && !isSubmitting
    ensures isSubmitting ==> !IsSubmitEnabled(form, isSubmitting)
  {
  }

  /** "Invalid email format" is shown for a non-empty email the pattern
      rejects. */
  predicate ShowsEmailError(email: string) {
    email != [] && !IsEmailValid(email)
  }

  /** The error message and the button agree: whenever the message shows,
      Generate is disabled, and an empty email shows no message yet still
      keeps Generate disabled. */
  lemma EmailErrorBlocksSubmit(form: NewsFormData, isSubmitting: bool)
    ensures ShowsEmailError(form.email) ==> !IsSubmitEnabled(form, isSubmitting)
    ensures form.email == [] ==> !ShowsEmailError(form.email) && !IsSubmitEnabled(form, isSubmitting)
  {
  }

  /** `parseInt(value) || 500`: `NaN` and zero (also `-0`) fall back to 500. */
  function WordCountInput(value: string): (r: int)
    ensures r != 0
  {
    match ParseInt(value)
    case None => DefaultWordCount
    case Some(n) => if n == 0 then DefaultWordCount else n
  }

  /** A cleared field, or one without any digit (`"abc"`), reads as `NaN`,
      and the word count falls back to 500. */
  lemma WordCountInputWithoutDigits(value: string)
    requires forall i :: 0 <= i < |value| ==> !IsDigit(value[i])
    ensures WordCountInput(value) == DefaultWordCount
  {
    ParseIntWithoutDigits(value);
  }

  /** A typed number is kept even with leading whitespace and trailing
      text (`"12abc"` gives 12), and a typed 0 becomes 500. */
  lemma WordCountInputKeepsNumber(ws: string, n: nat, rest: string)
    requires forall i :: 0 <= i < |ws| ==> IsWhitespace(ws[i])
    requires rest == [] || !IsDigit(rest[0])
    requires n == 0 ==> rest == [] || (rest[0] != 'x' && rest[0] != 'X')
    ensures WordCountInput(ws + NatToString(n) + rest) == if n == 0 then DefaultWordCount else n
  {
    ParseIntReadsPrefix(ws, n, rest);
  }

  /** A typed negative number is kept as it is (`"-5"` gives -5); `-0`
      becomes 500. */
  lemma WordCountInputKeepsNegative(ws: string, n: nat, rest: string)
    requires forall i :: 0 <= i < |ws| ==> IsWhitespace(ws[i])
    requires rest == [] || !IsDigit(rest[0])
    requires n == 0 ==> rest == [] || (rest[0] != 'x' && rest[0] != 'X')
    ensures WordCountInput(ws + "-" + NatToString(n) + rest) == if n == 0 then DefaultWordCount else -(n as int)
  {
    ParseIntReadsNegativePrefix(ws, n, rest);
  }
}
