/** The string helpers of the basic unit tests: the password-strength
    helper, the email pattern and the lowercasing check. */
module UnitChecks {
  import opened Wrappers
  import opened Text
  import Validator

  /** The test helper `isStrongPassword`: at least eight characters, an
      upper-case letter and a digit; no lower-case or symbol requirement. */
  function IsStrongPassword(password: string): (r: bool)
    ensures r <==>
      && |password| >= 8
      && (exists i :: 0 <= i < |password| && IsAsciiUpper(password[i]))
      && (exists i :: 0 <= i < |password| && IsAsciiDigit(password[i]))
  {
    |password| >= 8 && Validator.Count(password, IsAsciiUpper) > 0 && Validator.Count(password, IsAsciiDigit) > 0
  }

  /** The two cases the test checks. */
  lemma StrongPasswordExamples()
    ensures IsStrongPassword("Password123")
    ensures !IsStrongPassword("weak")
  {
    assert "Password123"[0] == 'P';
    assert "Password123"[8] == '1';
  }

  /** A character the class `[^\s@]` admits. */
  predicate PartChar(c: char) {
    c != '@' && !IsSpace(c)
  }

  /** A non-empty run of `[^\s@]`. */
  predicate Part(x: string) {
    |x| > 0 && forall i :: 0 <= i < |x| ==> PartChar(x[i])
  }

  /** What `/^[^\s@]+@[^\s@]+\.[^\s@]+$/` accepts, read off the pattern:
      three non-empty runs, the first two separated by '@', the last two by
      a dot. */
  ghost predicate EmailShape(s: string) {
    exists a: string, b: string, c: string ::
      s == a + "@" + b + "." + c && Part(a) && Part(b) && Part(c)
  }

  /** The first position of `c` in `s`. */
  function IndexOf(s: string, c: char): (r: Option<nat>)
    ensures r.None? <==> c !in s
    ensures r.Some? ==> r.value < |s| && s[r.value] == c && c !in s[..r.value]
  {
    if s == [] then None
    else if s[0] == c then Some(0)
    else
      var t := IndexOf(s[1..], c);
      assert c in s <==> c in s[1..] by { assert s == [s[0]] + s[1..]; }
      if t.None? then None
      else
        assert s[..t.value + 1] == [s[0]] + s[1..][..t.value];
        Some(t.value + 1)
  }

  /** The text after the '@': only `[^\s@]` characters, with a dot that has
      at least one character on each side. */
  predicate DomainOk(d: string) {
    && (forall i :: 0 <= i < |d| ==> PartChar(d[i]))
    && exists k :: 0 < k < |d| - 1 && d[k] == '.'
  }

  /** The email test as a scan: the local part ends at the first '@', and
      the rest must be a valid domain. */
  function EmailMatches(s: string): bool {
    match IndexOf(s, '@')
    case None => false
    case Some(i) => Part(s[..i]) && DomainOk(s[i + 1..])
  }

  /** A position holding `c` with no `c` before it is the one `IndexOf`
      finds. */
  lemma IndexOfAt(s: string, c: char, i: nat)
    requires i < |s| && s[i] == c && c !in s[..i]
    ensures IndexOf(s, c) == Some(i)
  {
  }

  /** Every string the scan accepts has the pattern's shape. */
  lemma EmailMatchesShaped(s: string)
    requires EmailMatches(s)
    ensures EmailShape(s)
  {
    var i := IndexOf(s, '@').value;
    var d := s[i + 1..];
    var k :| 0 < k < |d| - 1 && d[k] == '.';
    var a, b, c := s[..i], d[..k], d[k + 1..];
    assert d == b + "." + c;
    assert s == a + "@" + d;
    assert s == a + "@" + b + "." + c;
    assert Part(b) && Part(c);
  }

  /** Every string of the pattern's shape is accepted by the scan. */
  lemma ShapedEmailMatches(s: string, a: string, b: string, c: string)
    requires s == a + "@" + b + "." + c && Part(a) && Part(b) && Part(c)
    ensures EmailMatches(s)
  {
    var d := b + "." + c;
    assert s == a + "@" + d;
    assert s[..|a|] == a;
    IndexOfAt(s, '@', |a|);
    assert s[|a| + 1..] == d;
    assert d[|b|] == '.';
    forall j | 0 <= j < |d| ensures PartChar(d[j]) {
      if j < |b| { assert d[j] == b[j]; }
      else if j > |b| { assert d[j] == c[j - |b| - 1]; }
    }
  }

  /** The scan accepts exactly the strings of the pattern's shape. */
  lemma EmailMatchesIff(s: string)
    ensures EmailMatches(s) <==> EmailShape(s)
  {
    if EmailMatches(s) {
      EmailMatchesShaped(s);
    }
    if EmailShape(s) {
      var a: string, b: string, c: string :| s == a + "@" + b + "." + c && Part(a) && Part(b) && Part(c);
      ShapedEmailMatches(s, a, b, c);
    }
  }

  /** An accepted address has exactly one '@'. */
  lemma EmailHasOneAt(s: string)
    requires EmailMatches(s)
    ensures exists i :: 0 <= i < |s| && s[i] == '@' && forall j :: 0 <= j < |s| && j != i ==> s[j] != '@'
  {
    var i := IndexOf(s, '@').value;
    forall j | 0 <= j < |s| && j != i ensures s[j] != '@' {
      if j < i { assert s[j] == s[..i][j]; }
      else { assert s[j] == s[i + 1..][j - i - 1]; }
    }
  }

  /** The accepted case of the test. */
  lemma EmailAcceptsExample()
    ensures EmailMatches("test@example.com")
  {
    ShapedEmailMatches("test@example.com", "test", "example", "com");
  }

  /** The rejected case of the test: there is no '@'. */
  lemma EmailRejectsExample()
    ensures !EmailMatches("invalid-email")
  {
    var s := "invalid-email";
    assert forall i :: 0 <= i < |s| ==> s[i] != '@';
  }

  /** The string test: lowercasing 'Hello World' gives 'hello world', of
      the same eleven characters. */
  lemma LowercaseExample()
    ensures ToLower("Hello World") == "hello world"
    ensures |ToLower("Hello World")| == |"Hello World"| == 11
  {
  }
}
