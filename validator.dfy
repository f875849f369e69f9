/** The parts of express-validator the two route files use: the error record
    a failing validator leaves behind, the validators with an explicit rule
    (isLength, isAlphanumeric, isStrongPassword), and the library functions
    whose rules are not part of this model (isEmail, normalizeEmail, escape
    and the symbol class of isStrongPassword), which are parameters. */
module Validator {
  import opened Wrappers
  import opened Text

  /** One entry of `validationResult(req).array()` for a body field: the
      field's path, the message set by `withMessage`, and the value the
      validator saw (location 'body' and type 'field' are implicit). */
  datatype FieldError = FieldError(path: string, msg: string, value: string)

  /** Library behaviour taken as given. */
  datatype Library = Library(
    isEmail: string -> bool,
    normalizeEmail: string -> string,
    escape: string -> string,
    isSymbol: char -> bool)

  /** One validator of a chain, already run: the field it checks, whether
      it passed, its message and the value it saw. */
  datatype Validation = Validation(path: string, passes: bool, msg: string, value: string)

  /** True when some error in the list is about `field`. */
  predicate Reports(errors: seq<FieldError>, field: string) {
    exists i :: 0 <= i < |errors| && errors[i].path == field
  }

  /** True when some validator in the list failed on `field`. */
  predicate Fails(vs: seq<Validation>, field: string) {
    exists i :: 0 <= i < |vs| && !vs[i].passes && vs[i].path == field
  }

  /** The error a failing validator leaves. */
  function ErrorOf(v: Validation): FieldError {
    FieldError(v.path, v.msg, v.value)
  }

  /** `validationResult(req).array()`: one error per failing validator, in
      the order the validators ran, none for those that passed. */
  function ValidationResult(vs: seq<Validation>): (r: seq<FieldError>)
    ensures |r| <= |vs|
    ensures r == [] <==> forall i :: 0 <= i < |vs| ==> vs[i].passes
  {
    if vs == [] then []
    else
      var tail := ValidationResult(vs[1..]);
      assert (forall i :: 0 <= i < |vs| ==> vs[i].passes) <==>
             vs[0].passes && forall i :: 0 <= i < |vs| - 1 ==> vs[1..][i].passes by {
        if vs[0].passes && forall i :: 0 <= i < |vs| - 1 ==> vs[1..][i].passes {
          forall i | 1 <= i < |vs| ensures vs[i].passes { assert vs[i] == vs[1..][i - 1]; }
        }
      }
      (if vs[0].passes then [] else [ErrorOf(vs[0])]) + tail
  }

  /** A concatenation of error lists reports a field when either part does. */
  lemma ReportsConcat(a: seq<FieldError>, b: seq<FieldError>, field: string)
    ensures Reports(a + b, field) <==> Reports(a, field) || Reports(b, field)
  {
    if Reports(a + b, field) {
      var i :| 0 <= i < |a + b| && (a + b)[i].path == field;
      if i >= |a| { assert b[i - |a|] == (a + b)[i]; }
    }
    if Reports(a, field) {
      var i :| 0 <= i < |a| && a[i].path == field;
      assert (a + b)[i] == a[i];
    }
    if Reports(b, field) {
      var i :| 0 <= i < |b| && b[i].path == field;
      assert (a + b)[|a| + i] == b[i];
    }
  }

  /** The result lists every failing field and no other: a field is
      reported exactly when one of its validators failed. */
  lemma {:induction false} ResultReportsFailures(vs: seq<Validation>, field: string)
    ensures Reports(ValidationResult(vs), field) <==> Fails(vs, field)
  {
    if vs != [] {
      var head := if vs[0].passes then [] else [ErrorOf(vs[0])];
      ResultReportsFailures(vs[1..], field);
      ReportsConcat(head, ValidationResult(vs[1..]), field);
      if Fails(vs, field) && !(!vs[0].passes && vs[0].path == field) {
        var i :| 0 <= i < |vs| && !vs[i].passes && vs[i].path == field;
        assert vs[1..][i - 1] == vs[i];
      }
      if Fails(vs[1..], field) {
        var i :| 0 <= i < |vs| - 1 && !vs[1..][i].passes && vs[1..][i].path == field;
        assert vs[i + 1] == vs[1..][i];
      }
      if Reports(head, field) {
        assert head[0].path == field;
      }
    }
  }

  /** The error of every failing validator is in the result. */
  lemma {:induction false} ResultHasEveryFailure(vs: seq<Validation>, i: nat)
    requires i < |vs| && !vs[i].passes
    ensures ErrorOf(vs[i]) in ValidationResult(vs)
  {
    var head := if vs[0].passes then [] else [ErrorOf(vs[0])];
    assert ValidationResult(vs) == head + ValidationResult(vs[1..]);
    if i > 0 {
      assert vs[1..][i - 1] == vs[i];
      ResultHasEveryFailure(vs[1..], i - 1);
    }
  }

  /** Every reported error is the error of a validator that failed. */
  lemma {:induction false} ResultEntriesFailed(vs: seq<Validation>, k: nat)
    requires k < |ValidationResult(vs)|
    ensures exists i :: 0 <= i < |vs| && !vs[i].passes && ValidationResult(vs)[k] == ErrorOf(vs[i])
  {
    var head := if vs[0].passes then [] else [ErrorOf(vs[0])];
    var tail := ValidationResult(vs[1..]);
    assert ValidationResult(vs) == head + tail;
    if k < |head| {
      assert ValidationResult(vs)[k] == ErrorOf(vs[0]);
    } else {
      ResultEntriesFailed(vs[1..], k - |head|);
      var i :| 0 <= i < |vs| - 1 && !vs[1..][i].passes && tail[k - |head|] == ErrorOf(vs[1..][i]);
      assert ValidationResult(vs)[k] == tail[k - |head|];
      assert vs[i + 1] == vs[1..][i];
    }
  }

  /** A field checked by a single validator of the chain is reported
      exactly when that validator failed, with that validator's error. */
  lemma ReportsSoleValidator(vs: seq<Validation>, i: nat)
    requires i < |vs|
    requires forall j :: 0 <= j < |vs| && j != i ==> vs[j].path != vs[i].path
    ensures Reports(ValidationResult(vs), vs[i].path) <==> !vs[i].passes
    ensures !vs[i].passes ==> ErrorOf(vs[i]) in ValidationResult(vs)
  {
    ResultReportsFailures(vs, vs[i].path);
    if !vs[i].passes { ResultHasEveryFailure(vs, i); }
  }

  /** `isLength({min, max})`; an absent max means no upper bound. */
  predicate IsLength(s: string, min: nat, max: Option<nat>) {
    min <= |s| && (max.Some? ==> |s| <= max.value)
  }

  /** `isAlphanumeric()` in its default 'en-US' locale, i.e. /^[0-9A-Z]+$/i. */
  predicate IsAlphanumeric(s: string) {
    |s| > 0 && forall i :: 0 <= i < |s| ==> IsAsciiAlnum(s[i])
  }

  /** An alphanumeric string contains no whitespace. */
  lemma AlphanumericHasNoSpace(s: string)
    requires IsAlphanumeric(s)
    ensures NoSpace(s)
  {
    forall i | 0 <= i < |s| ensures !IsSpace(s[i]) {
      assert IsAsciiAlnum(s[i]);
    }
  }

  /** The number of characters of `s` that satisfy `p`. */
  function Count(s: string, p: char -> bool): (n: nat)
    ensures n <= |s|
    ensures n > 0 <==> exists i :: 0 <= i < |s| && p(s[i])
  {
    if s == [] then 0 else (if p(s[0]) then 1 else 0) + Count(s[1..], p)
  }

  /** The thresholds of `isStrongPassword(options)`. */
  datatype StrongPasswordOptions = StrongPasswordOptions(
    minLength: nat, minLowercase: nat, minUppercase: nat, minNumbers: nat, minSymbols: nat)

  /** The class a character falls in when the library analyses a password:
      the tests run in the order upper case, lower case, digit, symbol, so a
      character is counted as a symbol only if it is none of the others. */
  predicate CountsAsSymbol(c: char, isSymbol: char -> bool) {
    !IsAsciiUpper(c) && !IsAsciiLower(c) && !IsAsciiDigit(c) && isSymbol(c)
  }

  /** `isStrongPassword(options)` without scoring: the length and each
      character-class count meet their minimum. */
  predicate IsStrongPassword(s: string, o: StrongPasswordOptions, isSymbol: char -> bool) {
    && |s| >= o.minLength
    && Count(s, IsAsciiLower) >= o.minLowercase
    && Count(s, IsAsciiUpper) >= o.minUppercase
    && Count(s, IsAsciiDigit) >= o.minNumbers
    && Count(s, c => CountsAsSymbol(c, isSymbol)) >= o.minSymbols
  }
}
