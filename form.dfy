/**
  The "new player" form: three text fields (surname, name, year of birth),
  the rule that enables its Save button, the rule that marks the year field
  as erroneous, and what pressing Save hands to the roster.

  Strings are `seq<char>`; the current calendar year is a parameter.
*/
module Form {
  import Roster

  datatype Option<T> = None | Some(value: T)

  /** The bounds of a 32-bit signed `Int`. */
  const MinInt: int := -0x8000_0000
  const MaxInt: int := 0x7FFF_FFFF

  type Int32 = x: int | MinInt <= x <= MaxInt

  /** The earliest accepted year of birth. */
  const MinYear: int := 1900

  /**
    Whitespace as the JVM counts it for `isBlank`: the ASCII controls tab to
    carriage return and U+001C to U+001F, and the space, line and paragraph
    separators of Unicode.
  */
  predicate IsWhitespace(c: char)
  {
    c == ' ' || '\t' <= c <= '\r' || '\U{001C}' <= c <= '\U{001F}' ||
    c == '\U{00A0}' || c == '\U{1680}' || '\U{2000}' <= c <= '\U{200A}' ||
    c == '\U{2028}' || c == '\U{2029}' || c == '\U{202F}' || c == '\U{205F}' || c == '\U{3000}'
  }

  /** Empty, or whitespace only. */
  predicate IsBlank(s: string)
  {
    forall i :: 0 <= i < |s| ==> IsWhitespace(s[i])
  }

  predicate IsDigit(c: char)
  {
    '0' <= c <= '9'
  }

  predicate AllDigits(s: string)
  {
    forall i :: 0 <= i < |s| ==> IsDigit(s[i])
  }

  function DigitValue(c: char): nat
    requires IsDigit(c)
  {
    c as int - '0' as int
  }

  function DigitChar(d: nat): (c: char)
    requires d < 10
    ensures IsDigit(c) && DigitValue(c) == d
  {
    (d + '0' as int) as char
  }

  /** The value of a string of decimal digits, most significant first. */
  function DigitsValue(s: string): nat
    requires AllDigits(s)
  {
    if |s| == 0 then 0 else DigitsValue(s[..|s| - 1]) * 10 + DigitValue(s[|s| - 1])
  }

  /**
    `String.toIntOrNull()` in base 10: an optional leading '-' or '+',
    then one or more digits, with a value that fits a 32-bit `Int`.
    Surrounding whitespace is not skipped.
  */
  function ToIntOrNull(s: string): (r: Option<int>)
    ensures r.Some? ==> MinInt <= r.value <= MaxInt
    ensures r.Some? ==> |s| > 0 && forall i :: 0 <= i < |s| ==> !IsWhitespace(s[i])
  {
    if |s| == 0 then None
    else
      var negative := s[0] == '-';
      var digits := if s[0] == '-' || s[0] == '+' then s[1..] else s;
      if |digits| == 0 || !AllDigits(digits) then None
      else
        var v: int := if negative then -(DigitsValue(digits) as int) else DigitsValue(digits);
        if MinInt <= v <= MaxInt then
          assert forall i :: 1 <= i < |s| ==> s[i] == s[1..][i - 1];
          Some(v)
        else None
  }

  /** The shortest decimal rendering of a natural number. */
  function NatToDecimal(n: nat): (s: string)
    ensures |s| > 0 && AllDigits(s) && DigitsValue(s) == n
    ensures |s| > 1 ==> s[0] != '0'
  {
    if n < 10 then [DigitChar(n)]
    else
      var front := NatToDecimal(n / 10);
      var s := front + [DigitChar(n % 10)];
      assert s[..|s| - 1] == front;
      s
  }

  /** `Int.toString()`: a '-' before the digits of a negative number. */
  function IntToDecimal(n: int): string
  {
    if n < 0 then "-" + NatToDecimal(-n) else NatToDecimal(n)
  }

  /** Every 32-bit value, written out in decimal, parses back to itself. */
  lemma ParsesDecimal(n: Int32)
    ensures ToIntOrNull(IntToDecimal(n)) == Some(n)
  {
  }

  // ---------------------------------------------------------------------
  // The two rules of the form.

  /** The Save button is enabled when name, surname and year are all non-blank. */
  predicate IsButtonEnabled(name: string, surname: string, yearOfBirth: string)
  {
    !IsBlank(name) && !IsBlank(surname) && !IsBlank(yearOfBirth)
  }

  /** A blank year, or one that parses to a year from 1900 to the current year. */
  predicate IsYearOfBirthValid(yearOfBirth: string, currentYear: Int32)
  {
    IsBlank(yearOfBirth) ||
    (ToIntOrNull(yearOfBirth).Some? &&
     ToIntOrNull(yearOfBirth).value >= MinYear && ToIntOrNull(yearOfBirth).value <= currentYear)
  }

  /**
    How the button rule meets the year rule and Save: with a name and a
    surname filled in, every year that Save can hand on enables the button;
    a blank year keeps the button disabled and shows no error.
  */
  lemma SubmittableYearEnablesButton(name: string, surname: string, yearOfBirth: string, currentYear: Int32)
    ensures !IsBlank(name) && !IsBlank(surname) && Submit(name, surname, yearOfBirth).Submitted? ==>
      IsButtonEnabled(name, surname, yearOfBirth)
    ensures IsBlank(yearOfBirth) ==>
      !IsButtonEnabled(name, surname, yearOfBirth) && IsYearOfBirthValid(yearOfBirth, currentYear) &&
      Submit(name, surname, yearOfBirth) == NumberFormatFailure(yearOfBirth)
  {
  }

  /**
    The year rule without the parser: a blank year is valid, and a
    non-blank one is valid exactly when it is digits, optionally after a
    single '+', whose value lies from 1900 to the current year.  A '-' sign
    never passes, and the 32-bit bound never decides.
  */
  lemma YearValidIff(yearOfBirth: string, currentYear: Int32)
    ensures IsBlank(yearOfBirth) ==> IsYearOfBirthValid(yearOfBirth, currentYear)
    ensures !IsBlank(yearOfBirth) ==>
      (IsYearOfBirthValid(yearOfBirth, currentYear) <==>
        var digits := if yearOfBirth[0] == '+' then yearOfBirth[1..] else yearOfBirth;
        yearOfBirth[0] != '-' && |digits| > 0 && AllDigits(digits) &&
        MinYear <= DigitsValue(digits) <= currentYear)
  {
  }

  /** A year from 1900 to the current year, typed in the usual way, passes the rule. */
  lemma CanonicalYearIsValid(y: int, currentYear: Int32)
    requires MinYear <= y <= currentYear
    ensures IsYearOfBirthValid(IntToDecimal(y), currentYear)
    ensures !IsBlank(IntToDecimal(y))
  {
  }

  // ---------------------------------------------------------------------
  // The label of a text field.

  /** A field in the error state shows its error message in place of its label. */
  function FieldLabel(isError: bool, labelText: string, errorMessage: string): string
  {
    if isError then errorMessage else labelText
  }

  /** The year field is in the error state exactly when the year is not valid. */
  function YearFieldLabel(yearOfBirth: string, currentYear: Int32, labelText: string, errorMessage: string): (shown: string)
    ensures shown == labelText || shown == errorMessage
    ensures IsBlank(yearOfBirth) ==> shown == labelText
    ensures errorMessage != labelText ==> (shown == errorMessage <==> !IsYearOfBirthValid(yearOfBirth, currentYear))
  {
    FieldLabel(!IsYearOfBirthValid(yearOfBirth, currentYear), labelText, errorMessage)
  }

  // ---------------------------------------------------------------------
  // Pressing Save.

  /** What the Save action achieves: the callback is called, or `toInt()` throws. */
  datatype SubmitOutcome =
    | Submitted(name: string, surname: string, yearOfBirth: int)
    | NumberFormatFailure(input: string)

  /**
    Save calls the callback with name, surname and `yearOfBirth.toInt()`, in
    that order; `toInt()` fails where `toIntOrNull()` has no value.
  */
  function Submit(name: string, surname: string, yearOfBirth: string): SubmitOutcome
  {
    match ToIntOrNull(yearOfBirth)
    case None => NumberFormatFailure(yearOfBirth)
    case Some(y) => Submitted(name, surname, y)
  }

  /** A valid, non-blank year reaches the callback as a year from 1900 to the current year. */
  lemma ValidYearSubmits(name: string, surname: string, yearOfBirth: string, currentYear: Int32)
    requires !IsBlank(yearOfBirth) && IsYearOfBirthValid(yearOfBirth, currentYear)
    ensures Submit(name, surname, yearOfBirth).Submitted?
    ensures var out := Submit(name, surname, yearOfBirth);
      out.name == name && out.surname == surname && MinYear <= out.yearOfBirth <= currentYear
  {
  }

  /** A year typed in the usual way reaches the callback unchanged. */
  lemma SubmitDecimalYear(name: string, surname: string, y: Int32)
    ensures Submit(name, surname, IntToDecimal(y)) == Submitted(name, surname, y)
  {
  }

  /**
    Enabling does not imply that the year parses: with "abc" as the year the
    button is enabled, the field shows its error, and Save fails.
  */
  lemma EnabledButUnparsable(name: string, surname: string, currentYear: Int32)
    requires !IsBlank(name) && !IsBlank(surname)
    ensures IsButtonEnabled(name, surname, "abc")
    ensures !IsYearOfBirthValid("abc", currentYear)
    ensures Submit(name, surname, "abc") == NumberFormatFailure("abc")
  {
    assert !IsWhitespace("abc"[0]);
    assert !IsDigit("abc"[0]);
  }

  /**
    The same holds for every correct year followed by a space: the button is
    enabled, the field shows its error, and Save fails.
  */
  lemma PaddedYearEnablesButFails(name: string, surname: string, y: int, currentYear: Int32)
    requires !IsBlank(name) && !IsBlank(surname)
    requires MinYear <= y
    ensures var year := IntToDecimal(y) + " ";
      IsButtonEnabled(name, surname, year) && !IsYearOfBirthValid(year, currentYear) &&
      Submit(name, surname, year) == NumberFormatFailure(year)
  {
    var year := IntToDecimal(y) + " ";
    assert IsDigit(year[0]) && !IsWhitespace(year[0]);
    assert IsWhitespace(year[|year| - 1]);
  }

  /**
    The range check does not block Save either: a parseable year outside
    1900 to the current year shows the error and is still handed on.
  */
  lemma OutOfRangeYearStillSubmits(name: string, surname: string, y: Int32, currentYear: Int32)
    requires !IsBlank(name) && !IsBlank(surname)
    requires y < MinYear || y > currentYear
    ensures IsButtonEnabled(name, surname, IntToDecimal(y))
    ensures !IsYearOfBirthValid(IntToDecimal(y), currentYear)
    ensures Submit(name, surname, IntToDecimal(y)) == Submitted(name, surname, y)
  {
  }

  /** The guard Save evidently needs: the button rule and the year rule together. */
  predicate IsSaveAllowed(name: string, surname: string, yearOfBirth: string, currentYear: Int32)
  {
    IsButtonEnabled(name, surname, yearOfBirth) && IsYearOfBirthValid(yearOfBirth, currentYear)
  }

  /** Under that guard Save always succeeds, with a year in range, and only then. */
  lemma SaveAllowedIff(name: string, surname: string, yearOfBirth: string, currentYear: Int32)
    ensures IsSaveAllowed(name, surname, yearOfBirth, currentYear) <==>
      IsButtonEnabled(name, surname, yearOfBirth) &&
      Submit(name, surname, yearOfBirth).Submitted? &&
      MinYear <= Submit(name, surname, yearOfBirth).yearOfBirth <= currentYear
  {
  }

  // ---------------------------------------------------------------------
  // The form's own state.

  class NewPlayerForm {
    var name: string
    var surname: string
    var yearOfBirth: string

    /** All three fields start empty, so Save starts disabled and no error is shown. */
    constructor ()
      ensures name == "" && surname == "" && yearOfBirth == ""
      ensures !IsButtonEnabled(name, surname, yearOfBirth)
      ensures forall currentYear: Int32 :: IsYearOfBirthValid(yearOfBirth, currentYear)
    {
      name, surname, yearOfBirth := "", "", "";
    }

    method OnSurnameChange(value: string)
      modifies this
      ensures surname == value && name == old(name) && yearOfBirth == old(yearOfBirth)
    {
      surname := value;
    }

    method OnNameChange(value: string)
      modifies this
      ensures name == value && surname == old(surname) && yearOfBirth == old(yearOfBirth)
    {
      name := value;
    }

    method OnYearOfBirthChange(value: string)
      modifies this
      ensures yearOfBirth == value && name == old(name) && surname == old(surname)
    {
      yearOfBirth := value;
    }

    /**
      The Save button's action with the roster's `AddPlayer` as the callback.
      It can only be pressed while enabled.  When the year parses, the roster
      gains one addition with name, surname and year in that order; when it
      does not, the roster is untouched.
    */
    method Save(vm: Roster.TeamViewModel) returns (outcome: SubmitOutcome)
      requires vm.Valid() && IsButtonEnabled(name, surname, yearOfBirth)
      modifies vm
      ensures vm.Valid()
      ensures outcome.Submitted? <==> ToIntOrNull(yearOfBirth).Some?
      ensures outcome.Submitted? ==>
        outcome == Submitted(name, surname, ToIntOrNull(yearOfBirth).value) &&
        vm.history == old(vm.history) + [Roster.Add(name, surname, outcome.yearOfBirth)] &&
        vm.players == old(vm.players) + [Roster.Player(|old(vm.players)| + 1, name, surname, outcome.yearOfBirth)]
      ensures outcome.NumberFormatFailure? ==> vm.players == old(vm.players) && vm.history == old(vm.history)
    {
      outcome := Submit(name, surname, yearOfBirth);
      if outcome.Submitted? {
        vm.AddPlayer(outcome.name, outcome.surname, outcome.yearOfBirth);
      }
    }
  }
}
