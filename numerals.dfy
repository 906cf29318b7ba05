/** Python's `int(s)` on a base-10 string that has already been stripped,
    and `str(n)`, which note.py uses to number the section menu. */
module PyInt {
  import opened Options

  predicate IsDigit(c: char) { '0' <= c <= '9' }

  /** The digit part `int()` accepts: digits, with single underscores
      allowed between two digits. */
  predicate WellFormedDigits(d: string) {
    |d| > 0 && forall i :: 0 <= i < |d| ==> NumeralCharAt(d, i)
  }

  predicate NumeralCharAt(d: string, i: nat)
    requires i < |d|
  {
    IsDigit(d[i]) || (d[i] == '_' && 0 < i < |d| - 1 && IsDigit(d[i - 1]) && IsDigit(d[i + 1]))
  }

  lemma NumeralChars(d: string)
    requires WellFormedDigits(d)
    ensures forall i :: 0 <= i < |d| ==> IsDigit(d[i]) || d[i] == '_'
  {
    forall i | 0 <= i < |d| ensures IsDigit(d[i]) || d[i] == '_' {
      assert NumeralCharAt(d, i);
    }
  }

  /** The value of a digit string, underscores ignored. */
  function DigitsValue(d: string): nat {
    if d == [] then 0
    else if IsDigit(d[|d| - 1]) then DigitsValue(d[..|d| - 1]) * 10 + (d[|d| - 1] as int - '0' as int)
    else DigitsValue(d[..|d| - 1])
  }

  /** `int(s)`: `None` where Python raises `ValueError`. */
  function ParseInt(s: string): (r: Option<int>)
    ensures s == [] ==> r.None?
    ensures r.Some? ==> forall i :: 0 <= i < |s| ==>
              IsDigit(s[i]) || s[i] == '_' || (i == 0 && (s[i] == '+' || s[i] == '-'))
    ensures r.Some? && r.value < 0 ==> s[0] == '-'
  {
    if |s| > 0 && (s[0] == '+' || s[0] == '-') then
      var d := s[1..];
      if WellFormedDigits(d) then
        var v: int := DigitsValue(d);
        NumeralChars(d);
        assert forall i :: 1 <= i < |s| ==> s[i] == d[i - 1];
        Some(if s[0] == '-' then -v else v)
      else None
    else if WellFormedDigits(s) then NumeralChars(s); Some(DigitsValue(s))
    else None
  }

  function DigitChar(n: nat): char
    requires n < 10
  {
    ('0' as int + n) as char
  }

  /** `str(n)` for a natural number: decimal, no leading zeros. */
  function ShowNat(n: nat): string {
    if n < 10 then [DigitChar(n)] else ShowNat(n / 10) + [DigitChar(n % 10)]
  }

  /** `str(i)` */
  function ShowInt(i: int): string {
    if i < 0 then "-" + ShowNat(-i) else ShowNat(i)
  }

  lemma DigitsAreWellFormed(d: string)
    requires |d| > 0 && forall i :: 0 <= i < |d| ==> IsDigit(d[i])
    ensures WellFormedDigits(d)
  {
    forall i | 0 <= i < |d| ensures NumeralCharAt(d, i) { }
  }

  lemma {:induction false} ShowNatDigits(n: nat)
    ensures |ShowNat(n)| > 0
    ensures forall i :: 0 <= i < |ShowNat(n)| ==> IsDigit(ShowNat(n)[i])
    ensures DigitsValue(ShowNat(n)) == n
  {
    if n >= 10 {
      ShowNatDigits(n / 10);
      var s := ShowNat(n);
      assert s[..|s| - 1] == ShowNat(n / 10);
    }
  }

  /** `int(str(i)) == i`: the number printed in front of a menu entry
      reads back as that number. */
  lemma ParseShowInt(i: int)
    ensures ParseInt(ShowInt(i)) == Some(i)
  {
    var n: nat := if i < 0 then -i else i;
    ShowNatDigits(n);
    DigitsAreWellFormed(ShowNat(n));
    assert IsDigit(ShowNat(n)[0]);
    if i < 0 {
      assert ShowInt(i)[1..] == ShowNat(n);
    }
  }
}
