/** Go's decimal integer parsing. */
module Numbers {
  import opened Basics

  predicate IsDigit(c: char) { '0' <= c <= '9' }

  function DigitsValue(s: string): nat
    requires forall i | 0 <= i < |s| :: IsDigit(s[i])
  {
    if s == "" then 0
    else
      assert IsDigit(s[|s| - 1]);
      10 * DigitsValue(s[..|s| - 1]) + (s[|s| - 1] as int - '0' as int)
  }

  predicate AllDigits(s: string) { s != "" && forall i | 0 <= i < |s| :: IsDigit(s[i]) }

  /** `strconv.Atoi`: an optional sign, then decimal digits. Values past the machine's int are errors there and out of range here. */
  function Atoi(s: string): Option<int> {
    if AllDigits(s) then Some(DigitsValue(s))
    else if s != "" && (s[0] == '+' || s[0] == '-') && AllDigits(s[1..]) then
      var magnitude: int := DigitsValue(s[1..]);
      Some(if s[0] == '-' then -magnitude else magnitude)
    else None
  }

  /** A text as digits with or without a sign, and the value it then has. */
  predicate Reads(s: string, digits: string, v: int) {
    AllDigits(digits)
    && (((s == digits || s == "+" + digits) && v == DigitsValue(digits)) || (s == "-" + digits && -v == DigitsValue(digits)))
  }

  /** The texts read as an integer, and as which: those and no others. */
  lemma AtoiExactly(s: string, v: int)
    ensures Atoi(s) == Some(v) <==> exists digits :: Reads(s, digits, v)
  {
    if Atoi(s) == Some(v) {
      var digits := if AllDigits(s) then s else s[1..];
      assert s == digits || s == [s[0]] + digits;
      assert Reads(s, digits, v);
    }
    if digits :| Reads(s, digits, v) {
      if s != digits {
        assert (s[0] == '+' || s[0] == '-') && s[1..] == digits && !IsDigit(s[0]);
      }
    }
  }
}
