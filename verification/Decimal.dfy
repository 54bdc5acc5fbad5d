/** Decimal notation of natural numbers, as `str`, `json.dumps` and `int` write and read it. */
module Decimal {
  import opened Wrappers

  function Digit(d: nat): char
    requires d < 10
  {
    ('0' as int + d) as char
  }

  predicate IsDigit(c: char) {
    '0' <= c <= '9'
  }

  predicate AllDigits(s: string) {
    s != "" && forall i :: 0 <= i < |s| ==> IsDigit(s[i])
  }

  /** `str(n)` */
  function Show(n: nat): string {
    if n < 10 then [Digit(n)] else Show(n / 10) + [Digit(n % 10)]
  }

  /** The value of a digit string; a character that is no digit counts as 0. */
  function Value(s: string): nat {
    if s == "" then 0
    else
      var c := s[|s| - 1];
      10 * Value(s[..|s| - 1]) + if IsDigit(c) then c as int - '0' as int else 0
  }

  /** Reading back what was shown; and what is shown is canonical, without leading zeros. */
  lemma {:induction false} ShowValue(n: nat)
    ensures AllDigits(Show(n)) && Value(Show(n)) == n
    ensures |Show(n)| > 1 ==> Show(n)[0] != '0'
  {
    if n < 10 {
      assert Show(n)[..0] == "";
    } else {
      ShowValue(n / 10);
      var s := Show(n);
      assert s[..|s| - 1] == Show(n / 10);
      assert s[0] == Show(n / 10)[0];
      if |Show(n / 10)| == 1 { assert Show(n / 10)[0] == Digit(n / 10); }
    }
  }

  /**
   `int(s)` for the digit strings this model writes; every other text `int` accepts or
   refuses (signs, blanks, underscores, non-ASCII digits) is left to `other`.
   */
  function PythonInt(other: string -> Option<int>, s: string): Option<int> {
    if AllDigits(s) then Some(Value(s)) else other(s)
  }
}
