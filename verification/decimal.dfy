/** Decimal rendering of the numeric ids the roadmap generator gives new nodes (`f"{k}"`). */
module Decimal {

  function DigitChar(d: nat): (c: char)
    requires d < 10
    ensures '0' <= c <= '9'
  {
    "0123456789"[d]
  }

  function DigitValue(c: char): nat
    requires '0' <= c <= '9'
  {
    (c as int - '0' as int) as nat
  }

  /** Python's `str(k)` for a non-negative integer: no leading zeros, at least one digit. */
  function NatToString(k: nat): (s: string)
    ensures |s| >= 1
    ensures forall i :: 0 <= i < |s| ==> '0' <= s[i] <= '9'
    ensures (k < 10) == (|s| == 1)
    ensures s[0] == '0' ==> k == 0
  {
    if k < 10 then [DigitChar(k)] else NatToString(k / 10) + [DigitChar(k % 10)]
  }

  /** Reads a string of decimal digits back as a number. */
  function ParseNat(s: string): nat
    requires forall i :: 0 <= i < |s| ==> '0' <= s[i] <= '9'
  {
    if s == [] then 0 else ParseNat(s[..|s| - 1]) * 10 + DigitValue(s[|s| - 1])
  }

  /** Rendering then reading gives the number back. */
  lemma {:induction false} ParseRendered(k: nat)
    ensures ParseNat(NatToString(k)) == k
  {
    var s := NatToString(k);
    if k < 10 {
      assert s[..0] == [];
    } else {
      assert s[..|s| - 1] == NatToString(k / 10);
      ParseRendered(k / 10);
    }
  }

  /** Distinct numbers are rendered as distinct ids. */
  lemma RenderInjective(a: nat, b: nat)
    requires a != b
    ensures NatToString(a) != NatToString(b)
  {
    ParseRendered(a);
    ParseRendered(b);
  }
}
