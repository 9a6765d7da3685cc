/**
 * The score read-out shared by both mini-games: `score.toString().padStart(4, '0')`.
 * `ToDecimal` is JavaScript's `toString` on a non-negative integer, `PadStart` is
 * `String.prototype.padStart` with a one-character filler, and `ParseDecimal`
 * reads a run of decimal digits back, so that the read-out can be shown to
 * still denote the score.
 */
module ScoreDisplay {

  /** Width of the score read-out, in characters. */
  const ScoreWidth: nat := 4

  predicate IsDigit(c: char) {
    '0' <= c <= '9'
  }

  predicate AllDigits(s: string) {
    forall i :: 0 <= i < |s| ==> IsDigit(s[i])
  }

  function DigitChar(d: nat): (c: char)
    requires d < 10
    ensures IsDigit(c)
  {
    ('0' as int + d) as char
  }

  function DigitValue(c: char): (d: nat)
    requires IsDigit(c)
    ensures d < 10
  {
    c as int - '0' as int
  }

  /** Decimal notation of `n`, most significant digit first, no leading zero. */
  function ToDecimal(n: nat): (s: string)
    ensures |s| >= 1 && AllDigits(s)
    ensures |s| > 1 ==> s[0] != '0'
    ensures n < 10 <==> |s| == 1
    decreases n
  {
    if n < 10 then [DigitChar(n)] else ToDecimal(n / 10) + [DigitChar(n % 10)]
  }

  /** The value of a run of decimal digits; leading zeros are allowed. */
  function ParseDecimal(s: string): nat
    requires AllDigits(s)
  {
    if s == [] then 0 else ParseDecimal(s[..|s| - 1]) * 10 + DigitValue(s[|s| - 1])
  }

  /** `k` copies of the filler character. */
  function Fill(k: nat, fill: char): (r: string)
    ensures |r| == k && forall i :: 0 <= i < k ==> r[i] == fill
  {
    seq(k, _ => fill)
  }

  /** `s.padStart(width, fill)` for a one-character `fill`. */
  function PadStart(s: string, width: nat, fill: char): (r: string)
    ensures |r| == if |s| >= width then |s| else width
    ensures r[|r| - |s|..] == s
    ensures forall i :: 0 <= i < |r| - |s| ==> r[i] == fill
  {
    if |s| >= width then s else Fill(width - |s|, fill) + s
  }

  /** The read-out a mini-game shows for `score`. */
  function ScoreText(score: nat): (r: string)
    ensures |r| == if |ToDecimal(score)| >= ScoreWidth then |ToDecimal(score)| else ScoreWidth
    ensures AllDigits(r) && ParseDecimal(r) == score
  {
    var digits := ToDecimal(score);
    var r := PadStart(digits, ScoreWidth, '0');
    ParseToDecimal(score);
    if |digits| >= ScoreWidth then r
    else LeadingZeros(ScoreWidth - |digits|, digits); r
  }

  /** Reading back the decimal notation of `n` gives `n`. */
  lemma {:induction false} ParseToDecimal(n: nat)
    ensures ParseDecimal(ToDecimal(n)) == n
    decreases n
  {
    var s := ToDecimal(n);
    if n < 10 {
      assert s[..0] == [];
    } else {
      ParseToDecimal(n / 10);
      assert s[..|s| - 1] == ToDecimal(n / 10);
    }
  }

  /** Zeros put in front of a run of digits do not change its value. */
  lemma {:induction false} LeadingZeros(k: nat, s: string)
    requires AllDigits(s)
    ensures AllDigits(Fill(k, '0') + s)
    ensures ParseDecimal(Fill(k, '0') + s) == ParseDecimal(s)
    decreases |s|
  {
    var z := Fill(k, '0');
    if s == [] {
      assert z + s == z;
      ZerosAreZero(k);
    } else {
      var init := s[..|s| - 1];
      LeadingZeros(k, init);
      assert (z + s)[..|z + s| - 1] == z + init;
      assert (z + s)[|z + s| - 1] == s[|s| - 1];
    }
  }

  lemma {:induction false} ZerosAreZero(k: nat)
    ensures ParseDecimal(Fill(k, '0')) == 0
  {
    if k > 0 {
      ZerosAreZero(k - 1);
      assert Fill(k, '0')[..k - 1] == Fill(k - 1, '0');
    }
  }
}
