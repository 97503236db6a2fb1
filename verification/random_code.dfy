/** `randomstring.generate({ length, charset })` with the randomness supplied by
    the caller: `rand(i)` is the i-th random draw, and the i-th character is
    the charset character it selects. */
module RandomCode {

  /** The `'numeric'` charset of the randomstring package. */
  const Numeric: string := "0123456789"

  /** Length of the password-recovery code issued by `sendToken`. */
  const CodeLength: nat := 5

  predicate IsDigit(ch: char) {
    '0' <= ch <= '9'
  }

  /** A well-formed recovery code: exactly five decimal digits. */
  predicate IsRecoveryCode(s: string) {
    |s| == CodeLength && forall i :: 0 <= i < |s| ==> IsDigit(s[i])
  }

  function Generate(rand: nat -> nat, length: nat, charset: string): (s: string)
    requires |charset| > 0
    ensures |s| == length
    ensures forall i :: 0 <= i < |s| ==> s[i] in charset
  {
    seq(length, i requires 0 <= i < length => charset[rand(i) % |charset|])
  }

  /** The code `sendToken` draws: five characters of the numeric charset. */
  function RecoveryCode(rand: nat -> nat): (code: string)
    ensures IsRecoveryCode(code)
  {
    var code := Generate(rand, CodeLength, Numeric);
    assert forall i :: 0 <= i < |code| ==> code[i] in Numeric;
    code
  }

  function DigitValue(ch: char): (n: nat)
    requires IsDigit(ch)
    ensures n < |Numeric| && Numeric[n] == ch
  {
    (ch - '0') as nat
  }

  /** Every five-digit code can be drawn: the generator covers the whole code space. */
  lemma RecoveryCodeCovers(code: string)
    requires IsRecoveryCode(code)
    ensures exists rand: nat -> nat :: RecoveryCode(rand) == code
  {
    var rand: nat -> nat := (i: nat) => if i < |code| then DigitValue(code[i]) else 0;
    assert RecoveryCode(rand) == code;
  }
}
