/** Password hashing and the six-digit recovery code (src/services/authService.ts).

    bcrypt is a foreign library and is not modelled: `Hash` and `Check` are a
    stand-in pair that assumes a hash checks against exactly the password it was
    made from. Real bcrypt ignores the bytes past the 72nd of the password. */
module Credentials {

  /** A stored password hash; `cost` is bcrypt's cost factor. */
  datatype PasswordHash = Bcrypt(cost: nat, secret: string)

  /** The cost factor the source passes to `bcrypt.hash`. */
  const HashCost: nat := 10

  /** `bcrypt.compare(password, hash)`. */
  predicate Check(password: string, h: PasswordHash): (ok: bool)
    ensures ok <==> h == Bcrypt(h.cost, password)
  {
    h.secret == password
  }

  /** `bcrypt.hash(password, 10)`. */
  function Hash(password: string): (h: PasswordHash)
    ensures h.cost == HashCost
    ensures forall other :: Check(other, h) <==> other == password
  {
    Bcrypt(HashCost, password)
  }

  predicate IsDigit(c: char) {
    '0' <= c <= '9'
  }

  predicate AllDigits(s: string) {
    forall i :: 0 <= i < |s| ==> IsDigit(s[i])
  }

  function DigitChar(d: nat): (c: char)
    requires d < 10
    ensures IsDigit(c) && c as int - '0' as int == d
  {
    (d + '0' as int) as char
  }

  /** `n.toString()` for a non-negative integer: decimal, no leading zeros. */
  function Decimal(n: nat): (s: string)
    ensures |s| > 0 && AllDigits(s)
    ensures n >= 10 ==> s[0] != '0'
    decreases n
  {
    if n < 10 then [DigitChar(n)] else Decimal(n / 10) + [DigitChar(n % 10)]
  }

  /** The number a string of decimal digits denotes. */
  function ValueOf(s: string): nat
    requires AllDigits(s)
  {
    if s == [] then 0 else 10 * ValueOf(s[..|s| - 1]) + (s[|s| - 1] as int - '0' as int)
  }

  function Pow10(k: nat): (p: nat)
    ensures p >= 1
  {
    if k == 0 then 1 else 10 * Pow10(k - 1)
  }

  /** Reading back the decimal form of `n` gives `n`. */
  lemma {:induction false} DecimalRoundTrip(n: nat)
    ensures ValueOf(Decimal(n)) == n
  {
    if n >= 10 {
      DecimalRoundTrip(n / 10);
      var s := Decimal(n);
      assert s[..|s| - 1] == Decimal(n / 10);
    }
  }

  /** A number with k + 1 digits prints as k + 1 characters. */
  lemma {:induction false} DecimalLength(n: nat, k: nat)
    requires Pow10(k) <= n < Pow10(k + 1)
    ensures |Decimal(n)| == k + 1
  {
    if k > 0 {
      assert Pow10(k) == 10 * Pow10(k - 1);
      assert Pow10(k + 1) == 10 * Pow10(k);
      DecimalLength(n / 10, k - 1);
    }
  }

  const CodeFloor: nat := 100000
  const CodeSpan: nat := 900000

  /** `Math.floor(100000 + Math.random() * 900000).toString()`, where `draw`
      stands for `Math.floor(Math.random() * 900000)`. */
  function RecoveryCode(draw: nat): (code: string)
    requires draw < CodeSpan
    ensures |code| == 6 && AllDigits(code) && code[0] != '0'
    ensures ValueOf(code) == CodeFloor + draw
  {
    assert Pow10(5) == CodeFloor && Pow10(6) == CodeFloor + CodeSpan;
    DecimalLength(CodeFloor + draw, 5);
    DecimalRoundTrip(CodeFloor + draw);
    Decimal(CodeFloor + draw)
  }
}
