/**
 The djb2 hash of a DOM key code (packages/desktop/src/keybindManager.ts, lines
 51-58). JavaScript's shift and bitwise-or truncate to a signed 32-bit integer,
 its addition is exact up to 2^53, and `>>> 0` reads the bits as unsigned.
 */
module Djb2 {
  const TWO32: int := 0x1_0000_0000
  const TWO31: int := 0x8000_0000
  const TWO53: int := 0x20_0000_0000_0000
  const SEED: int := 5381

  /** One UTF-16 code unit, as charCodeAt returns it. */
  type CodeUnit = unit: int | 0 <= unit < 0x1_0000

  predicate Signed32(x: int) {
    -TWO31 <= x < TWO31
  }

  function ToInt32(x: int): int {
    (x + TWO31) % TWO32 - TWO31
  }

  function ToUint32(x: int): int {
    x % TWO32
  }

  /** (hash << 5) + hash + code unit, before the final truncation. */
  function WideStep(hash: int, unit: CodeUnit): int {
    ToInt32(hash * 32) + hash + unit
  }

  function Pow33(n: nat): int {
    if n == 0 then 1 else 33 * Pow33(n - 1)
  }

  /** s[0] * 33^(n-1) + ... + s[n-1] */
  function Digits(code: seq<CodeUnit>): int {
    if code == [] then 0 else code[0] * Pow33(|code| - 1) + Digits(code[1..])
  }

  /** The base-33 polynomial seeded with 5381. */
  function Polynomial(code: seq<CodeUnit>): int {
    5381 * Pow33(|code|) + Digits(code)
  }

  lemma {:induction false} DigitsOfMore(code: seq<CodeUnit>, unit: CodeUnit)
    ensures Digits(code + [unit]) == 33 * Digits(code) + unit
  {
    var more := code + [unit];
    if code == [] {
      assert more[1..] == [];
    } else {
      DigitsOfMore(code[1..], unit);
      assert more[1..] == code[1..] + [unit];
      var d, p := code[0], Pow33(|code| - 1);
      assert Pow33(|code|) == 33 * p;
      assert Digits(more) == d * (33 * p) + Digits(more[1..]);
      assert d * (33 * p) == 33 * (d * p);
    }
  }

  lemma PolynomialOfMore(code: seq<CodeUnit>, unit: CodeUnit)
    ensures Polynomial(code + [unit]) == 33 * Polynomial(code) + unit
  {
    DigitsOfMore(code, unit);
    assert Pow33(|code| + 1) == 33 * Pow33(|code|);
  }

  /** Truncation keeps the residue and lands in range. */
  lemma TruncationKeepsResidue(x: int)
    ensures Signed32(ToInt32(x)) && exists k :: ToInt32(x) == x + k * TWO32
  {
    var k := -((x + TWO31) / TWO32);
    assert ToInt32(x) == x + k * TWO32;
  }

  lemma SameResidue(x: int, y: int, k: int)
    requires x == y + k * TWO32
    ensures x % TWO32 == y % TWO32
  {
  }

  /** One loop iteration keeps the residue modulo 2^32 and never leaves exact integer range. */
  lemma StepKeepsResidue(hash: int, value: int, unit: CodeUnit)
    requires Signed32(hash) && hash % TWO32 == value % TWO32
    ensures Signed32(ToInt32(hash * 32)) && -TWO53 < WideStep(hash, unit) < TWO53
    ensures Signed32(ToInt32(WideStep(hash, unit)))
    ensures ToInt32(WideStep(hash, unit)) % TWO32 == (33 * value + unit) % TWO32
  {
    TruncationKeepsResidue(hash * 32);
    var k :| ToInt32(hash * 32) == hash * 32 + k * TWO32;
    TruncationKeepsResidue(WideStep(hash, unit));
    var l :| ToInt32(WideStep(hash, unit)) == WideStep(hash, unit) + l * TWO32;
    var m := hash / TWO32 - value / TWO32;
    assert hash == value + m * TWO32;
    SameResidue(ToInt32(WideStep(hash, unit)), 33 * value + unit, 33 * m + k + l);
  }

  lemma HashStep(hash: int, code: seq<CodeUnit>, i: nat)
    requires i < |code| && Signed32(hash) && hash % TWO32 == Polynomial(code[..i]) % TWO32
    ensures var next := ToInt32(ToInt32(hash * 32) + hash + code[i]);
            Signed32(next) && next % TWO32 == Polynomial(code[..i + 1]) % TWO32
  {
    hide Polynomial, ToInt32, Signed32;
    StepKeepsResidue(hash, Polynomial(code[..i]), code[i]);
    PolynomialOfMore(code[..i], code[i]);
    assert code[..i + 1] == code[..i] + [code[i]];
  }

  /** For every string the 32-bit loop computes the polynomial modulo 2^32. */
  method Hash(code: seq<CodeUnit>) returns (result: int)
    ensures result == Polynomial(code) % TWO32
    ensures 0 <= result < TWO32
  {
    var hash := SEED;
    assert code[..0] == [] && Polynomial([]) == SEED;
    hide ToInt32, Polynomial, Signed32;
    for i := 0 to |code|
      invariant Signed32(hash)
      invariant hash % TWO32 == Polynomial(code[..i]) % TWO32
    {
      HashStep(hash, code, i);
      hash := ToInt32(ToInt32(hash * 32) + hash + code[i]);
    }
    assert code[..|code|] == code;
    result := ToUint32(hash);
  }
}
