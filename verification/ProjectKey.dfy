/**
 The project-directory key Claude Code derives from a repository root
 (crates/nession-claude-code/src/memory.rs).

 A root is given by its UTF-16 code units; Unicode normalisation has already happened.
 */
module ProjectKey {
  import opened Numerals
  import opened Sequences

  type Unit = x: int | 0 <= x < 0x1_0000

  const PROJECT_KEY_MAX: nat := 200

  // ---------- 32-bit wrapping arithmetic ----------

  const TWO32: int := 0x1_0000_0000
  const TWO31: int := 0x8000_0000

  type Int32 = x: int | -0x8000_0000 <= x < 0x8000_0000

  /** The 32-bit two's-complement reading of an integer. */
  function Wrap32(x: int): Int32 {
    (x + TWO31) % TWO32 - TWO31
  }

  lemma WrapPeriodic(x: int, k: int)
    ensures Wrap32(x + k * TWO32) == Wrap32(x)
  {}

  /** Wrapping loses only a multiple of 2^32. */
  lemma WrapOffset(x: int) returns (k: int)
    ensures Wrap32(x) == x + k * TWO32
  {
    k := -((x + TWO31) / TWO32);
  }

  /** One round of the hash, wrapping after every operation, is one step of Horner's rule. */
  lemma WrapRound(p: int, u: Unit)
    ensures Wrap32(Wrap32(Wrap32(Wrap32(p) * 32) - Wrap32(p)) + u) == Wrap32(31 * p + u)
  {
    var h: int := Wrap32(p);
    var k0 := WrapOffset(p);
    var k1 := WrapOffset(h * 32);
    var k2 := WrapOffset(Wrap32(h * 32) - h);
    WrapPeriodic(31 * p + u, 31 * k0 + k1 + k2);
  }

  // ---------- hash_utf16 ----------

  /** `u0 * 31^(n-1) + ... + u(n-1)`. */
  function Polynomial(units: seq<Unit>): int {
    if units == [] then 0
    else units[0] * Pow(31, |units| - 1) + Polynomial(units[1..])
  }

  lemma {:induction false} PolynomialSnoc(units: seq<Unit>, u: Unit)
    ensures Polynomial(units + [u]) == 31 * Polynomial(units) + u
  {
    if units == [] {
      assert [u][1..] == [];
      assert Pow(31, 0) == 1;
    } else {
      assert (units + [u])[1..] == units[1..] + [u];
      PolynomialSnoc(units[1..], u);
      var n := |units|;
      assert Pow(31, n) == Pow(31, n - 1) * 31;
      assert units[0] * Pow(31, n) == 31 * (units[0] * Pow(31, n - 1));
    }
  }

  /** `hash_utf16`: shift, subtract, add, each wrapping. */
  method HashUtf16(units: seq<Unit>) returns (hash: Int32)
    ensures hash == Wrap32(Polynomial(units))
  {
    hash := 0;
    for i := 0 to |units|
      invariant hash == Wrap32(Polynomial(units[..i]))
    {
      assert units[..i + 1] == units[..i] + [units[i]];
      PolynomialSnoc(units[..i], units[i]);
      WrapRound(Polynomial(units[..i]), units[i]);
      hash := Wrap32(Wrap32(Wrap32(hash * 32) - hash) + units[i]);
    }
    assert units[..|units|] == units;
  }

  // ---------- base36_abs ----------

  function Abs(v: int): nat {
    if v < 0 then -v else v
  }

  /** The digit loop of `base36_abs`: least significant digit first. */
  method DigitsReversed(n: nat) returns (reversed: seq<nat>)
    requires n > 0
    ensures Rev(reversed) == Digits(n, 36)
  {
    var value := n;
    reversed := [];
    PrintedEnds(n, []);
    while value > 0
      invariant Printed(value, reversed) == Digits(n, 36)
    {
      MoveDigit(value, reversed);
      reversed := reversed + [value % 36];
      value := value / 36;
    }
    PrintedEnds(0, reversed);
  }

  /** `base36_abs`. */
  method Base36Abs(v: Int32) returns (s: string)
    ensures s == Numeral(Abs(v), 36)
  {
    var value: nat := Abs(v);
    if value == 0 {
      return "0";
    }
    var reversed := DigitsReversed(value);
    var digits := Reverse(reversed);
    s := Render(digits);
  }

  /** What is still to be printed, followed by what has been. */
  function Printed(value: nat, reversed: seq<nat>): seq<nat> {
    (if value > 0 then Digits(value, 36) else []) + Rev(reversed)
  }

  lemma PrintedEnds(n: nat, reversed: seq<nat>)
    ensures Printed(0, reversed) == Rev(reversed)
    ensures n > 0 ==> Printed(n, []) == Digits(n, 36)
  {
    assert Rev<nat>([]) == [];
  }

  lemma MoveDigit(value: nat, reversed: seq<nat>)
    requires value > 0
    ensures Printed(value / 36, reversed + [value % 36]) == Printed(value, reversed)
  {
    var d := value % 36;
    assert Rev(reversed + [d]) == [d] + Rev(reversed);
    var front := if value / 36 > 0 then Digits(value / 36, 36) else [];
    assert Digits(value, 36) == front + [d];
    assert front + ([d] + Rev(reversed)) == (front + [d]) + Rev(reversed);
  }

  lemma Base36Length(v: Int32)
    ensures 1 <= |Numeral(Abs(v), 36)| <= 6
  {
    assert Pow(36, 0) == 1 && Pow(36, 1) == 36 && Pow(36, 2) == 1296 && Pow(36, 3) == 46656;
    assert Pow(36, 4) == 1679616 && Pow(36, 5) == 60466176 && Pow(36, 6) == 2176782336;
    LengthBound(Abs(v), 36, 6);
  }

  // ---------- sanitized_project_key ----------

  predicate Alphanumeric(u: Unit) {
    '0' as int <= u <= '9' as int || 'A' as int <= u <= 'Z' as int || 'a' as int <= u <= 'z' as int
  }

  function MaskUnit(u: Unit): char {
    if Alphanumeric(u) then u as char else '-'
  }

  function Mask(raw: seq<Unit>): (s: string)
    ensures |s| == |raw|
    ensures forall i :: 0 <= i < |raw| ==> s[i] == MaskUnit(raw[i])
  {
    seq(|raw|, i requires 0 <= i < |raw| => MaskUnit(raw[i]))
  }

  function KeyHash(raw: seq<Unit>): nat {
    Abs(Wrap32(Polynomial(raw)))
  }

  function Key(raw: seq<Unit>): string {
    if |raw| <= PROJECT_KEY_MAX then Mask(raw)
    else Mask(raw)[..PROJECT_KEY_MAX] + "-" + Numeral(KeyHash(raw), 36)
  }

  method SanitizedProjectKey(raw: seq<Unit>) returns (key: string)
    ensures key == Key(raw)
  {
    var sanitized := "";
    for i := 0 to |raw|
      invariant sanitized == Mask(raw[..i])
    {
      assert raw[..i + 1] == raw[..i] + [raw[i]];
      if Alphanumeric(raw[i]) {
        sanitized := sanitized + [raw[i] as char];
      } else {
        sanitized := sanitized + ['-'];
      }
    }
    assert raw[..|raw|] == raw;
    if |sanitized| <= PROJECT_KEY_MAX {
      return sanitized;
    }
    var hash := HashUtf16(raw);
    var suffix := Base36Abs(hash);
    return sanitized[..PROJECT_KEY_MAX] + "-" + suffix;
  }

  // ---------- what a key is ----------

  predicate KeyChar(c: char) {
    '0' <= c <= '9' || 'A' <= c <= 'Z' || 'a' <= c <= 'z' || c == '-'
  }

  /** A key is one path component: no separator, no dot, and short enough for a directory name. */
  lemma KeyIsOneComponent(raw: seq<Unit>)
    ensures forall i :: 0 <= i < |Key(raw)| ==> KeyChar(Key(raw)[i])
    ensures |Key(raw)| <= 207
    ensures raw != [] ==> Key(raw) != ""
    ensures |Key(raw)| <= PROJECT_KEY_MAX <==> |raw| <= PROJECT_KEY_MAX
  {
    Base36Length(Wrap32(Polynomial(raw)));
    NumeralChars(KeyHash(raw), 36);
  }

  /** The unit of a letter or a digit of ASCII. */
  predicate Kept(u: Unit) {
    48 <= u <= 57 || 65 <= u <= 90 || 97 <= u <= 122
  }

  /** `v` is `x` reduced to 32 signed bits. */
  predicate Reduces(v: int, x: int) {
    -0x8000_0000 <= v < 0x8000_0000 && (v - x) % 0x1_0000_0000 == 0
  }

  lemma WrapReduces(x: int)
    ensures Reduces(Wrap32(x), x)
  {
    var k := WrapOffset(x);
    assert Wrap32(x) - x == k * 0x1_0000_0000;
  }

  lemma KeySuffix(raw: seq<Unit>)
    requires |raw| > 200
    ensures Key(raw)[200..] == "-" + Numeral(KeyHash(raw), 36)
    ensures Key(raw)[..200] == Mask(raw)[..200]
  {}

  /**
   A key, unit by unit: letters and digits stand for themselves and every other unit for a dash;
   past two hundred, a dash and the base-36 numeral of the absolute value of the hash, which is
   the polynomial reduced to 32 signed bits.
   */
  lemma KeyExactly(raw: seq<Unit>)
    ensures var shown := if |raw| <= 200 then |raw| else 200;
            && |Key(raw)| >= shown
            && forall i :: 0 <= i < shown ==>
                             if Kept(raw[i]) then Key(raw)[i] as int == raw[i] else Key(raw)[i] == '-'
    ensures |raw| <= 200 ==> |Key(raw)| == |raw|
    ensures |raw| > 200 ==>
              exists v :: Reduces(v, Polynomial(raw)) && Key(raw)[200..] == "-" + Numeral(if v < 0 then -v else v, 36)
  {
    if |raw| > 200 {
      KeySuffix(raw);
      assert forall i :: 0 <= i < 200 ==> Key(raw)[i] == Key(raw)[..200][i];
      WrapReduces(Polynomial(raw));
      var v: int := Wrap32(Polynomial(raw));
      assert Reduces(v, Polynomial(raw)) && KeyHash(raw) == if v < 0 then -v else v;
    }
  }

  /**
   Exactly when two roots share a key.  Sanitising is not injective, so distinct roots can:
   short roots whenever they differ only in characters that are masked, long roots whenever
   moreover their hashes agree up to sign.
   */
  lemma SharedKey(a: seq<Unit>, b: seq<Unit>)
    ensures Key(a) == Key(b) <==>
              if |a| <= PROJECT_KEY_MAX then
                |b| == |a| && forall i :: 0 <= i < |a| ==> MaskUnit(a[i]) == MaskUnit(b[i])
              else
                && |b| > PROJECT_KEY_MAX
                && (forall i :: 0 <= i < PROJECT_KEY_MAX ==> MaskUnit(a[i]) == MaskUnit(b[i]))
                && KeyHash(a) == KeyHash(b)
  {
    KeyIsOneComponent(a);
    KeyIsOneComponent(b);
    if |a| <= PROJECT_KEY_MAX && |b| <= PROJECT_KEY_MAX {
      SameMask(a, b, |a|);
    }
    if |a| > PROJECT_KEY_MAX && |b| > PROJECT_KEY_MAX {
      NumeralInjective(KeyHash(a), KeyHash(b), 36);
      assert Key(a)[..PROJECT_KEY_MAX] == Mask(a)[..PROJECT_KEY_MAX];
      assert Key(b)[..PROJECT_KEY_MAX] == Mask(b)[..PROJECT_KEY_MAX];
      assert Key(a)[PROJECT_KEY_MAX + 1..] == Numeral(KeyHash(a), 36);
      assert Key(b)[PROJECT_KEY_MAX + 1..] == Numeral(KeyHash(b), 36);
      assert Mask(a)[..PROJECT_KEY_MAX] == Mask(a[..PROJECT_KEY_MAX]);
      assert Mask(b)[..PROJECT_KEY_MAX] == Mask(b[..PROJECT_KEY_MAX]);
      SameMask(a[..PROJECT_KEY_MAX], b[..PROJECT_KEY_MAX], PROJECT_KEY_MAX);
    }
  }

  lemma SameMask(a: seq<Unit>, b: seq<Unit>, n: nat)
    requires |a| == n
    ensures Mask(a) == Mask(b) <==> |b| == n && forall i :: 0 <= i < n ==> MaskUnit(a[i]) == MaskUnit(b[i])
  {
    if Mask(a) == Mask(b) {
      assert |b| == n;
      forall i | 0 <= i < n
        ensures MaskUnit(a[i]) == MaskUnit(b[i])
      {
        assert Mask(a)[i] == Mask(b)[i];
      }
    }
  }

  /** Two repositories that share a key: `/a.b` and `/a/b`. */
  lemma DistinctRootsOneKey()
    ensures var a: seq<Unit> := [47, 97, 46, 98]; var b: seq<Unit> := [47, 97, 47, 98];
            a != b && Key(a) == Key(b)
  {
    var a: seq<Unit> := [47, 97, 46, 98];
    var b: seq<Unit> := [47, 97, 47, 98];
    assert a[2] != b[2];
    SharedKey(a, b);
  }
}
