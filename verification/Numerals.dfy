/**
 Positional numerals, written most significant digit first without a leading zero.
 Base 36 names long project keys; base 10 names request ids and paging cursors.
 */
module Numerals {
  import opened Wrappers

  function Value(digits: seq<nat>, base: nat): nat {
    if digits == [] then 0
    else Value(digits[..|digits| - 1], base) * base + digits[|digits| - 1]
  }

  /** A numeral nobody could write shorter. */
  predicate Canonical(digits: seq<nat>, base: nat) {
    && digits != []
    && (forall i :: 0 <= i < |digits| ==> digits[i] < base)
    && (|digits| > 1 ==> digits[0] != 0)
  }

  function Digits(n: nat, base: nat): (digits: seq<nat>)
    requires base >= 2
    ensures Canonical(digits, base) && (digits[0] == 0 ==> n == 0)
  {
    if n < base then [n]
    else
      Shrinks(n, base);
      Digits(n / base, base) + [n % base]
  }

  lemma Shrinks(n: nat, base: nat)
    requires 2 <= base <= n
    ensures 0 < n / base < n
  {}

  lemma DivMod(n: nat, base: nat)
    requires base >= 1
    ensures (n / base) * base + n % base == n
  {}

  lemma MulAtLeast(d: nat, base: nat)
    requires d >= 1
    ensures d * base >= base
  {
    assert (d - 1) * base >= 0;
  }

  /** Quotient and remainder are the only way to write a number as `q * base + r`. */
  lemma DivModOf(n: nat, q: nat, r: nat, base: nat)
    requires r < base && n == q * base + r
    ensures n / base == q && n % base == r
  {
    var q', r' := n / base, n % base;
    DivMod(n, base);
    assert (q' - q) * base == r - r' by {
      assert (q' - q) * base == q' * base - q * base;
    }
    assert (q - q') * base == -((q' - q) * base);
    if q' > q {
      MulAtLeast(q' - q, base);
    } else if q' < q {
      MulAtLeast(q - q', base);
    }
  }

  lemma {:induction false} ValueOfDigits(n: nat, base: nat)
    requires base >= 2
    ensures Value(Digits(n, base), base) == n
  {
    if n < base {
      assert [n][..0] == [];
    } else {
      Shrinks(n, base);
      DivMod(n, base);
      var front := Digits(n / base, base);
      assert (front + [n % base])[..|front|] == front;
      ValueOfDigits(n / base, base);
    }
  }

  lemma DigitsAppend(front: seq<nat>, q: nat, last: nat, base: nat)
    requires base >= 2 && q > 0 && last < base
    requires front == Digits(q, base)
    ensures front + [last] == Digits(q * base + last, base)
    ensures q * base + last > 0
  {
    MulAtLeast(q, base);
    DivModOf(q * base + last, q, last, base);
  }

  lemma ValueAppend(front: seq<nat>, last: nat, base: nat)
    ensures Value(front + [last], base) == Value(front, base) * base + last
  {
    assert (front + [last])[..|front|] == front;
  }

  /** There is no second canonical numeral for a value. */
  lemma {:induction false} NumeralIsUnique(digits: seq<nat>, base: nat)
    requires base >= 2 && Canonical(digits, base)
    ensures digits == Digits(Value(digits, base), base)
    ensures digits[0] != 0 ==> Value(digits, base) > 0
    decreases |digits|
  {
    var front, last := digits[..|digits| - 1], digits[|digits| - 1];
    assert digits == front + [last];
    ValueAppend(front, last, base);
    if front == [] {
      SingleDigit(last, base);
    } else {
      NumeralIsUnique(front, base);
      var q := Value(front, base);
      assert q > 0 by {
        assert front[0] == digits[0];
      }
      DigitsAppend(front, q, last, base);
    }
  }

  lemma SingleDigit(d: nat, base: nat)
    requires base >= 2 && d < base
    ensures Digits(d, base) == [d] && Value([], base) * base + d == d
  {}

  function Pow(base: nat, k: nat): nat {
    if k == 0 then 1 else Pow(base, k - 1) * base
  }

  lemma DivBelow(n: nat, base: nat, bound: nat)
    requires base >= 1 && n < bound * base
    ensures n / base < bound
  {
    DivMod(n, base);
    var q := n / base;
    assert q * base == bound * base + (q - bound) * base;
    assert q > bound ==> (q - bound) * base >= 0;
  }

  lemma {:induction false} LengthBound(n: nat, base: nat, k: nat)
    requires base >= 2 && k >= 1 && n < Pow(base, k)
    ensures |Digits(n, base)| <= k
  {
    if n >= base {
      Shrinks(n, base);
      DivBelow(n, base, Pow(base, k - 1));
      LengthBound(n / base, base, k - 1);
    }
  }

  // ---------- digits as characters ----------

  function DigitChar(d: nat): char
    requires d < 36
  {
    if d < 10 then '0' + d as char else 'a' + (d - 10) as char
  }

  /** The digits count up from `0`, and after nine from `a`. */
  lemma DigitsInOrder(d: nat)
    requires d + 1 < 36
    ensures DigitChar(0) == '0' && DigitChar(10) == 'a'
    ensures d != 9 ==> DigitChar(d + 1) as int == DigitChar(d) as int + 1
  {}

  function Render(digits: seq<nat>): (s: string)
    requires forall i :: 0 <= i < |digits| ==> digits[i] < 36
    ensures |s| == |digits|
    ensures forall i :: 0 <= i < |s| ==> s[i] == DigitChar(digits[i])
  {
    seq(|digits|, i requires 0 <= i < |digits| => DigitChar(digits[i]))
  }

  function Numeral(n: nat, base: nat): (s: string)
    requires 2 <= base <= 36
    ensures s != ""
  {
    Render(Digits(n, base))
  }

  function CharDigit(c: char): nat {
    if '0' <= c <= '9' then (c - '0') as nat
    else if 'a' <= c <= 'z' then (c - 'a') as nat + 10
    else 36
  }

  function Read(s: string): (digits: seq<nat>)
    ensures |digits| == |s|
    ensures forall i :: 0 <= i < |s| ==> digits[i] == CharDigit(s[i])
  {
    seq(|s|, i requires 0 <= i < |s| => CharDigit(s[i]))
  }

  lemma ReadRender(digits: seq<nat>)
    requires forall i :: 0 <= i < |digits| ==> digits[i] < 36
    ensures Read(Render(digits)) == digits
  {
    forall i | 0 <= i < |digits|
      ensures CharDigit(DigitChar(digits[i])) == digits[i]
    {}
  }

  /** Printing decodes back, so two values print alike only when they are equal. */
  lemma NumeralRoundTrip(n: nat, base: nat)
    requires 2 <= base <= 36
    ensures Value(Read(Numeral(n, base)), base) == n
  {
    ReadRender(Digits(n, base));
    ValueOfDigits(n, base);
  }

  lemma NumeralInjective(m: nat, n: nat, base: nat)
    requires 2 <= base <= 36
    ensures Numeral(m, base) == Numeral(n, base) <==> m == n
  {
    NumeralRoundTrip(m, base);
    NumeralRoundTrip(n, base);
  }

  lemma NumeralChars(n: nat, base: nat)
    requires 2 <= base <= 36
    ensures forall i :: 0 <= i < |Numeral(n, base)| ==>
              var c := Numeral(n, base)[i]; '0' <= c <= '9' || (base > 10 && 'a' <= c <= 'z')
    ensures |Numeral(n, base)| > 1 ==> Numeral(n, base)[0] != '0'
  {
    var d := Digits(n, base);
    forall i | 0 <= i < |d|
      ensures var c := DigitChar(d[i]); '0' <= c <= '9' || (base > 10 && 'a' <= c <= 'z')
    {}
    if |d| > 1 {
      ReadRender(d);
      assert CharDigit('0') == 0;
    }
  }

  // ---------- parsing an unsigned decimal ----------

  const U64_LIMIT: nat := 0x1_0000_0000_0000_0000

  predicate AllDigits(s: string) {
    forall i :: 0 <= i < |s| ==> '0' <= s[i] <= '9'
  }

  /** `str::parse` for a 64-bit unsigned integer: an optional `+`, then digits, in range. */
  function ParseUnsigned(s: string): Option<nat> {
    var body := if |s| > 1 && s[0] == '+' then s[1..] else s;
    if body == "" || !AllDigits(body) then None
    else if Value(Read(body), 10) >= U64_LIMIT then None
    else Some(Value(Read(body), 10))
  }

  predicate Decimal(s: string) {
    s != "" && forall c :: c in s ==> '0' <= c <= '9'
  }

  lemma DecimalAt(s: string)
    ensures Decimal(s) <==> s != "" && AllDigits(s)
  {
    if Decimal(s) {
      forall i | 0 <= i < |s|
        ensures '0' <= s[i] <= '9'
      {
        assert s[i] in s;
      }
    }
  }

  /** `s` is the digits `body`, with or without a plus in front. */
  predicate Signed(s: string, body: string) {
    (s == body || s == "+" + body) && Decimal(body)
  }

  lemma OneBody(s: string, body: string)
    requires Signed(s, body)
    ensures body == if |s| > 1 && s[0] == '+' then s[1..] else s
  {
    assert body[0] in body;
    assert s == "+" + body ==> s[1..] == body;
  }

  /** What parses: digits whose value fits 64 bits, with or without a plus in front. */
  lemma ParseExactly(s: string, n: nat)
    ensures ParseUnsigned(s) == Some(n) <==>
              exists body :: Signed(s, body) && Value(Read(body), 10) == n < U64_LIMIT
  {
    var body := if |s| > 1 && s[0] == '+' then s[1..] else s;
    DecimalAt(body);
    assert s == body || s == "+" + body;
    if ParseUnsigned(s) == Some(n) {
      assert Signed(s, body);
    }
    forall other | Signed(s, other)
      ensures other == body
    {
      OneBody(s, other);
    }
  }

  lemma ParsePrinted(n: nat)
    ensures ParseUnsigned(Numeral(n, 10)) == if n < U64_LIMIT then Some(n) else None
  {
    NumeralChars(n, 10);
    NumeralRoundTrip(n, 10);
  }
}
