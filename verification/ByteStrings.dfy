/** Byte strings, and which of them are UTF-8 (section 4 of RFC 3629). */
module ByteStrings {
  import opened Sequences

  newtype byte = x: int | 0 <= x < 256

  type Bytes = seq<byte>

  predicate Continuation(b: byte) {
    0x80 <= b <= 0xBF
  }

  /** How many bytes a character beginning with `lead` takes; zero when none does. */
  function CharWidth(lead: byte): nat {
    if lead <= 0x7F then 1
    else if 0xC2 <= lead <= 0xDF then 2
    else if 0xE0 <= lead <= 0xEF then 3
    else if 0xF0 <= lead <= 0xF4 then 4
    else 0
  }

  predicate SecondByte(lead: byte, second: byte) {
    if lead == 0xE0 then 0xA0 <= second <= 0xBF
    else if lead == 0xED then 0x80 <= second <= 0x9F
    else if lead == 0xF0 then 0x90 <= second <= 0xBF
    else if lead == 0xF4 then 0x80 <= second <= 0x8F
    else Continuation(second)
  }

  predicate CharAtFront(s: Bytes) {
    && s != []
    && var w := CharWidth(s[0]);
    && 0 < w <= |s|
    && (w > 1 ==> SecondByte(s[0], s[1]))
    && forall i :: 1 <= i < w ==> Continuation(s[i])
  }

  predicate Valid(s: Bytes)
    decreases |s|
  {
    s == [] || (CharAtFront(s) && Valid(s[CharWidth(s[0])..]))
  }

  type Utf8 = s: Bytes | Valid(s) witness []

  /** `str::is_char_boundary`. */
  predicate CharBoundary(s: Bytes, i: nat) {
    i == 0 || i == |s| || (i < |s| && !Continuation(s[i]))
  }

  lemma CharPositions(s: Bytes)
    requires s != [] && Valid(s)
    ensures var w := CharWidth(s[0]);
            && (forall i :: 0 < i < w ==> !CharBoundary(s, i))
            && CharBoundary(s, w)
            && (forall i :: w <= i <= |s| ==> (CharBoundary(s, i) <==> CharBoundary(s[w..], i - w)))
  {
    var w := CharWidth(s[0]);
    if w < |s| {
      assert CharAtFront(s[w..]);
      assert s[w..][0] == s[w];
    }
  }

  /** A prefix that holds the first character begins with it. */
  lemma FrontChar(s: Bytes, i: nat)
    requires s != [] && CharAtFront(s) && CharWidth(s[0]) <= i <= |s|
    ensures CharAtFront(s[..i])
  {}

  /** A string cut at a character boundary is two strings. */
  lemma {:induction false} CutValid(s: Bytes, i: nat)
    requires Valid(s) && i <= |s| && CharBoundary(s, i)
    ensures Valid(s[..i]) && Valid(s[i..])
    decreases |s|
  {
    if i == 0 {
      assert s[0..] == s;
    } else {
      CharPositions(s);
      var w := CharWidth(s[0]);
      assert i >= w;
      CutValid(s[w..], i - w);
      SlicesAfter(s, w, i);
      FrontChar(s, i);
    }
  }

  /** A prefix that decodes ends at a character boundary. */
  lemma {:induction false} ValidPrefixBoundary(s: Bytes, i: nat)
    requires Valid(s) && i <= |s| && Valid(s[..i])
    ensures CharBoundary(s, i)
    decreases |s|
  {
    if i > 0 {
      CharPositions(s);
      var w := CharWidth(s[0]);
      assert s[..i][0] == s[0];
      SlicesAfter(s, w, i);
      ValidPrefixBoundary(s[w..], i - w);
    }
  }

  /** A boundary is never more than three bytes back: a character has at most four. */
  lemma {:induction false} BoundaryNear(s: Bytes, m: nat) returns (b: nat)
    requires Valid(s) && m <= |s|
    ensures b <= m <= b + 3 && CharBoundary(s, b)
    decreases |s|
  {
    if s == [] || m < CharWidth(s[0]) {
      b := 0;
    } else {
      CharPositions(s);
      var w := CharWidth(s[0]);
      b := BoundaryNear(s[w..], m - w);
      b := b + w;
    }
  }

  /** The greatest character boundary at or before `m`. */
  function Floor(s: Bytes, m: nat): (b: nat)
    requires m <= |s|
    ensures b <= m && CharBoundary(s, b)
    ensures forall i: nat :: b < i <= m ==> !CharBoundary(s, i)
  {
    if CharBoundary(s, m) then m else Floor(s, m - 1)
  }

  lemma FloorNear(s: Utf8, m: nat)
    requires m <= |s|
    ensures m <= Floor(s, m) + 3
  {
    var b := BoundaryNear(s, m);
  }
}
