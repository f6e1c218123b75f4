/** Reversal of vectors, which the readers here collect back to front, and splitting on a separator. */
module Sequences {

  function Rev<T>(s: seq<T>): (r: seq<T>)
    ensures |r| == |s|
    ensures forall i :: 0 <= i < |s| ==> r[i] == s[|s| - 1 - i]
  {
    seq(|s|, i requires 0 <= i < |s| => s[|s| - 1 - i])
  }

  lemma RevConcat<T>(a: seq<T>, b: seq<T>)
    ensures Rev(a + b) == Rev(b) + Rev(a)
  {}

  method Reverse<T>(s: seq<T>) returns (r: seq<T>)
    ensures r == Rev(s) && Rev(r) == s
  {
    r := [];
    for i := 0 to |s|
      invariant r == Rev(s[..i])
    {
      r := [s[i]] + r;
    }
    assert s[..|s|] == s;
  }

  /** A slice of what follows `w`, counted from `w` or from the start. */
  lemma SlicesAfter<T>(s: seq<T>, w: nat, i: nat)
    requires w <= i <= |s|
    ensures s[w..][..i - w] == s[..i][w..]
    ensures s[w..][i - w..] == s[i..]
  {}

  lemma SliceOfSlice<T>(s: seq<T>, a: nat, b: nat)
    requires a + b <= |s|
    ensures s[a..][b..] == s[a + b..]
  {}

  lemma ConcatAssociates<T>(a: seq<T>, b: seq<T>, c: seq<T>)
    ensures (a + b) + c == a + (b + c)
  {}

  // ---------- splitting on a separator ----------

  /** `split`: the pieces between separators, never an empty list. */
  function Split<T(==)>(s: seq<T>, sep: T): (pieces: seq<seq<T>>)
    ensures |pieces| >= 1
  {
    if s == [] then [[]]
    else if s[0] == sep then [[]] + Split(s[1..], sep)
    else
      var rest := Split(s[1..], sep);
      [[s[0]] + rest[0]] + rest[1..]
  }

  predicate EndsWith<T(==)>(s: seq<T>, sep: T) {
    s != [] && s[|s| - 1] == sep
  }

  lemma {:induction false} SplitNoSeparator<T>(s: seq<T>, sep: T)
    requires sep !in s
    ensures Split(s, sep) == [s]
  {
    if s != [] {
      SplitNoSeparator(s[1..], sep);
      assert [s[0]] + s[1..] == s;
    }
  }

  lemma {:induction false} SplitEndsWithLong<T>(s: seq<T>, sep: T)
    requires EndsWith(s, sep)
    ensures |Split(s, sep)| >= 2
  {
    if s[0] != sep {
      SplitEndsWithLong(s[1..], sep);
    }
  }

  /** A separator between two strings separates their pieces. */
  lemma {:induction false} SplitJoin<T>(x: seq<T>, y: seq<T>, sep: T)
    ensures Split(x + [sep] + y, sep) == Split(x, sep) + Split(y, sep)
  {
    if x == [] {
      assert (x + [sep] + y)[1..] == y;
    } else {
      assert (x + [sep] + y)[1..] == x[1..] + [sep] + y;
      SplitJoin(x[1..], y, sep);
    }
  }

  /** Splitting is compositional after a separator. */
  lemma SplitConcat<T>(x: seq<T>, y: seq<T>, sep: T)
    requires x == [] || EndsWith(x, sep)
    ensures Split(x + y, sep) == Split(x, sep)[..|Split(x, sep)| - 1] + Split(y, sep)
  {
    if x == [] {
      assert x + y == y;
    } else {
      var x' := x[..|x| - 1];
      assert x == x' + [sep] + [] && x + y == x' + [sep] + y;
      SplitJoin(x', [], sep);
      SplitJoin(x', y, sep);
    }
  }

  lemma {:induction false} SplitPrefix<T>(x: seq<T>, y: seq<T>, sep: T)
    requires sep !in x && y != [] && y[0] == sep
    ensures Split(x + y, sep) == [x] + Split(y[1..], sep)
  {
    if x == [] {
      assert x + y == y;
    } else {
      assert (x + y)[1..] == x[1..] + y;
      SplitPrefix(x[1..], y, sep);
      assert [x[0]] + x[1..] == x;
    }
  }
}
