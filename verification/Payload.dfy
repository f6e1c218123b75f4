/**
 Bounding bodies for the wire (crates/nession-claude-code/src/payload.rs).

 One budget is threaded through every body of a page.  A body is cut to what its own
 ceiling and the remaining budget allow, on a character boundary, and is never dropped.
 */
module Payload {
  import opened ByteStrings

  datatype Payload = Payload(text: Utf8, isJson: bool, truncated: bool)

  datatype PayloadKind = Json | Text

  datatype PayloadV1 = PayloadV1(text: Utf8, kind: PayloadKind, truncated: bool)

  function Min(a: nat, b: nat): nat {
    if a < b then a else b
  }

  // ---------- truncate_bytes ----------

  function Cut(s: Utf8, max: nat): (t: Utf8)
    ensures |t| <= max
  {
    if |s| <= max then s
    else
      CutValid(s, Floor(s, max));
      s[..Floor(s, max)]
  }

  /** `truncate_bytes`: walk back from `max` to a character boundary. */
  method TruncateBytes(s: Utf8, max: nat) returns (t: Utf8, cut: bool)
    ensures t == Cut(s, max)
    ensures cut <==> |s| > max
  {
    if |s| <= max {
      return s, false;
    }
    var at: nat := max;
    while at > 0 && !CharBoundary(s, at)
      invariant at <= max
      invariant Floor(s, at) == Floor(s, max)
    {
      at := at - 1;
    }
    CutValid(s, at);
    return s[..at], true;
  }

  /** The cut is the longest prefix that fits and decodes, and wastes at most three bytes. */
  lemma CutIsLongest(s: Utf8, max: nat, p: Bytes)
    ensures Cut(s, max) <= s
    ensures |s| <= max ==> Cut(s, max) == s
    ensures |s| > max ==> max <= |Cut(s, max)| + 3
    ensures p <= s && Valid(p) && |p| <= max ==> p <= Cut(s, max)
  {
    if |s| > max {
      FloorNear(s, max);
      if p <= s && Valid(p) && |p| <= max {
        assert p == s[..|p|];
        ValidPrefixBoundary(s, |p|);
        assert |p| <= Floor(s, max);
      }
    }
  }

  // ---------- spend ----------

  /** What travels of a body when `allowed` bytes may. */
  function Carried(p: Payload, allowed: nat): PayloadV1 {
    PayloadV1(
      Cut(p.text, allowed),
      if p.isJson then Json else Text,
      p.truncated || |p.text| > allowed)
  }

  class Budget {
    var left: nat

    constructor (left: nat)
      ensures this.left == left
    {
      this.left := left;
    }

    /** `spend`: the page pays for exactly what travelled. */
    method Spend(p: Payload, ceiling: nat) returns (body: PayloadV1)
      modifies this
      ensures body == Carried(p, Min(ceiling, old(left)))
      ensures left + |body.text| == old(left)
    {
      var allowed := Min(ceiling, left);
      var text, cut := TruncateBytes(p.text, allowed);
      left := left - |text|;
      body := PayloadV1(text, if p.isJson then Json else Text, p.truncated || cut);
    }
  }

  // ---------- a page of bodies ----------

  /** One body a page has to carry; `both` when both projections carry it. */
  datatype Demand = Demand(payload: Payload, ceiling: nat, both: bool)

  /** The budget after one body. */
  function After(text: Utf8, ceiling: nat, left: nat): nat {
    left - |Cut(text, Min(ceiling, left))|
  }

  /** What remains of the budget once the demands have been met in order. */
  function Remaining(ds: seq<Demand>, budget: nat): (left: nat)
    ensures left <= budget
  {
    if ds == [] then budget
    else Remaining(ds[1..], After(ds[0].payload.text, ds[0].ceiling, budget))
  }

  /** The bodies that travel, in order. */
  function Bodies(ds: seq<Demand>, budget: nat): (bodies: seq<PayloadV1>)
    ensures |bodies| == |ds|
  {
    if ds == [] then []
    else
      [Carried(ds[0].payload, Min(ds[0].ceiling, budget))]
      + Bodies(ds[1..], After(ds[0].payload.text, ds[0].ceiling, budget))
  }

  function TotalBytes(bodies: seq<PayloadV1>): nat {
    if bodies == [] then 0 else |bodies[0].text| + TotalBytes(bodies[1..])
  }

  /** Nothing of the budget is lost and nothing is spent twice. */
  lemma {:induction false} PageConserves(ds: seq<Demand>, budget: nat)
    ensures TotalBytes(Bodies(ds, budget)) + Remaining(ds, budget) == budget
  {
    if ds != [] {
      var next := After(ds[0].payload.text, ds[0].ceiling, budget);
      PageConserves(ds[1..], next);
      assert Bodies(ds, budget)[1..] == Bodies(ds[1..], next);
    }
  }

  /** A body without the threading: what its ceiling and the bytes of the earlier bodies allow. */
  lemma {:induction false} BodyAt(ds: seq<Demand>, budget: nat, k: nat)
    requires k < |ds|
    ensures TotalBytes(Bodies(ds, budget)[..k]) <= budget
    ensures Bodies(ds, budget)[k]
         == Carried(ds[k].payload, Min(ds[k].ceiling, budget - TotalBytes(Bodies(ds, budget)[..k])))
  {
    if k > 0 {
      var next := After(ds[0].payload.text, ds[0].ceiling, budget);
      BodyAt(ds[1..], next, k - 1);
      var all, rest := Bodies(ds, budget), Bodies(ds[1..], next);
      assert all[..k][0] == all[0];
      assert all[..k][1..] == rest[..k - 1];
    }
  }

  lemma {:induction false} RemainingConcat(a: seq<Demand>, b: seq<Demand>, budget: nat)
    ensures Remaining(a + b, budget) == Remaining(b, Remaining(a, budget))
    ensures Bodies(a + b, budget) == Bodies(a, budget) + Bodies(b, Remaining(a, budget))
  {
    if a == [] {
      assert a + b == b;
    } else {
      assert (a + b)[1..] == a[1..] + b;
      RemainingConcat(a[1..], b, After(a[0].payload.text, a[0].ceiling, budget));
    }
  }

  // ---------- two budgets ----------

  /** A body met from both budgets keeps the first at most three bytes ahead of the second. */
  lemma SlackKept(text: Utf8, ceiling: nat, first: nat, second: nat)
    requires first <= second + 3
    ensures After(text, ceiling, first) <= After(text, ceiling, second) + 3
  {
    CutIsLongest(text, Min(ceiling, first), []);
    CutIsLongest(text, Min(ceiling, second), []);
    if first > second && |text| > Min(ceiling, second) {
      var p := Cut(text, Min(ceiling, second));
      CutIsLongest(text, Min(ceiling, first), p);
    }
  }

  /** The bodies both projections carry. */
  function Shared(ds: seq<Demand>): seq<Demand> {
    if ds == [] then []
    else if ds[0].both then [ds[0]] + Shared(ds[1..])
    else Shared(ds[1..])
  }

  /**
   Carrying more bodies leaves less for the shared ones, but for the three bytes a cut can
   waste: nothing else separates the two runs.
   */
  lemma {:induction false} TwoRuns(ds: seq<Demand>, all: nat, shared: nat)
    requires all <= shared + 3
    ensures Remaining(ds, all) <= Remaining(Shared(ds), shared) + 3
  {
    if ds != [] {
      var d := ds[0];
      if d.both {
        SlackKept(d.payload.text, d.ceiling, all, shared);
        var all', shared' := After(d.payload.text, d.ceiling, all), After(d.payload.text, d.ceiling, shared);
        assert Shared(ds)[1..] == Shared(ds[1..]);
        assert Remaining(Shared(ds), shared) == Remaining(Shared(ds[1..]), shared');
        TwoRuns(ds[1..], all', shared');
      } else {
        TwoRuns(ds[1..], After(d.payload.text, d.ceiling, all), shared);
      }
    }
  }

  /** Every position up to the last one that can be sent under the ceiling is a boundary. */
  predicate OneByteChars(text: Utf8, ceiling: nat) {
    forall i: nat :: i <= |Cut(text, ceiling)| ==> CharBoundary(text, i)
  }

  /**
   Without the slack the order of two budgets is kept by a body exactly when what can be sent
   of it consists of one-byte characters.
   */
  lemma OrderKeptExactly(text: Utf8, ceiling: nat)
    ensures (forall first: nat, second: nat :: first <= second ==>
               After(text, ceiling, first) <= After(text, ceiling, second))
       <==> OneByteChars(text, ceiling)
  {
    if OneByteChars(text, ceiling) {
      forall first: nat, second: nat | first <= second
        ensures After(text, ceiling, first) <= After(text, ceiling, second)
      {
        OneByteOrder(text, ceiling, first, second);
      }
    } else {
      var m: nat :| m <= |Cut(text, ceiling)| && !CharBoundary(text, m);
      MultiByteDisorder(text, ceiling, m);
    }
  }

  lemma OneByteOrder(text: Utf8, ceiling: nat, first: nat, second: nat)
    requires OneByteChars(text, ceiling) && first <= second
    ensures After(text, ceiling, first) <= After(text, ceiling, second)
  {
    OneByteCut(text, ceiling, first);
    OneByteCut(text, ceiling, second);
  }

  lemma OneByteCut(text: Utf8, ceiling: nat, left: nat)
    requires OneByteChars(text, ceiling)
    ensures |Cut(text, Min(ceiling, left))| == Min(|Cut(text, ceiling)|, left)
  {
    var top := |Cut(text, ceiling)|;
    if left < top {
      assert CharBoundary(text, left);
    } else if left < ceiling && left < |text| {
      assert Floor(text, left) == top;
    }
  }

  lemma MultiByteDisorder(text: Utf8, ceiling: nat, m: nat)
    requires m <= |Cut(text, ceiling)| && !CharBoundary(text, m)
    ensures exists second: nat :: m <= second && After(text, ceiling, m) > After(text, ceiling, second)
  {
    var top := |Cut(text, ceiling)|;
    assert After(text, ceiling, m) > 0;
    assert After(text, ceiling, top) == 0;
  }

  // ---------- one body from one budget ----------

  /** No smaller budget has more left after this body than `left` has. */
  ghost predicate KeepsOrder(text: Utf8, ceiling: nat, left: nat) {
    forall less: nat :: less <= left ==> After(text, ceiling, less) <= After(text, ceiling, left)
  }

  /** Cutting what is carried anywhere else would waste no more than is left after it. */
  predicate WastesLittle(text: Utf8, ceiling: nat, left: nat) {
    forall i: nat :: i < |Cut(text, Min(ceiling, left))| ==> i - Floor(text, i) <= After(text, ceiling, left)
  }

  lemma FloorMonotone(s: Bytes, a: nat, b: nat)
    requires a <= b <= |s|
    ensures Floor(s, a) <= Floor(s, b)
  {}

  /** A budget that pays for the same cut pays for no more. */
  lemma SameCut(text: Utf8, ceiling: nat, less: nat, left: nat)
    requires |Cut(text, Min(ceiling, left))| <= less <= left
    ensures |Cut(text, Min(ceiling, less))| == |Cut(text, Min(ceiling, left))|
  {
    var a, b := Min(ceiling, less), Min(ceiling, left);
    if a < |text| {
      var w := |Cut(text, b)|;
      assert CharBoundary(text, w) && w <= a;
      assert w <= Floor(text, a);
      FloorMonotone(text, a, if b < |text| then b else |text|);
    }
  }

  lemma LessCut(text: Utf8, ceiling: nat, less: nat, left: nat)
    requires less < |Cut(text, Min(ceiling, left))|
    ensures less <= |text| && After(text, ceiling, less) == less - Floor(text, less)
  {}

  /** The order is kept exactly when no character carried is wider than what is left, and one byte. */
  lemma KeepsOrderExactly(text: Utf8, ceiling: nat, left: nat)
    ensures KeepsOrder(text, ceiling, left) <==> WastesLittle(text, ceiling, left)
  {
    var w := |Cut(text, Min(ceiling, left))|;
    if WastesLittle(text, ceiling, left) {
      forall less: nat | less <= left
        ensures After(text, ceiling, less) <= After(text, ceiling, left)
      {
        if less < w {
          LessCut(text, ceiling, less, left);
        } else {
          SameCut(text, ceiling, less, left);
        }
      }
    }
    if KeepsOrder(text, ceiling, left) {
      forall i: nat | i < w
        ensures i - Floor(text, i) <= After(text, ceiling, left)
      {
        LessCut(text, ceiling, i, left);
      }
    }
  }
}
