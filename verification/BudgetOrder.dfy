/**
 How the budgets of the two views compare over one page: at most three bytes apart, and which
 tools let them change places at all.
 */
module BudgetOrder {
  import opened ByteStrings
  import opened Payload
  import opened ProjectionLaws
  import opened Projections
  import opened Wrappers

  // ---------- two budgets over one page ----------

  function ConversationBytes(es: seq<Entry>): nat {
    TotalBytes(MessageBodies(MessageItems(es, PAGE_PAYLOAD_BUDGET)))
  }

  function TranscriptBytes(es: seq<Entry>): nat {
    TotalBytes(TranscriptBodies(TranscriptItems(es, PAGE_PAYLOAD_BUDGET)))
  }

  lemma PageSpends(es: seq<Entry>)
    ensures TranscriptBytes(es) + Remaining(AllDemands(es), PAGE_PAYLOAD_BUDGET) == PAGE_PAYLOAD_BUDGET
    ensures ConversationBytes(es) + Remaining(Shared(AllDemands(es)), PAGE_PAYLOAD_BUDGET) == PAGE_PAYLOAD_BUDGET
  {
    var ds := AllDemands(es);
    TranscriptCarriesAll(es, PAGE_PAYLOAD_BUDGET);
    ConversationCarriesTools(es, PAGE_PAYLOAD_BUDGET);
    PageConserves(ds, PAGE_PAYLOAD_BUDGET);
    PageConserves(Shared(ds), PAGE_PAYLOAD_BUDGET);
  }

  /**
   At every point of the page the transcript has at most three bytes more to spend than the
   conversation.  Those three bytes are real: a tool body can be cut later there by so much.
   */
  lemma TranscriptSpendsFirst(es: seq<Entry>, n: nat)
    requires n <= |es|
    ensures ConversationBytes(es[..n]) <= TranscriptBytes(es[..n]) + 3
  {
    PageSpends(es[..n]);
    TwoRuns(AllDemands(es[..n]), PAGE_PAYLOAD_BUDGET, PAGE_PAYLOAD_BUDGET);
  }

  // ---------- when the slack is not needed ----------

  /** Met in order from `left`, every one of the bodies keeps the order of budgets. */
  predicate OrderSafe(ts: seq<Demand>, left: nat) {
    ts == []
    || (WastesLittle(ts[0].payload.text, ts[0].ceiling, left)
        && OrderSafe(ts[1..], After(ts[0].payload.text, ts[0].ceiling, left)))
  }

  lemma {:induction false} OrderedRuns(ds: seq<Demand>, all: nat, shared: nat)
    requires all <= shared && OrderSafe(Shared(ds), shared)
    ensures Remaining(ds, all) <= Remaining(Shared(ds), shared)
  {
    if ds != [] {
      var d := ds[0];
      var all' := After(d.payload.text, d.ceiling, all);
      if d.both {
        assert Shared(ds)[0] == d && Shared(ds)[1..] == Shared(ds[1..]);
        KeepsOrderExactly(d.payload.text, d.ceiling, shared);
        OrderedRuns(ds[1..], all', After(d.payload.text, d.ceiling, shared));
      } else {
        OrderedRuns(ds[1..], all', shared);
      }
    }
  }

  lemma {:induction false} OrderSafeFront(a: seq<Demand>, b: seq<Demand>, left: nat)
    requires OrderSafe(a + b, left)
    ensures OrderSafe(a, left)
  {
    if a != [] {
      assert (a + b)[1..] == a[1..] + b;
      OrderSafeFront(a[1..], b, After(a[0].payload.text, a[0].ceiling, left));
    }
  }

  /** Where it is not safe: one body, and a smaller budget from which more would be left. */
  lemma {:induction false} Unsafe(ts: seq<Demand>, left: nat)
    returns (front: seq<Demand>, d: Demand, back: seq<Demand>, less: nat)
    requires !OrderSafe(ts, left)
    ensures ts == front + [d] + back && less <= Remaining(front, left)
    ensures Remaining([d], less) > Remaining([d], Remaining(front, left))
  {
    var t := ts[0];
    if !WastesLittle(t.payload.text, t.ceiling, left) {
      KeepsOrderExactly(t.payload.text, t.ceiling, left);
      less :| less <= left && After(t.payload.text, t.ceiling, less) > After(t.payload.text, t.ceiling, left);
      front, d, back := [], t, ts[1..];
      SplitFirst(ts);
      RemainingOne(t, less);
      RemainingOne(t, left);
    } else {
      var later;
      later, d, back, less := Unsafe(ts[1..], After(t.payload.text, t.ceiling, left));
      front := [t] + later;
      assert front[1..] == later;
      SplitLater(ts, later, d, back);
    }
  }

  lemma SplitFirst(ts: seq<Demand>)
    requires ts != []
    ensures ts == [] + [ts[0]] + ts[1..]
  {}

  lemma SplitLater(ts: seq<Demand>, later: seq<Demand>, d: Demand, back: seq<Demand>)
    requires ts != [] && ts[1..] == later + [d] + back
    ensures ts == [ts[0]] + later + [d] + back
  {
    assert ts == [ts[0]] + ts[1..];
  }

  lemma RemainingOne(d: Demand, left: nat)
    ensures Remaining([d], left) == After(d.payload.text, d.ceiling, left)
  {
    assert [d][1..] == [];
  }

  // ---------- a page that spends a given number of bytes before a tool ----------

  const THOUGHT: Demand := Demand(Payload([0x61], false, false), REASONING_CEILING, false)

  /** One-byte thoughts. */
  function Thoughts(n: nat): (ds: seq<Demand>)
    ensures |ds| == n && forall i :: 0 <= i < n ==> ds[i] == THOUGHT
  {
    seq(n, i => THOUGHT)
  }

  lemma ThoughtSpends(left: nat)
    requires left > 0
    ensures After(THOUGHT.payload.text, THOUGHT.ceiling, left) == left - 1
  {}

  lemma {:induction false} ThoughtsSpend(n: nat, left: nat)
    requires n <= left
    ensures Remaining(Thoughts(n), left) == left - n
    ensures Shared(Thoughts(n)) == []
  {
    if n > 0 {
      assert Thoughts(n)[1..] == Thoughts(n - 1);
      ThoughtSpends(left);
      ThoughtsSpend(n - 1, left - 1);
    }
  }

  ghost predicate AllShared(ts: seq<Demand>) {
    forall i :: 0 <= i < |ts| ==> ts[i].both
  }

  lemma {:induction false} SharedSelf(ts: seq<Demand>)
    requires AllShared(ts)
    ensures Shared(ts) == ts
  {
    if ts != [] {
      SharedSelf(ts[1..]);
      assert ts == [ts[0]] + ts[1..];
    }
  }

  /** After `front` the run that carries all of it has no more left than the run of the shared bodies. */
  predicate Ordered(front: seq<Demand>, budget: nat) {
    Remaining(front, budget) <= Remaining(Shared(front), budget)
  }

  lemma ThoughtsBetween(front: seq<Demand>, n: nat, budget: nat)
    requires AllShared(front) && n <= Remaining(front, budget)
    ensures Remaining(front + Thoughts(n), budget) == Remaining(front, budget) - n
    ensures Shared(front + Thoughts(n)) == front
  {
    ThoughtsSpend(n, Remaining(front, budget));
    RemainingConcat(front, Thoughts(n), budget);
    SharedConcat(front, Thoughts(n));
    SharedSelf(front);
    assert front + [] == front;
  }

  /** The two runs over `front`, thoughts that leave `less`, and one more tool. */
  lemma TwoRunsTo(front: seq<Demand>, d: Demand, less: nat, budget: nat) returns (longer: seq<Demand>)
    requires AllShared(front) && d.both && less <= Remaining(front, budget)
    ensures Remaining(longer, budget) == Remaining([d], less)
    ensures Shared(longer) == front + [d]
    ensures forall x :: x in longer ==> x in front || x == THOUGHT || x == d
  {
    var n := Remaining(front, budget) - less;
    ThoughtsBetween(front, n, budget);
    RemainingConcat(front + Thoughts(n), [d], budget);
    SharedConcat(front + Thoughts(n), [d]);
    SharedSelf([d]);
    longer := front + Thoughts(n) + [d];
  }

  /** Then the run that carries the thoughts is ahead, if the tool leaves more from less. */
  lemma BroughtDown(front: seq<Demand>, d: Demand, less: nat, budget: nat) returns (longer: seq<Demand>)
    requires AllShared(front) && d.both && less <= Remaining(front, budget)
    requires Remaining([d], less) > Remaining([d], Remaining(front, budget))
    ensures Shared(longer) == front + [d] && !Ordered(longer, budget)
    ensures forall x :: x in longer ==> x in front || x == THOUGHT || x == d
  {
    longer := TwoRunsTo(front, d, less, budget);
    RemainingConcat(front, [d], budget);
  }

  /** Enough thoughts before an unsafe tool leave the run that carries them ahead after it. */
  lemma Disorder(ts: seq<Demand>, budget: nat) returns (front: seq<Demand>, back: seq<Demand>)
    requires AllShared(ts) && !OrderSafe(ts, budget)
    ensures Shared(front + back) == ts && !Ordered(front, budget)
    ensures forall d :: d in front + back ==> d in ts || d == THOUGHT
  {
    var before, d, after, less := Unsafe(ts, budget);
    AllSharedParts(before, d, after);
    front := BroughtDown(before, d, less, budget);
    back := after;
    SharedConcat(front, back);
    SharedSelf(back);
  }

  lemma AllSharedParts(before: seq<Demand>, d: Demand, after: seq<Demand>)
    requires AllShared(before + [d] + after)
    ensures AllShared(before) && d.both && AllShared(after)
  {
    var ts := before + [d] + after;
    assert forall i :: 0 <= i < |before| ==> before[i] == ts[i];
    assert d == ts[|before|];
    assert forall i :: 0 <= i < |after| ==> after[i] == ts[|before| + 1 + i];
  }

  /**
   Exactly which tool bodies keep the transcript from ever having more left, whatever else the
   page has between them: those none of whose carried characters has more than one byte more
   than what the conversation has left after the body.
   */
  lemma OrderedExactly(ts: seq<Demand>, budget: nat)
    requires AllShared(ts)
    ensures (forall front, back | Shared(front + back) == ts :: Ordered(front, budget)) <==> OrderSafe(ts, budget)
  {
    if OrderSafe(ts, budget) {
      forall front, back | Shared(front + back) == ts
        ensures Ordered(front, budget)
      {
        SharedConcat(front, back);
        OrderSafeFront(Shared(front), Shared(back), budget);
        OrderedRuns(front, budget, budget);
      }
    } else {
      var front, back := Disorder(ts, budget);
    }
  }

  // ---------- for every budget ----------

  /** The budget that leaves `more` after a body. */
  lemma BudgetBefore(text: Utf8, ceiling: nat, more: nat) returns (budget: nat)
    ensures After(text, ceiling, budget) == more
  {
    budget := |Cut(text, ceiling)| + more;
    SameCut(text, ceiling, budget, ceiling + more);
  }

  /** And after all of `ts`: every budget can be what is left. */
  lemma {:induction false} BudgetBeforeAll(ts: seq<Demand>, more: nat) returns (budget: nat)
    ensures Remaining(ts, budget) == more
  {
    if ts == [] {
      budget := more;
    } else {
      var next := BudgetBeforeAll(ts[1..], more);
      budget := BudgetBefore(ts[0].payload.text, ts[0].ceiling, next);
    }
  }

  lemma {:induction false} OrderSafeAt(ts: seq<Demand>, left: nat, i: nat)
    requires i < |ts| && OrderSafe(ts, left)
    ensures WastesLittle(ts[i].payload.text, ts[i].ceiling, Remaining(ts[..i], left))
  {
    if i > 0 {
      OrderSafeAt(ts[1..], After(ts[0].payload.text, ts[0].ceiling, left), i - 1);
      assert ts[..i][1..] == ts[1..][..i - 1] && ts[..i][0] == ts[0];
    } else {
      assert ts[..0] == [];
    }
  }

  ghost predicate OneByteTools(ts: seq<Demand>) {
    forall i :: 0 <= i < |ts| ==> OneByteChars(ts[i].payload.text, ts[i].ceiling)
  }

  lemma {:induction false} OneByteSafe(ts: seq<Demand>, left: nat)
    requires OneByteTools(ts)
    ensures OrderSafe(ts, left)
  {
    if ts != [] {
      var t := ts[0];
      OrderKeptExactly(t.payload.text, t.ceiling);
      KeepsOrderExactly(t.payload.text, t.ceiling, left);
      OneByteSafe(ts[1..], After(t.payload.text, t.ceiling, left));
    }
  }

  lemma AlwaysSafeAt(ts: seq<Demand>, i: nat, left: nat)
    requires i < |ts| && forall budget: nat :: OrderSafe(ts, budget)
    ensures KeepsOrder(ts[i].payload.text, ts[i].ceiling, left)
  {
    var budget := BudgetBeforeAll(ts[..i], left);
    OrderSafeAt(ts, budget, i);
    KeepsOrderExactly(ts[i].payload.text, ts[i].ceiling, left);
  }

  lemma AlwaysSafe(ts: seq<Demand>, i: nat)
    requires i < |ts| && forall budget: nat :: OrderSafe(ts, budget)
    ensures OneByteChars(ts[i].payload.text, ts[i].ceiling)
  {
    var text, ceiling := ts[i].payload.text, ts[i].ceiling;
    forall first: nat, second: nat | first <= second
      ensures After(text, ceiling, first) <= After(text, ceiling, second)
    {
      AlwaysSafeAt(ts, i, second);
    }
    OrderKeptExactly(text, ceiling);
  }

  /** Whatever the budget, exactly the tools that can be sent in one-byte characters. */
  lemma AlwaysOrderedExactly(ts: seq<Demand>)
    requires AllShared(ts)
    ensures (forall budget: nat, front, back | Shared(front + back) == ts :: Ordered(front, budget)) <==> OneByteTools(ts)
  {
    if OneByteTools(ts) {
      forall budget: nat, front, back | Shared(front + back) == ts
        ensures Ordered(front, budget)
      {
        OneByteSafe(ts, budget);
        OrderedExactly(ts, budget);
      }
    } else if forall budget: nat :: OrderSafe(ts, budget) {
      var i :| 0 <= i < |ts| && !OneByteChars(ts[i].payload.text, ts[i].ceiling);
      AlwaysSafe(ts, i);
    } else {
      var budget: nat :| !OrderSafe(ts, budget);
      var front, back := Disorder(ts, budget);
    }
  }

  // ---------- for pages ----------

  function ToolDemands(es: seq<Entry>): seq<Demand> {
    Shared(AllDemands(es))
  }

  /** A demand that one entry with one body makes. */
  ghost predicate Single(d: Demand) {
    if d.both then d.ceiling == TOOL_OUTPUT_CEILING else d == THOUGHT
  }

  function EntryOf(d: Demand): Entry {
    if d.both then ToolCall("", None, "", "", Success, "", None, Some(d.payload))
    else Reasoning("", None, "", d.payload.text)
  }

  function PageOf(ds: seq<Demand>): (es: seq<Entry>)
    ensures |es| == |ds| && forall i :: 0 <= i < |ds| ==> es[i] == EntryOf(ds[i])
  {
    seq(|ds|, i requires 0 <= i < |ds| => EntryOf(ds[i]))
  }

  lemma {:induction false} PageOfDemands(ds: seq<Demand>)
    requires forall d :: d in ds ==> Single(d)
    ensures AllDemands(PageOf(ds)) == ds
  {
    if ds != [] {
      assert PageOf(ds)[1..] == PageOf(ds[1..]);
      PageOfDemands(ds[1..]);
      assert Single(ds[0]);
      assert Demands(EntryOf(ds[0])) == [ds[0]];
      assert [ds[0]] + ds[1..] == ds;
    }
  }

  lemma {:induction false} ToolsAreSingle(es: seq<Entry>)
    ensures AllShared(ToolDemands(es)) && forall d :: d in ToolDemands(es) ==> Single(d)
  {
    if es != [] {
      ToolsAreSingle(es[1..]);
      SharedDemands(es[0]);
      SharedConcat(Demands(es[0]), AllDemands(es[1..]));
    }
  }

  lemma {:induction false} AllDemandsConcat(a: seq<Entry>, b: seq<Entry>)
    ensures AllDemands(a + b) == AllDemands(a) + AllDemands(b)
  {
    if a == [] {
      assert a + b == b;
    } else {
      assert (a + b)[1..] == a[1..] + b;
      AllDemandsConcat(a[1..], b);
    }
  }

  /** The transcript has spent at least what the conversation has, once `es` are drawn. */
  predicate PageOrdered(es: seq<Entry>) {
    ConversationBytes(es) <= TranscriptBytes(es)
  }

  lemma PageOrderedMeans(es: seq<Entry>)
    ensures PageOrdered(es) <==> Ordered(AllDemands(es), PAGE_PAYLOAD_BUDGET)
  {
    PageSpends(es);
  }

  /** A page with the given tools and a point at which the conversation has spent more. */
  lemma DisorderedPage(ts: seq<Demand>) returns (es: seq<Entry>, rest: seq<Entry>)
    requires AllShared(ts) && (forall d :: d in ts ==> Single(d)) && !OrderSafe(ts, PAGE_PAYLOAD_BUDGET)
    ensures ToolDemands(es + rest) == ts && !PageOrdered(es)
  {
    var front, back := Disorder(ts, PAGE_PAYLOAD_BUDGET);
    forall d | d in front || d in back
      ensures Single(d)
    {
      assert d in front + back;
    }
    PageOfDemands(front);
    PageOfDemands(back);
    es, rest := PageOf(front), PageOf(back);
    AllDemandsConcat(es, rest);
    PageOrderedMeans(es);
  }

  /**
   Exactly which pages cannot let the transcript have more left than the conversation, whatever
   but tools is put on them and wherever, under the budget pages have.
   */
  lemma PagesOrderedExactly(page: seq<Entry>)
    ensures (forall es, rest | ToolDemands(es + rest) == ToolDemands(page) :: PageOrdered(es))
       <==> OrderSafe(ToolDemands(page), PAGE_PAYLOAD_BUDGET)
  {
    var ts := ToolDemands(page);
    ToolsAreSingle(page);
    OrderedExactly(ts, PAGE_PAYLOAD_BUDGET);
    if OrderSafe(ts, PAGE_PAYLOAD_BUDGET) {
      forall es, rest | ToolDemands(es + rest) == ts
        ensures PageOrdered(es)
      {
        AllDemandsConcat(es, rest);
        PageOrderedMeans(es);
        assert Shared(AllDemands(es) + AllDemands(rest)) == ts;
      }
    } else {
      var es, rest := DisorderedPage(ts);
    }
  }

  // ---------- the slack is real ----------

  /** The bytes of one four-byte character. */
  function WideByte(i: nat): byte {
    if i % 4 == 0 then 0xF0 else if i % 4 == 1 then 0x9F else if i % 4 == 2 then 0x98 else 0x80
  }

  /** A body of `n` four-byte characters. */
  function Wide(n: nat): (s: Bytes)
    ensures |s| == 4 * n
    ensures forall i :: 0 <= i < |s| ==> s[i] == WideByte(i)
  {
    seq(4 * n, i requires 0 <= i < 4 * n => WideByte(i))
  }

  lemma {:induction false} WideValid(n: nat)
    ensures Valid(Wide(n))
  {
    if n > 0 {
      WideValid(n - 1);
      assert Wide(n)[4..] == Wide(n - 1);
    }
  }

  lemma WideFloor(n: nat, max: nat)
    requires max < 4 * n
    ensures Floor(Wide(n), max) == max - max % 4
  {
    var s := Wide(n);
    var floor := max - max % 4;
    assert CharBoundary(s, floor) && s[floor] == 0xF0;
    forall i: nat | floor < i <= max
      ensures !CharBoundary(s, i)
    {
      assert i % 4 != 0;
    }
  }

  /** A body that fills the tool ceiling and can only be cut at multiples of four bytes. */
  ghost predicate FillsInFours(text: Utf8) {
    forall left: nat :: After(text, 8192, left) == if left >= 8192 then left - 8192 else left % 4
  }

  lemma WideFillsInFours() returns (text: Utf8)
    ensures FillsInFours(text)
  {
    WideValid(2048);
    text := Wide(2048);
    forall left: nat
      ensures After(text, 8192, left) == if left >= 8192 then left - 8192 else left % 4
    {
      if left < 8192 {
        WideFloor(2048, left);
      }
    }
  }

  /** `n` tool bodies. */
  function Tools(text: Utf8, n: nat): (ds: seq<Demand>)
    ensures |ds| == n && forall i :: 0 <= i < n ==> ds[i] == Demand(Payload(text, false, false), TOOL_OUTPUT_CEILING, true)
  {
    if n == 0 then [] else [Demand(Payload(text, false, false), TOOL_OUTPUT_CEILING, true)] + Tools(text, n - 1)
  }

  function AfterFull(left: nat): nat {
    if left >= 8192 then left - 8192 else left % 4
  }

  lemma AfterFullMod(n: nat, left: nat)
    requires n > 0 && (left <= 8192 * n || left < 4)
    ensures AfterFull(left) <= 8192 * (n - 1) || AfterFull(left) < 4
    ensures AfterFull(left) % 4 == left % 4
  {}

  lemma ToolFirst(text: Utf8, n: nat, left: nat)
    requires FillsInFours(text) && n > 0
    ensures Remaining(Tools(text, n), left) == Remaining(Tools(text, n - 1), AfterFull(left))
  {
    assert Tools(text, n)[1..] == Tools(text, n - 1);
    assert After(text, 8192, left) == AfterFull(left);
  }

  lemma {:induction false} ToolsSpend(text: Utf8, n: nat, left: nat)
    requires FillsInFours(text)
    requires left <= 8192 * n || left < 4
    ensures Remaining(Tools(text, n), left) == left % 4
  {
    if n > 0 {
      AfterFullMod(n, left);
      ToolsSpend(text, n - 1, AfterFull(left));
      ToolFirst(text, n, left);
    }
  }

  /**
   "The transcript never has more left than the conversation" is false: on a page with one byte
   of reasoning before sixteen full tool bodies of four-byte characters it has exactly three
   bytes more, so the slack of `TranscriptSpendsFirst` cannot be made smaller.
   */
  lemma SlackIsReached() returns (es: seq<Entry>)
    ensures ConversationBytes(es) == TranscriptBytes(es) + 3
    ensures |es| == 17 && es[0] == EntryOf(THOUGHT) && forall i :: 1 <= i < 17 ==> es[i].ToolCall?
  {
    var text := WideFillsInFours();
    var ds := [THOUGHT] + Tools(text, 16);
    SlackRun(text);
    PageOfDemands(ds);
    es := PageOf(ds);
    PageSpends(es);
  }

  lemma SlackRun(text: Utf8)
    requires FillsInFours(text)
    ensures var ds := [THOUGHT] + Tools(text, 16);
            Remaining(ds, PAGE_PAYLOAD_BUDGET) == 3 && Remaining(Shared(ds), PAGE_PAYLOAD_BUDGET) == 0
  {
    var tools := Tools(text, 16);
    ThoughtsSpend(1, PAGE_PAYLOAD_BUDGET);
    assert Thoughts(1) == [THOUGHT];
    RemainingConcat([THOUGHT], tools, PAGE_PAYLOAD_BUDGET);
    SharedConcat([THOUGHT], tools);
    SharedSelf(tools);
    ToolsSpend(text, 16, PAGE_PAYLOAD_BUDGET);
    ToolsSpend(text, 16, PAGE_PAYLOAD_BUDGET - 1);
    assert [] + tools == tools;
  }
}
