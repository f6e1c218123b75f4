/**
 What the two views of a page promise together: bodies within the budget, one transcript row
 per entry, the conversation a subsequence of it, and how far apart the two budgets can be.
 */
module ProjectionLaws {
  import opened ByteStrings
  import opened Payload
  import opened Projections
  import opened Wrappers

  // ---------- the bodies on a page ----------

  function OptionBodies(body: Option<PayloadV1>): seq<PayloadV1> {
    if body.Some? then [body.value] else []
  }

  function ToolBodies(tool: ToolActivity): seq<PayloadV1> {
    OptionBodies(tool.input) + OptionBodies(tool.output)
  }

  function ItemBodies(item: TranscriptItem): seq<PayloadV1> {
    match item
    case TTool(_, _, tool) => ToolBodies(tool)
    case TReasoning(_, _, _, text) => [text]
    case TAttachment(_, _, _, payload) => OptionBodies(payload)
    case _ => []
  }

  function TranscriptBodies(items: seq<TranscriptItem>): seq<PayloadV1> {
    if items == [] then [] else ItemBodies(items[0]) + TranscriptBodies(items[1..])
  }

  function MessageBodies(items: seq<MessageItem>): seq<PayloadV1> {
    if items == [] then []
    else (if items[0].MTool? then ToolBodies(items[0].tool) else []) + MessageBodies(items[1..])
  }

  lemma OptionalBodies(p: Option<Payload>, ceiling: nat, both: bool, left: nat)
    ensures Bodies(Optional(p, ceiling, both), left) == OptionBodies(OptionalBody(p, ceiling, left))
  {}

  lemma ActivityBodies(e: Entry, left: nat)
    requires e.ToolCall?
    ensures ToolBodies(Activity(e, left)) == Bodies(Demands(e), left)
  {
    var input, output := Optional(e.input, TOOL_INPUT_CEILING, true), Optional(e.output, TOOL_OUTPUT_CEILING, true);
    RemainingConcat(input, output, left);
    RemainingOptional(e.input, TOOL_INPUT_CEILING, true, left);
    OptionalBodies(e.input, TOOL_INPUT_CEILING, true, left);
    OptionalBodies(e.output, TOOL_OUTPUT_CEILING, true, Remaining(input, left));
  }

  lemma EntryBodies(e: Entry, left: nat)
    ensures ItemBodies(TranscriptItemSpec(e, left)) == Bodies(Demands(e), left)
  {
    if e.ToolCall? {
      ActivityBodies(e, left);
    } else if e.Attachment? {
      OptionalBodies(e.payload, ATTACHMENT_CEILING, false, left);
    }
  }

  /** Every body of every entry is on the transcript page, in order, none dropped. */
  lemma {:induction false} TranscriptCarriesAll(es: seq<Entry>, left: nat)
    ensures TranscriptBodies(TranscriptItems(es, left)) == Bodies(AllDemands(es), left)
  {
    if es != [] {
      var e := es[0];
      var next := Remaining(Demands(e), left);
      RemainingConcat(Demands(e), AllDemands(es[1..]), left);
      TranscriptCarriesAll(es[1..], next);
      assert TranscriptItems(es, left)[1..] == TranscriptItems(es[1..], next);
      EntryBodies(e, left);
    }
  }

  /** Every tool body is on the conversation page, in order, and no other body is. */
  lemma {:induction false} ConversationCarriesTools(es: seq<Entry>, left: nat)
    ensures MessageBodies(MessageItems(es, left)) == Bodies(Shared(AllDemands(es)), left)
  {
    if es != [] {
      var e := es[0];
      var mine := Shared(Demands(e));
      var next := Remaining(mine, left);
      SharedConcat(Demands(e), AllDemands(es[1..]));
      RemainingConcat(mine, Shared(AllDemands(es[1..])), left);
      ConversationCarriesTools(es[1..], next);
      SharedDemands(e);
      var rest := MessageItems(es[1..], next);
      if MessageItemSpec(e, left).Some? {
        assert MessageItems(es, left)[1..] == rest;
      }
      if e.ToolCall? {
        ActivityBodies(e, left);
      }
    }
  }

  /**
   The `k`-th body of a page, over all pages: the longest decodable prefix its ceiling and the
   bytes already spent allow, marked truncated exactly when the source was or it was cut.
   */
  ghost predicate BodyIsFair(d: Demand, budget: nat, earlier: nat, body: PayloadV1) {
    && earlier + |body.text| <= budget
    && body.text <= d.payload.text
    && |body.text| <= d.ceiling
    && (forall p :: p <= d.payload.text && Valid(p) && |p| <= d.ceiling && earlier + |p| <= budget
                    ==> |p| <= |body.text|)
    && (body.truncated <==> d.payload.truncated || body.text != d.payload.text)
    && (body.kind == Json <==> d.payload.isJson)
  }

  lemma FairCut(d: Demand, budget: nat, earlier: nat)
    requires earlier <= budget
    ensures BodyIsFair(d, budget, earlier, Carried(d.payload, Min(d.ceiling, budget - earlier)))
  {
    var allowed := Min(d.ceiling, budget - earlier);
    CutIsLongest(d.payload.text, allowed, []);
    forall p | p <= d.payload.text && Valid(p) && |p| <= d.ceiling && earlier + |p| <= budget
      ensures |p| <= |Cut(d.payload.text, allowed)|
    {
      CutIsLongest(d.payload.text, allowed, p);
    }
  }

  lemma FairBody(ds: seq<Demand>, budget: nat, k: nat)
    requires k < |ds|
    ensures BodyIsFair(ds[k], budget, TotalBytes(Bodies(ds, budget)[..k]), Bodies(ds, budget)[k])
  {
    BodyAt(ds, budget, k);
    FairCut(ds[k], budget, TotalBytes(Bodies(ds, budget)[..k]));
  }

  /** Every body of both pages is fair, and a page never carries more than its budget. */
  lemma PagesAreFair(es: seq<Entry>, k: nat)
    ensures var bodies := TranscriptBodies(TranscriptItems(es, PAGE_PAYLOAD_BUDGET));
            && |bodies| == |AllDemands(es)| && TotalBytes(bodies) <= PAGE_PAYLOAD_BUDGET
            && (k < |bodies| ==>
                  BodyIsFair(AllDemands(es)[k], PAGE_PAYLOAD_BUDGET, TotalBytes(bodies[..k]), bodies[k]))
    ensures var bodies := MessageBodies(MessageItems(es, PAGE_PAYLOAD_BUDGET));
            && |bodies| == |Shared(AllDemands(es))| && TotalBytes(bodies) <= PAGE_PAYLOAD_BUDGET
            && (k < |bodies| ==>
                  BodyIsFair(Shared(AllDemands(es))[k], PAGE_PAYLOAD_BUDGET, TotalBytes(bodies[..k]), bodies[k]))
  {
    TranscriptCarriesAll(es, PAGE_PAYLOAD_BUDGET);
    ConversationCarriesTools(es, PAGE_PAYLOAD_BUDGET);
    PageConserves(AllDemands(es), PAGE_PAYLOAD_BUDGET);
    PageConserves(Shared(AllDemands(es)), PAGE_PAYLOAD_BUDGET);
    if k < |AllDemands(es)| {
      FairBody(AllDemands(es), PAGE_PAYLOAD_BUDGET, k);
    }
    if k < |Shared(AllDemands(es))| {
      FairBody(Shared(AllDemands(es)), PAGE_PAYLOAD_BUDGET, k);
    }
  }

  // ---------- filter against map ----------

  lemma SpecKeepsIdentity(e: Entry, left: nat)
    ensures TranscriptItemSpec(e, left).id == e.id && TranscriptItemSpec(e, left).timestamp == e.timestamp
  {}

  /** One row per entry, in the transcript's order, drawn from the budget the entries before it left. */
  lemma {:induction false} TranscriptMaps(es: seq<Entry>, left: nat, i: nat)
    requires i < |es|
    ensures |TranscriptItems(es, left)| == |es|
    ensures TranscriptItems(es, left)[i] == TranscriptItemSpec(es[i], Remaining(AllDemands(es[..i]), left))
    ensures TranscriptItems(es, left)[i].id == es[i].id && TranscriptItems(es, left)[i].timestamp == es[i].timestamp
  {
    var e, es' := es[0], es[1..];
    var next := Remaining(Demands(e), left);
    assert TranscriptItems(es, left) == [TranscriptItemSpec(e, left)] + TranscriptItems(es', next);
    if i > 0 {
      TranscriptMaps(es', next, i - 1);
      assert es[..i][1..] == es'[..i - 1];
      assert AllDemands(es[..i]) == Demands(e) + AllDemands(es'[..i - 1]);
      RemainingConcat(Demands(e), AllDemands(es'[..i - 1]), left);
    } else if |es| > 1 {
      TranscriptMaps(es', next, 0);
    }
    SpecKeepsIdentity(es[i], Remaining(AllDemands(es[..i]), left));
  }

  /** `at` says where in `ys` each element of `xs` stands. */
  ghost predicate Embeds<T(!new)>(xs: seq<T>, ys: seq<T>, at: seq<nat>) {
    && |at| == |xs|
    && (forall i :: 0 <= i < |at| ==> at[i] < |ys| && xs[i] == ys[at[i]])
    && (forall i, j :: 0 <= i < j < |at| ==> at[i] < at[j])
  }

  /** `xs` is what is left of `ys` when some of its elements are dropped. */
  ghost predicate Subsequence<T(!new)>(xs: seq<T>, ys: seq<T>) {
    exists at: seq<nat> :: Embeds(xs, ys, at)
  }

  function Shift(at: seq<nat>): (r: seq<nat>)
    ensures |r| == |at| && forall i :: 0 <= i < |at| ==> r[i] == at[i] + 1
  {
    seq(|at|, i requires 0 <= i < |at| => at[i] + 1)
  }

  lemma SubsequenceSkip<T(!new)>(xs: seq<T>, y: T, ys: seq<T>)
    requires Subsequence(xs, ys)
    ensures Subsequence(xs, [y] + ys)
  {
    var at: seq<nat> :| Embeds(xs, ys, at);
    assert Embeds(xs, [y] + ys, Shift(at));
  }

  lemma SubsequenceTake<T(!new)>(xs: seq<T>, y: T, ys: seq<T>)
    requires Subsequence(xs, ys)
    ensures Subsequence([y] + xs, [y] + ys)
  {
    var at: seq<nat> :| Embeds(xs, ys, at);
    assert Embeds([y] + xs, [y] + ys, [0] + Shift(at));
  }

  /**
   What a row is in either view: its id and time, what was said and whether a human said it, and
   for a tool everything but its bodies.
   */
  datatype Row = Row(id: string, timestamp: Option<string>, said: Option<Said>, tool: Option<ToolHeader>)

  datatype Said = Said(byHuman: bool, content: seq<Block>)

  /** A turn none of whose blocks is modelled says nothing a reader can see. */
  function SaidIn(byHuman: bool, content: seq<Block>): Option<Said> {
    if AllUnknown(content) then None else Some(Said(byHuman, content))
  }

  datatype ToolHeader = ToolHeader(callId: string, name: string, status: ToolStatus, summary: string)

  function HeaderOf(tool: ToolActivity): ToolHeader {
    ToolHeader(tool.callId, tool.name, tool.status, tool.summary)
  }

  function TranscriptRow(item: TranscriptItem): Row {
    Row(item.id, item.timestamp,
        if item.TMessage? then SaidIn(item.source == Human, item.content) else None,
        if item.TTool? then Some(HeaderOf(item.tool)) else None)
  }

  function MessageRow(item: MessageItem): Row {
    Row(item.id, item.timestamp,
        if item.MMessage? then SaidIn(item.role == User, item.content) else None,
        if item.MTool? then Some(HeaderOf(item.tool)) else None)
  }

  function TranscriptRows(items: seq<TranscriptItem>): seq<Row> {
    if items == [] then [] else [TranscriptRow(items[0])] + TranscriptRows(items[1..])
  }

  function MessageRows(items: seq<MessageItem>): seq<Row> {
    if items == [] then [] else [MessageRow(items[0])] + MessageRows(items[1..])
  }

  function ToolRows(rows: seq<Row>): seq<Row> {
    if rows == [] then []
    else if rows[0].tool.Some? then [rows[0]] + ToolRows(rows[1..])
    else ToolRows(rows[1..])
  }

  lemma RowsCons(t: TranscriptItem, ts: seq<TranscriptItem>, m: MessageItem, ms: seq<MessageItem>)
    ensures TranscriptRows([t] + ts) == [TranscriptRow(t)] + TranscriptRows(ts)
    ensures MessageRows([m] + ms) == [MessageRow(m)] + MessageRows(ms)
  {
    assert ([t] + ts)[1..] == ts && ([m] + ms)[1..] == ms;
  }

  lemma ToolRowsCons(row: Row, rows: seq<Row>)
    ensures ToolRows([row] + rows) == (if row.tool.Some? then [row] else []) + ToolRows(rows)
  {
    assert ([row] + rows)[1..] == rows;
  }

  /** An entry the conversation draws is the same row in both views, and tools are all drawn. */
  lemma SameRow(e: Entry, conversation: nat, transcript: nat)
    ensures var m := MessageItemSpec(e, conversation);
            var row := TranscriptRow(TranscriptItemSpec(e, transcript));
            && (m.Some? ==> MessageRow(m.value) == row)
            && (m.None? ==> row.tool.None?)
  {}

  /**
   The conversation is the transcript with rows left out, and no tool is among those: whatever
   the two budgets have left, every tool is in both under the same header.
   */
  lemma {:induction false} ConversationIsFilteredTranscript(es: seq<Entry>, conversation: nat, transcript: nat)
    ensures var m := MessageRows(MessageItems(es, conversation));
            var t := TranscriptRows(TranscriptItems(es, transcript));
            Subsequence(m, t) && ToolRows(m) == ToolRows(t)
  {
    if es == [] {
      var none: seq<Row> := [];
      assert Embeds(none, none, []);
    } else {
      var e := es[0];
      var c', t' := Remaining(Shared(Demands(e)), conversation), Remaining(Demands(e), transcript);
      var ms, ts := MessageItems(es[1..], c'), TranscriptItems(es[1..], t');
      var item, drawn := TranscriptItemSpec(e, transcript), MessageItemSpec(e, conversation);
      var row := TranscriptRow(item);
      SameRow(e, conversation, transcript);
      RowsCons(item, ts, if drawn.Some? then drawn.value else MUnknown("", None), ms);
      ToolRowsCons(row, TranscriptRows(ts));
      ToolRowsCons(row, MessageRows(ms));
      ConversationIsFilteredTranscript(es[1..], c', t');
      if drawn.Some? {
        SubsequenceTake(MessageRows(ms), row, TranscriptRows(ts));
      } else {
        SubsequenceSkip(MessageRows(ms), row, TranscriptRows(ts));
      }
    }
  }
}
