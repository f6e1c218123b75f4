/**
 The two views of one canonical page (crates/nession-claude-code/src/messages.rs and
 crates/nession-claude-code/src/transcript.rs).  The conversation filters, the transcript
 maps, and both spend one page budget in document order.
 */
module Projections {
  import opened ByteStrings
  import opened Payload
  import opened Wrappers

  const PAGE_PAYLOAD_BUDGET: nat := 131072
  const TOOL_SUMMARY_CEILING: nat := 500
  const TOOL_INPUT_CEILING: nat := 8192
  const TOOL_OUTPUT_CEILING: nat := 8192
  const REASONING_CEILING: nat := 8192
  const ATTACHMENT_CEILING: nat := 8192

  // ---------- the canonical page ----------

  datatype MessageSource = Human | Assistant | Synthetic | System

  datatype Block = TextBlock(text: string) | UnknownBlock

  datatype ToolStatus = Running | Success | Error | Unknown

  datatype Entry =
    | Message(id: string, timestamp: Option<string>, source: MessageSource, content: seq<Block>, sidechain: bool)
    | ToolCall(id: string, timestamp: Option<string>, callId: string, name: string, status: ToolStatus,
               summary: string, input: Option<Payload>, output: Option<Payload>)
    | Reasoning(id: string, timestamp: Option<string>, reasoningType: string, text: Utf8)
    | Attachment(id: string, timestamp: Option<string>, attachmentType: string, payload: Option<Payload>)
    | Runtime(id: string, timestamp: Option<string>, category: string, name: string)
    | Metadata(id: string, timestamp: Option<string>, name: string)
    | UnknownEntry(id: string, timestamp: Option<string>, upstreamType: Option<string>, upstreamSubtype: Option<string>)

  // ---------- the two contracts ----------

  datatype Role = User | AssistantRole

  datatype ToolActivity = ToolActivity(
    callId: string, name: string, status: ToolStatus, summary: string,
    input: Option<PayloadV1>, output: Option<PayloadV1>)

  datatype MessageItem =
    | MUnknown(id: string, timestamp: Option<string>)
    | MMessage(id: string, timestamp: Option<string>, role: Role, content: seq<Block>)
    | MTool(id: string, timestamp: Option<string>, tool: ToolActivity)

  datatype TranscriptItem =
    | TMessage(id: string, timestamp: Option<string>, source: MessageSource, content: seq<Block>)
    | TTool(id: string, timestamp: Option<string>, tool: ToolActivity)
    | TReasoning(id: string, timestamp: Option<string>, reasoningType: string, text: PayloadV1)
    | TAttachment(id: string, timestamp: Option<string>, attachmentType: string, payload: Option<PayloadV1>)
    | TEvent(id: string, timestamp: Option<string>, category: string, name: string)
    | TMetadata(id: string, timestamp: Option<string>, name: string)
    | TUnknown(id: string, timestamp: Option<string>, upstreamType: Option<string>, upstreamSubtype: Option<string>)

  // ---------- labels ----------

  const ELLIPSIS: char := '\U{2026}'

  function TruncateChars(s: string, max: nat): string {
    if |s| <= max then s else s[..max] + [ELLIPSIS]
  }

  /** A label travels whole within its ceiling; one longer label also reads unchanged. */
  lemma LabelKept(s: string, max: nat)
    ensures |TruncateChars(s, max)| <= max + 1
    ensures TruncateChars(s, max) == s <==> |s| <= max || (|s| == max + 1 && s[max] == ELLIPSIS)
  {
    if |s| == max + 1 && s[max] == ELLIPSIS {
      assert s == s[..max] + [s[max]];
    }
    if |s| > max && TruncateChars(s, max) == s {
      assert s[max] == (s[..max] + [ELLIPSIS])[max];
    }
  }

  // ---------- what an entry asks of the budget ----------

  function Optional(p: Option<Payload>, ceiling: nat, both: bool): seq<Demand> {
    if p.Some? then [Demand(p.value, ceiling, both)] else []
  }

  function Demands(e: Entry): seq<Demand> {
    match e
    case ToolCall(_, _, _, _, _, _, input, output) =>
      Optional(input, TOOL_INPUT_CEILING, true) + Optional(output, TOOL_OUTPUT_CEILING, true)
    case Reasoning(_, _, _, text) => [Demand(Payload(text, false, false), REASONING_CEILING, false)]
    case Attachment(_, _, _, payload) => Optional(payload, ATTACHMENT_CEILING, false)
    case _ => []
  }

  function AllDemands(es: seq<Entry>): seq<Demand> {
    if es == [] then [] else Demands(es[0]) + AllDemands(es[1..])
  }

  // ---------- specification of the two views ----------

  function OptionalBody(p: Option<Payload>, ceiling: nat, left: nat): Option<PayloadV1> {
    if p.Some? then Some(Carried(p.value, Min(ceiling, left))) else None
  }

  function AfterOptional(p: Option<Payload>, ceiling: nat, left: nat): nat {
    if p.Some? then After(p.value.text, ceiling, left) else left
  }

  function Activity(e: Entry, left: nat): ToolActivity
    requires e.ToolCall?
  {
    ToolActivity(
      e.callId, e.name, e.status, TruncateChars(e.summary, TOOL_SUMMARY_CEILING),
      OptionalBody(e.input, TOOL_INPUT_CEILING, left),
      OptionalBody(e.output, TOOL_OUTPUT_CEILING, AfterOptional(e.input, TOOL_INPUT_CEILING, left)))
  }

  function TranscriptItemSpec(e: Entry, left: nat): TranscriptItem {
    match e
    case Message(id, ts, source, content, _) => TMessage(id, ts, source, content)
    case ToolCall(id, ts, _, _, _, _, _, _) => TTool(id, ts, Activity(e, left))
    case Reasoning(id, ts, kind, text) =>
      TReasoning(id, ts, kind, Carried(Payload(text, false, false), Min(REASONING_CEILING, left)))
    case Attachment(id, ts, kind, payload) =>
      TAttachment(id, ts, kind, OptionalBody(payload, ATTACHMENT_CEILING, left))
    case Runtime(id, ts, category, name) => TEvent(id, ts, category, name)
    case Metadata(id, ts, name) => TMetadata(id, ts, name)
    case UnknownEntry(id, ts, t, st) => TUnknown(id, ts, t, st)
  }

  predicate AllUnknown(content: seq<Block>) {
    forall i :: 0 <= i < |content| ==> content[i].UnknownBlock?
  }

  function MessageItemSpec(e: Entry, left: nat): Option<MessageItem> {
    match e
    case Message(id, ts, source, content, sidechain) =>
      if sidechain || source == Synthetic || source == System then None
      else if AllUnknown(content) then Some(MUnknown(id, ts))
      else Some(MMessage(id, ts, if source == Human then User else AssistantRole, content))
    case ToolCall(id, ts, _, _, _, _, _, _) => Some(MTool(id, ts, Activity(e, left)))
    case _ => None
  }

  function TranscriptItems(es: seq<Entry>, left: nat): seq<TranscriptItem> {
    if es == [] then []
    else [TranscriptItemSpec(es[0], left)] + TranscriptItems(es[1..], Remaining(Demands(es[0]), left))
  }

  function MessageItems(es: seq<Entry>, left: nat): seq<MessageItem> {
    if es == [] then []
    else
      var rest := MessageItems(es[1..], Remaining(Shared(Demands(es[0])), left));
      var item := MessageItemSpec(es[0], left);
      if item.Some? then [item.value] + rest else rest
  }

  // ---------- the code, with the budget changed in place ----------

  method SpendOptional(budget: Budget, p: Option<Payload>, ceiling: nat) returns (body: Option<PayloadV1>)
    modifies budget
    ensures body == OptionalBody(p, ceiling, old(budget.left))
    ensures budget.left == AfterOptional(p, ceiling, old(budget.left))
  {
    match p
    case None => body := None;
    case Some(payload) =>
      var carried := budget.Spend(payload, ceiling);
      body := Some(carried);
  }

  lemma RemainingOptional(p: Option<Payload>, ceiling: nat, both: bool, left: nat)
    ensures Remaining(Optional(p, ceiling, both), left) == AfterOptional(p, ceiling, left)
  {}

  method DrawTool(e: Entry, budget: Budget) returns (tool: ToolActivity)
    requires e.ToolCall?
    modifies budget
    ensures tool == Activity(e, old(budget.left))
    ensures budget.left == Remaining(Demands(e), old(budget.left))
  {
    RemainingConcat(Optional(e.input, TOOL_INPUT_CEILING, true), Optional(e.output, TOOL_OUTPUT_CEILING, true),
                    budget.left);
    RemainingOptional(e.input, TOOL_INPUT_CEILING, true, budget.left);
    var input := SpendOptional(budget, e.input, TOOL_INPUT_CEILING);
    RemainingOptional(e.output, TOOL_OUTPUT_CEILING, true, budget.left);
    var output := SpendOptional(budget, e.output, TOOL_OUTPUT_CEILING);
    tool := ToolActivity(
      e.callId, e.name, e.status, TruncateChars(e.summary, TOOL_SUMMARY_CEILING), input, output);
  }

  method TranscriptItemOf(e: Entry, budget: Budget) returns (item: TranscriptItem)
    modifies budget
    ensures item == TranscriptItemSpec(e, old(budget.left))
    ensures budget.left == Remaining(Demands(e), old(budget.left))
  {
    match e
    case Message(id, ts, source, content, _) => item := TMessage(id, ts, source, content);
    case ToolCall(id, ts, _, _, _, _, _, _) =>
      var tool := DrawTool(e, budget);
      item := TTool(id, ts, tool);
    case Reasoning(id, ts, kind, text) =>
      var body := budget.Spend(Payload(text, false, false), REASONING_CEILING);
      item := TReasoning(id, ts, kind, body);
    case Attachment(id, ts, kind, payload) =>
      RemainingOptional(payload, ATTACHMENT_CEILING, false, budget.left);
      var body := SpendOptional(budget, payload, ATTACHMENT_CEILING);
      item := TAttachment(id, ts, kind, body);
    case Runtime(id, ts, category, name) => item := TEvent(id, ts, category, name);
    case Metadata(id, ts, name) => item := TMetadata(id, ts, name);
    case UnknownEntry(id, ts, t, st) => item := TUnknown(id, ts, t, st);
  }

  lemma SharedOptional(p: Option<Payload>, ceiling: nat, both: bool)
    ensures Shared(Optional(p, ceiling, both)) == if both then Optional(p, ceiling, both) else []
  {}

  lemma {:induction false} SharedConcat(a: seq<Demand>, b: seq<Demand>)
    ensures Shared(a + b) == Shared(a) + Shared(b)
  {
    if a == [] {
      assert a + b == b;
    } else {
      assert (a + b)[1..] == a[1..] + b;
      SharedConcat(a[1..], b);
    }
  }

  /** The conversation pays for tools and for nothing else. */
  lemma SharedDemands(e: Entry)
    ensures Shared(Demands(e)) == if e.ToolCall? then Demands(e) else []
  {
    match e
    case ToolCall(_, _, _, _, _, _, input, output) =>
      SharedConcat(Optional(input, TOOL_INPUT_CEILING, true), Optional(output, TOOL_OUTPUT_CEILING, true));
      SharedOptional(input, TOOL_INPUT_CEILING, true);
      SharedOptional(output, TOOL_OUTPUT_CEILING, true);
    case Attachment(_, _, _, payload) => SharedOptional(payload, ATTACHMENT_CEILING, false);
    case _ =>
  }

  method MessageItemOf(e: Entry, budget: Budget) returns (item: Option<MessageItem>)
    modifies budget
    ensures item == MessageItemSpec(e, old(budget.left))
    ensures budget.left == Remaining(Shared(Demands(e)), old(budget.left))
  {
    SharedDemands(e);
    match e
    case Message(id, ts, source, content, sidechain) =>
      if sidechain {
        return None;
      }
      var role;
      match source {
        case Human => role := User;
        case Assistant => role := AssistantRole;
        case Synthetic => return None;
        case System => return None;
      }
      if AllUnknown(content) {
        return Some(MUnknown(id, ts));
      }
      item := Some(MMessage(id, ts, role, content));
    case ToolCall(id, ts, _, _, _, _, _, _) =>
      var tool := DrawTool(e, budget);
      item := Some(MTool(id, ts, tool));
    case _ => item := None;
  }

  lemma TranscriptItemsStep(items: seq<TranscriptItem>, es: seq<Entry>, i: nat, left: nat)
    requires i < |es|
    ensures items + TranscriptItems(es[i..], left)
         == (items + [TranscriptItemSpec(es[i], left)])
            + TranscriptItems(es[i + 1..], Remaining(Demands(es[i]), left))
  {
    assert es[i..][1..] == es[i + 1..];
    var item := TranscriptItemSpec(es[i], left);
    var rest := TranscriptItems(es[i + 1..], Remaining(Demands(es[i]), left));
    assert items + ([item] + rest) == (items + [item]) + rest;
  }

  /** `transcript::project`. */
  method ProjectTranscript(es: seq<Entry>) returns (items: seq<TranscriptItem>)
    ensures items == TranscriptItems(es, PAGE_PAYLOAD_BUDGET)
  {
    var budget := new Budget(PAGE_PAYLOAD_BUDGET);
    items := [];
    for i := 0 to |es|
      invariant items + TranscriptItems(es[i..], budget.left) == TranscriptItems(es, PAGE_PAYLOAD_BUDGET)
    {
      TranscriptItemsStep(items, es, i, budget.left);
      var item := TranscriptItemOf(es[i], budget);
      items := items + [item];
    }
  }

  lemma MessageItemsStep(items: seq<MessageItem>, es: seq<Entry>, i: nat, left: nat)
    requires i < |es|
    ensures items + MessageItems(es[i..], left)
         == (if MessageItemSpec(es[i], left).Some? then items + [MessageItemSpec(es[i], left).value] else items)
            + MessageItems(es[i + 1..], Remaining(Shared(Demands(es[i])), left))
  {
    assert es[i..][1..] == es[i + 1..];
    var rest := MessageItems(es[i + 1..], Remaining(Shared(Demands(es[i])), left));
    var item := MessageItemSpec(es[i], left);
    if item.Some? {
      assert items + ([item.value] + rest) == (items + [item.value]) + rest;
    }
  }

  /** `messages::project`. */
  method ProjectMessages(es: seq<Entry>) returns (items: seq<MessageItem>)
    ensures items == MessageItems(es, PAGE_PAYLOAD_BUDGET)
  {
    var budget := new Budget(PAGE_PAYLOAD_BUDGET);
    items := [];
    for i := 0 to |es|
      invariant items + MessageItems(es[i..], budget.left) == MessageItems(es, PAGE_PAYLOAD_BUDGET)
    {
      MessageItemsStep(items, es, i, budget.left);
      var item := MessageItemOf(es[i], budget);
      if item.Some? {
        items := items + [item.value];
      }
    }
  }
}
