/**
 What each row of the two views shows of its entry, field by field, and which entries the
 conversation draws.
 */
module ProjectionRows {
  import opened Payload
  import opened Projections
  import opened Wrappers

  // ---------- what a row shows ----------

  /** The label whole, or its first `max` characters and an ellipsis. */
  predicate ShowsLabel(shown: string, s: string, max: nat) {
    if |s| <= max then shown == s
    else |shown| == max + 1 && shown[..max] == s[..max] && shown[max] == ELLIPSIS
  }

  /** A body is there exactly when the source has one, and is a beginning of it, of its kind. */
  predicate ShowsBody(body: Option<PayloadV1>, p: Option<Payload>) {
    && (body.Some? <==> p.Some?)
    && (body.Some? ==> body.value.text <= p.value.text && (body.value.kind == Json <==> p.value.isJson))
  }

  predicate ShowsTool(tool: ToolActivity, e: Entry)
    requires e.ToolCall?
  {
    && tool.callId == e.callId && tool.name == e.name && tool.status == e.status
    && ShowsLabel(tool.summary, e.summary, TOOL_SUMMARY_CEILING)
    && ShowsBody(tool.input, e.input) && ShowsBody(tool.output, e.output)
  }

  /** Nothing in a turn that a reader of the contract would know. */
  predicate NothingKnown(content: seq<Block>) {
    forall b :: b in content ==> b == UnknownBlock
  }

  /** What the conversation shows: tools, and what a person or the assistant said in the main line. */
  predicate Drawn(e: Entry) {
    || e.ToolCall?
    || (e.Message? && !e.sidechain && e.source in {Human, Assistant})
  }

  predicate ConversationShows(item: MessageItem, e: Entry) {
    && item.id == e.id && item.timestamp == e.timestamp
    && (item.MTool? <==> e.ToolCall?)
    && (item.MUnknown? <==> e.Message? && NothingKnown(e.content))
    && (item.MTool? ==> ShowsTool(item.tool, e))
    && (item.MMessage? ==> e.Message? && item.content == e.content && (item.role == User <==> e.source == Human))
  }

  predicate TranscriptShows(item: TranscriptItem, e: Entry) {
    && item.id == e.id && item.timestamp == e.timestamp
    && match e
       case Message(_, _, source, content, _) => item.TMessage? && item.source == source && item.content == content
       case ToolCall(_, _, _, _, _, _, _, _) => item.TTool? && ShowsTool(item.tool, e)
       case Reasoning(_, _, kind, text) =>
         item.TReasoning? && item.reasoningType == kind && item.text.text <= text && item.text.kind == Text
       case Attachment(_, _, kind, payload) =>
         item.TAttachment? && item.attachmentType == kind && ShowsBody(item.payload, payload)
       case Runtime(_, _, category, name) => item.TEvent? && item.category == category && item.name == name
       case Metadata(_, _, name) => item.TMetadata? && item.name == name
       case UnknownEntry(_, _, upstreamType, upstreamSubtype) =>
         item.TUnknown? && item.upstreamType == upstreamType && item.upstreamSubtype == upstreamSubtype
  }

  // ---------- and that it does ----------

  lemma LabelShown(s: string, max: nat)
    ensures ShowsLabel(TruncateChars(s, max), s, max)
  {}

  lemma BodyShown(p: Option<Payload>, ceiling: nat, left: nat)
    ensures ShowsBody(OptionalBody(p, ceiling, left), p)
  {
    if p.Some? {
      CutIsLongest(p.value.text, Min(ceiling, left), []);
    }
  }

  lemma ToolShown(e: Entry, left: nat)
    requires e.ToolCall?
    ensures ShowsTool(Activity(e, left), e)
  {
    LabelShown(e.summary, TOOL_SUMMARY_CEILING);
    BodyShown(e.input, TOOL_INPUT_CEILING, left);
    BodyShown(e.output, TOOL_OUTPUT_CEILING, AfterOptional(e.input, TOOL_INPUT_CEILING, left));
  }

  lemma MessageShown(e: Entry, left: nat)
    ensures MessageItemSpec(e, left).Some? <==> Drawn(e)
    ensures MessageItemSpec(e, left).Some? ==> ConversationShows(MessageItemSpec(e, left).value, e)
  {
    if e.ToolCall? {
      ToolShown(e, left);
    } else if e.Message? {
      KnownOrNot(e.content);
    }
  }

  lemma KnownOrNot(content: seq<Block>)
    ensures AllUnknown(content) <==> NothingKnown(content)
  {
    if NothingKnown(content) {
      forall i | 0 <= i < |content|
        ensures content[i].UnknownBlock?
      {
        assert content[i] in content;
      }
    }
  }

  lemma TranscriptShown(e: Entry, left: nat)
    ensures TranscriptShows(TranscriptItemSpec(e, left), e)
  {
    match e
    case ToolCall(_, _, _, _, _, _, _, _) => ToolShown(e, left);
    case Reasoning(_, _, _, text) => CutIsLongest(text, Min(REASONING_CEILING, left), []);
    case Attachment(_, _, _, payload) => BodyShown(payload, ATTACHMENT_CEILING, left);
    case _ =>
  }

  /** The entries the conversation draws, in order. */
  function Kept(es: seq<Entry>): seq<Entry> {
    if es == [] then [] else (if Drawn(es[0]) then [es[0]] else []) + Kept(es[1..])
  }

  /**
   The conversation page, for any budget: one row for each entry it draws and no other, in
   order, each showing its entry; a marker stands exactly for a turn nothing of which is known.
   */
  lemma {:induction false} ConversationExactly(es: seq<Entry>, left: nat)
    ensures |MessageItems(es, left)| == |Kept(es)|
    ensures forall i :: 0 <= i < |Kept(es)| ==> Drawn(Kept(es)[i]) && ConversationShows(MessageItems(es, left)[i], Kept(es)[i])
  {
    if es != [] {
      var next := Remaining(Shared(Demands(es[0])), left);
      MessageShown(es[0], left);
      ConversationExactly(es[1..], next);
      var mine := if Drawn(es[0]) then [es[0]] else [];
      var item := if Drawn(es[0]) then [MessageItemSpec(es[0], left).value] else [];
      assert Kept(es) == mine + Kept(es[1..]);
      assert MessageItems(es, left) == item + MessageItems(es[1..], next);
    }
  }

  /** The transcript page, for any budget: one row for each entry, in order, showing it. */
  lemma {:induction false} TranscriptExactly(es: seq<Entry>, left: nat)
    ensures |TranscriptItems(es, left)| == |es|
    ensures forall i :: 0 <= i < |es| ==> TranscriptShows(TranscriptItems(es, left)[i], es[i])
  {
    if es != [] {
      var next := Remaining(Demands(es[0]), left);
      TranscriptShown(es[0], left);
      TranscriptExactly(es[1..], next);
      assert TranscriptItems(es, left) == [TranscriptItemSpec(es[0], left)] + TranscriptItems(es[1..], next);
    }
  }
}
