/**
 The Markdown line machine of the public pages (pages/knowledge.js: `renderMarkdown`).

 What the regular expressions say about a line is part of the line.  The renderer keeps four
 accumulators and appends blocks to a parent element; an open list is an element already
 appended, to which items are still added.
 */
module Markdown {
  import opened Sequences
  import opened Wrappers

  datatype ListKind = Ordered | Unordered

  datatype Heading = Heading(hashes: nat, text: string)

  datatype Item = Item(kind: ListKind, text: string)

  /** A line and its matches; `trimmed` is the line without surrounding blanks. */
  datatype Line = Line(
    raw: string, opensFence: bool, closesFence: bool,
    heading: Option<Heading>, item: Option<Item>, quote: Option<string>, trimmed: string)

  datatype Block =
    | Pre(lines: seq<string>)
    | Head(level: nat, text: string)
    | List(kind: ListKind, items: seq<string>)
    | Quote(text: string)
    | Paragraph(parts: seq<string>)

  function Level(hashes: nat): nat {
    if hashes + 1 <= 6 then hashes + 1 else 6
  }

  // ---------- specification: group lines from the left ----------

  /** What a line is outside code; the first match decides. */
  datatype Class = Fence | HeadLine | ItemLine(kind: ListKind) | QuoteLine | BlankLine | TextLine

  function Classify(l: Line): Class {
    if l.opensFence then Fence
    else if l.heading.Some? then HeadLine
    else if l.item.Some? then ItemLine(l.item.value.kind)
    else if l.quote.Some? then QuoteLine
    else if l.trimmed == "" then BlankLine
    else TextLine
  }

  /** How many lines stand before the closing fence, or before the end. */
  function CodeSpan(ls: seq<Line>): (n: nat)
    ensures n <= |ls|
  {
    if ls == [] || ls[0].closesFence then 0 else 1 + CodeSpan(ls[1..])
  }

  /** The longest run of lines of one class. */
  function Span(ls: seq<Line>, c: Class): (n: nat)
    ensures n <= |ls|
    ensures forall i :: 0 <= i < n ==> Classify(ls[i]) == c
  {
    if ls == [] || Classify(ls[0]) != c then 0 else 1 + Span(ls[1..], c)
  }

  function Raws(ls: seq<Line>): seq<string> {
    if ls == [] then [] else [ls[0].raw] + Raws(ls[1..])
  }

  function Trims(ls: seq<Line>): seq<string> {
    if ls == [] then [] else [ls[0].trimmed] + Trims(ls[1..])
  }

  function ItemText(l: Line): string {
    if l.item.Some? then l.item.value.text else ""
  }

  function ItemTexts(ls: seq<Line>): seq<string> {
    if ls == [] then [] else [ItemText(ls[0])] + ItemTexts(ls[1..])
  }

  /** The lines after a code block: past its closing fence, if it has one. */
  function AfterCode(ls: seq<Line>): (rest: seq<Line>)
    ensures |rest| <= |ls|
  {
    var n := CodeSpan(ls);
    if n < |ls| then ls[n + 1..] else []
  }

  /** A document is its blocks: each run of lines that belong together is one. */
  function Group(ls: seq<Line>): seq<Block>
    decreases |ls|
  {
    if ls == [] then []
    else
      match Classify(ls[0])
      case Fence => [Pre(Raws(ls[1..][..CodeSpan(ls[1..])]))] + Group(AfterCode(ls[1..]))
      case HeadLine => [Head(Level(ls[0].heading.value.hashes), ls[0].heading.value.text)] + Group(ls[1..])
      case ItemLine(kind) =>
        var n := Span(ls[1..], ItemLine(kind));
        [List(kind, [ItemText(ls[0])] + ItemTexts(ls[1..][..n]))] + Group(ls[1..][n..])
      case QuoteLine => [Quote(ls[0].quote.value)] + Group(ls[1..])
      case BlankLine => Group(ls[1..])
      case TextLine =>
        var n := Span(ls[1..], TextLine);
        [Paragraph([ls[0].trimmed] + Trims(ls[1..][..n]))] + Group(ls[1..][n..])
  }

  // ---------- what is open ----------

  /** The accumulators: at most one of code, paragraph and list is open. */
  datatype Open = Nothing | InCode(code: seq<string>) | InParagraph(parts: seq<string>) | InList(kind: ListKind, items: seq<string>)

  /** The blocks still to come, the open one first. */
  function Completed(open: Open, rest: seq<Line>): seq<Block> {
    match open
    case Nothing => Group(rest)
    case InCode(code) => [Pre(code + Raws(rest[..CodeSpan(rest)]))] + Group(AfterCode(rest))
    case InParagraph(parts) =>
      var n := Span(rest, TextLine);
      [Paragraph(parts + Trims(rest[..n]))] + Group(rest[n..])
    case InList(kind, items) =>
      var n := Span(rest, ItemLine(kind));
      [List(kind, items + ItemTexts(rest[..n]))] + Group(rest[n..])
  }

  // ---------- the renderer ----------

  class Renderer {
    var parent: seq<Block>
    var list: Option<nat>  // which child of the parent is the open list
    var kind: Option<ListKind>
    var code: Option<seq<string>>
    var paragraph: seq<string>

    /** A non-empty paragraph means no open list, open code means neither. */
    ghost predicate Valid()
      reads this
    {
      && (paragraph != [] ==> list == None)
      && (code.Some? ==> list == None && paragraph == [])
      && (list.Some? ==>
            && parent != [] && list.value == |parent| - 1
            && parent[list.value].List? && kind == Some(parent[list.value].kind))
      && (list == None ==> kind == None)
    }

    /** The blocks that are complete. */
    ghost function Closed(): seq<Block>
      reads this
      requires Valid()
    {
      if list.Some? then parent[..|parent| - 1] else parent
    }

    ghost function OpenPart(): Open
      reads this
      requires Valid()
    {
      if code.Some? then InCode(code.value)
      else if paragraph != [] then InParagraph(paragraph)
      else if list.Some? then InList(parent[list.value].kind, parent[list.value].items)
      else Nothing
    }

    /** The document, if `rest` is all that follows. */
    ghost function Document(rest: seq<Line>): seq<Block>
      reads this
      requires Valid()
    {
      Closed() + Completed(OpenPart(), rest)
    }

    constructor ()
      ensures Valid() && parent == [] && OpenPart() == Nothing
    {
      parent, list, kind, code, paragraph := [], None, None, None, [];
    }

    /** `flush`. */
    method Flush()
      requires Valid() && code == None
      modifies this
      ensures Valid() && OpenPart() == Nothing && code == None
      ensures parent == Closed() == old(Closed() + Closing(OpenPart()))
    {
      if paragraph != [] {
        parent := parent + [Paragraph(paragraph)];
        paragraph := [];
      }
      list := None;
      kind := None;
    }

    /** The body of the line loop. */
    method Feed(line: Line)
      requires Valid()
      modifies this
      ensures Valid()
      ensures OpenPart() == Step(old(OpenPart()), line).1
      ensures Closed() == old(Closed()) + Step(old(OpenPart()), line).0
    {
      if code.Some? {
        FeedCode(line);
      } else if line.opensFence {
        Flush();
        code := Some([]);
      } else if line.heading.Some? {
        Flush();
        parent := parent + [Head(Level(line.heading.value.hashes), line.heading.value.text)];
      } else if line.item.Some? {
        FeedItem(line.item.value);
      } else if line.quote.Some? {
        Flush();
        parent := parent + [Quote(line.quote.value)];
      } else if line.trimmed == "" {
        Flush();
      } else {
        FeedText(line.trimmed);
      }
    }

    /** A line of text: into the open paragraph, or into a new one. */
    method FeedText(text: string)
      requires Valid() && code == None
      modifies this
      ensures Valid()
      ensures var was := old(OpenPart());
              if was.InParagraph? then
                Closed() == old(Closed()) && OpenPart() == InParagraph(was.parts + [text])
              else
                Closed() == old(Closed()) + Closing(was) && OpenPart() == InParagraph([text])
    {
      if list.Some? {
        Flush();
      }
      paragraph := paragraph + [text];
    }

    /** A line inside a code block: it ends the block or belongs to it. */
    method FeedCode(line: Line)
      requires Valid() && code.Some?
      modifies this
      ensures Valid()
      ensures OpenPart() == if line.closesFence then Nothing else InCode(old(code).value + [line.raw])
      ensures parent == Closed() == old(parent) + if line.closesFence then [Pre(old(code).value)] else []
    {
      if line.closesFence {
        parent := parent + [Pre(code.value)];
        code := None;
      } else {
        code := Some(code.value + [line.raw]);
      }
    }

    /** A list item: into the open list of its kind, or into a new one. */
    method FeedItem(item: Item)
      requires Valid() && code == None
      modifies this
      ensures Valid()
      ensures var was := old(OpenPart());
              if was.InList? && was.kind == item.kind then
                Closed() == old(Closed()) && OpenPart() == InList(item.kind, was.items + [item.text])
              else
                Closed() == old(Closed()) + Closing(was) && OpenPart() == InList(item.kind, [item.text])
    {
      if paragraph != [] {
        Flush();
      }
      var next := item.kind;
      if list == None || kind != Some(next) {
        parent := parent + [List(next, [])];
        list := Some(|parent| - 1);
        kind := Some(next);
      }
      var open := parent[list.value];
      parent := parent[list.value := List(next, open.items + [item.text])];
    }

    /** After the last line: an unclosed code block is still a block. */
    method Finish()
      requires Valid()
      modifies this
      ensures parent == old(Closed() + Closing(OpenPart()))
    {
      if code.Some? {
        parent := parent + [Pre(code.value)];
        code := None;
      }
      Flush();
    }
  }

  /** The blocks an open part turns into once something else begins. */
  function Closing(open: Open): seq<Block> {
    match open
    case Nothing => []
    case InCode(code) => [Pre(code)]
    case InParagraph(parts) => [Paragraph(parts)]
    case InList(kind, items) => [List(kind, items)]
  }

  /** What one more line does to what is open: it is closed, or goes on. */
  function Step(open: Open, l: Line): (seq<Block>, Open) {
    if open.InCode? then
      if l.closesFence then (Closing(open), Nothing) else ([], InCode(open.code + [l.raw]))
    else
      match Classify(l)
      case Fence => (Closing(open), InCode([]))
      case HeadLine => (Closing(open) + [Head(Level(l.heading.value.hashes), l.heading.value.text)], Nothing)
      case ItemLine(kind) =>
        if open.InList? && open.kind == kind then ([], InList(kind, open.items + [ItemText(l)]))
        else (Closing(open), InList(kind, [ItemText(l)]))
      case QuoteLine => (Closing(open) + [Quote(l.quote.value)], Nothing)
      case BlankLine => (Closing(open), Nothing)
      case TextLine =>
        if open.InParagraph? then ([], InParagraph(open.parts + [l.trimmed]))
        else (Closing(open), InParagraph([l.trimmed]))
  }

  /** The first line of a group opens it, or stands alone. */
  lemma GroupStep(l: Line, rest: seq<Line>)
    ensures Group([l] + rest) == Step(Nothing, l).0 + Completed(Step(Nothing, l).1, rest)
  {
    var ls := [l] + rest;
    assert ls[0] == l && ls[1..] == rest;
    assert [] + Completed(Step(Nothing, l).1, rest) == Completed(Step(Nothing, l).1, rest);
    match Classify(l)
    case Fence => assert [] + Raws(rest[..CodeSpan(rest)]) == Raws(rest[..CodeSpan(rest)]);
    case HeadLine =>
    case ItemLine(_) =>
    case QuoteLine =>
    case BlankLine =>
    case TextLine =>
  }

  lemma CodeStep(code: seq<string>, l: Line, rest: seq<Line>)
    ensures Completed(InCode(code), [l] + rest)
         == if l.closesFence then [Pre(code)] + Group(rest) else Completed(InCode(code + [l.raw]), rest)
  {
    CodeSpanStep(l, rest);
    var n := CodeSpan(rest);
    RawsCons(l, rest[..n]);
    ConcatAssociates(code, [l.raw], Raws(rest[..n]));
    assert code + Raws([]) == code;
  }

  lemma CodeSpanStep(l: Line, rest: seq<Line>)
    ensures var ls := [l] + rest;
            if l.closesFence then CodeSpan(ls) == 0 && ls[..0] == [] && AfterCode(ls) == rest
            else
              && CodeSpan(ls) == 1 + CodeSpan(rest)
              && ls[..CodeSpan(ls)] == [l] + rest[..CodeSpan(rest)]
              && AfterCode(ls) == AfterCode(rest)
  {
    var ls := [l] + rest;
    assert ls[1..] == rest;
    var n := CodeSpan(rest);
    assert !l.closesFence && n < |rest| ==> ls[n + 2..] == rest[n + 1..];
  }

  lemma RawsCons(l: Line, ls: seq<Line>)
    ensures Raws([l] + ls) == [l.raw] + Raws(ls)
  {
    assert ([l] + ls)[1..] == ls;
  }

  lemma ParagraphStep(parts: seq<string>, l: Line, rest: seq<Line>)
    ensures Completed(InParagraph(parts), [l] + rest)
         == if Classify(l) == TextLine then Completed(InParagraph(parts + [l.trimmed]), rest)
            else [Paragraph(parts)] + Group([l] + rest)
  {
    SpanStep(l, rest, TextLine);
    var n := Span(rest, TextLine);
    TrimsCons(l, rest[..n]);
    ConcatAssociates(parts, [l.trimmed], Trims(rest[..n]));
    assert parts + Trims([]) == parts;
  }

  lemma ListStep(kind: ListKind, items: seq<string>, l: Line, rest: seq<Line>)
    ensures Completed(InList(kind, items), [l] + rest)
         == if Classify(l) == ItemLine(kind) then Completed(InList(kind, items + [ItemText(l)]), rest)
            else [List(kind, items)] + Group([l] + rest)
  {
    SpanStep(l, rest, ItemLine(kind));
    var n := Span(rest, ItemLine(kind));
    ItemTextsCons(l, rest[..n]);
    ConcatAssociates(items, [ItemText(l)], ItemTexts(rest[..n]));
    assert items + ItemTexts([]) == items;
  }

  /** The line goes on with what is open. */
  predicate GoesOn(open: Open, l: Line) {
    match open
    case Nothing => false
    case InCode(_) => true
    case InParagraph(_) => Classify(l) == TextLine
    case InList(kind, _) => Classify(l) == ItemLine(kind)
  }

  /** A line that does not go on closes what is open and starts from nothing. */
  lemma StepCloses(open: Open, l: Line)
    requires !GoesOn(open, l)
    ensures Step(open, l).0 == Closing(open) + Step(Nothing, l).0
    ensures Step(open, l).1 == Step(Nothing, l).1
  {
    assert [] + Step(Nothing, l).0 == Step(Nothing, l).0;
    assert Closing(open) + [] == Closing(open);
  }

  lemma CompletedGoesOn(open: Open, l: Line, rest: seq<Line>)
    requires GoesOn(open, l)
    ensures Completed(open, [l] + rest) == Step(open, l).0 + Completed(Step(open, l).1, rest)
  {
    var later := Completed(Step(open, l).1, rest);
    assert [] + later == later;
    match open
    case InCode(code) => CodeStep(code, l, rest);
    case InParagraph(parts) => ParagraphStep(parts, l, rest);
    case InList(kind, items) => ListStep(kind, items, l, rest);
  }

  lemma CompletedCloses(open: Open, l: Line, rest: seq<Line>)
    requires !GoesOn(open, l)
    ensures Completed(open, [l] + rest) == Closing(open) + Group([l] + rest)
  {
    var all := Group([l] + rest);
    assert [] + all == all;
    match open
    case Nothing =>
    case InParagraph(parts) => ParagraphStep(parts, l, rest);
    case InList(kind, items) => ListStep(kind, items, l, rest);
  }

  /** One more line: what it completes, and then the rest. */
  lemma CompletedStep(open: Open, l: Line, rest: seq<Line>)
    ensures Completed(open, [l] + rest) == Step(open, l).0 + Completed(Step(open, l).1, rest)
  {
    if GoesOn(open, l) {
      CompletedGoesOn(open, l, rest);
    } else {
      CompletedCloses(open, l, rest);
      GroupStep(l, rest);
      StepCloses(open, l);
      ConcatAssociates(Closing(open), Step(Nothing, l).0, Completed(Step(open, l).1, rest));
    }
  }

  lemma DocumentStep(closed: seq<Block>, open: Open, l: Line, rest: seq<Line>)
    ensures closed + Completed(open, [l] + rest)
         == (closed + Step(open, l).0) + Completed(Step(open, l).1, rest)
  {
    CompletedStep(open, l, rest);
    ConcatAssociates(closed, Step(open, l).0, Completed(Step(open, l).1, rest));
  }

  lemma DocumentAt(closed: seq<Block>, open: Open, lines: seq<Line>, i: nat)
    requires i < |lines|
    ensures closed + Completed(open, lines[i..])
         == (closed + Step(open, lines[i]).0) + Completed(Step(open, lines[i]).1, lines[i + 1..])
  {
    assert lines[i..] == [lines[i]] + lines[i + 1..];
    DocumentStep(closed, open, lines[i], lines[i + 1..]);
  }

  lemma SpanStep(l: Line, rest: seq<Line>, c: Class)
    ensures var ls := [l] + rest;
            if Classify(l) == c then
              && Span(ls, c) == 1 + Span(rest, c)
              && ls[..Span(ls, c)] == [l] + rest[..Span(rest, c)]
              && ls[Span(ls, c)..] == rest[Span(rest, c)..]
            else Span(ls, c) == 0 && ls[..0] == [] && ls[0..] == ls
  {
    assert ([l] + rest)[1..] == rest;
  }

  lemma TrimsCons(l: Line, ls: seq<Line>)
    ensures Trims([l] + ls) == [l.trimmed] + Trims(ls)
  {
    assert ([l] + ls)[1..] == ls;
  }

  lemma ItemTextsCons(l: Line, ls: seq<Line>)
    ensures ItemTexts([l] + ls) == [ItemText(l)] + ItemTexts(ls)
  {
    assert ([l] + ls)[1..] == ls;
  }

  lemma CompletedNothing(open: Open)
    ensures Completed(open, []) == Closing(open)
  {
    var none: seq<Line> := [];
    assert none[..0] == [] && none[0..] == [];
    match open
    case Nothing =>
    case InCode(code) => assert code + Raws(none) == code;
    case InParagraph(parts) => assert parts + Trims(none) == parts;
    case InList(_, items) => assert items + ItemTexts(none) == items;
  }

  /** `renderMarkdown`: the line machine computes the grouping. */
  method RenderMarkdown(lines: seq<Line>) returns (blocks: seq<Block>)
    ensures blocks == Group(lines)
  {
    var r := new Renderer();
    assert lines[0..] == lines && [] + Group(lines) == Group(lines);
    for i := 0 to |lines|
      invariant r.Valid() && r.Document(lines[i..]) == Group(lines)
    {
      DocumentAt(r.Closed(), r.OpenPart(), lines, i);
      r.Feed(lines[i]);
    }
    assert lines[|lines|..] == [];
    CompletedNothing(r.OpenPart());
    r.Finish();
    return r.parent;
  }

  // ---------- every line is in exactly one block ----------

  /** What of a line a reader sees, and as what; of items and text, whether it begins its block. */
  datatype Shown = CodeOpens | CodeLine(text: string) | HeadText(level: nat, text: string)
                 | ItemShown(kind: ListKind, first: bool, text: string)
                 | QuoteText(text: string) | ParagraphPart(first: bool, text: string)

  function CodeLines(texts: seq<string>): seq<Shown> {
    if texts == [] then [] else [CodeLine(texts[0])] + CodeLines(texts[1..])
  }

  function ItemsShown(kind: ListKind, texts: seq<string>, first: bool): seq<Shown> {
    if texts == [] then [] else [ItemShown(kind, first, texts[0])] + ItemsShown(kind, texts[1..], false)
  }

  function PartsShown(texts: seq<string>, first: bool): seq<Shown> {
    if texts == [] then [] else [ParagraphPart(first, texts[0])] + PartsShown(texts[1..], false)
  }

  function BlockShown(b: Block): seq<Shown> {
    match b
    case Pre(lines) => [CodeOpens] + CodeLines(lines)
    case Head(level, text) => [HeadText(level, text)]
    case List(kind, items) => ItemsShown(kind, items, true)
    case Quote(text) => [QuoteText(text)]
    case Paragraph(parts) => PartsShown(parts, true)
  }

  function AllShown(bs: seq<Block>): seq<Shown> {
    if bs == [] then [] else BlockShown(bs[0]) + AllShown(bs[1..])
  }

  /** What stands just before a line. */
  datatype Previous = Apart | InsideCode | AfterText | AfterItem(kind: ListKind)

  /**
   Line by line, knowing only what stands just before: a fence opens code, an item or a text
   begins a block unless its own kind stands just before it, and blanks show nothing.
   */
  function LineByLine(ls: seq<Line>, previous: Previous): seq<Shown> {
    if ls == [] then []
    else
      var l, rest := ls[0], ls[1..];
      if previous == InsideCode then
        if l.closesFence then LineByLine(rest, Apart) else [CodeLine(l.raw)] + LineByLine(rest, InsideCode)
      else if l.opensFence then [CodeOpens] + LineByLine(rest, InsideCode)
      else if l.heading.Some? then
        [HeadText(if l.heading.value.hashes < 5 then l.heading.value.hashes + 1 else 6, l.heading.value.text)]
        + LineByLine(rest, Apart)
      else if l.item.Some? then
        var item := l.item.value;
        [ItemShown(item.kind, previous != AfterItem(item.kind), item.text)] + LineByLine(rest, AfterItem(item.kind))
      else if l.quote.Some? then [QuoteText(l.quote.value)] + LineByLine(rest, Apart)
      else if l.trimmed == "" then LineByLine(rest, Apart)
      else [ParagraphPart(previous != AfterText, l.trimmed)] + LineByLine(rest, AfterText)
  }

  /** What is open is what stands just before. */
  function Standing(open: Open): Previous {
    match open
    case Nothing => Apart
    case InCode(_) => InsideCode
    case InParagraph(_) => AfterText
    case InList(kind, _) => AfterItem(kind)
  }

  predicate NotEmpty(open: Open) {
    (open.InParagraph? ==> open.parts != []) && (open.InList? ==> open.items != [])
  }

  lemma {:induction false} AllShownConcat(a: seq<Block>, b: seq<Block>)
    ensures AllShown(a + b) == AllShown(a) + AllShown(b)
  {
    if a == [] {
      assert a + b == b;
    } else {
      assert (a + b)[1..] == a[1..] + b;
      AllShownConcat(a[1..], b);
    }
  }

  lemma {:induction false} ShownAppend(kind: ListKind, texts: seq<string>, t: string, first: bool)
    ensures CodeLines(texts + [t]) == CodeLines(texts) + [CodeLine(t)]
    ensures ItemsShown(kind, texts + [t], first)
         == ItemsShown(kind, texts, first) + [ItemShown(kind, first && texts == [], t)]
    ensures PartsShown(texts + [t], first) == PartsShown(texts, first) + [ParagraphPart(first && texts == [], t)]
  {
    if texts == [] {
      assert [] + [t] == [t];
      assert [t][1..] == [];
    } else {
      assert (texts + [t])[1..] == texts[1..] + [t];
      ShownAppend(kind, texts[1..], t, false);
    }
  }

  /** What the line adds to what is shown. */
  function Adds(open: Open, l: Line): seq<Shown> {
    if open.InCode? then (if l.closesFence then [] else [CodeLine(l.raw)])
    else
      match Classify(l)
      case Fence => [CodeOpens]
      case HeadLine => [HeadText(Level(l.heading.value.hashes), l.heading.value.text)]
      case ItemLine(kind) => [ItemShown(kind, Standing(open) != AfterItem(kind), ItemText(l))]
      case QuoteLine => [QuoteText(l.quote.value)]
      case BlankLine => []
      case TextLine => [ParagraphPart(Standing(open) != AfterText, l.trimmed)]
  }

  /** Going on shows one thing more at the end of what is open. */
  lemma GoingOnShows(open: Open, l: Line)
    requires GoesOn(open, l) && Step(open, l).1 != Nothing && NotEmpty(open)
    ensures AllShown(Closing(Step(open, l).1)) == AllShown(Closing(open)) + Adds(open, l)
  {
    match open
    case InCode(code) =>
      ShownAppend(Ordered, code, l.raw, true);
      ShownOne(Pre(code));
      ShownOne(Pre(code + [l.raw]));
    case InParagraph(parts) =>
      ShownAppend(Ordered, parts, l.trimmed, true);
      ShownOne(Paragraph(parts));
      ShownOne(Paragraph(parts + [l.trimmed]));
    case InList(kind, items) =>
      ShownAppend(kind, items, ItemText(l), true);
      ShownOne(List(kind, items));
      ShownOne(List(kind, items + [ItemText(l)]));
  }

  lemma StepKeepsNotEmpty(open: Open, l: Line)
    ensures NotEmpty(Step(open, l).1) || Step(open, l).1 == open
  {}

  /** A line that closes what is open shows what it would show with nothing open. */
  lemma ClosingAdds(open: Open, l: Line)
    requires !GoesOn(open, l)
    ensures Adds(open, l) == Adds(Nothing, l)
  {}

  lemma StepShows(open: Open, l: Line)
    requires NotEmpty(open)
    ensures AllShown(Step(open, l).0) + AllShown(Closing(Step(open, l).1)) == AllShown(Closing(open)) + Adds(open, l)
  {
    if !GoesOn(open, l) {
      var first, second := AllShown(Step(Nothing, l).0), AllShown(Closing(Step(Nothing, l).1));
      StepCloses(open, l);
      ClosingAdds(open, l);
      AllShownConcat(Closing(open), Step(Nothing, l).0);
      NothingShows(l);
      ConcatAssociates(AllShown(Closing(open)), first, second);
    } else if Step(open, l).1 == Nothing {
      assert AllShown(Closing(open)) + [] == AllShown(Closing(open));
    } else {
      GoingOnShows(open, l);
      var more := AllShown(Closing(Step(open, l).1));
      assert Step(open, l).0 == [] && [] + more == more;
    }
  }

  lemma ShownOne(b: Block)
    ensures AllShown([b]) == BlockShown(b)
  {
    assert [b][1..] == [];
    assert BlockShown(b) + [] == BlockShown(b);
  }

  lemma NothingShows(l: Line)
    ensures AllShown(Step(Nothing, l).0) + AllShown(Closing(Step(Nothing, l).1)) == Adds(Nothing, l)
  {
    match Classify(l)
    case Fence => ShownOne(Pre([]));
    case HeadLine => ShownOne(Head(Level(l.heading.value.hashes), l.heading.value.text));
    case ItemLine(kind) =>
      ShownOne(List(kind, [ItemText(l)]));
      SingleShown(kind, ItemText(l));
    case QuoteLine => ShownOne(Quote(l.quote.value));
    case BlankLine =>
    case TextLine =>
      ShownOne(Paragraph([l.trimmed]));
      SingleShown(Ordered, l.trimmed);
  }

  lemma SingleShown(kind: ListKind, t: string)
    ensures ItemsShown(kind, [t], true) == [ItemShown(kind, true, t)] && PartsShown([t], true) == [ParagraphPart(true, t)]
  {
    assert [t][1..] == [];
  }

  lemma {:induction false} ShownFrom(open: Open, ls: seq<Line>)
    requires NotEmpty(open)
    ensures AllShown(Completed(open, ls)) == AllShown(Closing(open)) + LineByLine(ls, Standing(open))
    decreases |ls|
  {
    if ls == [] {
      CompletedNothing(open);
    } else {
      var l, rest := ls[0], ls[1..];
      var open' := Step(open, l).1;
      assert ls == [l] + rest;
      CompletedStep(open, l, rest);
      AllShownConcat(Step(open, l).0, Completed(open', rest));
      StepKeepsNotEmpty(open, l);
      ShownFrom(open', rest);
      StepShows(open, l);
      LineByLineStep(open, l, rest);
      var later := LineByLine(rest, Standing(open'));
      ConcatAssociates(AllShown(Step(open, l).0), AllShown(Closing(open')), later);
      ConcatAssociates(AllShown(Closing(open)), Adds(open, l), later);
    }
  }

  lemma LineByLineStep(open: Open, l: Line, rest: seq<Line>)
    ensures LineByLine([l] + rest, Standing(open)) == Adds(open, l) + LineByLine(rest, Standing(Step(open, l).1))
  {
    if open.InCode? {
      CodeLineStep(open, l, rest);
    } else {
      PlainLineStep(open, l, rest);
    }
  }

  lemma CodeLineStep(open: Open, l: Line, rest: seq<Line>)
    requires open.InCode?
    ensures LineByLine([l] + rest, InsideCode) == Adds(open, l) + LineByLine(rest, Standing(Step(open, l).1))
  {
    assert ([l] + rest)[0] == l && ([l] + rest)[1..] == rest;
  }

  lemma PlainLineStep(open: Open, l: Line, rest: seq<Line>)
    requires !open.InCode?
    ensures LineByLine([l] + rest, Standing(open)) == Adds(open, l) + LineByLine(rest, Standing(Step(open, l).1))
  {
    assert ([l] + rest)[0] == l && ([l] + rest)[1..] == rest;
    StandsAfter(open, l);
  }

  /** What stands before the next line is this one, whatever is open. */
  lemma StandsAfter(open: Open, l: Line)
    requires !open.InCode?
    ensures Standing(Step(open, l).1) ==
              match Classify(l)
              case Fence => InsideCode
              case ItemLine(kind) => AfterItem(kind)
              case TextLine => AfterText
              case _ => Apart
  {}

  /**
   Each line that is neither a fence nor blank outside code is shown once, in source order, and
   begins a block or belongs to the one before by what stands just before it.
   */
  lemma EveryLineOnce(ls: seq<Line>)
    ensures AllShown(Group(ls)) == LineByLine(ls, Apart)
  {
    ShownFrom(Nothing, ls);
  }

  /**
   Items of one kind on consecutive lines share a list, whatever is open before them: the
   second adds to the list the first is in.
   */
  lemma AdjacentItemsShare(open: Open, a: Line, b: Line, rest: seq<Line>)
    requires !open.InCode? && Classify(a).ItemLine? && Classify(b) == Classify(a)
    ensures exists before: seq<Block>, items: seq<string> ::
              Completed(open, [a] + ([b] + rest))
              == before + Completed(InList(Classify(a).kind, items + [ItemText(a), ItemText(b)]), rest)
  {
    var kind := Classify(a).kind;
    var items := if open.InList? && open.kind == kind then open.items else [];
    CompletedStep(open, a, [b] + rest);
    assert Step(open, a).1 == InList(kind, items + [ItemText(a)]);
    SecondItem(kind, items, ItemText(a), b, rest);
  }

  lemma SecondItem(kind: ListKind, items: seq<string>, first: string, b: Line, rest: seq<Line>)
    requires Classify(b) == ItemLine(kind)
    ensures Completed(InList(kind, items + [first]), [b] + rest)
         == Completed(InList(kind, items + [first, ItemText(b)]), rest)
  {
    ListStep(kind, items + [first], b, rest);
    assert items + [first] + [ItemText(b)] == items + [first, ItemText(b)];
  }
}
