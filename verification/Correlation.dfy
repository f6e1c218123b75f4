/**
 Request/reply correlation on one client connection (crates/nession-client/src/connection.rs).

 What the socket will deliver is a sequence of arrivals; the deadline of a call is one of
 them, and an exhausted sequence is a deadline too.  Replies are matched by id alone.
 */
module Correlation {
  import opened Numerals
  import opened Sequences
  import opened Wrappers

  /** A frame: an envelope, text that is none, or transport chatter. */
  datatype Frame = Text(id: string, payload: string) | NotAnEnvelope | Ping | Pong | Binary | RawFrame | Close

  datatype Arrival = Arrived(frame: Frame) | StreamEnd | TransportFailure | DeadlineReached

  datatype ClientError = FrameError | SendError | Timeout | Closed | Transport | ReplyError

  /** Whether the request could be encoded and written. */
  datatype Sending = Sent | CannotEncode | CannotSend

  /** How waiting ends. */
  datatype Waited = Replied(payload: string) | Failed(error: ClientError)

  function RequestId(n: nat): string {
    "client-" + Numeral(n, 10)
  }

  /** A counter cannot collide. */
  lemma RequestIdInjective(m: nat, n: nat)
    ensures RequestId(m) == RequestId(n) <==> m == n
  {
    NumeralInjective(m, n, 10);
    assert RequestId(m)[7..] == Numeral(m, 10) && RequestId(n)[7..] == Numeral(n, 10);
  }

  /** What one arrival means to a call waiting for `id`: nothing, or the end of its wait. */
  function Verdict(a: Arrival, id: string): Option<Waited> {
    match a
    case Arrived(Text(i, payload)) => if i == id then Some(Replied(payload)) else None
    case Arrived(NotAnEnvelope) => Some(Failed(FrameError))
    case Arrived(Close) => Some(Failed(Closed))
    case Arrived(_) => None
    case StreamEnd => Some(Failed(Closed))
    case TransportFailure => Some(Failed(Transport))
    case DeadlineReached => Some(Failed(Timeout))
  }

  /** How many arrivals a call consumes, and how its wait ends. */
  function Await(incoming: seq<Arrival>, id: string): (r: (nat, Waited))
    ensures r.0 <= |incoming|
  {
    if incoming == [] then (0, Failed(Timeout))
    else
      match Verdict(incoming[0], id)
      case Some(waited) => (1, waited)
      case None =>
        var (n, waited) := Await(incoming[1..], id);
        (n + 1, waited)
  }

  function Outcome<R>(waited: Waited, decode: string -> Option<R>): Result<R, ClientError> {
    match waited
    case Failed(e) => Err(e)
    case Replied(payload) => match decode(payload) case Some(r) => Ok(r) case None => Err(ReplyError)
  }

  class ClientConnection {
    var seqNo: nat
    var incoming: seq<Arrival>

    constructor (incoming: seq<Arrival>)
      ensures seqNo == 0 && this.incoming == incoming
    {
      seqNo := 0;
      this.incoming := incoming;
    }

    /** `next_id`. */
    method NextId() returns (id: string)
      modifies this`seqNo
      ensures seqNo == old(seqNo) + 1 && id == RequestId(seqNo)
    {
      seqNo := seqNo + 1;
      id := RequestId(seqNo);
    }

    /** `request_within`: one request, and the frames up to its reply or its failure. */
    method RequestWithin<R>(sending: Sending, decode: string -> Option<R>) returns (r: Result<R, ClientError>)
      modifies this
      ensures seqNo == old(seqNo) + 1
      ensures sending == CannotEncode ==> r == Err(FrameError) && incoming == old(incoming)
      ensures sending == CannotSend ==> r == Err(SendError) && incoming == old(incoming)
      ensures sending == Sent ==>
                var (n, waited) := Await(old(incoming), RequestId(seqNo));
                r == Outcome(waited, decode) && incoming == old(incoming)[n..]
    {
      var id := NextId();
      match sending {
        case CannotEncode => return Err(FrameError);
        case CannotSend => return Err(SendError);
        case Sent =>
      }
      ghost var all := incoming;
      ghost var consumed: nat := 0;
      while true
        invariant consumed <= |all| && incoming == all[consumed..]
        invariant Await(all, id) == (consumed + Await(incoming, id).0, Await(incoming, id).1)
        invariant seqNo == old(seqNo) + 1
        decreases |incoming|
      {
        if incoming == [] {
          return Err(Timeout);
        }
        var a := incoming[0];
        incoming := incoming[1..];
        consumed := consumed + 1;
        match a {
          case StreamEnd => return Err(Closed);
          case TransportFailure => return Err(Transport);
          case DeadlineReached => return Err(Timeout);
          case Arrived(frame) =>
            match frame {
              case Text(i, payload) =>
                if i == id {
                  var decoded := decode(payload);
                  return if decoded.Some? then Ok(decoded.value) else Err(ReplyError);
                }
              case NotAnEnvelope => return Err(FrameError);
              case Close => return Err(Closed);
              case Ping =>
              case Pong =>
              case Binary =>
              case RawFrame =>
            }
        }
      }
    }
  }

  // ---------- a server that uses an id only to answer its request ----------

  /** `Answer(k, p)` answers the connection's `k`-th request; a push has an id of its own. */
  datatype ServerEvent =
    | Answer(call: nat, payload: string)
    | Push(id: string, payload: string)
    | Other(arrival: Arrival)

  ghost predicate Honest(e: ServerEvent) {
    match e
    case Answer(_, _) => true
    case Push(id, _) => forall n: nat :: id != RequestId(n)
    case Other(a) => !(a.Arrived? && a.frame.Text?)
  }

  function Delivered(e: ServerEvent): Arrival {
    match e
    case Answer(k, p) => Arrived(Text(RequestId(k), p))
    case Push(id, p) => Arrived(Text(id, p))
    case Other(a) => a
  }

  function Stream(es: seq<ServerEvent>): (s: seq<Arrival>)
    ensures |s| == |es| && forall i :: 0 <= i < |es| ==> s[i] == Delivered(es[i])
  {
    seq(|es|, i requires 0 <= i < |es| => Delivered(es[i]))
  }

  /** What ends call `k`: its own answer, or a failure of the connection, never anything else. */
  function Ends(e: ServerEvent, k: nat): Option<Waited> {
    match e
    case Answer(j, p) => if j == k then Some(Replied(p)) else None
    case Push(_, _) => None
    case Other(a) => if Breaks(a).Some? then Some(Failed(Breaks(a).value)) else None
  }

  /** The failure an arrival is for every call waiting; keepalives and chatter are none. */
  function Breaks(a: Arrival): Option<ClientError> {
    if a == StreamEnd || a == Arrived(Close) then Some(Closed)
    else if a == TransportFailure then Some(Transport)
    else if a == DeadlineReached then Some(Timeout)
    else if a == Arrived(NotAnEnvelope) then Some(FrameError)
    else None
  }

  lemma VerdictIsEnds(e: ServerEvent, k: nat)
    requires Honest(e)
    ensures Verdict(Delivered(e), RequestId(k)) == Ends(e, k)
  {
    if e.Answer? {
      RequestIdInjective(e.call, k);
    }
  }

  /**
   Call `k` is ended by the first event that may end it, and by no other: pushes, keepalives
   and stale answers of abandoned calls are passed over, however many there are.
   */
  lemma {:induction false} AwaitExactly(es: seq<ServerEvent>, k: nat)
    requires AllHonest(es)
    ensures var (n, waited) := Await(Stream(es), RequestId(k));
            || (1 <= n <= |es| && Ends(es[n - 1], k) == Some(waited)
                && forall i :: 0 <= i < n - 1 ==> Ends(es[i], k) == None)
            || (n == |es| && waited == Failed(Timeout) && forall i :: 0 <= i < |es| ==> Ends(es[i], k) == None)
  {
    if es != [] {
      VerdictIsEnds(es[0], k);
      if Ends(es[0], k) == None {
        assert Stream(es)[1..] == Stream(es[1..]);
        AwaitExactly(es[1..], k);
      }
    }
  }

  /** A reply is returned exactly when it is there before anything that ends the call. */
  lemma RepliedExactly(es: seq<ServerEvent>, k: nat, p: string)
    requires AllHonest(es)
    ensures Await(Stream(es), RequestId(k)).1 == Replied(p) <==>
              exists m :: 0 <= m < |es| && es[m] == Answer(k, p) && forall i :: 0 <= i < m ==> Ends(es[i], k) == None
  {
    AwaitExactly(es, k);
    var (n, waited) := Await(Stream(es), RequestId(k));
    if waited == Replied(p) {
      assert es[n - 1] == Answer(k, p);
    }
    forall m | 0 <= m < |es| && es[m] == Answer(k, p) && forall i :: 0 <= i < m ==> Ends(es[i], k) == None
      ensures waited == Replied(p)
    {
      assert Ends(es[m], k).Some?;
    }
  }

  /** The event that ends call `k` is the first of `es` that may. */
  ghost predicate EndedBy(es: seq<ServerEvent>, k: nat, m: nat) {
    && m < |es| && Ends(es[m], k).Some?
    && forall i :: 0 <= i < m ==> Ends(es[i], k) == None
  }

  lemma EndedByExactly(es: seq<ServerEvent>, k: nat, m: nat)
    requires AllHonest(es) && EndedBy(es, k, m)
    ensures Await(Stream(es), RequestId(k)) == (m + 1, Ends(es[m], k).value)
  {
    AwaitExactly(es, k);
    var (n, waited) := Await(Stream(es), RequestId(k));
  }

  /**
   What a caller gets: what its own answer decodes to, if that comes first; an error of the
   reply when it does not decode; and else the failure of the connection that came first, or a
   timeout when nothing did.
   */
  lemma OutcomeExactly<R>(es: seq<ServerEvent>, k: nat, decode: string -> Option<R>)
    requires AllHonest(es)
    ensures var r := Outcome(Await(Stream(es), RequestId(k)).1, decode);
            && (forall m: nat :: EndedBy(es, k, m) ==>
                  match es[m]
                  case Answer(_, p) => if decode(p).Some? then r == Ok(decode(p).value) else r == Err(ReplyError)
                  case Push(_, _) => false
                  case Other(a) => Breaks(a).Some? && r == Err(Breaks(a).value))
            && ((forall m: nat :: !EndedBy(es, k, m)) ==> r == Err(Timeout))
  {
    forall m: nat | EndedBy(es, k, m)
      ensures Await(Stream(es), RequestId(k)).1 == Ends(es[m], k).value
    {
      EndedByExactly(es, k, m);
    }
    AwaitExactly(es, k);
    var (n, waited) := Await(Stream(es), RequestId(k));
    if waited != Failed(Timeout) {
      assert EndedBy(es, k, n - 1);
    }
  }

  // ---------- whole runs ----------

  /** How one call ends, and how many arrivals it consumes. */
  function CallEnd(es: seq<ServerEvent>, k: nat, sending: Sending): (r: (nat, Waited))
    ensures r.0 <= |es|
  {
    match sending
    case CannotEncode => (0, Failed(FrameError))
    case CannotSend => (0, Failed(SendError))
    case Sent => Await(Stream(es), RequestId(k))
  }

  /** The ends of the calls numbered from `first`, one after another over one stream. */
  function Run(es: seq<ServerEvent>, first: nat, sendings: seq<Sending>): (r: seq<Waited>)
    ensures |r| == |sendings|
    decreases |sendings|
  {
    if sendings == [] then []
    else
      var (n, waited) := CallEnd(es, first, sendings[0]);
      [waited] + Run(es[n..], first + 1, sendings[1..])
  }

  /** What was returned, if anything, is an answer to request `k`. */
  predicate AnswersCall(waited: Waited, k: nat, es: seq<ServerEvent>) {
    waited.Replied? ==> Answer(k, waited.payload) in es
  }

  lemma CallEndCorrelates(es: seq<ServerEvent>, k: nat, sending: Sending)
    requires AllHonest(es)
    ensures AnswersCall(CallEnd(es, k, sending).1, k, es)
  {
    AwaitExactly(es, k);
  }

  ghost predicate AllHonest(es: seq<ServerEvent>) {
    forall i :: 0 <= i < |es| ==> Honest(es[i])
  }

  lemma LaterStream(es: seq<ServerEvent>, n: nat, waited: Waited, k: nat)
    requires n <= |es| && AnswersCall(waited, k, es[n..])
    ensures AnswersCall(waited, k, es)
  {}

  lemma RunAt(es: seq<ServerEvent>, first: nat, sendings: seq<Sending>, i: nat)
    requires i < |sendings|
    ensures var n := CallEnd(es, first, sendings[0]).0;
            Run(es, first, sendings)[i]
            == if i == 0 then CallEnd(es, first, sendings[0]).1 else Run(es[n..], first + 1, sendings[1..])[i - 1]
  {}

  /**
   Over a whole run, under any mix of pushes, keepalives, timeouts, failures and late replies,
   a payload returned for the `i`-th call is the payload of an answer to that very call.
   */
  lemma {:induction false} RunCorrelates(es: seq<ServerEvent>, first: nat, sendings: seq<Sending>, i: nat)
    requires AllHonest(es) && i < |sendings|
    ensures AnswersCall(Run(es, first, sendings)[i], first + i, es)
    decreases i
  {
    RunAt(es, first, sendings, i);
    if i == 0 {
      CallEndCorrelates(es, first, sendings[0]);
    } else {
      var n := CallEnd(es, first, sendings[0]).0;
      var rest := Run(es[n..], first + 1, sendings[1..]);
      RunCorrelates(es[n..], first + 1, sendings[1..], i - 1);
      LaterStream(es, n, rest[i - 1], first + i);
    }
  }

  /** How many events the first `i` calls of a run consume. */
  function Consumed(es: seq<ServerEvent>, first: nat, sendings: seq<Sending>, i: nat): (n: nat)
    requires i <= |sendings|
    ensures n <= |es|
    decreases i
  {
    if i == 0 then 0
    else
      var n := CallEnd(es, first, sendings[0]).0;
      n + Consumed(es[n..], first + 1, sendings[1..], i - 1)
  }

  /** What the first `i` calls of a run leave. */
  function Left(es: seq<ServerEvent>, first: nat, sendings: seq<Sending>, i: nat): seq<ServerEvent>
    requires i <= |sendings|
    decreases i
  {
    if i == 0 then es
    else Left(es[CallEnd(es, first, sendings[0]).0..], first + 1, sendings[1..], i - 1)
  }

  lemma {:induction false} LeftIsSlice(es: seq<ServerEvent>, first: nat, sendings: seq<Sending>, i: nat)
    requires i <= |sendings|
    ensures Left(es, first, sendings, i) == es[Consumed(es, first, sendings, i)..]
    decreases i
  {
    if i == 0 {
      assert es[0..] == es;
    } else {
      var n := CallEnd(es, first, sendings[0]).0;
      LeftIsSlice(es[n..], first + 1, sendings[1..], i - 1);
      SliceOfSlice(es, n, Consumed(es[n..], first + 1, sendings[1..], i - 1));
    }
  }

  /** The `i`-th call of a run is a call on what the earlier ones left. */
  lemma {:induction false} RunIsCallEnd(es: seq<ServerEvent>, first: nat, sendings: seq<Sending>, i: nat,
                                        k: nat, sending: Sending)
    requires i < |sendings| && k == first + i && sending == sendings[i]
    ensures Run(es, first, sendings)[i] == CallEnd(Left(es, first, sendings, i), k, sending).1
    decreases i
  {
    RunAt(es, first, sendings, i);
    if i > 0 {
      RunIsCallEnd(es[CallEnd(es, first, sendings[0]).0..], first + 1, sendings[1..], i - 1, k, sending);
    }
  }

  /** The answer to call `k` is the first event from `from` on that ends the call. */
  ghost predicate AnsweredFrom(es: seq<ServerEvent>, from: nat, k: nat, p: string) {
    exists m :: from <= m < |es| && es[m] == Answer(k, p) && forall j :: from <= j < m ==> Ends(es[j], k) == None
  }

  lemma AnsweredLater(es: seq<ServerEvent>, from: nat, k: nat, p: string)
    requires from <= |es|
    ensures AnsweredFrom(es, from, k, p) <==> AnsweredFrom(es[from..], 0, k, p)
  {
    var rest := es[from..];
    if m :| from <= m < |es| && es[m] == Answer(k, p) && forall j :: from <= j < m ==> Ends(es[j], k) == None {
      assert rest[m - from] == Answer(k, p);
    }
    if m :| 0 <= m < |rest| && rest[m] == Answer(k, p) && forall j :: 0 <= j < m ==> Ends(rest[j], k) == None {
      assert es[from + m] == Answer(k, p);
      forall j | from <= j < from + m
        ensures Ends(es[j], k) == None
      {
        assert rest[j - from] == es[j];
      }
    }
  }

  /**
   Exactly which calls of a run are answered: the `i`-th returns a payload when, and only when,
   it was sent and its own answer comes, after what the earlier calls consumed, before anything
   that ends it.
   */
  lemma RunRepliesExactly(es: seq<ServerEvent>, first: nat, sendings: seq<Sending>, i: nat, p: string)
    requires AllHonest(es) && i < |sendings|
    ensures Run(es, first, sendings)[i] == Replied(p)
       <==> sendings[i] == Sent && AnsweredFrom(es, Consumed(es, first, sendings, i), first + i, p)
  {
    var from := Consumed(es, first, sendings, i);
    RunIsCallEnd(es, first, sendings, i, first + i, sendings[i]);
    LeftIsSlice(es, first, sendings, i);
    AnsweredLater(es, from, first + i, p);
    RepliedExactly(es[from..], first + i, p);
  }

  /** Late replies to abandoned calls delay a call by exactly their number and change nothing else. */
  lemma {:induction false} LateRepliesDoNotMatter(stale: seq<ServerEvent>, es: seq<ServerEvent>, k: nat)
    requires forall j :: 0 <= j < |stale| ==> Honest(stale[j]) && Ends(stale[j], k) == None
    ensures Await(Stream(stale + es), RequestId(k)).0 == |stale| + Await(Stream(es), RequestId(k)).0
    ensures Await(Stream(stale + es), RequestId(k)).1 == Await(Stream(es), RequestId(k)).1
  {
    if stale == [] {
      assert stale + es == es;
    } else {
      VerdictIsEnds(stale[0], k);
      assert Stream(stale + es)[1..] == Stream(stale[1..] + es);
      LateRepliesDoNotMatter(stale[1..], es, k);
    }
  }
}
