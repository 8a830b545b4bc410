/** The agent message protocol: length-prefixed frames served by `process_agent_messages`
    (crates/vyoma-agent-vm/src/main.rs) and the client half in `exec_command` (crates/vyomad/src/grpc.rs).
    JSON and the handling of a request are inputs. */
module AgentFrames {
  import opened Outcomes
  import opened Text

  type Byte = b: int | 0 <= b < 256
  type Bytes = seq<Byte>

  const MAX_MESSAGE: nat := 1024 * 1024

  // ---------- Frames ----------

  /** `(len as u32).to_be_bytes()`: a length beyond 32 bits is truncated. */
  function Be32(len: nat): Bytes {
    var d := len % U32;
    var c := d / 256;
    var b := c / 256;
    [b / 256, b % 256, c % 256, d % 256]
  }

  function FromBe32(b: Bytes): (n: nat)
    requires |b| == 4
    ensures n < U32
  {
    var b0: int, b1: int, b2: int, b3: int := b[0], b[1], b[2], b[3];
    ((b0 * 256 + b1) * 256 + b2) * 256 + b3
  }

  function Frame(payload: Bytes): Bytes { Be32(|payload|) + payload }

  function Wire(payloads: seq<Bytes>): Bytes {
    if payloads == [] then [] else Frame(payloads[0]) + Wire(payloads[1..])
  }

  /** Reading one frame: four bytes of length, then that many bytes. */
  function ReadFrame(stream: Bytes): Option<(Bytes, Bytes)> {
    if |stream| < 4 then None
    else
      var len := FromBe32(stream[..4]);
      if |stream| - 4 < len then None else Some((stream[4..4 + len], stream[4 + len..]))
  }

  lemma Be32RoundTrip(len: nat)
    ensures FromBe32(Be32(len)) == len % U32
  {
    var d := len % U32;
    var c := d / 256;
    var b := c / 256;
    assert d == c * 256 + d % 256 && c == b * 256 + c % 256 && b == b / 256 * 256 + b % 256;
  }

  /** The header is big-endian: the most significant byte of the length goes first. */
  lemma Be32IsBigEndian(len: nat)
    requires len < 0x1_0000_0000
    ensures Be32(len)[0] == len / 0x100_0000 && Be32(len)[1] == len / 0x1_0000 % 0x100
    ensures Be32(len)[2] == len / 0x100 % 0x100 && Be32(len)[3] == len % 0x100
  {
    assert len / 256 / 256 == len / 0x1_0000 && len / 0x1_0000 / 256 == len / 0x100_0000;
  }

  lemma FrameSplit(payload: Bytes, rest: Bytes)
    ensures var s := Frame(payload) + rest;
      |s| >= 4 && s[..4] == Be32(|payload|) && s[4..] == payload + rest && FromBe32(s[..4]) == |payload| % U32
  {
    Be32RoundTrip(|payload|);
    var s := Frame(payload) + rest;
    assert s[..4] == Be32(|payload|);
  }

  /** Reading takes as much of the payload as its length modulo 2^32 says. */
  lemma FrameRead(payload: Bytes, rest: Bytes)
    ensures var n := |payload| % U32; ReadFrame(Frame(payload) + rest) == Some((payload[..n], payload[n..] + rest))
  {
    FrameSplit(payload, rest);
    var s, n := Frame(payload) + rest, |payload| % U32;
    assert s[4..4 + n] == s[4..][..n] == payload[..n];
    assert s[4 + n..] == s[4..][n..] == payload[n..] + rest;
  }

  /** A frame is read back, with nothing taken from what follows, exactly when its length fits 32 bits. */
  lemma FrameRoundTripIff(payload: Bytes, rest: Bytes)
    ensures ReadFrame(Frame(payload) + rest) == Some((payload, rest)) <==> |payload| < U32
  {
    FrameRead(payload, rest);
    if |payload| < U32 {
      assert payload[..|payload|] == payload && payload[|payload|..] + rest == rest;
    }
  }

  // ---------- The agent ----------

  /** The agent's decisions. `handle` may depend on how many requests came before. All results are response JSON. */
  datatype Agent = Agent(
    isUtf8: Bytes -> bool,
    utf8Error: Bytes -> Bytes,
    isRequest: Bytes -> bool,
    requestError: Bytes -> Bytes,
    handle: (nat, Bytes) -> Bytes,
    tooLarge: Bytes)

  /** The response to the `n`-th non-empty message. */
  function Reply(agent: Agent, n: nat, data: Bytes): Bytes {
    if !agent.isUtf8(data) then agent.utf8Error(data)
    else if !agent.isRequest(data) then agent.requestError(data)
    else agent.handle(n, data)
  }

  /** Everything the agent writes when the stream delivers `input` and then ends; `n` messages came before. */
  function Session(agent: Agent, input: Bytes, n: nat): Bytes
    decreases |input|
  {
    if |input| < 4 then []
    else
      var len := FromBe32(input[..4]);
      if len > MAX_MESSAGE then Frame(agent.tooLarge)
      else if |input| - 4 < len then []
      else
        var data, rest := input[4..4 + len], input[4 + len..];
        if data == [] then Session(agent, rest, n)
        else Frame(Reply(agent, n, data)) + Session(agent, rest, n + 1)
  }

  lemma PrefixBehind(a: Bytes, b: Bytes, c: Bytes)
    requires b <= c
    ensures a + b <= a + c
  {
  }

  lemma FrameOfLonger(input: Bytes, more: Bytes, len: nat)
    requires 4 + len <= |input|
    ensures var all := input + more;
      all[..4] == input[..4] && all[4..4 + len] == input[4..4 + len] && all[4 + len..] == input[4 + len..] + more
  {
  }

  /** What the agent has written when a prefix of the stream has arrived is a prefix of what it writes for all of it. */
  lemma {:induction false} SessionPrefix(agent: Agent, input: Bytes, more: Bytes, n: nat)
    ensures Session(agent, input, n) <= Session(agent, input + more, n)
    decreases |input|
  {
    if |input| >= 4 {
      FrameOfLonger(input, more, 0);
      var len := FromBe32(input[..4]);
      if len <= MAX_MESSAGE && len <= |input| - 4 {
        FrameOfLonger(input, more, len);
        var data, rest := input[4..4 + len], input[4 + len..];
        SessionPrefix(agent, rest, more, if data == [] then n else n + 1);
        if data != [] {
          PrefixBehind(Frame(Reply(agent, n, data)), Session(agent, rest, n + 1), Session(agent, rest + more, n + 1));
        }
      }
    }
  }

  /** `left` is what the stream has yet to deliver. */
  method ProcessAgentMessages(agent: Agent, input: Bytes) returns (output: Bytes)
    ensures output == Session(agent, input, 0)
    ensures forall payloads, tail :: Decomposes(input, payloads, tail) ==> Serves(agent, payloads, tail, output)
  {
    output := [];
    var left, n, open := input, 0, true;
    ghost var whole := Session(agent, input, 0);
    EmptyUnit(whole);
    while open
      invariant output + (if open then Session(agent, left, n) else []) == whole
      decreases if open then |left| + 1 else 0
    {
      var written;
      ghost var before := output;
      open, written, left, n := ServeNext(agent, left, n);
      output := output + written;
      Assoc(before, written, Session(agent, left, n));
      EmptyUnit(output);
    }
    EmptyUnit(output);
    forall payloads, tail | Decomposes(input, payloads, tail) ensures Serves(agent, payloads, tail, output) {
      SessionServes(agent, payloads, tail);
    }
  }

  /** One turn of the loop: what it writes, what is left to read, and whether it goes on. */
  method ServeNext(agent: Agent, left: Bytes, n: nat) returns (open: bool, written: Bytes, rest: Bytes, n': nat)
    ensures open ==> |rest| < |left|
    ensures Session(agent, left, n) == if open then written + Session(agent, rest, n') else written
  {
    if |left| < 4 {
      return false, [], left, n;
    }
    var len := FromBe32(left[..4]);
    if len > MAX_MESSAGE {
      return false, Be32(|agent.tooLarge|) + agent.tooLarge, left, n;
    }
    if |left| - 4 < len {
      return false, [], left, n;
    }
    var data := left[4..4 + len];
    rest := left[4 + len..];
    if data == [] {
      EmptyUnit(Session(agent, rest, n));
      return true, [], rest, n;
    }
    var response := Respond(agent, n, data);
    return true, Be32(|response|) + response, rest, n + 1;
  }

  method Respond(agent: Agent, n: nat, data: Bytes) returns (response: Bytes)
    ensures response == Reply(agent, n, data)
  {
    if !agent.isUtf8(data) {
      return agent.utf8Error(data);
    }
    if !agent.isRequest(data) {
      return agent.requestError(data);
    }
    response := agent.handle(n, data);
  }

  // ---------- Any byte stream ----------

  /** A cut-off last frame: an incomplete header, or an acceptable length with too few bytes behind it. */
  predicate Truncated(tail: Bytes) {
    |tail| < 4 || (FromBe32(tail[..4]) <= MAX_MESSAGE && |tail| - 4 < FromBe32(tail[..4]))
  }

  predicate Oversize(tail: Bytes) { |tail| >= 4 && FromBe32(tail[..4]) > MAX_MESSAGE }

  ghost predicate Acceptable(payloads: seq<Bytes>) {
    forall i :: 0 <= i < |payloads| ==> |payloads[i]| <= MAX_MESSAGE
  }

  /** The stream is the frames of the payloads, none over the limit, and a tail that is no acceptable frame. */
  ghost predicate Decomposes(input: Bytes, payloads: seq<Bytes>, tail: Bytes) {
    input == Wire(payloads) + tail && Acceptable(payloads) && (Truncated(tail) || Oversize(tail))
  }

  /** One response per non-empty message, in order. */
  function Answers(agent: Agent, payloads: seq<Bytes>, n: nat): seq<Bytes> {
    if payloads == [] then []
    else if payloads[0] == [] then Answers(agent, payloads[1..], n)
    else [Reply(agent, n, payloads[0])] + Answers(agent, payloads[1..], n + 1)
  }

  /** The answer to a message that `n` non-empty ones precede: the handler's for a request, an error for text that is
      none and for bytes that are no text. */
  ghost predicate RightAnswer(agent: Agent, n: nat, message: Bytes, answer: Bytes) {
    && (agent.isUtf8(message) && agent.isRequest(message) ==> answer == agent.handle(n, message))
    && (agent.isUtf8(message) && !agent.isRequest(message) ==> answer == agent.requestError(message))
    && (!agent.isUtf8(message) ==> answer == agent.utf8Error(message))
  }

  /** The non-empty payloads, in order. */
  function NonEmpty(payloads: seq<Bytes>): seq<Bytes> {
    if payloads == [] then []
    else if payloads[0] == [] then NonEmpty(payloads[1..])
    else [payloads[0]] + NonEmpty(payloads[1..])
  }

  /** The k-th answer is the right one to the k-th message. */
  ghost predicate AnswersEach(agent: Agent, messages: seq<Bytes>, n: nat, answers: seq<Bytes>) {
    && |answers| == |messages|
    && (forall k: nat :: k < |messages| ==> RightAnswer(agent, n + k, messages[k], answers[k]))
  }

  lemma AnswersAdd(agent: Agent, n: nat, m: Bytes, r: Bytes, messages: seq<Bytes>, answers: seq<Bytes>)
    requires RightAnswer(agent, n, m, r) && AnswersEach(agent, messages, n + 1, answers)
    ensures AnswersEach(agent, [m] + messages, n, [r] + answers)
  {
    forall k: nat | k < |messages| + 1 ensures RightAnswer(agent, n + k, ([m] + messages)[k], ([r] + answers)[k]) {
      if k > 0 {
        assert RightAnswer(agent, n + 1 + (k - 1), messages[k - 1], answers[k - 1]);
      }
    }
  }

  lemma {:induction false} AnswersAreRight(agent: Agent, payloads: seq<Bytes>, n: nat)
    ensures AnswersEach(agent, NonEmpty(payloads), n, Answers(agent, payloads, n))
    decreases |payloads|
  {
    if payloads == [] {
    } else if payloads[0] == [] {
      AnswersAreRight(agent, payloads[1..], n);
    } else {
      var p, more := payloads[0], payloads[1..];
      AnswersAreRight(agent, more, n + 1);
      AnswersAdd(agent, n, p, Reply(agent, n, p), NonEmpty(more), Answers(agent, more, n + 1));
    }
  }

  /** What a session writes for the frames and the tail its input is made of: a frame for each right answer, and one
      more for the oversize error. */
  ghost predicate Serves(agent: Agent, payloads: seq<Bytes>, tail: Bytes, output: Bytes) {
    exists answers ::
      && AnswersEach(agent, NonEmpty(payloads), 0, answers)
      && output == Wire(answers) + (if Oversize(tail) then Frame(agent.tooLarge) else [])
  }

  lemma SessionServes(agent: Agent, payloads: seq<Bytes>, tail: Bytes)
    requires Acceptable(payloads) && (Truncated(tail) || Oversize(tail))
    ensures Serves(agent, payloads, tail, Session(agent, Wire(payloads) + tail, 0))
  {
    SessionAnswersInOrder(agent, payloads, tail, 0);
  }

  /** Every byte stream is a sequence of acceptable frames followed by a truncated or oversize tail. */
  lemma {:induction false} EveryStreamDecomposes(input: Bytes) returns (payloads: seq<Bytes>, tail: Bytes)
    ensures Decomposes(input, payloads, tail)
    decreases |input|
  {
    if Truncated(input) || Oversize(input) {
      payloads, tail := [], input;
      assert [] + input == input;
    } else {
      var data, rest := FirstFrame(input);
      var more;
      more, tail := EveryStreamDecomposes(rest);
      payloads := [data] + more;
      assert payloads[1..] == more;
      Assoc(Frame(data), Wire(more), tail);
    }
  }

  lemma FirstFrame(input: Bytes) returns (data: Bytes, rest: Bytes)
    requires !Truncated(input) && !Oversize(input)
    ensures input == Frame(data) + rest && |data| <= MAX_MESSAGE
  {
    var len := FromBe32(input[..4]);
    data, rest := input[4..4 + len], input[4 + len..];
    HeaderIsBe32(input[..4]);
    assert input == (input[..4] + data) + rest;
  }

  lemma LowByte(high: nat, low: nat)
    requires low < 256
    ensures (high * 256 + low) / 256 == high && (high * 256 + low) % 256 == low
  {
  }

  lemma HeaderIsBe32(header: Bytes)
    requires |header| == 4
    ensures Be32(FromBe32(header)) == header
  {
    var n := FromBe32(header);
    var b0: int, b1: int, b2: int, b3: int := header[0], header[1], header[2], header[3];
    LowByte(b0, b1);
    LowByte(b0 * 256 + b1, b2);
    LowByte((b0 * 256 + b1) * 256 + b2, b3);
    assert n % U32 == n;
  }

  /** For every byte stream the agent writes one response frame per non-empty message, in order; an oversize frame gets
      one error and ends the session, whatever follows it; a truncated tail gets nothing. */
  lemma {:induction false} SessionAnswersInOrder(agent: Agent, payloads: seq<Bytes>, tail: Bytes, n: nat)
    requires Acceptable(payloads) && (Truncated(tail) || Oversize(tail))
    ensures Session(agent, Wire(payloads) + tail, n)
         == Wire(Answers(agent, payloads, n)) + (if Oversize(tail) then Frame(agent.tooLarge) else [])
    ensures AnswersEach(agent, NonEmpty(payloads), n, Answers(agent, payloads, n))
    decreases |payloads|
  {
    var last := if Oversize(tail) then Frame(agent.tooLarge) else [];
    AnswersAreRight(agent, payloads, n);
    if payloads == [] {
      EmptyUnit(tail);
      EmptyUnit(last);
    } else {
      var data, more := payloads[0], payloads[1..];
      Assoc(Frame(data), Wire(more), tail);
      SessionFrame(agent, data, Wire(more) + tail, n);
      SessionAnswersInOrder(agent, more, tail, if data == [] then n else n + 1);
      if data != [] {
        var r := Reply(agent, n, data);
        var answers := Answers(agent, more, n + 1);
        assert ([r] + answers)[1..] == answers;
        Assoc(Frame(r), Wire(answers), last);
      }
    }
  }

  lemma SessionFrame(agent: Agent, data: Bytes, rest: Bytes, n: nat)
    requires |data| <= MAX_MESSAGE
    ensures Session(agent, Frame(data) + rest, n)
         == if data == [] then Session(agent, rest, n) else Frame(Reply(agent, n, data)) + Session(agent, rest, n + 1)
  {
    FrameSplit(data, rest);
    FrameRoundTripIff(data, rest);
  }

  // ---------- The client ----------

  ghost predicate NonEmptyRequests(requests: seq<Bytes>) {
    forall i :: 0 <= i < |requests| ==> 0 < |requests[i]| <= MAX_MESSAGE
  }

  lemma {:induction false} AnswerAt(agent: Agent, requests: seq<Bytes>, n: nat)
    requires NonEmptyRequests(requests)
    ensures |Answers(agent, requests, n)| == |requests|
    ensures forall i :: 0 <= i < |requests| ==> Answers(agent, requests, n)[i] == Reply(agent, n + i, requests[i])
    decreases |requests|
  {
    if requests != [] {
      AnswerAt(agent, requests[1..], n + 1);
      assert forall i :: 0 < i < |requests| ==>
        Answers(agent, requests, n)[i] == Answers(agent, requests[1..], n + 1)[i - 1];
    }
  }

  lemma {:induction false} WireSnoc(payloads: seq<Bytes>, p: Bytes)
    ensures Wire(payloads + [p]) == Wire(payloads) + Frame(p)
    decreases |payloads|
  {
    var all := payloads + [p];
    if payloads == [] {
      assert all[1..] == [] && Frame(p) + [] == [] + Frame(p);
    } else {
      assert all[1..] == payloads[1..] + [p];
      WireSnoc(payloads[1..], p);
      assert Frame(payloads[0]) + (Wire(payloads[1..]) + Frame(p)) ==
        (Frame(payloads[0]) + Wire(payloads[1..])) + Frame(p);
    }
  }

  lemma AnswersSnoc(agent: Agent, requests: seq<Bytes>, p: Bytes)
    requires NonEmptyRequests(requests) && 0 < |p| <= MAX_MESSAGE
    ensures Answers(agent, requests + [p], 0) == Answers(agent, requests, 0) + [Reply(agent, |requests|, p)]
  {
    AnswerAt(agent, requests, 0);
    AnswerAt(agent, requests + [p], 0);
  }

  lemma SessionOf(agent: Agent, requests: seq<Bytes>)
    requires NonEmptyRequests(requests)
    ensures Session(agent, Wire(requests), 0) == Wire(Answers(agent, requests, 0))
  {
    SessionAnswersInOrder(agent, requests, [], 0);
    assert Wire(requests) + [] == Wire(requests);
    var w := Wire(Answers(agent, requests, 0));
    assert w + [] == w;
  }

  /** What a client reads of an answer: as much as its length modulo 2^32 says. */
  function AsRead(answer: Bytes): (r: Bytes)
    ensures r == answer <==> |answer| < U32
  {
    answer[..|answer| % U32]
  }

  /** The agent's answer to one more request. */
  function AnswerTo(agent: Agent, requests: seq<Bytes>, p: Bytes): Bytes {
    if |p| <= MAX_MESSAGE then Reply(agent, |requests|, p) else agent.tooLarge
  }

  /** What the client has not yet read when it has sent one more request and read all earlier responses is exactly one
      frame: the answer to that request. */
  lemma NextAnswer(agent: Agent, requests: seq<Bytes>, p: Bytes)
    requires NonEmptyRequests(requests) && 0 < |p| < U32
    ensures var unread := Session(agent, Wire(requests) + Frame(p), 0);
      unread == Wire(Answers(agent, requests, 0)) + Frame(AnswerTo(agent, requests, p))
  {
    if |p| <= MAX_MESSAGE {
      WireSnoc(requests, p);
      SessionOf(agent, requests + [p]);
      AnswersSnoc(agent, requests, p);
      WireSnoc(Answers(agent, requests, 0), Reply(agent, |requests|, p));
    } else {
      FrameSplit(p, []);
      assert Frame(p) + [] == Frame(p);
      SessionAnswersInOrder(agent, requests, Frame(p), 0);
    }
  }

  /** The client has sent the requests and read all their answers. */
  ghost predicate InStep(agent: Agent, requests: seq<Bytes>, sent: Bytes, consumed: nat) {
    NonEmptyRequests(requests) && sent == Wire(requests) && consumed == |Wire(Answers(agent, requests, 0))|
  }

  ghost predicate FrameAt(written: Bytes, at: nat, data: Bytes) {
    at <= |written| && ReadFrame(written[at..]).Some? && ReadFrame(written[at..]).value.0 == data
  }

  /** Reading one answer out of what the agent has written, from position `at` on. */
  method Receive(written: Bytes, at: nat) returns (response: Option<Bytes>, next: nat)
    ensures forall data :: FrameAt(written, at, data) ==> response == Some(data) && next == at + 4 + |data|
  {
    if at > |written| {
      return None, at;
    }
    match ReadFrame(written[at..]) {
      case None =>
        return None, at;
      case Some(read) =>
        return Some(read.0), at + 4 + |read.0|;
    }
  }

  lemma NextReceived(agent: Agent, requests: seq<Bytes>, sent: Bytes, consumed: nat, p: Bytes)
    requires InStep(agent, requests, sent, consumed) && 0 < |p| < U32
    ensures FrameAt(Session(agent, sent + Frame(p), 0), consumed, AsRead(AnswerTo(agent, requests, p)))
  {
    NextAnswer(agent, requests, p);
    var earlier, answer := Wire(Answers(agent, requests, 0)), AnswerTo(agent, requests, p);
    assert (earlier + Frame(answer))[|earlier|..] == Frame(answer) + [];
    FrameRead(answer, []);
  }

  lemma NextInStep(agent: Agent, requests: seq<Bytes>, sent: Bytes, consumed: nat, p: Bytes)
    requires InStep(agent, requests, sent, consumed) && 0 < |p| <= MAX_MESSAGE
    ensures InStep(agent, requests + [p], sent + Frame(p), consumed + 4 + |Reply(agent, |requests|, p)|)
  {
    WireSnoc(requests, p);
    AnswersSnoc(agent, requests, p);
    WireSnoc(Answers(agent, requests, 0), Reply(agent, |requests|, p));
  }

  /** A client connection; what the agent has written by now is its session on what was sent. */
  class Connection {
    const agent: Agent
    var sent: Bytes
    var consumed: nat
    ghost var requests: seq<Bytes>

    ghost predicate Valid()
      reads this
    {
      InStep(agent, requests, sent, consumed)
    }

    constructor (agent: Agent)
      ensures Valid() && requests == [] && this.agent == agent
    {
      this.agent := agent;
      sent, consumed, requests := [], 0, [];
    }

    /** Send a request and read one response, unless the write fails, as it may once the agent has hung up on a request
        it is not going to read. The i-th call gets the agent's answer to the i-th request; a request over the agent's
        limit gets its error, if it can be written, and the agent hangs up. Of an answer of 4 GiB or more the client
        reads only the length modulo 2^32 and leaves the rest in the stream. */
    method Call(request: Bytes, writeCompletes: bool) returns (response: Option<Bytes>)
      requires Valid() && request != []
      modifies this
      ensures writeCompletes && |request| <= MAX_MESSAGE && |Reply(agent, |old(requests)|, request)| < U32 ==>
        Valid() && requests == old(requests) + [request] && response == Some(Reply(agent, |old(requests)|, request))
      ensures writeCompletes && 0x10_0000 < |request| < U32 && |agent.tooLarge| < U32 ==>
        response == Some(agent.tooLarge)
      ensures writeCompletes && |request| <= 0x10_0000 && |Reply(agent, |old(requests)|, request)| < U32 ==>
        response.Some? && RightAnswer(agent, |old(requests)|, request, response.value)
      ensures writeCompletes && |request| < U32 ==> response == Some(AsRead(AnswerTo(agent, old(requests), request)))
      ensures !writeCompletes ==> response == None
    {
      if !writeCompletes {
        return None;
      }
      if |request| < U32 { NextReceived(agent, requests, sent, consumed, request); }
      if |request| <= MAX_MESSAGE {
        NextInStep(agent, requests, sent, consumed, request);
        requests := requests + [request];
      }
      sent := sent + (Be32(|request|) + request);
      var written := Session(agent, sent, 0);
      response, consumed := Receive(written, consumed);
    }
  }
}
