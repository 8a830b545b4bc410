/** The vsock port-forward handshake: the host half `forward_vsock` (crates/vyoma-core/src/proxy.rs) and the
    guest half `handle_proxy_conn` (crates/vyoma-agent-vm/src/main.rs), connected by Cloud Hypervisor's relay.

    The parties are a state machine over byte channels. A byte is represented by one character. Every read takes
    an arbitrary non-empty prefix of what has arrived, so all interleavings, fragmentations and coalescings of
    writes are covered. Both sides read lines through a `BufReader` and then call `into_inner`, which discards
    whatever the last read delivered beyond the line; `lostRelay`, `lostAck` and `lostPort` record it. */
module VsockProxy {
  import opened Outcomes
  import opened Text

  type Bytes = string

  const CONNECT: Bytes := "CONNECT 10000\n"
  const ACK: Bytes := "OK\n"
  const REFUSED: Bytes := "ERR connection refused\n"
  const BUFFER: nat := 8192

  datatype HostPc =
    | HostStart
    | HostAwaitRelay(partial: Bytes)
    | HostAwaitAgent(partial: Bytes)
    | HostSpliced
    | HostFailed

  datatype RelayPc = RelayIdle | RelayOpen(answer: Bytes) | RelayRefused(answer: Bytes)

  datatype GuestPc =
    | GuestAwaitPort(partial: Bytes)
    | GuestDialing(port: nat)
    | GuestConnected(port: nat)
    | GuestSpliced(port: nat)
    | GuestFailed

  /** `clientIn`, `hostOut`, `toGuest`, `guestOut`, `toHost` and `containerIn` are bytes in flight; `…Sent` and
      `…Got` are the complete streams of the two outer ends; `…Taken` is what the splice has accepted from them. */
  datatype State = State(
    vmPort: nat,
    host: HostPc, relay: RelayPc, guest: GuestPc,
    clientSent: Bytes, clientIn: Bytes, clientTaken: Bytes, clientGot: Bytes,
    hostOut: Bytes, toGuest: Bytes, guestOut: Bytes, toHost: Bytes,
    containerSent: Bytes, containerIn: Bytes, containerTaken: Bytes, containerGot: Bytes,
    lostRelay: Bytes, lostAck: Bytes, lostPort: Bytes)

  function Init(port: nat): State {
    State(port, HostStart, RelayIdle, GuestAwaitPort(""), "", "", "", "", "", "", "", "", "", "", "", "", "", "", "")
  }

  datatype Step =
    | ClientWrite(bytes: Bytes)
    | HostConnect
    | HostRead(n: nat)
    | HostUp(n: nat)
    | HostDown(n: nat)
    | RelayAnswer(answer: Bytes)
    | RelayUp(n: nat)
    | RelayDown(n: nat)
    | GuestRead(n: nat)
    | GuestDial(ok: bool)
    | GuestAck
    | GuestUp(n: nat)
    | GuestDown(n: nat)
    | ContainerWrite(bytes: Bytes)

  /** One line: a single newline, at the end. */
  predicate IsLine(s: Bytes) {
    s != [] && s[|s| - 1] == '\n' && forall i :: 0 <= i < |s| - 1 ==> s[i] != '\n'
  }

  function PortLine(port: nat): Bytes { Digits(port) + "\n" }

  predicate Enabled(s: State, step: Step) {
    match step
    case ClientWrite(_) => true
    case HostConnect => s.host.HostStart?
    case HostRead(n) => (s.host.HostAwaitRelay? || s.host.HostAwaitAgent?) && 1 <= n <= BUFFER && n <= |s.toHost|
    case HostUp(n) => s.host.HostSpliced? && n <= |s.clientIn|
    case HostDown(n) => s.host.HostSpliced? && n <= |s.toHost|
    case RelayAnswer(answer) => s.relay.RelayIdle? && CONNECT <= s.hostOut && IsLine(answer)
    case RelayUp(n) => s.relay.RelayOpen? && n <= |s.hostOut|
    case RelayDown(n) => s.relay.RelayOpen? && n <= |s.guestOut|
    case GuestRead(n) => s.guest.GuestAwaitPort? && 1 <= n <= BUFFER && n <= |s.toGuest|
    case GuestDial(_) => s.guest.GuestDialing?
    case GuestAck => s.guest.GuestConnected?
    case GuestUp(n) => s.guest.GuestSpliced? && n <= |s.toGuest|
    case GuestDown(n) => s.guest.GuestSpliced? && n <= |s.containerIn|
    case ContainerWrite(_) => s.guest.GuestConnected? || s.guest.GuestSpliced?
  }

  /** What a buffered line read has after one more chunk: no newline yet, or the line and what lies beyond it. */
  datatype Buffered = Unfinished(partial: Bytes) | Line(line: Bytes, over: Bytes)

  function ReadLine(l: Bytes, chunk: Bytes): Buffered {
    var i := IndexOf(chunk, '\n');
    if i == |chunk| then Unfinished(l + chunk) else Line(l + chunk[..i + 1], chunk[i + 1..])
  }

  /** The host after a buffered read that leaves `left` in the channel. */
  function HostAfter(s: State, left: Bytes, r: Buffered): State
    requires s.host.HostAwaitRelay? || s.host.HostAwaitAgent?
  {
    var t := s.(toHost := left);
    match r
    case Unfinished(l) => t.(host := if s.host.HostAwaitRelay? then HostAwaitRelay(l) else HostAwaitAgent(l))
    case Line(line, over) =>
      if s.host.HostAwaitRelay? then
        var u := t.(lostRelay := over);
        if "OK" <= line then u.(host := HostAwaitAgent(""), hostOut := s.hostOut + PortLine(s.vmPort))
        else u.(host := HostFailed)
      else
        t.(lostAck := over, host := if "OK" <= line then HostSpliced else HostFailed)
  }

  /** One `fill_buf` of `n` bytes by the host. */
  function ApplyHostRead(s: State, n: nat): State
    requires Enabled(s, HostRead(n))
  {
    HostAfter(s, s.toHost[n..], ReadLine(s.host.partial, s.toHost[..n]))
  }

  /** The guest after a buffered read for the port line. */
  function GuestAfter(s: State, left: Bytes, r: Buffered): State {
    var t := s.(toGuest := left);
    match r
    case Unfinished(g) => t.(guest := GuestAwaitPort(g))
    case Line(line, over) =>
      var u := t.(lostPort := over);
      match ParseUnsigned(Trim(line), U16)
      case Some(p) => u.(guest := GuestDialing(p))
      case None => u.(guest := GuestFailed)
  }

  function ApplyGuestRead(s: State, n: nat): State
    requires Enabled(s, GuestRead(n))
  {
    GuestAfter(s, s.toGuest[n..], ReadLine(s.guest.partial, s.toGuest[..n]))
  }

  function Apply(s: State, step: Step): State
    requires Enabled(s, step)
  {
    match step
    case ClientWrite(b) => s.(clientSent := s.clientSent + b, clientIn := s.clientIn + b)
    case HostConnect =>
      s.(host := HostAwaitRelay(""), hostOut := s.hostOut + CONNECT)
    case HostRead(n) => ApplyHostRead(s, n)
    case HostUp(n) =>
      var b := s.clientIn[..n];
      s.(clientIn := s.clientIn[n..], clientTaken := s.clientTaken + b, hostOut := s.hostOut + b)
    case HostDown(n) =>
      var b := s.toHost[..n];
      s.(toHost := s.toHost[n..], clientGot := s.clientGot + b)
    case RelayAnswer(answer) =>
      s.(hostOut := s.hostOut[|CONNECT|..], toHost := s.toHost + answer,
         relay := if "OK" <= answer then RelayOpen(answer) else RelayRefused(answer))
    case RelayUp(n) => s.(hostOut := s.hostOut[n..], toGuest := s.toGuest + s.hostOut[..n])
    case RelayDown(n) => s.(guestOut := s.guestOut[n..], toHost := s.toHost + s.guestOut[..n])
    case GuestRead(n) => ApplyGuestRead(s, n)
    case GuestDial(ok) =>
      if ok then s.(guest := GuestConnected(s.guest.port))
      else s.(guest := GuestFailed, guestOut := s.guestOut + REFUSED)
    case GuestAck =>
      s.(guest := GuestSpliced(s.guest.port), guestOut := s.guestOut + ACK)
    case GuestUp(n) =>
      var b := s.toGuest[..n];
      s.(toGuest := s.toGuest[n..], containerGot := s.containerGot + b)
    case GuestDown(n) =>
      var b := s.containerIn[..n];
      s.(containerIn := s.containerIn[n..], containerTaken := s.containerTaken + b,
         guestOut := s.guestOut + b)
    case ContainerWrite(b) => s.(containerSent := s.containerSent + b, containerIn := s.containerIn + b)
  }

  ghost predicate Run(s: State, steps: seq<Step>, t: State)
    decreases |steps|
  {
    if steps == [] then t == s else Enabled(s, steps[0]) && Run(Apply(s, steps[0]), steps[1..], t)
  }

  // ---------- The invariant ----------

  ghost predicate UpIdle(s: State) { s.toGuest == "" && s.hostOut == "" }

  ghost predicate DownIdle(s: State) { s.toHost == "" && s.guestOut == "" }

  ghost predicate Fresh(s: State) { s.guest == GuestAwaitPort("") && s.guestOut == "" }

  /** While the host waits for the acknowledgement: the port line is on its way up, then the guest's reply is on
      its way down, possibly followed by bytes of the container. */
  ghost predicate AwaitingAgent(s: State, l: Bytes) {
    '\n' !in l && s.relay.RelayOpen? &&
    match s.guest
    case GuestAwaitPort(g) => '\n' !in g && g + (s.toGuest + s.hostOut) == PortLine(s.vmPort) && l == "" && DownIdle(s)
    case GuestDialing(p) => UpIdle(s) && l == "" && DownIdle(s)
    case GuestConnected(p) => UpIdle(s) && l == "" && DownIdle(s)
    case GuestSpliced(p) => UpIdle(s) && s.containerGot == "" && l + (s.toHost + s.guestOut) == ACK + s.containerTaken
    case GuestFailed => UpIdle(s) && l + (s.toHost + s.guestOut) == REFUSED
  }

  /** Once spliced, both legs conserve their bytes. */
  ghost predicate Flowing(s: State) {
    && s.relay.RelayOpen? && s.guest.GuestSpliced?
    && s.containerGot + (s.toGuest + s.hostOut) == s.clientTaken
    && (s.lostAck + s.clientGot) + (s.toHost + s.guestOut) == s.containerTaken
  }

  ghost predicate Phase(s: State) {
    match s.host
    case HostStart => s.relay.RelayIdle? && UpIdle(s) && DownIdle(s) && Fresh(s)
    case HostAwaitRelay(l) =>
      && Fresh(s) && s.toGuest == "" && '\n' !in l
      && (if s.relay.RelayIdle? then s.hostOut == CONNECT && l == "" && s.toHost == ""
          else s.hostOut == "" && IsLine(s.relay.answer) && l + s.toHost == s.relay.answer)
    case HostAwaitAgent(l) => AwaitingAgent(s, l)
    case HostSpliced => Flowing(s)
    case HostFailed =>
      UpIdle(s) && ((s.relay.RelayRefused? && Fresh(s)) || (s.relay.RelayOpen? && s.guest.GuestFailed?))
  }

  ghost predicate Ends(s: State) {
    && s.clientSent == s.clientTaken + s.clientIn
    && s.containerSent == s.containerTaken + s.containerIn
    && (!s.host.HostSpliced? ==> s.clientTaken == "" && s.clientGot == "")
    && (!s.guest.GuestSpliced? ==> s.containerTaken == "" && s.containerGot == "")
    && (!s.guest.GuestSpliced? && !s.guest.GuestConnected? ==> s.containerSent == "")
    && (s.guest.GuestDialing? || s.guest.GuestConnected? || s.guest.GuestSpliced? ==> s.guest.port == s.vmPort)
    && (!s.relay.RelayIdle? ==> (s.relay.RelayOpen? <==> "OK" <= s.relay.answer))
    && s.lostRelay == "" && s.lostPort == "" && (!s.host.HostSpliced? ==> s.lostAck == "")
  }

  ghost predicate Inv(s: State) { s.vmPort < U16 && Phase(s) && Ends(s) }

  // ---------- Sequences and lines ----------

  /** Moving a prefix from one queue to the end of the one in front of it changes nothing. */
  lemma Move(a: Bytes, b: Bytes, n: nat)
    requires n <= |b|
    ensures (a + b[..n]) + b[n..] == a + b
  {
  }

  lemma MoveThrough(a: Bytes, b: Bytes, c: Bytes, n: nat)
    requires n <= |b|
    ensures (a + b[..n]) + (b[n..] + c) == a + (b + c)
  {
  }

  /** A buffered read of a stream that starts with `line`: either nothing of the stream is used up yet, or exactly the
      line is, and `over` and `rest` are what follows it. */
  ghost predicate Meets(r: Buffered, rest: Bytes, line: Bytes, more: Bytes) {
    match r
    case Unfinished(l) => '\n' !in l && l + rest == line + more
    case Line(got, over) => got == line && over + rest == more
  }

  /** A buffered line read that has `l` and receives `chunk` ends at the stream's first newline. */
  lemma LineRead(l: Bytes, chunk: Bytes, rest: Bytes, line: Bytes, more: Bytes)
    requires '\n' !in l && IsLine(line) && l + (chunk + rest) == line + more
    ensures Meets(ReadLine(l, chunk), rest, line, more)
  {
    Assoc(l, chunk, rest);
    if '\n' in chunk {
      var i := IndexOf(chunk, '\n');
      FirstNewline(l, chunk, rest, line, more);
      SplitAfter(l, chunk, rest, i + 1, line, more);
    }
  }

  lemma SplitAfter(l: Bytes, chunk: Bytes, rest: Bytes, i: nat, line: Bytes, more: Bytes)
    requires i <= |chunk| && |line| == |l| + i && l + (chunk + rest) == line + more
    ensures l + chunk[..i] == line && chunk[i..] + rest == more
  {
    var stream := line + more;
    assert stream[..|line|] == line && stream[|line|..] == more;
    assert (l + (chunk + rest))[..|l| + i] == l + chunk[..i];
    assert (l + (chunk + rest))[|l| + i..] == chunk[i..] + rest;
  }

  lemma FirstNewline(l: Bytes, chunk: Bytes, rest: Bytes, line: Bytes, more: Bytes)
    requires '\n' !in l && '\n' in chunk && IsLine(line) && l + (chunk + rest) == line + more
    ensures |line| == |l| + IndexOf(chunk, '\n') + 1
  {
    var i := IndexOf(chunk, '\n');
    var stream := line + more;
    assert stream[|l| + i] == chunk[i];
    assert forall j :: 0 <= j < |line| ==> stream[j] == line[j];
    assert forall j :: 0 <= j < |l| ==> stream[j] == l[j];
    assert forall j :: 0 <= j < i ==> stream[|l| + j] == chunk[j];
    assert stream[|line| - 1] == '\n';
    assert forall j :: |l| <= j < |l| + i ==> stream[j] == chunk[j - |l|];
  }

  lemma PortLineIsLine(port: nat)
    ensures IsLine(PortLine(port))
  {
    var s := PortLine(port);
    assert forall i :: 0 <= i < |Digits(port)| ==> s[i] == Digits(port)[i] && IsDigit(s[i]);
    assert s[|s| - 1] == '\n';
  }

  lemma PortLineParses(port: nat)
    requires port < U16
    ensures ParseUnsigned(Trim(PortLine(port)), U16) == Some(port)
  {
    var d := Digits(port);
    assert IsDigit(d[0]) && IsDigit(d[|d| - 1]);
    TrimPadded("", d, "\n");
    assert "" + d + "\n" == PortLine(port);
    ParseDigits(port, U16);
  }

  /** Any line the guest reads is dialled as the port it spells, or refused when it spells none of sixteen bits. */
  lemma GuestDialsPort(s: State, left: Bytes, line: Bytes, over: Bytes, port: nat)
    ensures var guest := GuestAfter(s, left, Line(line, over)).guest;
      && (guest == GuestDialing(port) <==> port < 0x1_0000 && Numeral(Trim(line), port))
      && (guest == GuestFailed <==> forall p: nat | p < 0x1_0000 :: !Numeral(Trim(line), p))
  {
    forall p: nat ensures ParseUnsigned(Trim(line), U16) == Some(p) <==> p < U16 && Numeral(Trim(line), p) {
      ParseUnsignedIff(Trim(line), U16, p);
    }
  }

  lemma Replies()
    ensures IsLine(ACK) && "OK" <= ACK
    ensures IsLine(REFUSED) && !("OK" <= REFUSED)
  {
    assert REFUSED[0] == 'E';
  }

  // ---------- Every step keeps the invariant ----------

  lemma GuestReadKeeps(s: State, n: nat)
    requires Inv(s) && Enabled(s, GuestRead(n))
    ensures Inv(Apply(s, GuestRead(n)))
  {
    assert s.host.HostAwaitAgent?;
    var chunk, left, line := s.toGuest[..n], s.toGuest[n..], PortLine(s.vmPort);
    assert s.toGuest == chunk + left;
    Assoc(chunk, left, s.hostOut);
    EmptyUnit(line);
    PortLineIsLine(s.vmPort);
    LineRead(s.guest.partial, chunk, left + s.hostOut, line, "");
    GuestAfterKeeps(s, left, ReadLine(s.guest.partial, chunk));
  }

  lemma GuestAfterKeeps(s: State, left: Bytes, r: Buffered)
    requires Inv(s) && s.host.HostAwaitAgent? && s.guest.GuestAwaitPort?
    requires Meets(r, left + s.hostOut, PortLine(s.vmPort), "")
    ensures Inv(GuestAfter(s, left, r))
  {
    EmptyUnit(PortLine(s.vmPort));
    if r.Line? {
      assert |r.over| + |left + s.hostOut| == 0;
      PortLineParses(s.vmPort);
    }
  }

  lemma HostReadKeeps(s: State, n: nat)
    requires Inv(s) && Enabled(s, HostRead(n))
    ensures Inv(Apply(s, HostRead(n)))
  {
    var l, chunk, left := s.host.partial, s.toHost[..n], s.toHost[n..];
    assert s.toHost == chunk + left;
    Assoc(chunk, left, s.guestOut);
    Replies();
    var r := ReadLine(l, chunk);
    if s.host.HostAwaitRelay? {
      EmptyUnit(s.relay.answer);
      LineRead(l, chunk, left, s.relay.answer, "");
      AnswerReadKeeps(s, left, r);
    } else if s.guest.GuestSpliced? {
      LineRead(l, chunk, left + s.guestOut, ACK, s.containerTaken);
      AckReadKeeps(s, left, r);
    } else {
      assert s.guest.GuestFailed?;
      EmptyUnit(REFUSED);
      LineRead(l, chunk, left + s.guestOut, REFUSED, "");
      RefusalReadKeeps(s, left, r);
    }
  }

  lemma AnswerReadKeeps(s: State, left: Bytes, r: Buffered)
    requires Inv(s) && s.host.HostAwaitRelay? && !s.relay.RelayIdle? && Meets(r, left, s.relay.answer, "")
    ensures Inv(HostAfter(s, left, r))
  {
    EmptyUnit(s.relay.answer);
    if r.Line? {
      assert |r.over| + |left| == 0;
      var port := PortLine(s.vmPort);
      assert "" + ("" + port) == port == s.hostOut + port;
    }
  }

  lemma AckReadKeeps(s: State, left: Bytes, r: Buffered)
    requires Inv(s) && s.host.HostAwaitAgent? && s.guest.GuestSpliced? &&
      Meets(r, left + s.guestOut, ACK, s.containerTaken)
    ensures Inv(HostAfter(s, left, r)) && (r.Line? ==> HostAfter(s, left, r).host.HostSpliced?)
  {
    Replies();
    if r.Line? { EmptyUnit(r.over); }
  }

  lemma RefusalReadKeeps(s: State, left: Bytes, r: Buffered)
    requires Inv(s) && s.host.HostAwaitAgent? && s.guest.GuestFailed? && Meets(r, left + s.guestOut, REFUSED, "")
    ensures Inv(HostAfter(s, left, r))
  {
    Replies();
    EmptyUnit(REFUSED);
    if r.Line? { assert |r.over| == 0; }
  }

  lemma RelayAnswerKeeps(s: State, answer: Bytes)
    requires Inv(s) && Enabled(s, RelayAnswer(answer))
    ensures Inv(Apply(s, RelayAnswer(answer)))
  {
    assert s.host.HostAwaitRelay?;
    assert s.hostOut[|CONNECT|..] == "" && s.toHost + answer == answer && "" + answer == answer;
  }

  lemma MoveNothing(a: Bytes, b: Bytes)
    ensures a + b[..0] == a && b[0..] == b
  {
  }

  lemma RelayUpKeeps(s: State, n: nat)
    requires Inv(s) && Enabled(s, RelayUp(n))
    ensures Inv(Apply(s, RelayUp(n)))
  {
    if n == 0 {
      MoveNothing(s.toGuest, s.hostOut);
      assert Apply(s, RelayUp(n)) == s;
    } else {
      assert s.host.HostSpliced? || (s.host.HostAwaitAgent? && s.guest.GuestAwaitPort?);
      Move(s.toGuest, s.hostOut, n);
    }
  }

  lemma RelayDownKeeps(s: State, n: nat)
    requires Inv(s) && Enabled(s, RelayDown(n))
    ensures Inv(Apply(s, RelayDown(n)))
  {
    if n == 0 {
      MoveNothing(s.toHost, s.guestOut);
      assert Apply(s, RelayDown(n)) == s;
    } else {
      assert s.guest.GuestSpliced? || s.guest.GuestFailed?;
      Move(s.toHost, s.guestOut, n);
    }
  }

  lemma HostSpliceKeeps(s: State, step: Step)
    requires Inv(s) && Enabled(s, step) && (step.HostUp? || step.HostDown?)
    ensures Inv(Apply(s, step))
  {
    if step.HostUp? {
      var b := s.clientIn[..step.n];
      Move(s.clientTaken, s.clientIn, step.n);
      Assoc(s.containerGot, s.toGuest + s.hostOut, b);
      Assoc(s.toGuest, s.hostOut, b);
    } else {
      MoveThrough(s.lostAck + s.clientGot, s.toHost, s.guestOut, step.n);
      Assoc(s.lostAck, s.clientGot, s.toHost[..step.n]);
    }
  }

  lemma GuestUpKeeps(s: State, n: nat)
    requires Inv(s) && Enabled(s, GuestUp(n))
    ensures Inv(Apply(s, GuestUp(n)))
  {
    if n == 0 {
      MoveNothing(s.containerGot, s.toGuest);
      assert Apply(s, GuestUp(n)) == s;
    } else {
      assert s.host.HostSpliced?;
      MoveThrough(s.containerGot, s.toGuest, s.hostOut, n);
    }
  }

  lemma GuestDownKeeps(s: State, n: nat)
    requires Inv(s) && Enabled(s, GuestDown(n))
    ensures Inv(Apply(s, GuestDown(n)))
  {
    var b := s.containerIn[..n];
    assert s.host.HostSpliced? || s.host.HostAwaitAgent?;
    Move(s.containerTaken, s.containerIn, n);
    Assoc(s.toHost, s.guestOut, b);
    if s.host.HostSpliced? {
      Assoc(s.lostAck + s.clientGot, s.toHost + s.guestOut, b);
    } else {
      Assoc(s.host.partial, s.toHost + s.guestOut, b);
      Assoc(ACK, s.containerTaken, b);
    }
  }

  lemma OtherStepKeeps(s: State, step: Step)
    requires Inv(s) && Enabled(s, step)
    requires step.ClientWrite? || step.HostConnect? || step.GuestDial? || step.GuestAck? || step.ContainerWrite?
    ensures Inv(Apply(s, step))
  {
    match step
    case ClientWrite(b) => Assoc(s.clientTaken, s.clientIn, b);
    case HostConnect => assert s.hostOut + CONNECT == CONNECT;
    case GuestDial(ok) =>
      assert s.host.HostAwaitAgent?;
      assert s.guestOut + REFUSED == REFUSED && "" + ("" + REFUSED) == REFUSED;
    case GuestAck =>
      assert s.host.HostAwaitAgent?;
      assert s.guestOut + ACK == ACK && "" + ("" + ACK) == ACK + "";
    case ContainerWrite(b) => Assoc(s.containerTaken, s.containerIn, b);
  }

  lemma StepKeeps(s: State, step: Step)
    requires Inv(s) && Enabled(s, step)
    ensures Inv(Apply(s, step))
  {
    match step
    case HostRead(n) => HostReadKeeps(s, n);
    case GuestRead(n) => GuestReadKeeps(s, n);
    case RelayAnswer(answer) => RelayAnswerKeeps(s, answer);
    case RelayUp(n) => RelayUpKeeps(s, n);
    case RelayDown(n) => RelayDownKeeps(s, n);
    case HostUp(_) => HostSpliceKeeps(s, step);
    case HostDown(_) => HostSpliceKeeps(s, step);
    case GuestUp(n) => GuestUpKeeps(s, n);
    case GuestDown(n) => GuestDownKeeps(s, n);
    case _ => OtherStepKeeps(s, step);
  }

  lemma {:induction false} RunKeeps(s: State, steps: seq<Step>, t: State)
    requires Inv(s) && Run(s, steps, t)
    ensures Inv(t)
    decreases |steps|
  {
    if steps != [] {
      StepKeeps(s, steps[0]);
      RunKeeps(Apply(s, steps[0]), steps[1..], t);
    }
  }

  // ---------- What every run guarantees ----------

  lemma {:induction false} PortIsFixed(s: State, steps: seq<Step>, t: State)
    requires Run(s, steps, t)
    ensures t.vmPort == s.vmPort
    decreases |steps|
  {
    if steps != [] { PortIsFixed(Apply(s, steps[0]), steps[1..], t); }
  }

  /** Client bytes reach the container complete and in order: nothing is ever discarded on that leg, and what the
      container has, followed by what is still in flight, is exactly what the client sent. The guest connects to
      the requested port and no other. */
  lemma ClientBytesArrive(port: nat, steps: seq<Step>, t: State)
    requires port < U16 && Run(Init(port), steps, t)
    ensures t.lostPort == "" && t.lostRelay == ""
    ensures t.host.HostSpliced? ==> t.containerGot + (t.toGuest + t.hostOut) + t.clientIn == t.clientSent
    ensures !t.host.HostSpliced? ==> t.containerGot == "" && t.clientIn == t.clientSent
    ensures t.guest.GuestConnected? || t.guest.GuestSpliced? ==> t.guest.port == port
  {
    RunKeeps(Init(port), steps, t);
    PortIsFixed(Init(port), steps, t);
  }

  /** Container bytes reach the client in order, after dropping exactly `lostAck` from the front. A host that gives
      up does so because the relay or the guest refused. */
  lemma ContainerBytesArrive(port: nat, steps: seq<Step>, t: State)
    requires port < U16 && Run(Init(port), steps, t)
    ensures t.host.HostSpliced? ==>
      t.containerSent == (t.lostAck + t.clientGot) + (t.toHost + t.guestOut) + t.containerIn
    ensures !t.host.HostSpliced? ==> t.clientGot == ""
    ensures t.host.HostFailed? ==> t.relay.RelayRefused? || t.guest.GuestFailed?
  {
    RunKeeps(Init(port), steps, t);
  }

  /** Bytes are dropped only by the read that completes the guest's acknowledgement, and only what that read took beyond
      the line. */
  lemma OnlyTheAckReadDrops(s: State, step: Step)
    requires Inv(s) && Enabled(s, step) && Apply(s, step).lostAck != s.lostAck
    ensures step.HostRead? && s.host.HostAwaitAgent? && Apply(s, step).host.HostSpliced?
    ensures ReadLine(s.host.partial, s.toHost[..step.n]).Line?
    ensures Apply(s, step).lostAck == ReadLine(s.host.partial, s.toHost[..step.n]).over
    ensures Apply(s, step).lostAck <= s.containerTaken
  {
    if step.HostRead? && s.host.HostAwaitAgent? {
      StepKeeps(s, step);
      HostDropIsOverread(s, s.toHost[step.n..], ReadLine(s.host.partial, s.toHost[..step.n]));
      LostIsPrefix(Apply(s, step));
    } else {
      OtherStepsDropNothing(s, step);
    }
  }

  lemma OtherStepsDropNothing(s: State, step: Step)
    requires Enabled(s, step) && !(step.HostRead? && s.host.HostAwaitAgent?)
    ensures Apply(s, step).lostAck == s.lostAck
  {
  }

  lemma HostDropIsOverread(s: State, left: Bytes, r: Buffered)
    requires s.host.HostAwaitAgent? && HostAfter(s, left, r).lostAck != s.lostAck
    ensures r.Line? && HostAfter(s, left, r).lostAck == r.over &&
      HostAfter(s, left, r).containerTaken == s.containerTaken
  {
  }

  lemma LostIsPrefix(t: State)
    requires Inv(t)
    ensures t.lostAck != "" ==> t.host.HostSpliced?
    ensures t.lostAck <= t.containerTaken
  {
    if t.host.HostSpliced? {
      Assoc(t.lostAck, t.clientGot, t.toHost + t.guestOut);
    }
  }

  /** The container writes only once it has received something from the client. */
  ghost predicate ContainerWaits(s: State, steps: seq<Step>)
    decreases |steps|
  {
    steps != [] && Enabled(s, steps[0]) ==>
      (steps[0].ContainerWrite? ==> s.containerGot != "") && ContainerWaits(Apply(s, steps[0]), steps[1..])
  }

  ghost predicate WaitingInv(s: State) {
    Inv(s) && s.lostAck == "" && (s.containerSent != "" ==> s.containerGot != "")
  }

  lemma ContainerStreamsGrow(s: State, step: Step)
    requires Enabled(s, step)
    ensures |Apply(s, step).containerGot| >= |s.containerGot|
    ensures Apply(s, step).containerSent == s.containerSent || step.ContainerWrite?
  {
  }

  lemma SilentContainerLosesNothing(s: State, step: Step)
    requires Inv(s) && Enabled(s, step) && s.lostAck == "" && (s.containerSent != "" ==> s.containerGot != "")
    ensures Apply(s, step).lostAck == ""
  {
    if Apply(s, step).lostAck != "" {
      OnlyTheAckReadDrops(s, step);
    }
  }

  lemma WaitingStepKeeps(s: State, step: Step)
    requires WaitingInv(s) && Enabled(s, step) && (step.ContainerWrite? ==> s.containerGot != "")
    ensures WaitingInv(Apply(s, step))
  {
    StepKeeps(s, step);
    ContainerStreamsGrow(s, step);
    SilentContainerLosesNothing(s, step);
  }

  lemma {:induction false} WaitingRunKeeps(s: State, steps: seq<Step>, t: State)
    requires WaitingInv(s) && Run(s, steps, t) && ContainerWaits(s, steps)
    ensures WaitingInv(t)
    decreases |steps|
  {
    if steps != [] {
      WaitingStepKeeps(s, steps[0]);
      WaitingRunKeeps(Apply(s, steps[0]), steps[1..], t);
    }
  }

  /** If the container waits for the client, nothing is lost in either direction. */
  lemma NothingLostWhenContainerWaits(port: nat, steps: seq<Step>, t: State)
    requires port < U16 && Run(Init(port), steps, t) && ContainerWaits(Init(port), steps)
    ensures t.lostAck == ""
    ensures t.host.HostSpliced? ==> t.containerSent == t.clientGot + (t.toHost + t.guestOut) + t.containerIn
  {
    WaitingRunKeeps(Init(port), steps, t);
    ContainerBytesArrive(port, steps, t);
    assert "" + t.clientGot == t.clientGot;
  }

  // ---------- A container that speaks first can lose its greeting ----------

  lemma {:induction false} RunExtend(s: State, steps: seq<Step>, t: State, step: Step)
    requires Run(s, steps, t) && Enabled(t, step)
    ensures Run(s, steps + [step], Apply(t, step))
    decreases |steps|
  {
    var all := steps + [step];
    if steps == [] {
      assert all[1..] == [];
    } else {
      assert all[1..] == steps[1..] + [step];
      RunExtend(Apply(s, steps[0]), steps[1..], t, step);
    }
  }

  lemma WholeSlice(a: Bytes)
    ensures a[..|a|] == a && a[|a|..] == "" && "" + a == a
  {
  }

  /** A read that takes a whole line and what follows it. */
  lemma WholeRead(line: Bytes, more: Bytes)
    requires IsLine(line)
    ensures ReadLine("", line + more) == Line(line, more)
  {
    var all := line + more;
    assert forall i :: 0 <= i < |line| ==> all[i] == line[i];
    IndexOfIs(all, '\n', |line| - 1);
    assert "" + all[..|line|] == line && all[|line|..] == more;
  }

  lemma AnswerRead(s: State)
    requires s.host == HostAwaitRelay("") && IsLine(s.toHost) && "OK" <= s.toHost
    requires |s.toHost| <= BUFFER && s.hostOut == "" && s.lostRelay == ""
    ensures ApplyHostRead(s, |s.toHost|) == s.(toHost := "", host := HostAwaitAgent(""), hostOut := PortLine(s.vmPort))
  {
    WholeSlice(s.toHost);
    EmptyUnit(s.toHost);
    WholeRead(s.toHost, "");
    EmptyUnit(PortLine(s.vmPort));
  }

  lemma GuestTakes(s: State, n: nat, line: Bytes, port: nat)
    requires Enabled(s, GuestRead(n)) && ReadLine(s.guest.partial, s.toGuest[..n]) == Line(line, "") && s.lostPort == ""
    requires ParseUnsigned(Trim(line), U16) == Some(port)
    ensures ApplyGuestRead(s, n) == s.(toGuest := s.toGuest[n..], guest := GuestDialing(port))
  {
  }

  lemma PortRead(s: State)
    requires s.vmPort < U16 && s.guest == GuestAwaitPort("") && s.toGuest == PortLine(s.vmPort) && s.lostPort == ""
    ensures Enabled(s, GuestRead(|s.toGuest|))
    ensures ApplyGuestRead(s, |s.toGuest|) == s.(toGuest := "", guest := GuestDialing(s.vmPort))
  {
    var line := s.toGuest;
    PortLineFits(s.vmPort);
    PortLineParses(s.vmPort);
    WholeSlice(line);
    WholePortLine(s.vmPort);
    GuestTakes(s, |line|, line, s.vmPort);
  }

  lemma WholePortLine(port: nat)
    ensures PortLine(port) != "" && ReadLine("", PortLine(port)) == Line(PortLine(port), "")
  {
    PortLineIsLine(port);
    EmptyUnit(PortLine(port));
    WholeRead(PortLine(port), "");
  }

  lemma AckReadDrops(s: State, greeting: Bytes)
    requires s.host == HostAwaitAgent("") && s.toHost == ACK + greeting && |s.toHost| <= BUFFER
    ensures ApplyHostRead(s, |s.toHost|) == s.(toHost := "", lostAck := greeting, host := HostSpliced)
  {
    WholeSlice(s.toHost);
    Replies();
    WholeRead(ACK, greeting);
  }

  const ANSWER: Bytes := "OK 1\n"

  lemma AnswerIsLine()
    ensures IsLine(ANSWER) && "OK" <= ANSWER && |ANSWER| <= BUFFER
  {
  }

  lemma ConnectRun(port: nat) returns (steps: seq<Step>, t: State)
    ensures Run(Init(port), steps, t)
    ensures t == Init(port).(host := HostAwaitRelay(""), toHost := ANSWER, relay := RelayOpen(ANSWER))
  {
    var s := Init(port);
    RunExtend(s, [], s, HostConnect);
    WholeSlice(CONNECT);
    var connected := s.(host := HostAwaitRelay(""), hostOut := CONNECT);
    AnswerIsLine();
    EmptyUnit(ANSWER);
    RunExtend(s, [] + [HostConnect], connected, RelayAnswer(ANSWER));
    steps, t := [] + [HostConnect] + [RelayAnswer(ANSWER)], Apply(connected, RelayAnswer(ANSWER));
  }

  /** The handshake up to the guest's connection to the container. */
  lemma HandshakeRun(port: nat) returns (steps: seq<Step>, t: State)
    requires port < U16
    ensures Run(Init(port), steps, t)
    ensures t == Init(port).(host := HostAwaitAgent(""), relay := t.relay, guest := GuestConnected(port))
    ensures t.relay.RelayOpen?
  {
    steps, t := ConnectRun(port);
    AnswerIsLine();
    AnswerRead(t);
    RunExtend(Init(port), steps, t, HostRead(|ANSWER|));
    steps, t := steps + [HostRead(|ANSWER|)], ApplyHostRead(t, |ANSWER|);
    steps, t := PortExchange(port, steps, t);
  }

  lemma PortExchange(port: nat, before: seq<Step>, s: State) returns (steps: seq<Step>, t: State)
    requires port < U16 && Run(Init(port), before, s)
    requires s == Init(port).(host := HostAwaitAgent(""), relay := s.relay, hostOut := PortLine(port)) &&
      s.relay.RelayOpen?
    ensures Run(Init(port), steps, t)
    ensures t == s.(hostOut := "", guest := GuestConnected(port))
  {
    var line := PortLine(port);
    WholeSlice(line);
    RunExtend(Init(port), before, s, RelayUp(|line|));
    steps, t := before + [RelayUp(|line|)], s.(hostOut := "", toGuest := line);
    PortRead(t);
    RunExtend(Init(port), steps, t, GuestRead(|line|));
    steps, t := steps + [GuestRead(|line|)], ApplyGuestRead(t, |line|);
    RunExtend(Init(port), steps, t, GuestDial(true));
    steps, t := steps + [GuestDial(true)], t.(guest := GuestConnected(port));
  }

  /** For every greeting that fits one buffered read with the acknowledgement there is a run, with the splice
      established on both sides, in which all of it is gone: by `ContainerBytesArrive` no continuation can deliver
      it. */
  lemma GreetingCanBeLost(port: nat, greeting: Bytes) returns (steps: seq<Step>, t: State)
    requires port < U16 && 3 + |greeting| <= BUFFER
    ensures Run(Init(port), steps, t)
    ensures t.host.HostSpliced? && t.guest.GuestSpliced?
    ensures t.containerSent == greeting && t.lostAck == greeting && t.clientGot == "" && t.toHost + t.guestOut == ""
  {
    var i := Init(port);
    steps, t := HandshakeRun(port);
    WholeSlice(greeting);
    RunExtend(i, steps, t, ContainerWrite(greeting));
    steps, t := steps + [ContainerWrite(greeting)], t.(containerSent := greeting, containerIn := greeting);
    WholeSlice(ACK);
    RunExtend(i, steps, t, GuestAck);
    steps, t := steps + [GuestAck], t.(guest := GuestSpliced(port), guestOut := ACK);
    steps, t := GreetingTravels(port, greeting, steps, t);
  }

  lemma GreetingTravels(port: nat, greeting: Bytes, before: seq<Step>, s: State) returns (steps: seq<Step>, t: State)
    requires Run(Init(port), before, s) && 3 + |greeting| <= BUFFER
    requires s.host == HostAwaitAgent("") && s.relay.RelayOpen? && s.guest.GuestSpliced?
    requires s.guestOut == ACK && s.toHost == "" && s.containerIn == greeting && s.containerTaken == "" &&
      s.clientGot == ""
    ensures Run(Init(port), steps, t)
    ensures t.host.HostSpliced? && t.guest.GuestSpliced? && t.containerSent == s.containerSent
    ensures t.lostAck == greeting && t.clientGot == "" && t.toHost + t.guestOut == ""
  {
    steps, t := GreetingReachesHost(port, greeting, before, s);
    var n := |t.toHost|;
    AckReadDrops(t, greeting);
    RunExtend(Init(port), steps, t, HostRead(n));
    steps, t := steps + [HostRead(n)], ApplyHostRead(t, n);
  }

  lemma GreetingReachesHost(port: nat, greeting: Bytes, before: seq<Step>, s: State)
    returns (steps: seq<Step>, t: State)
    requires Run(Init(port), before, s) && s.relay.RelayOpen? && s.guest.GuestSpliced?
    requires s.guestOut == ACK && s.toHost == "" && s.containerIn == greeting && s.containerTaken == ""
    ensures Run(Init(port), steps, t)
    ensures t == s.(containerIn := "", containerTaken := greeting, guestOut := "", toHost := ACK + greeting)
  {
    var all := ACK + greeting;
    WholeSlice(greeting);
    RunExtend(Init(port), before, s, GuestDown(|greeting|));
    steps := before + [GuestDown(|greeting|)];
    t := s.(containerIn := "", containerTaken := greeting, guestOut := all);
    WholeSlice(all);
    RunExtend(Init(port), steps, t, RelayDown(|all|));
    steps, t := steps + [RelayDown(|all|)], Apply(t, RelayDown(|all|));
  }

  lemma PortLineFits(port: nat)
    requires port < U16
    ensures |PortLine(port)| <= 6
  {
    assert Pow10(5) == 100000;
    DigitsLength(port, 5);
  }

  // ---------- Exactly when something can still be lost ----------

  lemma {:induction false} SilentRunWaits(s: State, steps: seq<Step>, t: State)
    requires Run(s, steps, t) && forall k :: 0 <= k < |steps| ==> !steps[k].ContainerWrite?
    ensures ContainerWaits(s, steps)
    decreases |steps|
  {
    if steps != [] { SilentRunWaits(Apply(s, steps[0]), steps[1..], t); }
  }

  /** What has been read of a stream without meeting a newline is shorter than its first line. */
  lemma NotPastLine(l: Bytes, rest: Bytes, line: Bytes, more: Bytes)
    requires '\n' !in l && IsLine(line) && l + rest == line + more
    ensures |l| < |line| && rest != ""
  {
    var stream := line + more;
    assert stream[|line| - 1] == '\n';
    forall i | 0 <= i < |l| ensures stream[i] != '\n' {
      assert stream[i] == l[i];
    }
  }

  /** The buffered read that takes the acknowledgement and one byte more drops that byte. */
  lemma ReadPastAck(s: State)
    requires Inv(s) && s.host.HostAwaitAgent? && s.guest.GuestSpliced? && s.guestOut == "" && s.containerTaken != ""
    ensures |s.host.partial| <= 2 && Enabled(s, HostRead(4 - |s.host.partial|))
    ensures Apply(s, HostRead(4 - |s.host.partial|)).lostAck != ""
  {
    var l := s.host.partial;
    EmptyUnit(s.toHost);
    Replies();
    NotPastLine(l, s.toHost, ACK, s.containerTaken);
    var n := 4 - |l|;
    var chunk, left := s.toHost[..n], s.toHost[n..];
    assert s.toHost == chunk + left;
    LineRead(l, chunk, left, ACK, s.containerTaken);
    PastLineOverreads(ReadLine(l, chunk), left, ACK, s.containerTaken);
  }

  /** A read that leaves fewer bytes than follow the line has taken some of them. */
  lemma PastLineOverreads(r: Buffered, rest: Bytes, line: Bytes, more: Bytes)
    requires Meets(r, rest, line, more) && IsLine(line) && |rest| < |more|
    ensures r.Line? && r.over != ""
  {
    if r.Unfinished? { NotPastLine(r.partial, rest, line, more); }
  }

  lemma SpokenReachesHost(s: State) returns (steps: seq<Step>, t: State)
    requires Inv(s) && s.host.HostAwaitAgent? && s.guest.GuestSpliced?
    ensures Run(s, steps, t) && Inv(t) && t.host == s.host && t.guest == s.guest
    ensures t.guestOut == "" && |t.containerTaken| >= |s.containerSent|
    ensures forall k :: 0 <= k < |steps| ==> !steps[k].ContainerWrite?
  {
    var a, b := GuestDown(|s.containerIn|), RelayDown(|s.guestOut + s.containerIn|);
    t := Apply(s, a);
    StepKeeps(s, a);
    WholeSlice(s.containerIn);
    RunExtend(s, [], s, a);
    var u := t;
    StepKeeps(u, b);
    WholeSlice(u.guestOut);
    RunExtend(s, [] + [a], u, b);
    steps, t := [] + [a] + [b], Apply(u, b);
  }

  lemma SplicedGuestCanLose(s: State) returns (steps: seq<Step>, t: State)
    requires Inv(s) && s.host.HostAwaitAgent? && s.guest.GuestSpliced? && s.containerSent != ""
    ensures Run(s, steps, t) && t.lostAck != "" && forall k :: 0 <= k < |steps| ==> !steps[k].ContainerWrite?
  {
    steps, t := SpokenReachesHost(s);
    ReadPastAck(t);
    var read := HostRead(4 - |t.host.partial|);
    RunExtend(s, steps, t, read);
    steps, t := steps + [read], Apply(t, read);
  }

  /** Whenever the container has spoken before the splice, it need not speak again to lose something. */
  lemma SpokenCanBeLost(s: State) returns (steps: seq<Step>, t: State)
    requires Inv(s) && s.host.HostAwaitAgent? && s.containerSent != ""
    ensures Run(s, steps, t) && t.lostAck != "" && forall k :: 0 <= k < |steps| ==> !steps[k].ContainerWrite?
  {
    if s.guest.GuestConnected? {
      StepKeeps(s, GuestAck);
      steps, t := SplicedGuestCanLose(Apply(s, GuestAck));
      RunPrepend(s, GuestAck, steps, t);
      steps := [GuestAck] + steps;
    } else {
      steps, t := SplicedGuestCanLose(s);
    }
  }

  lemma RunPrepend(s: State, step: Step, rest: seq<Step>, t: State)
    requires Enabled(s, step) && Run(Apply(s, step), rest, t)
    ensures Run(s, [step] + rest, t)
  {
    assert ([step] + rest)[1..] == rest;
  }

  /** A continuation in which the container waits for the client. */
  ghost predicate WaitingRun(s: State, steps: seq<Step>, t: State) {
    Run(s, steps, t) && ContainerWaits(s, steps)
  }

  /** In every reachable state before the splice: no continuation in which the container waits loses anything, exactly
      when the container has not spoken yet. */
  lemma NothingLostIffSilent(port: nat, before: seq<Step>, s: State)
    requires port < U16 && Run(Init(port), before, s) && !s.host.HostSpliced?
    ensures (forall steps, t :: WaitingRun(s, steps, t) ==> t.lostAck == "") <==> s.containerSent == ""
  {
    RunKeeps(Init(port), before, s);
    if s.containerSent == "" {
      forall steps, t | WaitingRun(s, steps, t) ensures t.lostAck == "" {
        WaitingRunKeeps(s, steps, t);
      }
    } else {
      assert s.host.HostAwaitAgent?;
      var steps, t := SpokenCanBeLost(s);
      SilentRunWaits(s, steps, t);
      assert WaitingRun(s, steps, t);
    }
  }

  // ---------- Everything can still arrive ----------

  ghost predicate Refused(s: State) { s.relay.RelayRefused? || s.guest.GuestFailed? }

  ghost predicate Settled(s: State) { s.host.HostSpliced? || s.host.HostFailed? }

  function HostRank(s: State): nat {
    match s.host
    case HostStart => 3
    case HostAwaitRelay(_) => if s.relay.RelayIdle? then 2 else 1
    case HostAwaitAgent(_) => 0
    case _ => 0
  }

  function GuestRank(s: State): nat {
    match s.guest
    case GuestAwaitPort(_) => 3
    case GuestDialing(_) => 2
    case GuestConnected(_) => 1
    case _ => 0
  }

  /** Bytes the relay has yet to move, and bytes a party has yet to read. */
  function AtRelay(s: State): nat { |s.hostOut| + |s.guestOut| }

  function Arrived(s: State): nat { |s.toHost| + |s.toGuest| }

  /** The step advances the handshake: it settles it, or a party moves on, or bytes do. */
  ghost predicate Advances(s: State, t: State) {
    || Settled(t)
    || HostRank(t) < HostRank(s)
    || (HostRank(t) == HostRank(s) && GuestRank(t) < GuestRank(s))
    || (HostRank(t) == HostRank(s) && GuestRank(t) == GuestRank(s) && AtRelay(t) < AtRelay(s))
    || (HostRank(t) == HostRank(s) && GuestRank(t) == GuestRank(s) && AtRelay(t) == AtRelay(s)
        && Arrived(t) < Arrived(s))
  }

  /** What to do next: read a byte if one has arrived, else let the relay or the next party move. */
  function NextStep(s: State): Step {
    match s.host
    case HostStart => HostConnect
    case HostAwaitRelay(_) => if s.relay.RelayIdle? then RelayAnswer(ANSWER) else HostRead(1)
    case _ =>
      match s.guest
      case GuestAwaitPort(_) => if s.toGuest != "" then GuestRead(1) else RelayUp(|s.hostOut|)
      case GuestDialing(_) => GuestDial(true)
      case GuestConnected(_) => GuestAck
      case _ => if s.toHost != "" then HostRead(1) else RelayDown(|s.guestOut|)
  }

  lemma NextStepEnabled(s: State)
    requires Inv(s) && !Settled(s)
    ensures Enabled(s, NextStep(s)) && !NextStep(s).ContainerWrite? && !NextStep(s).ClientWrite?
    ensures NextStep(s).RelayUp? ==> s.hostOut != ""
    ensures NextStep(s).RelayDown? ==> s.guestOut != ""
  {
    Replies();
    AnswerIsLine();
    PortLineIsLine(s.vmPort);
    match s.host
    case HostStart =>
    case HostAwaitRelay(l) =>
      if !s.relay.RelayIdle? {
        EmptyUnit(s.relay.answer);
        NotPastLine(l, s.toHost, s.relay.answer, "");
      }
    case HostAwaitAgent(l) =>
      match s.guest
      case GuestAwaitPort(g) =>
        EmptyUnit(PortLine(s.vmPort));
        NotPastLine(g, s.toGuest + s.hostOut, PortLine(s.vmPort), "");
      case GuestSpliced(_) =>
        NotPastLine(l, s.toHost + s.guestOut, ACK, s.containerTaken);
      case GuestFailed =>
        EmptyUnit(REFUSED);
        NotPastLine(l, s.toHost + s.guestOut, REFUSED, "");
      case _ =>
  }

  lemma HostReadAdvances(s: State)
    requires Enabled(s, HostRead(1))
    ensures Advances(s, Apply(s, HostRead(1))) && (Refused(Apply(s, HostRead(1))) <==> Refused(s))
  {
    HostAfterAdvances(s, s.toHost[1..], ReadLine(s.host.partial, s.toHost[..1]));
  }

  lemma HostAfterAdvances(s: State, left: Bytes, r: Buffered)
    requires (s.host.HostAwaitRelay? || s.host.HostAwaitAgent?) && |left| < |s.toHost|
    ensures Advances(s, HostAfter(s, left, r)) && (Refused(HostAfter(s, left, r)) <==> Refused(s))
  {
  }

  lemma GuestReadAdvances(s: State)
    requires Inv(s) && Enabled(s, GuestRead(1)) && s.host.HostAwaitAgent?
    ensures Advances(s, Apply(s, GuestRead(1))) && (Refused(Apply(s, GuestRead(1))) <==> Refused(s))
  {
    StepKeeps(s, GuestRead(1));
    GuestAfterAdvances(s, s.toGuest[1..], ReadLine(s.guest.partial, s.toGuest[..1]));
    GuestReadNeverFails(s);
  }

  lemma GuestAfterAdvances(s: State, left: Bytes, r: Buffered)
    requires s.guest.GuestAwaitPort? && |left| < |s.toGuest|
    ensures Advances(s, GuestAfter(s, left, r)) && GuestAfter(s, left, r).relay == s.relay
  {
  }

  lemma GuestReadNeverFails(s: State)
    requires Inv(s) && Enabled(s, GuestRead(1)) && s.host.HostAwaitAgent? && Inv(Apply(s, GuestRead(1)))
    ensures !Apply(s, GuestRead(1)).guest.GuestFailed?
  {
    var t := Apply(s, GuestRead(1));
    assert t.host == s.host && t.toHost == s.toHost && t.guestOut == s.guestOut;
    assert |s.host.partial + (s.toHost + s.guestOut)| == 0;
  }

  lemma NextStepAdvances(s: State)
    requires Inv(s) && !Settled(s)
    ensures Enabled(s, NextStep(s)) && Advances(s, Apply(s, NextStep(s)))
    ensures Refused(Apply(s, NextStep(s))) <==> Refused(s)
  {
    NextStepEnabled(s);
    match NextStep(s)
    case HostRead(_) => HostReadAdvances(s);
    case GuestRead(_) => GuestReadAdvances(s);
    case RelayAnswer(_) => AnswerIsLine();
    case _ =>
  }

  lemma WritersOnly(s: State, step: Step)
    requires Enabled(s, step) && !step.ContainerWrite? && !step.ClientWrite?
    ensures Apply(s, step).clientSent == s.clientSent && Apply(s, step).containerSent == s.containerSent
  {
  }

  lemma {:induction false} RunJoin(s: State, first: seq<Step>, m: State, second: seq<Step>, t: State)
    requires Run(s, first, m) && Run(m, second, t)
    ensures Run(s, first + second, t)
    decreases |first|
  {
    if first == [] {
      assert first + second == second;
    } else {
      assert (first + second)[1..] == first[1..] + second;
      RunJoin(Apply(s, first[0]), first[1..], m, second, t);
    }
  }

  /** No state of the handshake is stuck: from each of them it can be brought to its end, to the splice unless the relay
      or the container's port has refused. */
  lemma {:induction false} HandshakeCanFinish(s: State) returns (steps: seq<Step>, t: State)
    requires Inv(s)
    ensures Run(s, steps, t) && Inv(t) && (if Refused(s) then t.host.HostFailed? else t.host.HostSpliced?)
    ensures t.clientSent == s.clientSent && t.containerSent == s.containerSent
    decreases if Settled(s) then 0 else 1, HostRank(s), GuestRank(s), AtRelay(s), Arrived(s)
  {
    if Settled(s) {
      steps, t := [], s;
    } else {
      var step := NextStep(s);
      NextStepEnabled(s);
      NextStepAdvances(s);
      StepKeeps(s, step);
      WritersOnly(s, step);
      steps, t := HandshakeCanFinish(Apply(s, step));
      RunPrepend(s, step, steps, t);
      steps := [step] + steps;
    }
  }

  lemma DrainUp(s: State) returns (more: seq<Step>, t: State)
    requires Inv(s) && s.host.HostSpliced?
    ensures Run(s, more, t) && t.containerGot == s.clientSent
    ensures t == s.(clientIn := "", clientTaken := t.clientTaken, hostOut := "", toGuest := "",
      containerGot := t.containerGot)
  {
    var up := s.hostOut + s.clientIn;
    WholeSlice(s.clientIn);
    RunExtend(s, [], s, HostUp(|s.clientIn|));
    more, t := [] + [HostUp(|s.clientIn|)], Apply(s, HostUp(|s.clientIn|));
    WholeSlice(up);
    RunExtend(s, more, t, RelayUp(|up|));
    more, t := more + [RelayUp(|up|)], Apply(t, RelayUp(|up|));
    var all := s.toGuest + up;
    WholeSlice(all);
    RunExtend(s, more, t, GuestUp(|all|));
    more, t := more + [GuestUp(|all|)], Apply(t, GuestUp(|all|));
    Assoc(s.toGuest, s.hostOut, s.clientIn);
    Assoc(s.containerGot, s.toGuest + s.hostOut, s.clientIn);
  }

  lemma DrainDown(s: State) returns (more: seq<Step>, t: State)
    requires Inv(s) && s.host.HostSpliced?
    ensures Run(s, more, t) && s.containerSent == t.lostAck + t.clientGot
    ensures t == s.(containerIn := "", containerTaken := t.containerTaken, guestOut := "", toHost := "",
      clientGot := t.clientGot)
  {
    var down := s.guestOut + s.containerIn;
    WholeSlice(s.containerIn);
    RunExtend(s, [], s, GuestDown(|s.containerIn|));
    more, t := [] + [GuestDown(|s.containerIn|)], Apply(s, GuestDown(|s.containerIn|));
    WholeSlice(down);
    RunExtend(s, more, t, RelayDown(|down|));
    more, t := more + [RelayDown(|down|)], Apply(t, RelayDown(|down|));
    var all := s.toHost + down;
    WholeSlice(all);
    RunExtend(s, more, t, HostDown(|all|));
    more, t := more + [HostDown(|all|)], Apply(t, HostDown(|all|));
    Assoc(s.toHost, s.guestOut, s.containerIn);
    Assoc(s.lostAck + s.clientGot, s.toHost + s.guestOut, s.containerIn);
    Assoc(s.lostAck, s.clientGot, all);
  }

  /** From every reachable state the relay and the container's port have not refused, there is a continuation that
      delivers everything sent so far, both ways, except what the acknowledgement read dropped; after a refusal there is
      one in which the host gives up. */
  lemma EverythingCanArrive(port: nat, before: seq<Step>, s: State) returns (more: seq<Step>, t: State)
    requires port < U16 && Run(Init(port), before, s)
    ensures Run(s, more, t)
    ensures Refused(s) ==> t.host.HostFailed?
    ensures !Refused(s) ==>
      t.host.HostSpliced? && t.containerGot == s.clientSent && s.containerSent == t.lostAck + t.clientGot
  {
    RunKeeps(Init(port), before, s);
    more, t := HandshakeCanFinish(s);
    if !Refused(s) {
      var m, up, down := t, [], [];
      up, t := DrainUp(m);
      RunJoin(s, more, m, up, t);
      more := more + up;
      RunKeeps(m, up, t);
      m := t;
      down, t := DrainDown(m);
      RunJoin(s, more, m, down, t);
      more := more + down;
    }
  }

  /** The client can always say more, and the container once it is connected; there is a continuation from there that
      delivers that too. */
  lemma MoreCanArrive(port: nat, before: seq<Step>, s: State, up: Bytes, down: Bytes)
    returns (more: seq<Step>, t: State)
    requires port < U16 && Run(Init(port), before, s) && !Refused(s)
    ensures Run(s, more, t) && t.host.HostSpliced? && t.containerGot == s.clientSent + up
    ensures s.guest.GuestConnected? || s.guest.GuestSpliced? ==> t.lostAck + t.clientGot == s.containerSent + down
  {
    var said, u := [], s;
    assert Run(s, said, u);
    RunExtend(s, said, u, ClientWrite(up));
    said, u := said + [ClientWrite(up)], Apply(u, ClientWrite(up));
    if s.guest.GuestConnected? || s.guest.GuestSpliced? {
      RunExtend(s, said, u, ContainerWrite(down));
      said, u := said + [ContainerWrite(down)], Apply(u, ContainerWrite(down));
    }
    RunJoin(Init(port), before, s, said, u);
    more, t := EverythingCanArrive(port, before + said, u);
    RunJoin(s, said, u, more, t);
    more := said + more;
  }

  lemma {:induction false} RefusalStays(s: State, steps: seq<Step>, t: State)
    requires Refused(s) && Run(s, steps, t)
    ensures Refused(t)
    decreases |steps|
  {
    if steps != [] { RefusalStays(Apply(s, steps[0]), steps[1..], t); }
  }

  lemma RefusedApart(s: State)
    requires Inv(s) && Refused(s)
    ensures !s.host.HostSpliced? && s.containerGot == "" && s.clientGot == ""
  {
  }

  ghost predicate IsRefusal(step: Step) {
    step == GuestDial(false) || (step.RelayAnswer? && !("OK" <= step.answer))
  }

  lemma RefusalRefuses(s: State, refusal: Step)
    requires Enabled(s, refusal) && IsRefusal(refusal)
    ensures Refused(Apply(s, refusal))
  {
  }

  /** A refusal is final: once the relay answers anything but OK, or the container's port cannot be dialled, no run
      splices the connection, and neither end ever gets a byte of the other. */
  lemma RefusalIsFinal(port: nat, before: seq<Step>, s: State, refusal: Step, after: seq<Step>, t: State)
    requires port < U16 && Run(Init(port), before, s) && Enabled(s, refusal)
    requires IsRefusal(refusal) && Run(Apply(s, refusal), after, t)
    ensures !t.host.HostSpliced? && t.containerGot == "" && t.clientGot == ""
  {
    var u := Apply(s, refusal);
    RefusalRefuses(s, refusal);
    RefusalStays(u, after, t);
    RunKeeps(Init(port), before, s);
    StepKeeps(s, refusal);
    RunKeeps(u, after, t);
    RefusedApart(t);
  }
}
