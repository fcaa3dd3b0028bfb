/**
 A sender and a receiver at the ends of a byte stream.  A step is one handler run on a strand, a
 call of Send, or some bytes getting through; a run is any sequence of enabled steps.
 */
module Connections {
  import opened Framing
  import opened Octets

  /** What the receiver waits for: four bytes of size, that many bytes of data, or nothing more. */
  datatype Receiving = Size | Data(size: nat) | Closed

  /**
   `posted` are the messages of handlers posted by Send and not yet run, `queue` the send queue, and
   `through` the number of bytes of the write in flight that have got through.  The stream holds
   all bytes written; the receiver has read some of them.  `sent` records the calls of Send that
   did not throw.
   */
  datatype State = State(posted: seq<Message>, queue: seq<Message>, inFlight: bool, through: nat, failed: bool,
                         stream: seq<Octet>, read: nat, receiving: Receiving, delivered: seq<Message>, sent: seq<Message>)

  const START := State([], [], false, 0, false, [], 0, Size, [], [])

  datatype Step = Send(message: Message) | RunPosted | Through(bytes: nat) | WriteDone | WriteFailed | SizeRead | DataRead

  predicate Enabled(s: State, a: Step) {
    match a
    case Send(m) => true
    case RunPosted => s.posted != []
    case Through(n) => s.inFlight && s.queue != [] && s.through + n <= |Frame(s.queue[0])|
    case WriteDone => s.inFlight && s.queue != [] && s.through == |Frame(s.queue[0])|
    case WriteFailed => s.inFlight
    case SizeRead => s.receiving.Size? && s.read + 4 <= |s.stream|
    case DataRead => s.receiving.Data? && s.read + s.receiving.size <= |s.stream|
  }

  function AfterSize(s: State): State
    requires Enabled(s, SizeRead)
  {
    var size := SizeOf(s.stream[s.read..s.read + 4]);
    s.(read := s.read + 4, receiving := if size > MAX_MESSAGE_SIZE then Closed else Data(size))
  }

  function Next(s: State, a: Step): State
    requires Enabled(s, a)
  {
    match a
    case Send(m) => if Sendable(m) then s.(posted := s.posted + [m], sent := s.sent + [m]) else s
    case RunPosted =>
      var pushed := s.(posted := s.posted[1..], queue := s.queue + [s.posted[0]]);
      if s.queue == [] then pushed.(inFlight := true, through := 0) else pushed
    case Through(n) =>
      s.(through := s.through + n, stream := s.stream + Frame(s.queue[0])[s.through..s.through + n])
    case WriteDone => s.(queue := s.queue[1..], inFlight := |s.queue| > 1, through := 0)
    case WriteFailed => s.(inFlight := false, failed := true)
    case SizeRead => AfterSize(s)
    case DataRead =>
      s.(read := s.read + s.receiving.size, receiving := Size,
         delivered := s.delivered + [s.stream[s.read..s.read + s.receiving.size]])
  }

  ghost predicate IsRun(s: State, steps: seq<Step>)
    decreases |steps|
  {
    steps == [] || (Enabled(s, steps[0]) && IsRun(Next(s, steps[0]), steps[1..]))
  }

  ghost function After(s: State, steps: seq<Step>): State
    requires IsRun(s, steps)
    decreases |steps|
  {
    if steps == [] then s else After(Next(s, steps[0]), steps[1..])
  }

  // ---------------------------------------------------------------- the sending end

  /** The messages whose frames are whole in the stream. */
  ghost function Done(s: State): seq<Message>
    requires |s.queue| + |s.posted| <= |s.sent|
  {
    s.sent[..|s.sent| - |s.queue| - |s.posted|]
  }

  /**
   The messages sent are those done, those queued and those posted, in order.  One write at most is
   in flight, that of the front of the queue, and the stream ends with what has got through of it.
   */
  ghost predicate SenderOk(s: State) {
    && (forall i | 0 <= i < |s.sent| :: Sendable(s.sent[i]))
    && |s.queue| + |s.posted| <= |s.sent| && s.sent == Done(s) + s.queue + s.posted
    && (s.inFlight ==> s.queue != [] && !s.failed)
    && (!s.inFlight && s.queue != [] ==> s.failed)
    && (s.queue == [] ==> s.through == 0 && !s.failed)
    && (s.queue != [] ==> s.through <= |Frame(s.queue[0])|)
    && s.stream == Frames(Done(s)) + if s.queue == [] then [] else Frame(s.queue[0])[..s.through]
  }

  /** The stream is a prefix of the frames of all messages, in the order of the calls of Send. */
  lemma StreamIsPrefix(s: State)
    requires SenderOk(s)
    ensures s.stream <= Frames(s.sent)
    ensures s.queue == [] && s.posted == [] ==> s.stream == Frames(s.sent)
  {
    var n := |Done(s)|;
    if s.queue != [] {
      assert s.sent[n] == s.queue[0];
      FrameAt(s.sent, n);
      assert s.sent[..n] == Done(s);
    } else {
      FramesJoined(Done(s), s.posted);
      assert s.sent == Done(s) + s.posted;
    }
  }

  lemma SendKeeps(s: State, m: Message)
    requires SenderOk(s)
    ensures SenderOk(Next(s, Send(m)))
  {
    if Sendable(m) {
      var t := Next(s, Send(m));
      assert Done(t) == Done(s);
    }
  }

  lemma RunPostedKeeps(s: State)
    requires SenderOk(s) && Enabled(s, RunPosted)
    ensures SenderOk(Next(s, RunPosted))
  {
    hide Frame, Frames, Sendable;
    var t := Next(s, RunPosted);
    Regrouped(Done(s), s.queue, s.posted[0], t.posted);
    assert s.posted == [s.posted[0]] + t.posted;
    assert Done(t) == Done(s);
    if s.queue == [] {
      assert Frame(t.queue[0])[..0] == [];
    }
  }

  lemma Regrouped(a: seq<Message>, b: seq<Message>, m: Message, c: seq<Message>)
    ensures a + b + ([m] + c) == a + (b + [m]) + c
  {
  }

  lemma ThroughKeeps(s: State, n: nat)
    requires SenderOk(s) && Enabled(s, Through(n))
    ensures SenderOk(Next(s, Through(n)))
  {
    var t, f := Next(s, Through(n)), Frame(s.queue[0]);
    assert Done(t) == Done(s);
    assert f[..s.through] + f[s.through..s.through + n] == f[..s.through + n];
  }

  lemma WriteDoneKeeps(s: State)
    requires SenderOk(s) && Enabled(s, WriteDone)
    ensures SenderOk(Next(s, WriteDone))
  {
    hide Frame, Frames, Sendable;
    var t, n, m := Next(s, WriteDone), |Done(s)|, s.queue[0];
    assert s.queue == [m] + t.queue;
    QueueMoved(Done(s), m, t.queue, s.posted, s.sent);
    assert Done(t) == s.sent[..n + 1] && Done(s) == s.sent[..n];
    FrameAt(s.sent, n);
    assert Frame(m)[..s.through] == Frame(m);
    if t.queue != [] {
      assert Frame(t.queue[0])[..0] == [];
    }
  }

  lemma QueueMoved(done: seq<Message>, m: Message, rest: seq<Message>, posted: seq<Message>, sent: seq<Message>)
    requires sent == done + ([m] + rest) + posted
    ensures sent[|done|] == m && sent[..|done| + 1] == done + [m] && sent == sent[..|done| + 1] + rest + posted
  {
  }

  // ---------------------------------------------------------------- the receiving end

  /** What was delivered is what was sent first, and the reader is at a frame, or after its size. */
  ghost predicate ReceiverOk(s: State) {
    && s.delivered <= s.sent && s.read <= |s.stream|
    && match s.receiving
       case Size => s.read == |Frames(s.delivered)|
       case Data(size) =>
         |s.delivered| < |s.sent| && s.read == |Frames(s.delivered)| + 4 && size == |s.sent[|s.delivered|]|
       case Closed => false
  }

  ghost predicate Inv(s: State) {
    SenderOk(s) && ReceiverOk(s)
  }

  /** If there is more in the stream than the frames delivered, there is a next message, and its frame. */
  lemma {:induction false} NextFrame(stream: seq<Octet>, delivered: seq<Message>, sent: seq<Message>)
    requires stream <= Frames(sent) && delivered <= sent && |stream| > |Frames(delivered)|
    ensures |delivered| < |sent|
    ensures var m, p := sent[|delivered|], |Frames(delivered)|;
            && delivered + [m] == sent[..|delivered| + 1]
            && (|stream| >= p + 4 ==> stream[p..p + 4] == SizeBuffer(|m|))
            && (|stream| >= p + 4 + |m| ==> stream[p + 4..p + 4 + |m|] == m && |Frames(delivered + [m])| == p + 4 + |m|)
  {
    hide Frames, Frame;
    var n := |delivered|;
    assert sent[..n] == delivered;
    assert sent[..|sent|] == sent;
    var m := sent[n];
    FrameAt(sent, n);
    assert sent[..n + 1] == delivered + [m];
    FrameParts(stream, Frames(delivered), m, Frames(sent));
  }

  lemma FrameParts(stream: seq<Octet>, front: seq<Octet>, m: Message, all: seq<Octet>)
    requires stream <= all && front + Frame(m) <= all
    ensures var p := |front|;
            && (|stream| >= p + 4 ==> stream[p..p + 4] == SizeBuffer(|m|))
            && (|stream| >= p + 4 + |m| ==> stream[p + 4..p + 4 + |m|] == m && |front + Frame(m)| == p + 4 + |m|)
  {
    var p, f := |front|, front + Frame(m);
    assert f == all[..|f|];
    if |stream| >= p + 4 {
      assert stream[p..p + 4] == f[p..p + 4] == SizeBuffer(|m|);
    }
    if |stream| >= p + 4 + |m| {
      assert stream[..|f|] == f;
      assert stream[p + 4..p + 4 + |m|] == f[p + 4..] == m;
    }
  }

  lemma SizeReadKeeps(s: State)
    requires Inv(s) && Enabled(s, SizeRead)
    ensures Inv(Next(s, SizeRead)) && Next(s, SizeRead).receiving.Data?
  {
    hide Frames, Frame, SizeOf;
    StreamIsPrefix(s);
    NextFrame(s.stream, s.delivered, s.sent);
    SizeReadBack(|s.sent[|s.delivered|]|);
  }

  lemma DataReadKeeps(s: State)
    requires Inv(s) && Enabled(s, DataRead)
    ensures Inv(Next(s, DataRead))
  {
    hide Frames, Frame, SizeOf;
    StreamIsPrefix(s);
    NextFrame(s.stream, s.delivered, s.sent);
  }

  lemma StepKeeps(s: State, a: Step)
    requires Inv(s) && Enabled(s, a)
    ensures Inv(Next(s, a))
  {
    hide Frames, Frame, SizeOf;
    match a {
      case Send(m) => SendKeeps(s, m);
      case RunPosted => RunPostedKeeps(s);
      case Through(n) => ThroughKeeps(s, n);
      case WriteDone => WriteDoneKeeps(s);
      case WriteFailed =>
      case SizeRead => SizeReadKeeps(s);
      case DataRead => DataReadKeeps(s);
    }
  }

  lemma {:induction false} RunKeeps(s: State, steps: seq<Step>)
    requires Inv(s) && IsRun(s, steps)
    ensures Inv(After(s, steps))
    decreases |steps|
  {
    hide Inv, Next, Enabled;
    if steps != [] {
      StepKeeps(s, steps[0]);
      RunKeeps(Next(s, steps[0]), steps[1..]);
    }
  }

  /** In every run: one write in flight at most, the stream in order, and delivery in order without loss. */
  lemma {:induction false} EveryRun(steps: seq<Step>)
    requires IsRun(START, steps)
    ensures var s := After(START, steps);
            && (s.inFlight ==> s.queue != [] && s.through <= |Frame(s.queue[0])|)
            && s.stream <= Frames(s.sent) && s.delivered <= s.sent && !s.receiving.Closed?
  {
    StartInv();
    RunKeeps(START, steps);
    StreamIsPrefix(After(START, steps));
  }

  lemma StartInv()
    ensures Inv(START)
  {
    assert Done(START) == [];
  }

  /** When neither end can go on and no write failed, every message has been delivered. */
  lemma {:induction false} AllDelivered(steps: seq<Step>)
    requires IsRun(START, steps)
    requires var s := After(START, steps);
             !s.failed && forall a: Step | !a.Send? && !a.Through? && !a.WriteFailed? :: !Enabled(s, a)
    requires var s := After(START, steps); s.inFlight && s.queue != [] ==> s.through == |Frame(s.queue[0])|
    ensures After(START, steps).delivered == After(START, steps).sent
  {
    hide Frames, Frame, Sendable;
    var s := After(START, steps);
    StartInv();
    RunKeeps(START, steps);
    assert !Enabled(s, RunPosted) && !Enabled(s, WriteDone) && !Enabled(s, SizeRead) && !Enabled(s, DataRead);
    StreamIsPrefix(s);
    assert s.queue == [] && s.posted == [];
    if |s.delivered| < |s.sent| {
      MoreToRead(s);
    }
  }

  /** While a message whose frame is in the stream has not been delivered, the reader can go on. */
  lemma MoreToRead(s: State)
    requires Inv(s) && s.stream == Frames(s.sent) && |s.delivered| < |s.sent|
    ensures Enabled(s, SizeRead) || Enabled(s, DataRead)
  {
    var n := |s.delivered|;
    assert s.sent[..n] == s.delivered;
    FrameAt(s.sent, n);
    assert |Frames(s.sent)| >= |Frames(s.delivered)| + 4 + |s.sent[n]|;
  }
}
