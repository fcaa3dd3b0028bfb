/** One end of a connection: the handlers which start its reads and writes and run when they complete. */
module TcpConnection {
  import opened Connections
  import opened Framing
  import opened Octets

  datatype SendingMessage = SendingMessage(sizeBuffer: seq<Octet>, data: Message)

  datatype Encoding = Encoded(message: SendingMessage) | OutsideOfBounds | MessageTooLarge

  class Connection {
    var sendQueue: seq<SendingMessage>
    /** A write of the front of the queue has been started and has not completed. */
    var writing: bool
    /** The read that has been started. */
    var reading: Receiving
    /** The messages handed to the receiver's functor. */
    var received: seq<Message>

    constructor ()
      ensures SendsAs(START) && ReceivesAs(START)
    {
      sendQueue, writing, reading, received := [], false, Size, [];
    }

    /** Every queued message has the size of its data. */
    ghost predicate SendsAs(s: State)
      reads this
    {
      && |sendQueue| == |s.queue| && writing == s.inFlight
      && forall i | 0 <= i < |sendQueue| :: sendQueue[i] == SendingMessage(SizeBuffer(|s.queue[i]|), s.queue[i])
    }

    ghost predicate ReceivesAs(s: State)
      reads this
    {
      reading == s.receiving && received == s.delivered
    }

    /** The frame of a message: its size in a loop over the four bytes, and its data. */
    method EncodeData(data: Message) returns (r: Encoding)
      ensures r.Encoded? <==> 0 < |data| <= 1048576
      ensures r.Encoded? ==> r.message == SendingMessage(SizeBuffer(|data|), data)
      ensures r.Encoded? ==>
                var b := r.message.sizeBuffer;
                |b| == 4 && (b[0] as int) * 0x100_0000 + (b[1] as int) * 0x1_0000 + (b[2] as int) * 0x100 + b[3] as int == |data|
      ensures r.OutsideOfBounds? <==> data == []
    {
      if data == [] {
        return OutsideOfBounds;
      }
      if |data| > MAX_MESSAGE_SIZE {
        return MessageTooLarge;
      }
      var buffer := new Octet[4](_ => 0);
      for i := 0 to 4
        invariant forall j | 0 <= j < i :: buffer[j] == SizeByte(|data|, j)
      {
        buffer[i] := SizeByte(|data|, i);
      }
      assert buffer[..] == SizeBuffer(|data|);
      SizeBufferIs(|data|);
      return Encoded(SendingMessage(buffer[..], data));
    }

    /** The handler posted by Send: it starts a write unless one is going on. */
    method RunPostedSend(message: SendingMessage, ghost s: State)
      requires SendsAs(s) && s.posted != [] && message == SendingMessage(SizeBuffer(|s.posted[0]|), s.posted[0])
      modifies this`sendQueue, this`writing
      ensures SendsAs(Next(s, RunPosted))
    {
      var currentlySending := sendQueue != [];
      sendQueue := sendQueue + [message];
      if !currentlySending {
        DoSend();
      }
    }

    method DoSend()
      requires sendQueue != []
      modifies this`writing
      ensures writing
    {
      writing := true;
    }

    /** The handler of a completed write. */
    method OnWritten(ok: bool, ghost s: State)
      requires SendsAs(s) && Enabled(s, if ok then WriteDone else WriteFailed)
      modifies this`sendQueue, this`writing
      ensures SendsAs(Next(s, if ok then WriteDone else WriteFailed))
    {
      writing := false;
      if !ok {
        return;
      }
      sendQueue := sendQueue[1..];
      if sendQueue != [] {
        DoSend();
      }
    }

    /** The handler of a completed read of a size. */
    method OnSizeRead(sizeBuffer: seq<Octet>, ghost s: State)
      requires ReceivesAs(s) && Enabled(s, SizeRead) && sizeBuffer == s.stream[s.read..s.read + 4]
      modifies this`reading
      ensures ReceivesAs(Next(s, SizeRead))
      ensures var b := sizeBuffer;
              var size := (b[0] as int) * 0x100_0000 + (b[1] as int) * 0x1_0000 + (b[2] as int) * 0x100 + b[3] as int;
              reading == if size > 1048576 then Closed else Data(size)
    {
      var b0: int, b1: int, b2: int, b3: int := sizeBuffer[0], sizeBuffer[1], sizeBuffer[2], sizeBuffer[3];
      var dataSize := ((b0 * 256 + b1) * 256 + b2) * 256 + b3;
      if dataSize > MAX_MESSAGE_SIZE {
        reading := Closed;
        return;
      }
      reading := Data(dataSize);
    }

    /** The handler of a completed read of a message. */
    method OnDataRead(data: Message, ghost s: State)
      requires ReceivesAs(s) && Enabled(s, DataRead) && data == s.stream[s.read..s.read + s.receiving.size]
      modifies this`reading, this`received
      ensures ReceivesAs(Next(s, DataRead))
    {
      received := received + [data];
      reading := Size;
    }
  }
}
