/**
 * The serial link to the calculator device: the port settings and timeouts
 * connect_serial applies, the outcomes of the four Win32 calls it makes, and
 * what receive_data leaves in the response buffer.
 */
module Serial {
  import opened Wrappers
  import opened CStrings

  /** The only stop-bit and parity settings connect_serial uses: ONESTOPBIT and NOPARITY. */
  datatype StopBits = OneStopBit
  datatype Parity = NoParity

  /** The DCB fields connect_serial sets. */
  datatype CommSettings = CommSettings(baudRate: nat, byteSize: nat, stopBits: StopBits, parity: Parity)

  /** The COMMTIMEOUTS fields connect_serial sets, in milliseconds. */
  datatype CommTimeouts = CommTimeouts(
    readIntervalTimeout: nat,
    readTotalTimeoutConstant: nat,
    readTotalTimeoutMultiplier: nat,
    writeTotalTimeoutConstant: nat,
    writeTotalTimeoutMultiplier: nat)

  const PortSettings := CommSettings(9600, 8, OneStopBit, NoParity)
  const PortTimeouts := CommTimeouts(50, 50, 10, 50, 10)

  /** Whether each Win32 call in connect_serial succeeds: CreateFile, GetCommState, SetCommState, SetCommTimeouts. */
  datatype PortDriver = PortDriver(
    createFileOk: bool,
    getCommStateOk: bool,
    setCommStateOk: bool,
    setCommTimeoutsOk: bool)

  predicate ConnectSucceeds(d: PortDriver) {
    d.createFileOk && d.getCommStateOk && d.setCommStateOk && d.setCommTimeoutsOk
  }

  /** What one ReadFile call on the port reports: FALSE, or TRUE with the bytes the device had ready in time. */
  datatype ReadReply = ReadFailed | ReadDone(ready: seq<char>)

  /** The substitute text receive_data copies into the buffer when nothing usable arrived. */
  const ReceiveErrorText: seq<char> := "Receiving error"

  lemma ReceiveErrorTextHasNoNul()
    ensures NoNul(ReceiveErrorText) && |ReceiveErrorText| == 15
  {
    assert NoNul(ReceiveErrorText) by {
      forall i | 0 <= i < |ReceiveErrorText| ensures ReceiveErrorText[i] != NUL {
      }
    }
  }

  /** The bytes ReadFile(handle, buf, count, &bytesRead, NULL) stores: never more than count. */
  function BytesRead(reply: ReadReply, count: nat): (b: seq<char>)
    ensures |b| <= count
    ensures reply.ReadDone? ==> b <= reply.ready && |b| == Min(count, |reply.ready|)
    ensures reply.ReadFailed? ==> b == []
  {
    match reply
    case ReadFailed => []
    case ReadDone(ready) => ready[..Min(count, |ready|)]
  }

  /** receive_data's failure test `!result || bytesRead == 0`. */
  predicate ReceiveFails(reply: ReadReply, count: nat) {
    reply.ReadFailed? || BytesRead(reply, count) == []
  }

  /** The string receive_data(responseBuffer, bufferSize) leaves in the buffer. */
  function ReceivedResponse(reply: ReadReply, bufferSize: nat): (r: seq<char>)
    requires bufferSize > |ReceiveErrorText|
    ensures NoNul(r) && |r| <= bufferSize - 1
    ensures ReceiveFails(reply, bufferSize - 1) ==> r == ReceiveErrorText
    ensures !ReceiveFails(reply, bufferSize - 1) ==> r <= BytesRead(reply, bufferSize - 1)
  {
    ReceiveErrorTextHasNoNul();
    if ReceiveFails(reply, bufferSize - 1) then ReceiveErrorText
    else CString(BytesRead(reply, bufferSize - 1))
  }

  /** The buffer after a read that delivered bytes: those bytes, then the NUL receive_data writes. */
  lemma ReceivedBuffer(reply: ReadReply, bufferSize: nat, buf: seq<char>)
    requires bufferSize > |ReceiveErrorText| && |buf| == bufferSize
    requires !ReceiveFails(reply, bufferSize - 1)
    requires var got := BytesRead(reply, bufferSize - 1);
      buf[..|got|] == got && buf[|got|] == NUL
    ensures CString(buf) == ReceivedResponse(reply, bufferSize)
  {
    var got := BytesRead(reply, bufferSize - 1);
    CStringTerminated(buf, |got|);
  }

  /** The buffer after strcpy(buf, "Receiving error"). */
  lemma SubstitutedBuffer(buf: seq<char>)
    requires |buf| > |ReceiveErrorText|
    requires buf[..|ReceiveErrorText|] == ReceiveErrorText && buf[|ReceiveErrorText|] == NUL
    ensures CString(buf) == ReceiveErrorText
  {
    ReceiveErrorTextHasNoNul();
    CStringUpTo(buf, |ReceiveErrorText|);
  }

  /**
   * A successful read that delivers NUL-free bytes yields exactly those bytes:
   * up to bufferSize - 1 of them, not trimmed.
   */
  lemma ReceivedExactly(ready: seq<char>, bufferSize: nat)
    requires bufferSize > |ReceiveErrorText|
    requires ready != [] && NoNul(ready[..Min(bufferSize - 1, |ready|)])
    ensures ReceivedResponse(ReadDone(ready), bufferSize) == ready[..Min(bufferSize - 1, |ready|)]
    ensures |ReceivedResponse(ReadDone(ready), bufferSize)| == Min(bufferSize - 1, |ready|)
  {
    CStringOfNoNul(ready[..Min(bufferSize - 1, |ready|)]);
  }

  /** A failed read and a read that times out with no bytes both yield the substitute text. */
  lemma FailedReceiveSubstitutes(bufferSize: nat)
    requires bufferSize > |ReceiveErrorText|
    ensures ReceivedResponse(ReadFailed, bufferSize) == ReceiveErrorText
    ensures ReceivedResponse(ReadDone([]), bufferSize) == ReceiveErrorText
  {
  }
}
