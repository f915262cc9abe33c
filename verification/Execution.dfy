/** The outcome of running one test case, as the executors report it. */
module Execution {
  import opened Bytes
  import opened Wrappers

  datatype ExecutionResult = ExecutionResult(
    success: bool, responseData: Option<seq<Byte>>, executionTimeMs: nat, errorMessage: Option<string>)

  /** `haystack.contains(needle)` on texts. */
  predicate Contains(haystack: string, needle: string) {
    exists i :: 0 <= i <= |haystack| && needle <= haystack[i..]
  }

  /** Containing a text means that it stands between two others. */
  lemma ContainsMiddle(haystack: string, needle: string)
    ensures Contains(haystack, needle) <==> exists a: string, b: string :: haystack == a + needle + b
  {
    if Contains(haystack, needle) {
      var i :| 0 <= i <= |haystack| && needle <= haystack[i..];
      assert haystack == haystack[..i] + needle + haystack[i + |needle|..];
    }
    if a: string, b: string :| haystack == a + needle + b {
      assert needle <= haystack[|a|..];
    }
  }

  // ---------------------------------------------------------------- the two executors

  /** How an execution over TCP can go, with the time it took and the text of the error. */
  datatype TcpOutcome =
    | TcpAnswered(response: seq<Byte>, ms: nat)
    | TcpReadFailed(error: string, ms: nat)
    | TcpReadTimedOut(ms: nat)
    | TcpWriteFailed(error: string, ms: nat)
    | TcpConnectFailed(error: string, ms: nat)
    | TcpConnectTimedOut(ms: nat)

  function TcpResult(o: TcpOutcome): ExecutionResult {
    match o
    case TcpAnswered(response, ms) => ExecutionResult(true, Some(response), ms, None)
    case TcpReadFailed(error, ms) => ExecutionResult(false, None, ms, Some("Read error: " + error))
    case TcpReadTimedOut(ms) => ExecutionResult(true, None, ms, Some("Read timeout"))
    case TcpWriteFailed(error, ms) => ExecutionResult(false, None, ms, Some("Write error: " + error))
    case TcpConnectFailed(error, ms) => ExecutionResult(false, None, ms, Some("Connection error: " + error))
    case TcpConnectTimedOut(ms) => ExecutionResult(false, None, ms, Some("Connection timeout"))
  }

  datatype UdpOutcome =
    | UdpAnswered(response: seq<Byte>, ms: nat)
    | UdpReceiveFailed(error: string, ms: nat)
    | UdpTimedOut(ms: nat)
    | UdpSendFailed(error: string, ms: nat)
    | UdpNoSocket(error: string, ms: nat)

  /** Silence is normal for UDP, so a timeout counts as a success. */
  function UdpResult(o: UdpOutcome): ExecutionResult {
    match o
    case UdpAnswered(response, ms) => ExecutionResult(true, Some(response), ms, None)
    case UdpReceiveFailed(error, ms) => ExecutionResult(false, None, ms, Some("UDP error: " + error))
    case UdpTimedOut(ms) => ExecutionResult(true, None, ms, Some("UDP timeout"))
    case UdpSendFailed(error, ms) => ExecutionResult(false, None, ms, Some("Send error: " + error))
    case UdpNoSocket(error, ms) => ExecutionResult(false, None, ms, Some("Socket error: " + error))
  }

  ghost predicate OverTcp(r: ExecutionResult) { exists o :: r == TcpResult(o) }

  ghost predicate OverUdp(r: ExecutionResult) { exists o :: r == UdpResult(o) }

  /** An answer is a success, and so is silence after the bytes were sent; everything else is a failure. */
  lemma SuccessfulOutcomes(tcp: TcpOutcome, udp: UdpOutcome)
    ensures TcpResult(tcp).success <==> tcp.TcpAnswered? || tcp.TcpReadTimedOut?
    ensures UdpResult(udp).success <==> udp.UdpAnswered? || udp.UdpTimedOut?
    ensures TcpResult(tcp).executionTimeMs == tcp.ms && UdpResult(udp).executionTimeMs == udp.ms
    ensures TcpResult(tcp).responseData == if tcp.TcpAnswered? then Some(tcp.response) else None
    ensures UdpResult(udp).responseData == if udp.UdpAnswered? then Some(udp.response) else None
  {
  }

  /** A failure always has a message and never a response; a success has a response or has timed out. */
  lemma ExecutedShape(r: ExecutionResult)
    requires OverTcp(r) || OverUdp(r)
    ensures !r.success ==> r.errorMessage.Some? && r.responseData.None?
    ensures r.success ==> (r.responseData.Some? <==> r.errorMessage.None?)
  {
    if OverTcp(r) {
      var o :| r == TcpResult(o);
    } else {
      var o :| r == UdpResult(o);
    }
  }
}
