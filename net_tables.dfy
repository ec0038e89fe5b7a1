/** The records both platforms return and the names of TCP states: the
    structs TcpConnectionInfo, TcpConnections, UdpEndpointInfo and
    UdpEndpoints, which c/tcp_udp_wrapper_linux.c, c/tcp_wrapper.c and
    c/udp_wrapper.c each declare with the same fields, and
    get_tcp_state_string. */
module NetTables {
  import opened Words

  // ---------------------------------------------------------------------
  // TCP states, in the numbering of MIB_TCP_STATE on Windows

  const TCP_STATE_CLOSED: int := 1
  const TCP_STATE_LISTEN: int := 2
  const TCP_STATE_SYN_SENT: int := 3
  const TCP_STATE_SYN_RCVD: int := 4
  const TCP_STATE_ESTAB: int := 5
  const TCP_STATE_FIN_WAIT1: int := 6
  const TCP_STATE_FIN_WAIT2: int := 7
  const TCP_STATE_CLOSE_WAIT: int := 8
  const TCP_STATE_CLOSING: int := 9
  const TCP_STATE_LAST_ACK: int := 10
  const TCP_STATE_TIME_WAIT: int := 11
  const TCP_STATE_DELETE_TCB: int := 12

  /** get_tcp_state_string */
  function StateString(state: int): string {
    if state == TCP_STATE_CLOSED then "CLOSED"
    else if state == TCP_STATE_LISTEN then "LISTEN"
    else if state == TCP_STATE_SYN_SENT then "SYN_SENT"
    else if state == TCP_STATE_SYN_RCVD then "SYN_RCVD"
    else if state == TCP_STATE_ESTAB then "ESTABLISHED"
    else if state == TCP_STATE_FIN_WAIT1 then "FIN_WAIT1"
    else if state == TCP_STATE_FIN_WAIT2 then "FIN_WAIT2"
    else if state == TCP_STATE_CLOSE_WAIT then "CLOSE_WAIT"
    else if state == TCP_STATE_CLOSING then "CLOSING"
    else if state == TCP_STATE_LAST_ACK then "LAST_ACK"
    else if state == TCP_STATE_TIME_WAIT then "TIME_WAIT"
    else if state == TCP_STATE_DELETE_TCB then "DELETE_TCB"
    else "UNKNOWN"
  }

  /** Exactly the twelve state numbers have a name of their own. */
  lemma StateStringKnown(state: int)
    ensures StateString(state) != "UNKNOWN" <==> TCP_STATE_CLOSED <= state <= TCP_STATE_DELETE_TCB
  {
  }

  /** No two state numbers share a name. */
  lemma StateStringInjective(a: int, b: int)
    requires StateString(a) != "UNKNOWN"
    requires StateString(a) == StateString(b)
    ensures a == b
  {
  }

  // ---------------------------------------------------------------------
  // Records

  datatype TcpConnectionInfo = TcpConnectionInfo(
    state: u32, localAddr: u32, localPort: u16, remoteAddr: u32, remotePort: u16, pid: u32)

  datatype UdpEndpointInfo = UdpEndpointInfo(
    localAddr: u32, localPort: u16, remoteAddr: u32, remotePort: u16, pid: u32)

  /** struct TcpConnections: the first count slots of connections hold
      records. */
  class TcpConnections {
    var count: u32
    var connections: array?<TcpConnectionInfo>

    constructor ()
      ensures count == 0 && connections == null
    {
      count := 0;
      connections := null;
    }
  }

  /** struct UdpEndpoints */
  class UdpEndpoints {
    var count: u32
    var endpoints: array?<UdpEndpointInfo>

    constructor ()
      ensures count == 0 && endpoints == null
    {
      count := 0;
      endpoints := null;
    }
  }
}
