/** What c/tcp_wrapper.c and c/udp_wrapper.c receive from the Windows IP
    Helper API (iphlpapi.h): the status codes of GetExtendedTcpTable and
    GetExtendedUdpTable, the rows of the owner-pid tables they fill, and
    the port conversion both copy loops apply. */
module IpHelper {
  import opened Words
  import opened NetTables

  const NO_ERROR: u32 := 0
  const ERROR_INSUFFICIENT_BUFFER: u32 := 122

  /** MIB_TCP_STATE, the values of dwState. */
  const MIB_TCP_STATE_CLOSED: u32 := 1
  const MIB_TCP_STATE_LISTEN: u32 := 2
  const MIB_TCP_STATE_SYN_SENT: u32 := 3
  const MIB_TCP_STATE_SYN_RCVD: u32 := 4
  const MIB_TCP_STATE_ESTAB: u32 := 5
  const MIB_TCP_STATE_FIN_WAIT1: u32 := 6
  const MIB_TCP_STATE_FIN_WAIT2: u32 := 7
  const MIB_TCP_STATE_CLOSE_WAIT: u32 := 8
  const MIB_TCP_STATE_CLOSING: u32 := 9
  const MIB_TCP_STATE_LAST_ACK: u32 := 10
  const MIB_TCP_STATE_TIME_WAIT: u32 := 11
  const MIB_TCP_STATE_DELETE_TCB: u32 := 12

  /** MIB_TCPROW_OWNER_PID: every column a DWORD; the port columns hold a
      port in network order in their low 16 bits. */
  datatype MibTcpRow = MibTcpRow(
    dwState: u32, dwLocalAddr: u32, dwLocalPort: u32, dwRemoteAddr: u32, dwRemotePort: u32, dwOwningPid: u32)

  /** MIB_UDPROW_OWNER_PID */
  datatype MibUdpRow = MibUdpRow(dwLocalAddr: u32, dwLocalPort: u32, dwOwningPid: u32)

  /** The two-call protocol: a size query that must report
      ERROR_INSUFFICIENT_BUFFER, then a data query that must report
      NO_ERROR. Only then is a table copied. */
  predicate TableReturned(sizeStatus: u32, dataStatus: u32) {
    sizeStatus == ERROR_INSUFFICIENT_BUFFER && dataStatus == NO_ERROR
  }

  /** ntohs((u_short)dwPort): the low 16 bits, byte-swapped. */
  function TablePort(dwPort: u32): u16 {
    Ntohs(ToU16(dwPort))
  }

  /** The stored port is the byte reversal of the low 16 bits of the column,
      and ntohs gives those bits back. */
  lemma TablePortRecovers(dwPort: u32)
    ensures Bytes(TablePort(dwPort), 2) == Reverse(Bytes(dwPort % TWO_16, 2))
    ensures Ntohs(TablePort(dwPort)) == dwPort % TWO_16
  {
    NtohsBytes(ToU16(dwPort));
    NtohsInvolution(ToU16(dwPort));
  }

  /** get_tcp_state_string of c/tcp_wrapper.c: the twelve MIB_TCP_STATE
      values get their names, every other DWORD "UNKNOWN". */
  lemma MibStateNames(state: u32)
    ensures StateString(MIB_TCP_STATE_CLOSED) == "CLOSED" && StateString(MIB_TCP_STATE_LISTEN) == "LISTEN"
    ensures StateString(MIB_TCP_STATE_SYN_SENT) == "SYN_SENT" && StateString(MIB_TCP_STATE_SYN_RCVD) == "SYN_RCVD"
    ensures StateString(MIB_TCP_STATE_ESTAB) == "ESTABLISHED"
    ensures StateString(MIB_TCP_STATE_FIN_WAIT1) == "FIN_WAIT1" && StateString(MIB_TCP_STATE_FIN_WAIT2) == "FIN_WAIT2"
    ensures StateString(MIB_TCP_STATE_CLOSE_WAIT) == "CLOSE_WAIT" && StateString(MIB_TCP_STATE_CLOSING) == "CLOSING"
    ensures StateString(MIB_TCP_STATE_LAST_ACK) == "LAST_ACK" && StateString(MIB_TCP_STATE_TIME_WAIT) == "TIME_WAIT"
    ensures StateString(MIB_TCP_STATE_DELETE_TCB) == "DELETE_TCB"
    ensures StateString(state) == "UNKNOWN" <==> state < MIB_TCP_STATE_CLOSED || MIB_TCP_STATE_DELETE_TCB < state
  {
    StateStringKnown(state);
  }
}
