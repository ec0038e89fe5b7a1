/** get_tcp_connections of c/tcp_wrapper.c. GetExtendedTcpTable becomes
    its two answers: the status of the size query, then the status of the
    data query and the rows it fills; each malloc becomes whether it
    succeeds. */
module WinTcp {
  import opened Words
  import opened NetTables
  import opened IpHelper

  /** The record the copy loop builds from a table row: state, addresses
      and pid as they are, the ports through ntohs. */
  function ConnectionOf(row: MibTcpRow): TcpConnectionInfo {
    TcpConnectionInfo(row.dwState, row.dwLocalAddr, TablePort(row.dwLocalPort),
                      row.dwRemoteAddr, TablePort(row.dwRemotePort), row.dwOwningPid)
  }

  /** The record keeps the row: the state, both addresses (still in
      network order) and the pid unchanged, and ntohs of each port gives
      back the low 16 bits of its column. */
  lemma ConnectionOfKeepsRow(row: MibTcpRow)
    ensures var c := ConnectionOf(row);
      c.state == row.dwState && c.localAddr == row.dwLocalAddr &&
      c.remoteAddr == row.dwRemoteAddr && c.pid == row.dwOwningPid &&
      Ntohs(c.localPort) == row.dwLocalPort % TWO_16 && Ntohs(c.remotePort) == row.dwRemotePort % TWO_16
  {
    TablePortRecovers(row.dwLocalPort);
    TablePortRecovers(row.dwRemotePort);
  }

  /** Rows with equal records agree in every column but the high halves
      of the port columns. */
  lemma ConnectionOfInjective(a: MibTcpRow, b: MibTcpRow)
    requires ConnectionOf(a) == ConnectionOf(b)
    ensures a.dwState == b.dwState && a.dwLocalAddr == b.dwLocalAddr && a.dwRemoteAddr == b.dwRemoteAddr
    ensures a.dwOwningPid == b.dwOwningPid
    ensures a.dwLocalPort % TWO_16 == b.dwLocalPort % TWO_16 && a.dwRemotePort % TWO_16 == b.dwRemotePort % TWO_16
  {
    ConnectionOfKeepsRow(a);
    ConnectionOfKeepsRow(b);
  }

  /** The copy loop: record i from table row i, for every row. */
  method CopyRows(connections: array<TcpConnectionInfo>, rows: seq<MibTcpRow>)
    requires connections.Length == |rows| < TWO_32
    modifies connections
    ensures forall i :: 0 <= i < |rows| ==> connections[i] == ConnectionOf(rows[i])
  {
    var i: u32 := 0;
    while i as int < |rows|
      invariant i as int <= |rows|
      invariant forall j :: 0 <= j < i as int ==> connections[j] == ConnectionOf(rows[j])
    {
      var row := rows[i];
      connections[i] := TcpConnectionInfo(row.dwState, row.dwLocalAddr, TablePort(row.dwLocalPort),
                                          row.dwRemoteAddr, TablePort(row.dwRemotePort), row.dwOwningPid);
      i := i + 1;
    }
  }

  /** get_tcp_connections. NULL exactly when one of the three mallocs that
      are reached fails; a failed query is not signalled, but gives an
      empty table with no array. */
  method GetTcpConnections(resultAllocated: bool, sizeStatus: u32, bufferAllocated: bool,
                           dataStatus: u32, rows: seq<MibTcpRow>, connectionsAllocated: bool)
    returns (result: TcpConnections?)
    requires |rows| < TWO_32
    ensures result == null <==>
      !resultAllocated ||
      (sizeStatus == ERROR_INSUFFICIENT_BUFFER &&
       (!bufferAllocated || (dataStatus == NO_ERROR && !connectionsAllocated)))
    ensures result != null ==> fresh(result)
    ensures result != null && TableReturned(sizeStatus, dataStatus) ==>
      result.connections != null && fresh(result.connections) &&
      result.count as int == |rows| == result.connections.Length &&
      forall i :: 0 <= i < |rows| ==> result.connections[i] == ConnectionOf(rows[i])
    ensures result != null && !TableReturned(sizeStatus, dataStatus) ==>
      result.count == 0 && result.connections == null
  {
    if !resultAllocated {
      return null;
    }
    result := new TcpConnections();
    if sizeStatus == ERROR_INSUFFICIENT_BUFFER {
      if !bufferAllocated {
        return null;
      }
      if dataStatus == NO_ERROR {
        result.count := |rows|;
        if !connectionsAllocated {
          return null;
        }
        var connections := new TcpConnectionInfo[result.count];
        CopyRows(connections, rows);
        result.connections := connections;
      }
    }
  }
}
