/** get_udp_endpoints of c/udp_wrapper.c, over the answers of
    GetExtendedUdpTable and the outcomes of the mallocs, as in WinTcp. */
module WinUdp {
  import opened Words
  import opened NetTables
  import opened IpHelper

  /** The endpoint the copy loop builds from a table row: UDP has no
      remote end, so the remote fields are always zero. */
  function EndpointOf(row: MibUdpRow): UdpEndpointInfo {
    UdpEndpointInfo(row.dwLocalAddr, TablePort(row.dwLocalPort), 0, 0, row.dwOwningPid)
  }

  /** The endpoint keeps the row: the local address (in network order)
      and the pid unchanged, ntohs of the port gives back the low 16 bits
      of its column, and the remote address and port are zero. */
  lemma EndpointOfKeepsRow(row: MibUdpRow)
    ensures var e := EndpointOf(row);
      e.localAddr == row.dwLocalAddr && e.pid == row.dwOwningPid &&
      Ntohs(e.localPort) == row.dwLocalPort % TWO_16 &&
      e.remoteAddr == 0 && e.remotePort == 0
  {
    TablePortRecovers(row.dwLocalPort);
  }

  /** The copy loop. */
  method CopyRows(endpoints: array<UdpEndpointInfo>, rows: seq<MibUdpRow>)
    requires endpoints.Length == |rows| < TWO_32
    modifies endpoints
    ensures forall i :: 0 <= i < |rows| ==> endpoints[i] == EndpointOf(rows[i])
  {
    var i: u32 := 0;
    while i as int < |rows|
      invariant i as int <= |rows|
      invariant forall j :: 0 <= j < i as int ==> endpoints[j] == EndpointOf(rows[j])
    {
      var row := rows[i];
      endpoints[i] := UdpEndpointInfo(row.dwLocalAddr, TablePort(row.dwLocalPort), 0, 0, row.dwOwningPid);
      i := i + 1;
    }
  }

  /** get_udp_endpoints: NULL exactly when a malloc that is reached fails;
      a failed query gives an empty table with no array. */
  method GetUdpEndpoints(resultAllocated: bool, sizeStatus: u32, bufferAllocated: bool,
                         dataStatus: u32, rows: seq<MibUdpRow>, endpointsAllocated: bool)
    returns (result: UdpEndpoints?)
    requires |rows| < TWO_32
    ensures result == null <==>
      !resultAllocated ||
      (sizeStatus == ERROR_INSUFFICIENT_BUFFER &&
       (!bufferAllocated || (dataStatus == NO_ERROR && !endpointsAllocated)))
    ensures result != null ==> fresh(result)
    ensures result != null && TableReturned(sizeStatus, dataStatus) ==>
      result.endpoints != null && fresh(result.endpoints) &&
      result.count as int == |rows| == result.endpoints.Length &&
      forall i :: 0 <= i < |rows| ==> result.endpoints[i] == EndpointOf(rows[i])
    ensures result != null && !TableReturned(sizeStatus, dataStatus) ==>
      result.count == 0 && result.endpoints == null
  {
    if !resultAllocated {
      return null;
    }
    result := new UdpEndpoints();
    if sizeStatus == ERROR_INSUFFICIENT_BUFFER {
      if !bufferAllocated {
        return null;
      }
      if dataStatus == NO_ERROR {
        result.count := |rows|;
        if !endpointsAllocated {
          return null;
        }
        var endpoints := new UdpEndpointInfo[result.count];
        CopyRows(endpoints, rows);
        result.endpoints := endpoints;
      }
    }
  }
}
