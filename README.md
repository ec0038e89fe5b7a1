# Socket tables of a process monitor, in Dafny

This project models the C layer that a process monitor calls to list the
machine's IPv4 TCP connections and UDP endpoints. There is one reader for
each platform:

- **Linux** (`c/tcp_udp_wrapper_linux.c`). It reads `/proc/net/tcp` or
  `/proc/net/udp` twice. The first pass counts the data lines in a
  `uint32_t`. The reader then allocates that many records, rewinds, and
  parses each data line with `sscanf` into the next record:
  - it adds one to the state column;
  - it puts both addresses through `ntohl`;
  - it cuts both ports to 16 bits;
  - it finds the owning process with `find_pid_of_inode`, which walks the
    `/proc/<pid>/fd` links looking for `socket:[inode]`.

  The file also has `hex_to_int`, which is never called, and
  `get_tcp_state_string`.
- **Windows** (`c/tcp_wrapper.c`, `c/udp_wrapper.c`). These call
  `GetExtendedTcpTable` and `GetExtendedUdpTable`: a size query, then a data
  query. They copy every row into a fresh array and byte-swap the ports with
  `ntohs`. UDP endpoints get zero remote fields.

Modules:

- `Words` (words.dfy): 16- and 32-bit unsigned values, truncating
  conversions, and `ntohl`/`htonl`/`ntohs` on a little-endian host, as
  reversals of the value's bytes.
- `Numerals` (numerals.dfy): hexadecimal and decimal digits and their
  positional value.
- `Scanf` (scanf.dfy): the subset of `sscanf` the reader uses. It handles
  literal characters, white space, and `%d`, `%u` and `%x`, each assigned or
  suppressed. It also models `atoi`. A layout theory shows that text
  written field by field reads back as the numerals it contains.
- `NetTables` (net_tables.dfy): the records and result structs all three
  files declare, and the state names.
- `LinuxNet` (linux_net.dfy): `hex_to_int`, `find_pid_of_inode`, the row
  formats, `get_tcp_connections` and `get_udp_endpoints`.
- `IpHelper` (ip_helper.dfy): the status codes, the `MIB_TCP_STATE` values,
  the owner-pid table rows, and the `ntohs((u_short)port)` conversion.
- `WinTcp` (win_tcp.dfy) and `WinUdp` (win_udp.dfy): the two Windows
  readers.

The models take the operating system's answers as inputs:

- the lines `fgets` returns on each pass, header first;
- the `/proc` entries with their fd link targets, in directory order;
- the status codes and rows of the two table queries;
- whether each `malloc` and `fopen` succeeds.

The Linux readers require that each line they parse is one `sscanf` reads
in full. The code ignores the `sscanf` return value, so on any other line it
stores uninitialised values.

Behaviour worth noting, each proved:

- The `+1` on the Linux state column does not turn the kernel's numbering
  (from `include/net/tcp_states.h`; `TCP_LISTEN` is 10) into the Windows
  numbering. A listening socket (`0A`) is reported as `TIME_WAIT`, and an
  established one (`01`) as `LISTEN`.
- The Linux row counter is a `uint32_t`. A file with exactly 2^32 data lines
  therefore allocates no slots and parses nothing.
- The Linux reader stores addresses in host order; the Windows readers keep
  them in network order.
- A failed Windows query is not signalled. It gives a non-NULL table with
  count 0 and no array.

## Model

| member | source | states |
|---|---|---|
| Words.NtohlBytes | c/tcp_udp_wrapper_linux.c:165 | ntohl's result has the four bytes of its argument in reverse order |
| Words.HtonlBytes | c/tcp_udp_wrapper_linux.c:289-290 | htonl also reverses the four bytes on a little-endian host |
| Words.NtohsBytes | c/tcp_wrapper.c:94 | ntohs's result has the two bytes of its argument swapped |
| Words.HtonlInvertsNtohl | c/tcp_udp_wrapper_linux.c:165-167 | htonl in the printer gives back exactly the value that ntohl stored, and the other way round |
| Words.NtohsInvolution | c/tcp_wrapper.c:94-96 | ntohs applied twice is the identity on 16-bit values |
| Words.ByteSwapInvolution | c/tcp_udp_wrapper_linux.c:165-167 | reversing the n low bytes twice gives back every value below 256^n |
| Words.ToU16 | c/tcp_udp_wrapper_linux.c:166-168 | storing an unsigned int port into a uint16_t keeps values below 2^16 and otherwise differs by a multiple of 2^16 |
| Words.ToU32 | c/tcp_udp_wrapper_linux.c:169 | the int pid stored into a uint32_t keeps non-negative values below 2^32, and -1 becomes 0xFFFFFFFF |
| Numerals.DigitValue | c/tcp_udp_wrapper_linux.c:61-63 | a hexadecimal digit's value is below 16, and below 10 exactly for '0'..'9' |
| Numerals.HexDigitsIgnoreCase | c/tcp_udp_wrapper_linux.c:62-63 | 'a'..'f' and 'A'..'F' give the same digits |
| Numerals.HexDigitsAppend | c/tcp_udp_wrapper_linux.c:59-66 | the digits of a concatenation are the digits of the parts, in order |
| Numerals.ValueSnoc | c/tcp_udp_wrapper_linux.c:65 | appending a digit multiplies the value by the base and adds the digit |
| Numerals.HexDigitsOfDigits | c/tcp_udp_wrapper_linux.c:159 | a string of digits keeps every character, each with its own value |
| Scanf.SkipSpace | c/tcp_udp_wrapper_linux.c:159 | white-space skipping removes a run of isspace characters and stops at the first other one |
| Scanf.SkipSpaceSuffix | c/tcp_udp_wrapper_linux.c:159 | what is left after skipping white space is a suffix of the input |
| Scanf.MatchChar | c/tcp_udp_wrapper_linux.c:159 | an ordinary format character matches exactly that character at the head of the input and stores nothing |
| Scanf.DigitRun | c/tcp_udp_wrapper_linux.c:159 | a numeric conversion reads the longest run of digits of its base |
| Scanf.MatchNumberReads | c/tcp_udp_wrapper_linux.c:159-162 | a numeric conversion matches exactly when the first character after the white space is a digit of its base; it then consumes a non-empty part of the input, white space and then digits, stops before the next non-digit, and stores that numeral's value unless it is suppressed |
| Scanf.Saturate | c/tcp_udp_wrapper_linux.c:159 | an unsigned numeral is exact up to ULONG_MAX and becomes ULONG_MAX above it |
| Scanf.ScanLength | c/tcp_udp_wrapper_linux.c:159-162 | sscanf stores at most as many values as the format has assigning conversions |
| Scanf.SuppressHex | c/tcp_udp_wrapper_linux.c:230 | writing %*x for one %x removes exactly that conversion's value from what is stored |
| Scanf.ScanSep | c/tcp_udp_wrapper_linux.c:159 | separator text is consumed by its own format without storing anything, and a final blank also skips the white space after it when a conversion or nothing follows in the format |
| Scanf.ScanLayout | c/tcp_udp_wrapper_linux.c:159-162 | text written as fields (a numeral of each field's base, padded with blanks to any width, then its separator) scans back to the values of the assigning fields' numerals |
| Scanf.ConvertedPadded | c/tcp_udp_wrapper_linux.c:159 | the blanks that pad a numeral do not change the value a conversion stores for it |
| Scanf.LeadingBlanks | c/tcp_udp_wrapper_linux.c:159 | white space in front of the line does not change how a format that starts with a conversion reads it |
| Scanf.Atoi | c/tcp_udp_wrapper_linux.c:98 | atoi of a name made only of digits is the decimal value of those digits |
| NetTables.StateStringKnown | c/tcp_udp_wrapper_linux.c:258-273 | get_tcp_state_string gives a name other than "UNKNOWN" exactly for 1..12 |
| NetTables.StateStringInjective | c/tcp_udp_wrapper_linux.c:258-273 | no two states share a name |
| NetTables.TcpConnections.constructor | c/tcp_udp_wrapper_linux.c:125-126 | a new result starts with count 0 and no array |
| NetTables.UdpEndpoints.constructor | c/tcp_udp_wrapper_linux.c:196-197 | a new result starts with count 0 and no array |
| LinuxNet.StoredState | c/tcp_udp_wrapper_linux.c:164 | the stored state is the column plus one, wrapping to 0 for 0xFFFFFFFF |
| LinuxNet.StoredStateKnown | c/tcp_udp_wrapper_linux.c:164 | a raw state column gets a known name exactly when it is at most 11 |
| LinuxNet.KernelStatesMisnamed | c/tcp_udp_wrapper_linux.c:164 | the kernel's LISTEN (0A) is named TIME_WAIT and its ESTABLISHED (01) is named LISTEN |
| LinuxNet.HexToInt | c/tcp_udp_wrapper_linux.c:57-68 | for a C string (no NUL before its end) the result is the base-16 value of its hexadecimal digits modulo 2^32, and "" gives 0 |
| LinuxNet.HexSkipsNonDigit | c/tcp_udp_wrapper_linux.c:64 | inserting a non-hex character anywhere leaves the digits, and so the value, unchanged |
| LinuxNet.SocketLinkReads | c/tcp_udp_wrapper_linux.c:96 | a link "socket:[N]" with N decimal reads back as N, whatever follows the closing bracket |
| LinuxNet.OtherLinkReadsNothing | c/tcp_udp_wrapper_linux.c:96 | a link that does not start with 's' stores nothing |
| LinuxNet.OwnerPidIsFirstOwner | c/tcp_udp_wrapper_linux.c:76-113 | the owner is -1 exactly when no entry with a digit-initial name has a link to the socket, and otherwise the atoi of the first such entry |
| LinuxNet.FindPidOfInode | c/tcp_udp_wrapper_linux.c:71-114 | the two nested loops compute that owner |
| LinuxNet.TwoLinkOwner | c/tcp_udp_wrapper_linux.c:92-101 | a process whose links are one non-socket link and one link that sscanf reads as socket N owns a socket exactly when its inode is N |
| LinuxNet.ScenarioOwners | c/tcp_udp_wrapper_linux.c:79-107 | "self" is skipped, a pipe link is ignored, socket 12345 belongs to process 12, and socket 555 to nobody |
| LinuxNet.TcpRecordFields | c/tcp_udp_wrapper_linux.c:159-169 | the record keeps the parsed row: htonl recovers both addresses, the ports are the low 16 bits, the state is one more modulo 2^32, and the pid is 0xFFFFFFFF when nothing owns the inode and otherwise the first owner's atoi modulo 2^32, so it is 0xFFFFFFFF exactly when there is no owner or that atoi is 0xFFFFFFFF modulo 2^32 |
| LinuxNet.UdpRecordFields | c/tcp_udp_wrapper_linux.c:230-239 | the same for a UDP row, without the state: both addresses, both ports, and the pid with the same if-and-only-if |
| LinuxNet.RowLayout | c/tcp_udp_wrapper_linux.c:159 | both row formats (the TCP one here and the UDP one at line 230) are the formats of their field lists |
| LinuxNet.RowAssigns | c/tcp_udp_wrapper_linux.c:159-162 | the TCP format has six assigning conversions, four of them before the state |
| LinuxNet.UdpSkipsState | c/tcp_udp_wrapper_linux.c:230-233 | the UDP format stores what the TCP format stores, minus the state column, and a line is a UDP row exactly when it is a TCP row |
| LinuxNet.TcpRowReads | c/tcp_udp_wrapper_linux.c:159-162 | a line laid out as the kernel writes it (fourteen numerals, each padded with blanks to its printf width, with the format's separators between them) is read in full and stores the local and remote address and port, the state and the inode it carries |
| LinuxNet.PaddedColumns | c/tcp_udp_wrapper_linux.c:159-162 | padding the numerals of a row does not change the columns it stores |
| LinuxNet.ListenerRow | c/tcp_udp_wrapper_linux.c:159-169 | the row "1: 0100007F:1F90 00000000:0000 0A ... 12345", its numerals padded to any widths, is read in full and stored as state 11, address 0x7F000001, port 8080, and the pid of its owner |
| LinuxNet.KernelListenerRow | c/tcp_udp_wrapper_linux.c:159-169 | the same row as the kernel pads it (slot to four characters, uid to five, timeout to eight), with the columns the format does not read after the inode, is stored the same way |
| LinuxNet.DataLinesAfterHeader | c/tcp_udp_wrapper_linux.c:134-139 | a pass sees every line after the header, and none in an empty file |
| LinuxNet.SlotCount | c/tcp_udp_wrapper_linux.c:120-139 | the slot count is the data-line count below 2^32 |
| LinuxNet.ParsedCount | c/tcp_udp_wrapper_linux.c:153-175 | the count is at most the slots and the second pass's data lines, and equals one of them |
| LinuxNet.SamePassCount | c/tcp_udp_wrapper_linux.c:137-154 | an unchanged file is read in full below 2^32 lines, wraps modulo 2^32 beyond that, and gives an empty table at exactly 2^32 |
| LinuxNet.EmptyFileCount | c/tcp_udp_wrapper_linux.c:134-154 | a file with only a header, or nothing, gives count 0 |
| LinuxNet.ChangedFileCount | c/tcp_udp_wrapper_linux.c:150-154 | lines added between the passes are not read, and lines removed shorten the table |
| LinuxNet.TcpTableAt | c/tcp_udp_wrapper_linux.c:151-171 | record i is the record of data line i, in file order, after the header |
| LinuxNet.UdpTableAt | c/tcp_udp_wrapper_linux.c:222-242 | the same for UDP |
| LinuxNet.ParseTcpRow | c/tcp_udp_wrapper_linux.c:155-169 | one loop body builds the record of its row |
| LinuxNet.ParseUdpRow | c/tcp_udp_wrapper_linux.c:226-239 | the same for UDP |
| LinuxNet.CountDataLines | c/tcp_udp_wrapper_linux.c:133-139 | the first pass's uint32_t counter ends at the slot count |
| LinuxNet.StoreTcpRow | c/tcp_udp_wrapper_linux.c:164-171 | one iteration extends the filled prefix by one record and leaves the other slots alone |
| LinuxNet.StoreUdpRow | c/tcp_udp_wrapper_linux.c:235-241 | the same for UDP |
| LinuxNet.FillTcpTable | c/tcp_udp_wrapper_linux.c:149-172 | the second pass stops at the end of the file or at the last slot, with the records of the lines read in the filled prefix |
| LinuxNet.FillUdpTable | c/tcp_udp_wrapper_linux.c:220-242 | the same for UDP |
| LinuxNet.GetTcpConnections | c/tcp_udp_wrapper_linux.c:117-177 | NULL exactly when the result malloc, fopen or the array malloc fails; otherwise a fresh table with one slot per first-pass line, count equal to the rows parsed, and those rows' records in order |
| LinuxNet.GetUdpEndpoints | c/tcp_udp_wrapper_linux.c:188-247 | the same for UDP |
| IpHelper.TablePortRecovers | c/tcp_wrapper.c:94-96 | the stored port is the low 16 bits of the column byte-swapped, and ntohs gives those bits back |
| IpHelper.MibStateNames | c/tcp_wrapper.c:28-44 | each MIB_TCP_STATE value gets its name, and exactly the other DWORDs get "UNKNOWN" |
| WinTcp.ConnectionOfKeepsRow | c/tcp_wrapper.c:91-97 | the state, both addresses (still in network order) and the pid are copied unchanged, and ntohs of each port gives the low half of its column |
| WinTcp.ConnectionOfInjective | c/tcp_wrapper.c:91-97 | rows with equal records agree in every column except the high halves of the ports |
| WinTcp.CopyRows | c/tcp_wrapper.c:89-98 | record i is built from table row i, for every row |
| WinTcp.GetTcpConnections | c/tcp_wrapper.c:47-105 | NULL exactly when a malloc that is reached fails; after both queries succeed the count is dwNumEntries and the array holds every row's record; after a failed query a fresh table with count 0 and no array |
| WinUdp.EndpointOfKeepsRow | c/udp_wrapper.c:66-73 | the address and pid are copied unchanged, ntohs of the port gives the low half of its column, and the remote address and port are 0 |
| WinUdp.CopyRows | c/udp_wrapper.c:65-74 | endpoint i is built from table row i, for every row |
| WinUdp.GetUdpEndpoints | c/udp_wrapper.c:27-81 | NULL exactly when a malloc that is reached fails; after both queries succeed the count is dwNumEntries and the array holds every row's endpoint; otherwise count 0 and no array |

## Left out

- File and directory I/O (`fopen`, `fgets`, `rewind`, `opendir`, `readdir`, `readlink`) and the two table queries are inputs, as described above. Errors of `fgets` other than end of file, and of `readlink`, are not distinguished from an empty result.
- The 512-byte `fgets` buffer is not modelled: each line is taken whole. A longer line would be split into several reads, and each piece would count as a row.
- The 256-byte `readlink` and `snprintf` buffers, and so truncated link targets and paths, are not modelled.
- Rows that `sscanf` does not read in full are excluded by a precondition. The code would store uninitialised values for them, so no particular value can be modelled.
- `sscanf` numerals: signs, the `0x` prefix of `%x` and `%d` overflow into an `int` are not modelled. The kernel writes none of them. Unsigned conversions saturate at `ULONG_MAX` and are then truncated to 32 bits.
- Scanf.Atoi: overflow beyond `INT_MAX` is not modelled, because process ids are far smaller.
- The process tree is one snapshot for the whole pass. The live `/proc` could change between the lookups of two rows.
- The size argument of both `malloc` calls (0 when there are no rows, in which case `malloc` may return NULL) is covered by the allocation-outcome inputs, not by a model of `malloc`.
- `free`, `fclose`, `closedir`, `free_tcp_connections` and `free_udp_endpoints` release memory only. Dafny has no deallocation, so the model returns NULL where the code frees and returns NULL.
- The printers (`print_tcp_connections`, `print_udp_endpoints`), `inet_ntop` and the test `main` functions produce output only. Only the `htonl` they apply is modelled (Words.HtonlInvertsNtohl).
- The host is little-endian. On a big-endian host `ntohl`, `htonl` and `ntohs` are the identity.
- The `dwSize` buffer size of the table queries is not modelled. Only their status codes and rows are.
- cpp/proc_handlers.cpp is not part of this model. It consists of Toolhelp32 and window enumeration callbacks.
- c/tcp_wrapper.h is not part of this model. It holds declarations and the same state constants.
