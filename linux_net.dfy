/** The Linux socket-table reader (c/tcp_udp_wrapper_linux.c).

    The text of /proc/net/tcp or /proc/net/udp is a sequence of lines, the
    header first. The reader reads it twice: once to count the data lines,
    and once, after rewinding, to parse them. Because the file is live
    kernel state, the second pass may see different lines from the first,
    so each reader takes the two passes as two inputs. The process tree that
    the socket-owner lookup walks is a sequence of /proc entries, each with
    the targets of its fd links. */
module LinuxNet {
  import opened Words
  import opened Numerals
  import opened Scanf
  import opened NetTables

  // ---------------------------------------------------------------------
  // The state column

  /** The state the reader stores for the hexadecimal state column:
      one more than the column, in 32-bit unsigned arithmetic. */
  function StoredState(raw: u32): (s: u32)
    ensures raw < 0xFFFF_FFFF ==> s == raw + 1
    ensures raw == 0xFFFF_FFFF ==> s == 0
  {
    ToU32(raw + 1)
  }

  /** A state column s gets a known name exactly when s <= 11. */
  lemma StoredStateKnown(raw: u32)
    ensures StateString(StoredState(raw)) != "UNKNOWN" <==> raw <= 11
  {
    StateStringKnown(StoredState(raw));
  }

  // The kernel's own numbering of the state column (include/net/tcp_states.h
  // in the Linux sources), which the "+1" does not translate.
  const KERNEL_TCP_ESTABLISHED: u32 := 1
  const KERNEL_TCP_LISTEN: u32 := 10

  /** A listening socket (column 0A) is reported as TIME_WAIT, and an
      established one (column 01) as LISTEN. */
  lemma KernelStatesMisnamed()
    ensures StateString(StoredState(KERNEL_TCP_LISTEN)) == "TIME_WAIT"
    ensures StateString(StoredState(KERNEL_TCP_ESTABLISHED)) == "LISTEN"
  {
  }

  // ---------------------------------------------------------------------
  // hex_to_int

  lemma ModMultipleAdd(k: nat, y: int)
    ensures (k * TWO_32 + y) % TWO_32 == y % TWO_32
  {
    if k > 0 {
      ModMultipleAdd(k - 1, y);
      assert k * TWO_32 + y == (k - 1) * TWO_32 + y + TWO_32;
    }
  }

  lemma ShiftDigitMod(a: nat, d: nat)
    ensures ((a % TWO_32) * 16 + d) % TWO_32 == (a * 16 + d) % TWO_32
  {
    var q := a / TWO_32;
    assert a * 16 + d == (q * 16) * TWO_32 + ((a % TWO_32) * 16 + d);
    ModMultipleAdd(q * 16, (a % TWO_32) * 16 + d);
  }

  /** hex_to_int: every hexadecimal digit of the string, read most
      significant first, with every other character skipped; the value is
      kept in a 32-bit unsigned int. The argument is a C string, so it holds
      no NUL before its end, where the loop stops. */
  method HexToInt(hex: string) returns (val: u32)
    requires forall i :: 0 <= i < |hex| ==> hex[i] != '\0'
    ensures val == ToU32(Value(HexDigits(hex), 16))
    ensures hex == [] ==> val == 0
  {
    val := 0;
    var i := 0;
    while i < |hex|
      invariant 0 <= i <= |hex|
      invariant val == ToU32(Value(HexDigits(hex[..i]), 16))
    {
      var c := hex[i];
      assert hex[..i + 1] == hex[..i] + [c];
      HexDigitsSnoc(hex[..i], c);
      i := i + 1;
      var digit: nat;
      if '0' <= c <= '9' {
        digit := c as int - '0' as int;
      } else if 'a' <= c <= 'f' {
        digit := c as int - 'a' as int + 10;
      } else if 'A' <= c <= 'F' {
        digit := c as int - 'A' as int + 10;
      } else {
        assert !IsHexDigit(c);
        assert HexDigits(hex[..i]) == HexDigits(hex[..i - 1]);
        continue;
      }
      // (val << 4) | digit: the shift drops the top four bits and leaves
      // the low four free for the digit.
      assert digit == DigitValue(c);
      ValueSnoc(HexDigits(hex[..i - 1]), digit, 16);
      ShiftDigitMod(Value(HexDigits(hex[..i - 1]), 16), digit);
      val := (val * 16 + digit) % TWO_32;
      assert HexDigits(hex[..i]) == HexDigits(hex[..i - 1]) + [digit];
      assert val == ToU32(Value(HexDigits(hex[..i - 1]) + [digit], 16));
    }
    assert hex[..|hex|] == hex;
  }

  /** Inserting any character that is not a hexadecimal digit leaves the
      value unchanged. */
  lemma HexSkipsNonDigit(a: string, c: char, b: string)
    requires !IsHexDigit(c)
    ensures HexDigits(a + [c] + b) == HexDigits(a + b)
  {
    HexDigitsAppend(a + [c], b);
    HexDigitsAppend(a, [c]);
    HexDigitsAppend(a, b);
    assert [c][..0] == [];
  }

  // ---------------------------------------------------------------------
  // find_pid_of_inode

  /** An entry of /proc: its name and the targets of the links under
      /proc/<name>/fd, in directory order. An fd whose link cannot be read,
      and a process whose fd directory cannot be opened, contribute no
      targets. */
  datatype Process = Process(name: string, fdLinks: seq<string>)

  /** "socket:[%u]" */
  const SocketLinkFormat: seq<Directive> :=
    [Lit('s'), Lit('o'), Lit('c'), Lit('k'), Lit('e'), Lit('t'), Lit(':'), Lit('['), Dec(true), Lit(']')]

  /** The same format as the literal prefix "socket:[" followed by one
      field. */
  const SocketLinkFields: seq<Field> := [Field(Dec(true), "]")]

  lemma SocketLinkLayout()
    ensures SocketLinkFormat == SepFormat("socket:[") + FieldsFormat(SocketLinkFields)
  {
    SocketLinkPrefixFormat();
    SocketLinkFieldFormat();
  }

  lemma SocketLinkPrefixFormat()
    ensures SepFormat("socket:[") == [Lit('s'), Lit('o'), Lit('c'), Lit('k'), Lit('e'), Lit('t'), Lit(':'), Lit('[')]
  {
    SepFormatAppend("sock", "et:[");
    assert "sock" + "et:[" == "socket:[";
    assert SepFormat("sock") == [Lit('s'), Lit('o'), Lit('c'), Lit('k')];
    assert SepFormat("et:[") == [Lit('e'), Lit('t'), Lit(':'), Lit('[')];
  }

  lemma SocketLinkFieldFormat()
    ensures FieldsFormat(SocketLinkFields) == [Dec(true), Lit(']')]
  {
  }

  /** sscanf(link, "socket:[%u]", &fd_inode) == 1 && fd_inode == inode */
  predicate IsSocketLinkTo(link: string, inode: u32) {
    var vs := Scan(SocketLinkFormat, link);
    |vs| == 1 && vs[0] == inode
  }

  /** A link "socket:[N]", N a decimal numeral, is a link to socket N
      (modulo 2^32), whatever follows the closing bracket. */
  lemma SocketLinkReads(digits: string, tail: string)
    requires IsWord(digits, false)
    ensures Scan(SocketLinkFormat, "socket:[" + (digits + ("]" + tail))) == [Converted(digits, false)]
  {
    SocketLinkPrefix();
    SocketLinkLayout();
    SocketLinkField(digits, tail);
    ScanLayout("socket:[", SocketLinkFields, [digits], tail);
  }

  lemma SocketLinkPrefix()
    ensures PlainSep("socket:[")
  {
  }

  lemma SocketLinkField(digits: string, tail: string)
    requires IsWord(digits, false)
    ensures var fs := SocketLinkFields;
      ValidFields(fs) && FitFields(fs, [digits]) && TailFits(fs, tail) &&
      FieldsText(fs, [digits]) + tail == digits + ("]" + tail) &&
      Assigned(fs, [digits]) == [Converted(digits, false)]
  {
    var fs := SocketLinkFields;
    WordIsPadded(digits, false);
    assert fs[1..] == [] && [digits][1..] == [];
    assert FieldsText(fs, [digits]) == digits + ("]" + []);
    EmptyConcat(FieldsText(fs[1..], [digits][1..]), "]");
    Regroup(digits, "]", tail);
  }

  /** Only entries whose name starts with a digit are looked at. */
  predicate IsProcessEntry(p: Process) {
    p.name != [] && IsDecDigit(p.name[0])
  }

  predicate Owns(p: Process, inode: u32) {
    IsProcessEntry(p) && exists k :: 0 <= k < |p.fdLinks| && IsSocketLinkTo(p.fdLinks[k], inode)
  }

  /** The atoi of the first process entry holding a socket link to the
      inode, or -1. */
  function OwnerPid(procs: seq<Process>, inode: u32): int {
    if procs == [] then -1
    else if Owns(procs[0], inode) then Atoi(procs[0].name)
    else OwnerPid(procs[1..], inode)
  }

  /** OwnerPid is -1 exactly when no entry owns the socket, and otherwise the
      atoi of the first entry that does. */
  lemma {:induction false} OwnerPidIsFirstOwner(procs: seq<Process>, inode: u32)
    ensures OwnerPid(procs, inode) == -1 <==> forall i :: 0 <= i < |procs| ==> !Owns(procs[i], inode)
    ensures OwnerPid(procs, inode) != -1 ==>
      exists i :: 0 <= i < |procs| && Owns(procs[i], inode) && OwnerPid(procs, inode) == Atoi(procs[i].name)
                  && forall j :: 0 <= j < i ==> !Owns(procs[j], inode)
  {
    if procs != [] {
      OwnerPidIsFirstOwner(procs[1..], inode);
      if !Owns(procs[0], inode) && OwnerPid(procs, inode) != -1 {
        var i :| 0 <= i < |procs[1..]| && Owns(procs[1..][i], inode)
                 && OwnerPid(procs[1..], inode) == Atoi(procs[1..][i].name)
                 && forall j :: 0 <= j < i ==> !Owns(procs[1..][j], inode);
        assert procs[i + 1] == procs[1..][i];
        assert forall j :: 0 <= j < i + 1 ==> !Owns(procs[j], inode) by {
          forall j | 0 <= j < i + 1 ensures !Owns(procs[j], inode) {
            if j > 0 { assert procs[j] == procs[1..][j - 1]; }
          }
        }
      }
      if !Owns(procs[0], inode) {
        assert forall i :: 1 <= i < |procs| ==> procs[i] == procs[1..][i - 1];
      }
    }
  }

  /** find_pid_of_inode: walks the entries in order and, inside an entry
      whose name starts with a digit, its fd links in order, stopping at the
      first link to the socket. */
  method FindPidOfInode(procs: seq<Process>, inode: u32) returns (pid: int)
    ensures pid == OwnerPid(procs, inode)
  {
    pid := -1;
    var i := 0;
    while i < |procs|
      invariant 0 <= i <= |procs|
      invariant pid == -1
      invariant OwnerPid(procs, inode) == OwnerPid(procs[i..], inode)
    {
      var p := procs[i];
      assert procs[i..][0] == p && procs[i..][1..] == procs[i + 1..];
      if p.name != [] && IsDecDigit(p.name[0]) {
        var k := 0;
        while k < |p.fdLinks|
          invariant 0 <= k <= |p.fdLinks|
          invariant pid == -1
          invariant forall m :: 0 <= m < k ==> !IsSocketLinkTo(p.fdLinks[m], inode)
        {
          var fields := Scan(SocketLinkFormat, p.fdLinks[k]);
          if |fields| == 1 && fields[0] == inode {
            assert Owns(p, inode);
            pid := Atoi(p.name);
            break;
          }
          k := k + 1;
        }
        if pid != -1 {
          break;
        }
        assert !Owns(p, inode);
      }
      i := i + 1;
    }
  }

  /** A link that does not start with 's' is no socket link. */
  lemma OtherLinkReadsNothing(link: string)
    requires link == [] || link[0] != 's'
    ensures Scan(SocketLinkFormat, link) == []
  {
    assert SocketLinkFormat[0] == Lit('s');
  }

  /** The link "socket:[N]" for a numeral N below 2^32 reads as N. */
  lemma SocketLinkValue(link: string, digits: string, n: u32)
    requires link == "socket:[" + (digits + ("]" + []))
    requires IsWord(digits, false) && Converted(digits, false) == n
    ensures Scan(SocketLinkFormat, link) == [n]
  {
    SocketLinkReads(digits, []);
  }

  lemma Numeral12345()
    ensures IsWord("12345", false) && Converted("12345", false) == 12345
  {
    assert HexDigits("12345") == [1, 2, 3, 4, 5];
    assert Value([1, 2, 3, 4, 5], 10) == 12345;
  }

  lemma Numeral99()
    ensures IsWord("99", false) && Converted("99", false) == 99
  {
    assert HexDigits("99") == [9, 9];
    assert Value([9, 9], 10) == 99;
  }

  /** An entry with two fd links, the first no socket and the second
      socket n, owns exactly socket n. */
  lemma TwoLinkOwner(p: Process, inode: u32, n: u32)
    requires IsProcessEntry(p) && |p.fdLinks| == 2
    requires Scan(SocketLinkFormat, p.fdLinks[0]) == [] && Scan(SocketLinkFormat, p.fdLinks[1]) == [n]
    ensures Owns(p, inode) <==> inode == n
  {
    if inode == n {
      assert IsSocketLinkTo(p.fdLinks[1], inode);
    } else {
      assert forall k :: 0 <= k < |p.fdLinks| ==> !IsSocketLinkTo(p.fdLinks[k], inode);
    }
  }

  lemma Process7Owns(inode: u32)
    ensures Owns(Process("7", ["/dev/null", "socket:[99]"]), inode) <==> inode == 99
  {
    var p := Process("7", ["/dev/null", "socket:[99]"]);
    Numeral99();
    SocketLinkValue(p.fdLinks[1], "99", 99);
    OtherLinkReadsNothing(p.fdLinks[0]);
    TwoLinkOwner(p, inode, 99);
  }

  lemma Process12Owns(inode: u32)
    ensures Owns(Process("12", ["pipe:[4]", "socket:[12345]"]), inode) <==> inode == 12345
  {
    var p := Process("12", ["pipe:[4]", "socket:[12345]"]);
    Numeral12345();
    SocketLinkValue(p.fdLinks[1], "12345", 12345);
    OtherLinkReadsNothing(p.fdLinks[0]);
    TwoLinkOwner(p, inode, 12345);
  }

  lemma Atoi12()
    ensures Atoi("12") == 12
  {
    assert DigitRun("12", false) == 2;
    assert "12"[..2] == "12" && HexDigits("12") == [1, 2];
    assert Value([1, 2], 10) == 12;
  }

  /** Three entries: "self" (not a process), process 7 with a socket 99, and
      process 12 holding socket 12345 after a pipe. */
  const ScenarioProcs: seq<Process> :=
    [Process("self", ["socket:[12345]"]),
     Process("7", ["/dev/null", "socket:[99]"]),
     Process("12", ["pipe:[4]", "socket:[12345]"])]

  lemma ScenarioOwners()
    ensures OwnerPid(ScenarioProcs, 12345) == 12
    ensures OwnerPid(ScenarioProcs, 555) == -1
  {
    var self := Process("self", ["socket:[12345]"]);
    var p7 := Process("7", ["/dev/null", "socket:[99]"]);
    var p12 := Process("12", ["pipe:[4]", "socket:[12345]"]);
    var procs := ScenarioProcs;
    assert procs == [self, p7, p12];
    assert !IsProcessEntry(self);
    Process7Owns(12345);
    Process7Owns(555);
    Process12Owns(12345);
    Process12Owns(555);
    Atoi12();
    assert procs[1..] == [p7, p12] && procs[1..][1..] == [p12] && [p12][1..] == [];
  }

  // ---------------------------------------------------------------------
  // Rows of /proc/net/tcp and /proc/net/udp

  /** "%*d: %x:%x %x:%x " -- the slot number, then the local address and
      port and the remote address and port. */
  const RowHead: seq<Field> := [Field(Dec(false), ": ")] + AddressFields
  const AddressFields: seq<Field> :=
    [Field(Hex(true), ":"), Field(Hex(true), " "), Field(Hex(true), ":"), Field(Hex(true), " ")]

  /** "%*x:%*x %*x:%*x %*x %*d %*d %u" -- the queues, timer, retransmits,
      uid and timeout skipped, then the inode. */
  const RowTail: seq<Field> := SkippedFields + [Field(Dec(true), "")]
  const SkippedFields: seq<Field> := QueueFields + CounterFields
  const QueueFields: seq<Field> :=
    [Field(Hex(false), ":"), Field(Hex(false), " "), Field(Hex(false), ":"), Field(Hex(false), " ")]
  const CounterFields: seq<Field> :=
    [Field(Hex(false), " "), Field(Dec(false), " "), Field(Dec(false), " ")]

  /** The TCP row format reads the state column; the UDP one skips it. */
  const TcpRowFields: seq<Field> := RowHead + [Field(Hex(true), " ")] + RowTail
  const UdpRowFields: seq<Field> := RowHead + [Field(Hex(false), " ")] + RowTail

  /** The formats themselves, directive by directive:
      "%*d: %x:%x %x:%x " then the state column, "%x " in the TCP format and
      "%*x " in the UDP one, then " %*x:%*x %*x:%*x %*x %*d %*d %u" (the
      blank that ends the state column's "%x " opens this part). */
  const SlotFormat: seq<Directive> := [Dec(false), Lit(':'), Space]
  const AddressFormat: seq<Directive> :=
    [Hex(true), Lit(':'), Hex(true), Space, Hex(true), Lit(':'), Hex(true), Space]
  const SkippedFormat: seq<Directive> := QueueFormat + CounterFormat
  const QueueFormat: seq<Directive> :=
    [Hex(false), Lit(':'), Hex(false), Space, Hex(false), Lit(':'), Hex(false), Space]
  const CounterFormat: seq<Directive> := [Hex(false), Space, Dec(false), Space, Dec(false), Space]
  const RowHeadFormat: seq<Directive> := SlotFormat + AddressFormat
  const RowTailFormat: seq<Directive> := [Space] + (SkippedFormat + [Dec(true)])

  const TcpRowFormat: seq<Directive> := RowHeadFormat + [Hex(true)] + RowTailFormat
  const UdpRowFormat: seq<Directive> := RowHeadFormat + [Hex(false)] + RowTailFormat

  /** A row for which sscanf assigns every variable the reader passes;
      for any other row the reader would go on with uninitialised values. */
  predicate IsTcpRow(line: string) {
    |Scan(TcpRowFormat, line)| == 6
  }

  predicate IsUdpRow(line: string) {
    |Scan(UdpRowFormat, line)| == 5
  }

  /** The record the TCP reader stores for a row: the state column plus
      one, both addresses through ntohl, both ports cut to 16 bits, and the
      owner's pid (-1 when there is none) as a uint32_t. */
  function TcpRecord(line: string, procs: seq<Process>): TcpConnectionInfo
    requires IsTcpRow(line)
  {
    var v := Scan(TcpRowFormat, line);
    TcpConnectionInfo(StoredState(v[4]), Ntohl(v[0]), ToU16(v[1]), Ntohl(v[2]), ToU16(v[3]), ToU32(OwnerPid(procs, v[5])))
  }

  function UdpRecord(line: string, procs: seq<Process>): UdpEndpointInfo
    requires IsUdpRow(line)
  {
    var v := Scan(UdpRowFormat, line);
    UdpEndpointInfo(Ntohl(v[0]), ToU16(v[1]), Ntohl(v[2]), ToU16(v[3]), ToU32(OwnerPid(procs, v[4])))
  }

  /** The record keeps what the row says: htonl gives back each parsed
      address, each port is the low 16 bits of the parsed value, the state
      is one more (modulo 2^32), and the pid is 0xFFFFFFFF when no process
      is found, else the atoi of the first owner modulo 2^32; so the pid is
      0xFFFFFFFF exactly when there is no owner or the owner's atoi is
      0xFFFFFFFF modulo 2^32. */
  lemma TcpRecordFields(line: string, procs: seq<Process>)
    requires IsTcpRow(line)
    ensures var v, c := Scan(TcpRowFormat, line), TcpRecord(line, procs);
      Htonl(c.localAddr) == v[0] && Htonl(c.remoteAddr) == v[2] &&
      c.localPort == v[1] % TWO_16 && c.remotePort == v[3] % TWO_16 &&
      c.state == (v[4] + 1) % TWO_32 &&
      ((forall i :: 0 <= i < |procs| ==> !Owns(procs[i], v[5])) ==> c.pid == 0xFFFF_FFFF) &&
      (OwnerPid(procs, v[5]) != -1 ==> c.pid == OwnerPid(procs, v[5]) % TWO_32) &&
      (c.pid == 0xFFFF_FFFF <==>
         (forall i :: 0 <= i < |procs| ==> !Owns(procs[i], v[5])) || OwnerPid(procs, v[5]) % TWO_32 == 0xFFFF_FFFF)
  {
    var v := Scan(TcpRowFormat, line);
    HtonlInvertsNtohl(v[0]);
    HtonlInvertsNtohl(v[2]);
    OwnerPidIsFirstOwner(procs, v[5]);
  }

  lemma UdpRecordFields(line: string, procs: seq<Process>)
    requires IsUdpRow(line)
    ensures var v, c := Scan(UdpRowFormat, line), UdpRecord(line, procs);
      Htonl(c.localAddr) == v[0] && Htonl(c.remoteAddr) == v[2] &&
      c.localPort == v[1] % TWO_16 && c.remotePort == v[3] % TWO_16 &&
      ((forall i :: 0 <= i < |procs| ==> !Owns(procs[i], v[4])) ==> c.pid == 0xFFFF_FFFF) &&
      (OwnerPid(procs, v[4]) != -1 ==> c.pid == OwnerPid(procs, v[4]) % TWO_32) &&
      (c.pid == 0xFFFF_FFFF <==>
         (forall i :: 0 <= i < |procs| ==> !Owns(procs[i], v[4])) || OwnerPid(procs, v[4]) % TWO_32 == 0xFFFF_FFFF)
  {
    var v := Scan(UdpRowFormat, line);
    HtonlInvertsNtohl(v[0]);
    HtonlInvertsNtohl(v[2]);
    OwnerPidIsFirstOwner(procs, v[4]);
  }

  /** The formats are the texts of the row fields. */
  lemma RowLayout()
    ensures TcpRowFormat == FieldsFormat(TcpRowFields)
    ensures UdpRowFormat == FieldsFormat(UdpRowFields)
  {
    RowFormatAround(Hex(true));
    RowFormatAround(Hex(false));
    RowHeadLayout();
    RowTailLayout();
  }

  lemma RowHeadLayout()
    ensures FieldsFormat(RowHead) == RowHeadFormat
  {
    FieldsFormatAppend([Field(Dec(false), ": ")], AddressFields);
    AddressLayout();
    SlotLayout();
  }

  lemma SlotLayout()
    ensures FieldsFormat([Field(Dec(false), ": ")]) == SlotFormat
  {
  }

  lemma AddressLayout()
    ensures FieldsFormat(AddressFields) == AddressFormat
  {
  }

  lemma RowTailLayout()
    ensures SepFormat(" ") + FieldsFormat(RowTail) == RowTailFormat
  {
    FieldsFormatAppend(SkippedFields, [Field(Dec(true), "")]);
    SkippedLayout();
    InodeLayout();
    BlankLayout();
  }

  lemma BlankLayout()
    ensures SepFormat(" ") == [Space]
  {
  }

  lemma SkippedLayout()
    ensures FieldsFormat(SkippedFields) == SkippedFormat
  {
    FieldsFormatAppend(QueueFields, CounterFields);
    QueueLayout();
    CounterLayout();
  }

  lemma QueueLayout()
    ensures FieldsFormat(QueueFields) == QueueFormat
  {
  }

  lemma CounterLayout()
    ensures FieldsFormat(CounterFields) == CounterFormat
  {
  }

  lemma InodeLayout()
    ensures FieldsFormat([Field(Dec(true), "")]) == [Dec(true)]
  {
  }

  lemma RowFormatAround(state: Directive)
    ensures FieldsFormat(RowHead + [Field(state, " ")] + RowTail) ==
            FieldsFormat(RowHead) + [state] + (SepFormat(" ") + FieldsFormat(RowTail))
  {
    var f := [Field(state, " ")];
    FieldsFormatAppend(RowHead + f, RowTail);
    FieldsFormatAppend(RowHead, f);
    assert f[1..] == [];
    assert FieldsFormat(f) == [state] + (SepFormat(" ") + []);
    assert SepFormat(" ") + [] == SepFormat(" ");
    Regroup(FieldsFormat(RowHead), [state], SepFormat(" "));
    Regroup(FieldsFormat(RowHead) + [state], SepFormat(" "), FieldsFormat(RowTail));
  }

  lemma RowAssigns()
    ensures Assigns(RowHeadFormat) == 4 && Assigns(TcpRowFormat) == 6
  {
    AssignsAppend(SlotFormat, AddressFormat);
    AssignsAppend(RowHeadFormat, [Hex(true)]);
    AssignsAppend(RowHeadFormat + [Hex(true)], RowTailFormat);
    AssignsAppend([Space], SkippedFormat + [Dec(true)]);
    AssignsAppend(SkippedFormat, [Dec(true)]);
    SlotAssigns();
    SkippedAssigns();
    SingleAssigns();
    AddressAssigns();
  }

  lemma SlotAssigns()
    ensures Assigns(SlotFormat) == 0
  {
    AssignsNone(SlotFormat);
  }

  lemma SkippedAssigns()
    ensures Assigns(SkippedFormat) == 0
  {
    AssignsAppend(QueueFormat, CounterFormat);
    AssignsNone(QueueFormat);
    AssignsNone(CounterFormat);
  }

  lemma SingleAssigns()
    ensures Assigns([Space]) == 0 && Assigns([Hex(true)]) == 1 && Assigns([Dec(true)]) == 1
  {
  }

  lemma AddressAssigns()
    ensures Assigns(AddressFormat) == 4
  {
    var e := [Hex(true), Lit(':'), Hex(true), Space];
    assert AddressFormat == e + e;
    AssignsAppend(e, e);
  }

  /** The UDP format stores what the TCP format stores, without the state
      column; so a line is a UDP row exactly when it is a TCP row. */
  lemma UdpSkipsState(line: string)
    ensures Scan(UdpRowFormat, line) == Drop(Scan(TcpRowFormat, line), 4)
    ensures IsUdpRow(line) <==> IsTcpRow(line)
  {
    SuppressHex(RowHeadFormat, RowTailFormat, line);
    ScanLength(TcpRowFormat, line);
    RowAssigns();
  }

  /** The values a TCP row's columns carry, from the numerals the kernel
      writes: the local address and port, the remote address and port,
      the state (all hexadecimal) and the inode (decimal). */
  function TcpColumns(words: seq<string>): (v: seq<u32>)
    requires |words| == 14
    ensures |v| == 6
  {
    [Converted(words[1], true), Converted(words[2], true), Converted(words[3], true),
     Converted(words[4], true), Converted(words[5], true), Converted(words[13], false)]
  }

  /** A line laid out as the kernel writes it -- fourteen numerals, each
      in its column's base and padded with blanks to its printf width (the
      slot to four characters, the uid to five, the timeout to eight), with
      the separators of the format between them, then anything that does
      not continue the inode -- is a TCP row, and it stores the columns it
      carries. */
  lemma TcpRowReads(words: seq<string>, tail: string)
    requires FitFields(TcpRowFields, words)
    requires tail == [] || !IsDecDigit(tail[0])
    ensures Scan(TcpRowFormat, FieldsText(TcpRowFields, words) + tail) == TcpColumns(words)
  {
    TcpRowFieldsValid(tail);
    ScanFields(TcpRowFields, words, tail);
    TcpAssigned(words);
    RowLayout();
  }

  /** Padding a column's numeral does not change the value it carries. */
  lemma PaddedColumns(words: seq<string>, plain: seq<string>)
    requires |words| == 14 && |plain| == 14
    requires forall i :: 0 <= i < 14 ==> SkipSpace(words[i]) == plain[i]
    ensures TcpColumns(words) == TcpColumns(plain)
  {
    forall i | i in {1, 2, 3, 4, 5}
      ensures Converted(words[i], true) == Converted(plain[i], true)
    {
      ConvertedPadded(words[i], true);
    }
    ConvertedPadded(words[13], false);
  }

  /** The columns of a row for a socket bound to 127.0.0.1:8080 with
      inode 12345, in state 0A: slot, local and remote address:port,
      state 0A, queues, timer, retransmits, uid, timeout and inode. */
  const ListenerWords: seq<string> :=
    ["1", "0100007F", "1F90", "00000000", "0000", "0A", "00000000", "00000000",
     "00", "00000000", "00000000", "1000", "0", "12345"]

  /** The listener row, its numerals padded to any widths, is a TCP row
      stored with state 11, address 0x7F000001 (127.0.0.1 in host order),
      port 8080, and the pid of process 12, which holds socket 12345; after
      it may come the columns the format does not read. */
  lemma ListenerRow(words: seq<string>, tail: string)
    requires |words| == 14 && forall i :: 0 <= i < 14 ==> SkipSpace(words[i]) == ListenerWords[i]
    requires tail == [] || tail[0] == ' '
    ensures var line := FieldsText(TcpRowFields, words) + tail;
      IsTcpRow(line) && TcpRecord(line, ScenarioProcs) == TcpConnectionInfo(11, 0x7F00_0001, 8080, 0, 0, 12)
  {
    ListenerFits(words);
    TcpRowReads(words, tail);
    PaddedColumns(words, ListenerWords);
    ListenerValues(ListenerWords);
    ListenerAddress();
    ScenarioOwners();
  }

  lemma ListenerFits(words: seq<string>)
    requires |words| == 14 && forall i :: 0 <= i < 14 ==> SkipSpace(words[i]) == ListenerWords[i]
    ensures FitFields(TcpRowFields, words)
  {
    ListenerHexWords(ListenerWords);
    ListenerDecWords(ListenerWords);
    TcpDecimalFields();
  }

  /** The same row as the kernel prints it, "%4d: %08X:%04X %08X:%04X %02X
      %08X:%08X %02X:%08lX %08X %5u %8d %lu" followed by further columns. */
  const KernelListenerWords: seq<string> :=
    ["   1", "0100007F", "1F90", "00000000", "0000", "0A", "00000000", "00000000",
     "00", "00000000", "00000000", " 1000", "       0", "12345"]

  const KernelListenerTail: string := " 1 0000000000000000 100 0 0 10 0"

  lemma KernelListenerRow()
    ensures var line := FieldsText(TcpRowFields, KernelListenerWords) + KernelListenerTail;
      IsTcpRow(line) && TcpRecord(line, ScenarioProcs) == TcpConnectionInfo(11, 0x7F00_0001, 8080, 0, 0, 12)
  {
    KernelPadding(KernelListenerWords);
    ListenerRow(KernelListenerWords, KernelListenerTail);
  }

  /** Each kernel column, its padding skipped, is the listener's numeral. */
  lemma KernelPadding(words: seq<string>)
    requires words == KernelListenerWords
    ensures |words| == 14 && forall i :: 0 <= i < 14 ==> SkipSpace(words[i]) == ListenerWords[i]
  {
    ListenerHexWords(ListenerWords);
    forall i | 0 <= i < 14 && i != 0 && i != 11 && i != 12
      ensures SkipSpace(words[i]) == ListenerWords[i]
    {
      assert words[i] == ListenerWords[i];
      WordIsPadded(words[i], true);
    }
    KernelPaddedColumns();
  }

  lemma KernelPaddedColumns()
    ensures SkipSpace("   1") == "1" && SkipSpace(" 1000") == "1000" && SkipSpace("       0") == "0"
  {
  }

  lemma ListenerHexWords(words: seq<string>)
    requires words == ListenerWords
    ensures |words| == 14 && forall i :: 0 <= i < 14 ==> IsWord(words[i], true)
  {
  }

  lemma ListenerDecWords(words: seq<string>)
    requires words == ListenerWords
    ensures |words| == 14 && IsWord(words[0], false) && IsWord(words[11], false)
    ensures IsWord(words[12], false) && IsWord(words[13], false)
  {
  }

  /** Only the slot, uid, timeout and inode columns are decimal. */
  lemma TcpDecimalFields()
    ensures |TcpRowFields| == 14
    ensures forall i :: 0 <= i < 14 && !TcpRowFields[i].conv.Hex? ==> i == 0 || i == 11 || i == 12 || i == 13
  {
  }

  lemma ListenerValues(words: seq<string>)
    requires words == ListenerWords
    ensures TcpColumns(words) == [0x0100_007F, 8080, 0, 0, 10, 12345]
  {
    ListenerLocal(words);
    ListenerRemote(words);
    ListenerStateInode(words);
    ColumnsOf([0x0100_007F, 8080, 0, 0, 10, 12345], words);
  }

  lemma ListenerWordsAt(words: seq<string>)
    requires words == ListenerWords
    ensures |words| == 14 && words[1] == "0100007F" && words[2] == "1F90" && words[3] == "00000000"
    ensures words[4] == "0000" && words[5] == "0A" && words[13] == "12345"
  {
  }

  lemma ListenerLocal(words: seq<string>)
    requires words == ListenerWords
    ensures Converted(words[1], true) == 0x0100_007F && Converted(words[2], true) == 8080
  {
    ListenerWordsAt(words);
    NumeralLocalAddress();
    NumeralLocalPort();
  }

  lemma ListenerRemote(words: seq<string>)
    requires words == ListenerWords
    ensures Converted(words[3], true) == 0 && Converted(words[4], true) == 0
  {
    ListenerWordsAt(words);
    NumeralZeros();
  }

  lemma ListenerStateInode(words: seq<string>)
    requires words == ListenerWords
    ensures Converted(words[5], true) == 10 && Converted(words[13], false) == 12345
  {
    ListenerWordsAt(words);
    NumeralState();
    Numeral12345();
  }

  lemma NumeralLocalAddress()
    ensures Converted("0100007F", true) == 0x0100_007F
  {
    DigitsLocalAddress();
    assert Value([0, 1, 0, 0, 0, 0, 7, 15], 16) == 0x0100_007F;
  }

  lemma DigitsLocalAddress()
    ensures HexDigits("0100007F") == [0, 1, 0, 0, 0, 0, 7, 15]
  {
    HexDigitsOfDigits("0100007F");
  }

  lemma NumeralLocalPort()
    ensures Converted("1F90", true) == 8080
  {
    assert HexDigits("1F90") == [1, 15, 9, 0];
  }

  lemma NumeralZeros()
    ensures Converted("00000000", true) == 0 && Converted("0000", true) == 0
  {
    assert HexDigits("00000000") == [0, 0, 0, 0, 0, 0, 0, 0];
    assert HexDigits("0000") == [0, 0, 0, 0];
  }

  lemma NumeralState()
    ensures Converted("0A", true) == 10
  {
    assert HexDigits("0A") == [0, 10];
  }

  lemma ListenerAddress()
    ensures Ntohl(0x0100_007F) == 0x7F00_0001 && Ntohl(0) == 0
  {
    assert Bytes(0x0100_007F, 4) == [0x7F, 0, 0, 1];
    assert Bytes(0, 4) == [0, 0, 0, 0];
  }

  lemma TcpRowFieldsValid(tail: string)
    requires tail == [] || !IsDecDigit(tail[0])
    ensures ValidFields(TcpRowFields) && |TcpRowFields| == 14 && TailFits(TcpRowFields, tail)
  {
    assert TcpRowFields[13] == Field(Dec(true), "");
  }

  lemma TcpAssigned(words: seq<string>)
    requires |words| == |TcpRowFields|
    ensures Assigned(TcpRowFields, words) == TcpColumns(words)
  {
    TcpAssignedAt(words);
    ColumnsOf(Assigned(TcpRowFields, words), words);
  }

  lemma TcpAssignedAt(words: seq<string>)
    requires |words| == |TcpRowFields|
    ensures var a := Assigned(TcpRowFields, words);
      |a| == 6 && a[0] == Converted(words[1], true) && a[1] == Converted(words[2], true) &&
      a[2] == Converted(words[3], true) && a[3] == Converted(words[4], true) &&
      a[4] == Converted(words[5], true) && a[5] == Converted(words[13], false)
  {
    TcpPositions();
    TcpFieldKinds();
    AssignedByPosition(TcpRowFields, words, 0);
  }

  lemma ColumnsOf(a: seq<u32>, words: seq<string>)
    requires |words| == 14
    requires |a| == 6 && a[0] == Converted(words[1], true) && a[1] == Converted(words[2], true) &&
      a[2] == Converted(words[3], true) && a[3] == Converted(words[4], true) &&
      a[4] == Converted(words[5], true) && a[5] == Converted(words[13], false)
    ensures a == TcpColumns(words)
  {
  }

  lemma TcpPositions()
    ensures Positions(TcpRowFields, 0) == [1, 2, 3, 4, 5, 13]
  {
    var state := [Field(Hex(true), " ")];
    PositionsAppend(RowHead + state, RowTail, 0);
    PositionsAppend(RowHead, state, 0);
    HeadPositions();
    TailPositions();
    assert Positions(state, 5) == [5];
  }

  lemma HeadPositions()
    ensures |RowHead| == 5 && Positions(RowHead, 0) == [1, 2, 3, 4]
  {
    PositionsAppend([Field(Dec(false), ": ")], AddressFields, 0);
    AddressPositions();
  }

  lemma AddressPositions()
    ensures Positions(AddressFields, 1) == [1, 2, 3, 4]
  {
  }

  lemma TailPositions()
    ensures Positions(RowTail, 6) == [13]
  {
    PositionsAppend(SkippedFields, [Field(Dec(true), "")], 6);
    SkippedPositions();
  }

  lemma SkippedPositions()
    ensures Positions(SkippedFields, 6) == []
  {
    PositionsAppend(QueueFields, CounterFields, 6);
    assert Positions(QueueFields, 6) == [] && Positions(CounterFields, 10) == [];
  }

  lemma TcpFieldKinds()
    ensures TcpRowFields[1].conv.Hex? && TcpRowFields[2].conv.Hex? && TcpRowFields[3].conv.Hex?
    ensures TcpRowFields[4].conv.Hex? && TcpRowFields[5].conv.Hex? && !TcpRowFields[13].conv.Hex?
  {
  }

  // ---------------------------------------------------------------------
  // get_tcp_connections and get_udp_endpoints

  /** The lines one pass reads after the header line; an empty file has
      no header either. */
  function DataLines(pass: seq<string>): nat {
    if pass == [] then 0 else |pass| - 1
  }

  /** A file of a header and some lines has those lines as data lines. */
  lemma DataLinesAfterHeader(header: string, lines: seq<string>)
    ensures DataLines([header] + lines) == |lines| && DataLines([]) == 0
  {
  }

  /** The slots the counting pass asks for: its uint32_t counter wraps. */
  function SlotCount(firstPass: seq<string>): (n: u32)
    ensures DataLines(firstPass) < TWO_32 ==> n == DataLines(firstPass)
  {
    ToU32(DataLines(firstPass))
  }

  /** The rows the second pass parses: it stops at the end of the file or
      when the slots are full, whichever comes first. */
  function ParsedCount(firstPass: seq<string>, secondPass: seq<string>): (n: u32)
    ensures n <= SlotCount(firstPass) && n <= DataLines(secondPass)
    ensures n == SlotCount(firstPass) || n == DataLines(secondPass)
  {
    if DataLines(secondPass) < SlotCount(firstPass) then DataLines(secondPass) else SlotCount(firstPass)
  }

  /** The rows up to n after the header are ones sscanf reads in full. */
  predicate TcpRowsUpTo(pass: seq<string>, n: nat) {
    n <= DataLines(pass) && forall i {:trigger IsTcpRow(pass[i])} :: 1 <= i <= n ==> IsTcpRow(pass[i])
  }

  predicate UdpRowsUpTo(pass: seq<string>, n: nat) {
    n <= DataLines(pass) && forall i {:trigger IsUdpRow(pass[i])} :: 1 <= i <= n ==> IsUdpRow(pass[i])
  }

  /** The records of the first n data lines, in file order. */
  function TcpTable(pass: seq<string>, n: nat, procs: seq<Process>): (t: seq<TcpConnectionInfo>)
    requires TcpRowsUpTo(pass, n)
    ensures |t| == n
  {
    if n == 0 then [] else TcpTable(pass, n - 1, procs) + [TcpRecord(pass[n], procs)]
  }

  function UdpTable(pass: seq<string>, n: nat, procs: seq<Process>): (t: seq<UdpEndpointInfo>)
    requires UdpRowsUpTo(pass, n)
    ensures |t| == n
  {
    if n == 0 then [] else UdpTable(pass, n - 1, procs) + [UdpRecord(pass[n], procs)]
  }

  /** Record i of the table is the record of data line i + 1: the lines
      are stored in file order, the header skipped. */
  lemma {:induction false} TcpTableAt(pass: seq<string>, n: nat, procs: seq<Process>, i: nat)
    requires TcpRowsUpTo(pass, n) && i < n
    ensures TcpTable(pass, n, procs)[i] == TcpRecord(pass[i + 1], procs)
  {
    var t := TcpTable(pass, n - 1, procs);
    if i < n - 1 {
      TcpTableAt(pass, n - 1, procs, i);
      assert (t + [TcpRecord(pass[n], procs)])[i] == t[i];
    }
  }

  lemma {:induction false} UdpTableAt(pass: seq<string>, n: nat, procs: seq<Process>, i: nat)
    requires UdpRowsUpTo(pass, n) && i < n
    ensures UdpTable(pass, n, procs)[i] == UdpRecord(pass[i + 1], procs)
  {
    var t := UdpTable(pass, n - 1, procs);
    if i < n - 1 {
      UdpTableAt(pass, n - 1, procs, i);
      assert (t + [UdpRecord(pass[n], procs)])[i] == t[i];
    }
  }

  /** When the file does not change between the passes, every data line
      is parsed -- unless there are 2^32 or more of them, when the counter
      wraps and only the count modulo 2^32 is read; exactly 2^32 lines
      give an empty table. */
  lemma SamePassCount(pass: seq<string>)
    ensures DataLines(pass) < TWO_32 ==> ParsedCount(pass, pass) as int == DataLines(pass)
    ensures DataLines(pass) >= TWO_32 ==> ParsedCount(pass, pass) as int == DataLines(pass) % TWO_32
    ensures DataLines(pass) == TWO_32 ==> ParsedCount(pass, pass) == 0
  {
  }

  /** A file with no data lines -- just the header, or nothing -- gives
      an empty table, whatever the second pass reads. */
  lemma EmptyFileCount(firstPass: seq<string>, secondPass: seq<string>)
    requires |firstPass| <= 1
    ensures ParsedCount(firstPass, secondPass) == 0
  {
  }

  /** Lines added between the passes are not read; lines removed shorten
      the table. */
  lemma ChangedFileCount(firstPass: seq<string>, secondPass: seq<string>)
    requires DataLines(firstPass) < TWO_32
    ensures DataLines(secondPass) >= DataLines(firstPass) ==> ParsedCount(firstPass, secondPass) as int == DataLines(firstPass)
    ensures DataLines(secondPass) < DataLines(firstPass) ==> ParsedCount(firstPass, secondPass) as int == DataLines(secondPass)
  {
  }

  lemma ModSucc(x: int)
    ensures ToU32(ToU32(x) + 1) == ToU32(x + 1)
  {
  }

  /** The body of the second-pass loop for one TCP row: sscanf, then the
      fields of the record one by one, the pid from find_pid_of_inode. */
  method ParseTcpRow(line: string, procs: seq<Process>) returns (record: TcpConnectionInfo)
    requires IsTcpRow(line)
    ensures record == TcpRecord(line, procs)
  {
    var v := Scan(TcpRowFormat, line);
    var pid := FindPidOfInode(procs, v[5]);
    record := TcpConnectionInfo(StoredState(v[4]), Ntohl(v[0]), ToU16(v[1]), Ntohl(v[2]), ToU16(v[3]), ToU32(pid));
  }

  method ParseUdpRow(line: string, procs: seq<Process>) returns (record: UdpEndpointInfo)
    requires IsUdpRow(line)
    ensures record == UdpRecord(line, procs)
  {
    var v := Scan(UdpRowFormat, line);
    var pid := FindPidOfInode(procs, v[4]);
    record := UdpEndpointInfo(Ntohl(v[0]), ToU16(v[1]), Ntohl(v[2]), ToU16(v[3]), ToU32(pid));
  }

  /** The first pass: fgets the header, then count the lines that follow
      in a uint32_t. */
  method CountDataLines(pass: seq<string>) returns (resultCount: u32)
    ensures resultCount == SlotCount(pass)
  {
    var header := if pass == [] then 0 else 1;
    var line := header;
    resultCount := 0;
    while line < |pass|
      invariant header <= line <= |pass|
      invariant resultCount == ToU32(line - header)
    {
      ModSucc(line - header);
      resultCount := ToU32(resultCount + 1);
      line := line + 1;
    }
  }

  /** One turn of the second-pass loop: the record of data line idx + 1
      goes into slot idx, and no other slot changes. */
  method StoreTcpRow(connections: array<TcpConnectionInfo>, idx: u32, pass: seq<string>, procs: seq<Process>)
    requires idx as int < connections.Length && TcpRowsUpTo(pass, idx as nat + 1)
    requires connections[..idx] == TcpTable(pass, idx as nat, procs)
    modifies connections
    ensures connections[..idx + 1] == TcpTable(pass, idx as nat + 1, procs)
    ensures connections[idx + 1..] == old(connections[idx + 1..])
  {
    var record := ParseTcpRow(pass[idx + 1], procs);
    ghost var filled := connections[..idx];
    connections[idx] := record;
    assert connections[..idx + 1] == filled + [record];
  }

  /** The second pass of get_tcp_connections: after the header, parse
      each line into the next slot while there are lines and free slots. */
  method FillTcpTable(connections: array<TcpConnectionInfo>, slots: u32, pass: seq<string>, procs: seq<Process>)
    returns (idx: u32)
    requires connections.Length == slots as int
    requires TcpRowsUpTo(pass, if DataLines(pass) < slots as int then DataLines(pass) else slots as int)
    modifies connections
    ensures idx as int == if DataLines(pass) < slots as int then DataLines(pass) else slots as int
    ensures connections[..idx] == TcpTable(pass, idx as nat, procs)
  {
    idx := 0;
    while idx as int < DataLines(pass) && idx < slots
      invariant idx as int <= DataLines(pass) && idx <= slots
      invariant connections[..idx] == TcpTable(pass, idx as nat, procs)
    {
      StoreTcpRow(connections, idx, pass, procs);
      idx := idx + 1;
    }
  }

  /** One turn of the second-pass loop: the record of data line idx + 1
      goes into slot idx, and no other slot changes. */
  method StoreUdpRow(endpoints: array<UdpEndpointInfo>, idx: u32, pass: seq<string>, procs: seq<Process>)
    requires idx as int < endpoints.Length && UdpRowsUpTo(pass, idx as nat + 1)
    requires endpoints[..idx] == UdpTable(pass, idx as nat, procs)
    modifies endpoints
    ensures endpoints[..idx + 1] == UdpTable(pass, idx as nat + 1, procs)
    ensures endpoints[idx + 1..] == old(endpoints[idx + 1..])
  {
    var record := ParseUdpRow(pass[idx + 1], procs);
    ghost var filled := endpoints[..idx];
    endpoints[idx] := record;
    assert endpoints[..idx + 1] == filled + [record];
  }

  method FillUdpTable(endpoints: array<UdpEndpointInfo>, slots: u32, pass: seq<string>, procs: seq<Process>)
    returns (idx: u32)
    requires endpoints.Length == slots as int
    requires UdpRowsUpTo(pass, if DataLines(pass) < slots as int then DataLines(pass) else slots as int)
    modifies endpoints
    ensures idx as int == if DataLines(pass) < slots as int then DataLines(pass) else slots as int
    ensures endpoints[..idx] == UdpTable(pass, idx as nat, procs)
  {
    idx := 0;
    while idx as int < DataLines(pass) && idx < slots
      invariant idx as int <= DataLines(pass) && idx <= slots
      invariant endpoints[..idx] == UdpTable(pass, idx as nat, procs)
    {
      StoreUdpRow(endpoints, idx, pass, procs);
      idx := idx + 1;
    }
  }

  /** get_tcp_connections. resultAllocated and connectionsAllocated are the
      outcomes of the two mallocs, fileOpened that of fopen; firstPass and
      secondPass are the lines fgets returns before and after the rewind,
      header first, and procs the /proc tree find_pid_of_inode walks. */
  method GetTcpConnections(resultAllocated: bool, fileOpened: bool, firstPass: seq<string>,
                           connectionsAllocated: bool, secondPass: seq<string>, procs: seq<Process>)
    returns (result: TcpConnections?)
    requires TcpRowsUpTo(secondPass, ParsedCount(firstPass, secondPass))
    ensures result == null <==> !resultAllocated || !fileOpened || !connectionsAllocated
    ensures result != null ==>
      fresh(result) && result.connections != null && fresh(result.connections) &&
      result.connections.Length == SlotCount(firstPass) &&
      result.count == ParsedCount(firstPass, secondPass) &&
      result.connections[..result.count] == TcpTable(secondPass, result.count, procs)
  {
    if !resultAllocated {
      return null;
    }
    result := new TcpConnections();
    if !fileOpened {
      return null;
    }
    var resultCount := CountDataLines(firstPass);
    if !connectionsAllocated {
      return null;
    }
    result.connections := new TcpConnectionInfo[resultCount];
    var idx := FillTcpTable(result.connections, resultCount, secondPass, procs);
    result.count := idx;
  }

  /** get_udp_endpoints: get_tcp_connections over /proc/net/udp, without
      the state column. */
  method GetUdpEndpoints(resultAllocated: bool, fileOpened: bool, firstPass: seq<string>,
                         endpointsAllocated: bool, secondPass: seq<string>, procs: seq<Process>)
    returns (result: UdpEndpoints?)
    requires UdpRowsUpTo(secondPass, ParsedCount(firstPass, secondPass))
    ensures result == null <==> !resultAllocated || !fileOpened || !endpointsAllocated
    ensures result != null ==>
      fresh(result) && result.endpoints != null && fresh(result.endpoints) &&
      result.endpoints.Length == SlotCount(firstPass) &&
      result.count == ParsedCount(firstPass, secondPass) &&
      result.endpoints[..result.count] == UdpTable(secondPass, result.count, procs)
  {
    if !resultAllocated {
      return null;
    }
    result := new UdpEndpoints();
    if !fileOpened {
      return null;
    }
    var resultCount := CountDataLines(firstPass);
    if !endpointsAllocated {
      return null;
    }
    result.endpoints := new UdpEndpointInfo[resultCount];
    var idx := FillUdpTable(result.endpoints, resultCount, secondPass, procs);
    result.count := idx;
  }
}
