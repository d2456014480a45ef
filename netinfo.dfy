// Local endpoint -> owning uid: the kernel connection tables are searched for
// the line whose local-address column equals the endpoint's bind string.
// The host is taken to be little-endian.

module NetInfo {
  import opened CLib

  /** uid_t: an unsigned 32-bit integer. */
  const UID_LIMIT: nat := 0x1_0000_0000
  type Uid = u: nat | u < UID_LIMIT

  /** The sentinel the lookups return when no line matches, (uid_t)-1. */
  const UID_NOT_FOUND: Uid := 0xFFFF_FFFF

  /** unsigned int, the type the port travels in. */
  type Port = p: nat | p < 0x1_0000_0000

  type Octet = b: nat | b < 256

  /** The four bytes sscanf stores for "b0.b1.b2.b3", in that order in memory. */
  datatype Quad = Quad(b0: Octet, b1: Octet, b2: Octet, b3: Octet)

  datatype Transport = Tcp | Udp

  /** The lines fgets delivers from /proc/net/tcp and /proc/net/udp, the header line included. */
  datatype ProcNet = ProcNet(tcp: seq<seq<char>>, udp: seq<seq<char>>)
  {
    function Table(t: Transport): seq<seq<char>>
    {
      match t
      case Tcp => tcp
      case Udp => udp
    }
  }

  // ---------------------------------------------------------------------------
  // The bind string

  /** sscanf's "%hhu.%hhu.%hhu.%hhu" over `count` dot-separated runs of digits: each run is read
      as %hhu reads it (truncated to a byte); whatever follows the last run is not looked at. */
  function ParseOctets(s: seq<char>, count: nat): (r: Option<seq<Octet>>)
    requires count >= 1
    ensures r.Some? ==> |r.value| == count
    decreases count
  {
    var k := Span(s, DIGITS);
    if k == 0 then None
    else
      var v: Octet := ScanUnsigned(s, 256);
      if count == 1 then Some([v])
      else if k < |s| && s[k] == '.' then
        match ParseOctets(s[k + 1..], count - 1)
        case None => None
        case Some(vs) => Some([v] + vs)
      else None
  }

  /** The address a well-formed dotted quad denotes, None for text that is not one. */
  function ParseDottedQuad(s: seq<char>): Option<Quad>
  {
    match ParseOctets(s, 4)
    case None => None
    case Some(vs) => Some(Quad(vs[0], vs[1], vs[2], vs[3]))
  }

  /** The dotted-quad spelling of an address. */
  function DottedQuad(q: Quad): seq<char>
  {
    DecimalString(q.b0) + "." + (DecimalString(q.b1) + "." + (DecimalString(q.b2) + "." + DecimalString(q.b3)))
  }

  lemma ScanDecimalString(b: Octet, rest: seq<char>)
    requires rest == [] || rest[0] !in DIGITS
    ensures Span(DecimalString(b) + rest, DIGITS) == |DecimalString(b)|
    ensures ScanUnsigned(DecimalString(b) + rest, 256) == b
  {
    LeadingDigitsOf(DecimalString(b), rest);
    ScanUnsignedDecimal(b, rest, 256);
  }

  lemma ParseOctetsLast(b: Octet, after: seq<char>)
    requires after == [] || after[0] !in DIGITS
    ensures ParseOctets(DecimalString(b) + after, 1) == Some([b])
  {
    ScanDecimalString(b, after);
  }

  lemma ParseOctetsStep(b: Octet, tail: seq<char>, count: nat, vs: seq<Octet>)
    requires count >= 2
    requires ParseOctets(tail, count - 1) == Some(vs)
    ensures ParseOctets(DecimalString(b) + "." + tail, count) == Some([b] + vs)
  {
    var d := DecimalString(b);
    var s := d + "." + tail;
    assert s == d + ("." + tail);
    ScanDecimalString(b, "." + tail);
    assert s[|d|] == '.';
    assert s[|d| + 1..] == tail;
  }

  /** Parsing undoes spelling: a dotted quad reads back as the address. */
  lemma DottedQuadRoundTrip(q: Quad)
    ensures ParseDottedQuad(DottedQuad(q)) == Some(q)
  {
    ParseFourOctets(q.b0, q.b1, q.b2, q.b3);
    OctetsOfQuad([q.b0] + ([q.b1] + ([q.b2] + [q.b3])), q);
  }

  lemma ParseFourOctets(b0: Octet, b1: Octet, b2: Octet, b3: Octet)
    ensures ParseOctets(DecimalString(b0) + "." + (DecimalString(b1) + "." + (DecimalString(b2) + "." + DecimalString(b3))), 4)
         == Some([b0] + ([b1] + ([b2] + [b3])))
  {
    ParseThreeOctets(b1, b2, b3);
    ParseOctetsStep(b0, DecimalString(b1) + "." + (DecimalString(b2) + "." + DecimalString(b3)), 4, [b1] + ([b2] + [b3]));
  }

  lemma ParseThreeOctets(b1: Octet, b2: Octet, b3: Octet)
    ensures ParseOctets(DecimalString(b1) + "." + (DecimalString(b2) + "." + DecimalString(b3)), 3)
         == Some([b1] + ([b2] + [b3]))
  {
    ParseTwoOctets(b2, b3);
    ParseOctetsStep(b1, DecimalString(b2) + "." + DecimalString(b3), 3, [b2] + [b3]);
  }

  lemma ParseTwoOctets(b2: Octet, b3: Octet)
    ensures ParseOctets(DecimalString(b2) + "." + DecimalString(b3), 2) == Some([b2] + [b3])
  {
    var s3 := DecimalString(b3);
    assert ParseOctets(s3, 1) == Some([b3]) by {
      assert s3 + [] == s3;
      ParseOctetsLast(b3, []);
    }
    ParseOctetsStep(b2, s3, 2, [b3]);
  }

  lemma OctetsOfQuad(vs: seq<Octet>, q: Quad)
    requires vs == [q.b0] + ([q.b1] + ([q.b2] + [q.b3]))
    ensures |vs| == 4 && Quad(vs[0], vs[1], vs[2], vs[3]) == q
  {
  }

  /** The 32-bit value the union yields on a little-endian host: b[0] is the low byte. */
  function HostValue(q: Quad): (v: nat)
    ensures v < 0x1_0000_0000
  {
    ((q.b3 * 256 + q.b2) * 256 + q.b1) * 256 + q.b0
  }

  /** snprintf(buffer, bsize, "%08X:%04X", bin, port). */
  function BindKey(q: Quad, port: Port): seq<char>
  {
    Hex(HostValue(q), 8) + ":" + Hex(port, 4)
  }

  /** ipv4_bindstring: NULL when no buffer is given; otherwise the bind string of the parsed
      address and the port (the callers' 32-byte buffer always holds all of it). */
  function Ipv4BindString(ipv4: seq<char>, port: Port, buffer: bool): (r: Option<seq<char>>)
    requires buffer ==> ParseDottedQuad(ipv4).Some?
    ensures r.None? <==> !buffer
    ensures r.Some? ==> |r.value| < 32
  {
    if !buffer then None
    else
      var q := ParseDottedQuad(ipv4).value;
      BindKeyShape(q, port);
      Some(BindKey(q, port))
  }

  lemma Pow16Values()
    ensures Pow16(4) == 0x1_0000 && Pow16(8) == 0x1_0000_0000
  {
    assert Pow16(2) == 256;
    assert Pow16(4) == 16 * (16 * Pow16(2));
  }

  /** The shape of a bind string: eight upper-case hex digits, a colon, then at least four more
      (exactly four when the port fits in 16 bits, more when it does not: %04X is a minimum). */
  lemma BindKeyShape(q: Quad, port: Port)
    ensures var key := BindKey(q, port);
      && |key| == 9 + Max(4, HexWidth(port))
      && |key| < 32
      && key[8] == ':'
      && (forall i :: 0 <= i < |key| && i != 8 ==> IsUpperHex(key[i]))
      && (port <= 0xFFFF ==> |key| == 13)
      && (port > 0xFFFF ==> |key| > 13)
  {
    var a, b := Hex(HostValue(q), 8), Hex(port, 4);
    var key := BindKey(q, port);
    assert |a| == 8 && |b| == Max(4, HexWidth(port)) <= 8 by {
      Pow16Values();
      HexLength(HostValue(q), 8);
      HexLength(port, 8);
    }
    assert (port <= 0xFFFF ==> |b| == 4) && (port > 0xFFFF ==> |b| > 4) by {
      Pow16Values();
      HexLength(port, 4);
    }
    assert key == a + (":" + b);
    assert |key| == 9 + |b|;
    assert forall i :: 0 <= i < 8 ==> key[i] == a[i];
    assert forall i :: 9 <= i < |key| ==> key[i] == b[i - 9];
  }

  /** Reading a bind string back: the address value and the port, if the text has the shape
      "<8 hex digits>:<hex digits>". */
  function DecodeBindKey(key: seq<char>): Option<(nat, nat)>
  {
    if |key| > 9 && key[8] == ':'
       && (forall i :: 0 <= i < 8 ==> IsUpperHex(key[i]))
       && (forall i :: 9 <= i < |key| ==> IsUpperHex(key[i]))
    then
      assert forall i :: 0 <= i < |key| - 9 ==> key[9..][i] == key[9 + i];
      Some((HexValue(key[..8]), HexValue(key[9..])))
    else None
  }

  /** The bind string encodes the address and the port without loss. */
  lemma BindKeyDecodes(q: Quad, port: Port)
    ensures DecodeBindKey(BindKey(q, port)) == Some((HostValue(q), port))
  {
    BindKeyShape(q, port);
    var key := BindKey(q, port);
    Pow16Values();
    HexLength(HostValue(q), 8);
    assert key[..8] == Hex(HostValue(q), 8);
    assert key[9..] == Hex(port, 4);
    HexRoundTrip(HostValue(q), 8);
    HexRoundTrip(port, 4);
  }

  lemma ByteSplit(a: nat, b: nat, a': nat, b': nat)
    requires b < 256 && b' < 256 && a * 256 + b == a' * 256 + b'
    ensures a == a' && b == b'
  {
  }

  /** Distinct endpoints get distinct bind strings, so a table line can match at most one. */
  lemma BindKeyInjective(q: Quad, port: Port, q': Quad, port': Port)
    requires BindKey(q, port) == BindKey(q', port')
    ensures q == q' && port == port'
  {
    BindKeyDecodes(q, port);
    BindKeyDecodes(q', port');
    ByteSplit((q.b3 * 256 + q.b2) * 256 + q.b1, q.b0, (q'.b3 * 256 + q'.b2) * 256 + q'.b1, q'.b0);
    ByteSplit(q.b3 * 256 + q.b2, q.b1, q'.b3 * 256 + q'.b2, q'.b1);
    ByteSplit(q.b3, q.b2, q'.b3, q'.b2);
  }

  /** Host byte order on a little-endian machine: the address digits come out with the octets
      in reverse order, two hex digits each. */
  lemma BindKeyLittleEndian(q: Quad, port: Port)
    ensures BindKey(q, port)[..8] == HexFixed(q.b3, 2) + HexFixed(q.b2, 2) + HexFixed(q.b1, 2) + HexFixed(q.b0, 2)
  {
    var v := HostValue(q);
    assert Hex(v, 8) == HexFixed(v, 8) by {
      Pow16Values();
      HexWidthAtMost(v, 8);
    }
    assert BindKey(q, port)[..8] == HexFixed(v, 8);
    OctetDigits(q.b3, q.b2, q.b1, q.b0, 2);
  }

  /** Two hex digits per octet, most significant octet first. */
  lemma OctetDigits(a: nat, b: nat, c: nat, d: nat, w: nat)
    requires b < 256 && c < 256 && d < 256
    ensures HexFixed(((a * 256 + b) * 256 + c) * 256 + d, w + 6)
         == HexFixed(a, w) + HexFixed(b, 2) + HexFixed(c, 2) + HexFixed(d, 2)
  {
    HexFixedBytes((a * 256 + b) * 256 + c, d, w + 4);
    HexFixedBytes(a * 256 + b, c, w + 2);
    HexFixedBytes(a, b, w);
  }

  lemma LoopbackParses()
    ensures ParseDottedQuad("127.0.0.1") == Some(Quad(127, 0, 0, 1))
  {
    var q := Quad(127, 0, 0, 1);
    assert DecimalString(127) == "127";
    assert DottedQuad(q) == "127.0.0.1";
    DottedQuadRoundTrip(q);
  }

  lemma HexPair(b: nat)
    requires b < 256
    ensures HexFixed(b, 2) == [HexChar(b / 16), HexChar(b % 16)]
  {
    var hi := b / 16;
    assert hi < 16 && hi % 16 == hi;
    assert HexFixed(hi, 1) == [] + [HexChar(hi)];
    assert HexFixed(b, 2) == HexFixed(hi, 1) + [HexChar(b % 16)];
  }

  lemma LoopbackKey(q: Quad, port: Port)
    requires q == Quad(127, 0, 0, 1) && port == 80
    ensures BindKey(q, port) == "0100007F:0050"
  {
    var key := BindKey(q, port);
    assert key[..8] == "0100007F" by {
      BindKeyLittleEndian(q, port);
      HexPair(q.b3);
      HexPair(q.b2);
      HexPair(q.b0);
      assert HexChar(0) == '0' && HexChar(1) == '1' && HexChar(7) == '7' && HexChar(15) == 'F';
    }
    assert Hex(port, 4) == "0050" by {
      assert HexWidth(port) == 2;
      HexFixedBytes(0, port, 2);
      HexPair(0);
      HexPair(port);
      assert HexChar(0) == '0' && HexChar(5) == '5';
    }
    assert key == key[..8] + ":" + Hex(port, 4);
  }

  /** 127.0.0.1 port 80 is looked up as 0100007F:0050: the octets come out reversed. */
  lemma LoopbackBindString(ipv4: seq<char>)
    requires ipv4 == "127.0.0.1"
    ensures ParseDottedQuad(ipv4).Some?
    ensures Ipv4BindString(ipv4, 80, true) == Some("0100007F:0050")
  {
    LoopbackParses();
    LoopbackKey(Quad(127, 0, 0, 1), 80);
  }

  // ---------------------------------------------------------------------------
  // Scanning a connection table

  const FIELD_DELIMS: set<char> := {' '}

  /** The fields strtok(..., " ") yields from one line fgets delivered. */
  function Fields(line: seq<char>): seq<seq<char>>
  {
    Tokens(CString(line), FIELD_DELIMS)
  }

  /** The uid column read by strtol and stored in a uid_t. */
  function LineUid(fields: seq<seq<char>>): Uid
    requires |fields| >= 8
  {
    Strtol(fields[7]) % UID_LIMIT
  }

  /** What uid_from_portlist needs of the lines it reaches: each has a second field to compare,
      and the first matching one has an eighth field to read. */
  predicate Scannable(table: seq<seq<char>>, key: seq<char>)
    decreases |table|
  {
    table == [] ||
    var f := Fields(table[0]);
    |f| >= 2 && (if f[1] == key then |f| >= 8 else Scannable(table[1..], key))
  }

  /** The uid of the first line whose local-address field equals `key`, or UID_NOT_FOUND. */
  function PortlistUid(table: seq<seq<char>>, key: seq<char>): Uid
    requires Scannable(table, key)
    decreases |table|
  {
    if table == [] then UID_NOT_FOUND
    else
      var f := Fields(table[0]);
      if f[1] == key then LineUid(f) else PortlistUid(table[1..], key)
  }

  predicate Matches(line: seq<char>, key: seq<char>)
  {
    var f := Fields(line);
    |f| >= 2 && f[1] == key
  }

  /** The first matching line wins, whatever the lines after it hold. */
  lemma {:induction false} PortlistFirstMatch(table: seq<seq<char>>, key: seq<char>, i: nat)
    requires Scannable(table, key)
    requires i < |table| && Matches(table[i], key)
    requires forall j :: 0 <= j < i ==> !Matches(table[j], key)
    ensures |Fields(table[i])| >= 8
    ensures PortlistUid(table, key) == LineUid(Fields(table[i]))
  {
    if i > 0 {
      assert !Matches(table[0], key);
      assert forall j :: 0 <= j < i - 1 ==> table[1..][j] == table[j + 1];
      PortlistFirstMatch(table[1..], key, i - 1);
    }
  }

  /** No matching line: the lookup reports UID_NOT_FOUND (every line is tested, the first too). */
  lemma {:induction false} PortlistNoMatch(table: seq<seq<char>>, key: seq<char>)
    requires Scannable(table, key)
    requires forall j :: 0 <= j < |table| ==> !Matches(table[j], key)
    ensures PortlistUid(table, key) == UID_NOT_FOUND
  {
    if table != [] {
      assert !Matches(table[0], key);
      assert forall j :: 0 <= j < |table| - 1 ==> table[1..][j] == table[j + 1];
      PortlistNoMatch(table[1..], key);
    }
  }

  /** Any other answer comes from a matching line with no match before it. */
  lemma {:induction false} PortlistFound(table: seq<seq<char>>, key: seq<char>) returns (i: nat)
    requires Scannable(table, key)
    requires PortlistUid(table, key) != UID_NOT_FOUND
    ensures i < |table| && Matches(table[i], key) && |Fields(table[i])| >= 8
    ensures forall j :: 0 <= j < i ==> !Matches(table[j], key)
    ensures PortlistUid(table, key) == LineUid(Fields(table[i]))
  {
    if Fields(table[0])[1] == key {
      i := 0;
    } else {
      var k := PortlistFound(table[1..], key);
      i := k + 1;
      assert table[1..][k] == table[i];
      assert forall j :: 1 <= j < i ==> table[j] == table[1..][j - 1];
    }
  }

  /** The table's header line names its second column "local_address": lower-case letters, which
      no bind string contains, so testing the header cannot produce a match. */
  lemma HeaderNeverMatches(q: Quad, port: Port, header: seq<char>)
    requires |Fields(header)| >= 2 && Fields(header)[1] == "local_address"
    ensures !Matches(header, BindKey(q, port))
  {
    BindKeyShape(q, port);
    assert !IsUpperHex('l');
  }

  /** A table with a header and a row whose local-address field is the endpoint's bind string
      yields that row's uid field, read as a base-10 number. */
  lemma {:induction false} LookupFindsRow(header: seq<seq<char>>, row: seq<seq<char>>, q: Quad, port: Port, uid: nat)
    requires |header| >= 2 && header[1] == "local_address"
    requires |row| >= 8 && row[1] == BindKey(q, port) && row[7] == DecimalString(uid)
    requires uid < UID_LIMIT
    requires forall k :: 0 <= k < |header| ==> |header[k]| > 0 && FreeOf(header[k], FIELD_DELIMS) && NUL !in header[k]
    requires forall k :: 0 <= k < |row| ==> |row[k]| > 0 && FreeOf(row[k], FIELD_DELIMS) && NUL !in row[k]
    ensures var table := [Join(header, ' '), Join(row, ' ')];
      Scannable(table, BindKey(q, port)) && PortlistUid(table, BindKey(q, port)) == uid
  {
    var key := BindKey(q, port);
    var table := [Join(header, ' '), Join(row, ' ')];
    JoinFields(header);
    JoinFields(row);
    HeaderNeverMatches(q, port, table[0]);
    SecondLineMatches(table, key);
    RowUid(row, uid);
  }

  lemma SecondLineMatches(table: seq<seq<char>>, key: seq<char>)
    requires |table| == 2 && |Fields(table[0])| >= 2 && !Matches(table[0], key)
    requires Matches(table[1], key) && |Fields(table[1])| >= 8
    ensures Scannable(table, key) && PortlistUid(table, key) == LineUid(Fields(table[1]))
  {
    assert table[1..] == [table[1]] && table[1..][1..] == [];
  }

  lemma RowUid(row: seq<seq<char>>, uid: nat)
    requires |row| >= 8 && row[7] == DecimalString(uid) && uid < UID_LIMIT
    ensures LineUid(row) == uid
  {
    var n := Strtol(row[7]);
    StrtolDecimalString(uid);
    assert n % UID_LIMIT == uid;
  }

  /** The fields of a line built by joining NUL- and space-free fields with single spaces. */
  lemma JoinFields(fs: seq<seq<char>>)
    requires forall k :: 0 <= k < |fs| ==> |fs[k]| > 0 && FreeOf(fs[k], FIELD_DELIMS) && NUL !in fs[k]
    ensures Fields(Join(fs, ' ')) == fs
  {
    JoinNoNul(fs);
    CStringNoNul(Join(fs, ' '));
    assert [] + Join(fs, ' ') == Join(fs, ' ');
    TokensOfJoin([], fs, ' ', FIELD_DELIMS);
  }

  lemma {:induction false} JoinNoNul(fs: seq<seq<char>>)
    requires forall k :: 0 <= k < |fs| ==> NUL !in fs[k]
    ensures NUL !in Join(fs, ' ')
  {
    if |fs| > 1 {
      JoinNoNul(fs[1..]);
    }
  }

  // ---------------------------------------------------------------------------
  // The lookups

  /** The k-th field of a split line, or None when the line has fewer fields (strtok's NULL). */
  function FieldAt(fields: seq<seq<char>>, k: nat): Option<seq<char>>
  {
    if k < |fields| then Some(fields[k]) else None
  }

  /** The eight strtok calls uid_from_portlist makes on one line: it keeps the second token (the
      local address) and the eighth (the uid) and discards the others. */
  method SplitLine(line: seq<char>) returns (local: Option<seq<char>>, uid: Option<seq<char>>)
    ensures local == FieldAt(Fields(line), 1)
    ensures uid == FieldAt(Fields(line), 7)
  {
    ghost var text := CString(line);
    var strtok := new Tokenizer(CString(line));
    var _ := strtok.Next(FIELD_DELIMS);             // index
    assert strtok.rest == RestAfter(text, FIELD_DELIMS, 1);
    local := strtok.Next(FIELD_DELIMS);             // local address
    assert strtok.rest == RestAfter(text, FIELD_DELIMS, 2);
    var _ := strtok.Next(FIELD_DELIMS);             // remote address
    assert strtok.rest == RestAfter(text, FIELD_DELIMS, 3);
    var _ := strtok.Next(FIELD_DELIMS);             // st
    assert strtok.rest == RestAfter(text, FIELD_DELIMS, 4);
    var _ := strtok.Next(FIELD_DELIMS);             // tx_queue:rx_queue
    assert strtok.rest == RestAfter(text, FIELD_DELIMS, 5);
    var _ := strtok.Next(FIELD_DELIMS);             // tr:tm->when
    assert strtok.rest == RestAfter(text, FIELD_DELIMS, 6);
    var _ := strtok.Next(FIELD_DELIMS);             // retrnsmt
    assert strtok.rest == RestAfter(text, FIELD_DELIMS, 7);
    uid := strtok.Next(FIELD_DELIMS);               // uid
    NthToken(text, FIELD_DELIMS, 1);
    NthToken(text, FIELD_DELIMS, 7);
  }

  /** uid_from_portlist: read the table line by line, split each on spaces with strtok, compare the
      second field with the bind string and stop at the first match, reading the eighth field. */
  method UidFromPortlist(portlist: seq<seq<char>>, bindstring: seq<char>) returns (id: Uid)
    requires Scannable(portlist, bindstring)
    ensures id == PortlistUid(portlist, bindstring)
  {
    id := UID_NOT_FOUND;
    var i := 0;
    while i < |portlist|
      invariant i <= |portlist|
      invariant Scannable(portlist[i..], bindstring)
      invariant PortlistUid(portlist, bindstring) == PortlistUid(portlist[i..], bindstring)
      invariant id == UID_NOT_FOUND
    {
      assert portlist[i..][0] == portlist[i];
      assert portlist[i..][1..] == portlist[i + 1..];
      var local, uid := SplitLine(portlist[i]);
      if local.value == bindstring {
        id := Strtol(uid.value) % UID_LIMIT;
        break;
      }
      i := i + 1;
    }
  }

  /** The endpoint's owning uid according to the transport's table. */
  function PortUid(transport: Transport, proc: ProcNet, ipv4: seq<char>, port: Port): Uid
    requires ParseDottedQuad(ipv4).Some?
    requires Scannable(proc.Table(transport), BindKey(ParseDottedQuad(ipv4).value, port))
  {
    PortlistUid(proc.Table(transport), BindKey(ParseDottedQuad(ipv4).value, port))
  }

  /** ipv4_tcp_port_uid: the bind string, looked up in /proc/net/tcp. */
  method Ipv4TcpPortUid(proc: ProcNet, ipv4: seq<char>, port: Port) returns (id: Uid)
    requires ParseDottedQuad(ipv4).Some?
    requires Scannable(proc.tcp, BindKey(ParseDottedQuad(ipv4).value, port))
    ensures id == PortUid(Tcp, proc, ipv4, port)
  {
    var bindstring := Ipv4BindString(ipv4, port, true);
    id := UidFromPortlist(proc.tcp, bindstring.value);
  }

  /** ipv4_udp_port_uid: the same bind string, looked up in /proc/net/udp. */
  method Ipv4UdpPortUid(proc: ProcNet, ipv4: seq<char>, port: Port) returns (id: Uid)
    requires ParseDottedQuad(ipv4).Some?
    requires Scannable(proc.udp, BindKey(ParseDottedQuad(ipv4).value, port))
    ensures id == PortUid(Udp, proc, ipv4, port)
  {
    var bindstring := Ipv4BindString(ipv4, port, true);
    id := UidFromPortlist(proc.udp, bindstring.value);
  }
}
