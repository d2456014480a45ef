// One identification conversation: the greeting, one command read from the
// client, and the replies chosen for it. Each reply is a formatted text sent
// together with its terminating NUL.

module Session {
  import opened CLib
  import opened NetInfo

  /** Size of the command buffer and of the reply buffer. */
  const BUFFER: nat := 256

  /** One entry of the account database: what getpwent and getpwuid report. */
  datatype Account = Account(uid: Uid, name: seq<char>)

  /** What the daemon consults while answering: the kernel connection tables, the account
      database in enumeration order, and the two user-range and domain services, which are
      given as they are (their implementation is not part of this model). */
  datatype Host = Host(
    proc: ProcNet,
    accounts: seq<Account>,
    included: Uid -> bool,
    domain: seq<char> -> seq<char>)

  const GREETING: seq<char> := "AVM IDENT\r\n"
  const ERROR_UNSPECIFIED: seq<char> := "ERROR UNSPECIFIED\r\n"
  const ERROR_NOT_FOUND: seq<char> := "ERROR NOT_FOUND\r\n"
  const ERROR_SYSTEM_USER: seq<char> := "ERROR SYSTEM_USER\r\n"

  /** The "USER %s\r\n" reply of a lookup. */
  function UserReply(name: seq<char>): seq<char>
  {
    "USER " + name + "\r\n"
  }

  /** The "%s\r\n" line USERS sends per account. */
  function UsersLine(name: seq<char>): seq<char>
  {
    name + "\r\n"
  }

  predicate IsUserReply(text: seq<char>)
  {
    |text| >= 7 && text[..5] == "USER " && text[|text| - 2..] == "\r\n"
  }

  // ---------------------------------------------------------------------------
  // Framing

  /** The bytes sendResponse hands to send: the formatted text and the NUL vsnprintf put after
      it (n + 1 bytes). The text must fit the 256-byte buffer. */
  function Frame(text: seq<char>): seq<char>
    requires |text| < BUFFER
  {
    text + [NUL]
  }

  /** A text that sendResponse frames faithfully and a C-string reader gets back. */
  predicate Sendable(text: seq<char>)
  {
    |text| < BUFFER && NUL !in text
  }

  predicate AllFit(texts: seq<seq<char>>)
  {
    forall k :: 0 <= k < |texts| ==> |texts[k]| < BUFFER
  }

  /** One send per text, in order. */
  function Frames(texts: seq<seq<char>>): (chunks: seq<seq<char>>)
    requires AllFit(texts)
    ensures |chunks| == |texts|
    ensures forall k :: 0 <= k < |texts| ==> chunks[k] == Frame(texts[k])
  {
    if texts == [] then []
    else Frames(texts[..|texts| - 1]) + [Frame(texts[|texts| - 1])]
  }

  /** Every frame is its text followed by exactly one NUL, so reading it as a C string gives the
      text back. */
  lemma FrameDecodes(text: seq<char>)
    requires Sendable(text)
    ensures |Frame(text)| == |text| + 1
    ensures Frame(text)[|text|] == NUL && NUL !in Frame(text)[..|text|]
    ensures CString(Frame(text)) == text
  {
    var f := Frame(text);
    assert f[..|text|] == text;
    CStringNoNul(text);
    CStringSplit(text, [NUL]);
  }


  /** The greeting goes out as "AVM IDENT\r\n" and its NUL: twelve bytes. */
  lemma GreetingFrame()
    ensures |Frame(GREETING)| == 12
    ensures CString(Frame(GREETING)) == GREETING
  {
    assert Sendable(GREETING);
    FrameDecodes(GREETING);
  }

  // ---------------------------------------------------------------------------
  // The account database

  predicate HasAccount(accounts: seq<Account>, uid: Uid)
  {
    exists i :: 0 <= i < |accounts| && accounts[i].uid == uid
  }

  /** getpwuid: the position of the first account with that uid. */
  function AccountIndex(accounts: seq<Account>, uid: Uid): (i: nat)
    requires HasAccount(accounts, uid)
    ensures i < |accounts| && accounts[i].uid == uid
    ensures forall j :: 0 <= j < i ==> accounts[j].uid != uid
    decreases |accounts|
  {
    if accounts[0].uid == uid then 0
    else
      assert HasAccount(accounts[1..], uid) by {
        var k :| 0 <= k < |accounts| && accounts[k].uid == uid;
        assert accounts[1..][k - 1] == accounts[k];
      }
      1 + AccountIndex(accounts[1..], uid)
  }

  function NameOf(accounts: seq<Account>, uid: Uid): seq<char>
    requires HasAccount(accounts, uid)
  {
    accounts[AccountIndex(accounts, uid)].name
  }

  /** A name a lookup reply carries fits a reply buffer together with "USER " and CR LF, and
      holds no NUL (it is a C string). */
  predicate NameFits(name: seq<char>)
  {
    |name| + 7 < BUFFER && NUL !in name
  }

  /** A name USERS may send fits a reply buffer together with CR LF, and holds no NUL. */
  predicate UsersLineFits(name: seq<char>)
  {
    |name| + 2 < BUFFER && NUL !in name
  }

  /** The two bounds are exact: a name fits its reply line exactly when the formatted line is
      sendable, so no reply the daemon can send whole is excluded. */
  lemma FitsExactly(name: seq<char>)
    ensures Sendable(UsersLine(name)) <==> UsersLineFits(name)
    ensures Sendable(UserReply(name)) <==> NameFits(name)
  {
    assert UsersLine(name)[..|name|] == name;
    assert UserReply(name)[5..5 + |name|] == name;
    assert NUL !in "USER " && NUL !in "\r\n";
  }

  /** The names USERS formats fit: those of the accounts that pass the user-range test. */
  predicate UsersFit(host: Host)
  {
    forall i :: 0 <= i < |host.accounts| && host.included(host.accounts[i].uid) ==> UsersLineFits(host.domain(host.accounts[i].name))
  }

  // ---------------------------------------------------------------------------
  // USERS

  /** The lines execUSERS sends: "<domain(name)>\r\n" for every account, in enumeration order,
      whose uid passes included_uid. */
  function UsersReply(accounts: seq<Account>, included: Uid -> bool, domain: seq<char> -> seq<char>): seq<seq<char>>
  {
    if accounts == [] then []
    else
      var a := accounts[|accounts| - 1];
      UsersReply(accounts[..|accounts| - 1], included, domain)
        + (if included(a.uid) then [UsersLine(domain(a.name))] else [])
  }

  /** A line is sent exactly when some admitted account produces it. */
  lemma {:induction false} UsersReplyMember(accounts: seq<Account>, included: Uid -> bool, domain: seq<char> -> seq<char>, line: seq<char>)
    ensures line in UsersReply(accounts, included, domain)
        <==> exists i :: 0 <= i < |accounts| && included(accounts[i].uid) && line == UsersLine(domain(accounts[i].name))
  {
    if accounts != [] {
      var n := |accounts| - 1;
      var init := accounts[..n];
      UsersReplyMember(init, included, domain, line);
      assert forall i :: 0 <= i < n ==> init[i] == accounts[i];
    }
  }

  /** Enumeration does not stop early: the reply to a longer database extends the reply to its
      first part by the lines of the rest. */
  lemma {:induction false} UsersReplyAppend(a: seq<Account>, b: seq<Account>, included: Uid -> bool, domain: seq<char> -> seq<char>)
    ensures UsersReply(a + b, included, domain) == UsersReply(a, included, domain) + UsersReply(b, included, domain)
  {
    if b == [] {
      assert a + b == a;
    } else {
      var n := |b| - 1;
      assert (a + b)[..|a + b| - 1] == a + b[..n];
      UsersReplyAppend(a, b[..n], included, domain);
    }
  }

  /** Accounts outside the user ranges contribute no line at all. */
  lemma {:induction false} UsersReplyLength(accounts: seq<Account>, included: Uid -> bool, domain: seq<char> -> seq<char>)
    ensures |UsersReply(accounts, included, domain)| <= |accounts|
    ensures (forall i :: 0 <= i < |accounts| ==> !included(accounts[i].uid)) ==> UsersReply(accounts, included, domain) == []
  {
    if accounts != [] {
      var n := |accounts| - 1;
      UsersReplyLength(accounts[..n], included, domain);
      assert forall i :: 0 <= i < n ==> accounts[..n][i] == accounts[i];
    }
  }

  /** Only the names of admitted accounts are formatted, so only they need to fit. */
  lemma {:induction false} UsersReplyFits(accounts: seq<Account>, included: Uid -> bool, domain: seq<char> -> seq<char>)
    requires forall i :: 0 <= i < |accounts| && included(accounts[i].uid) ==> UsersLineFits(domain(accounts[i].name))
    ensures forall k :: 0 <= k < |UsersReply(accounts, included, domain)| ==> Sendable(UsersReply(accounts, included, domain)[k])
  {
    if accounts != [] {
      var n := |accounts| - 1;
      assert forall i :: 0 <= i < n ==> accounts[..n][i] == accounts[i];
      UsersReplyFits(accounts[..n], included, domain);
      if included(accounts[n].uid) {
        assert UsersLineFits(domain(accounts[n].name));
        assert NUL !in "\r\n";
      }
    }
  }

  /** execUSERS: walk the account database with getpwent and send a line per admitted account. */
  method ExecUsers(host: Host) returns (sent: seq<seq<char>>)
    requires UsersFit(host)
    ensures AllFit(UsersReply(host.accounts, host.included, host.domain))
    ensures sent == Frames(UsersReply(host.accounts, host.included, host.domain))
  {
    UsersReplyFits(host.accounts, host.included, host.domain);
    sent := [];
    var i := 0;
    while i < |host.accounts|
      invariant i <= |host.accounts|
      invariant AllFit(UsersReply(host.accounts[..i], host.included, host.domain))
      invariant sent == Frames(UsersReply(host.accounts[..i], host.included, host.domain))
    {
      var account := host.accounts[i];   // the next account in enumeration order
      assert host.accounts[..i + 1][..i] == host.accounts[..i];
      assert forall k :: 0 <= k < i + 1 ==> host.accounts[..i + 1][k] == host.accounts[k];
      UsersReplyFits(host.accounts[..i + 1], host.included, host.domain);
      if host.included(account.uid) {
        sent := sent + [Frame(UsersLine(host.domain(account.name)))];
      }
      i := i + 1;
    }
    assert host.accounts[..i] == host.accounts;
  }

  // ---------------------------------------------------------------------------
  // TCP and UDP lookups

  /** The reply execTCP and execUDP choose for the uid the lookup found. */
  function LookupReply(host: Host, uid: Uid): (text: seq<char>)
    requires uid != UID_NOT_FOUND && host.included(uid) ==> HasAccount(host.accounts, uid)
    ensures text == ERROR_NOT_FOUND <==> uid == UID_NOT_FOUND
    ensures text == ERROR_SYSTEM_USER <==> uid != UID_NOT_FOUND && !host.included(uid)
    ensures IsUserReply(text) <==> uid != UID_NOT_FOUND && host.included(uid)
    ensures IsUserReply(text) ==> text == UserReply(host.domain(NameOf(host.accounts, uid)))
  {
    assert !IsUserReply(ERROR_NOT_FOUND) && !IsUserReply(ERROR_SYSTEM_USER) by {
      assert ERROR_NOT_FOUND[0] == 'E' && ERROR_SYSTEM_USER[0] == 'E';
    }
    assert |ERROR_NOT_FOUND| != |ERROR_SYSTEM_USER|;
    if uid == UID_NOT_FOUND then ERROR_NOT_FOUND
    else if host.included(uid) then
      var text := UserReply(host.domain(NameOf(host.accounts, uid)));
      assert text[0] == 'U' && text[..5] == "USER ";
      assert text[|text| - 2..] == "\r\n";
      text
    else ERROR_SYSTEM_USER
  }

  /** sscanf(port, "%u", &portNumber). */
  function PortNumber(port: seq<char>): Port
  {
    ScanUnsigned(port, 0x1_0000_0000)
  }

  /** The port a client spells in decimal is the port looked up. */
  lemma PortNumberDecimal(p: Port, after: seq<char>)
    requires after == [] || after[0] !in DIGITS
    ensures PortNumber(DecimalString(p) + after) == p
  {
    ScanUnsignedDecimal(p, after, 0x1_0000_0000);
  }

  /** What a lookup needs to be defined: a dotted quad and a decimal port, as the client is
      expected to send them, a table whose lines carry the fields the scan reads, and, for a uid
      that passes the user-range test, an account whose decorated name fits the reply buffer. */
  predicate Answerable(host: Host, transport: Transport, ipv4: seq<char>, port: seq<char>)
  {
    && Span(port, DIGITS) > 0
    && ParseDottedQuad(ipv4).Some?
    && Scannable(host.proc.Table(transport), BindKey(ParseDottedQuad(ipv4).value, PortNumber(port)))
    && var uid := PortUid(transport, host.proc, ipv4, PortNumber(port));
       uid != UID_NOT_FOUND && host.included(uid) ==>
         HasAccount(host.accounts, uid) && NameFits(host.domain(NameOf(host.accounts, uid)))
  }

  /** The one reply to a TCP or UDP query. */
  function QueryReply(host: Host, transport: Transport, ipv4: seq<char>, port: seq<char>): seq<char>
    requires Answerable(host, transport, ipv4, port)
  {
    LookupReply(host, PortUid(transport, host.proc, ipv4, PortNumber(port)))
  }

  /** A query reply always fits the reply buffer. */
  lemma QueryReplyFits(host: Host, transport: Transport, ipv4: seq<char>, port: seq<char>)
    requires Answerable(host, transport, ipv4, port)
    ensures Sendable(QueryReply(host, transport, ipv4, port))
  {
    var uid := PortUid(transport, host.proc, ipv4, PortNumber(port));
    if uid != UID_NOT_FOUND && host.included(uid) {
      assert NUL !in "USER " && NUL !in "\r\n";
    } else {
      assert NUL !in ERROR_NOT_FOUND && NUL !in ERROR_SYSTEM_USER;
    }
  }

  /** TCP and UDP differ only in the table searched: the same table gives the same reply. */
  lemma QuerySymmetric(host: Host, host': Host, ipv4: seq<char>, port: seq<char>)
    requires host' == host.(proc := ProcNet(host.proc.udp, host.proc.tcp))
    requires Answerable(host, Tcp, ipv4, port)
    ensures Answerable(host', Udp, ipv4, port)
    ensures QueryReply(host', Udp, ipv4, port) == QueryReply(host, Tcp, ipv4, port)
  {
    assert host'.proc.Table(Udp) == host.proc.Table(Tcp);
  }

  /** execTCP: read the port number, look the endpoint up in /proc/net/tcp, send the reply. */
  method ExecTcp(host: Host, ipv4: seq<char>, port: seq<char>) returns (sent: seq<seq<char>>)
    requires Answerable(host, Tcp, ipv4, port)
    ensures AllFit([QueryReply(host, Tcp, ipv4, port)])
    ensures sent == Frames([QueryReply(host, Tcp, ipv4, port)])
  {
    QueryReplyFits(host, Tcp, ipv4, port);
    var portNumber := PortNumber(port);
    var uid := Ipv4TcpPortUid(host.proc, ipv4, portNumber);
    if uid != UID_NOT_FOUND {
      if host.included(uid) {
        var name := NameOf(host.accounts, uid);   // the account getpwuid finds
        sent := [Frame(UserReply(host.domain(name)))];
      } else {
        sent := [Frame(ERROR_SYSTEM_USER)];
      }
    } else {
      sent := [Frame(ERROR_NOT_FOUND)];
    }
  }

  /** execUDP: the same, over /proc/net/udp. */
  method ExecUdp(host: Host, ipv4: seq<char>, port: seq<char>) returns (sent: seq<seq<char>>)
    requires Answerable(host, Udp, ipv4, port)
    ensures AllFit([QueryReply(host, Udp, ipv4, port)])
    ensures sent == Frames([QueryReply(host, Udp, ipv4, port)])
  {
    QueryReplyFits(host, Udp, ipv4, port);
    var portNumber := PortNumber(port);
    var uid := Ipv4UdpPortUid(host.proc, ipv4, portNumber);
    if uid != UID_NOT_FOUND {
      if host.included(uid) {
        var name := NameOf(host.accounts, uid);   // the account getpwuid finds
        sent := [Frame(UserReply(host.domain(name)))];
      } else {
        sent := [Frame(ERROR_SYSTEM_USER)];
      }
    } else {
      sent := [Frame(ERROR_NOT_FOUND)];
    }
  }

  // ---------------------------------------------------------------------------
  // Commands

  const VERB_DELIMS: set<char> := {'\r', '\n', ' '}
  const IP_DELIMS: set<char> := {':'}
  const PORT_DELIMS: set<char> := {'\r', '\n'}

  /** What a command asks for. A TCP or UDP command without both an address and a port token is
      Incomplete; any verb other than the three is Unrecognized. */
  datatype Request =
    | Users
    | Query(transport: Transport, ipv4: seq<char>, port: seq<char>)
    | Incomplete(transport: Transport)
    | Unrecognized(verb: seq<char>)

  function VerbOf(transport: Transport): seq<char>
  {
    match transport
    case Tcp => "TCP"
    case Udp => "UDP"
  }

  /** The dispatch in SocketServer: the verb is the first strtok token on CR, LF and space; for
      TCP and UDP the address is the next token up to ':' and the port the next up to CR or LF. */
  function ParseRequest(cmd: seq<char>): (req: Request)
    requires Strtok(cmd, VERB_DELIMS).token.Some?
    ensures req.Users? <==> Strtok(cmd, VERB_DELIMS).token.value == "USERS"
    ensures req.Unrecognized? <==> Strtok(cmd, VERB_DELIMS).token.value !in {"USERS", "TCP", "UDP"}
    ensures (req.Query? || req.Incomplete?) ==> Strtok(cmd, VERB_DELIMS).token.value == VerbOf(req.transport)
    ensures req.Query? ==> |req.ipv4| > 0 && ':' !in req.ipv4 && |req.port| > 0 && FreeOf(req.port, PORT_DELIMS)
  {
    var first := Strtok(cmd, VERB_DELIMS);
    var verb := first.token.value;
    if verb == "USERS" then Users
    else if verb == "TCP" || verb == "UDP" then
      var transport := if verb == "TCP" then Tcp else Udp;
      var ip := Strtok(first.rest, IP_DELIMS);
      var port := Strtok(ip.rest, PORT_DELIMS);
      if ip.token.Some? && port.token.Some? then
        assert FreeOf(ip.token.value, IP_DELIMS);
        Query(transport, ip.token.value, port.token.value)
      else Incomplete(transport)
    else Unrecognized(verb)
  }

  /** What a command needs to be answered: the names a USERS listing formats fit, and a lookup
      it asks for is answerable. Every other command formats no name and needs nothing. */
  predicate Serviceable(host: Host, req: Request)
  {
    && (req.Users? ==> UsersFit(host))
    && (req.Query? ==> Answerable(host, req.transport, req.ipv4, req.port))
  }

  /** The texts sent in answer to a request. */
  function Respond(host: Host, req: Request): (texts: seq<seq<char>>)
    requires Serviceable(host, req)
    ensures !req.Users? ==> |texts| == 1
    ensures (req.Incomplete? || req.Unrecognized?) ==> texts == [ERROR_UNSPECIFIED]
  {
    match req
    case Users => UsersReply(host.accounts, host.included, host.domain)
    case Query(transport, ipv4, port) => [QueryReply(host, transport, ipv4, port)]
    case Incomplete(_) => [ERROR_UNSPECIFIED]
    case Unrecognized(_) => [ERROR_UNSPECIFIED]
  }

  /** Every reply fits the reply buffer and holds no NUL. */
  lemma RespondFits(host: Host, req: Request)
    requires Serviceable(host, req)
    ensures forall k :: 0 <= k < |Respond(host, req)| ==> Sendable(Respond(host, req)[k])
  {
    match req
    case Users => UsersReplyFits(host.accounts, host.included, host.domain);
    case Query(transport, ipv4, port) => QueryReplyFits(host, transport, ipv4, port);
    case Incomplete(_) => assert NUL !in ERROR_UNSPECIFIED;
    case Unrecognized(_) => assert NUL !in ERROR_UNSPECIFIED;
  }

  /** A well-formed query "<VERB> <address>:<port>\r\n" is understood as that query. */
  lemma ParseQuery(transport: Transport, ipv4: seq<char>, port: seq<char>)
    requires |ipv4| > 0 && ':' !in ipv4
    requires |port| > 0 && FreeOf(port, PORT_DELIMS)
    ensures var cmd := VerbOf(transport) + " " + ipv4 + ":" + port + "\r\n";
      Strtok(cmd, VERB_DELIMS).token.Some? && ParseRequest(cmd) == Query(transport, ipv4, port)
  {
    var verb := VerbOf(transport);
    var afterVerb := ipv4 + ":" + port + "\r\n";
    var afterIp := port + "\r\n";
    var cmd := verb + " " + ipv4 + ":" + port + "\r\n";
    assert Strtok(cmd, VERB_DELIMS) == Cut(Some(verb), afterVerb) by {
      assert cmd == [] + verb + (" " + afterVerb);
      StrtokOf([], verb, " " + afterVerb, VERB_DELIMS);
      assert (" " + afterVerb)[1..] == afterVerb;
    }
    assert Strtok(afterVerb, IP_DELIMS) == Cut(Some(ipv4), afterIp) by {
      assert afterVerb == [] + ipv4 + (":" + afterIp);
      StrtokOf([], ipv4, ":" + afterIp, IP_DELIMS);
      assert (":" + afterIp)[1..] == afterIp;
    }
    assert Strtok(afterIp, PORT_DELIMS).token == Some(port) by {
      assert afterIp == [] + port + "\r\n";
      StrtokOf([], port, "\r\n", PORT_DELIMS);
    }
  }

  /** "TCP 127.0.0.1:80\r\n" asks for the endpoint 127.0.0.1, port 80, which is looked up as
      0100007F:0050 in /proc/net/tcp. */
  lemma LoopbackQuery(ipv4: seq<char>, port: seq<char>)
    requires ipv4 == "127.0.0.1" && port == "80"
    ensures var cmd := VerbOf(Tcp) + " " + ipv4 + ":" + port + "\r\n";
      Strtok(cmd, VERB_DELIMS).token.Some? && ParseRequest(cmd) == Query(Tcp, ipv4, port)
    ensures PortNumber(port) == 80
    ensures ParseDottedQuad(ipv4).Some? && BindKey(ParseDottedQuad(ipv4).value, PortNumber(port)) == "0100007F:0050"
  {
    assert ':' !in ipv4 && FreeOf(port, PORT_DELIMS);
    ParseQuery(Tcp, ipv4, port);
    LoopbackPort(port);
    LoopbackParses();
    LoopbackKey(Quad(127, 0, 0, 1), 80);
  }

  lemma LoopbackPort(port: seq<char>)
    requires port == "80"
    ensures PortNumber(port) == 80
  {
    assert DecimalString(80) + [] == port by {
      assert DecimalString(8) == "8" && DecimalString(80) == DecimalString(8) + "0";
    }
    PortNumberDecimal(80, []);
  }

  /** A TCP or UDP command with no ':' after the verb has no port token: it is answered with
      ERROR UNSPECIFIED and no lookup is made ("TCP 127.0.0.1" is one). */
  lemma ParseMissingPort(transport: Transport, text: seq<char>, host: Host)
    requires ':' !in text
    ensures var cmd := VerbOf(transport) + " " + text;
      && Strtok(cmd, VERB_DELIMS).token.Some?
      && ParseRequest(cmd) == Incomplete(transport)
      && Serviceable(host, ParseRequest(cmd))
      && Respond(host, ParseRequest(cmd)) == [ERROR_UNSPECIFIED]
  {
    var verb := VerbOf(transport);
    var cmd := verb + " " + text;
    assert Strtok(cmd, VERB_DELIMS) == Cut(Some(verb), text) by {
      assert cmd == [] + verb + (" " + text);
      StrtokOf([], verb, " " + text, VERB_DELIMS);
      assert (" " + text)[1..] == text;
    }
    assert Strtok(text, IP_DELIMS).rest == [] by {
      if text != [] {
        assert text == [] + text + [];
        StrtokOf([], text, [], IP_DELIMS);
      }
    }
    IncompleteRequest(cmd, transport, text);
  }

  /** After the verb, text whose address token leaves nothing behind has no port token. */
  lemma IncompleteRequest(cmd: seq<char>, transport: Transport, rest: seq<char>)
    requires Strtok(cmd, VERB_DELIMS) == Cut(Some(VerbOf(transport)), rest)
    requires Strtok(rest, IP_DELIMS).rest == []
    ensures ParseRequest(cmd) == Incomplete(transport)
  {
    assert VerbOf(transport) != "USERS" by {
      assert |VerbOf(transport)| == 3;
    }
    assert Strtok([], PORT_DELIMS).token.None?;
  }

  /** Any other verb, in any letter case other than the exact upper-case spellings, gets
      exactly ERROR UNSPECIFIED, on every host. */
  lemma ParseUnrecognized(verb: seq<char>, tail: seq<char>, host: Host)
    requires |verb| > 0 && FreeOf(verb, VERB_DELIMS) && verb !in {"USERS", "TCP", "UDP"}
    requires tail == [] || tail[0] in VERB_DELIMS
    ensures Strtok(verb + tail, VERB_DELIMS).token.Some?
    ensures ParseRequest(verb + tail) == Unrecognized(verb)
    ensures Serviceable(host, ParseRequest(verb + tail))
    ensures Respond(host, ParseRequest(verb + tail)) == [ERROR_UNSPECIFIED]
  {
    LeadingToken(verb, tail, VERB_DELIMS);
  }

  /** The bytes sent in answer to a command, given as a C string. */
  method HandleCommand(host: Host, cmd: seq<char>) returns (sent: seq<seq<char>>)
    requires Strtok(cmd, VERB_DELIMS).token.Some?
    requires Serviceable(host, ParseRequest(cmd))
    ensures AllFit(Respond(host, ParseRequest(cmd)))
    ensures sent == Frames(Respond(host, ParseRequest(cmd)))
  {
    RespondFits(host, ParseRequest(cmd));
    var strtok := new Tokenizer(cmd);
    var cmdVerb := strtok.Next(VERB_DELIMS);
    if cmdVerb.value == "USERS" {
      sent := ExecUsers(host);
    } else if cmdVerb.value == "TCP" {
      var localIp := strtok.Next(IP_DELIMS);
      var localPort := strtok.Next(PORT_DELIMS);
      if localIp.Some? && localPort.Some? {
        sent := ExecTcp(host, localIp.value, localPort.value);
      } else {
        sent := [Frame(ERROR_UNSPECIFIED)];
      }
    } else if cmdVerb.value == "UDP" {
      var localIp := strtok.Next(IP_DELIMS);
      var localPort := strtok.Next(PORT_DELIMS);
      if localIp.Some? && localPort.Some? {
        sent := ExecUdp(host, localIp.value, localPort.value);
      } else {
        sent := [Frame(ERROR_UNSPECIFIED)];
      }
    } else {
      sent := [Frame(ERROR_UNSPECIFIED)];
    }
  }

  // ---------------------------------------------------------------------------
  // One connection

  /** What recv reports: the peer closed the connection, an error, or 1 to 255 bytes. */
  datatype Received = Closed | Failed | Data(bytes: seq<char>)

  /** The bytes sent on the connection, and whether the daemon exits afterwards. */
  datatype Outcome = Outcome(sent: seq<seq<char>>, fatal: bool)


  /** What a connection needs to be answered: at most 255 bytes, a verb among them, and a
      lookup, if one is asked for, that can be made. */
  predicate Acceptable(host: Host, r: Received)
  {
    r.Data? ==>
      && 1 <= |r.bytes| < BUFFER
      && Strtok(CString(r.bytes), VERB_DELIMS).token.Some?
      && Serviceable(host, ParseRequest(CString(r.bytes)))
  }

  /** The conversation on one accepted connection: the greeting, then the replies to the command
      received; nothing more when the peer sent nothing; a receive error ends the daemon. */
  function Conversation(host: Host, r: Received): (o: Outcome)
    requires Acceptable(host, r)
    ensures |o.sent| >= 1 && o.sent[0] == Frame(GREETING)
    ensures o.fatal <==> r.Failed?
    ensures !r.Data? ==> o.sent == [Frame(GREETING)]
  {
    match r
    case Closed => Outcome([Frame(GREETING)], false)
    case Failed => Outcome([Frame(GREETING)], true)
    case Data(bytes) =>
      var req := ParseRequest(CString(bytes));
      RespondFits(host, req);
      Outcome([Frame(GREETING)] + Frames(Respond(host, req)), false)
  }

  /** Every chunk written on a connection is a text with no NUL followed by exactly one NUL. */
  lemma ConversationFramed(host: Host, r: Received)
    requires Acceptable(host, r)
    ensures forall k :: 0 <= k < |Conversation(host, r).sent| ==>
      var chunk := Conversation(host, r).sent[k];
      |chunk| >= 1 && chunk[|chunk| - 1] == NUL && NUL !in chunk[..|chunk| - 1]
  {
    var sent := Conversation(host, r).sent;
    assert Sendable(GREETING);
    FrameDecodes(GREETING);
    if r.Data? {
      var texts := Respond(host, ParseRequest(CString(r.bytes)));
      RespondFits(host, ParseRequest(CString(r.bytes)));
      forall k | 1 <= k < |sent|
        ensures |sent[k]| >= 1 && sent[k][|sent[k]| - 1] == NUL && NUL !in sent[k][..|sent[k]| - 1]
      {
        assert sent[k] == Frame(texts[k - 1]);
        FrameDecodes(texts[k - 1]);
      }
    }
  }

  /** One pass of SocketServer's loop after accept: send the greeting, receive into the zeroed
      256-byte buffer (at most 255 bytes), terminate it and answer the command. */
  method ServeConnection(host: Host, r: Received) returns (o: Outcome)
    requires Acceptable(host, r)
    ensures o == Conversation(host, r)
  {
    var sent := [Frame(GREETING)];
    var cmd := new char[BUFFER](_ => NUL);   // the buffer is cleared before each receive
    match r
    case Closed =>
      o := Outcome(sent, false);
    case Failed =>
      o := Outcome(sent, true);
    case Data(bytes) =>
      forall k | 0 <= k < |bytes| {
        cmd[k] := bytes[k];
      }
      cmd[|bytes|] := NUL;
      assert cmd[..] == bytes + cmd[|bytes|..];
      CStringSplit(bytes, cmd[|bytes|..]);
      var replies := HandleCommand(host, CString(cmd[..]));
      o := Outcome(sent + replies, false);
  }

  /** A NUL right after the received bytes hides whatever the buffer holds beyond it. */
  lemma {:induction false} CStringSplit(s: seq<char>, rest: seq<char>)
    requires rest != [] && rest[0] == NUL
    ensures CString(s + rest) == CString(s)
  {
    if s != [] && s[0] != NUL {
      assert (s + rest)[1..] == s[1..] + rest;
      CStringSplit(s[1..], rest);
    } else if s != [] {
      assert (s + rest)[0] == NUL;
    } else {
      assert s + rest == rest;
    }
  }
}
