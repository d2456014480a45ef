# fritzident, modelled in Dafny

fritzident is a small daemon that answers the user-identification protocol of the
Fritz!Box router. A client connects and the daemon greets it with `AVM IDENT\r\n`. The
client then sends one command:

- `USERS` lists the real users;
- `TCP <ip>:<port>` and `UDP <ip>:<port>` ask which user owns a local endpoint.

The daemon finds the owner by formatting the endpoint the way the kernel prints it in
`/proc/net/tcp` or `/proc/net/udp`, and scanning that table for the line whose
local-address column matches. Each reply is a text sent together with its terminating
NUL byte.

The model covers three parts:

- **Endpoint → uid resolver** (`netinfo.dfy`, module `NetInfo`).
  - The bind string `XXXXXXXX:PPPP` built from a dotted quad and a port, in host byte
    order on a little-endian machine.
  - The first-match scan of a connection table, given as its sequence of lines, both as a
    specification function and as the line-by-line loop that drives `strtok`.
- **Request handling** (`session.dfy`, module `Session`).
  - Command tokenizing with `strtok`'s exact semantics: skip leading delimiters, take a
    maximal token, consume one delimiter, keep the cursor (`clib.dfy`, class
    `CLib.Tokenizer`).
  - Verb dispatch, the three-way lookup reply, the `USERS` listing loop, reply framing,
    and one whole connection.
- **Start-up and log mask**.
  - `main`'s option loop, the port and uid-range checks and the two uid ranges it
    installs (`startup.dfy`, module `Startup`).
  - The syslog priority mask that `initLogging` and `raiseVerbosity` maintain
    (`logmask.dfy`, class `LogMask.Logging`).

`clib.dfy` (module `CLib`) holds the C-library behaviour the core relies on:

- NUL-terminated strings, `strspn`/`strcspn`, `strtok`;
- decimal reading as `sscanf %u`/`%hhu` and `strtol` do it;
- upper-case hexadecimal output as `printf("%0wX")` writes it.

Inputs from the environment are parameters. A `Session.Host` bundles them:

- the two connection tables;
- the account database, in `getpwent` enumeration order;
- the user-range test `included_uid`;
- the domain decoration `add_default_domain`.

The received bytes come in as a `Session.Received` value, and the replies go out as the
sequence of byte chunks handed to `send`. The options come in as the list `getopt_long`
delivers, with numeric arguments already converted by `strtol`.

Assumptions:

- `netinfo.h` is not part of this model. `UID_NOT_FOUND` is taken to be `(uid_t)-1` (0xFFFFFFFF), and `uid_t` to be 32 bits wide.
- The host is little-endian.
- `setlogmask` follows glibc:
  - the process starts with mask 0xFF;
  - `setlogmask(0)` returns the mask without changing it;
  - `LOG_UPTO(p) = 2^(p+1) - 1`, with `LOG_WARNING = 4` and `LOG_DEBUG = LOG_PRIMASK = 7`.

The code has no explicit header skip: every line of a connection table is compared, the header included.

Ports are not range-checked before they are formatted, so a port above 0xFFFF gives more than four hex digits.

## Model

| member | source | states |
|---|---|---|
| CLib.CString | main.c:270-274 | the C string a NUL-terminated buffer holds is a prefix of it, contains no NUL, and is followed by a NUL when shorter than the buffer |
| CLib.CStringNoNul | main.c:270 | a buffer without NUL holds itself as a C string |
| CLib.Span | netinfo.c:52-53 | strspn: a prefix length whose characters are all accepted, followed by a rejected character or the end |
| CLib.CSpan | main.c:274 | strcspn: a prefix length with no rejected character, followed by a rejected character or the end |
| CLib.TakeToken | main.c:274 | the token strtok cuts is free of delimiters, non-empty when the text starts with a non-delimiter, and leaves less text behind |
| CLib.Strtok | main.c:274 | strtok returns NULL only with nothing left, otherwise a non-empty delimiter-free token and a shorter remainder |
| CLib.StrtokNone | main.c:274-278 | strtok returns NULL exactly when the remaining text is made only of delimiters |
| CLib.TakeTokenOf | main.c:283-284 | a delimiter-free token followed by a delimiter or the end is cut exactly there and the delimiter is consumed |
| CLib.TakeTokenSpan | main.c:274 | the token strtok cuts is exactly the strcspn prefix of the text, and the delimiter after it, if any, is consumed |
| CLib.StrtokSpans | main.c:274 | strtok is strspn followed by strcspn: NULL when only delimiters remain, otherwise the strcspn prefix of the text after the strspn prefix |
| CLib.LeadingToken | main.c:274 | strtok on text that begins with a delimiter-free token returns that token |
| CLib.StrtokOf | main.c:283-284 | reference description of one strtok call: leading delimiters are skipped, the token is returned and one delimiter consumed |
| CLib.Tokenizer.constructor | main.c:274 | strtok with a non-NULL string restarts the hidden cursor at that string |
| CLib.Tokenizer.Next | netinfo.c:68-75 | strtok(NULL, delims) with its two scanning loops returns the token and moves the cursor exactly as the Strtok reference does |
| CLib.Tokens | netinfo.c:68-75 | defines the sequence of tokens that successive strtok calls return from a text before the first NULL |
| CLib.TokensAfter | netinfo.c:68-75 | after k strtok calls the remaining tokens are those of the whole text minus the first k |
| CLib.RestAfter | netinfo.c:68-75 | defines the text the hidden strtok cursor holds after k calls with the same delimiters |
| CLib.NthToken | netinfo.c:69-75 | the (k+1)-th strtok call returns token k of the text, or NULL when there are no more than k tokens |
| CLib.TokensOfJoin | netinfo.c:66-75 | splitting undoes joining: non-empty delimiter-free fields joined by one delimiter come back out of strtok unchanged |
| CLib.DigitValue | netinfo.c:52-53 | a decimal digit's value is below 10 |
| CLib.DigitChar | netinfo.c:52-53 | the digit character of a value below 10 reads back as that value |
| CLib.DecimalString | netinfo.c:52-53 | the decimal spelling of a number is non-empty and made of digits |
| CLib.DecimalRoundTrip | netinfo.c:52-53 | reading the decimal spelling of a number gives the number back |
| CLib.LeadingDigits | netinfo.c:52-53 | the leading digits of a text are a prefix of it made of digits |
| CLib.LeadingDigitsOf | main.c:160 | the digit run at the head of a text ends at the first non-digit |
| CLib.ScanUnsigned | main.c:160 | sscanf's %u and %hhu store a value below the destination's number of values |
| CLib.ScanUnsignedDecimal | main.c:160 | sscanf's %u-family reads back the decimal spelling of any value the destination holds, stopping at the first non-digit |
| CLib.Strtol | netinfo.c:78 | strtol base 10 always yields a value in the range of long |
| CLib.StrtolDecimalString | netinfo.c:78 | strtol reads back the decimal spelling of any number that fits in a long |
| CLib.StrtolDecimal | netinfo.c:78 | strtol reads back a decimal number followed by any non-digit text |
| CLib.Hex | netinfo.c:54 | defines what printf's `%0wX` writes: the number in upper-case hex, padded with zeros to at least w digits |
| CLib.HexChar | netinfo.c:54 | a hex digit value is written as an upper-case hex digit |
| CLib.HexDigitValue | netinfo.c:54 | an upper-case hex digit's value is below 16 |
| CLib.HexFixed | netinfo.c:54 | the last w hex digits of a number are exactly w upper-case hex digits |
| CLib.HexWidth | netinfo.c:54 | %X prints at least one digit |
| CLib.HexWidthBounds | netinfo.c:54 | HexWidth digits hold the number and one fewer do not: %X prints no leading zero |
| CLib.HexWidthAtMost | netinfo.c:54 | a number below 16^w needs at most w digits |
| CLib.HexFixedValue | netinfo.c:54 | fixed-width digits of a number that fits read back as the number |
| CLib.HexRoundTrip | netinfo.c:54 | %0wX loses nothing: its digits read back as the number printed |
| CLib.HexLength | netinfo.c:54 | %0wX is exactly w characters when the number fits in w digits, and longer when it does not |
| CLib.HexFixedBytes | netinfo.c:45-54 | the low byte gives the last two hex digits and the rest of the number the ones before |
| NetInfo.ParseDottedQuad | netinfo.c:52-53 | defines the four bytes the `%hhu.%hhu.%hhu.%hhu` scan stores, or None when it does not match all four |
| NetInfo.ParseOctets | netinfo.c:52-53 | a successful %hhu.%hhu... scan yields exactly the requested number of bytes |
| NetInfo.ScanDecimalString | netinfo.c:52-53 | %hhu reads the decimal spelling of a byte back and stops at the following non-digit |
| NetInfo.ParseOctetsLast | netinfo.c:52-53 | the last %hhu of the format reads a byte's spelling whatever follows it |
| NetInfo.ParseOctetsStep | netinfo.c:52-53 | a byte's spelling, a dot and the rest scan as that byte followed by the rest's bytes |
| NetInfo.DottedQuadRoundTrip | netinfo.c:52-53 | the dotted-quad spelling of an address scans back as that address |
| NetInfo.ParseFourOctets | netinfo.c:52-53 | four dot-separated byte spellings scan as those four bytes, in order |
| NetInfo.ParseThreeOctets | netinfo.c:52-53 | three dot-separated byte spellings scan as those three bytes |
| NetInfo.ParseTwoOctets | netinfo.c:52-53 | two dot-separated byte spellings scan as those two bytes |
| NetInfo.HostValue | netinfo.c:45-48 | the union's 32-bit view of four bytes fits in a uint32_t |
| NetInfo.BindKey | netinfo.c:54 | defines the text snprintf writes with "%08X:%04X" for the union's 32-bit value and the port |
| NetInfo.Ipv4BindString | netinfo.c:42-58 | returns NULL exactly when no buffer is given, and otherwise a bind string that fits the callers' 32-byte buffer |
| NetInfo.BindKeyShape | netinfo.c:38-54 | the bind string is 8 upper-case hex digits, ':', then at least 4 hex digits; exactly 13 characters for a port up to 0xFFFF and longer above, since the port is not range-checked |
| NetInfo.BindKeyDecodes | netinfo.c:54 | the bind string decodes back to the address value and the port |
| NetInfo.BindKeyInjective | netinfo.c:54-77 | distinct endpoints get distinct bind strings, so the exact comparison identifies the endpoint |
| NetInfo.BindKeyLittleEndian | netinfo.c:45-54 | in host byte order on a little-endian machine the address digits are the octets in reverse order, two hex digits each |
| NetInfo.OctetDigits | netinfo.c:54 | a 32-bit value built from four bytes prints as two hex digits per byte, most significant first |
| NetInfo.LoopbackParses | netinfo.c:52-53 | "127.0.0.1" scans as the bytes 127, 0, 0, 1 |
| NetInfo.HexPair | netinfo.c:54 | a byte prints as its high nibble then its low nibble |
| NetInfo.LoopbackKey | netinfo.c:45-54 | address 127.0.0.1 with port 80 gives the key "0100007F:0050" |
| NetInfo.LoopbackBindString | netinfo.c:42-58 | ipv4_bindstring("127.0.0.1", 80) is "0100007F:0050": the octets come out reversed |
| NetInfo.Fields | netinfo.c:66-75 | defines the fields of one table line: the strtok tokens on spaces of the C string fgets stored |
| NetInfo.LineUid | netinfo.c:75-78 | defines the uid of a matching line: its eighth field read by strtol base 10 and stored in a uid_t |
| NetInfo.PortlistUid | netinfo.c:60-85 | defines the result of the scan: the uid of the first line whose second field equals the key, or UID_NOT_FOUND |
| NetInfo.PortlistFirstMatch | netinfo.c:77-81 | the first line whose second field equals the key decides the uid, whatever the lines after it hold |
| NetInfo.PortlistNoMatch | netinfo.c:63-84 | when no line matches, the header included, the result is UID_NOT_FOUND |
| NetInfo.PortlistFound | netinfo.c:66-84 | any result other than UID_NOT_FOUND comes from a matching line with no match before it |
| NetInfo.HeaderNeverMatches | netinfo.c:66-77 | the header line's "local_address" column can never equal a bind string, so testing the header is harmless |
| NetInfo.LookupFindsRow | netinfo.c:60-85 | a table of a header and a row carrying the endpoint's bind string yields the row's uid field read in base 10 |
| NetInfo.SecondLineMatches | netinfo.c:66-81 | in a two-line table whose first line does not match and whose second does, the second line's uid is the result |
| NetInfo.RowUid | netinfo.c:75-78 | the uid field of a row, a decimal number, is read back by strtol base 10 |
| NetInfo.JoinFields | netinfo.c:66-75 | a line made of space-separated fields splits back into those fields |
| NetInfo.JoinNoNul | netinfo.c:66 | joining NUL-free fields gives a NUL-free line |
| NetInfo.SplitLine | netinfo.c:67-75 | the eight strtok calls on a line yield its second token as the local address and its eighth as the uid |
| NetInfo.UidFromPortlist | netinfo.c:60-85 | the line-by-line scan with its early break returns the uid of the first matching line, or UID_NOT_FOUND |
| NetInfo.PortUid | netinfo.c:87-111 | defines the uid a per-transport lookup returns: the first-match scan of that connection table for the bind string of the address and port |
| NetInfo.Ipv4TcpPortUid | netinfo.c:87-98 | the TCP lookup is the first-match scan of /proc/net/tcp for the endpoint's bind string |
| NetInfo.Ipv4UdpPortUid | netinfo.c:100-111 | the UDP lookup is the same scan of /proc/net/udp for the same bind string |
| Session.UserReply | main.c:166 | defines the "USER %s\r\n" reply of a lookup, with the decorated name |
| Session.UsersLine | main.c:149 | defines the "%s\r\n" line USERS sends for each admitted account |
| Session.Frame | main.c:130-133 | defines the bytes sendResponse hands to send: the formatted text and the NUL after it, n + 1 bytes |
| Session.Frames | main.c:122-141 | one chunk per reply, in order, each the text plus its NUL |
| Session.FrameDecodes | main.c:130-133 | every chunk sent is its text followed by exactly one NUL (n + 1 bytes), and reads back as the text |
| Session.GreetingFrame | main.c:253 | the greeting is "AVM IDENT\r\n" plus NUL: 12 bytes |
| Session.AccountIndex | main.c:164-165 | getpwuid finds the first account with that uid |
| Session.NameOf | main.c:164-166 | defines the name of the account getpwuid finds for a uid |
| Session.UsersReply | main.c:143-154 | defines the lines execUSERS sends: "<domain(name)>\r\n" per account that passes included_uid, in enumeration order |
| Session.UsersReplyMember | main.c:143-154 | USERS sends a line exactly when some account whose uid passes included_uid produces it |
| Session.UsersReplyAppend | main.c:145-152 | enumeration does not stop early: the listing of a longer database extends the listing of its first part |
| Session.UsersReplyLength | main.c:146-150 | at most one line per account, and none at all when no account passes included_uid |
| Session.UsersReplyFits | main.c:149 | every USERS line fits the reply buffer and holds no NUL |
| Session.ExecUsers | main.c:143-154 | the getpwent loop sends, in enumeration order, one framed "<domain(name)>\r\n" per account that passes included_uid |
| Session.LookupReply | main.c:162-171 | ERROR NOT_FOUND exactly for UID_NOT_FOUND, ERROR SYSTEM_USER exactly for a found uid outside the user ranges, and "USER <domain(name)>\r\n" exactly otherwise |
| Session.PortNumber | main.c:160 | defines the port number sscanf's %u stores for the port token |
| Session.PortNumberDecimal | main.c:160 | the port a client spells in decimal is the port looked up |
| Session.QueryReply | main.c:156-190 | defines the one reply to a lookup: the reply LookupReply chooses for the uid the transport's table gives the endpoint |
| Session.QueryReplyFits | main.c:162-171 | a lookup reply always fits the reply buffer and holds no NUL |
| Session.QuerySymmetric | main.c:156-190 | TCP and UDP are handled alike: the same table gives the same reply |
| Session.ExecTcp | main.c:156-172 | sends exactly one framed reply, the lookup reply for the endpoint in /proc/net/tcp |
| Session.ExecUdp | main.c:174-190 | sends exactly one framed reply, the lookup reply for the endpoint in /proc/net/udp |
| Session.ParseRequest | main.c:274-302 | the request is USERS exactly for the verb "USERS", unrecognized exactly for any other verb but TCP and UDP, and a query carries a non-empty address without ':' and a non-empty port without CR or LF |
| Session.Respond | main.c:278-303 | every request but USERS gets exactly one reply, and an incomplete or unrecognized one gets exactly ERROR UNSPECIFIED |
| Session.RespondFits | main.c:130-133 | every reply fits the 256-byte reply buffer and holds no NUL |
| Session.ParseQuery | main.c:282-287 | "<VERB> <address>:<port>\r\n" is understood as that query |
| Session.LoopbackQuery | main.c:282-287 | "TCP 127.0.0.1:80\r\n" is the query for 127.0.0.1 port 80, and that endpoint is looked up as 0100007F:0050 |
| Session.ParseMissingPort | main.c:283-289 | a TCP or UDP command without ':' yields no port token, so on every host it gets exactly ERROR UNSPECIFIED and no lookup |
| Session.ParseUnrecognized | main.c:300-302 | any other verb, case-sensitively, gets exactly ERROR UNSPECIFIED, on every host |
| Session.FitsExactly | main.c:122-149 | a USERS line is sent whole exactly when its name has `|name| + 2 < 256` and no NUL, and a lookup reply exactly when `|name| + 7 < 256` and no NUL |
| Session.IncompleteRequest | main.c:283-289 | after TCP or UDP, an address token that leaves nothing behind means no port token, so the request is incomplete |
| Session.HandleCommand | main.c:274-303 | the strtok-driven dispatch sends exactly the framed replies the request calls for |
| Session.Conversation | main.c:253-303 | the greeting is sent first, a receive error is fatal, and a zero-byte read sends nothing more |
| Session.ConversationFramed | main.c:122-141 | every chunk written on a connection is NUL-free text followed by exactly one NUL |
| Session.ServeConnection | main.c:253-303 | receiving into the zeroed buffer, terminating it at the received length and dispatching yields the conversation |
| Session.CStringSplit | main.c:270 | the NUL put after the received bytes hides whatever the buffer holds beyond it |
| LogMask.LogUpTo | debug.c:50-59 | defines LOG_UPTO(p), the mask of all priorities up to p: 2^(p+1) - 1 |
| LogMask.LogUpToStep | debug.c:49-50 | LOG_UPTO(p+1) = 2 * LOG_UPTO(p) + 1: one raise adds exactly one priority |
| LogMask.LogUpToValues | debug.c:50-59 | LOG_UPTO(LOG_WARNING) = 0x1F and LOG_UPTO(LOG_DEBUG) = LOG_UPTO(LOG_PRIMASK) = 0xFF |
| LogMask.Raised | debug.c:49-51 | defines the mask after one raise: the candidate (mask << 1) + 1 when it is within LOG_UPTO(LOG_PRIMASK), the old mask otherwise |
| LogMask.RaisedTimes | debug.c:47-52 | defines the mask after n raiseVerbosity calls |
| LogMask.RaisedBounds | debug.c:49-51 | a raise changes the mask exactly when the candidate stays within 0xFF, and the mask never decreases nor exceeds 0xFF |
| LogMask.RaisedAtDebug | debug.c:49-51 | once every priority is let through, a raise is a no-op |
| LogMask.RaisesFrom | debug.c:43-51 | n raises from LOG_UPTO(p) give LOG_UPTO(min(p + n, LOG_DEBUG)) |
| LogMask.LogUpToMonotone | debug.c:50 | LOG_UPTO is monotone |
| LogMask.RaisesFromInit | debug.c:43-60 | after initLogging the raises give 0x3F, 0x7F, 0xFF, and 0xFF from then on |
| LogMask.RaisedTimesMonotone | debug.c:49-51 | any number of raises keeps the mask valid and never lowers it |
| LogMask.Logging.constructor | debug.c:49 | the mask setlogmask(0) reads before anything set it is glibc's initial mask 0xFF, every priority enabled (an assumption about glibc, not stated in the source) |
| LogMask.Logging.SetLogMask | debug.c:49-51 | setlogmask returns the previous mask and changes it only for a non-zero argument |
| LogMask.Logging.InitLogging | debug.c:57-60 | initLogging sets the mask to LOG_UPTO(LOG_WARNING) = 0x1F |
| LogMask.Logging.RaiseVerbosity | debug.c:47-52 | raiseVerbosity stores the candidate (mask << 1) + 1 only if it is within LOG_UPTO(LOG_PRIMASK), and otherwise leaves the mask unchanged |
| Startup.Read | main.c:63-116 | defines what main does with the options still to read: the first stopping option decides the exit code; at the end, umin > umax gives 1 and otherwise the two ranges are installed and main serves |
| Startup.MainOutcome | main.c:55-116 | defines main's outcome: Read from the defaults port 14013, umin 1000 and umax 65533 |
| Startup.PortInRange | main.c:71-80 | defines the -p check: the long stored in an unsigned long must lie in 1..65535 |
| Startup.Stops | main.c:63-105 | defines the options that make main return: an unreadable or out-of-range port, an unreadable uid bound, --help and any unknown option |
| Startup.StopCode | main.c:97-105 | defines the code main returns for a stopping option: 0 for --help, 1 for every error |
| Startup.Apply | main.c:64-96 | defines the effect of the other options: -d adds a domain, -p, -i and -a store their value, -v changes no setting |
| Startup.Raises | main.c:65-67 | defines how many -v options main acts on: those before the first option that stops it |
| Startup.RunMain | main.c:55-116 | the option loop ends in exactly the outcome the option semantics give, and the log mask ends raised once per -v read |
| Startup.DefaultsServe | main.c:37-115 | with no options: port 14013 and the ranges [1000, 65533] and [65537, (uid_t)-1] |
| Startup.ServeShape | main.c:109-115 | whenever main goes on to serve, the port is in 1..65535 and exactly two ranges are installed, in order: [umin, umax] with umin <= umax, then [65537, (uid_t)-1] |
| Startup.PortOption | main.c:72-82 | -p is accepted exactly when its value, as an unsigned long, lies in 1..65535, and reading then goes on with that port whatever follows; otherwise main returns 1 |
| Startup.UidBounds | main.c:83-115 | umin > umax makes main return 1, and otherwise [umin, umax] is the first range installed |
| Startup.FirstStopDecides | main.c:63-107 | the first option that makes main return decides the exit code, and later options are never read |
| Startup.VerboseCount | main.c:66-68 | n -v options leave the mask at LOG_UPTO(min(LOG_WARNING + n, LOG_DEBUG)) |

## Left out

- Sockets: the systemd descriptor hand-off, `bind`, `listen` and the endless `accept` loop are OS I/O and are not modelled. `Session.ServeConnection` models one pass of the loop after `accept`.
- The descriptor that is not closed after a zero-byte read is not modelled. Neither is any `close`.
- Send failures are not modelled: `sendResponse` and the greeting `send` are taken to succeed. Only a failing `recv` is modelled, as the fatal outcome of a connection.
- `debugLog` and `vsyslog` produce log output only and are not modelled. `LogMask` keeps only the mask they consult.
- `userinfo.c` is not part of this model:
  - `included_uid` and `add_default_domain` are the abstract `Session.Host` fields `included` and `domain`;
  - `add_uid_range` is recorded as the ranges in `Startup.Outcome`;
  - `set_default_domain` is recorded as the sequence of domain arguments.
- `netinfo.h` is not part of this model. `UID_NOT_FOUND` is taken to be `(uid_t)-1`.
- The account database is a sequence of (uid, name) pairs in `getpwent` order. `getpwuid` is the first account with the uid.
- `getpwuid` returning NULL is dereferenced unchecked, which is undefined behaviour. An account for every found uid that passes `included_uid` is a precondition (`Session.Answerable`).
- `fopen`, `fgets` and `fclose` are not modelled. The table is the sequence of lines `fgets` delivers. A line longer than 1023 bytes reaches the model as the chunks `fgets` splits it into.
- A line with fewer than 2 tokens reached by the scan passes NULL to `strcmp`, and a matching line with fewer than 8 tokens passes NULL to `strtol`; both are undefined behaviour. That every line the scan reaches has a second field, and the matching one an eighth, is a precondition (`NetInfo.Scannable`).
- An empty or delimiter-only command leaves the verb NULL, which is undefined behaviour. A verb token is a precondition (`Session.Acceptable`).
- `sscanf` failures leave the octets and the port uninitialised. A well-formed dotted quad and a port starting with a digit are preconditions (`Session.Answerable`). Leading white space and a sign, which `sscanf` would accept, are not modelled.
- Octets above 255 are not validated by the code. `%hhu` truncation is modelled in `NetInfo.ParseOctets`.
- `NetInfo.Ipv4BindString`: the `bsize` truncation of `snprintf` is not modelled, because the callers' 32-byte buffer always holds the whole bind string (proved in `NetInfo.BindKeyShape`).
- A reply longer than 255 characters would be cut by `vsnprintf` while `n + 1` bytes are still sent, reading past the buffer. Only names that are actually sent must fit, each by the bound of its own line: a USERS line needs `|name| + 2 < 256` for every admitted account (`Session.UsersLineFits`, `Session.UsersFit`), and a lookup reply needs `|name| + 7 < 256` for the account found for an admitted uid (`Session.NameFits`, `Session.Answerable`). Both bounds are exact (`Session.FitsExactly`). Requests that format no name need nothing of the host.
- Host byte order is fixed to little-endian.
- `getopt_long`, `strtol` with base 0 and `errno` are not modelled. Each numeric option arrives as the long `strtol` returned, or as an error. `usage` and the messages printed to stderr are not modelled.
- `SocketServer(port)` is the end of `Startup.RunMain`: the model stops at the `Serve` outcome.
- IPv6 tables are named in the source but never used, and are not modelled.
