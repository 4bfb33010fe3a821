# FasterConfig, verified

A Dafny model of the three parts of FasterConfig that can be reasoned about
without its sockets: the DNS wire code of the client and of the spoofing server,
the text engine of the embedded HTTP server, and the loop that keeps the
redirect rules in step with the lock.

Each module follows one part of the source.

* `Bytes`, `Tokens`, `InPlace`: octets, C strings, big-endian words, `memcpy` at
  an offset, `strchr`/`strtok`, and text rewritten in place by a write cursor
  behind a read cursor.
* `DnsName`, `DnsMessage`: what names and messages mean under RFC 1035, as
  relations that know nothing of the code. `DnsDecode`, `DnsEncode`,
  `DnsServer`, `DnsReply`, `DnsClient`: the code, as buffer and cursor methods,
  and the theorems that tie it to these relations.
* `Sanitiser`, `Segments`, `RemoveDots`: the three in-place passes over a URL,
  the segment function they refine, and exactly when that agrees with
  `remove_dot_segments` of section 5.2.4 of RFC 3986.
* `Escape`, `Variables`, `Query`, `Url`: percent escaping, the two-dimensional
  chain of variables, the query parser, the request's URL in its field of 1024
  octets, and the round trip from pairs through a URL to the store.
* `Template`, `Base64`, `Reader`, `ContentTree`, `Acl`, `AclBlocks`: the template
  expander, Basic credentials, buffered lines, the directory tree, the CIDR list
  and its addresses as they are written.
* `Examples`: requests as they are written on the wire.
* `RedirectLoop`: the two flags of `Application::run` over every lock history.

Methods carry the source's loops over arrays and linked nodes and are proved
against specification functions; lemmas prove what those functions promise.
Octets are integers from 0 to 255, and every shift, mask and wrap-around is
written out as arithmetic. Input from sockets, the clock and the lock file are
parameters; a log of events stands for the iptables commands, and the sequence
returned by `FreeVariables` for the calls of `free`.

## What the proofs show about the code

* `DecodeDotStr` terminates exactly on the packets in which no pointer chain
  runs forever without passing a label (`TerminatesIffSettles`); pointers that
  go back are enough (`BackwardTerminates`), and a pointer to itself is not
  refused (`SelfPointerDiverges`, `SelfPointerExample`).
* A WINS reply is never a message of RFC 1035, because its record is not
  counted; every other reply is exactly one message (`ReplyParses`). The
  client's own flag test refuses all of them (`ServerReplyRejected`,
  `AcceptsOctets`).
* A run of `..` segments removes one segment only, and the last segment is never
  interpreted; `SanitiserFollowsRfcIff` states exactly which absolute paths come
  out as RFC 3986 asks once empty segments are collapsed.
* A `+` in a value comes back as a space, and a blank or a tab before a name is
  dropped: `QueryExactIff` and `UrlRoundTrip` state exactly when the store holds
  what was given (`TabExample` is an input that fails).
* A URL is cut to 1023 octets before its query is parsed, so that a long value is
  shortened (`LongValueExample`); `UrlExactIff` states for URLs of every length
  when the store holds the values given. A cut inside an escaped last octet can
  spare it: `%20` cut to `%2` still decodes to a space.
* The query is sanitised with the path: `/x?a=b//c` stores `b/c`
  (`SlashesExample`).
* A query piece without `=` can be stored under the end of an earlier name
  (`LeftoverExample`); `OwnNameIff` states exactly when it is not.
* The guards of `httpdOutput` miss substituted text, so that two values can run
  over the buffer (`GuardMisses`). `FitsIffWeight` states for every template and
  store when the text stays inside: the pieces, each at the length its guard
  leaves it, add up to less than HTTP_MAX_LEN. Where no guard can refuse a value
  that is exactly when the meaning is shorter than the limit (`FitsIffMeaning`).
* Shortening the loop of `_httpd_decode` does not make longer input fit:
  `StaysInsideIff` states exactly which input does.
* A line that reaches the limit puts its terminator behind the buffer;
  `LinesShortIff` states on which streams no line does.
* A failing `httpdAddAcl` leaves its caller with no list at all (`BuiltInOrder`).
* A phase of one tick leaves the redirect rules out of step with the lock
  (`OneTickExamples`); `FollowsIff` and `AlternatesIff` state exactly when they
  follow it and when redirect and destroy alternate.

## Model

| member | source | states |
|---|---|---|
| DnsName.ResolvesUnique | src/DNSLookup.cpp:307-347 | the octets at an offset expand to at most one list of labels, through one number of pointers |
| DnsName.DenotesOctets | src/DNSLookup.cpp:316-340 | a name octet by octet: 0 is the root, 1 to 63 count the octets of a label in front of the rest, and any other octet and the one behind it point to the offset in their lower fourteen bits |
| DnsName.PointerTo | src/DNSLookup.cpp:327-331 | the two octets 0xc000 + o denote what the name at offset o denotes, for every o below 0x4000 |
| DnsDecode.DecodeDotStr | src/DNSLookup.cpp:307-347 | whenever the recursion ends, the buffer holds exactly the decoded labels joined by dots with a terminator, nothing outside changes, and the octets up to the first terminator or pointer are reported as consumed, in 16 bits |
| DnsDecode.CopyLabels | src/DNSLookup.cpp:313-328 | the label loop copies each plain label with its dot and stops at a terminator, a pointer, or a label that does not fit |
| DnsDecode.PointerDecodes | src/DNSLookup.cpp:327-340 | at a pointer to offset o the recursion ends exactly when it does at o, with the same outcome |
| DnsDecode.DecodePointer | src/DNSLookup.cpp:327-340 | run at a pointer to offset o, the decoder leaves in its buffer what the name at o decodes to, and reports two octets as consumed |
| DnsDecode.DecodeExact | src/DNSLookup.cpp:307-347 | a name that expands to labels decodes to exactly these labels when the sum of (length + 1) fits the output budget, and fails otherwise |
| DnsDecode.DecodeUncompressed | src/DNSLookup.cpp:327-330 | without the packet start, decoding succeeds exactly on names without a pointer that fit |
| DnsDecode.DecodeSound | src/DNSLookup.cpp:307-347 | a terminating decode succeeds if and only if the name has a finite expansion that fits, and yields that expansion; a cycle through a label therefore ends in failure |
| DnsDecode.FuelIrrelevant | src/DNSLookup.cpp:307-347 | the outcome does not depend on the recursion bound used to state it |
| DnsDecode.TerminatesIffSettles | src/DNSLookup.cpp:317-340 | on a closed set of offsets, decoding terminates for every start and budget if and only if every pointer chain reaches something other than a pointer |
| DnsDecode.BackwardTerminates | src/DNSLookup.cpp:317-340 | decoding terminates on every packet whose pointers target offsets below their own |
| DnsDecode.SelfPointerDiverges | src/DNSLookup.cpp:327-340 | a pointer to itself is followed forever, so the hypothesis on pointers is needed |
| DnsDecode.SelfPointerExample | src/DNSLookup.cpp:327-340 | behind any twelve octets of header the pointer c0 0c sends the decoder into an endless recursion, for every budget |
| DnsDecode.LabelCycleRefused | src/DNSLookup.cpp:317-340 | a concrete cycle through a label ends in failure for every budget |
| DnsEncode.EncodeDomain | src/dnsserver.cpp:416-447 | writes each piece between dots behind its length octet and a final zero octet, input length + 2 octets in all |
| DnsEncode.EncodeDotStr | src/DNSLookup.cpp:269-298 | writes the non-empty pieces the same way, and fails exactly when the name does not fit |
| DnsEncode.EncodersAgree | src/DNSLookup.cpp:269-298 | on names without empty labels both encoders emit the same octets |
| DnsEncode.EncodedSplitLength | src/dnsserver.cpp:416-447 | the server's encoding always has input length + 2 octets |
| DnsEncode.EncodedTokensLength | src/DNSLookup.cpp:269-298 | the client's encoding never exceeds input length + 2 octets |
| DnsEncode.LabelOctets | src/dnsserver.cpp:427-433 | a label stands behind one octet with its length, which wraps from 256 on |
| DnsEncode.DomainRoundTrip | src/dnsserver.cpp:416-447 | decoding the server's encoding anywhere in a packet terminates and gives the name back whenever there is room |
| DnsEncode.DotStrRoundTrip | src/DNSLookup.cpp:269-298 | decoding the client's encoding anywhere in a packet terminates and gives the name with its redundant dots removed |
| DnsMessage.MessageUnique | src/dnsserver.cpp:139-173 | octets are at most one message of section 4.1 of RFC 1035, so that parsing a reply has one answer |
| DnsServer.PrepareA | src/dnsserver.cpp:191-227 | the record is laid out octet by octet as pointer, type, class, TTL, RDLENGTH 4 and the address |
| DnsServer.PrepareMx | src/dnsserver.cpp:228-275 | MX record for the mail subdomain and its address record, with compressed names |
| DnsServer.PrepareSrv | src/dnsserver.cpp:309-367 | SRV record for the srv subdomain and its address record |
| DnsServer.PrepareSoa | src/dnsserver.cpp:368-402 | SOA record naming ns1 and abuse, with its five timers |
| DnsServer.Prepare | src/dnsserver.cpp:127-164 | the dispatch on the query type and the three counters; WINS bumps none |
| DnsServer.EncodeHeader | src/dnsserver.cpp:403-415 | six big-endian words through a moving cursor |
| DnsServer.AdmittedOctets | src/dnsserver.cpp:121-139 | the tests on a query, octet by octet: QR and opcode clear, one question, no answer, class 1 |
| DnsServer.ReplyStarts | src/dnsserver.cpp:409-411 | every reply starts with the identifier it is given, the flags 0x8400 and one question |
| DnsServer.AddressReplyOctets | src/dnsserver.cpp:140-173 | every octet of the reply to a query of type 1, 12, 16 or 28, around the encoded name |
| DnsServer.AnswerAddress | src/dnsserver.cpp:92-173 | an ordinary query of one of these types, given by its octets, is answered with its own identifier and question and with one address |
| DnsServer.Answer | src/dnsserver.cpp:92-173 | a query is answered exactly when it passes the class, opcode and count tests; the buffer then is the reply followed by zeros, under the identifier of the query and the flags 0x8400 |
| DnsReply.ReplyParses | src/dnsserver.cpp:139-173 | for every name of non-empty labels of at most 63 octets, the reply carries its identifier and the flags 0x8400 and parses as a message exactly when the type is not WINS, and then as one question and the counted records with matching RDLENGTH, nothing left over, and names that decompress to the query name or its mail, srv, ns1 or abuse subdomain |
| DnsReply.ReplyNumbers | src/dnsserver.cpp:139-402 | what the message says, in numbers: which types get an address, a mail exchange, a service or a start of authority, with type, class, TTL and RDLENGTH of every record and the octets of its data |
| DnsReply.WinsReply | src/dnsserver.cpp:276-308 | the WINS reply carries a record that the header does not count, and is no message |
| DnsClient.SkipQuestions | src/DNSLookup.cpp:210-216 | the question loop passes exactly uncompressed names that fit, and ends behind the last question |
| DnsClient.ReadRecord | src/DNSLookup.cpp:219-242 | one record yields its address or its decompressed target by type, and is skipped by RDLENGTH |
| DnsClient.ReadRecords | src/DNSLookup.cpp:219-242 | the answer loop returns the addresses and the targets, each in message order |
| DnsClient.WalkResponse | src/DNSLookup.cpp:208-242 | on every message with readable records the walk succeeds exactly when the names it decodes fit, and returns exactly the A addresses and the CNAME targets in message order: the j-th name is the target of the j-th CNAME record with dots between its labels, the j-th address the first four octets of the j-th A record, and there are no others |
| DnsClient.NamesAreListed | src/DNSLookup.cpp:234-238 | one name for each CNAME record, by index: its target, not its owner |
| DnsClient.AddressesAreListed | src/DNSLookup.cpp:231-233 | one address for each A record, by index: the octets of its data |
| DnsClient.AcceptsOctets | src/DNSLookup.cpp:204-207 | the header test octet by octet: the identifier, the four flag words it lets through, and an answer |
| DnsClient.ServerReplyRejected | src/DNSLookup.cpp:204-207 | the header test refuses every reply of the server, whatever the identifier |
| DnsClient.ServerReplyWalks | src/DNSLookup.cpp:208-242 | past the header test, the walk over the server's address reply meets every precondition, size included; its sections hold exactly the spoof address, and the walk passes them exactly when the name and a terminator fit 128 octets |
| DnsClient.WalkServerReply | src/DNSLookup.cpp:208-242 | the walk run on the server's address reply succeeds exactly when the name and a terminator fit 128 octets, and then returns exactly the spoof address and no name |
| Sanitiser.CollapseSlashes | src/httpd.cpp:941-953 | the first pass leaves in place the text without empty segments |
| Sanitiser.DropDots | src/httpd.cpp:955-968 | the second pass leaves in place the text without `.` segments |
| Sanitiser.PopSegments | src/httpd.cpp:970-990 | the third pass leaves in place the text from which each `..` run has taken what stood behind the last slash |
| Sanitiser.SanitiseUrl | src/httpd.cpp:938-990 | the three passes in place never write beyond the text they read |
| Segments.SanitiserRefines | src/httpd.cpp:938-990 | the character passes equal a function on segments: drop the empty and `.` ones, let each maximal run of `..` take one segment, interpret neither the first nor the last |
| Segments.SanitisedClean | src/httpd.cpp:938-990 | the result has no `//`, no `/./` and no `/../` at any position |
| Segments.SanitisedTwice | src/httpd.cpp:938-990 | sanitising twice is sanitising once |
| Segments.SanitisedKeepsEnd | src/httpd.cpp:938-990 | a tail without slashes passes unchanged |
| RemoveDots.SanitiserFollowsRfcIff | src/httpd.cpp:975-989 | on every absolute path, with its slashes collapsed, the sanitiser gives the result of section 5.2.4 of RFC 3986 if and only if no `..` directly behind another one finds a segment to give up and the last segment is no dot segment |
| RemoveDots.SanitiserFollowsRfc | src/httpd.cpp:975-989 | in particular when no two `..` are adjacent after `.` removal and the last segment is no dot segment |
| RemoveDots.AdjacentRunExample | src/httpd.cpp:938-990 | `//a/./b/../../c`, with any names for a, b and c, is sanitised to `/a/c`, where section 5.2.4 of RFC 3986 gives `/c` |
| Escape.EscapeText | src/httpd.cpp:1415-1441 | the result fills its allocation exactly: input length, two more per octet that is escaped, and the terminator |
| Escape.UrlEncode | src/httpd.cpp:1401-1414 | the loop that turns spaces into pluses changes nothing |
| Escape.EscapedSafe | src/httpd.cpp:1415-1441 | the output has no NUL, `&`, `=`, `/`, `?` or space |
| Escape.EscapedSpaced | src/httpd.cpp:1406-1412 | turning spaces into pluses is the identity on escaped text |
| Escape.UnescapeText | src/httpd.cpp:1045-1068 | decoding in place leaves the unescaped text and its terminator, also for a `%` cut off by the end, and changes nothing outside |
| Escape.EscapeRoundTrip | src/httpd.cpp:1045-1071 | unescaping an escaped text turns each plus into a space, and gives the text back if and only if it has no plus |
| Escape.UnescapeReads | src/httpd.cpp:1045-1071 | every coding of a text, whichever octets are coded and in whichever case of their digits, unescapes to the text |
| Escape.AnyCaseRoundTrip | src/httpd.cpp:1069-1071 | an escaped text with any mix of cases unescapes to the text with its pluses as spaces |
| Escape.EscapedOctet | src/httpd.cpp:41-57 | letters, digits and thirteen signs pass unescaped; every other octet becomes a percent sign and two capital digits |
| Escape.CutCodes | src/httpd.cpp:1050-1054 | `%2` at the end decodes to a space, and a lone `%` stays |
| Variables.AddKeeps | src/httpd.cpp:559-590 | an add keeps names distinct, appends to the values of its own name and to no other, and moves no binding |
| Variables.StoreIsMultimap | src/httpd.cpp:559-590 | after any sequence of adds each name has exactly the values added under it, in order of insertion |
| Variables.NamesInOrder | src/httpd.cpp:559-590 | the top chain holds the names in order of their first insertion |
| Variables.Request.AddVariable | src/httpd.cpp:559-590 | the chains of nodes represent the store with the stripped name and the value added; every node keeps one place |
| Variables.Request.GetVariableByName | src/httpd.cpp:547-557 | finds the node of the first value added under the name, or none if there is none |
| Variables.Request.FreeVariables | src/httpd.cpp:751-766 | releases the last variable first and each chain of values in order |
| Variables.ReleasedOnce | src/httpd.cpp:751-766 | that order has every node of the store exactly once, and nothing else |
| Variables.ReleasedAt | src/httpd.cpp:751-766 | the place of every node in that order: behind all values of later variables and the earlier values of its own |
| Query.StoreData | src/httpd.cpp:992-1044 | the in-place parser adds exactly the pairs of the query to the store, in order, and leaves what stands before the query alone |
| Query.StoresPieces | src/httpd.cpp:992-1044 | the character loop cuts the query at its ampersands: name up to the first `=`, value behind the last one, no name terminator without `=`, no pair for a last piece without `=` |
| Query.OwnNameIff | src/httpd.cpp:992-1044 | every piece but a last one without `=` is stored with its value, and under its own name if and only if it has an `=`, or the last earlier piece that reaches behind it in the name buffer ends its name exactly there, or none does |
| Query.LeftoverExample | src/httpd.cpp:1010-1023 | `abc=1&x&` stores its second piece under `xbc` |
| Query.QueryRoundTrip | src/httpd.cpp:992-1044 | the query built from pairs with escaped values hands on exactly these pairs, in order, with each plus in a value turned into a space; the store then has under each name the values sent under the names that equal it without leading blanks |
| Query.QueryExactIff | src/httpd.cpp:559-590 | the pairs handed on are those given if and only if no value has a plus; the store has under every name exactly the values given under it if and only if also no name starts with a space or tab, and has exactly the names given, in order of first use, if and only if no name does |
| Query.CodedRoundTrip | src/httpd.cpp:992-1071 | a query whose values are coded in any way, in any case, hands on and stores exactly the names and values, in order |
| Query.LastValueStores | src/httpd.cpp:992-1030 | a value with `=` signs in it stores what is behind the last one |
| Query.TabExample | src/httpd.cpp:562 | a name with a leading tab or space has no value in the store, although its pair is handed on unchanged |
| Url.StoreUrl | src/httpd.cpp:814-879 | copying a URL of any length into its field, sanitising the copy, cutting it at the first `?` and storing what is behind adds exactly the pairs of the copy's first 1023 octets and leaves the sanitised path |
| Url.UrlRoundTrip | src/httpd.cpp:814-879 | behind any path without `?`, a query with slash-free names passes the sanitiser unchanged where the URL is shorter than HTTP_MAX_URL; the store then has under every name exactly the values given, if and only if no name starts with a space or tab and no value has a plus, and the names given if and only if no name does |
| Url.UrlExactIff | src/httpd.cpp:814-879 | for URLs of every length, the store has under every name exactly the values given if and only if no name starts with a space or tab, no value has a plus, and what the copy loses is nothing, or the last digit of an escaped last octet that is a multiple of 16, or both digits of one that decodes to itself; the names stored are those of the first items |
| Url.CodeKeptIff | src/httpd.cpp:1045-1068 | an escaped value that has lost octets at its end decodes to the value exactly under that condition |
| Url.LongValueExample | src/httpd.cpp:814-815 | a single value of 1020 octets or more behind `/?a=` is not what the store has |
| Examples.QueryExample | src/httpd.cpp:992-1071 | `next=%2fhome&q=x=a+b` hands on `/home` under `next` and `a b` under `q` |
| Examples.UrlExample | src/httpd.cpp:814-879 | behind `/x?` these are the pairs stored for the URL |
| Examples.SlashesExample | src/httpd.cpp:814-879 | `/x?a=b//c` stores `b/c`, as the query is sanitised with the path |
| Template.TemplatesArePieces | src/httpd.cpp:458-473 | every text reads as one canonical list of characters and maximal `$identifier`s, and no other such list renders to it |
| Template.ExpandIsMeaning | src/httpd.cpp:458-488 | the loop writes each identifier's first value, leaves unknown identifiers verbatim, and never reads substituted text again |
| Template.GuardedIsMeaningIff | src/httpd.cpp:458-488 | what the guarded loop writes is shorter than HTTP_MAX_LEN and is the meaning of the template, if and only if the meaning is shorter than HTTP_MAX_LEN |
| Template.FitsIffWeight | src/httpd.cpp:458-488 | for every template and store, what the guarded loop writes is shorter than HTTP_MAX_LEN if and only if the pieces, with the values their guards admit and the others verbatim, add up to less |
| Template.FitsIffMeaning | src/httpd.cpp:474-477 | where each value and the template together are shorter than the limit, what is written is shorter than it if and only if the meaning is |
| Template.GuardMisses | src/httpd.cpp:474-477 | two values of 6000 characters pass the guards, and together exceed the buffer |
| Template.GuardExact | src/httpd.cpp:474-486 | text and then a reference: the value is written if both together are shorter than 10240 octets, else the reference stays |
| Examples.NodeExample | src/httpd.cpp:458-488 | `<$nodeID,$node_1>` with the values `123` and `4` for `nodeID` and none for `node_1` expands to `<123,$node_1>` |
| Template.Output | src/httpd.cpp:449-492 | where the weight of the pieces is below HTTP_MAX_LEN, no write leaves the buffer; what is sent is what the guarded loop writes, which is the meaning of the template if and only if that is shorter than HTTP_MAX_LEN; the final `count` is its length less what was substituted |
| Base64.BuildTable | src/httpd.cpp:1125-1131 | the table inverts the alphabet and marks every other octet |
| Base64.AlphabetIs | src/httpd.cpp:1100-1106 | the values of the 64 characters are those of table 1 of RFC 4648 |
| Base64.GroupBits | src/httpd.cpp:1151-1158 | three octets have the 24 bits of four characters, in order |
| Base64.DecodeGroups | src/httpd.cpp:1151-1158 | each four characters give three octets by shifts and ors |
| Base64.Decode | src/httpd.cpp:1098-1167 | the buffer holds the decoded octets and a terminator behind them, and their number is returned, for input of any length mod 4 |
| Base64.DecodeEncode | src/httpd.cpp:1133-1167 | decoding the padded encoding of section 4 of RFC 4648 gives exactly the octets and their number for all three residues, behind any blanks |
| Base64.StaysInsideIff | src/httpd.cpp:1143-1166 | what the loop writes and the terminator stay inside the output buffer if and only if the input fits it, although the source reads less of an input that does not |
| Base64.EncodingFits | src/httpd.cpp:1147-1150 | an encoding fits the output buffer if and only if its whole groups do and a terminator has room behind the data |
| Base64.Authorise | src/httpd.cpp:838-853 | the credentials are the decoded text up to its first NUL, cut at its first colon |
| Base64.CredentialsRoundTrip | src/httpd.cpp:838-853 | every user without a colon and every password that fit the buffer are recovered, as section 2 of RFC 7617 asks |
| Examples.AladdinExample | src/httpd.cpp:838-853 | the credentials of section 2 of RFC 7617 are `Aladdin` and `open sesame` |
| Reader.Connection.ReadChar | src/httpd.cpp:908-920 | takes one octet off what is pending, wherever it is buffered, and fails exactly at the end of input |
| Reader.Connection.ReadLine | src/httpd.cpp:884-907 | the line and what remains depend on the pending octets only, not on how they were delivered, whenever the buffer holds the line and a terminator |
| Reader.ReadStream | src/httpd.cpp:776-790 | for every split of a stream into reads the lines are those of the flat stream |
| Reader.LinesAreFlatIff | src/httpd.cpp:884-907 | dropping CRs, ending at LF or a non-ASCII octet and discarding the tail describes the lines if and only if each is shorter than the limit |
| Reader.WrittenLines | src/httpd.cpp:884-907 | lines shorter than the limit, each in front of an LF, a CR LF or an octet from 128 on, are read one by one without these |
| Reader.LinesShortIff | src/httpd.cpp:884-907 | every line and its terminator fit a buffer of `len` octets if and only if no line of the stream reaches the limit |
| Reader.ReadStreamWithin | src/httpd.cpp:776-790 | on such streams, however they are split, a buffer of exactly `len` octets is enough and the lines are those of the flat stream without its CRs |
| ContentTree.FindContentEntry | src/httpd.cpp:1217-1229 | finds the first entry of the chain that matches, and records it in the response |
| ContentTree.MostRecentWins | src/httpd.cpp:352-370 | over any sequence of registrations in any directories, a lookup finds the last one made for the same names that serves the entry name |
| ContentTree.NoneFound | src/httpd.cpp:1217-1229 | the lookup comes back empty if and only if no registration for these names serves the entry name |
| ContentTree.EntryFound | src/httpd.cpp:1217-1229 | with the wildcards as kinds 5 and 6, the entry found has the name, kind, flag and handler of that last registration |
| ContentTree.Server.AddAll | src/httpd.cpp:352-370 | after any sequence of `httpdAddCContent` calls each directory offers exactly the entries registered for its names, the last one first, and exactly the prefixes of the paths exist |
| ContentTree.Server.Lookup | src/httpd.cpp:372-405 | looking up a path and an entry name then finds the first match in that chain, changes nothing, and records what it found |
| ContentTree.PathOf | src/httpd.cpp:372-405 | a path below 1024 octets leads along the names behind its slashes, with and without the first one |
| ContentTree.PathCut | src/httpd.cpp:378-379 | of a longer path the first 1023 octets count |
| ContentTree.ServeLast | src/httpd.cpp:352-405 | on a server built by any registrations, a lookup by path and name finds the last registration of that name at that path and records it |
| ContentTree.WalkInjective | src/httpd.cpp:372-405 | different lists of names lead to different directories |
| ContentTree.PutWalk | src/httpd.cpp:387-398 | creating a directory makes exactly its own path findable and changes no other lookup |
| ContentTree.Server.FindContentDir | src/httpd.cpp:372-405 | the lookup depends only on the non-empty pieces of the path; with creation it returns the directory of that path, keeps every earlier successful lookup and every directory's entries, and adds the prefixes of the path only |
| ContentTree.Server.AddCContent | src/httpd.cpp:352-370 | the entry heads the chain of its directory, which is found by its path, and no other chain changes |
| Acl.ScanPrinted | src/httpd.cpp:596-633 | scanning a printed a.b.c.d/len gives the address and the length, and fails exactly when a field is above 255 or the length above 32 |
| Acl.ScanPrintedHost | src/httpd.cpp:596-633 | without a length, it gives 32 |
| Acl.TooFewFields | src/httpd.cpp:603-617 | a text with fewer than three dots is refused |
| AclBlocks.AtoiSigned | src/httpd.cpp:602-624 | leading blanks are skipped and one sign is read, as `atoi` does |
| AclBlocks.MatchingPrinted | src/httpd.cpp:596-662 | a printed rule matches a printed client if and only if the client's length is no shorter and the octets and the further bits that the rule's length covers are equal |
| AclBlocks.CheckBlock | src/httpd.cpp:596-734 | a client checked against one printed rule is permitted, 1, exactly when the rule permits and matches in that sense, else denied, 2 |
| AclBlocks.PrintedExample | src/httpd.cpp:596-633 | `10.0.0.0/8` and `10.1.2.3` are such printed texts |
| Acl.AndMask | src/httpd.cpp:650-657 | the mask keeps exactly the leading bits of a word |
| Acl.IsInCidrBlock | src/httpd.cpp:635-662 | true exactly when the second length is no shorter and both addresses agree after division by 2^(32 - len1) |
| Acl.AddAcl | src/httpd.cpp:666-707 | appends the scanned rule to the linked list, or returns no list on a bad address or action |
| Acl.BuiltInOrder | src/httpd.cpp:666-707 | a list built by calls holds the rules of the calls behind the last failing one, in insertion order |
| Acl.CheckAcl | src/httpd.cpp:709-734 | the action of the first matching rule in insertion order, else deny |
| Acl.AddAll | src/httpd.cpp:666-707 | any sequence of calls, each given the list of the one before, leaves exactly that list in linked nodes |
| Acl.CheckAll | src/httpd.cpp:709-734 | a client checked against what the calls have built gets the action of the first matching rule of that list, else deny |
| RedirectLoop.Application.Step | src/application.cpp:97-116 | the two tests and the two commands of a tick |
| RedirectLoop.Application.Run | src/application.cpp:69-118 | the flags and the commands after any lock history |
| RedirectLoop.NeverBothClear | src/application.cpp:75-116 | the flags are never both 0 |
| RedirectLoop.OneEventPerPhase | src/application.cpp:97-116 | a phase of constant lock issues at most one command |
| RedirectLoop.FollowsIff | src/application.cpp:97-116 | the rules are in place after each tick exactly when it was locked, if and only if every completed phase but a leading unlocked one lasts two ticks |
| RedirectLoop.AlternatesIff | src/application.cpp:97-116 | redirect and destroy strictly alternate if and only if the phases completed before the last change do, and so on every such history |
| RedirectLoop.OneTickExamples | src/application.cpp:97-116 | one locked or one unlocked tick leaves the rules out of step and repeats a command |

## Left out

- Sockets, select, threads, file reading, the ARP table, logging, time formatting and the iptables shell commands.
- `dn_expand`: its result is a parameter, a dotted name of at most 255 octets without escapes; the root name, which `encode_domain` writes as two zero octets, is not well formed here.
- The waiting loop and the time-outs of `RecvDNSResponse`; its header test is `DnsClient.Accepts`.
- DnsDecode.CopyLabels: requires, like its caller, that the recursion it is part of ends.
- DnsEncode.EncodeDotStr: requires a name shorter than 65536 octets, where the source's USHORT length would wrap.
- DnsServer.Answer: requires the name and the length that `dn_expand` gives on success; on failure the source goes on with a length of -1 and an undefined name.
- DnsClient.SkipQuestions: requires questions that parse and are not root, as the source writes in front of its buffer for a root name.
- DnsClient.ReadRecord: requires a record that parses, an owner that is not root, and a CNAME target that resolves where names are asked for.
- DnsClient.ReadRecords: requires the same of every record.
- DnsDecode.DecodeDotStr: requires a label before a root name, because the source then writes in front of its output buffer, and a recursion that ends; where it does not end is what `TerminatesIffSettles` states.
- DnsClient.WalkResponse: requires that the sections parse and that no name is root; what the source does with octets that are no message is not modelled.
- Names of 65536 octets and more, where the source's USHORT lengths wrap; `DecodeDotStr` reports its length in 16 bits, the walk is stated for packets below that size.
- The unused `Query`, `Response`, `Resolver` and `Message` classes.
- Routing in `httpdProcessRequest`, which resolves every request in the root directory; the tree operations are modelled themselves.
- Request methods, headers other than Basic authorisation, error pages, MIME types, file and static content, redirects.
- A request whose reads end with an error code instead of 0, after which `_httpd_readChar` would go on with a negative count.
- Reader.Connection.ReadLine: requires a buffer that holds the line and its terminator; the source passes the limit as the size of its buffer, which is enough exactly on the streams of `LinesShortIff`.
- Template.Output: requires that the weight of the pieces is below the buffer's size, which `FitsIffWeight` shows to be exactly when no write leaves it; also identifiers below 80 characters and first values that are C strings, as the source's fixed buffer and `strlen` do. The response length and the headers are not modelled.
- Base64.Decode: requires input that fits the output buffer, which `StaysInsideIff` shows to be what the source needs. Characters are octets, where the source indexes its table with a signed char.
- Base64.Authorise: requires credentials that fit its buffer of a hundred octets, for the same reason.
- ContentTree.Server.FindContentDir: entries are values in a chain, since the source never changes one once it is chained; the two nodes the source allocates and drops at each call are not, nor is the preload callback of an entry.
- Acl.IsInCidrBlock: for length 0 the source shifts by 32, which C leaves undefined; the model takes the shifted mask to be 0. Numbers beyond a 64-bit `strtol` are taken modulo 2^32 like smaller ones. The 403 page and the log are left out.
- Variables.Request.FreeVariables: the pointer to the freed chain that stays in the request is not followed further.
- Null pointers as arguments, and failing allocation.
