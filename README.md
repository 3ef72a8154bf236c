# SimpleDNS resolver core in Dafny

This project models the decision logic of SimpleDNS, a recursive DNS resolver written in Java. The resolver takes a client query and works through the name server hierarchy from the root, in the manner of section 5.3.3 of RFC 1034. It can also tag A answers with a TXT record that names a zone (for example the cloud region an address belongs to). It reads the zones from a file of `prefix/len,label` lines.

The model covers these parts of the resolver:

- **`isMatch`** (module `PrefixMatch`). The bit-by-bit CIDR prefix comparison of two raw addresses. It is proved equal to comparing whole bytes plus a masked partial byte, which is the prefix semantics of section 3.1 of RFC 4632.
  - When all bits of the shorter address agree and the prefix length reaches its width, the source reads one byte past the end of the address. This happens with a /32 on two equal IPv4 addresses, and the model gives it as an `IndexOutOfBounds` error.
- **`formcsvMap` line parsing** (module `ZoneTable`). It fills the zone map and the list of prefix lengths.
  - A line with no ',', or with no '/' before its first ',', throws before anything is stored.
  - A bad length throws after the map entry has been stored.
  - A repeated prefix overwrites its label but still appends a length.
- **`addTXTRecords`** (module `TxtRecords`). It walks the answer list while appending to it.
  - Each A record gets at most one TXT record, from the first zone entry that matches. The first match wins, not the longest prefix.
  - The j-th entry of the map's iteration order is paired with the j-th prefix length.
- **The list loops of one resolution pass** (module `Sections`):
  - the useful-authority scan;
  - the referral search over authority and additional records;
  - the in-place filter loops, which skip the record after each removal;
  - the insertion of the CNAME chain at index 0, which lists it newest first.
- **One pass of the `while(!resolved)` loop** (module `Resolution`). It is a function `Transition` from the remembered state and the decoded reply to the next state and an action: send a query (to the root or to a name server), reply to the client, or fail with an exception. The class `Resolution.Resolver` keeps the loop's local state and runs one pass in `Step`, which is proved equal to `Transition`.
  - The remembered authority and additional sections are references to list objects (`Sections.RecordList`), as in the source. A remembered list that is the very list the no-referral reply filters in place is filtered along with it. `ResolutionFacts.NoReferralReplyFor` states what follows: a non-empty additional section that the filter empties leaves the reply's additional section empty, rather than falling back to an older list.
- **The header-flag setters** (module `HeaderFlags`) and **`DNSRdataText`** (module `RdataText`).

The other code the resolver calls is treated as follows:

- **Exceptions.** The Java exceptions the modelled code can raise are outcomes `Err(fault)` of type `Outcome.Result`: class casts of record data, index errors, unknown hosts and number formats.
- **Text and address conversion.** `InetAddress.getByName` and `DNSRdataAddress.toString` are the two functions of a `HostEnv` parameter.
- **Zone map order.** The iteration order of the zone `HashMap` is a parameter: the sequence of `ZoneEntry` values.
- **The wire codec.** `DNS.deserialize` is not part of this model. A reply is given as the decoded `Packet.Message`, and a query the resolver builds is sent as the message itself (`Resolution.Payload.Encoded`).

## Model

| member | source | states |
|---|---|---|
| PrefixMatch.IsMatch | src/SimpleDNS.java:350-381 | converts both address texts, failing with UnknownHost when one does not convert, then gives exactly the prefix comparison `MatchOutcome` of the two byte arrays |
| PrefixMatch.CompareBits | src/SimpleDNS.java:352-380 | the counting loop over `count`, `check1`, `check2` and `bmask` returns true iff the first `netmask` bits agree, most significant bit first; it fails with IndexOutOfBounds on an empty array or when every compared bit agrees and `count` reaches the common width |
| PrefixMatch.AgreeIffMaskedPrefix | src/SimpleDNS.java:360-380 | agreement on the first n bits is the same as equal leading whole bytes plus an equal masked partial byte (section 3.1 of RFC 4632) |
| PrefixMatch.ZeroPrefixMatches | src/SimpleDNS.java:360-380 | a prefix length of 0 always matches |
| PrefixMatch.MatchSymmetric | src/SimpleDNS.java:350-381 | the comparison gives the same outcome with the two addresses swapped |
| PrefixMatch.Ipv4FullPrefixOverruns | src/SimpleDNS.java:363-368 | for two 4-byte addresses the comparison fails exactly when the prefix length is at least 32 and the addresses are equal |
| PrefixMatch.MixedFamilyMatch | src/SimpleDNS.java:350-381 | addresses of different lengths are compared over their common bits: the IPv4 address 32.1.13.184 matches the IPv6 prefix 2001:db8::/16 |
| ZoneTable.ParseInt | src/SimpleDNS.java:299 | `Integer.parseInt` on ASCII digits: a result is a signed decimal of at least one digit '0' to '9' in the 32-bit range; every failure is NumberFormat |
| ZoneTable.ParseIntOfDecimalText | src/SimpleDNS.java:299 | the decimal text of every int from 0 to 2^31-1 parses back to that int |
| ZoneTable.WellFormedLine | src/SimpleDNS.java:293-299 | the line `prefix/len,zone` stores zone under prefix and appends the parsed length; the zone is everything after the first ',' |
| ZoneTable.MalformedLineChangesNothing | src/SimpleDNS.java:294-298 | a line without ',' or without '/' before its first ',' throws IndexOutOfBounds and changes neither structure |
| ZoneTable.LoadCounts | src/SimpleDNS.java:292-300 | after a load without exception there is one length per line, the old lengths are a prefix of the new ones, and there are at most as many new map keys as lines |
| ZoneTable.RepeatedPrefixOverwrites | src/SimpleDNS.java:298-299 | a line whose prefix is already a key keeps the key set, overwrites that zone, and still appends a length |
| ZoneTable.ZoneMapLoader.FormCsvMap | src/SimpleDNS.java:285-302 | the loader's map and list after the lines are those of `LoadLines`, which processes the lines in order and stops at the first exception, keeping what that line stored |
| TxtRecords.FindZone | src/SimpleDNS.java:321-342 | the inner iterator loop gives the first matching zone from the start of the iteration order, fails with IndexOutOfBounds when there are fewer lengths than entries, and passes on an exception from `isMatch` |
| TxtRecords.ZoneFromIsFirstMatch | src/SimpleDNS.java:326-341 | the loop finds zone z iff some entry with zone z matches and every earlier entry answered "no match" |
| TxtRecords.TxtForShape | src/SimpleDNS.java:313-341 | one answer yields at most one TXT record, and one exactly when it is an A record some zone entry matches; that record has the answer's name, TTL 3600 and the text `label-ip` with the label of the first matching entry |
| TxtRecords.TxtsForShape | src/SimpleDNS.java:313-343 | the TXT records appended follow, in answer order, exactly the answers that are A records some zone entry matches, one for each (their positions strictly increase), each named after its answer with TTL 3600 and the text `label-ip` of the first matching entry |
| TxtRecords.NoAddressNoTxt | src/SimpleDNS.java:314-316 | an answer list without A records gets no TXT record |
| TxtRecords.TxtsForFaultPersists | src/SimpleDNS.java:319-328 | an exception raised for the first n answers is the outcome for the whole list |
| TxtRecords.AddTxtRecords | src/SimpleDNS.java:308-344 | the walk over the growing list appends the TXT records `Augmented` describes after the unchanged answers, or fails with the first cast or match exception; it ends because the records it appends are not type A |
| TxtRecords.FirstEntryWinsExample | src/SimpleDNS.java:328-339 | with 10.0.0.0/8 listed before 10.1.0.0/16, 10.1.2.3 gets the TXT text of the /8 entry, "A-10.1.2.3" |
| Sections.ContainsUseful | src/SimpleDNS.java:97-116 | the scan returns true iff the authority list holds an A, AAAA, NS or CNAME record |
| Sections.FilterInPlace | src/SimpleDNS.java:171-180 | the `remove(i)` loop leaves exactly `SkipFilter` of the list: each record that is not useful is removed, and the record moving into its place is not tested |
| Sections.SkipFilterKeepsUseful | src/SimpleDNS.java:171-180 | the filter removes no useful record: the useful records of the result are those of the input, in order |
| Sections.SkipFilterShrinks | src/SimpleDNS.java:171-180 | the filter's result is no longer than its input, and everything in it was in the input |
| Sections.SkipFilterKeepsNonEmpty | src/SimpleDNS.java:171-187 | a list with a useful record is not emptied by the filter, so it is never replaced by the remembered list |
| Sections.SkipFilterExactWithoutRuns | src/SimpleDNS.java:171-180 | without two records side by side that are not useful, the filter removes exactly the records that are not useful |
| Sections.SkipFilterMissesSecondOfPair | src/SimpleDNS.java:171-175 | of two records side by side that are not useful (two SOA records, say), the second survives the filter |
| Sections.NewestFirstReverses | src/SimpleDNS.java:166-168 | the chain as inserted at index 0 holds the CNAMEs in reverse order of arrival |
| Sections.PrependCnames | src/SimpleDNS.java:249-251 | the `add(0, ...)` loop puts the chain, newest first, ahead of the list's old records |
| Sections.FindNextServer | src/SimpleDNS.java:128-155 | the nested loops and the cast after them give `Referral`: the address of the first glue record found, no address, or ClassCast |
| Sections.GlueFromIsFirst | src/SimpleDNS.java:136-144 | the inner loop finds record a iff a is glue for the NS record and no earlier additional record is |
| Sections.GlueFromNone | src/SimpleDNS.java:136-144 | the inner loop finds nothing iff no additional record is glue for the authority record |
| Sections.ReferralIsFirstPair | src/SimpleDNS.java:132-149 | the search picks additional record a iff a is the glue half of the first (authority, additional) pair in list order, authority first |
| Sections.NoAdditionalNoReferral | src/SimpleDNS.java:136 | with an empty additional section there is no referral |
| Sections.CastBeforeTypeTest | src/SimpleDNS.java:137-139 | a first authority record whose data is not a name throws ClassCast when the additional section is not empty, even if it is not an NS record |
| HeaderFlags.RequestFlags | src/SimpleDNS.java:384-392 | QR=1, opcode 0, TC=0, RD=1, AD=0; the other header fields are kept |
| HeaderFlags.ReplyFlags | src/SimpleDNS.java:394-408 | QR=0, opcode 0, AA=0, TC=0, RA=1, RD=1, AD=0, CD=0, rcode 0 |
| HeaderFlags.ReplyFlagsOverwriteAll | src/SimpleDNS.java:394-408 | the reply header does not depend on the header it overwrites |
| HeaderFlags.RequestFlagsIdempotent | src/SimpleDNS.java:384-392 | setting the request flags twice is the same as setting them once |
| HeaderFlags.SetDnsRequestFlags | src/SimpleDNS.java:384-392 | the message after the call is the old one with `RequestFlags` of its header |
| HeaderFlags.SetDnsReplyFlags | src/SimpleDNS.java:394-408 | the message after the call is the old one with `ReplyFlags` of its header |
| RdataText.DnsRdataText.Empty | src/packet/DNSRdataText.java:7-8 | the no-argument constructor gives empty text and a length of 1 |
| RdataText.DnsRdataText.constructor | src/packet/DNSRdataText.java:10-14 | the text given is what `getText` and `toString` return |
| RdataText.DnsRdataText.GetText | src/packet/DNSRdataText.java:13-14 | returns the stored text |
| RdataText.DnsRdataText.SetText | src/packet/DNSRdataText.java:16-17 | replaces the text; afterwards `getText` returns it and `getLength` is its length plus 1 |
| RdataText.DnsRdataText.GetLength | src/packet/DNSRdataText.java:22-23 | one more than the text's UTF-16 length, so at least one more than its character count, and exactly one more when every character is in the Basic Multilingual Plane |
| RdataText.DnsRdataText.ToString | src/packet/DNSRdataText.java:25-26 | the same text as `getText` |
| RdataText.Utf16LengthOfBmp | src/packet/DNSRdataText.java:23 | `String.length()` counts characters when none lies outside the Basic Multilingual Plane |
| Packet.Dns.constructor | src/SimpleDNS.java:158 | a new `DNS` object holds the empty message with a zero header |
| Packet.Dns.Decoded | src/SimpleDNS.java:92 | the object for a decoded reply holds exactly that message |
| Resolution.Resolver.constructor | src/SimpleDNS.java:79-85 | the chain and both remembered lists start empty, and the last query is the client's datagram |
| Resolution.Resolver.Step | src/SimpleDNS.java:89-275 | one pass changes the remembered state and produces the action exactly as `Transition` says, with the remembered lists held by reference |
| Resolution.Resolver.ZeroAnswerPass | src/SimpleDNS.java:125-200 | a reply without answers gives the referral to the first glue address, a cast failure, or the no-referral reply |
| Resolution.Resolver.NoReferralPass | src/SimpleDNS.java:156-195 | the no-referral reply, with the sections filtered in place, so that remembered lists that are those lists are filtered too |
| Resolution.Resolver.FilterSections | src/SimpleDNS.java:171-187 | the two sections the no-referral reply gets are the filtered lists, each replaced by its remembered list when the filter left it empty; a remembered list that is the filtered list object ends up filtered too |
| Resolution.NoReferralReply | src/SimpleDNS.java:158-192 | the fresh `DNS` object ends up holding the client's id and question, the given answers and sections, and the reply header over the zero header |
| Resolution.FinalReply | src/SimpleDNS.java:255-270 | the decoded reply keeps its id, gets the client's question, the given answers, the remembered lists in place of its empty sections, and the reply header computed from its own |
| Resolution.Resolver.CnamePass | src/SimpleDNS.java:205-236 | a first answer that is a CNAME joins the chain, then the cast and the reply's question are read, and the new query goes to the root server |
| Resolution.Resolver.FinalPass | src/SimpleDNS.java:239-273 | the final reply: TXT records for an A question, the chain, empty sections filled from memory, the client's question and reply flags |
| ResolutionFacts.RememberedAuthority | src/SimpleDNS.java:97-120 | the remembered authority list is replaced only by a list with an A, AAAA, NS or CNAME record, and an SOA-only list leaves it as it was; a no-referral pass filters it |
| ResolutionFacts.RememberedAdditional | src/SimpleDNS.java:121-123 | the remembered additional list is replaced whenever the reply's additional list is not empty, and never otherwise |
| ResolutionFacts.ReferralGoesToFirstGlue | src/SimpleDNS.java:132-200 | with no answers, the last query goes unchanged to the address of the first glue pair, and the chain is unchanged |
| ResolutionFacts.OnlyFirstAnswerDecides | src/SimpleDNS.java:205-209 | when the first answer is a CNAME, the other answers make no difference to the pass |
| ResolutionFacts.CnameFollowUp | src/SimpleDNS.java:209-236 | a CNAME answer joins the chain; the one-question query for its target has the reply's question type, request flags and the client's id, goes to the root, and becomes the last query |
| ResolutionFacts.CnameChainedBeforeCast | src/SimpleDNS.java:212-216 | a CNAME whose data is not a name joins the chain before the cast throws |
| ResolutionFacts.FinalReplyFor | src/SimpleDNS.java:239-273 | for a question that is not of type A: the chain, newest first, ahead of the reply's answers; empty sections filled from memory; the client's question; the reply's own id |
| ResolutionFacts.FinalReplyWithTxt | src/SimpleDNS.java:239-273 | for an A question: the reply keeps its own id and gets the client's question; each empty section is replaced by the remembered one; the answers are the chain newest first, then the reply's answers unchanged, then exactly the TXT records of the addition, one for each A answer some zone entry matches, in answer order, with the first matching entry's label |
| ResolutionFacts.FinalTxtFault | src/SimpleDNS.java:244-246 | for an A question, an exception from the TXT addition (a cast, an unknown host, a missing prefix length) ends the pass with that exception |
| ResolutionFacts.NoReferralReplyFor | src/SimpleDNS.java:156-195 | the no-referral reply has the client's id and question, the chain as its only answers and reply flags; its authority section is the filtered list, falling back to memory only when that list held nothing useful and the filter emptied it; its additional section is the filtered list when the reply's was not empty |
| ResolutionFacts.ClientRepliesHaveReplyFlags | src/SimpleDNS.java:394-408 | every reply to the client carries QR=0, opcode 0, AA=0, TC=0, RA=1, RD=1, AD=0, CD=0, rcode 0 |
| ResolutionFacts.CnameChainNewestFirst | src/SimpleDNS.java:209-251 | after two CNAME passes and a final answer, the reply carries the client's question and its answers begin with the second CNAME, then the first, then the final reply's answers, followed for an A question by their TXT records |

## Left out

- Sockets, datagram packets, `send`/`receive`, `main`'s server loop and `nonrecursivelyResolve`: these are I/O. `Resolution.InitialMemory` records that the first datagram to the root is the client's own.
- Termination of `while(!resolved)`: the source has no step limit or cycle check, so the model describes one pass and not the loop.
- `DNS.serialize`, `DNS.deserialize`, `DNS.serializeText`, the question and record classes and the other rdata classes: these are not part of this model. A `DNS` object is assumed to start with a zero header and empty sections. Question and record class fields are not modelled.
- The `DNS` getters `getAuthorities` and `getAdditional` are assumed to return the message's own list objects, not copies. The aliasing between the remembered lists and the lists the no-referral reply filters rests on this.
- `InetAddress.getByName` and `DNSRdataAddress.toString` are the `HostEnv` parameter; no address syntax is modelled.
- The `HashMap` iteration order is a parameter. Nothing ties it to the map beyond the caller's choice.
- Reading the zone file with `Scanner`: `ZoneMapLoader.FormCsvMap` takes the lines it yields.
- Console output.
- ZoneTable.ParseInt: only the ASCII digits '0' to '9' are modelled. `Integer.parseInt` reads digits with `Character.digit`, which also accepts the other Unicode decimal digits (Arabic-Indic, fullwidth and so on), so a zone line whose length is written in such digits is a `NumberFormat` error in the model but not in the source.
- PrefixMatch.IsMatch: the Java `byte` holding the mask is compared as an 8-bit pattern. The sign it takes for 128 makes no difference to `&` and `==`, so it is not modelled.
- PrefixMatch.MatchOutcome: the resolver's documented behaviour says that addresses of different families never match, but `isMatch` compares any two addresses over the bits both have, so an A answer can fall under an IPv6 zone line (`PrefixMatch.MixedFamilyMatch`). The model follows the code.
- HeaderFlags.ReplyFlags: the resolver's documented behaviour has the reply mirror the request's RD bit, but `setDNSReplyFlags` sets RD=1 whether or not the client asked for recursion. The model follows the code.
