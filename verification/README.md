# Eventhub, verified

Eventhub is a publish/subscribe server in C++: clients speak HTTP, WebSocket or server-sent events, subscribe to
topics and topic filters, and receive what is published; messages are cached in Redis. This project models its
cores in Dafny and proves what they are for. `dafny verify dfyconfig.toml` checks all of it.

| area | files | main results |
|---|---|---|
| WebSocket codec | WsMachine, WsParser, WsStream, WsLanguage, WsWire, WsResponse | the in-place buffer parser refines a byte machine; every legal stream decodes exactly however it is cut; the accepted language, both ways; the same bit by bit on the wire; print then parse, with its exact exception |
| HTTP requests | HttpSyntax, HttpLaws, HttpGrammar, HttpCompletion, HttpShortcut, HttpNames, HttpParser, HttpRender | the language of requests by positions, both ways; incomplete exactly if some continuation is a request; incremental equals one-shot; for any octets, exactly when the completeness shortcut changes a result; requests written out are read back, names in any case |
| Base64 | Base64, Base64Bits | every character and every octet by its bits, with both alphabets written out; both round trips, in-place rewrite and padding reconstruction included; exactly when the decoder stays in bounds |
| Topics and access | Topics, Containment, AccessControl, Coverage | matching and validation against level specifications; exact condition for a subscription to stay within an entry, and within a whole list |
| Subscription index | Subscriptions | three linked indexes agree with one relation in every reachable state; publishing delivers exactly what it calls for, less what it cuts off by shutting connections down |
| Threads and timers | Wakeup, Timers | no lost wakeup and global publish order over all interleavings; exact timer cache |
| Writing | WriteBuffer | byte conservation over every behaviour of the kernel; exactly when a connection goes down, so that what is written arrives |
| Cache | CacheStore, CacheText, CacheQuery, CacheOrder, CacheRead | no interleaving of Redis commands loses a payload or leaves one behind, or comes between the two commands of a query, none ends a message before its time, and purgers do their work; for any id asked for, exactly when the answer is all later messages in order |
| Rate limits | RateLimiter | tight bounds of the limiter over every run; exactly which limits share a counter |

How the source's form is kept: code that loops over a buffer or updates an object is a method with loop invariants
or a class, proved against a function of its inputs; the laws are lemmas about those functions. Threads and Redis
clients are step relations, and laws about them hold for every run.

Where the code and its comments differ, the model follows the code:

- `isValidTopicFilter` is documented to refuse a trailing slash and to refuse `+` together with `#`; the code accepts
  both (Topics.FinalSlashAccepted, Topics.BothWildcardsAccepted).
- `ws_parser_execute` does not clear `fragment` at a final continuation frame, and `Parser::parse` ignores its return
  code. The model does the same; WsLanguage.AcceptedLanguage says exactly what is accepted.
- A last fragment of 65535 octets takes the eight-octet header branch of `_sendFragment`, which is not the layout of
  section 5.2 of RFC 6455. WsResponse.RoundTrip says exactly which messages that loses.
- `is_complete` looks only for an empty line, so a request with an error in it that came in several reads is reported
  as incomplete until an empty line has come. HttpLaws.ShortcutIsExact says that this is the only difference it makes,
  HttpShortcut.RefusedLateExactly when it does, HttpLaws.SmallestRefusedLate is the smallest case, and
  HttpParser.ReadIsExact says the same of every read.
- Messages after an id are promised from oldest to newest; Redis breaks ties of a timestamp by text, so ten or more
  messages in a millisecond can lose items or swap them. CacheOrder.EventsAfterId says exactly when all later items
  come and exactly when they come in the order of ids, CacheOrder.CacheSinceSorted the latter for messages since a
  timestamp; CacheOrder.LaterItemLost and CacheOrder.LaterItemsSwapped are the smallest cases of either failure.
- The subscribe check matches an entry against the text of the filter asked for. Containment.ContainmentExact says
  exactly when that keeps a subscription within the entry, Coverage.SubscriptionExact within the list.

## Model

| member | source | states |
|---|---|---|
| WsMachine.RunSplit | src/websocket/ws_parser.cpp:46-284 | split invariance: executing `a` and then `b` ends in the state, return code and deliveries of executing `a + b`; after a parse error the rest is not looked at |
| WsMachine.RunBufferSplit | src/websocket/ws_parser.cpp:229-263 | the same for what is left in the read buffer: unmasked octets of `a`, then those of `b` |
| WsMachine.UnmaskSplit | src/websocket/ws_parser.cpp:236-240 | unmasking in two parts with a carried mask position equals unmasking at once |
| WsMachine.UnmaskAt | src/websocket/ws_parser.cpp:236-240 | octet `i` of an unmasked payload is octet `i` of the input XOR the key octet at (position + i) mod 4 |
| WsMachine.AdvanceCounts | src/websocket/ws_parser.cpp:236-240 | the wrapping mask position after `n` octets is (start + n) mod 4 |
| WsMachine.BulkPayload | src/websocket/ws_parser.cpp:229-263 | the bulk payload branch refines stepping: any part of a payload absorbed at once ends where one step per octet ends |
| WsMachine.BulkBuffer | src/websocket/ws_parser.cpp:236-240 | the bulk in-place XOR leaves the octets that stepping leaves |
| WsMachine.StepSane | src/websocket/ws_parser.cpp:40-287 | every step, from every state, keeps: control payloads at most 125 octets, a control frame's remaining length within that, and the data buffer grows by at most one octet |
| WsMachine.RunSane | src/websocket/ws_parser.cpp:40-287 | so does every run over any input, including runs that go on after an ignored error |
| WsParser.Parser.constructor | src/websocket/ws_parser.cpp:24-27 | whatever the uninitialised fields hold, a new parser is at a frame boundary with nothing delivered |
| WsParser.Parser.EndPayload | src/websocket/ws_parser.cpp:264-282 | the end of a frame hands over a control frame, or a data message if FIN is set, exactly as the machine says |
| WsParser.Parser.ReadOpcode | src/websocket/ws_parser.cpp:50-98 | refines the machine on a first octet, every error return included |
| WsParser.Parser.ReadLength | src/websocket/ws_parser.cpp:99-130 | refines the machine on a second octet: control frames with an extended length are refused, an empty unmasked frame ends at once |
| WsParser.Parser.ReadExtendedLength | src/websocket/ws_parser.cpp:131-198 | refines the machine on a 16-bit or 64-bit length octet, the non-canonical ones refused |
| WsParser.Parser.ReadMask | src/websocket/ws_parser.cpp:199-228 | refines the machine on a key octet; an empty masked frame ends with the key |
| WsParser.Parser.ReadHeader | src/websocket/ws_parser.cpp:46-228 | one header octet is one step of the machine from every valid state, and keeps validity |
| WsParser.Parser.UnmaskInPlace | src/websocket/ws_parser.cpp:236-240 | the slice of the read buffer is unmasked in place, the rest of it untouched, the mask position advanced by the octets done |
| WsParser.Parser.Append | src/websocket/Parser.cpp:76-90 | the chunk goes to the control or to the data buffer; the size callback is made exactly if the limit is passed |
| WsParser.Parser.ReadPayload | src/websocket/ws_parser.cpp:229-282 | takes as much of the buffer as the frame has left: new state, rewritten buffer and size callback are those of stepping over it |
| WsParser.Parser.Execute | src/websocket/ws_parser.cpp:40-287 | the loop terminates on every buffer from every valid state; fields, return code, deliveries and buffer contents are those of one step per octet; the data size callback is made iff stepping overflows and the control one never |
| WsParser.NoOverflowBound | src/websocket/Parser.cpp:76-82 | a run that never overflows ends with at most 8192000 octets buffered |
| WsParser.OverflowsExactly | src/websocket/Parser.cpp:76-82 | a run overflows iff after some octet the buffer holds more than 8192000: no message within the limit is cut off |
| WsParser.ReadAllBounded | src/websocket/Handler.cpp:26-45 | over any number of reads of at most 512 octets, shutting down on overflow: the data buffer never passes 8192512 octets, and the control buffer never 125, so the control limit branch is dead |
| WsParser.OverflowsBulk | src/websocket/Parser.cpp:76-82 | checking the size once per chunk finds an overflow iff checking after every octet does |
| Bytes.XorCancels | src/websocket/ws_parser.cpp:236-240 | masking an octet twice with the same key octet gives it back |
| Bytes.XorBits | src/websocket/ws_parser.cpp:236-240 | a bit of the result is set iff the two bits differ, for each of the eight |
| WsStream.MaskBits | src/websocket/ws_parser.cpp:236-240 | each bit of a masked octet differs from the payload's iff the bit of the key over it is set |
| WsStream.UnmaskMasked | src/websocket/ws_parser.cpp:236-240 | unmasking undoes masking, for every key and payload |
| WsStream.RunExtendedLength | src/websocket/ws_parser.cpp:131-198 | every length from 126 up to 2^64 written in its shortest form is read back as that length |
| WsStream.RunKey | src/websocket/ws_parser.cpp:199-228 | the four key octets are read back in order from any position of the key |
| WsStream.RunBody | src/websocket/ws_parser.cpp:199-282 | the key and the masked payload are read back as the payload, masked or not, empty or not |
| WsStream.RunLength | src/websocket/ws_parser.cpp:99-282 | the same from the length octet on, for all three length forms |
| WsStream.RunFrame | src/websocket/ws_parser.cpp:50-282 | a legal frame (section 5.2 of RFC 6455) is decoded: a control frame is delivered and leaves the message under way alone; a data frame extends it, and delivers it iff FIN is set |
| WsStream.RunControls | src/websocket/Parser.cpp:32-49 | control frames between fragments are delivered in order and do not disturb reassembly |
| WsStream.RunPieces | src/websocket/Parser.cpp:13-49 | a message in any number of fragments, each followed by any control frames, is delivered whole behind those control frames |
| WsStream.DecodesExactly | src/websocket/ws_parser.cpp:40-287 | every legal stream (messages, any fragmentation, any keys or none, control frames in between; sections 5.2 to 5.5) yields exactly its messages and control frames in order of completion |
| WsStream.ReadsAgree | src/websocket/Parser.cpp:116-118 | reads one after another, return codes ignored, end where one read of everything ends if that meets no error |
| WsStream.DecodesHoweverCut | src/websocket/Parser.cpp:116-118 | every legal stream cut into reads in any way yields exactly the same deliveries |
| WsStream.MaskPosition | src/websocket/ws_parser.cpp:236-240 | at every point inside the payload of every legal masked frame, from any machine at its start, the mask position is the number of its payload octets read mod 4 and the rest of them remain |
| WsLanguage.AcceptsFrames | src/websocket/ws_parser.cpp:40-287 | frames legal one by one for the parser's own `fragment` flag are taken without an error and hand over exactly the control frames and messages they make up, strictly legal stream or not |
| WsLanguage.AcceptedIsFrames | src/websocket/ws_parser.cpp:40-287 | the converse: an input taken without an error that ends at a frame boundary is such frames encoded |
| WsLanguage.AcceptedLanguage | src/websocket/ws_parser.cpp:40-287 | the accepted language exactly: no error and a frame boundary at the end iff the input is a sequence of encoded frames with known opcodes, no reserved bits, whole control frames of at most 125 octets, shortest lengths, any keys, and continuations only where the flag allows them |
| WsLanguage.MaskUnmasked | src/websocket/ws_parser.cpp:236-240 | masking undoes unmasking, so any payload octets are the masked form of some payload |
| WsWire.FrameOnWire | src/websocket/ws_parser.cpp:40-287 | one frame in plain numbers: from FIN and opcode 0, 1, 2, 8, 9 or 10, the shortest length whose octets have the bits of the number, the key and any octets, exactly the message or control frame whose bits are those octets with the key bits turning them around |
| WsWire.FirstOctetExactly | src/websocket/ws_parser.cpp:50-98 | which first octets are taken, and the error of each of the others |
| WsWire.SecondOctetExactly | src/websocket/ws_parser.cpp:99-130 | a second octet is refused iff it gives a control frame more than 125 octets |
| WsResponse.FragmentsAreLegal | src/websocket/Response.cpp:42-60 | the fragments carry the data in order; the type is on the first only, FIN on the last only (section 5.4); non-final ones have exactly 32768 octets, the last at most 65535 |
| WsResponse.FragmentAt | src/websocket/Response.cpp:42-60 | the chunk indices of the loop: how many fragments there are and which slice of the data each carries |
| WsResponse.SendFragment | src/websocket/Response.cpp:12-40 | the octets written for a fragment, in each of the three header forms, for any previous contents of the header array |
| WsResponse.SendData | src/websocket/Response.cpp:42-60 | the loop writes one frame per fragment of the recursive cut, in order |
| WsResponse.PrintIsEncode | src/websocket/Response.cpp:12-40 | below 65535 octets the frame written is the section 5.2 layout |
| WsResponse.LongestFragmentIsLost | src/websocket/Response.cpp:30-34 | a last fragment of exactly 65535 octets delivers nothing, whatever its octets and the header array held |
| WsResponse.RoundTrip | src/websocket/Response.cpp:12-60 | print then parse: for every data message and parser at a frame boundary, exactly that message and type is delivered iff its size is below 65535 or not 32767 mod 32768; in that class nothing is delivered |
| WsResponse.ControlRoundTrip | src/websocket/Response.cpp:42-60 | a control frame comes back iff it has at most 125 octets; a longer one is refused by the parser |
| HttpSyntax.ExecToken | src/http/picohttpparser.c:70-93 | the token loop is the recursive scan: position of the space, incomplete, or bad |
| HttpSyntax.ExecToEol | src/http/picohttpparser.c:128-193 | the loop unrolled by eight finds the line end that the scan octet by octet finds, with the same incomplete and bad cases |
| HttpSyntax.ExecNumber | src/http/picohttpparser.c:224-244 | the digit loop gives the value and end of the digit run, bad without a digit, incomplete at the end of input |
| HttpSyntax.ExecVersion | src/http/picohttpparser.c:247-257 | `HTTP/1.` and a number, each octet checked in order with incomplete before bad |
| HttpSyntax.ExecHeaderLine | src/http/picohttpparser.c:259-317 | one header line: at most a hundred, continuation lines without a name, token start, name, blanks, value |
| HttpSyntax.ExecHeaders | src/http/picohttpparser.c:259-317 | the header loop fills the array with what the recursive scan collects, up to and including the empty line |
| HttpSyntax.ExecIsComplete | src/http/picohttpparser.c:195-221 | the completeness shortcut from `last_len - 3` on |
| HttpSyntax.ExecRequest | src/http/picohttpparser.c:319-351 | the request line and headers as positions in the buffer |
| HttpSyntax.ExecParseRequest | src/http/picohttpparser.c:353-379 | the shortcut, if an earlier length is given, and then the whole parse |
| HttpLaws.HeadersExtends | src/http/picohttpparser.c:259-317 | accepting or refusing headers is final: more input does not change it, and what is accepted needs no octet behind it |
| HttpLaws.RequestExtends | src/http/picohttpparser.c:319-351 | accepting or refusing a request is final, only `incomplete` can change with more input; and an accepted request is accepted without the octets behind it |
| HttpLaws.RequestEnd | src/http/picohttpparser.c:319-351 | an accepted request ends in an empty line; neither it nor one that is still incomplete has a carriage return followed by anything but a line feed |
| HttpLaws.ShortcutNotBad | src/http/picohttpparser.c:195-221 | on any buffer without such a carriage return the shortcut never reports an error, wherever it starts |
| HttpLaws.ShortcutFinds | src/http/picohttpparser.c:195-221 | started no later than the line feed before the empty line, the shortcut finds it, whatever is behind it |
| HttpLaws.ShortcutIsExact | src/http/picohttpparser.c:195-221 | for every buffer and every earlier length at which there was no whole request: the shortcut and the parse give the result of the parse alone iff it is not the case that the request is refused and no empty line is found; in that case they report it incomplete |
| HttpLaws.SmallestRefusedLate | src/http/picohttpparser.c:195-221 | that case exists: a letter, and a control character in a second read, is refused at once but reported incomplete |
| HttpLaws.PrefixOfRequest | src/http/picohttpparser.c:195-221 | for every request consumed whole, every prefix and every earlier length: the request on all of it and `incomplete` on every proper prefix |
| HttpGrammar.HeaderLineExactly | src/http/picohttpparser.c:270-313 | a header line is found, with its name and value, iff the octets at these positions form one: token start, no controls or colon, blanks skipped, no controls but tabs, LF or CR LF; or a continuation line |
| HttpGrammar.HeadersSound | src/http/picohttpparser.c:259-317 | headers that are accepted are such lines, at most a hundred, and an empty line |
| HttpGrammar.HeadersComplete | src/http/picohttpparser.c:259-317 | and every such text is accepted, with exactly these positions |
| HttpGrammar.RequestExactly | src/http/picohttpparser.c:319-351 | the accepted language, both ways: a buffer starts with a request whose parts lie at given positions iff the octets there form method, path, version, headers and empty line |
| HttpCompletion.HeadersFinish | src/http/picohttpparser.c:259-317 | headers that are incomplete can be completed, wherever they break off |
| HttpCompletion.AnswersExactly | src/http/picohttpparser.c:319-379 | a buffer is refused iff nothing that starts with it is a request, and incomplete iff it is none but something that starts with it is |
| HttpShortcut.ShortcutMeets | src/http/picohttpparser.c:195-221 | what the shortcut finds, by positions: the first of two line ends in a row and a lone carriage return, or neither |
| HttpShortcut.RefusedLateExactly | src/http/picohttpparser.c:195-221 | a refusal is put off iff something was there before and from three octets before its end there is no empty line and no lone carriage return |
| HttpNames.ExecQuery | src/http/Parser.cpp:145-169 | the query string loop adds the parameters that the recursive reading gives |
| HttpNames.LowerIs | src/Util.cpp:74-78 | the lower case of a name is the one name without capitals that is equal to it but for the case of ASCII letters |
| HttpNames.FiledPush | src/http/Parser.cpp:96-102 | storing under the lower-case name keeps: the map holds the last value of every name in any case, under the name without capitals, and nothing else |
| HttpNames.LookupIs | src/http/Parser.cpp:127-135 | a lookup by a name in any case gives the last value given for it in any case, and nothing if there is none |
| HttpNames.QueryRoundTrip | src/http/Parser.cpp:145-169 | every list of parameters written `k=v&k=v` is read back: the last value of a name in any case, parameters with an empty name or value dropped, a tail without an equals sign ignored |
| HttpParser.RequestInBuffer | src/http/picohttpparser.c:319-351 | method, path, header names and values of an accepted request all lie inside the buffer |
| HttpParser.TargetComesApart | src/http/Parser.cpp:81-94 | a target written as a path without question mark, and a query behind one if there is any, comes apart into them |
| HttpParser.HeadersFiled | src/http/Parser.cpp:96-102 | the headers of every accepted request are stored that way, empty values too |
| HttpParser.Parser.constructor | src/http/Parser.cpp:200-216 | a new parser is empty |
| HttpParser.Parser.ResetState | src/http/Parser.cpp:200-216 | every field goes back to that of a new parser |
| HttpParser.Parser.StoreTarget | src/http/Parser.cpp:81-94 | path up to the question mark and parameters behind it; an empty target changes nothing |
| HttpParser.Parser.StoreHeaders | src/http/Parser.cpp:96-102 | headers under their lower-case names, later ones replacing earlier ones; HeadersFiled says what that gives for names in any case |
| HttpParser.Parser.ParseData | src/http/Parser.cpp:35-107 | one call refines the functional driver: complete parsers restart, at most 8192 octets, each status with its state |
| HttpParser.IncrementalEqualsOneShot | src/http/Parser.cpp:35-107 | a request consumed whole in one call, fed in any non-empty pieces to a new or just completed parser, reports incomplete on every piece but the last and complete on the last, with the same method, path, parameters and headers |
| HttpParser.FeedWaits | src/http/Parser.cpp:35-107 | after any reads whatever, a parser that has not completed holds no acceptable request |
| HttpParser.ReadIsExact | src/http/Parser.cpp:35-107 | for any octets, a read gets the status and the message of one call with everything read since the last request, iff it is not one that puts a refusal off; that one is reported incomplete; too big iff there are more than 8192 octets |
| HttpParser.StartsAfresh | src/http/Parser.cpp:38-47 | a completed parser reports complete again on an empty read, and starts afresh on any other with nothing left of the request before |
| HttpRender.HeadersAre | src/http/picohttpparser.c:259-317 | up to a hundred well-formed header lines are accepted to their end, each as the position of its name and value |
| HttpRender.RequestRoundTrip | src/http/Parser.cpp:57-106 | every well-formed request written out as text, of at most a hundred headers and with a minor version of any number of digits, is accepted whole and read back: method, path up to the question mark, version, and of parameters and headers the last value of every name in any case, found under the name without capitals |
| Base64.TablesInverse | include/jwt/base64.hpp:198-226 | the decoding table undoes the encoding table |
| Base64.EncodeLength | include/jwt/base64.hpp:37-45 | `encoding_size` is the exact length of every encoding |
| Base64.Base64Encode | include/jwt/base64.hpp:142-189 | the loop over triples and the tail write exactly the recursive encoding, inside a buffer of `encoding_size` |
| Base64.EncodeTail | include/jwt/base64.hpp:162-184 | the one, two or no octets left over and their padding |
| Base64.TrimmedLength | include/jwt/base64.hpp:248-250 | the backward loop strips exactly the trailing characters outside the alphabet, and looks at none above ASCII iff it says so |
| Base64.DecodeInto | include/jwt/base64.hpp:252-297 | for every input the forward loop and its tail stay inside table and result iff the input is safe, and then give the octets of the recursive decoding and say whether it stopped early; an early stop leaves zeros behind |
| Base64.Base64Decode | include/jwt/base64.hpp:237-298 | for every input: the recursive decoding, or none exactly where the source would read outside its table or write outside its result |
| Base64.RoundTrip | include/jwt/base64.hpp:237-298 | decoding the encoding of `x` gives `x`, for every octet string |
| Base64.EncodeInjective | include/jwt/base64.hpp:142-189 | different octet strings have different encodings |
| Base64.Base64UriEncode | include/jwt/base64.hpp:312-332 | the in-place rewrite leaves the URL-safe text in front of the buffer and returns its length |
| Base64.Base64UriDecode | include/jwt/base64.hpp:344-371 | for every input: alphabet restored, padding rebuilt, zeros behind it, and that buffer decoded; within bounds iff the characters looked at are ASCII |
| Base64.UriBufferDecodable | include/jwt/base64.hpp:344-371 | for every input: the rebuilt buffer always gives the decoder enough room, so it stays in bounds iff the characters it looks at are ASCII: all, or up to one outside the alphabet where a group starts, and those dropped at the end |
| Base64.UriRoundTrip | include/jwt/base64.hpp:344-371 | encode, rewrite in place, rebuild and decode gives back every octet string |
| Base64.UriInjective | include/jwt/base64.hpp:312-332 | two URL-safe encodings are equal iff the octets are, so comparing encoded signatures compares signatures |
| Base64Bits.EncodeByBits | include/jwt/base64.hpp:142-189 | character `k` of every encoding is the one of the alphabet, written out, at the number that bits 6k to 6k + 5 of the octets form, and then equals signs up to a multiple of four |
| Base64Bits.UriEncodeByBits | include/jwt/base64.hpp:312-332 | the same for the URL-safe text, with its own alphabet and no equals signs |
| Base64Bits.DecodeByBits | include/jwt/base64.hpp:237-298 | every text over the alphabet, padded to a multiple of four, decodes to exactly the octets its bits fill |
| Base64Bits.UriDecodeByBits | include/jwt/base64.hpp:344-371 | every text over the URL-safe alphabet, of any length, decodes to exactly the octets its bits fill |
| Base64Bits.OutsideAlphabet | include/jwt/base64.hpp:259-296 | a character outside the alphabet gives its octets all bits set where its own belong |
| Topics.SplitLevels | src/TopicManager.cpp:17-29 | the cursor loop gives the recursive split at slashes |
| Topics.JoinSplit | src/TopicManager.cpp:17-29 | joining the levels of any string with `/` gives it back |
| Topics.SplitJoin | src/TopicManager.cpp:17-29 | splitting joined levels gives them back, if none has a slash and there is one |
| Topics.IsFilterMatched | src/TopicManager.cpp:172-198 | the index loop is the recursive meaning of `+` and `#` on levels, `#` also matching its parent level |
| Topics.MatchesByPosition | src/TopicManager.cpp:172-198 | by positions: a filter matches iff its levels are `+` or the topic's, to the end of both or up to a `#` |
| Topics.IsValidTopic | src/TopicManager.cpp:87-111 | accepts exactly non-empty strings over the alphabet with no slash at either end |
| Topics.ScanIsPlacement | src/TopicManager.cpp:119-152 | the scan of neighbouring characters holds iff wildcards stand only as whole levels and `#` only last |
| Topics.IsValidTopicFilter | src/TopicManager.cpp:119-152 | accepts exactly strings over the filter alphabet with no leading slash, at least one wildcard, and wildcards so placed |
| Topics.FinalSlashAccepted | src/TopicManager.cpp:119-152 | a filter that ends in a slash is accepted, against the comment |
| Topics.BothWildcardsAccepted | src/TopicManager.cpp:119-152 | so is one with both wildcards |
| Topics.IsValidTopicOrFilter | src/TopicManager.cpp:158-164 | accepts exactly the valid topics and the valid filters |
| Containment.PlainTopicMatchesOnlyItself | src/TopicManager.cpp:172-198 | a valid plain topic used as a filter matches itself and nothing else |
| Containment.Contained | src/TopicManager.cpp:172-198 | matching is transitive through a filter on the right, unless a `+` on the left lies opposite its final `#` |
| Containment.LeakWitness | src/TopicManager.cpp:172-198 | whenever the condition fails there is a valid topic that the subscription receives and the entry does not match |
| Containment.ContainmentExact | src/AccessController.cpp:103-114 | an entry that matches the text of a valid filter matches every valid topic the filter matches iff no `+` of the entry lies opposite its final `#` so as to let one through |
| AccessControl.AccessController.Authenticate | src/AccessController.cpp:30-76 | accepted iff no claim is mistyped and some list is not empty; lists grow by exactly the valid filters of the claims reached, also when a later claim makes the token fail; subject and limits only with an accepted token |
| AccessControl.AccessController.LoadFilters | src/AccessController.cpp:38-52 | keeps exactly the valid topics and filters, in order |
| AccessControl.KeptByPosition | src/AccessController.cpp:38-52 | the entries kept are those at exactly the positions of the valid ones, in order |
| AccessControl.AccessController.AllowPublish | src/AccessController.cpp:89-100 | allowed iff authentication is off or a loaded publish entry matches |
| AccessControl.AccessController.AllowSubscribe | src/AccessController.cpp:103-114 | allowed iff authentication is off or a loaded subscribe entry matches the text of the filter |
| AccessControl.GrantedSubscriptionContained | src/AccessController.cpp:103-114 | a subscription granted by an entry that does not leak only receives topics the list grants |
| Coverage.SubscriptionExact | src/AccessController.cpp:103-114 | the exact condition for a whole list: every valid topic a filter matches is granted iff the check grants each text made of the filter by writing 0, 1, 2, ... levels `+` for its final `#`, up to one more than the longest entry has |
| Coverage.CoversIsEnough | src/AccessController.cpp:103-114 | one way: then every such topic is granted, however deep |
| Coverage.ExpandNeeded | src/AccessController.cpp:103-114 | the other way: for each text not granted some valid topic escapes the list |
| Coverage.CoveredTogether | src/AccessController.cpp:103-114 | entries can cover together what none covers alone: `a/+/#` leaks `a/#` and `a` does not match it, yet the two grant every topic under it |
| AccessControl.GrantedSubscriptionCanExceed | src/AccessController.cpp:103-114 | the condition is needed: `a/+` grants `a/#`, which receives `a/x/x` |
| AccessControl.GetRateLimitForTopic | src/AccessController.cpp:145-177 | the limit used is the first exact entry, else the first of the longest matching patterns; none iff nothing matches |
| AccessControl.ChosenUnique | src/AccessController.cpp:145-177 | that describes one entry only |
| Subscriptions.AgreementExact | src/Connection.cpp:268-278 | in every valid state a connection holds a filter iff the topic map has it with a node for the connection; that node is the only one and the one its iterator names; no topic is empty |
| Subscriptions.AddAgrees | src/TopicManager.cpp:37-48 | adding a node at the front of a new or existing topic keeps the three indexes in agreement |
| Subscriptions.RemoveAgrees | src/Connection.cpp:308-328 | removing a node, and the topic if it is left empty, keeps them in agreement |
| Subscriptions.Topic.AddSubscriber | src/Topic.cpp:26-29 | a fresh node for the connection and request at the front, the others in order behind it |
| Subscriptions.Topic.DeleteSubscriberByIterator | src/Topic.cpp:70-73 | the node named goes, the others keep their order |
| Subscriptions.Topic.Publish | src/Topic.cpp:35-63 | what is sent in list order when each copy may shut its connection down: by position in the list, exactly the subscribers live, streaming and not shut down at their turn, each in the form it takes and with the id it subscribed by; all of the list for an event, none of it for text that is not JSON; JSON without event fields stops exactly at the first SSE subscriber that is up; afterwards just the connections of fatal copies are down |
| Subscriptions.SendsServes | src/Topic.cpp:35-63 | the same of any list, statuses and fatal copies |
| Subscriptions.TopicManager.SubscribeConnection | src/TopicManager.cpp:37-48 | the topic is created if missing, gets the node, and no other topic changes |
| Subscriptions.TopicManager.DeleteTopic | src/TopicManager.cpp:69-79 | removes a topic, or counts an error if there is none |
| Subscriptions.Connection.Subscribe | src/Connection.cpp:268-278 | keeps agreement; adds exactly the filter with its request id, and nothing if it was held |
| Subscriptions.Connection.Unsubscribe | src/Connection.cpp:308-328 | keeps agreement; removes exactly the filter and says whether it was held; the "does not exist" branch is not reached |
| Subscriptions.Connection.UnsubscribeAll | src/Connection.cpp:330-347 | keeps agreement; nothing is held any more, and the count is what was held; no error |
| Subscriptions.Connection.Disconnect | src/Connection.cpp:63-68 | the destructor leaves the worker's indexes in agreement without the connection; no error |
| Subscriptions.CopiesMember | src/Topic.cpp:35-63 | a copy is due iff a node of a connection that is up calls for it |
| Subscriptions.CopiesNoDup | src/Topic.cpp:35-63 | nodes of different connections give different copies |
| Subscriptions.CopiesAreDue | src/TopicManager.cpp:55-63 | the copies of a topic's list are exactly those the relation between connections and filters calls for |
| Subscriptions.SendsOn | src/Topic.cpp:42-56 | a list published after earlier copies have closed connections sends what the copies due at the start make of it |
| Subscriptions.SentOrClosed | src/Topic.cpp:45-47 | a copy that comes up is sent, or its connection was shut down by an earlier one |
| Subscriptions.SentStops | src/Topic.cpp:45-47 | no copy follows one that shut its connection down |
| Subscriptions.TopicManager.Publish | src/TopicManager.cpp:55-63 | every copy goes to a connection that was live and not shut down and holds a matching filter, over WebSocket with the id of the subscribing request, or as SSE; at most one per connection and filter; every such connection gets one for every such filter unless an earlier copy of this publish shut it down, after which it gets none; just the connections of fatal copies are shut down; whatever the order of the map, and with any copies fatal |
| Timers.MinFireIsMin | include/EventLoop.hpp:47-85 | the reference is the least fire time, attained |
| Timers.CacheExact | include/EventLoop.hpp:143-148 | the cached time is the least fire time, and zero only for an empty queue, iff the least fire time is not itself zero |
| Timers.ZeroIsForgotten | include/EventLoop.hpp:143-148 | the condition is needed: a timer at time zero is forgotten for a later one, which then holds it up |
| Timers.AheadIsNotDue | include/EventLoop.hpp:56-58 | with an exact cache the early return is right: nothing is due and a scan would change nothing |
| Timers.NothingLeftDue | include/EventLoop.hpp:47-85 | with positive delays and a clock that does not go back, no timer due at entry is left due |
| Timers.DueByPosition | include/EventLoop.hpp:47-85 | the callbacks called are those at exactly the positions whose time has come, once each, in order |
| Timers.AfterByPosition | include/EventLoop.hpp:47-85 | left are exactly the timers whose time has not come, untouched, and those that repeat, due again their delay after the clock when their callback returned; in order |
| Timers.EventLoop.DecreaseNextFireTimeIfLess | include/EventLoop.hpp:143-148 | the cache becomes the lesser, zero counting as none |
| Timers.EventLoop.AddTimer | include/EventLoop.hpp:87-93 | the timer is queued last, whatever its delay, and the cache is the least fire time unless that is zero |
| Timers.EventLoop.Visit | include/EventLoop.hpp:65-84 | one timer: called iff due, kept with its next fire time if it repeats after the call, and the cache is that of the timers passed |
| Timers.EventLoop.ProcessTimers | include/EventLoop.hpp:47-85 | with an exact cache fires exactly the timers due at entry, once each and in order, whatever callbacks do to `repeat`; the cache is again the least fire time unless that is zero |
| Wakeup.StepNoLostWakeup | src/ConnectionWorker.cpp:418-469 | every step of every thread keeps: a worker about to wait with jobs queued has a signal or a publisher about to signal it |
| Wakeup.StepInOrder | src/Server.cpp:413-418 | every step keeps: executed and queued jobs are the publish order, less at most the publish under way |
| Wakeup.StepInv | src/ConnectionWorker.cpp:107-138 | every step of appending, signalling, draining and running keeps both for all workers |
| Wakeup.EveryRun | src/ConnectionWorker.cpp:339-344 | in every interleaving: a waiting worker with jobs has been or is being signalled; its executed and queued jobs are the global publish order, missing at most the publish in flight |
| Wakeup.WaitingWorkerCatchesUp | include/EventLoop.hpp:33-45 | from every such state with no publish under way, the signal wakes a waiting worker with jobs, and it then has run everything published, in order |
| WriteBuffer.FlushInv | src/Connection.cpp:180-209 | a flush keeps conservation for every result of the kernel: any part taken, try again, failure |
| WriteBuffer.OpInv | src/Connection.cpp:155-232 | so does every write, flush and shutdown |
| WriteBuffer.StreamConserved | src/Connection.cpp:155-232 | over whole runs: while the connection is up, what the kernel took followed by the buffer is all that was written; the buffer never passes `NET_WRITE_BUFFER_MAX`; EPOLLOUT is set iff it is not empty; a shutdown after flush leaves nothing behind |
| WriteBuffer.GoesDown | src/Connection.cpp:155-232 | an operation takes a connection down iff it asks for it, asks for it after a flush with nothing buffered, writes above 8192000 octets, meets a kernel error, or drains the buffer with a shutdown pending |
| WriteBuffer.TakesFirst | src/Connection.cpp:155-232 | what the kernel takes is the front of what was offered, and the rest stays; an overflow drops it |
| WriteBuffer.StaysDown | src/Connection.cpp:155-232 | a connection that is down sends and buffers no more |
| WriteBuffer.DownExactly | src/Connection.cpp:155-232 | over whole runs: a connection is down iff some operation has taken it down |
| WriteBuffer.WritesArrive | src/Connection.cpp:155-232 | over whole runs of writes and flushes without a kernel error and never above 8192000 octets: the connection is up, and what the kernel took followed by the buffer is everything written |
| WriteBuffer.PendingShutdownFires | src/Connection.cpp:204-206 | a pending shutdown fires with the flush that drains the buffer and with no other |
| WriteBuffer.Connection.PruneWriteBuffer | src/Connection.cpp:93-105 | drops exactly what was written and returns what is left |
| WriteBuffer.Connection.FlushSendBuffer | src/Connection.cpp:180-209 | the object's fields follow the model of a flush |
| WriteBuffer.Connection.WriteData | src/Connection.cpp:155-174 | appends and flushes, or shuts down if the buffer would pass its bound; keeps the invariant |
| WriteBuffer.Connection.RequestShutdownAfterFlush | src/Connection.cpp:225-232 | shuts down at once if nothing is buffered, else leaves it to the flush; keeps the invariant |
| CacheStore.StepInv | src/Redis.cpp:83-108 | every single Redis command of any number of caching and purging servers keeps: members have the payload they were cached with, each id is added once, and purgers only hold members expired by a past clock |
| CacheStore.NoMemberWithoutPayload | src/Redis.cpp:99-105 | no interleaving leaves a score set member without its payload, and it is the payload it was cached with |
| CacheStore.OnlyExpiredRemoved | src/Redis.cpp:296-336 | no interleaving removes a member, or the payload of one, that has not expired |
| CacheStore.RemovedForGood | src/Redis.cpp:296-336 | a member once removed is expired in every later state and never comes back |
| CacheStore.CachedFor | src/Redis.cpp:83-108 | a message cached with a time to live loses neither member nor payload until more than that many seconds later, in any interleaving |
| CacheStore.PurgedWhenDone | src/Redis.cpp:296-336 | what had expired when a purger started and was there when it read the score set is gone, member and payload, when it is done, whatever other servers do |
| CacheStore.ReadMemberHasPayload | src/Redis.cpp:145-172 | a member read from a score set that has not expired when the payloads are read still has its payload then, unchanged, whatever commands lie in between |
| CacheStore.NoPayloadWithoutOwner | src/Redis.cpp:99-105 | every payload has its member, or a process about to add it or to remove the payload |
| CacheStore.AgreeWhenQuiet | src/Redis.cpp:83-108 | when all servers have finished what they began, payloads and score set members agree exactly |
| CacheText.StoullReads | src/Redis.cpp:212-214 | what `stoull` reads of a number written out: blanks and a plus sign are skipped, a minus sign negates modulo 2^64, what follows the digits is ignored, and from 2^64 on it fails |
| CacheText.StoullFails | src/Redis.cpp:212-214 | it fails if there is no digit behind blanks and sign |
| CacheText.IdRoundTrip | src/Redis.cpp:205-217 | every id comes apart into the timestamp and sequence number it was made of, over the whole range of `long long`; one with a negative timestamp does not come apart |
| CacheText.FormatInjective | src/Redis.cpp:72-80 | different timestamps or sequence numbers, negative ones included, give different ids |
| CacheText.ExecParseMeta | src/Redis.cpp:441-461 | the character scan gives the three fields between colons, and fails exactly without a colon or if `stoul` fails on the second; blanks, signs and numbers too large included |
| CacheText.MetaRoundTrip | src/Redis.cpp:438-469 | id and expiry time always survive writing and parsing; the origin does iff it has no colon |
| CacheQuery.GetCacheSince | src/Redis.cpp:145-199 | unexpired members that come apart, in order, with topic, payload and origin of each, those without payload left out; the deletion on a size mismatch is never reached |
| CacheQuery.LookupIsFound | src/Redis.cpp:83-108 | on members as `cacheMessage` writes them, with distinct ids and any origins, the answer is exactly the unexpired items that have a payload, each with its own origin up to the first colon |
| CacheQuery.EraseUpTo | src/Redis.cpp:239-287 | the erasing loop leaves what the recursive trim leaves, or nothing if it gives up |
| CacheQuery.GetCacheSinceId | src/Redis.cpp:220-293 | the same for any text as the id, with the cases of one that does not come apart, timestamp zero and an empty result |
| CacheQuery.SinceIdExact | src/Redis.cpp:239-287 | for items in any order and any text that comes apart into the id, the answer is exactly the items later than the id iff none of them comes before it; else it is empty |
| CacheQuery.SinceIdAbsent | src/Redis.cpp:239-287 | an id that is not in the result gives nothing |
| CacheQuery.SinceIdIsSuffix | src/Redis.cpp:239-287 | on a strictly sorted result the answer is the suffix behind the id |
| CacheOrder.OrderedIdsDiffer | src/Redis.cpp:72-80 | members of one score set with different ids have different id texts |
| CacheOrder.NewestAreKept | src/Redis.cpp:137-145 | a limit keeps that many of the items since the timestamp, in order, and every item left out comes before every one kept |
| CacheOrder.RedisOrderIsIdOrder | src/Redis.cpp:137-142 | among equal digit counts the order Redis returns is the order of ids |
| CacheOrder.RedisOrderExact | src/Redis.cpp:137-142 | two items of one timestamp come back in the order of their numbers iff the smaller is below the leading digits, as many as it has, of the larger |
| CacheOrder.RedisOrderCanDiffer | src/Redis.cpp:137-142 | so number 10 of a millisecond comes back before number 9 |
| CacheOrder.PairLost | src/Redis.cpp:239-287 | whenever the later of two items comes back first, asking for what follows the earlier one gives nothing |
| CacheOrder.LaterItemLost | src/Redis.cpp:239-287 | the smallest case: asked for what follows number 9 of a millisecond, number 10 is not given |
| CacheOrder.LaterItemsSwapped | src/Redis.cpp:137-142 | the other failure: asked for what follows number 0, with all later items meeting the digit condition, number 10 is given before number 9 |
| CacheOrder.CacheSinceSorted | src/Redis.cpp:137-142 | the messages since a timestamp come from oldest to newest iff every two of them, later and earlier, meet the digit condition |
| CacheOrder.SinceIdNegative | src/Redis.cpp:220-293 | a timestamp of more than 63 bits, read as a negative one, gives nothing |
| CacheOrder.EventsAfterId | src/Redis.cpp:220-293 | both queries on one topic in the order Redis returns, for any text that comes apart: nothing unless its timestamp is positive and the id is there; then all later items iff each of them meets the digit condition with the id, else nothing; and all later items from oldest to newest, which is what is promised, iff every two from the id on meet it |
| CacheOrder.EventsAfterIdSameWidth | src/Redis.cpp:220-293 | with equal digit counts per millisecond the result is sorted and the answer a suffix of it |
| CacheRead.UnexpiredGiven | src/Redis.cpp:145-199 | the query against the running store: every member read that has not expired when its payload is read is given, with the payload it was cached with, whatever was cached and purged between the two commands |
| CacheRead.OnlyCachedGiven | src/Redis.cpp:145-199 | and each item given is a member read that had not expired at the start, with the payload it was cached with |
| RateLimiter.Store.IsRateLimited | src/Redis.cpp:402-416 | limited iff there is a maximum and a live counter has reached it |
| RateLimiter.Store.IncrementLimitCount | src/Redis.cpp:421-436 | a live counter goes up and keeps its expiry time; otherwise one starts at 1 for `interval` seconds; an interval of zero counts nothing |
| RateLimiter.Store.TryPublish | src/RPCHandler.cpp:280-296 | admitted iff there is no maximum, no live counter, or one below the maximum; counted iff admitted and there is an interval, so also without a maximum; with both, one attempt of the model on this key that touches no other |
| RateLimiter.RunInv | src/RPCHandler.cpp:280-296 | every run of publishes at non-decreasing times keeps the counter exact for its lifetime |
| RateLimiter.AtMostMaxPerLifetime | src/Redis.cpp:402-436 | per counter lifetime exactly the counted publishes, at most `max`, are admitted |
| RateLimiter.WindowBound | src/Redis.cpp:402-436 | any half-open span of one interval admits at most 2 max - 1 publishes, any closed one at most 2 max |
| RateLimiter.WindowBoundTight | src/Redis.cpp:402-436 | for every maximum and every interval of two seconds or more some run reaches 2 max - 1 |
| RateLimiter.ClosedWindowBoundTight | src/Redis.cpp:402-436 | for every maximum and every interval some run reaches 2 max in a closed span |
| RateLimiter.OneSecondBound | src/Redis.cpp:402-436 | with an interval of one second a half-open span, a second of the clock, admits at most `max` |
| RateLimiter.OneSecondBoundTight | src/Redis.cpp:402-436 | and some run reaches it |
| RateLimiter.SharedExactly | include/Redis.hpp:46-46 | two limits share a counter iff they are the same, or the topic of one is that of the other, a colon and more, and the subject of the shorter is that rest, a colon and the other subject |
| RateLimiter.PathsMeet | include/Redis.hpp:46-46 | two topics share a counter, by some subjects, iff they are equal or one continues the other with a colon |
| RateLimiter.PathInjective | include/Redis.hpp:46-46 | limited topics without a colon: different topics or subjects have different counters |
| RateLimiter.PathCollides | include/Redis.hpp:46-46 | the condition is needed: a topic with a colon shares the counter of every subject with a shorter topic |
| RateLimiter.ColonLimitNeedsHash | src/AccessController.cpp:145-177 | a limit with a colon applies to a valid topic only if a `#` level stands before the colon |
| RateLimiter.LimitsCollide | src/AccessController.cpp:145-177 | such limits exist and collide: `#/a:b` and `#/a` apply to every topic and share a counter |

## Left out

- Sockets, epoll, timerfd, eventfd and Redis itself: their results are parameters or nondeterministic steps (any part of a write, try again, failure; a counter; atomic commands on maps).
- TLS connections: `SSLConnection` has its own flush, which the write buffer theorem does not cover.
- JSON, JSON-RPC, JWT decoding and signatures, configuration, metrics, logging, HTTP and SSE response texts: foreign libraries or plumbing.
- `phr_decode_chunked` and `phr_parse_response`, which nothing calls, and the SSE4.2 path of the header scanner.
- Integer widths: lengths and indices are unbounded, so `int` overflow of base64 indices from 2^31 octets on, of the HTTP minor version and of the 32-bit chunk counter of `sendData` are not modelled.
- Host: little-endian, with signed `char`, `isalnum`, `isspace` and `tolower` of the C locale, and a clock that reads after 1970.
- WsParser.Parser.Append: size callbacks are counted, not placed in one log with deliveries; what the handler does on one is a shutdown at the end of the read.
- WsParser.Parser.constructor: `ws_parser_init` leaves most fields unset; they are parameters of any value, and the error callback of a parser without a handler is not modelled.
- HttpParser.Parser.ParseData: error message texts are not modelled; the callback's status is the result.
- HttpRender.RequestRoundTrip: well-formed means a method and path without controls and spaces, a minor version of digits, names of token start without colons or controls, and values without leading blanks or controls.
- Subscriptions.Topic.Publish: the JSON text of a copy is not modelled, only to whom, for which filter and with which request id it goes; which copies shut their connections down is a parameter of any value, not derived from write buffers.
- Subscriptions.TopicManager.Adopt: weak pointers are a `live` flag; worker lists of connections and their removal by timers are not modelled.
- Timers.EventLoop.ProcessTimers: callbacks may change `repeat` and take time, but do not add timers, which would deadlock on the queue lock; reading the cache from other threads while timers run is left out.
- Wakeup.EveryRun: the set of workers is fixed and none stops; timers and client events are steps that do not touch the job queue.
- WriteBuffer.Connection.FlushSendBuffer: EPOLLOUT is a flag that the epoll call always sets.
- CacheStore.OnlyExpiredRemoved: ids are distinct per topic and there is one clock that does not go back, both assumptions (the id counter expires after a second); the `pub_count` cleanup is left out.
- CacheQuery.GetCacheSince: one topic; the pattern query, which concatenates the answers of several, is not modelled.
- CacheText.StoullReads: `unsigned long` has 64 bits.
- CacheOrder.RedisOrderExact: a score is the timestamp itself; Redis keeps it as a double, which is exact up to 2^53.
- RateLimiter.Store.TryPublish: check and increment are one step; the raw interleaving of several servers has no bound to prove.
