# MQTT broker and gateway: verified core algorithms

This project models, in Dafny, the self-contained algorithms inside an MQTT broker, MQTT-SN gateway and
rules engine written in C, and proves what they promise: the JSON parser, printers and minifier
(`src/cJSON.c`), SHA-1 (`src/tls.c`), MQTT framing and packet codecs (`src/mqtt.c`, `src/utf8.c`), the
message queue and the request/reply handshake between threads (`src/msgs.c`, `src/msg_rules_mqtt.c`), the
subscription and publication lists with the topic matcher (`src/list.c`, `src/lists.c`), cron fields
(`src/cron_trigger.c`) and the rule chain executor (`src/rules.c`).

`dafny verify dfyconfig.toml` checks everything.

## How it is modelled

Code that changes memory step by step is written as methods with loops over arrays, linked nodes and class
fields, each proved against a specification function or relation; what the code promises is then proved
about those specifications.

- **JSON.** `JsonTree` has the trees and the printed text, written with the text that follows; `JsonParse`
  has the parser on the text still to be read; `JsonHeap` builds the linked items; `JsonString` is the two-pass
  string decoder; `JsonPrint` has the two-pass printers, from the same linked items into buffers; `JsonMinify` the in-place minifier, with
  its theorems in `JsonMinifyProofs` and `JsonMinifyMeaning`; `JsonRoundTrip` the round trips; `JsonNumbers`
  the numbers of RFC 8259; `JsonExamples` the form of the texts.
- **SHA-1.** `Sha1Spec` is FIPS 180-4, sections 5.1.1 and 6.1.2, as written there; `Sha1` the unrolled rounds
  with renamed registers and the ring of 16 words; `Sha1Stream` the streaming context;
  `Sha1Known` a known digest.
- **MQTT.** `MqttFraming` has lengths, frames and fixed headers, `MqttFields` length-prefixed strings,
  `MqttConnect`, `MqttPublish` and `MqttSubscribe` the packets, `MqttExamples` octets as the standard prints them. Masks and shifts of octets are written with
  `/` and `%`. `rem` is the memory from `rem_buf` on; a read behind it, and a failed `assert`, are outcomes of
  their own (`ReadsPast`, `AssertFails`).
- **Lists.** `OrderedMap` is the specification, `LinkedList` the nodes, `TopicStores` the lists by name and
  by topic id, `TopicMatch`, `TopicParent` and `TopicAgreement` the matcher.
- **Threads.** `MsgQueue` has the three list functions of a queue on linked nodes; `MsgProtocol` and
  `GapProtocol` are state machines in which every access to shared memory is a step, with an inductive
  invariant and theorems about every state of every run.
- **Cron.** `CronField` has the ring and number reading, `CronParse` the parse loop, `CronMeaning` the
  language of fields, `CronLine` the five fields together.
- **Rules.** `Rules` has the node functions, the broker's answers as an arbitrary stream, each with the memory
  behind its buffer, and the executor.
- **Shared.** `DecimalText` has digits and decimal numbers, `Powers` powers, `Bytes` octets, `Wrappers` options.

## What the code does that its purpose would not suggest

- `cJSON_Minify` reads past the end of a text that is a single string without a closing quote, which the
  parser accepts (`JsonMinifyMeaning.UnclosedOverruns`); every other text that is accepted up to its end keeps
  its meaning (`JsonMinifyMeaning.MinifyKeepsWhole`).
- `cJSON_Parse` also accepts texts with something behind the value. There the minifier can run over what is
  behind, as in `1"a`, or join it to a number: `1 2` becomes `12` (`JsonMinifyMeaning.QuoteBehindNumber`,
  `NumbersJoin`); nothing else goes wrong (`JsonMinifyMeaning.MinifyKeepsMeaning`).
- A rule reads numbers with `strtol` and `strtod` from buffers without a terminator. If a digit stands in the
  memory behind, the text of a long is not recognized, and an increment or decrement ends the chain
  (`Rules.CounterGoesOn`, `Rules.SevenBeforeOne`).
- A CONNECT with both credential flags, no user name and a password is written and read back with the
  password as its user name (`MqttConnect.PasswordTakenForName`).
- The parent-level check behind `P/#` compares everything but the last characters, is not reached for filters
  and topics of one character, and misses a topic whose last level is longer than the + that P ends in:
  "foo/#" takes "fox", "f/#" does not take "f", and "a/+/#" does not take "a/bc". Scan and section 4.7.1
  differ in exactly these cases (`TopicAgreement.ParentAgreesUnless`).
- In a cron field a step behind a number makes the range run to the end of the ring even when an upper end
  is given: "10-20/5" marks minute 55 (`CronMeaning.StepOverridesUpperEnd`). What is written is marked exactly
  when as many whole steps fit in up to the upper end as up to the end of the ring
  (`CronMeaning.SteppedRangeKeepsItsEnd`).
- A number 0 among the months stands below the array. "0" writes there, while "0-5" is taken for "5" and
  "3-0" for "3" (`CronMeaning.MonthZero`); `CronMeaning.FieldMeaning` says exactly which fields write there.
- Days `1-31` do not count as all days, because entry 0 stays clear (`CronLine.DatesAndWeekdays`).
- Of a PUBLISH payload of 65536 octets or more only the length modulo 65536 is stored (`MqttPublish.LongPayload`).

## Model

| member | source | states |
|---|---|---|
| JsonHeap.ParseWithOpts | src/cJSON.c:268-282 | either a null pointer with ep at the offending text, or a fresh root whose linked items are a tree that stands for the parsed value, with the rest of the text; the parser's result in both cases |
| JsonHeap.ParseValue | src/cJSON.c:291-303 | the item and what is linked below it denote exactly the value at the start of the text, and the pointer returned stands behind it, or ep at the fault |
| JsonHeap.ParseKids | src/cJSON.c:324-349 | arrays and objects: a new chain of children, doubly linked, acyclic and sharing nothing, that denotes the elements or members in order |
| JsonHeap.AppendItem | src/cJSON.c:340-344 | one comma: the chain gets one more node behind the last, linked both ways, and all earlier nodes keep their meaning |
| JsonHeap.ParseElement | src/cJSON.c:416-439 | a member's string becomes its key, the colon is demanded, and the value is parsed into the same item |
| JsonHeap.ManyItems | src/cJSON.c:335-348 | the loop over commas yields the same chain and the same rest, or the same fault, as the recursive definition of arrays |
| JsonHeap.ManyMembers | src/cJSON.c:421-442 | the same for objects |
| JsonHeap.LinkedBothWays | src/cJSON.c:340-344 | in a chain the first item has no predecessor, the last no successor, and every other one is the predecessor of its successor |
| JsonHeap.DenotesOne | src/cJSON.c:291-303 | an item with what is below it stands for at most one value |
| JsonHeap.DenotedKind | src/cJSON.c:291-303 | the type of an item says which kind of value it stands for, and number and text are its own |
| JsonRoundTrip.TextRoundTrip | src/cJSON.c:268-288 | for every tree of null, booleans, C ints, NUL-free strings, arrays and keyed objects, parsing the formatted and the compact print gives the same tree back and consumes the whole text |
| JsonRoundTrip.ValueRoundTrip | src/cJSON.c:291-511 | the same for a value printed at any depth in front of any text that cannot continue a number |
| JsonRoundTrip.StringRoundTrip | src/cJSON.c:159-252 | every NUL-free string survives printing and parsing |
| JsonRoundTrip.NumberRoundTrip | src/cJSON.c:100-130 | every C int printed and parsed gives the same number and leaves the text behind it |
| JsonRoundTrip.EscapedScalarDecodes | src/cJSON.c:183-205 | a \u escape of a non-zero scalar below U+10000, in either case, decodes to its UTF-8 form (section 3 of RFC 3629) |
| JsonRoundTrip.EscapedPairDecodes | src/cJSON.c:188-205 | a surrogate pair decodes to the UTF-8 form of its scalar |
| JsonNumbers.NumberIsRead | src/cJSON.c:100-119 | every number that section 6 of RFC 8259 allows is read to its end, and as all its digits, as one integer, times the power of ten that the exponent and the digits of the fraction make |
| JsonNumbers.ScaledIsTimesPower | src/cJSON.c:117 | times such a power is multiplication or division by as many tens |
| JsonNumbers.FractionExample | src/cJSON.c:100-119 | "1.5" is 1.5 |
| JsonNumbers.ExponentExample | src/cJSON.c:100-119 | "-12e-1" is -1.2 |
| JsonExamples.EscapesStandFor | src/cJSON.c:176-207 | the eight two-character escapes of section 7 of RFC 8259 |
| JsonExamples.OthersStandForThemselves | src/cJSON.c:206 | behind a backslash any other character stands for itself |
| JsonExamples.HexDigits | src/cJSON.c:145-156 | each of the 22 hexadecimal digits has its value |
| JsonExamples.HexPlaces | src/cJSON.c:145-156 | four of them are a number in base 16, the most significant first |
| JsonExamples.PairExample | src/cJSON.c:183-205 | the pair that RFC 8259 gives for U+1D11E is decoded to the octets F0 9D 84 9E |
| JsonExamples.UnpairedDropped | src/cJSON.c:186-190 | an escape of U+0000, of a low surrogate, or of a high one without a second escape behind it stands for nothing |
| JsonExamples.MispairedDropped | src/cJSON.c:188-193 | a high surrogate followed by the escape of anything but a low one takes that escape with it |
| JsonExamples.ValueFaults | src/cJSON.c:291-303 | what begins like no value is a fault where it stands |
| JsonExamples.ItemsFaults | src/cJSON.c:335-348 | behind an element anything but a comma or the closing bracket is a fault where it stands |
| JsonExamples.MembersFaults | src/cJSON.c:421-443 | members are accepted only with a key, a colon, a value, and a comma or the closing brace |
| JsonExamples.TextFaults | src/cJSON.c:268-282 | with the end required, what is behind the value and its blanks is a fault where it stands |
| JsonString.DecodedFits | src/cJSON.c:164-211 | for every text the decoded string is no longer than the first pass has counted |
| JsonString.CountString | src/cJSON.c:164 | the counting loop computes the length the specification of the first pass gives |
| JsonExamples.EscapesCountOnce | src/cJSON.c:164 | the first pass counts a backslash and what is behind it as one character, and stops in front of a quote or at the end |
| JsonExamples.PlainCountsOnce | src/cJSON.c:164 | it counts any other character as one |
| JsonString.PutUtf8 | src/cJSON.c:196-204 | the octets written back to front are the UTF-8 form of the code point |
| JsonString.ParseStringBuffer | src/cJSON.c:159-216 | both passes: the buffer has the counted size, holds the decoded string and its NUL, and nothing is written outside it |
| JsonPrint.PrintStringPtr | src/cJSON.c:219-252 | the buffer holds the escaped string and its size is exact |
| JsonPrint.EscapedLength | src/cJSON.c:224 | the first pass counts exactly the length of the escaped text |
| JsonExamples.PlainPrinted | src/cJSON.c:229-233 | a string without quotes, backslashes and control characters is printed as it is, between quotes |
| JsonExamples.NoControlPrinted | src/cJSON.c:229-251 | no control character is in the text of any string |
| JsonExamples.ShortEscapesPrinted | src/cJSON.c:237-247 | the seven short escapes, and the long one of U+001B |
| JsonPrint.PrintNumber | src/cJSON.c:122-130 | every C int fits the 21 bytes with its NUL |
| JsonPrint.PrintItem | src/cJSON.c:306-321 | for every linked item that stands for a printable tree, every depth and format flag, the buffer holds the printed text of the tree |
| JsonPrint.PrintItemEntries | src/cJSON.c:373-380 | the first pass of print_array prints every element in order and adds up the size |
| JsonPrint.ComposeArray | src/cJSON.c:395-407 | the second pass stays within the size counted and writes the text of the array |
| JsonPrint.PrintMemberEntries | src/cJSON.c:473-480 | the first pass of print_object prints every key and value in order and adds up the size |
| JsonPrint.ComposeObject | src/cJSON.c:494-511 | the second pass stays within the size counted and writes the text of the object |
| JsonPrint.ItemsFit | src/cJSON.c:373-407 | what the second pass writes for the elements never exceeds what the first counted |
| JsonPrint.MembersFit | src/cJSON.c:473-511 | the same for the members |
| JsonExamples.ItemsCounted | src/cJSON.c:373-380 | by how much exactly the first pass over the elements counts too much |
| JsonExamples.MembersCounted | src/cJSON.c:473-480 | the first pass over the members counts exactly one character too much |
| JsonExamples.PrintableArray | src/cJSON.c:306-321 | the arrays in the scope of the round trip are those whose elements are |
| JsonExamples.HeldIsTerminated | src/cJSON.c:219-252 | what it means that a buffer holds a string: its characters, a NUL behind them, and none among them |
| JsonExamples.ArrayPrinted | src/cJSON.c:352-411 | the text of every array is its elements between brackets, separated by commas, with a blank behind each if formatted |
| JsonExamples.ObjectPrinted | src/cJSON.c:447-513 | the text of every non-empty object is its members between braces, separated by commas, and formatted each on a line of its own, one tab deeper, with a tab behind the colon |
| JsonExamples.EmptyObjectPrinted | src/cJSON.c:456-468 | an empty object is two braces, formatted with a line break and one tab less than the depth |
| JsonExamples.WordsPrinted | src/cJSON.c:306-321 | the texts of null, true, false and -12 |
| JsonMinify.Minify | src/cJSON.c:585-600 | in one buffer, with the writing cursor never passing the reading one, the text becomes its minified form and is no longer than before |
| JsonMinify.CopyString | src/cJSON.c:596 | string literals are copied up to and including the closing quote, escapes untouched, and the unread text is not touched |
| JsonMinify.MinifiedFromIsMinified | src/cJSON.c:588-598 | scanning by positions in one text is the same as the definition on suffixes |
| JsonExamples.LineCommentDropped | src/cJSON.c:594 | a double slash and all up to the end of its line are dropped, in front of any text |
| JsonExamples.BlockCommentDropped | src/cJSON.c:595 | a slash with a star and all up to the first star with a slash behind it are dropped; that star may be the opening one |
| JsonMinifyProofs.MinifyPrinted | src/cJSON.c:287-288 | minifying the formatted or the compact print of any tree gives the compact print, character for character |
| JsonMinifyMeaning.MinifyKeepsMeaning | src/cJSON.c:284-600 | for every text cJSON_Parse accepts, whatever is behind the value: the minifier stays inside it if and only if it is no unclosed string and it stays inside what is behind; then the same value is parsed, with the minified rest behind it, if and only if the value is no number that goes on in that rest |
| JsonMinifyMeaning.MinifyKeepsWhole | src/cJSON.c:585-600 | every text accepted up to its end parses to the same value after minifying, exactly unless it is one unclosed string |
| JsonMinifyMeaning.NumbersJoin | src/cJSON.c:585-600 | "1 2" is accepted as 1 and minified to "12", which is 12 |
| JsonMinifyMeaning.QuoteBehindNumber | src/cJSON.c:596 | a number with a quote and a letter behind it is accepted as the number and overrun by the minifier |
| JsonMinifyMeaning.UnclosedOverruns | src/cJSON.c:596 | a top-level string without a closing quote makes the minifier read past the end |
| JsonMinifyMeaning.UnclosedExample | src/cJSON.c:596 | the text of a quote and one letter is such a string: accepted by the parser, overrun by the minifier |
| Sha1.SwapIsBigEndian | src/tls.c:166-170 | the rotate-and-mask swap of a little-endian word is the big-endian word of the standard |
| Sha1.RewrittenCh | src/tls.c:178-183 | the rewritten Ch equals the standard's |
| Sha1.RewrittenMaj | src/tls.c:187-189 | the rewritten Maj equals the standard's |
| Sha1.NextRing | src/tls.c:174-177 | overwriting the word of 16 rounds ago keeps the last 16 words of the 80-word schedule in the ring |
| Sha1.RunIsValid | src/tls.c:206-285 | the rounds of section 6.1.2 form a run in which registers shift and the ring holds the schedule |
| Sha1.AllRounds | src/tls.c:200-285 | for every block and state, on either byte order, the 80 renamed rounds leave the five words the shifting rounds of the standard leave |
| Sha1.Transform | src/tls.c:195-293 | the state becomes the compression of the old state and the block (section 6.1.2 of FIPS 180-4) |
| Sha1Known.ConstantsAreRoots | src/tls.c:178-192 | in each range of rounds the constant is the integer part of 2^30 times the square root of 2, 3, 5 or 10 |
| Sha1Known.InitialOctets | src/tls.c:296-304 | the octets of the initial value count up 01 23 .. EF, down FE DC .. 10, and F0 E1 D2 C3 |
| Sha1Known.AbcDigest | src/tls.c:296-353 | the digest of "abc" is A9993E36 4706816A BA3E2571 7850C26C 9CD0D89D, proved round by round |
| Sha1Spec.PaddedToBlocks | src/tls.c:339-345 | the padding of section 5.1.1 makes every message a whole number of blocks |
| Sha1Stream.CounterAdvances | src/tls.c:311-315 | after the three lines the two 32-bit words hold 8 times the new octet total mod 2^64 |
| Sha1Stream.Context.constructor | src/tls.c:296-304 | a fresh context has absorbed the empty message |
| Sha1Stream.Context.Update | src/tls.c:307-326 | a context that has absorbed m has absorbed m + data: state the fold over complete blocks, buffer the tail, counter 8 times the length mod 2^64 |
| Sha1Stream.Context.Final | src/tls.c:329-353 | the digest of what was absorbed, padded as section 5.1.1 says |
| Sha1Stream.DigestOfChunks | src/tls.c:296-353 | however a message is cut into chunks of less than 2^32 - 63 octets, the result is the digest of FIPS 180-4 of the concatenation |
| Utf8.StrLen | src/utf8.c:18-27 | counts the octets that are not continuation octets |
| Utf8.StartersCountScalars | src/utf8.c:18-27 | for the UTF-8 form of any sequence of code points that is the length of the sequence |
| Utf8.EncodedBits | src/cJSON.c:196-204 | the octets of every code point have the lead and continuation bits of section 3 of RFC 3629, and their other bits put together are the code point |
| MqttFraming.LengthRoundTrip | src/mqtt.c:315-330 | for every length below 2^28 the field is valid under section 2.2.3 of MQTT 3.1.1, decodes to the length, and has the number of octets of table 2.4 |
| MqttExamples.LengthExamples | src/mqtt.c:315-330 | 64, 321 and the ends of all ranges of table 2.4 have the octets printed there |
| MqttFraming.PacketCheckLength | src/mqtt.c:45-75 | result, length, header size and advanced position are those of the specification; errors leave the position alone |
| MqttFraming.FrameHeader | src/mqtt.c:56-69 | of any whole frame, whatever follows, exactly its header is read |
| MqttFraming.HeaderFrame | src/mqtt.c:56-73 | whenever a header is read and as many octets follow, those octets are a whole frame |
| MqttFraming.PacketsBufferCheck | src/mqtt.c:78-95 | terminates with the result of the specification |
| MqttFraming.ZeroMeansWholeFrames | src/mqtt.c:78-95 | 0 if and only if the buffer is a non-empty concatenation of whole frames |
| MqttFraming.MinusTwoMeansTooLong | src/mqtt.c:60-61 | -2 if and only if whole frames are followed by a length field with a fifth octet |
| MqttFraming.PrefixOfFrames | src/mqtt.c:78-95 | every non-empty prefix of a concatenation of frames gives 0 on a frame boundary and -1 elsewhere |
| MqttFraming.FixedHeaderDecode | src/mqtt.c:98-109 | type, dup, QoS and retain are bits 7 to 4, 3, 2 to 1 and 0 of the first octet; remaining length and position as in the length check |
| MqttFraming.DecodedBits | src/mqtt.c:103-106 | whatever header is decoded has its type in bits 7 to 4 of the first octet, DUP in bit 3, QoS in bits 2 and 1, RETAIN in bit 0 (figure 2.2) |
| MqttFraming.WalkIsBoundaries | src/mqtt.c:98-109 | decoding header after header walks exactly the frame boundaries |
| MqttFraming.EncodeDigits | src/mqtt.c:317-330 | the loop writes the specified length field into at most four octets |
| MqttFraming.PacketEncode | src/mqtt.c:315-341 | first octet with type, dup, QoS and retain in those bits, length field and body, in a buffer of exactly that size |
| MqttFraming.EncodedIsFrame | src/mqtt.c:315-341 | an encoded packet is one frame, and the length check reads its length and finds its body, whatever follows |
| MqttFraming.EncodedDecodes | src/mqtt.c:98-109 | the header decoded from an encoded packet, whatever follows, is the encoded one in every field: type, dup, QoS, retain, length and body |
| Bytes.NetworkOrder | src/mqtt.c:153 | 16-bit numbers compare as their octets do from the first one on |
| MqttFields.FieldOctets | src/mqtt.c:155-158 | a string field is two octets of length, the more significant first, and the string |
| MqttConnect.ConnectEncode | src/mqtt.c:344-421 | the size added up first is the size written, and the packet holds fixed part and optional fields in order |
| MqttConnect.FlagsRoundTrip | src/mqtt.c:145-151 | all combinations of connect flags survive encoding and decoding |
| MqttConnect.FlagBits | src/mqtt.c:374-379 | the flags encoded stand in the bits of figure 3.4, and the reserved bit is clear |
| MqttConnect.FlagsOfBits | src/mqtt.c:145-151 | and the flags decoded are those bits, for every octet |
| MqttConnect.ConnectRoundTrip | src/mqtt.c:117-215 | a header comes back whole from a zeroed one, accepted if there are no users or the pair is listed and else with code 4, if and only if it has a client id of at most 23 characters, topic and message exactly with the will flag, no credential without its flag, and no password behind a flagged but empty user name |
| MqttConnect.Admission | src/mqtt.c:198-214 | in that round trip everybody is let in without users, with publish_enable 1, and with users exactly the pairs listed, each with its own flag, others getting code 4 |
| MqttConnect.Refusals | src/mqtt.c:127-164 | for any memory of at least 14 octets, another protocol is refused with code 1 and an empty or too long client id with code 2; a client id that reaches behind the packet fails an assertion |
| MqttExamples.ReturnCodes | src/mqtt.c:127-214 | the codes are those of table 3.1 |
| MqttExamples.ConnectExample | src/mqtt.c:344-421 | the octets of a CONNECT with all its fields, in their order |
| MqttExamples.Protocol311 | src/mqtt.c:122 | the name and level of MQTT 3.1.1 |
| MqttConnect.PasswordTakenForName | src/mqtt.c:182-196 | with both credential flags and no user name, a password comes back as the user name |
| MqttConnect.ConnectOverTheWire | src/mqtt.c:361-420 | the packet is one frame, and whatever fixed header is decoded from it, in front of anything, leads to that round trip, under the same condition |
| MqttConnect.AcceptedIsEncoded | src/mqtt.c:117-215 | the converse, for MQTT 3.1 and 3.1.1: behind protocol name and level an accepted packet is, octet for octet and but for the reserved flag, what the encoder writes for the decoded header, and its credentials are listed |
| MqttConnect.AcceptedIsBody | src/mqtt.c:117-215 | an accepted 3.1 packet with the reserved flag clear is exactly the encoder's |
| MqttConnect.ConnectHeader.Decode | src/mqtt.c:117-215 | the header's fields and the outcome, step by step, are those of the specification, for every memory content |
| MqttConnect.ConnectHeader.CheckUser | src/mqtt.c:198-214 | with users the pair must be found, and publish_enable is its flag; without users it is 1; the length is asserted last |
| MqttPublish.PublishEncode | src/mqtt.c:486-508 | name, message id above QoS 0, and data, in one packet with the header's flags |
| MqttExamples.PublishExample | src/mqtt.c:486-508 | the octets of section 3.3.2.3 for the name a/b and the identifier 10, in front of any data |
| MqttPublish.PublishHeader.Decode | src/mqtt.c:283-301 | the publication list after decoding is the list before with this one entry put; message id and QoS; nothing changes on failure |
| MqttPublish.PublishReads | src/mqtt.c:283-301 | what was encoded is decoded: same name and data, retain 0 without data, the message id above QoS 0 |
| MqttPublish.PublishRoundTrip | src/mqtt.c:283-301 | over the wire, in front of anything: one frame; the header decoded from it brings QoS and retain back; under it the publication is stored and every other topic unchanged |
| MqttPublish.LongPayload | src/mqtt.c:287 | of any payload the first (length mod 65536) octets are stored: the whole payload if and only if it is shorter than 65536 |
| MqttSubscribe.WalksExactlyPayloads | src/mqtt.c:231-243 | the walk ends well with these requests if and only if the payload is exactly their concatenation |
| MqttSubscribe.WalkCounts | src/mqtt.c:231-243 | however the walk ends, it has counted the whole requests it has read |
| MqttSubscribe.BoundWraps | src/mqtt.c:231 | the bound of the walk is the unsigned 32-bit difference |
| MqttExamples.SubscribeExample | src/mqtt.c:231-243 | the payload of section 3.8.3 for a/b with QoS 1 and c/d with QoS 2 |
| MqttSubscribe.DecodingFoldsTheMap | src/mqtt.c:224-280 | decoding a well-formed packet is the in-order fold of map updates (or removals) on the insertion-ordered map, with unique keys kept |
| MqttSubscribe.SubscribeHeader.Subscribe | src/mqtt.c:224-244 | both lists become the fold over the requests read, up to the point where decoding fails if it does; message id and number of requests |
| MqttSubscribe.SubscribeHeader.Unsubscribe | src/mqtt.c:264-280 | the list becomes the fold of removals |
| LinkedList.List.AddItem | src/list.c:66-84 | the node goes behind the last one; the list stays an acyclic chain |
| LinkedList.List.Remove | src/list.c:36-63 | a node in the list is unlinked, its successor returned and all others kept in order; a node not in it changes nothing |
| LinkedList.List.GetLength | src/list.c:87-96 | the number of nodes |
| LinkedList.List.Find | src/lists.c:39-55 | the first node with the key, or null if there is none |
| OrderedMap.PutRefines | src/lists.c:115-135 | replace or append is the map update, keeps keys unique, and keeps an old key's place |
| OrderedMap.DropRefines | src/lists.c:138-149 | removal is the map removal, keeps keys unique and the order of the others |
| OrderedMap.StepRefines | src/lists.c:152-168 | every operation, including removal of the first entry of a kind, is the operation of an insertion-ordered map |
| OrderedMap.RunRefines | src/lists.c:115-573 | after any sequence of operations the keys are unique and the list is the insertion-ordered map the same operations give |
| TopicStores.SubAddReplace | src/lists.c:115-135 | the entry gets the QoS and keeps its topic id; a new one has topic id 0 and comes last |
| TopicStores.SubRemoveName | src/lists.c:138-149 | the entry with the name goes, if there is one |
| TopicStores.SubRemoveTopicId | src/lists.c:152-168 | the first entry with the topic id goes, if there is one |
| TopicStores.PubAddReplace | src/lists.c:363-375 | data and retain are replaced and the topic id kept, or a new entry with topic id 0 comes last |
| TopicStores.PubAddIgnore | src/lists.c:378-391 | a name that is there leaves the list as it is, data, retain and topic id included; otherwise a new entry comes last |
| TopicStores.RegAdd | src/lists.c:427-458 | one entry per topic id, in order of insertion |
| TopicStores.MsgAdd | src/lists.c:561-573 | QoS is set, tts and dup are 0, a message id is kept or 0 in a new entry, which comes last; one entry per topic id |
| TopicStores.MsgRemoveMsgId | src/lists.c:594-604 | the first message with the id goes, if there is one |
| TopicStores.RetainedMatchesExactly | src/lists.c:743-757 | the positions linked are all retained publications the filter takes, in list order, and no others |
| TopicStores.SubPubMatches | src/lists.c:743-757 | the links point to the publications at those positions |
| TopicStores.PubSubMatches | src/lists.c:760-773 | the QoS of the first subscription that takes the name, or -1 exactly if none does |
| TopicStores.OneFirstTaker | src/lists.c:760-773 | if a subscription takes a name, exactly one is the first that does |
| TopicMatch.PnameMatchesSname | src/lists.c:645-721 | the two-cursor loop, with its result and wildcard variables, computes the scan as coded |
| TopicMatch.ScanAgrees | src/lists.c:645-721 | for every valid filter and every name without wildcards or a final slash, unless the filter ends in # and the topic has fewer levels, the scan is the level-by-level matching of section 4.7.1 of MQTT 3.1.1 |
| TopicMatch.MatchByPosition | src/lists.c:645-721 | level matching spelled out: as many levels, or with a final # at least those before it, and each the same or a + |
| TopicMatch.LevelsJoin | src/lists.c:645-721 | the levels with slashes between them are the text |
| TopicMatch.LevelsFrom | src/lists.c:645-721 | and no other parts without slashes are |
| MqttExamples.TopicCharacters | src/lists.c:645-721 | separator and wildcards are the characters / + # |
| MqttExamples.PlusExamples | src/lists.c:645-721 | /finance is taken by +/+ and /+ but not by + (section 4.7.1.3) |
| TopicParent.ParentMatchesExactly | src/lists.c:707-716 | for P/# and a topic with no more levels than P, exactly when the scan accepts, against P's own match, which is what section 4.7.1 wants |
| TopicAgreement.ParentAgreesUnless | src/lists.c:707-716 | for every P and every topic with no more levels, exactly when the scan takes too much (all but the last characters match, and those differ and P's is no +) and exactly when it takes too little (both are one character, or P ends in + and the topic in a longer level) |
| TopicParent.ParentCounterexamples | src/lists.c:707-716 | "foo/#" takes "fox" and "f/#" does not take "f" |
| TopicAgreement.PlusParentCounterexample | src/lists.c:707-716 | "a/+/#" does not take "a/bc" |
| MsgQueue.Queue.Add | src/msgs.c:18-22 | the message becomes the newest; the others keep their order |
| MsgQueue.Queue.GetFirst | src/msgs.c:41-49 | the oldest message, or null |
| MsgQueue.Queue.Remove | src/msgs.c:25-38 | the message goes from wherever it stands, its next is cleared, and the others keep their order |
| MsgProtocol.StepKeeps | src/msgs.c:18-87 | every lock, unlock and pointer access of producers and consumer keeps mutual exclusion, the chain and the consumer's claim |
| MsgProtocol.QueueIsFifo | src/thread_rules.c:40-48 | at every point of every run no two are in the critical section, the messages handled are the first ones added, each time they were added once and in that order, though their memory may be used again after removal; the one held is the oldest, also when it is removed, and when the queue is found empty all added ones have been handled |
| MsgProtocol.HistoryGrows | src/thread_rules.c:40-48 | along every run what has been added and handled only grows |
| MsgProtocol.CanAdd | src/msgs.c:18-22 | a producer that finds the mutex free can add any message that is not in the queue; it becomes the head, linked to the one before |
| MsgProtocol.EverythingCanBeHandled | src/thread_rules.c:40-48 | from every point of every run, without any new message, there are steps after which every message added has been handled and removed and the consumer rests |
| GapProtocol.StepKeeps | src/msgs.c:162-188 | every step of requester and responder, with spurious wake-ups, keeps the invariant |
| GapProtocol.GapIsSafe | src/msg_rules_mqtt.c:29-54 | at every point of every run the responder has only the list of the blocked requester, no list is in both hands, the mutex excludes, and a waiting requester whose request is cleared is about to be signalled |
| GapProtocol.ResumesOnlyAfterReply | src/msgs.c:162-188 | between asking and leaving the wait there is exactly one reply, and before it an answer into the requester's list |
| GapProtocol.CanResume | src/msgs.c:161-188 | no deadlock: from every reachable state with a request under way it can be completed, without relying on a spurious wake-up |
| GapProtocol.CanRequest | src/msgs.c:161-188 | a requester that works can hand over any list and be resumed with it |
| CronField.RangeMarksExactly | src/cron_trigger.c:120-136 | a place is marked exactly if its distance from the lower end around the ring is within the range and on the step |
| CronField.FailsafeStops | src/cron_trigger.c:113-136 | with the upper end off the ring the loop makes 1024 rounds |
| CronField.MarkRing | src/cron_trigger.c:120-136 | the loop with its failsafe marks exactly those places and succeeds if and only if the upper end is on the ring |
| CronParse.ParseField | src/cron_trigger.c:45-149 | result and marks are those of the specification for every text for which no place below the array is written |
| CronParse.StaysInside | src/cron_trigger.c:66-71 | in a field without an offset no text ever leads to a place below the array |
| CronParse.TakeEnds | src/cron_trigger.c:56-109 | star, number or name, the slash rule, and the dash |
| CronParse.ReadLong | src/cron_trigger.c:110-114 | strtol in base 10: blanks, sign, digits, and where it stops |
| CronMeaning.FieldMeaning | src/cron_trigger.c:45-149 | for every well-formed field, months 0 included: 0 if and only if no item falls below the array and every upper end is on the ring, and then exactly the union of the stepped, possibly wrapping ranges is marked; a write below the array if and only if, before any upper end off the ring, an item has no end inside or above it; otherwise -1 |
| CronMeaning.BelowMeansNumbers | src/cron_trigger.c:66-71 | an item has no such end exactly if it is a number, or a range of two numbers, that the offset takes below the array: among the months only 0 |
| CronMeaning.MonthZero | src/cron_trigger.c:66-101 | among the months "0" leads below the array, "0-5" marks only May and "3-0" only March |
| CronMeaning.SteppedRangeKeepsItsEnd | src/cron_trigger.c:73-75 | a stepped range with a number as its upper end marks what is written if and only if the step is 0 or as many whole steps fit in up to that end as up to the end of the ring |
| CronMeaning.ParsesItems | src/cron_trigger.c:56-148 | each item of a well-formed field is read as written, in order, up to the first without an end or with its upper end off the ring |
| CronMeaning.StepOverridesUpperEnd | src/cron_trigger.c:73-75 | "10-20/5" marks minute 55 |
| CronLine.StarsMark | src/cron_trigger.c:203-213 | the star marks minutes 0 to 59, hours 0 to 23, dates 0 to 31, months 0 to 11 and weekdays 0 to 6 |
| CronLine.StarStepMarks | src/cron_trigger.c:56-136 | a star with a step marks exactly the multiples of the step |
| CronLine.NumberMarks | src/cron_trigger.c:62-71 | a number marks its place, which among the months is one less |
| CronLine.NumbersMark | src/cron_trigger.c:203-211 | which place a number marks in each of the five fields |
| CronLine.NoNames | src/cron_trigger.c:203-211 | a letter is a fault in minutes, hours and dates |
| CronLine.NamesMark | src/cron_trigger.c:80-95 | each name of a weekday marks its place from Sunday at 0 on, and each of a month from January at 0 on |
| CronLine.CaseIgnored | src/cron_trigger.c:84 | a name is found in any case |
| CronLine.LetterCase | src/cron_trigger.c:84 | for all 26 letters |
| CronLine.FiresOnce | src/cron_trigger.c:203-233 | a line whose fields mark one minute, hour, date and month, and every weekday, fires at exactly that time of that date |
| CronLine.OneWeekdayFires | src/cron_trigger.c:220-233 | and with one month and weekday, and every date, on exactly those weekdays of that month |
| CronLine.Line.FixDayDow | src/cron_trigger.c:153-177 | if exactly one of the two day arrays is full it is cleared, otherwise both stay |
| CronLine.FixingIsTheDayRule | src/cron_trigger.c:153-177 | after that, either array set means: only the other decides if exactly one was full, otherwise either suffices |
| CronLine.EntryZeroDecides | src/cron_trigger.c:165-170 | with dates 1 to 31 set and a weekday left out, the weekday decides alone if and only if entry 0 is set |
| CronLine.DatesAndWeekdays | src/cron_trigger.c:56-177 | with a weekday left out, the date text "*" leaves the choice to the weekdays, while "1-31" fires on every date |
| CronLine.Line.FlagStartingJobs | src/cron_trigger.c:220-233 | for every clock reading 1 if and only if minute, hour and month are in their sets and the day rule holds |
| CronLine.Line.ParseFields | src/cron_trigger.c:203-214 | 0 if and only if all five fields parse, and then the line holds their five sets after the day rule |
| Rules.StringOperators | src/rules.c:69-87 | on texts without NUL, == and != choose the true branch exactly for equal and for different texts |
| Rules.NumbersDecide | src/rules.c:90-136 | for two operands read as numbers, first topic against second topic or given value, each of the six operators takes the true branch exactly by their order, and any other ends the chain |
| Rules.FiveAtLeastThree | src/rules.c:104-110 | so 5 >= 3 takes the true branch |
| Rules.TextsDecide | src/rules.c:174-177 | if one operand is no number, == and != compare the texts and any other operator ends the chain |
| Rules.WhatIsSent | src/rules.c:231-259 | a value is sent under the name of its topic, and for a topic its name and that of the topic whose data it is to get |
| Rules.LongRange | src/rules.c:45-55 | of all integers exactly those of 32 bits are recognized |
| Rules.BlanksAndPlus | src/rules.c:45-55 | the six blanks of C and a plus sign may stand in front |
| Rules.LongReadsOn | src/rules.c:45-55 | for all data and any memory behind it, the number recognized is that of the text alone, unless a digit stands behind, and then there is none |
| Rules.LongTextReads | src/rules.c:45-66 | the text stored by an increment or decrement reads back as the number exactly if no digit stands behind its buffer |
| Rules.Broker.Condition | src/rules.c:139-228 | a condition reads one or two topics and chooses its branch, by numbers if both texts with the memory behind them are read just to their ends, else by strings; no data ends the chain |
| Rules.Broker.AddTo | src/rules.c:277-309 | increment and decrement read the data and the memory behind it, and store the changed number under the same name, or end the chain |
| Rules.Broker.FuncExecuteIn | src/rules.c:445-457 | the first function bound to the type runs; an unbound type ends the chain |
| Rules.Broker.NodeExecute | src/rules.c:460-476 | for every rule set whose next ids fall along a rank, which exists exactly without a cycle, and for all answers of the broker, it terminates, and its run is the path through the first node with each id, with the reads and packets of each |
| Rules.ChainIsUnique | src/rules.c:460-476 | there is only one such path |
| Rules.RunsEachIdOnce | src/rules.c:460-476 | on it no id runs twice and there are at most as many steps as nodes |
| Rules.NoDataEndsChain | src/rules.c:155-159 | a read that finds no data ends the chain and sends nothing, in conditions and in increments and decrements |
| Rules.CounterGoesOn | src/rules.c:290-308 | an increment or decrement goes on exactly if the topic holds the text of a long and no digit stands behind the buffer it was copied to; it then sends one packet under the same name, whose text stands for the next number, and otherwise nothing |
| Rules.DigitBehindEndsChain | src/rules.c:45-55 | with the text of any long in front of a digit, the chain ends and nothing is sent |
| Rules.SevenBeforeOne | src/rules.c:45-55 | so it is with 7 in front of 1 |
| Rules.RankUnlessCycle | src/rules.c:460-476 | a rank along which all next ids fall exists if and only if no next ids lead from a node back to it; only the first node with an id counts |
| Rules.ClosedNeverEnds | src/rules.c:460-476 | from a set of ids that every run of their nodes stays in, for any answers, no run is finite |
| Rules.ClosedHasNoRank | src/rules.c:460-476 | such a set has no rank along which its next ids fall |
| Rules.SendersAreClosed | src/rules.c:231-259 | sending nodes that lead only to one another are such a set |
| Rules.TwoSenders | src/rules.c:231-259 | two nodes that send and name each other as the next never come to an end |

## Left out

- Sockets, threads' start and stop, sleeping, logging, TLS wrappers, MySQL and the Windows shims.
- The broker's and the gateway's own state (client sessions, keep-alive, topic id assignment) and the MQTT-SN packets of src/mqttsn.c.
- Allocation failure and the accounting of freed memory; a removed node merely leaves the list.
- Floating point: parsed numbers are exact decimal reals, and only C ints are printed. Comparison of numbers in rules takes strtod as a parameter, on the text and the memory behind it, into the reals, without NaN.
- \u without four hexadecimal digits and a backslash as the last character: the parser's reads get out of step with the text; these texts are the result `Malformed`, and the linked parser is stated for the others.
- JsonHeap.ParseElement: strings and numbers are taken from the parser's functions; the decoding into a buffer of the counted size is JsonString.ParseStringBuffer. valueint is not kept beside the number.
- JsonHeap.ParseKids: the two C functions have a loop each; here they share one.
- Texts and lists are not bounded by the width of int or size_t; sizes added up by the printers are unbounded integers.
- Sha1.AllRounds: the 80 calls are grouped in rows of five, and the clearing of the buffers after use is not modelled.
- Sha1Stream.Context.Update: data of at most 2^32 - 64 octets, so that the index j + len does not wrap around.
- MqttConnect.ConnectHeader.Decode: the strings are copies; that they point into the packet is not captured.
- MqttConnect.ConnectEncode: the flags are taken within their bit fields, as the decoder leaves them.
- MqttSubscribe.SubscribeHeader.Subscribe: the short-lived list in the header is a value; the subscription list is linked nodes.
- The $ topics of section 4.7.2 of MQTT 3.1.1, topic names that end in a slash or contain wildcards: the matcher has no rule for them.
- list_clreg, list_link beyond its use in matching, and the will functions of src/lists.c, which repeat the list operations shown.
- GapProtocol.GapIsSafe: one requester and one responder, and no close; msggap_close writes the flag without the mutex.
- MsgProtocol.EverythingCanBeHandled: that the consumer is scheduled again is not claimed, only that it can go on to the end; memory is sequentially consistent.
- CronParse.ParseField: numbers are unbounded, so strtol's saturation is not modelled; a text that writes below the array, which only an offset makes possible, is outside its precondition; CronMeaning.FieldMeaning says exactly which fields those are.
- CronLine.Line.ParseFields: the same texts in the months field are outside its precondition.
- The splitting of a cron line by sscanf and the reading of the clock: the fields are parameters.
- Rules.Broker.AddTo: incrementing the largest long, which overflows in C, gives the next integer here; a long has 32 bits.
- Rules.Broker.NodeExecute: what data a topic has when it is read is an arbitrary stream of answers; the names asked for are not tied to it.
- rules_functions_init: the binding of types to functions is any list; suback, connack, pubxxx and ping packets, which are fixed layouts.
