# A verified model of the radio interface layer

This project models the parts of the Android radio interface layer in which most of its
state and arithmetic lives, and proves what they are for. It has five groups of modules.

**SMS codecs.** `HexFields`, `CdmaSms` and `CdmaDecode` are the CDMA encoder and decoder of
`helper/sms.c`: most-significant-bit-first fields ORed into a string of hex digits, with
records inside records (3GPP2 C.S0015-B, sections 3.4.3.3 and 4.5.2); `CdmaReceive` lays out
parcels as a network delivers them and reads them with the decoder. `Utf8`, `Septets` and
`Gsm7` are the text codecs of `helper/gsm.c` (section 6.1.2.1 of 3GPP TS 23.038), `Rope` its
measuring or writing buffer. `SmsAddress`, `SmsDeliver`, `SmsSegments` and `SmsReadBack` are the PDU builder,
parser and segmenter of `helper/sms_gsm.c` (sections 9.2.2.1, 9.2.2.2 and 9.2.3.24 of 3GPP TS
23.040), `SmsReader` a reader of whole SMS-DELIVER PDUs that goes by the coding, length and
header it finds, and `Transcode` is `gsm_to_cdmapdu`, which uses all of them.

**AT channel.** `AtReader` is the line reader over one sliding buffer, `AtResponse` the routing
and assembly of response lines, `AtChannel` the same as an object with the source's fields, and
`AtProtocol` the interleavings of command threads, reader, timeouts and reader close.

**pppd manager.** `PppManager` is the six-state machine, as an object and as a transition
system over its pipe of signals.

**Bit buffer and phone book.** `BitStream` is the least-significant-bit-first buffer written by
16-bit read-modify-write, `PhoneBook` the record codec on top of it.

**Tokenizer and registry.** `AtTok` cuts a response line in place; `Registry` is the pair of
handler tables with their override rule.

`KnownAnswers` states inputs and outputs byte by byte, so that the tables and constants on which
both directions of a codec agree are tied to the literals of the source and the standards.

`Bits` and `Basics` hold the shared arithmetic, C strings and a table lookup. Code that changes buffers and
fields in place is modelled by classes and by methods over arrays, each proved against a
specification function; the properties are lemmas about those functions.

Where the code meets its purpose only on part of its inputs, the exact part is proved:

- A number survives the CDMA address record exactly when it is over the decode table and has
  fewer than 256 characters (`NumberRoundTripIff`); a text survives the parcel exactly when it
  has fewer than 256 characters, all 7-bit (`CdmaRoundTripIff`).
- Of a SUBMIT the parcel carries the decoded text up to its first NUL; so it carries the text
  exactly when that is 7-bit without NUL (`TranscodedIff`). The sticky escape makes a NUL of "{a".
- Text survives the GSM alphabet exactly when every character has one septet, an extension
  character being allowed only last, because `escaped` is never cleared (`GsmRoundTripIff`).
- The segmenter counts septets and steps through characters. The stretches of the buffer that
  its parts are made from add up to the text exactly when no character of a 7-bit message takes
  two septets, and otherwise take in the byte after it (`SegmentsConserveIff`). The PDUs, read one
  after the other, give the text exactly when every extension character is the last of a full
  part of 154 (`ReadBackIff`): a terminator that is packed by itself is read as nothing. A text sent
  in UCS2 comes back exactly when it has fewer than 128 characters, since the length of a longer
  part overflows its byte (`SurvivesIff`).
- The default alphabet is that of section 6.2.1 of 3GPP TS 23.038 but for code 0x5D, where the
  source has U+0147 for U+00D1 (`TableIsStandard`); the data coding scheme is read as section 4
  of that standard asks on exactly the codes of `SchemeIsStandardIff`: 0x08 and 0x09 are taken
  for 7-bit text.
- A bit field written with stray bits in its last byte changes bits outside it, and a field
  without any never does (`FrameIff`); fields still read back in order (`Fifo`).
- A phone-book number survives exactly when no `+` stands in front of a pair and an even number
  does not end in the fill character (`NumberIff`). Over an older number in the static buffer it
  must also be no shorter than that by more than one character, its digits rounded up to pairs
  (`StaleNumberIff`, and `AfterOlderIff` in terms of the number returned before). A name survives
  exactly when it is whole units of one form that cannot be taken for the other and, if it fills
  its field, nothing is read of an older name behind it (`NameIff`).
- A STOP keeps pppd down exactly when it is consumed in IDLE, STARTING, RUNNING or STOPPING; in
  EXCEPTION and HALTING it is dropped (`StopSticksIff`), and runs from the start do that
  (`StopDroppedInException`, `StopDroppedInHalting`). A HALT holds exactly when it is consumed in
  RUNNING or HALTING (`HaltSticksIff`, `HaltDroppedInStarting`).
- An integer field is read back exactly when it fits 32 bits (`IntBackIff`), and a request has a
  handler exactly when its code was among the first 256 accepted ones (`Dispatch`).

Where some input fails, a lemma or a method shows one, except for the UCS2 texts of 128 characters and more.

Conventions: plain `char` is unsigned and `long` has 32 bits, as on the 32-bit ARM targets of the
source. C strings contain no NUL; a string computed in a buffer ends at its first one (`CString`). Reads of the system (chunks of input, pids, interface state,
the time stamp) are parameters or choices of the environment.

## Model

| member | source | states |
|---|---|---|
| HexFields.GetBitMeaning | helper/sms.c:24-31 | getbit, computed by shift and mask on one hex digit, is the bit of the buffer's bit sequence |
| HexFields.HexBitsRoundTrip | helper/sms.c:19-22 | a string of upper-case hex digits is determined by its bits |
| HexFields.HexOfRoundTrip | helper/sms.c:33-40 | the digits written for a bit sequence are valid and stand for those bits |
| HexFields.GetBits | helper/sms.c:42-49 | the accumulating loop yields the most-significant-first value of the addressed bits |
| HexFields.SetBit | helper/sms.c:35-40 | ORs one bit in place; every other bit and the validity of all digits stay |
| HexFields.SetBits | helper/sms.c:51-56 | ORs the low bits of the value over exactly the addressed field, in place |
| HexFields.WriteThenRead | helper/sms.c:42-56 | on a zero field, reading back gives the value modulo 2^nbits and no bit outside the field changes |
| CdmaSms.EncodeDigit | helper/sms.c:70-76 | the scan finds the character's place in the decode table, or 0 |
| CdmaSms.EncodeNumber | helper/sms.c:78-87 | appends the address record of the number after what was written, and returns its byte length |
| CdmaSms.EncodeUserData | helper/sms.c:143-151 | appends the user-data record with its length patched in afterwards |
| CdmaSms.EncodeBearerData | helper/sms.c:129-157 | appends the bearer data and returns its byte length |
| CdmaSms.EncodeCdmaSms | helper/sms.c:178-200 | the 512-character buffer holds the parcel up to a NUL that lies inside it |
| CdmaDecode.DecodeNumber | helper/sms.c:60-68 | the loop reads the number that the record's fields denote |
| CdmaDecode.DecodeUserText | helper/sms.c:100-114 | the loop reads the text of a user-data record for 7- and 8-bit encodings |
| CdmaDecode.DecodeBearerData | helper/sms.c:94-127 | the offset walk is the fold over the record list |
| CdmaDecode.DecodeCdmaSms | helper/sms.c:159-176 | the nested offset walks are the folds over the nested record lists |
| CdmaDecode.NumberRoundTrip | helper/sms.c:60-87 | decode_number after encode_number gives, for every string, the count modulo 256 and each character as the table dials it |
| CdmaDecode.NumberRoundTripIff | helper/sms.c:60-87 | it is the identity exactly on strings of fewer than 256 characters over the decode table |
| CdmaDecode.UserRoundTrip | helper/sms.c:100-151 | the user-data record gives back the count modulo 256 and seven bits of each character |
| CdmaDecode.BearerTlvsOf | helper/sms.c:129-157 | the inner walk over an encoded message visits records 0, 1, 8 and 13 and ends at the stated length |
| CdmaDecode.OuterTlvsOf | helper/sms.c:178-200 | the outer walk visits records 0, 4, 6 and 8 and ends at the end of the parcel |
| CdmaDecode.CdmaRoundTrip | helper/sms.c:159-200 | decoding an encoded message never leaves its records and gives the carried text, the default sender and no voice-mail flag |
| CdmaDecode.CdmaRoundTripIff | helper/sms.c:159-200 | the text survives exactly when it has fewer than 256 characters, all 7-bit |
| CdmaDecode.NotCarried | helper/sms.c:60-200 | an accented letter in a text and a letter in a number do not come back |
| CdmaReceive.UserFieldReads | helper/sms.c:100-114 | a user-data record of encoding 2 or 3 gives its 7-bit text, of 0 or 8 its 8-bit text, and of any other "bad SMS encoding" |
| CdmaReceive.BearerSays | helper/sms.c:94-127 | bearer data with a voice-mail count gives the text, and says whether any voice mail waits |
| CdmaReceive.Received | helper/sms.c:94-176 | every delivered parcel, whatever its sender, encoding, text and voice-mail count, decodes to sender, text and flag |
| CdmaReceive.NothingReceived | helper/sms.c:159-176 | a parcel without records gives the sender "000000" and the text "UNKNOWN" |
| Utf8.Write | helper/gsm.c:383-414 | writes the encoding of one code point at the offset and nothing else; the length is the same without a buffer |
| Utf8.FromUcs2 | helper/gsm.c:469-481 | with and without a buffer the length is that of the encoded units, which are what is written |
| Utf8.Check | helper/gsm.c:427-462 | the loop accepts exactly the well-formed byte sequences |
| Utf8.SkipChars | helper/gsm.c:332-352 | the pointer walk computes the skip specification, also past the end |
| Utf8.EncodeAllWellFormed | helper/gsm.c:383-481 | whatever ucs2_to_utf8 writes passes utf8_check |
| Utf8.PointsOfEncodeAll | helper/gsm.c:383-414 | the code points read back from the bytes written, payload bits included, are those that were written |
| Utf8.WellFormedIff | helper/gsm.c:427-462 | utf8_check accepts exactly the sequences of whole characters |
| Utf8.SkipLands | helper/gsm.c:332-352 | skipping k characters of an encoded text lands at the end of the encoding of its first k |
| Septets.BWriter.constructor | helper/gsm.c:752-764 | the writer starts with the bits that stand before the start offset |
| Septets.BWriter.Add7 | helper/gsm.c:767-778 | appends seven bits, least significant first, and touches nothing past the write position |
| Septets.BWriter.Done | helper/gsm.c:781-790 | stores the partial byte filled with zeros and reports the bit offset |
| Septets.ReadSeptet | helper/gsm.c:599-611 | the two-byte extraction gives the seven bits at any offset and reads the second byte only if the septet reaches it |
| Septets.PackingRoundTrip | helper/gsm.c:593-790 | septets written at any bit offset are read back, whatever surrounds them |
| Septets.BytesOfRoundTrip | helper/gsm.c:752-790 | bytes are determined by their bits, least significant first |
| Gsm7.CharCount | helper/gsm.c:562-575 | the count of a character is the number of septets it is written as |
| Gsm7.CountSeptets | helper/gsm.c:723-742 | the measuring function returns the length of what the writer writes |
| Gsm7.CheckGsm7 | helper/gsm.c:579-590 | accepts exactly text whose characters all are in the default or extension table |
| Gsm7.ToGsm7 | helper/gsm.c:794-827 | returns offset + 7 * count, writes the septets there, keeps the bits before and the bytes after |
| Gsm7.FromGsm7 | helper/gsm.c:594-632 | decodes the septets at the offset without reading past them; the length is the same without a buffer |
| Gsm7.DecodeWellFormed | helper/gsm.c:427-462 | every decoded septet sequence passes utf8_check |
| Gsm7.PlainText | helper/gsm.c:594-632 | single-septet ASCII decodes to itself |
| Gsm7.GsmRoundTripIff | helper/gsm.c:594-827 | utf8_from_gsm7 undoes utf8_to_gsm7 exactly on default-alphabet ASCII with an extension character allowed only last |
| Gsm7.BraceDamagesRest | helper/gsm.c:609-629 | a brace followed by a letter does not come back |
| Gsm7.TableIsStandard | helper/gsm.c:512-521 | the table is the standard's, character by character, but for the escape and for code 0x5D |
| Gsm7.ExtensionIsStandard | helper/gsm.c:523-532 | the ten extension characters and their codes, and no others |
| Gsm7.OwnSeptet | helper/gsm.c:535-545 | letters, digits and the space are sent as their own code |
| Gsm7.UnknownIsSpace | helper/gsm.c:794-827 | the backquote, which has no septet, is sent as a space |
| Rope.GsmRope.Init | helper/gsm.c:195-201 | an empty rope that only measures |
| Rope.GsmRope.InitAlloc | helper/gsm.c:204-220 | zeroed storage of exactly the given size |
| Rope.GsmRope.Ensure | helper/gsm.c:255-277 | the new capacity suffices and a heap block keeps its contents; the inline buffer's contents are not promised |
| Rope.GsmRope.CanGrow | helper/gsm.c:280-295 | says whether bytes can be stored, growing only when they do not fit |
| Rope.GsmRope.Add | helper/gsm.c:307-313 | measuring counts, a fitting write stores in place, a growing write keeps the heap block |
| Rope.GsmRope.AddC | helper/gsm.c:298-304 | the same for one byte |
| Rope.GsmRope.Reserve | helper/gsm.c:316-328 | advances the position and says where, if anywhere, the caller may write |
| SmsAddress.Address.StoreDigits | helper/sms_gsm.c:211-227 | the digit loop accepts up to 32 digits and stores their swapped semi-octets with fill |
| SmsAddress.Address.FromStr | helper/sms_gsm.c:189-234 | accepts exactly the dial strings and stores type and semi-octets |
| SmsAddress.Address.ToStr | helper/sms_gsm.c:171-185 | prints the stored address |
| SmsAddress.Address.Get | helper/sms_gsm.c:441-480 | reads the address field that is there, or fails and leaves the cursor |
| SmsAddress.AddAddress | helper/sms_gsm.c:328-337 | appends length, type and filled semi-octets to a rope |
| SmsAddress.AddressRoundTrip | helper/sms_gsm.c:171-234 | what is stored of a dial string prints as that string |
| SmsAddress.AddressChain | helper/sms_gsm.c:171-480 | string, address, rope bytes, parser, string is the identity on dial strings, and the cursor moves 2 + ceil(digits / 2) |
| SmsDeliver.PutSeptets | helper/sms_gsm.c:899-904 | reserves and fills the packed septets at the bit offset, in both passes |
| SmsDeliver.PutWide | helper/gsm.c:485-502 | reserves and fills the two-byte units, in both passes |
| SmsDeliver.PutHeader | helper/sms_gsm.c:834-845 | the concatenation header of section 9.2.3.24.1 |
| SmsDeliver.AddUserData | helper/sms_gsm.c:877-924 | the user data of each coding, single or multi part, in both passes |
| SmsDeliver.AddSmsDeliverPdu | helper/sms_gsm.c:849-925 | measuring counts, and writing produces, exactly the DELIVER layout |
| SmsDeliver.CreateDeliver | helper/sms_gsm.c:929-970 | the second pass fills the block allocated from the first exactly, without growing it |
| SmsSegments.Measure | helper/sms_gsm.c:1007-1018 | coding, unit count and block size of a text |
| SmsSegments.CreateDeliverUtf8 | helper/sms_gsm.c:988-1061 | as many PDUs as units / block rounded up, each the PDU of its stretch, and the reference number advanced |
| SmsSegments.SegmentsConserveIff | helper/sms_gsm.c:1020-1051 | the stretches of the source buffer that the parts are made from add up to the text exactly when no character of a 7-bit message takes two septets; otherwise they take in the byte after the text |
| SmsSegments.ParseOfDeliver | helper/sms_gsm.c:849-925 | reading a built 7-bit PDU of any length gives what the septets announced by its one-byte length mean, with reference, part count and part number |
| SmsSegments.PartReads | helper/sms_gsm.c:1035-1051 | each part reads back as its stretch of the text with its number |
| SmsSegments.PartsRead | helper/sms_gsm.c:1035-1051 | the first k parts read back as the first k stretches joined |
| SmsSegments.SegmentationConserves | helper/sms_gsm.c:988-1061 | plain text gives ceil(n / 154) parts whose user data joins to the text |
| SmsReadBack.PartBound | helper/sms_gsm.c:1035-1051 | a part that is read as clean text gives no more than its stretch of the text, and all of it only if its extension characters end full parts |
| SmsReadBack.PlacedReads | helper/sms_gsm.c:1035-1051 | a part whose extension characters end full parts reads back as its stretch of the text, without the terminator |
| SmsReadBack.ReadBackIff | helper/sms_gsm.c:988-1061 | for every C string over the 7-bit tables the parts read back as the text exactly when each extension character is the last of a full part |
| SmsReadBack.LoneBrace | helper/sms_gsm.c:1020-1051 | the text "{" does not come back: its terminator is sent and read as a NUL |
| SmsReadBack.BraceAtTheEndOfAPart | helper/sms_gsm.c:1020-1051 | 153 letters and a brace come back although the stretches take in the terminator |
| SmsReader.DeliverSays | helper/sms_gsm.c:849-925 | reading any built PDU, single or part, 7-bit or UCS2, gives back its sender, protocol, alphabet, time stamp, place among the parts, and the text that its length announces |
| SmsReader.SurvivesIff | helper/sms_gsm.c:988-1061 | the parts of a text, of either alphabet and read as what they say they are, join to it exactly when its extension characters end full parts, or, in UCS2, when it has fewer than 128 characters |
| Transcode.ToBytes | helper/gsm.c:169-179 | the hex loop converts every pair of digits |
| Transcode.HexBytesRoundTrip | helper/gsm.c:96-189 | reading printed bytes gives the bytes |
| Transcode.SkipScAddress | helper/sms_gsm.c:418-437 | the TPDU starts after the service centre field, if there is one |
| Transcode.GetText | helper/sms_gsm.c:673-748 | the text of user data without a header, for the default alphabet and UCS2, reserved in and written to the rope |
| Transcode.GsmToCdmaPdu | helper/sms.c:246-271 | the buffer holds the parcel for the SUBMIT's destination and its decoded text as a C string, which ends at the first NUL |
| Transcode.SubmitParses | helper/sms_gsm.c:794-826 | the parser finds in a SUBMIT the destination and text it was laid out from |
| Transcode.WideSubmitParses | helper/sms_gsm.c:673-826 | the parser finds in a UCS2 SUBMIT the destination and the units as UTF-8 |
| Transcode.SchemeIsStandardIff | helper/sms_gsm.c:634-668 | the coding scheme is read as the standard asks exactly on the listed codes |
| Transcode.TranscodedIff | helper/sms.c:246-271 | for every convertible SUBMIT of either coding the parcel carries seven bits of each character before the first NUL; the text arrives exactly when it is 7-bit without NUL, the destination exactly when it is over the decode table |
| Transcode.BraceCutsText | helper/sms.c:265-269 | a SUBMIT of "{a" to 123 becomes the parcel of "{" |
| Transcode.TranscodingPreserves | helper/sms.c:246-271 | the parcel decodes to the SUBMIT's text and its destination record to the number with '+' dialled as 00 |
| Transcode.DeliversIff | helper/sms_gsm.c:988-1061 | the parts cut from a C string over the 7-bit tables read back as it exactly when extension characters end full parts |
| Transcode.ThereAndBack | helper/sms.c:202-271 | a SUBMIT's text put into a parcel and decoded is the text, and cut into DELIVER PDUs from there reads back as it exactly when an extension character, if any, ends a full part |
| AtReader.LinesAreNonEmptyPieces | atchannel.c:356-367 | the reader's lines are the non-empty pieces between newline characters |
| AtReader.LineReader.SkipLeading | atchannel.c:412-414 | skips exactly the leading newlines |
| AtReader.LineReader.FindNextEol | atchannel.c:356-367 | the first newline at or after a position, with the prompt case |
| AtReader.LineReader.ProcessUssd | atchannel.c:338-348 | a USSD answer ends with the buffered data |
| AtReader.LineReader.ReadLine | atchannel.c:392-484 | the next line of the whole stream, however the reads split it, keeping the cursor in the NUL-terminated buffer |
| AtReader.ReaderLoop | atchannel.c:504-549 | the dispatched events are a function of the bytes alone, SMS lines paired with the line after them |
| AtReader.SmsWords | atchannel.c:210-234 | a line is announced as one of a pair exactly when it starts with one of eleven words |
| AtReader.DispatchKeeps | atchannel.c:504-549 | the events hold the lines in order, each announcement before the line that followed it; only a last announcement without a second line is dropped |
| AtResponse.Assembly | atchannel.c:277-335 | after any lines the list is what the command type keeps of the accepted lines, and the PDU is gone exactly when the prompt came |
| AtResponse.DestinationIs | atchannel.c:277-335 | whatever came before, a line goes to handler, final response, prompt or list as its kind and its position among the lines say |
| AtResponse.TakingIs | atchannel.c:277-335 | each of the four gets exactly the lines destined for it, in order, and every line gets to one |
| AtResponse.FinalIsLast | atchannel.c:263-289 | the final response on record is the last final line that is not unsolicited, with its class |
| AtResponse.RunIsDescribed | atchannel.c:277-335 | the command's state after any lines is the state-free description of them |
| AtResponse.ListAndPrompt | atchannel.c:277-335 | the list grows by the lines routed to it, and the PDU is sent at most once |
| AtResponse.PromptIsPlain | atchannel.c:151-260 | the prompt is neither unsolicited nor final |
| AtResponse.FinalWords | atchannel.c:151-203 | the words that a successful, and that a failed, final line starts with |
| AtResponse.UnsolicitedWords | atchannel.c:236-260 | the words that an unsolicited line starts with |
| AtResponse.OkSucceeds | atchannel.c:277-335 | "OK" and "ATA:OK" end every command with success |
| AtResponse.ErrorFails | atchannel.c:277-335 | "ERROR", "+CMS ERROR:", "+CME ERROR:", "NO CARRIER", "NO ANSWER" and "NO DIALTONE" end every command without success |
| AtResponse.UnsolicitedPasses | atchannel.c:277-335 | "RING", "+CLIP:" and others change nothing, nor does "CONNECT", though it is listed as a success |
| AtResponse.KindsAccept | atchannel.c:291-332 | which other lines each type of command accepts, in terms of digit and prefix |
| AtResponse.PromptReleases | atchannel.c:291-297 | the prompt releases the PDU that is waiting |
| AtResponse.ReversedTwice | atchannel.c:771-784 | turning the list twice changes nothing |
| AtResponse.Response.AddIntermediate | atchannel.c:130-143 | the line goes to the head of the list |
| AtResponse.Response.ReverseIntermediates | atchannel.c:771-784 | the linked list is reversed in place with the same nodes |
| AtChannel.Channel.ProcessLine | atchannel.c:277-335 | with a command pending the state takes the specified step, and "OK", "ERROR" and "RING" do what these words say; without one the line is unsolicited |
| AtChannel.Channel.ProcessLines | atchannel.c:277-335 | after any lines handed on one by one, handler calls, PDU, list, final response and success flag are what the state-free description says |
| AtChannel.Channel.Begin | atchannel.c:813-816 | the command becomes pending with an empty response |
| AtChannel.Channel.Collect | atchannel.c:843-860 | the caller gets the lines in order of arrival and nothing stays pending |
| AtChannel.Channel.ClearPending | atchannel.c:643-652 | nothing stays pending |
| AtProtocol.FinalClass | atchannel.c:159-203 | a recorded final response is final, and the success flag says its class |
| AtProtocol.OneMoreLine | atchannel.c:277-335 | the line just read extends the run of the pending command, and the PDU history with it |
| AtProtocol.Keeps | atchannel.c:793-923 | every step of every thread keeps the protocol invariant |
| AtProtocol.Invariant | atchannel.c:793-923 | the invariant holds at every point of every execution |
| AtProtocol.Safety | atchannel.c:793-923 | at most one command is pending, COMMAND_PENDING is never returned, nothing is left behind, the PDU is written at most once, and err 0 comes with a final response of the class of the success flag |
| AtProtocol.ResponseIsDescribed | atchannel.c:843-858 | a response handed back holds the kept lines of those that arrived, in order, and the last final one with its class |
| AtProtocol.Outcomes | atchannel.c:793-923 | every result was decided by a step of its own thread: a failed write, a timed-out wait, or a look at a finished response, which gives 0 unless the reader was closed, and the lines read since that command was written |
| AtProtocol.ErrorsMean | atchannel.c:793-923 | "closed" is returned only after a close or a write without a channel, an I/O error only after one, a timeout only after a timed-out wait, and no other error ever |
| AtProtocol.UndisturbedSucceed | atchannel.c:793-923 | while nothing fails, closes or times out every command returns 0 and the response to the lines read |
| AtProtocol.Completes | atchannel.c:793-923 | every command has an undisturbed run in which the lines that arrive, with a final one, are returned to it with 0 |
| PppManager.Manager.ChildDied | sxx-ril-pdp.c:207-223 | the tracked child's exit clears the pid and queues EXIT |
| PppManager.Manager.StartPppd | sxx-ril-pdp.c:225-275 | the pid is that of the fork, if it succeeds |
| PppManager.Manager.StopPppd | sxx-ril-pdp.c:278-289 | a tracked child is gone afterwards, with or without an EXIT queued |
| PppManager.Manager.Drain | sxx-ril-pdp.c:405-412 | the signal acted on is the first that is no TIMER, or the TIMER that emptied the pipe |
| PppManager.Manager.Handle | sxx-ril-pdp.c:424-504 | the state switch, for every state and signal |
| PppManager.TimerMeansEmpty | sxx-ril-pdp.c:409-412 | TIMER is acted on only when it left the pipe empty |
| PppManager.ReadsDrain | sxx-ril-pdp.c:409-412 | single reads with nothing in between are the drain loop |
| PppManager.DrainSkipsTimers | sxx-ril-pdp.c:409-412 | the signal acted on is the first that is no TIMER, what follows it stays queued, and TIMERs alone are taken together |
| PppManager.ReactionIs | sxx-ril-pdp.c:424-504 | what each state and signal does to children: exactly which fork and which kill first, and that the tracked pid becomes the forked one exactly then |
| PppManager.EnteredWhen | sxx-ril-pdp.c:424-504 | the states and signals from which each state is entered |
| PppManager.Keeps | sxx-ril-pdp.c:207-504 | every step of clients, timer, child exits and manager keeps the invariant |
| PppManager.Invariant | sxx-ril-pdp.c:207-504 | the invariant holds at every point of every run |
| PppManager.Safety | sxx-ril-pdp.c:207-504 | IDLE and HALTING track no child, RUNNING with an EXIT queued has none; by the record of forks, kills and deaths the tracked pid is the child alive, and no child was forked while another was alive |
| PppManager.StopHolds | sxx-ril-pdp.c:441-458 | after a STOP consumed in STARTING or RUNNING no pppd is started before a START is consumed in IDLE |
| PppManager.StopKeepsPid | sxx-ril-pdp.c:441-497 | and until then nothing is forked, and the tracked pid is 0 or the one tracked when the STOP was consumed |
| PppManager.HaltHolds | sxx-ril-pdp.c:467-503 | after a HALT consumed in RUNNING no pppd is started before a RESTART is consumed |
| PppManager.HaltKeepsNone | sxx-ril-pdp.c:467-503 | and until then the state is HALTING and no child is tracked |
| PppManager.StopSticksIff | sxx-ril-pdp.c:424-504 | a consumed STOP keeps pppd down over every continuation exactly in IDLE, STARTING, RUNNING and STOPPING |
| PppManager.HaltSticksIff | sxx-ril-pdp.c:424-504 | a consumed HALT keeps pppd down until a RESTART is consumed, over every continuation, exactly in RUNNING and HALTING |
| PppManager.Reopens | sxx-ril-pdp.c:424-504 | from every state but RUNNING, whatever is in the pipe, some continuation starts pppd |
| PppManager.StopDroppedInException | sxx-ril-pdp.c:473-488 | some run from the start consumes a STOP in EXCEPTION and then starts pppd with no START consumed in IDLE |
| PppManager.StopDroppedInHalting | sxx-ril-pdp.c:498-503 | some run from the start consumes a STOP in HALTING and then starts pppd with no START consumed in IDLE |
| PppManager.HaltDroppedInStarting | sxx-ril-pdp.c:431-444 | some run from the start consumes a HALT in STARTING and then starts pppd with no RESTART consumed in HALTING |
| BitStream.WordPut | helper/bit_op.c:29-45 | one 16-bit read-modify-write stores the masked field in the word and merges stray bits above it |
| BitStream.Stream.WriteBits | helper/bit_op.c:21-47 | the loop puts the field at the data position, for any position, width and source bytes |
| BitStream.Stream.ReadBits | helper/bit_op.c:49-74 | reads the field at the read position, or refuses past the data position and touches nothing |
| BitStream.WrittenField | helper/bit_op.c:21-47 | after any sequence of contiguous writes each field is where it was written |
| BitStream.Fifo | helper/bit_op.c:21-74 | reading with the widths of the writes gives each field's bits back, for every sequence of fields and every earlier buffer |
| BitStream.TakenIff | helper/bit_op.c:49-74 | the bytes themselves come back exactly when the last partial byte has no stray bit |
| BitStream.FrameIff | helper/bit_op.c:21-47 | a write leaves every bit outside its field alone, on every buffer, exactly when the last partial byte has no stray bit |
| BitStream.StrayBitsSpill | helper/bit_op.c:21-47 | one bit of a byte of ones changes bits outside the field |
| PhoneBook.IsEmptyAlpha | sxx-ril-phonebook.c:116-125 | true exactly for names of blank UCS2 units |
| PhoneBook.CopyNumberToAlpha | sxx-ril-phonebook.c:127-145 | the digits spelled as bytes, with the source's index stepping on other characters |
| PhoneBook.RetriveAlpha | sxx-ril-phonebook.c:17-47 | low bytes of a name in single-byte form, or the name behind the UCS2 mark |
| PhoneBook.RetriveNumber | sxx-ril-phonebook.c:67-92 | digits swapped in pairs with fill, with the source's stepping at '+' |
| PhoneBook.WriteText | sxx-ril-phonebook.c:57-58 | byte-aligned writes of the bit buffer overwrite exactly their characters |
| PhoneBook.WriteHex | sxx-ril-phonebook.c:60-65 | two hex digits overwrite exactly their place in the record |
| PhoneBook.ConvertPhoneBook | sxx-ril-phonebook.c:147-168 | the record is the old buffer with the four fields overwritten in order |
| PhoneBook.ReadPairs | sxx-ril-phonebook.c:184-199 | the reading loop stops at the terminator and widens single-byte names |
| PhoneBook.UnswapNumber | sxx-ril-phonebook.c:227-237 | pairs swapped back and one fill character dropped |
| PhoneBook.PhoneBook.ReadAlpha | sxx-ril-phonebook.c:170-201 | the name buffer then holds the name of the record, over whatever it held |
| PhoneBook.PhoneBook.ReadHex | sxx-ril-phonebook.c:203-216 | the value of the two hex digits at the read position |
| PhoneBook.PhoneBook.ReadNumberField | sxx-ril-phonebook.c:218-239 | the number buffer then holds what its old contents and the field denote |
| PhoneBook.PhoneBook.ExtractPhoneBook | sxx-ril-phonebook.c:241-252 | the entry gets name, length, code and number of the record |
| PhoneBook.NumberIff | sxx-ril-phonebook.c:67-92 | a number comes back into a zeroed buffer exactly when no '+' is in front of a pair and an even one does not end in fill |
| PhoneBook.NameIff | sxx-ril-phonebook.c:17-47 | a non-blank name comes back exactly when it is whole units of one form with no terminator and no false UCS2 mark and, where it fills its 28 characters, nothing is read behind it |
| PhoneBook.RecordRoundTripIff | sxx-ril-phonebook.c:147-252 | code always, and name and number exactly under those conditions, come back from a filled record |
| PhoneBook.StaleNumberIff | sxx-ril-phonebook.c:218-239 | over any old contents of the static buffer a number comes back exactly when it is sendable and the old contents end within one character behind it |
| PhoneBook.FirstLeaves | sxx-ril-phonebook.c:218-239 | an extraction into a zeroed buffer leaves only the number returned |
| PhoneBook.AfterOlderIff | sxx-ril-phonebook.c:218-239 | after an older number was returned a number comes back exactly when it is sendable and the older one is at most one longer than its digits rounded up |
| PhoneBook.BlankNameIsNumber | sxx-ril-phonebook.c:147-157 | an entry with a blank name comes back named by up to thirteen digits of its number |
| PhoneBook.StoreAndLoad | sxx-ril-phonebook.c:147-252 | running both conversions in place gives code, name and number back, the latter two exactly under their conditions |
| PhoneBook.StoreAndLoadTwice | sxx-ril-phonebook.c:147-252 | running both conversions for two entries in a row gives the second number back exactly under that condition on the number returned first |
| PhoneBook.StaleNumberHappens | sxx-ril-phonebook.c:218-239 | ten digits loaded after twenty-four do not come back |
| PhoneBook.NumbersLost | sxx-ril-phonebook.c:67-92 | "+123" and "1F" do not come back |
| PhoneBook.MixedNameLost | sxx-ril-phonebook.c:17-47 | a name of a Latin and a Chinese character does not come back |
| PhoneBook.FullNameGrows | sxx-ril-phonebook.c:184-200 | a name of fourteen units does not come back over two stale characters |
| AtTok.Tokenizer.Start | at_tok.c:28-46 | the cursor moves behind the first colon, or to NULL |
| AtTok.Tokenizer.SkipWhiteSpace | at_tok.c:48-55 | the cursor moves over exactly the leading white space |
| AtTok.Tokenizer.StrSep | at_tok.c:80-83 | the text up to the delimiter is cut off in place and nothing before it changes |
| AtTok.Tokenizer.SkipNextComma | at_tok.c:57-68 | the cursor moves behind the next comma, or to the end |
| AtTok.Tokenizer.NextTok | at_tok.c:70-87 | the token and the remaining text, with nothing before the cursor written and the token ended before the new cursor |
| AtTok.Tokenizer.NextIntBase | at_tok.c:97-126 | the number that the next token's leading digits denote, or failure |
| AtTok.Tokenizer.NextStr | at_tok.c:173-182 | the next token as a pointer into the line |
| AtTok.Tokenizer.HasMore | at_tok.c:185-188 | true exactly when text remains |
| AtTok.IntBackIff | at_tok.c:97-137 | a printed integer is read back exactly when it fits 32 bits, and saturates otherwise |
| AtTok.TooBigSaturates | at_tok.c:97-137 | the first integer past 32 bits is read as the largest one that fits |
| AtTok.HexBack | at_tok.c:97-148 | a printed hexadecimal value is read back as its 32-bit int |
| AtTok.NextField | at_tok.c:70-87 | one printed field, with white space in front, is read as its token |
| AtTok.NextOfJoined | at_tok.c:28-126 | the first of several printed fields is read, and text remains exactly when there is another field |
| AtTok.ReadLine | at_tok.c:28-188 | reading all fields of a printed line gives each of them, pointers read earlier still point to their texts at the end, and hasmore fails exactly after the last |
| Registry.Table.Register | sxx-ril-manager.c:21-46 | the scan keeps occupied slots a prefix with distinct keys and applies the override rule |
| Registry.Table.Lookup | sxx-ril-manager.c:249-266 | the handler of the key's slot, or none |
| Registry.StartsWith | misc.c:19-28 | true exactly for prefixes |
| Registry.ProcessUnsolicited | sxx-ril-manager.c:268-284 | the handler of the first registered prefix of the line |
| Registry.RunAgrees | sxx-ril-manager.c:21-80 | after any registrations the slots are the first 256 accepted codes, each once, with the handler of the override rule |
| Registry.Dispatch | sxx-ril-manager.c:249-266 | a request runs the first handler for the detected modem, else the last generic one, exactly when its code was kept |
| Registry.OneTooMany | sxx-ril-manager.c:21-46 | after 257 codes were registered the last one has no handler |
| Registry.UnsolicitedDispatch | sxx-ril-manager.c:58-80 | a line runs the winner of the first registered prefix it starts with |
| Registry.InterleavingIrrelevant | sxx-ril-manager.c:21-46 | while the table has room only the order within generic and within specific registrations matters |
| KnownAnswers.DigitCodes | helper/sms.c:58-76 | the codes of the twelve dialled characters: the digits themselves, 10 for 0, 11 for '*' and 12 for '#' |
| KnownAnswers.ParcelAnswer | helper/sms.c:178-200 | the parcel of "A" to 12, digit by digit |
| KnownAnswers.SenderAnswer | helper/sms.c:159-176 | "000203008480" comes from 12 |
| KnownAnswers.HiPacked | helper/gsm.c:752-827 | the two bytes of "hi", packed from the lowest bit up |
| KnownAnswers.Utf8Answers | helper/gsm.c:383-414 | one character of each length, byte by byte |
| KnownAnswers.AddressAnswers | helper/sms_gsm.c:189-337 | types, swapped semi-octets and fill of a national and an international number |
| KnownAnswers.Sizes | helper/sms_gsm.c:1012-1016 | how many septets or characters make one part, and how large digits, tables and buffer are |
| KnownAnswers.SubmitAnswer | helper/sms_gsm.c:794-826 | "hi" to 123 as an SMS-SUBMIT, byte by byte |
| KnownAnswers.TranscodeAnswer | helper/sms.c:246-271 | that PDU in hexadecimal becomes the parcel of "hi" to 123 |
| KnownAnswers.DeliverAnswers | helper/sms_gsm.c:849-925 | "hi" from +123 as an SMS-DELIVER, byte by byte: alone, as a part, and in UCS2 |
| KnownAnswers.LinesAnswer | atchannel.c:356-484 | empty lines are none, nor is text after the last newline |
| KnownAnswers.TokenAnswers | at_tok.c:70-87 | tokens end at commas outside quotes, which are removed |
| KnownAnswers.NumberAnswers | at_tok.c:97-126 | sign, digits and what follows them |
| KnownAnswers.HexAnswer | at_tok.c:97-126 | a hexadecimal number behind its prefix |
| KnownAnswers.RecordAnswer | sxx-ril-phonebook.c:147-168 | the record of the entry 'A' with number 123, character by character |

## Left out

- Gsm7.CountSeptets: takes ASCII only; for a continuation byte the loop of utf8_next never ends (helper/gsm.c:370-372).
- Gsm7.CheckGsm7: takes ASCII only, for the same reason.
- Gsm7.ToGsm7: takes ASCII only, for the same reason.
- SmsDeliver.PutWide: takes ASCII only, for the same reason.
- SmsSegments.CreateDeliverUtf8: takes ASCII only, for the same reason.
- CdmaDecode.DecodeNumber: requires the digits to lie inside the record; the source checks no length and reads on.
- CdmaDecode.DecodeUserText: requires the characters to lie inside the record, likewise.
- CdmaDecode.DecodeBearerData: requires records that fill the stated length, likewise.
- CdmaDecode.DecodeCdmaSms: requires a parcel of whole records, likewise. The `from` and `message` buffers are strings here, so their 256-byte limit is not modelled.
- Rope.GsmRope.InitAlloc: allocation is taken to succeed; the error flag is set by no model step.
- Rope.GsmRope.Ensure: allocation is taken to succeed; data in the inline buffer is not promised to survive growth, as the source does not copy it.
- Transcode.SubmitParses: SUBMIT PDUs with a validity period or a user data header; the source skips no validity period.
- Transcode.GetText: the user data header branch (helper/sms_gsm.c:694-716), which leaves a shifted byte in the text.
- Transcode.GsmToCdmaPdu: requires a SUBMIT that parses and fits the 256-byte buffers; on other input the source goes on with garbage or reads past its buffers. The fallback to the sender address of a DELIVER is not modelled.
- Transcode.ThereAndBack: is about the PDUs; the static hex buffer of cdma_to_gsmpdu, in which no terminator is written, the time stamp and the voice-mail addresses are not modelled.
- Parsing of DELIVER PDUs through sms_get_sc_address, which leaves the cursor before the digits (helper/sms_gsm.c:381-412): the parts are read by ParseDeliver, a reader written from section 9.2.2.1.
- The 140-octet limit of multi-part messages, which blocks of 154 septets and the header exceed, and the layout of the UCS2 branch, which writes its length twice (helper/sms_gsm.c:911-919); both are modelled as coded, not as the standard asks.
- BCD numbers, time stamps, GSM 8-bit text, UCS2 to GSM conversions and the SIM ADN records of helper/gsm.c.
- AtReader.LineReader.ReadLine: streams with a prompt or a "+CUSD:" line, whose handling depends on where a read ends, and newline runs with a line that do not fit the buffer.
- AtReader.ReaderLoop: the same streams.
- AtProtocol.Safety: at_handshake, which takes only one of the two mutexes, re-opening by at_open, the timeout callback and calls from the reader thread, which are refused before any lock. Mutexes and the condition variable are atomic steps; fairness and progress are not modelled.
- PppManager.Manager.ChildDied: a SIGCHLD for another process, for which the source writes an unset value, writes nothing.
- PppManager.Safety: a signal handler and the reaction to a signal are atomic steps, except that a stop may or may not queue EXIT and a child may exit between reads and the reaction. Progress of the waiting loops is not modelled, nor the file descriptors.
- PhoneBook.PhoneBook.ExtractPhoneBook: requires hexadecimal length and code fields and strings that end inside the static and temporary buffers, which the source takes for granted.
- PhoneBook.NameIff: a name that fills its field over more than 28 stale characters behind it, which no older name of up to 56 characters leaves.
- PhoneBook.StoreAndLoadTwice: asks a terminator of the second name, since a full one read with stale characters can outgrow the temporary buffer of read_alpha.
- Registry.Table.Register: request code 0 and null handlers, with which a slot is both used and free. Modem detection and the modem table.
- AtTok.Tokenizer.NextIntBase: the conversion of the C library is a function, not a loop; at_tok_nextbool adds only a range check.
- Request handlers, per-modem files, system calls, threads, epoll, fork and exec, logging.
