# Verified models of the Tuya Connect-Kit codecs, tables and protocols

This project models the parts of the device SDK where a mistake is easy to make and hard to see: the JSON parser,
printer and child lists; the table-driven AES with CBC, PKCS7 padding and the version 2.2 message packet on top; MD5
over a partly filled buffer; the table of pending requests whose callbacks send further requests; the range
downloader above it; the sorted timer list that is edited while it is walked; the assembly of HTTP headers and
chunked bodies; Base64; the BLE sub-packets; CRC-32; and ARC4. Code that updates memory step by step is modelled by
classes, arrays and loops, each proved against a function; what the code is for is proved about those functions.

| files | what they model |
|---|---|
| `JsonSyntax`, `JsonGrammar`, `JsonRoundTrip`, `JsonEscapes` | JSON trees, their text, the grammar the parser accepts, round trip and escapes |
| `JsonNumbers`, `JsonTexts` | numbers and whole texts as RFC 8259 describes them, and that the parser reads each as what it stands for |
| `JsonParser`, `JsonPrinter`, `JsonList` | the parser over its buffer, the printer with its reservations, the doubly linked child lists |
| `AesTables`, `AesSpec`, `AesCipher`, `AesModes`, `Pv22` | field and tables, the cipher of FIPS 197, the table-driven code, ECB, CBC and padding, the message packet |
| `AesVectors`, `Md5Vectors` | index laws, and the worked examples of FIPS 197 and RFC 1321 |
| `Md5`, `Crc32`, `Base64`, `Arc4`, `Bits` | the remaining codecs, and byte arithmetic shared by them |
| `MatopRuns`, `MatopTimes`, `MatopService` | the request table as a state machine with its runs, which requests its entries are and when they time out, and as a linked list |
| `MultiTimer`, `TimerYields` | the timer list; which timers a yield fires, skips and loses |
| `HttpHeaders`, `HttpBody`, `HttpDigits` | response assembly and decimal header values |
| `FileDownload`, `DownloadRuns`, `DownloadRanges` | the range downloader, its runs with starts, stops, replies and the retry timer, and the ranges it asks for |
| `BleFraming`, `BleSizes` | the BLE sub-packets, and the frame sizes that fill them exactly |

`dafny verify dfyconfig.toml` checks everything.

## Where the code and its intent differ

The model follows the code. Where the code does less than it is meant to, the exact condition is proved:

- An escape whose four characters are not hexadecimal digits is accepted as a NUL byte (`JsonEscapes.AcceptedEscapes`).
- A number of more than 63 characters does not fit the parser's buffer: as a whole text it is refused
  (`JsonTexts.NumbersOf63`).
- `cJSON_PrintPreallocated` needs exactly two bytes more than the text, where the header's comment advises five
  (`JsonPrinter.PrintPreallocated`).
- A 2.2 packet's source is swapped on decoding only, and its CRC is not checked (`Pv22.SourceSurvives`, `Pv22.CrcIsNotChecked`).
- Unpadding trusts the last byte, so the copied length wraps exactly when that byte is larger than the number of
  decrypted bytes (`Pv22.CopiesTooMuchExactly`); such packets exist for every key (`Pv22.OverlongPacketsExist`).
- MD5's 32-bit block guard wraps for inputs within 64 bytes of 4 GB (`Md5.GuardWrapsExactly`).
- A reply is matched by 16 bits of its id: an older pending request with the same low bits takes it
  (`MatopRuns.ReplyReachesItsSender`, with a run in `MatopRuns.OlderRequestTakesTheReply`), and the two receive
  callbacks treat longer ids differently (`MatopRuns.LongIds`).
- A request whose deadline lies across the tick wrap times out at once (`MatopRuns.EarlyAcrossTheWrap`).
- A timer yield steps over the entry behind each one it fires, and ends when a periodic timer is put back last. So it
  fires all due timers if and only if at most one is due (`TimerYields.OneYieldFiresAll`, `TimerYields.YieldFires`,
  `TimerYields.PutBackLastEndsTheYield`), and what it steps over need not be due (`TimerYields.SteppedOverAreDue`,
  `TimerYields.SteppedOverNotDue`). Across the tick wrap the walk can follow a null link (`TimerYields.CursorIsLost`,
  `TimerYields.WrapLosesTheCursor`).
- Without an event handler the downloader counts every range from offset 0 (`DownloadRuns.BlindDownloads`). Starting a
  download looks neither at an outstanding request nor at the retry timer. Things stay one by one if and only if every
  start, and every yield of the application's own, that comes to requesting a range finds no request outstanding and
  sends none beside the running timer (`DownloadRuns.OneByOneExactly`); for a start that may or may not send, if and only
  if the timer is not running either (`DownloadRuns.StartWhateverIsSent`). Otherwise the same range can be counted twice (`DownloadRuns.StartHarmsTheData`, with the exact condition, and `DownloadRuns.StartAgainCountsTwice`).
  A second stop ends the download for good (`DownloadRuns.StoppedTwice`), and a start takes a fault back unless a stop has
  come between (`DownloadRuns.FaultIsForgotten`).
- BLE lengths and numbers from 16384 on are misread (`BleFraming.ReadAsMeant`, `BleFraming.SmallestMisread`), and the last sub-packet is not cut to what
  is left of the frame: only frames of certain sizes are sent without bytes from behind them
  (`BleSizes.NothingBehindIsSent`).
- The BLE receiver adds its offset to a pointer to a 17-byte structure, so it writes each later sub-packet at 17 times the
  bytes it has: every write stays inside the memory it allocated if and only if the frame fits one packet
  (`BleSizes.WritesStayInside`, `BleSizes.SecondPacketIsWrittenOutside`). `BleSizes.GatheredFits` and
  `BleFraming.FrameIsReassembled` are about the receiver as it is meant, with an offset that counts bytes.
- The ten characters that `convertInt32ToAscii` demands are one too few below -999999999 (`HttpDigits.TenCharactersFit`).

## Model

| member | source | states |
|---|---|---|
| `JsonRoundTrip.ParsingUndoesPrinting` | components/tuya-iot-link-sdk/tuya-connect-kit-for-mqtt-embedded-c/utils/cJSON.c:1222-1727 | For every tree, formatted or not: parsing the printed text gives the same tree (strings cut at a NUL, as C reads them) and consumes exactly the text, and does so if and only if the tree is nested at most 1000 deep; deeper ones are refused |
| `JsonRoundTrip.ValueIsReadBack` | components/tuya-iot-link-sdk/tuya-connect-kit-for-mqtt-embedded-c/utils/cJSON.c:1222-1274 | The same inside any longer text and at any depth: the parser stops exactly where the printed value ends |
| `JsonRoundTrip.LayoutsAgree` | components/tuya-iot-link-sdk/tuya-connect-kit-for-mqtt-embedded-c/utils/cJSON.c:1445-1504 | The formatted and the unformatted text of a tree parse to the same tree |
| `JsonRoundTrip.AcceptedIsPrintedAgain` | components/tuya-iot-link-sdk/tuya-connect-kit-for-mqtt-embedded-c/utils/cJSON.c:1010-1170 | What the parser accepts can be printed again, in either layout, and parses to the same tree, if its number tokens are ones that the printer writes; strings are cut at a NUL |
| `JsonRoundTrip.AcceptedIsShallow` | components/tuya-iot-link-sdk/tuya-connect-kit-for-mqtt-embedded-c/utils/cJSON.c:1351-1442 | No accepted text, printed or not, gives a tree deeper than the nesting limit less the depth at which it starts |
| `JsonRoundTrip.StringIsReadBack` | components/tuya-iot-link-sdk/tuya-connect-kit-for-mqtt-embedded-c/utils/cJSON.c:708-956 | A printed string literal is read back byte for byte, for any bytes (section 7 of RFC 8259) |
| `JsonRoundTrip.NumberIsReadBack` | components/tuya-iot-link-sdk/tuya-connect-kit-for-mqtt-embedded-c/utils/cJSON.c:276-350 | A printed number token is collected whole and no further |
| `JsonNumbers.TakesTheLongest` | components/tuya-iot-link-sdk/tuya-connect-kit-for-mqtt-embedded-c/utils/cJSON.c:302-341 | For every text: what strtod takes of it is a decimal number (sign, digits with a point, exponent with digits), and none at its front is longer; nothing is taken if there is none |
| `JsonNumbers.NumberIsTakenWhole` | components/tuya-iot-link-sdk/tuya-connect-kit-for-mqtt-embedded-c/utils/cJSON.c:302-341 | A decimal number is taken to its end |
| `JsonNumbers.NumberIsParsed` | components/tuya-iot-link-sdk/tuya-connect-kit-for-mqtt-embedded-c/utils/cJSON.c:276-350 | A decimal number of at most 63 characters, before anything that is no number character, is what the parser reads |
| `JsonNumbers.JsonNumberIsParsed` | components/tuya-iot-link-sdk/tuya-connect-kit-for-mqtt-embedded-c/utils/cJSON.c:276-350 | Every number of section 6 of RFC 8259 of at most 63 characters is read as it stands, inside any text and at any depth |
| `JsonNumbers.PrintedNumbers` | components/tuya-iot-link-sdk/tuya-connect-kit-for-mqtt-embedded-c/utils/cJSON.c:484-547 | The number texts of the round trip are exactly the decimal numbers of at most 25 characters that begin with a digit or a minus sign |
| `JsonNumbers.ShortJsonNumbers` | components/tuya-iot-link-sdk/tuya-connect-kit-for-mqtt-embedded-c/utils/cJSON.c:484-547 | Every number of RFC 8259 of at most 25 characters is among them |
| `JsonTexts.EveryTextIsRead` | components/tuya-iot-link-sdk/tuya-connect-kit-for-mqtt-embedded-c/utils/cJSON.c:1010-1087 | Every JSON text, with any white space, any spelling of its strings, numbers of at most 63 characters and a byte order mark or none, is read as the value that is written, to its end, if and only if it is nested at most 1000 deep, and refused otherwise |
| `JsonTexts.NumbersOf63` | components/tuya-iot-link-sdk/tuya-connect-kit-for-mqtt-embedded-c/utils/cJSON.c:276-350 | A number of RFC 8259 as a whole text is read if and only if it has at most 63 characters, and refused otherwise |
| `JsonTexts.NothingMayFollow` | components/tuya-iot-link-sdk/tuya-connect-kit-for-mqtt-embedded-c/utils/cJSON.c:1041-1049 | Anything but white space behind the value is refused when the whole text is asked for, and left unread otherwise |
| `JsonTexts.DocIsRead` | components/tuya-iot-link-sdk/tuya-connect-kit-for-mqtt-embedded-c/utils/cJSON.c:1222-1613 | The same for a written value anywhere inside a text and at any depth |
| `JsonTexts.LiteralIsRead` | components/tuya-iot-link-sdk/tuya-connect-kit-for-mqtt-embedded-c/utils/cJSON.c:708-834 | A string literal, however each of its characters is written (as it is, by one of the eight short escapes, or by \u escapes of either case), is read as the bytes that are meant |
| `JsonRoundTrip.EscapedAs` | components/tuya-iot-link-sdk/tuya-connect-kit-for-mqtt-embedded-c/utils/cJSON.c:837-956 | Which characters are printed as they are, with a short escape, and with four lower-case hexadecimal digits |
| `JsonRoundTrip.CompactExample` | components/tuya-iot-link-sdk/tuya-connect-kit-for-mqtt-embedded-c/utils/cJSON.c:1445-1727 | A concrete object, printed without layout |
| `JsonRoundTrip.FormattedExample` | components/tuya-iot-link-sdk/tuya-connect-kit-for-mqtt-embedded-c/utils/cJSON.c:1445-1727 | The same object printed with layout, line by line |
| `JsonEscapes.EscapeIsDecoded` | components/tuya-iot-link-sdk/tuya-connect-kit-for-mqtt-embedded-c/utils/cJSON.c:587-705 | Every Unicode scalar value, escaped as one \u sequence or as a surrogate pair, with each digit in either case, is decoded to itself |
| `JsonEscapes.Utf8IsReadBack` | components/tuya-iot-link-sdk/tuya-connect-kit-for-mqtt-embedded-c/utils/cJSON.c:650-700 | The bytes stored for a code point decode to it under an independent UTF-8 reader, with the length section 3 of RFC 3629 gives |
| `JsonEscapes.AcceptedEscapes` | components/tuya-iot-link-sdk/tuya-connect-kit-for-mqtt-embedded-c/utils/cJSON.c:587-650 | Exactly which escapes are accepted: the well-formed ones, and those with room for four characters that are not all hexadecimal digits, which are read as NUL; never a lone surrogate |
| `JsonEscapes.MalformedEscapeIsAccepted` | components/tuya-iot-link-sdk/tuya-connect-kit-for-mqtt-embedded-c/utils/cJSON.c:550-583 | A concrete literal with the escape \uzzzz is accepted as one NUL byte: parse_hex4 reports an error as 0 |
| `JsonParser.LiteralFits` | components/tuya-iot-link-sdk/tuya-connect-kit-for-mqtt-embedded-c/utils/cJSON.c:714-765 | For every literal, malformed escapes included: the bytes of the second pass are at most the length less the backslashes the first pass skipped, so with the terminator they fit the allocation |
| `JsonParser.StepFits` | components/tuya-iot-link-sdk/tuya-connect-kit-for-mqtt-embedded-c/utils/cJSON.c:751-815 | Each step of the second pass stores no more than the room it gives up, even where the two passes split escapes differently |
| `JsonParser.ParseBuffer.ParseString` | components/tuya-iot-link-sdk/tuya-connect-kit-for-mqtt-embedded-c/utils/cJSON.c:708-834 | Computes the grammar's string, moves the offset past the closing quote, and stores inside the array sized by the first pass |
| `JsonParser.ParseBuffer.Utf16LiteralToUtf8` | components/tuya-iot-link-sdk/tuya-connect-kit-for-mqtt-embedded-c/utils/cJSON.c:587-705 | Appends exactly the UTF-8 bytes of the escape, or reports a malformed one |
| `JsonParser.ParseBuffer.EncodeUtf8` | components/tuya-iot-link-sdk/tuya-connect-kit-for-mqtt-embedded-c/utils/cJSON.c:650-700 | The backwards-filling loop appends the UTF-8 bytes of the code point |
| `JsonParser.ParseBuffer.ParseHex4` | components/tuya-iot-link-sdk/tuya-connect-kit-for-mqtt-embedded-c/utils/cJSON.c:550-583 | The value of four hexadecimal digits, 0 when one is not a digit |
| `JsonParser.ParseBuffer.ParseNumber` | components/tuya-iot-link-sdk/tuya-connect-kit-for-mqtt-embedded-c/utils/cJSON.c:276-350 | Copies at most 63 number characters and moves past what strtod consumes of them |
| `JsonParser.ParseBuffer.BufferSkipWhitespace` | components/tuya-iot-link-sdk/tuya-connect-kit-for-mqtt-embedded-c/utils/cJSON.c:973-991 | Moves past white space, but steps back onto the last byte when nothing else is left |
| `JsonParser.ParseBuffer.ParseValue` | components/tuya-iot-link-sdk/tuya-connect-kit-for-mqtt-embedded-c/utils/cJSON.c:1222-1274 | Computes the grammar's value with the offset where it ends and the depth restored |
| `JsonParser.ParseBuffer.ParseArray` | components/tuya-iot-link-sdk/tuya-connect-kit-for-mqtt-embedded-c/utils/cJSON.c:1351-1442 | The same for arrays, refusing the 1001st level |
| `JsonParser.ParseBuffer.ParseObject` | components/tuya-iot-link-sdk/tuya-connect-kit-for-mqtt-embedded-c/utils/cJSON.c:1507-1613 | The same for objects |
| `JsonParser.ParseWithOpts` | components/tuya-iot-link-sdk/tuya-connect-kit-for-mqtt-embedded-c/utils/cJSON.c:1010-1087 | Accepts and returns what the grammar says for a text with an optional byte order mark, and with or without trailing characters; `end` is where the parse stopped when it succeeds |
| `JsonPrinter.PrintBuffer.Ensure` | components/tuya-iot-link-sdk/tuya-connect-kit-for-mqtt-embedded-c/utils/cJSON.c:383-468 | Succeeds if and only if the needed bytes and one more fit the largest buffer the print can have, and keeps what is printed |
| `JsonPrinter.PrintBuffer.UpdateOffset` | components/tuya-iot-link-sdk/tuya-connect-kit-for-mqtt-embedded-c/utils/cJSON.c:471-481 | Moves the offset to the end of what was stored |
| `JsonPrinter.PrintBuffer.PrintString` | components/tuya-iot-link-sdk/tuya-connect-kit-for-mqtt-embedded-c/utils/cJSON.c:837-956 | Reserves and stores exactly the escaped literal; fails if and only if it and two more bytes do not fit |
| `JsonPrinter.PrintBuffer.PrintValue` | components/tuya-iot-link-sdk/tuya-connect-kit-for-mqtt-embedded-c/utils/cJSON.c:1277-1348 | The buffer then holds what it held and the text of the value; success if and only if the text and two more bytes fit |
| `JsonPrinter.PrintBuffer.PrintArray` | components/tuya-iot-link-sdk/tuya-connect-kit-for-mqtt-embedded-c/utils/cJSON.c:1445-1504 | The same for arrays |
| `JsonPrinter.PrintBuffer.PrintObject` | components/tuya-iot-link-sdk/tuya-connect-kit-for-mqtt-embedded-c/utils/cJSON.c:1616-1727 | The same for objects |
| `JsonPrinter.PrintPreallocated` | components/tuya-iot-link-sdk/tuya-connect-kit-for-mqtt-embedded-c/utils/cJSON.c:1202-1219 | Succeeds if and only if the memory is two bytes longer than the text; then it holds the text and a NUL |
| `JsonPrinter.Print` | components/tuya-iot-link-sdk/tuya-connect-kit-for-mqtt-embedded-c/utils/cJSON.c:1097-1170 | The printed C string, or null exactly when it and two more bytes pass INT_MAX |
| `JsonList.Item.AddItem` | components/tuya-iot-link-sdk/tuya-connect-kit-for-mqtt-embedded-c/utils/cJSON.c:1858-1885 | The list stays doubly linked, acyclic and null-terminated on both sides, and gains the item at its end |
| `JsonList.Item.DetachItem` | components/tuya-iot-link-sdk/tuya-connect-kit-for-mqtt-embedded-c/utils/cJSON.c:2085-2113 | The list stays well formed and loses exactly that item, which is left unlinked |
| `JsonList.Item.InsertItem` | components/tuya-iot-link-sdk/tuya-connect-kit-for-mqtt-embedded-c/utils/cJSON.c:2155-2182 | The list stays well formed and the item stands at the index, or at the end when the index is past it |
| `JsonList.Item.ReplaceItem` | components/tuya-iot-link-sdk/tuya-connect-kit-for-mqtt-embedded-c/utils/cJSON.c:2184-2217 | The list stays well formed and only that place holds another item |
| `JsonList.Item.GetArrayItem` | components/tuya-iot-link-sdk/tuya-connect-kit-for-mqtt-embedded-c/utils/cJSON.c:1753-1780 | The item at an index, or null past the end |
| `JsonList.Item.DetachUndoesInsert` | components/tuya-iot-link-sdk/tuya-connect-kit-for-mqtt-embedded-c/utils/cJSON.c:2085-2182 | A detach at the place of an insert restores every child, every link and the head, and the item is unlinked |
| `JsonList.Item.InsertUndoesDetach` | components/tuya-iot-link-sdk/tuya-connect-kit-for-mqtt-embedded-c/utils/cJSON.c:2085-2182 | An insert at the place of a detach restores them too |
| `Base64.DecodingUndoesEncoding` | components/tuya-iot-link-sdk/tuya-connect-kit-for-mqtt-embedded-c/utils/base64.c:51-202 | Decoding the encoding of any byte string, with LF or CRLF put anywhere into it, gives the byte string (section 4 of RFC 4648) |
| `Base64.FirstPassBoundsSecond` | components/tuya-iot-link-sdk/tuya-connect-kit-for-mqtt-embedded-c/utils/base64.c:125-199 | For every accepted text: the estimate never underflows, the second pass never writes more, the exact difference, and equality within three quarters of the length for whole quads |
| `Base64.Encode` | components/tuya-iot-link-sdk/tuya-connect-kit-for-mqtt-embedded-c/utils/base64.c:51-113 | Writes exactly the encoding and a zero, with the exact condition and sizes for a buffer that is too small |
| `Base64.Decode` | components/tuya-iot-link-sdk/tuya-connect-kit-for-mqtt-embedded-c/utils/base64.c:118-202 | Refuses exactly the malformed texts; otherwise writes exactly the decoded bytes, or asks for the estimate |
| `Base64.DecodeInto` | components/tuya-iot-link-sdk/tuya-connect-kit-for-mqtt-embedded-c/utils/base64.c:175-199 | The accumulator loop writes exactly the bytes of the groups and nothing behind them |
| `Base64.LineBreaksVanish` | components/tuya-iot-link-sdk/tuya-connect-kit-for-mqtt-embedded-c/utils/base64.c:125-199 | Line breaks change neither what the first pass counts nor what the second reads |
| `Base64.Alphabet` | components/tuya-iot-link-sdk/tuya-connect-kit-for-mqtt-embedded-c/utils/base64.c:22-32 | The symbols are those of table 1 of RFC 4648 |
| `Base64.TestVectors` | components/tuya-iot-link-sdk/tuya-connect-kit-for-mqtt-embedded-c/utils/base64.c:51-113 | The seven encodings of section 10 of RFC 4648 |
| `Base64.RefusedExactly` | components/tuya-iot-link-sdk/tuya-connect-kit-for-mqtt-embedded-c/utils/base64.c:125-160 | The decoder accepts a text if and only if spaces stand only before a line break or at the end, every CR before an LF, and the rest is alphabet characters with at most two pads, all at the end |
| `AesTables.Tables.Generate` | components/tuya-iot-link-sdk/tuya-connect-kit-for-mqtt-embedded-c/utils/aes_inf.c:845-923 | The generator fills all five tables with what FIPS 197 defines: S-box, inverse, mixed words, round constants |
| `AesTables.InverseByLogs` | components/tuya-iot-link-sdk/tuya-connect-kit-for-mqtt-embedded-c/utils/aes_inf.c:878 | The table lookup 255 - log is the inverse in the field: its product with the byte is 1 |
| `AesTables.ProductByLogs` | components/tuya-iot-link-sdk/tuya-connect-kit-for-mqtt-embedded-c/utils/aes_inf.c:840 | The product by logarithm tables is the field product, for every byte and each of the four coefficients |
| `AesTables.SubIsAffineInverse` | components/tuya-iot-link-sdk/tuya-connect-kit-for-mqtt-embedded-c/utils/aes_inf.c:876-890 | The table S-box is the affine map of the inverse taken from the logarithm tables, with 0x63 for zero |
| `AesTables.InvSubUndoesSub` | components/tuya-iot-link-sdk/tuya-connect-kit-for-mqtt-embedded-c/utils/aes_inf.c:873-890 | The inverse S-box undoes the S-box on every byte |
| `AesSpec.DecryptionUndoesEncryption` | components/tuya-iot-link-sdk/tuya-connect-kit-for-mqtt-embedded-c/utils/aes_inf.c:1091-1326 | The equivalent inverse cipher with the transformed, reversed key schedule undoes the cipher, for every block, any round keys and any number of rounds |
| `AesSpec.EquivalentInverse` | components/tuya-iot-link-sdk/tuya-connect-kit-for-mqtt-embedded-c/utils/aes_inf.c:1091-1153 | The equivalent inverse cipher computes the straightforward inverse cipher of section 5.3 of FIPS 197 on every block |
| `AesSpec.InvMixUndoesMix` | components/tuya-iot-link-sdk/tuya-connect-kit-for-mqtt-embedded-c/utils/aes_inf.c:893-915 | InvMixColumns undoes MixColumns on every column |
| `AesSpec.InvMixAdds` | components/tuya-iot-link-sdk/tuya-connect-kit-for-mqtt-embedded-c/utils/aes_inf.c:1134-1143 | InvMixColumns is linear, which is what lets it pass the round key |
| `AesCipher.DecryptUndoesEncrypt` | components/tuya-iot-link-sdk/tuya-connect-kit-for-mqtt-embedded-c/utils/aes_inf.c:977-1326 | Block decryption undoes block encryption for every key of 128, 192 or 256 bits and every block |
| `AesCipher.AesContext.ForwardWord` | components/tuya-iot-link-sdk/tuya-connect-kit-for-mqtt-embedded-c/utils/aes_inf.c:1156-1177 | One word of a table round is the mixed, substituted and shifted column under the round key |
| `AesCipher.AesContext.ReverseWord` | components/tuya-iot-link-sdk/tuya-connect-kit-for-mqtt-embedded-c/utils/aes_inf.c:1179-1200 | The same for the inverse tables |
| `AesCipher.AesContext.SetkeyEnc` | components/tuya-iot-link-sdk/tuya-connect-kit-for-mqtt-embedded-c/utils/aes_inf.c:977-1084 | Expands the key to the round keys of section 5.2 of FIPS 197 for the three sizes, refuses others and then changes nothing of the context |
| `AesCipher.AesContext.SetkeyDec` | components/tuya-iot-link-sdk/tuya-connect-kit-for-mqtt-embedded-c/utils/aes_inf.c:1091-1153 | Leaves the schedule of the equivalent inverse cipher: reversed, mixed but at the ends |
| `AesCipher.AesContext.Encrypt` | components/tuya-iot-link-sdk/tuya-connect-kit-for-mqtt-embedded-c/utils/aes_inf.c:1206-1258 | The block written is the cipher of the block read, also in place |
| `AesCipher.AesContext.Decrypt` | components/tuya-iot-link-sdk/tuya-connect-kit-for-mqtt-embedded-c/utils/aes_inf.c:1274-1326 | The block written is the equivalent inverse cipher of the block read, also in place |
| `AesVectors.RotWordIndex` | components/tuya-iot-link-sdk/tuya-connect-kit-for-mqtt-embedded-c/utils/aes_inf.c:1026-1030 | Byte i of the rotated word is byte i + 1 of the word |
| `AesVectors.ShiftRowsIndex` | components/tuya-iot-link-sdk/tuya-connect-kit-for-mqtt-embedded-c/utils/aes_inf.c:1156-1177 | Row r of column c comes from column c + r |
| `AesVectors.BlockIndex` | components/tuya-iot-link-sdk/tuya-connect-kit-for-mqtt-embedded-c/utils/aes_inf.c:1206-1216 | Byte r + 4c of a block is row r of column c |
| `AesVectors.MixColIndex` | components/tuya-iot-link-sdk/tuya-connect-kit-for-mqtt-embedded-c/utils/aes_inf.c:893-903 | Each byte of a mixed column is the sum of field products with 2, 3, 1 and 1 |
| `AesVectors.Expansion128` | components/tuya-iot-link-sdk/tuya-connect-kit-for-mqtt-embedded-c/utils/aes_inf.c:1022-1037 | The whole expansion of the key of appendix A.1 of FIPS 197 |
| `AesVectors.Expansion192` | components/tuya-iot-link-sdk/tuya-connect-kit-for-mqtt-embedded-c/utils/aes_inf.c:1038-1055 | The first words of the expansion in appendix A.2 of FIPS 197 |
| `AesVectors.Expansion256` | components/tuya-iot-link-sdk/tuya-connect-kit-for-mqtt-embedded-c/utils/aes_inf.c:1056-1083 | The first words of the expansion in appendix A.3 of FIPS 197, with the word that is substituted and not rotated |
| `AesVectors.ExampleBlock` | components/tuya-iot-link-sdk/tuya-connect-kit-for-mqtt-embedded-c/utils/aes_inf.c:1206-1326 | The block of appendix B of FIPS 197 is encrypted, round by round, and decrypted as it says |
| `AesModes.CbcIsUndone` | components/tuya-iot-link-sdk/tuya-connect-kit-for-mqtt-embedded-c/utils/aes_inf.c:1373-1432 | CBC decryption undoes CBC encryption from the same IV for every number of blocks (section 6.2 of NIST SP 800-38A) |
| `AesModes.CbcEncryptSplits` | components/tuya-iot-link-sdk/tuya-connect-kit-for-mqtt-embedded-c/utils/aes_inf.c:1409-1427 | One encryption call equals two that carry the IV |
| `AesModes.CbcDecryptSplits` | components/tuya-iot-link-sdk/tuya-connect-kit-for-mqtt-embedded-c/utils/aes_inf.c:1389-1405 | One decryption call equals two that carry the IV |
| `AesModes.CbcEncryptBlocks` | components/tuya-iot-link-sdk/tuya-connect-kit-for-mqtt-embedded-c/utils/aes_inf.c:1409-1427 | Each ciphertext block is the cipher of the plaintext block under the ciphertext block before it, the first under the IV (section 6.2 of NIST SP 800-38A) |
| `AesModes.CbcDecryptBlocks` | components/tuya-iot-link-sdk/tuya-connect-kit-for-mqtt-embedded-c/utils/aes_inf.c:1389-1405 | Each plaintext block is the inverse cipher of its block under the ciphertext block before it |
| `AesModes.EcbBlocks` | components/tuya-iot-link-sdk/tuya-connect-kit-for-mqtt-embedded-c/utils/aes_inf.c:2331-2382 | Each block is the cipher of the block in its place (section 6.1 of NIST SP 800-38A) |
| `AesModes.CryptCbc` | components/tuya-iot-link-sdk/tuya-connect-kit-for-mqtt-embedded-c/utils/aes_inf.c:1373-1432 | Both directions in place: output and updated IV are those of the mode; a length that is no multiple of 16 is refused and nothing changes |
| `AesModes.EcbIsUndone` | components/tuya-iot-link-sdk/tuya-connect-kit-for-mqtt-embedded-c/utils/aes_inf.c:2331-2382 | Block-by-block decryption undoes block-by-block encryption |
| `AesModes.UnpaddingRecovers` | components/tuya-iot-link-sdk/tuya-connect-kit-for-mqtt-embedded-c/utils/aes_inf.c:2127-2137 | The length that the decoder takes from the last byte is the payload's, for every payload (section 6.3 of RFC 5652) |
| `AesModes.EachPaddingByte` | components/tuya-iot-link-sdk/tuya-connect-kit-for-mqtt-embedded-c/utils/aes_inf.c:2127-2137 | Every byte added is the number of bytes added, 16 less the remainder (section 6.3 of RFC 5652) |
| `AesModes.AddPkcs` | components/tuya-iot-link-sdk/tuya-connect-kit-for-mqtt-embedded-c/utils/aes_inf.c:2127-2137 | Pads in place and returns the padded length |
| `AesModes.DecodingUndoesEncoding` | components/tuya-iot-link-sdk/tuya-connect-kit-for-mqtt-embedded-c/utils/aes_inf.c:2215-2264 | Padding, ECB encryption, ECB decryption and unpadding compose to the identity for every key and payload |
| `AesModes.Ecb128Encode` | components/tuya-iot-link-sdk/tuya-connect-kit-for-mqtt-embedded-c/utils/aes_inf.c:2215-2237 | A fresh buffer with the padded ciphertext; an empty payload is refused |
| `AesModes.Ecb128Decode` | components/tuya-iot-link-sdk/tuya-connect-kit-for-mqtt-embedded-c/utils/aes_inf.c:2239-2264 | The decrypted blocks, a zero, and the length the last byte leaves in 32 bits; empty or partial blocks are refused |
| `Pv22.DecodingUndoesPacking` | components/tuya-iot-link-sdk/tuya-connect-kit-for-mqtt-embedded-c/src/mqtt_service.c:91-172 | Decoding a packed packet recovers its sequence number and payload for every key and nonempty payload; the source comes out byte-swapped |
| `Pv22.SourceSurvives` | components/tuya-iot-link-sdk/tuya-connect-kit-for-mqtt-embedded-c/src/mqtt_service.c:115-149 | The source survives if and only if its bytes read the same both ways |
| `Pv22.ReportSourceIsChanged` | components/tuya-iot-link-sdk/tuya-connect-kit-for-mqtt-embedded-c/src/mqtt_service.c:694-698 | Source 1, which reports carry, is decoded as 0x01000000 |
| `Pv22.CopiesTooMuchExactly` | components/tuya-iot-link-sdk/tuya-connect-kit-for-mqtt-embedded-c/src/mqtt_service.c:153-169 | The copy of the payload leaves the decrypted buffer if and only if the packet has the version and whole blocks and its last decrypted byte is larger than the number of decrypted bytes |
| `Pv22.OverlongPacketsExist` | components/tuya-iot-link-sdk/tuya-connect-kit-for-mqtt-embedded-c/src/mqtt_service.c:153-169 | For every key such packets exist for each payload size below 256, and for no other |
| `Pv22.WordsOnTheWire` | components/tuya-iot-link-sdk/tuya-connect-kit-for-mqtt-embedded-c/src/mqtt_service.c:107-118 | The sequence number is sent big-endian, the source little-endian |
| `Pv22.PacketLayout` | components/tuya-iot-link-sdk/tuya-connect-kit-for-mqtt-embedded-c/src/mqtt_service.c:91-125 | "2.2" in front, behind it the CRC of all that follows, big-endian, and at the end the payload, padded and encrypted |
| `Pv22.CrcIsNotChecked` | components/tuya-iot-link-sdk/tuya-connect-kit-for-mqtt-embedded-c/src/mqtt_service.c:127-172 | Packets that differ only in the CRC field are decoded alike |
| `Pv22.Encode` | components/tuya-iot-link-sdk/tuya-connect-kit-for-mqtt-embedded-c/src/mqtt_service.c:91-125 | The output holds version, CRC of what follows, sequence, source and ciphertext; an empty payload is refused |
| `Pv22.Decode` | components/tuya-iot-link-sdk/tuya-connect-kit-for-mqtt-embedded-c/src/mqtt_service.c:127-172 | What is written for each kind of input, including which fields are set before decryption fails; nothing but the header fields where the payload copy leaves the buffer |
| `Crc32.TableIsEightSteps` | components/tuya-iot-link-sdk/tuya-connect-kit-for-mqtt-embedded-c/utils/crc32.c:42-107 | Each of the 256 transcribed table entries is eight reflected steps of the polynomial |
| `Crc32.TableStep` | components/tuya-iot-link-sdk/tuya-connect-kit-for-mqtt-embedded-c/utils/crc32.c:143-147 | The table step is eight bit steps, for every register and byte (section 8 of RFC 1952) |
| `Crc32.FoldIsBitwise` | components/tuya-iot-link-sdk/tuya-connect-kit-for-mqtt-embedded-c/utils/crc32.c:118-133 | The fold of the table step over a message is the CRC shifted in bit by bit |
| `Crc32.Crc` | components/tuya-iot-link-sdk/tuya-connect-kit-for-mqtt-embedded-c/utils/crc32.c:118-133 | The loop computes both: the bitwise CRC and the complemented fold of update_crc_32; zero for a null pointer |
| `Crc32.OneChangedByteIsDetected` | components/tuya-iot-link-sdk/tuya-connect-kit-for-mqtt-embedded-c/utils/crc32.c:118-147 | A message with any one byte changed has another CRC |
| `Crc32.CheckValue` | components/tuya-iot-link-sdk/tuya-connect-kit-for-mqtt-embedded-c/utils/crc32.c:118-147 | The CRC of the digits 1 to 9 is 0xCBF43926 |
| `Md5.Context.Update` | components/tuya-iot-link-sdk/tuya-connect-kit-for-mqtt-embedded-c/utils/uni_md5.c:52-75 | The context stays that of the whole message: whole blocks in the registers, the rest in the buffer, the bit length modulo 2^64 in the two count words, whatever the split |
| `Md5.Context.Final` | components/tuya-iot-link-sdk/tuya-connect-kit-for-mqtt-embedded-c/utils/uni_md5.c:77-87 | The digest is that of the whole message, padded as sections 3.1 and 3.2 of RFC 1321 say |
| `Md5.DigestTotal` | components/tuya-iot-link-sdk/tuya-connect-kit-for-mqtt-embedded-c/utils/uni_md5.c:89-95 | The one-shot digest is the same function of the input |
| `Md5.CountsAfter` | components/tuya-iot-link-sdk/tuya-connect-kit-for-mqtt-embedded-c/utils/uni_md5.c:52-60 | The two count words stay the bit length modulo 2^64 through every carry and wrap |
| `Md5.GuardWrapsExactly` | components/tuya-iot-link-sdk/tuya-connect-kit-for-mqtt-embedded-c/utils/uni_md5.c:66 | The exact input lengths for which the 32-bit loop guard passes with fewer than 64 bytes left |
| `Md5.ProcessSplits` | components/tuya-iot-link-sdk/tuya-connect-kit-for-mqtt-embedded-c/utils/uni_md5.c:62-70 | Compressing a message block by block can be cut at any block |
| `Md5.Context.AllRounds` | components/tuya-iot-link-sdk/tuya-connect-kit-for-mqtt-embedded-c/utils/uni_md5.c:123-197 | The unrolled 64 macro calls are the 64 steps of section 3.4 of RFC 1321 with its index, shift and sine tables |
| `Md5.Context.Transform` | components/tuya-iot-link-sdk/tuya-connect-kit-for-mqtt-embedded-c/utils/uni_md5.c:123-202 | The registers become the compression of the block |
| `Md5Vectors.FChooses` | components/tuya-iot-link-sdk/tuya-connect-kit-for-mqtt-embedded-c/utils/uni_md5.c:4 | F is y where x has a bit and z where it has none (section 3.4 of RFC 1321) |
| `Md5Vectors.GChooses` | components/tuya-iot-link-sdk/tuya-connect-kit-for-mqtt-embedded-c/utils/uni_md5.c:5 | G is x where z has a bit and y where it has none |
| `Md5Vectors.HIsParity` | components/tuya-iot-link-sdk/tuya-connect-kit-for-mqtt-embedded-c/utils/uni_md5.c:6 | H is the parity, bit by bit: any two equal arguments cancel |
| `Md5Vectors.ITurns` | components/tuya-iot-link-sdk/tuya-connect-kit-for-mqtt-embedded-c/utils/uni_md5.c:7 | I turns y over where x has a bit or z has none, and leaves it elsewhere |
| `Md5Vectors.LettersDigest` | components/tuya-iot-link-sdk/tuya-connect-kit-for-mqtt-embedded-c/utils/uni_md5.c:34-87 | The digest of the letters a to z is that of section A.5 of RFC 1321, step by step |
| `MatopRuns.EveryRunIsConsistent` | components/tuya-iot-link-sdk/tuya-connect-kit-for-mqtt-embedded-c/src/matop_service.c:44-294 | In every run: sent requests are in increasing order, pending and noticed requests together are exactly the sent ones, and every reply was given under its own id |
| `MatopRuns.SentOncePendingOrNoticed` | components/tuya-iot-link-sdk/tuya-connect-kit-for-mqtt-embedded-c/src/matop_service.c:44-294 | In every run each sent request is in the table exactly once and not noticed, or not in the table and noticed exactly once; any other is in neither |
| `MatopRuns.TableIsInSendingOrder` | components/tuya-iot-link-sdk/tuya-connect-kit-for-mqtt-embedded-c/src/matop_service.c:82-92 | In every run the table is the sent requests without the noticed ones, in sending order |
| `MatopRuns.CompleteKeepsOrder` | components/tuya-iot-link-sdk/tuya-connect-kit-for-mqtt-embedded-c/src/matop_service.c:69-93 | A completion removes only its entry; requests that its callback sends follow the others, none lost, in order |
| `MatopRuns.IdsInFlightAreDistinct` | components/tuya-iot-link-sdk/tuya-connect-kit-for-mqtt-embedded-c/src/matop_service.c:244 | With fewer than 65536 ids between the oldest pending request and the newest, pending ids differ |
| `MatopRuns.ReplyReachesItsSender` | components/tuya-iot-link-sdk/tuya-connect-kit-for-mqtt-embedded-c/src/matop_service.c:44-78 | In every run a reply, JSON or raw, with the id of a pending request gives exactly one notice; it is that request's if and only if no older pending request has the same 16-bit id |
| `MatopRuns.RepliesReachTheirSenders` | components/tuya-iot-link-sdk/tuya-connect-kit-for-mqtt-embedded-c/src/matop_service.c:44-78 | In every run with fewer than 65536 ids in flight, a reply with the id of a pending request gives the notice of that request and of no other |
| `MatopRuns.OlderRequestTakesTheReply` | components/tuya-iot-link-sdk/tuya-connect-kit-for-mqtt-embedded-c/src/matop_service.c:44-78 | A run of 65537 requests in which the reply meant for the last one completes the first |
| `MatopRuns.LongIds` | components/tuya-iot-link-sdk/tuya-connect-kit-for-mqtt-embedded-c/src/matop_service.c:105-120 | On ids of more than 16 bits a JSON reply matches the low half and a raw reply matches nothing |
| `MatopRuns.NoEarlyTimeout` | components/tuya-iot-link-sdk/tuya-connect-kit-for-mqtt-embedded-c/src/matop_service.c:206-222 | A request times out only past its deadline, and a yield that reports no timeout found none past it |
| `MatopRuns.EarlyAcrossTheWrap` | components/tuya-iot-link-sdk/tuya-connect-kit-for-mqtt-embedded-c/src/matop_service.c:206-222 | Exactly when a request counts as expired before the time it asked for, or before 8000 ticks if it asked for none: when that tick lies across the wrap, and then at once |
| `MatopTimes.EntriesAreRequests` | components/tuya-iot-link-sdk/tuya-connect-kit-for-mqtt-embedded-c/src/matop_service.c:200-291 | In every run each table entry is the published request of its number, with the tick that request asked for and its callback; each notice is to such a request, and a timeout comes after that tick |
| `MatopTimes.DeadlineAsAsked` | components/tuya-iot-link-sdk/tuya-connect-kit-for-mqtt-embedded-c/src/matop_service.c:245 | Off the wrap a request's entry expires behind the time it asked for, or 8000 ticks if it asked for none |
| `MatopTimes.YieldTimesOutExactly` | components/tuya-iot-link-sdk/tuya-connect-kit-for-mqtt-embedded-c/src/matop_service.c:200-223 | After every run off the wrap a yield times out if and only if some pending request has waited longer than it asked for |
| `MatopTimes.AloneTimesOutExactly` | components/tuya-iot-link-sdk/tuya-connect-kit-for-mqtt-embedded-c/src/matop_service.c:200-245 | A request alone in the table times out if and only if the clock has passed its ticks and its time |
| `MatopTimes.QueryWaitsTenSeconds` | components/tuya-iot-link-sdk/tuya-connect-kit-for-mqtt-embedded-c/src/matop_service.c:421-431 | A query that asks for 10000 ticks is not timed out at tick 10000 and is at the next |
| `MatopTimes.FirstIdIsOne` | components/tuya-iot-link-sdk/tuya-connect-kit-for-mqtt-embedded-c/src/matop_service.c:244 | The first request has id 1, and a reply with that id completes it |
| `MatopTimes.RawIdIsBigEndian` | components/tuya-iot-link-sdk/tuya-connect-kit-for-mqtt-embedded-c/src/matop_service.c:105 | The raw reply's id is its first four bytes, high byte first |
| `MatopRuns.YieldExpiresOne` | components/tuya-iot-link-sdk/tuya-connect-kit-for-mqtt-embedded-c/src/matop_service.c:206-222 | A yield removes exactly one expired entry if there is one |
| `MatopRuns.YieldsDrainTheExpired` | components/tuya-iot-link-sdk/tuya-connect-kit-for-mqtt-embedded-c/src/matop_service.c:200-223 | Repeated yields notice all expired entries in as many calls, and then change nothing |
| `MatopService.Matop.RequestAsync` | components/tuya-iot-link-sdk/tuya-connect-kit-for-mqtt-embedded-c/src/matop_service.c:225-294 | The linked list and counter take the request step; a failed publish leaves the list alone |
| `MatopService.Matop.Notify` | components/tuya-iot-link-sdk/tuya-connect-kit-for-mqtt-embedded-c/src/matop_service.c:76-78 | The callback's requests are appended to the list that is being edited |
| `MatopService.Matop.Remove` | components/tuya-iot-link-sdk/tuya-connect-kit-for-mqtt-embedded-c/src/matop_service.c:82-92 | The pointer-to-link loop takes out exactly the target |
| `MatopService.Matop.DataReceived` | components/tuya-iot-link-sdk/tuya-connect-kit-for-mqtt-embedded-c/src/matop_service.c:21-94 | The linked list takes the reply step, with its result code |
| `MatopService.Matop.RawDataReceived` | components/tuya-iot-link-sdk/tuya-connect-kit-for-mqtt-embedded-c/src/matop_service.c:96-147 | The linked list takes the raw reply step, with its result code |
| `MatopService.Matop.Yield` | components/tuya-iot-link-sdk/tuya-connect-kit-for-mqtt-embedded-c/src/matop_service.c:200-223 | The linked list takes the timeout step, whatever the callback appends meanwhile |
| `MultiTimers.WalkIsRight` | components/tuya-iot-link-sdk/tuya-connect-kit-for-mqtt-embedded-c/utils/MultiTimer.c:126-149 | On any sorted list with no deadline across the wrap: the cursor is never lost, the list stays sorted and free of duplicates, only due timers fire, each one that fired leaves, or stays with its next deadline if it is periodic or its callback starts it again, all others stay, and the overdue count falls by the number fired |
| `MultiTimers.ExpiredHeadFires` | components/tuya-iot-link-sdk/tuya-connect-kit-for-mqtt-embedded-c/utils/MultiTimer.c:126-149 | An expired head always fires, first |
| `MultiTimers.YieldsDrain` | components/tuya-iot-link-sdk/tuya-connect-kit-for-mqtt-embedded-c/utils/MultiTimer.c:126-149 | Repeated yields fire every overdue timer; afterwards every deadline lies ahead |
| `TimerYields.OneShotsFireAlternately` | components/tuya-iot-link-sdk/tuya-connect-kit-for-mqtt-embedded-c/utils/MultiTimer.c:130-148 | On due one-shot timers one yield fires the first, the third, the fifth and so on, because the cursor steps over the entry after each one it removes |
| `TimerYields.YieldFires` | components/tuya-iot-link-sdk/tuya-connect-kit-for-mqtt-embedded-c/utils/MultiTimer.c:126-149 | Exactly which timers a yield fires, on any sorted list off the wrap: of the due ones the first, the third and so on, none behind the first one that starts again (by its period or from its callback) with a deadline not before the list's last |
| `TimerYields.OneYieldFiresAll` | components/tuya-iot-link-sdk/tuya-connect-kit-for-mqtt-embedded-c/utils/MultiTimer.c:126-149 | On any sorted list off the wrap, one yield leaves no timer due if and only if at most one was due |
| `TimerYields.PutBackLastEndsTheYield` | components/tuya-iot-link-sdk/tuya-connect-kit-for-mqtt-embedded-c/utils/MultiTimer.c:145-147 | A concrete list on which the yield ends with two timers still due, because the periodic one it fired is put back last |
| `TimerYields.SteppedOverAreDue` | components/tuya-iot-link-sdk/tuya-connect-kit-for-mqtt-embedded-c/utils/MultiTimer.c:130-148 | After a pass that goes on, the entries before the cursor are all due if and only if two entries were due from the cursor on |
| `TimerYields.SteppedOverNotDue` | components/tuya-iot-link-sdk/tuya-connect-kit-for-mqtt-embedded-c/utils/MultiTimer.c:130-148 | A concrete pass that leaves an entry before the cursor that is not due |
| `TimerYields.CursorIsLost` | components/tuya-iot-link-sdk/tuya-connect-kit-for-mqtt-embedded-c/utils/MultiTimer.c:130-148 | Exactly when a pass loses its cursor: the last entry is due and starts again, by its period or from its callback, and its wrapped next deadline is before the entry it hangs on |
| `TimerYields.WrapLosesTheCursor` | components/tuya-iot-link-sdk/tuya-connect-kit-for-mqtt-embedded-c/utils/MultiTimer.c:130-148 | A concrete list with a restart across the tick wrap on which the cursor's link becomes null and is followed |
| `TimerYields.OneTimer` | components/tuya-iot-link-sdk/tuya-connect-kit-for-mqtt-embedded-c/utils/MultiTimer.c:126-149 | A timer alone in the list, exactly: left before its deadline, fired once from then on, and then gone, due its period after the yield, or due its callback's delay after it |
| `MultiTimers.DueExactly` | components/tuya-iot-link-sdk/tuya-connect-kit-for-mqtt-embedded-c/utils/MultiTimer.c:7 | Exactly when the wrap-around comparison calls a timer due, including too early and never |
| `MultiTimers.StartKeepsOrder` | components/tuya-iot-link-sdk/tuya-connect-kit-for-mqtt-embedded-c/utils/MultiTimer.c:51-80 | Starting keeps the list sorted and free of duplicates and changes only that timer |
| `MultiTimers.StepIsRight` | components/tuya-iot-link-sdk/tuya-connect-kit-for-mqtt-embedded-c/utils/MultiTimer.c:130-148 | A pass never loses the cursor, fires the entry at it exactly when that is due, and has on the list the effect stated for whole yields |
| `MultiTimers.TimerList.Start` | components/tuya-iot-link-sdk/tuya-connect-kit-for-mqtt-embedded-c/utils/MultiTimer.c:51-80 | Takes the timer out if it is listed and puts it behind every timer that is not strictly later |
| `MultiTimers.TimerList.Stop` | components/tuya-iot-link-sdk/tuya-connect-kit-for-mqtt-embedded-c/utils/MultiTimer.c:87-100 | Takes the timer out and nothing else |
| `MultiTimers.TimerList.Activated` | components/tuya-iot-link-sdk/tuya-connect-kit-for-mqtt-embedded-c/utils/MultiTimer.c:109-119 | True if and only if the timer is in the list |
| `MultiTimers.TimerList.Yield` | components/tuya-iot-link-sdk/tuya-connect-kit-for-mqtt-embedded-c/utils/MultiTimer.c:126-149 | The pointer walk computes the specified list and calls the callbacks of the fired timers in order; a callback may start its own timer again |
| `HttpBody.EveryRunAssembles` | components/tuya-iot-link-sdk/tuya-connect-kit-for-mqtt-embedded-c/libraries/coreHTTP/source/core_http_client.c:857-930 | For every run of network reads and body callbacks at increasing positions: the body is the parts as they arrived, joined, and no byte at or behind the parse position has changed |
| `HttpBody.BodyIsTheJoinedParts` | components/tuya-iot-link-sdk/tuya-connect-kit-for-mqtt-embedded-c/libraries/coreHTTP/source/core_http_client.c:857-930 | The same from a response without a body, as the application sees it |
| `HttpBody.Response.OnBody` | components/tuya-iot-link-sdk/tuya-connect-kit-for-mqtt-embedded-c/libraries/coreHTTP/source/core_http_client.c:857-930 | The body grows by the part as it stood in the buffer, moved up over the chunk header when there is one |
| `HttpHeaders.FragmentationInvariance` | components/tuya-iot-link-sdk/tuya-connect-kit-for-mqtt-embedded-c/libraries/coreHTTP/source/core_http_client.c:556-853 | However each field and value is cut into adjacent pieces, the pairs reported, their order, the count and the final state are those of the uncut run |
| `HttpHeaders.OneHeader` | components/tuya-iot-link-sdk/tuya-connect-kit-for-mqtt-embedded-c/libraries/coreHTTP/source/core_http_client.c:665-763 | One header in pieces leaves the state it leaves whole: its pair waits, the one before it is reported |
| `HttpHeaders.ParsingContext.OnHeaderField` | components/tuya-iot-link-sdk/tuya-connect-kit-for-mqtt-embedded-c/libraries/coreHTTP/source/core_http_client.c:665-718 | Takes the field step, reporting the pair before it |
| `HttpHeaders.ParsingContext.OnHeaderValue` | components/tuya-iot-link-sdk/tuya-connect-kit-for-mqtt-embedded-c/libraries/coreHTTP/source/core_http_client.c:722-763 | Takes the value step |
| `HttpHeaders.ParsingContext.OnHeadersComplete` | components/tuya-iot-link-sdk/tuya-connect-kit-for-mqtt-embedded-c/libraries/coreHTTP/source/core_http_client.c:767-853 | Reports the last pair, sets the headers' length, and stops the parser for a response to HEAD |
| `HttpDigits.ConvertInt32ToAscii` | components/tuya-iot-link-sdk/tuya-connect-kit-for-mqtt-embedded-c/libraries/coreHTTP/source/core_http_client.c:1187-1236 | The buffer holds the number's decimal text and its length is returned |
| `HttpDigits.DigitsReadBack` | components/tuya-iot-link-sdk/tuya-connect-kit-for-mqtt-embedded-c/libraries/coreHTTP/source/core_http_client.c:1217-1222 | The digits stand for the number and have no needless zero |
| `HttpDigits.DecimalReadBack` | components/tuya-iot-link-sdk/tuya-connect-kit-for-mqtt-embedded-c/libraries/coreHTTP/source/core_http_client.c:1187-1236 | The text begins with a minus sign if and only if the number is negative, and the digits behind it stand for its size |
| `HttpDigits.TenCharactersFit` | components/tuya-iot-link-sdk/tuya-connect-kit-for-mqtt-embedded-c/libraries/coreHTTP/source/core_http_client.c:1204 | The ten characters that the assertion demands hold the text if and only if the number is above -1000000000 |
| `DownloadRuns.EveryRunIsSafe` | components/tuya-iot-link-sdk/tuya-connect-kit-for-mqtt-embedded-c/src/file_download.c:38-229 | With a handler, over every run of starts, stops, yields, replies and timer events in which no start or yield disturbs: the outstanding range starts at the received size and lies in the file, the data notices tile the file from 0 in order with the file's own bytes, FINISH comes only at the full size |
| `DownloadRuns.OneByOneExactly` | components/tuya-iot-link-sdk/tuya-connect-kit-for-mqtt-embedded-c/src/file_download.c:38-229 | Over every run: at each moment at most one request or timer is under way if and only if each start, and each yield of the application's own, that comes to requesting a range finds no request outstanding and sends none beside the running timer; then the data is right |
| `DownloadRuns.StartWhateverIsSent` | components/tuya-iot-link-sdk/tuya-connect-kit-for-mqtt-embedded-c/src/file_download.c:109-115 | A start that resumes keeps things one by one, whether or not its request can be sent, if and only if no request is outstanding and the retry timer is not running |
| `DownloadRuns.StartHarmsTheData` | components/tuya-iot-link-sdk/tuya-connect-kit-for-mqtt-embedded-c/src/file_download.c:53-115 | For every file: after a start that resumes, every run of replies and the timer reports the file's own bytes in order if and only if the start found no request outstanding and the timer not running, or the failures used up and one byte left |
| `DownloadRuns.StartAgainCountsTwice` | components/tuya-iot-link-sdk/tuya-connect-kit-for-mqtt-embedded-c/src/file_download.c:53-131 | A concrete case of it: a file that fits one range, stopped and started again while its request is outstanding, is asked for twice and reported twice, the second time behind its end |
| `DownloadRuns.StopAndStart` | components/tuya-iot-link-sdk/tuya-connect-kit-for-mqtt-embedded-c/src/file_download.c:109-131 | A stop whose outstanding request is answered well before the next start changes nothing |
| `DownloadRuns.StopFailAndStart` | components/tuya-iot-link-sdk/tuya-connect-kit-for-mqtt-embedded-c/src/file_download.c:73-131 | A stop whose outstanding request fails, and whose retry timer has fired before the next start, changes nothing up to the eighth failure |
| `DownloadRuns.StoppedTwice` | components/tuya-iot-link-sdk/tuya-connect-kit-for-mqtt-embedded-c/src/file_download.c:117-131 | A stop that finds the download stopped or not yet started ends it for good: whatever follows, nothing more is asked for and FINISH is not reported |
| `DownloadRuns.FaultIsForgotten` | components/tuya-iot-link-sdk/tuya-connect-kit-for-mqtt-embedded-c/src/file_download.c:73-131 | After any run that ends at fault, the next start reports the fault again if and only if the run's last stop found it; otherwise the start takes it back |
| `DownloadRuns.NextIsLastStop` | components/tuya-iot-link-sdk/tuya-connect-kit-for-mqtt-embedded-c/src/file_download.c:109-131 | In every run the phase a start resumes is the one that the last stop found |
| `DownloadRuns.EveryRunEnds` | components/tuya-iot-link-sdk/tuya-connect-kit-for-mqtt-embedded-c/src/file_download.c:53-223 | A run that is started once and left alone ends within a bound in the file size, and one that can go no further has reported FINISH or the fault |
| `DownloadRuns.StepDecreases` | components/tuya-iot-link-sdk/tuya-connect-kit-for-mqtt-embedded-c/src/file_download.c:53-223 | Bytes left, failures left and the running timer form a decreasing measure |
| `DownloadRuns.CounterCountsFailures` | components/tuya-iot-link-sdk/tuya-connect-kit-for-mqtt-embedded-c/src/file_download.c:38-229 | In every run the 8-bit counter is the number of failures in a row, counted over the events: failed replies and requests that could not be sent, up to good data or a start from the beginning |
| `DownloadRuns.FaultNeedsNine` | components/tuya-iot-link-sdk/tuya-connect-kit-for-mqtt-embedded-c/src/file_download.c:73-83 | In every run in which no start or yield disturbs, a fault needs nine failures in a row |
| `DownloadRuns.NineFailures` | components/tuya-iot-link-sdk/tuya-connect-kit-for-mqtt-embedded-c/src/file_download.c:53-83 | In a run that is left alone there are at most nine failures in a row, failed sends included: with fewer the timer asks for the same range again or runs on, the ninth is a fault |
| `DownloadRuns.BlindDownloads` | components/tuya-iot-link-sdk/tuya-connect-kit-for-mqtt-embedded-c/src/file_download.c:38-51 | Without an event handler a download can complete if and only if the file fits one range, because the offset is never set |
| `DownloadRanges.EveryRangeFits` | components/tuya-iot-link-sdk/tuya-connect-kit-for-mqtt-embedded-c/src/file_download.c:168-197 | Over every run, whatever is started, stopped, answered or lost: each outstanding range is for the configured length, 1024 if none is configured, or for what is left of the file |
| `DownloadRanges.AnswersNeeded` | components/tuya-iot-link-sdk/tuya-connect-kit-for-mqtt-embedded-c/src/file_download.c:53-197 | A download without failures is complete after exactly the rounded-up quotient of file size and length, in full answers |
| `DownloadRanges.FirstOfFour` | components/tuya-iot-link-sdk/tuya-connect-kit-for-mqtt-embedded-c/src/file_download.c:168-197 | Of 4096 bytes by 1024, bytes 0 to 1023 are asked for first |
| `FileDownload.Context.YieldNow` | components/tuya-iot-link-sdk/tuya-connect-kit-for-mqtt-embedded-c/src/file_download.c:133-229 | The fall-through switch computes the yield of the state machine and its status |
| `FileDownload.Context.DataReceived` | components/tuya-iot-link-sdk/tuya-connect-kit-for-mqtt-embedded-c/src/file_download.c:38-65 | A reply for a range takes the reply step of the state machine |
| `FileDownload.Context.RetryTimer` | components/tuya-iot-link-sdk/tuya-connect-kit-for-mqtt-embedded-c/src/file_download.c:73-83 | The retry timer takes the timer step |
| `FileDownload.Context.StartNow` | components/tuya-iot-link-sdk/tuya-connect-kit-for-mqtt-embedded-c/src/file_download.c:109-115 | A start takes the start step |
| `FileDownload.Context.StopNow` | components/tuya-iot-link-sdk/tuya-connect-kit-for-mqtt-embedded-c/src/file_download.c:117-131 | A stop, and a suspension, take the stop step |
| `BleFraming.FrameIsReassembled` | components/tuya-iot-link-sdk/tuya-connect-kit-for-mqtt-embedded-c/src/tuya_ble_service.c:452-505 | The receiver as meant, with an offset that counts bytes: for every frame below 16384 bytes and packet size from 10 on, the receiver of all notifications has the frame's length and, in front of its data, the frame |
| `BleFraming.FragmentationIsRight` | components/tuya-iot-link-sdk/tuya-connect-kit-for-mqtt-embedded-c/src/tuya_ble_service.c:763-845 | Every notification fits the packet size and carries its number; the joined payloads are the frame and what the last packet copies too many |
| `BleSizes.NothingBehindIsSent` | components/tuya-iot-link-sdk/tuya-connect-kit-for-mqtt-embedded-c/src/tuya_ble_service.c:763-845 | For every frame and packet size: bytes behind the frame are left out if and only if the frame fits the first packet, or what is left of it behind the last change of the header size is a number of full packets |
| `BleSizes.WritesStayInside` | components/tuya-iot-link-sdk/tuya-connect-kit-for-mqtt-embedded-c/src/tuya_ble_service.c:485-505 | For every frame and packet size, with the code's own offset: every write of the receiver stays inside the memory it allocated if and only if the frame fits the first packet |
| `BleSizes.SecondPacketIsWrittenOutside` | components/tuya-iot-link-sdk/tuya-connect-kit-for-mqtt-embedded-c/src/tuya_ble_service.c:485-505 | A frame of 16 bytes at packet size ten: the second packet is written at byte 119 of a 16-byte allocation |
| `BleSizes.GatheredFits` | components/tuya-iot-link-sdk/tuya-connect-kit-for-mqtt-embedded-c/src/tuya_ble_service.c:485-505 | The receiver as meant, with an offset that counts bytes: what it gathers fits the memory of the announced length if and only if the frame has a size that fills its packets |
| `BleFraming.LastPacketReadsBehind` | components/tuya-iot-link-sdk/tuya-connect-kit-for-mqtt-embedded-c/src/tuya_ble_service.c:822-832 | A frame of ten bytes at packet size ten: the second packet carries six bytes from behind the frame |
| `BleFraming.OnePacketIsExact` | components/tuya-iot-link-sdk/tuya-connect-kit-for-mqtt-embedded-c/src/tuya_ble_service.c:771-778 | A frame that fits one packet is sent as it is |
| `BleFraming.HeaderReadBack` | components/tuya-iot-link-sdk/tuya-connect-kit-for-mqtt-embedded-c/src/tuya_ble_service.c:461-499 | The receiver reads back number, frame length, version and the exact header size, below 16384 |
| `BleFraming.HeaderBytes` | components/tuya-iot-link-sdk/tuya-connect-kit-for-mqtt-embedded-c/src/tuya_ble_service.c:779-820 | The header bytes: number 0, the frame's length in groups, low one first, and the version 0x40; later only the number |
| `BleFraming.GroupsReadBack` | components/tuya-iot-link-sdk/tuya-connect-kit-for-mqtt-embedded-c/src/tuya_ble_service.c:461-485 | Reading the 7-bit groups of any number below 2^28: the size is right, the value is the one with the third and fourth group misweighted |
| `BleFraming.ReadAsMeant` | components/tuya-iot-link-sdk/tuya-connect-kit-for-mqtt-embedded-c/src/tuya_ble_service.c:464-468 | The value is as meant if and only if it is below 16384 |
| `BleFraming.SmallestMisread` | components/tuya-iot-link-sdk/tuya-connect-kit-for-mqtt-embedded-c/src/tuya_ble_service.c:461-485 | 16384 is read as 32768, and 2097152 as 8388608 |
| `BleFraming.FourthGroupAsksForMore` | components/tuya-iot-link-sdk/tuya-connect-kit-for-mqtt-embedded-c/src/tuya_ble_service.c:796-806 | From 2^28 on the fourth group still announces another |
| `BleFraming.PackAndSend` | components/tuya-iot-link-sdk/tuya-connect-kit-for-mqtt-embedded-c/src/tuya_ble_service.c:763-845 | The send loop ends and notifies exactly the specified packets, in order, or those before the first notification that fails |
| `Arc4.StateStaysAPermutation` | components/tuya-iot-link-sdk/tuya-connect-kit-for-mqtt-embedded-c/libraries/mbedtls/library/arc4.c:92-149 | The state holds each byte value once through key setup and any number of rounds |
| `Arc4.CryptTwice` | components/tuya-iot-link-sdk/tuya-connect-kit-for-mqtt-embedded-c/libraries/mbedtls/library/arc4.c:122-149 | A second pass from the same state restores the input |
| `Arc4.CryptSplits` | components/tuya-iot-link-sdk/tuya-connect-kit-for-mqtt-embedded-c/libraries/mbedtls/library/arc4.c:122-149 | Two calls are one call on the joined input |
| `Arc4.RoundIs` | components/tuya-iot-link-sdk/tuya-connect-kit-for-mqtt-embedded-c/libraries/mbedtls/library/arc4.c:133-144 | A round moves both indices, exchanges the two places, changes no other, and gives the byte that stands at their sum |
| `Arc4.RoundOnIdentity` | components/tuya-iot-link-sdk/tuya-connect-kit-for-mqtt-embedded-c/libraries/mbedtls/library/arc4.c:133-144 | The round on the identity permutation in closed form |
| `Arc4.FirstSwaps` | components/tuya-iot-link-sdk/tuya-connect-kit-for-mqtt-embedded-c/libraries/mbedtls/library/arc4.c:105-116 | The first two swaps of key setup, for every key |
| `Arc4.RepeatedKey` | components/tuya-iot-link-sdk/tuya-connect-kit-for-mqtt-embedded-c/libraries/mbedtls/library/arc4.c:105-116 | A key written twice gives the same state: its bytes are used round and round |
| `Arc4.Context.SetupKey` | components/tuya-iot-link-sdk/tuya-connect-kit-for-mqtt-embedded-c/libraries/mbedtls/library/arc4.c:92-117 | The array and indices are those of the specified key setup |
| `Arc4.Context.CryptInto` | components/tuya-iot-link-sdk/tuya-connect-kit-for-mqtt-embedded-c/libraries/mbedtls/library/arc4.c:122-149 | Output and state are those of the specified cipher, also in place |

## Left out

- JsonParser.ParseWithOpts: on failure the reported error position is not stated, only that the parse fails.
- JsonParser.ParseBuffer.ParseValue: on failure neither the offset nor the depth is stated, since the source abandons the buffer then; and the children are a sequence while parsing, their linking being what `JsonList` models.
- JsonPrinter.PrintBuffer.PrintValue: after a failure the buffer's contents are not stated.
- JsonRoundTrip.NumberIsReadBack: a number is the decimal text exchanged with `strtod` and `sprintf`; the floating-point value, its saturation to an integer and the choice between 15 and 17 digits are not modelled.
- JsonTexts.EveryTextIsRead: about texts of RFC 8259 with numbers of at most 63 characters; which other texts the parser lets through is stated for escapes and numbers (`JsonEscapes.AcceptedEscapes`, `JsonNumbers.TakesTheLongest`) only.
- JsonList.Item.ReplaceItem: deletion of the replaced item is not modelled; it is left unlinked.
- AesCipher.AesContext.SetkeyDec: the temporary context is not wiped, and a hardware method registered in place of the code is not modelled.
- AesModes.CryptCbc: input and output start at the beginning of their arrays; overlapping arrays other than the same one are not modelled.
- Pv22.Decode: where the payload copy would leave the decrypted buffer only the header fields are stated; C gives the copy no meaning.
- Md5.Context.Update: requires that the 32-bit block guard does not wrap, with the exact condition in `Md5.GuardWrapsExactly`.
- AesVectors.Expansion192: the expansions of 192 and 256 bits are compared with their first words, that of 128 bits with all.
- Md5.DigestTotal: for inputs 64 bytes or more below 4 GB.
- Md5.Context.AllRounds: the sine table is transcribed; that its entries are sines is not shown, but each is used by `Md5Vectors.LettersDigest`.
- MatopService.Matop.DataReceived: takes the parsed reply (no JSON, fields missing, or id and success); the other reply fields and user data are not modelled.
- MatopRuns.NoEarlyTimeout: the deadline is the stored one, in 32 bits; `MatopRuns.EarlyAcrossTheWrap` says when that is too early.
- MatopService.Matop.Notify: a callback sends requests; one that calls a receive function or the yield again is not modelled.
- MultiTimers.TimerList.Yield: the clock does not move during a yield; a callback leaves the list alone or starts its own timer again, and one that starts or stops other timers is not modelled; it requires that the walk does not lose its cursor, which `MultiTimers.WalkIsRight` shows whenever no deadline crosses the tick wrap and no callback restarts without a delay.
- DownloadRuns.EveryRunIsSafe: a good reply carries 1 byte up to what was asked and the handler keeps the event's offset; data is an offset, a length and the place in the file it comes from, not the bytes; the file size is known.
- DownloadRuns.EveryRunEnds: for downloads that are started once and left alone; an application can stop and start, or fail to send, for ever.
- FileDownload.Context.YieldNow: when the file size is 0 the size query is sent and its reply handler, unfinished in the source, is not modelled.
- BleFraming.FrameIsReassembled: about the receiver as meant, gathering into a sequence; `BleSizes.WritesStayInside` says when the code's own writes stay inside its memory.
- HttpHeaders.ParsingContext.OnHeadersComplete: content length and connection flags, copied from the parser, are not modelled.
- HttpDigits.ConvertInt32ToAscii: the least 32-bit integer, whose negation overflows, is outside its contract.
- Allocation failure, memory hooks, logging, null arguments where nothing is proved about them, item references and constant keys, case-insensitive lookup, `cJSON_Minify`, `cJSON_Compare` and `cJSON_Duplicate`.
- AES-192 and AES-256 CBC wrappers and hardware back ends: the same modes over other key sizes.
- `http_parser_execute`, request headers, sending and receiving loops of coreHTTP; the parser is an environment that calls back.
- BLE frame encryption and `get_crc_16`, pairing, the GATT layer; TLS, sockets, storage, system wrappers, audio and demos.
- The publish timeout walk of `tuya_mqtt_loop`, reconnection, and timeouts across the 32-bit tick wrap.
- Nothing was executed; these are proofs about models of the code.
