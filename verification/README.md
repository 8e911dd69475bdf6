# Sequoia's streaming layer, in Dafny

This project models the parts of Sequoia (an OpenPGP implementation in Rust) that move
octets around, and the structures that are built on them, and states what they promise.
`dafny verify dfyconfig.toml` checks all files.

- **ASCII armor** (section 6 of RFC 9580). `ArmorWriter` is the writer with its stash,
  column, and checksum; `Base64Filter` is the in-place filter, and `Base64Resume` says when
  a text can be filtered in several calls. `ArmorHeaders` gives the meaning of the header
  block, `ArmorBody` that of the body, and `ArmorReading` that of a sequence of reads of any
  text, as a function. `ArmorReader` is the reader with its decode buffer, which computes it.
  `ArmorRoundTrip` puts them together: whatever pieces are written, however the source cuts
  the text, and whatever sizes are read, the payload comes back; `ArmorReadBack` says for
  which headers. `ArmorCuts` says what the reader makes of text that is cut off at any octet,
  and `ArmorGaps` of text that is spread out by white space. `Cleartext` undoes the dash escaping of the cleartext signature framework.
- **CRC-24** (section 6.1.1 of RFC 9580). `Crc24` has the table-driven checksum, whose
  table is built by doubling and whose words carry garbage in the top octet, and the bitwise
  one, and shows that they agree, by linearity of the step over exclusive or. It also states
  which errors the checksum detects: bursts at any bit, and odd errors. A word is a sequence of 32 bits, least significant first.
- **Buffered readers.** `GenericReader` buffers a source that may answer with short reads,
  interruptions, and errors. `Readers` gives `Memory`, `Generic`, `Limitor`, `Reserve`, and
  `Dup` one contract, `ReaderStacks` stacks them, and `ReaderLoops` has the default methods
  of the trait, for every reader. What a reader will still deliver is `Rest()`; a reader is
  `Clean()` if no error is stashed and the source will report none.
- **Packet piles.** `PacketPile` rebuilds a forest from the packets and depths of the parser;
  `PileEditing` looks packets up and replaces them by path.
- **Lazily verified signatures.** `LazySignatures` is the memo table; `SharedSignatures` lets
  threads interleave, with the lock released between looking up and recording a verdict.
- **The rendezvous of clients and servers.** `Rendezvous` is the lock-file and cookie protocol
  as a state machine; `CookieFile` is the file it uses.
- **Smaller codecs.** `Sexp` serializes S-expressions; `Manifests` writes, reads, and merges
  update manifests.

`Bytes` and `Iteration` hold what the others share. I/O is a parameter: the answers of a
source are a script, the cryptography is an oracle, and connections may fail at any time.

Where the code and its documentation disagree, the model follows the code:

- `data(0)` of `Generic` returns nothing even when octets are buffered
  (`buffered-reader/src/generic.rs:223`), although `data` is documented to return the whole
  buffer. The contracts equate the result with the buffer only for a positive amount.
- `verify_sig` is documented to return an error if the index is out of bounds, but compares
  the complement of the index (`openpgp/src/cert/lazysigs.rs:250`). The contract of
  `VerifySig` says for every index what happens.
- The remainder of the quoting prefix that `base64_filter` returns belongs to the offset where
  it stopped, not to the offset it returns. Resuming with what it returns is right for all
  texts exactly without a prefix (`AlwaysResumesIff`), and for one text exactly if what was not
  consumed does not tell the two remainders apart (`ResumeIff`). `StaleRemainder` is a call
  that goes wrong for every prefix.
- The armor reader looks at a bounded window of the body. White space that fills the window
  ends the body early: the reader looks for a footer there. `RunOfBody` states exactly when all
  of the payload is read, `ReadAcrossGap` what becomes of one run of white space, and
  `WrittenNourishes` that text that the writer made, also if it is cut off, never starves it.
- The dashes behind the label of the footer line are optional, so text that lacks only them
  is complete (`TrailerCut`, `ReadCut`).
- A first header line that is cut in its key is taken for the body. What is read then need not be
  a prefix of the data (`CutHeader`), and if the key looks like a footer, reading ends without an
  error although nothing was read (`CutFooterKey`). `CutIff` says exactly for which cuts what is
  read is a prefix of the data, and all of it if there is no error.
- The writer accepts headers with line breaks. An empty line in a value ends the header block, and
  the rest of the value is read in front of the payload (`ValueBecomesBody`). `HeadersIff` says
  exactly for which headers the payload comes back, and `FoundIff` for which the headers do.
- A signed text line that starts with a dash other than ASCII need not be escaped, but is taken
  for a signature marker if the right words follow (`EmDashLooksLikeMarker`).
- A packet that is more than one level deeper than the one before is put beside it, silently
  (`PlacedDepth`).

## Model

| member | source | states |
|---|---|---|
| Crc24.BitStepLinear | openpgp/src/armor/crc.rs:97-102 | one bit step, including its effect on bits 24 to 31, distributes over exclusive or |
| Crc24.StepsLinear | openpgp/src/armor/crc.rs:97-102 | so do any number of steps |
| Crc24.StepsReflect | openpgp/src/armor/crc.rs:93-105 | steps depend on the low 24 bits only, and lose none of them: two words agree on 24 bits after the steps exactly if they did before |
| Crc24.Iterative | openpgp/src/armor/crc.rs:93-105 | the bitwise loop yields the 24-bit reference checksum with nothing in the top octet |
| Crc24.EntryDoubling | openpgp/src/armor/crc.rs:36-50 | an entry of the table is the exclusive or of the entry of its top bit and that of the rest |
| Crc24.BuildTable | openpgp/src/armor/crc.rs:32-52 | the doubling loop fills all 256 entries with eight bit steps of their index |
| Crc24.TableStep | openpgp/src/armor/crc.rs:54-57 | one table look-up agrees with eight bit steps on the low 24 bits, despite the garbage above them |
| Crc24.Crc.constructor | openpgp/src/armor/crc.rs:17-19 | the checksum starts from the initial value |
| Crc24.Crc.Update | openpgp/src/armor/crc.rs:28-60 | updating agrees with the bitwise loop on the low 24 bits |
| Crc24.ChecksumOf | openpgp/src/armor/crc.rs:28-64 | the table-driven checksum of any pieces is the bitwise checksum of their concatenation |
| Crc24.BitwiseAppend | openpgp/src/armor/crc.rs:93-105 | feeding two strings is feeding their concatenation |
| Crc24.SerialAtOnce | openpgp/src/armor/crc.rs:93-105 | feeding at most 24 bits one by one is the same as adding them in at once, above the checksum, and stepping |
| Crc24.BitwiseIsSerial | openpgp/src/armor/crc.rs:93-105 | the checksum takes the bits of the message one by one, the most significant bit of each octet first |
| Crc24.BurstDetected | openpgp/src/armor/crc.rs:54-64 | two messages of any length that differ at most within a window of 24 bits, wherever it starts, have the same checksum exactly if they are the same |
| Crc24.OctetsDetected | openpgp/src/armor/crc.rs:54-64 | in particular if they differ at most within three consecutive octets |
| Crc24.OddErrorDetected | openpgp/src/armor/crc.rs:5-6 | any odd number of flipped bits, anywhere, changes the checksum, because the polynomial has an even number of terms |
| Base64.QuadIff | openpgp/src/armor.rs:1319-1337 | a quad decodes to exactly the one to three octets it encodes, and non-canonical trailing bits are refused |
| Base64.Encode | openpgp/src/armor/base64_utils.rs:194-196 | an encoding has the length that `base64_size` predicts |
| Base64.DecodeIff | openpgp/src/armor.rs:1319-1337 | decoding succeeds on exactly the canonical encodings, and inverts them |
| Base64.EncodeAppend | openpgp/src/armor.rs:529-553 | whole blocks of three octets can be encoded separately |
| Base64Filter.VisibleAppend | openpgp/src/armor/base64_utils.rs:58-101 | stripping white space and quoting prefixes can be done piece by piece, if the state is carried over |
| Base64Filter.QuadsAreLongest | openpgp/src/armor/base64_utils.rs:35-159 | the quads of some characters are their longest prefix of whole quads that is legal, with padding only in the last two places of the last quad |
| Base64Filter.KeepOne | openpgp/src/armor/base64_utils.rs:103-142 | the loop accepts a character exactly if the kept characters stay legal |
| Base64Filter.Filter | openpgp/src/armor/base64_utils.rs:35-159 | for every text, limit, and quoting state: the result is the longest legal prefix of whole quads within the limit, the offset is just past the last character of it, and the remainder is that of the offset where the scan stops, which is the first one where the limit is reached or a character ends the data |
| Base64Resume.ResumeIff | openpgp/src/armor/base64_utils.rs:48-53 | for any remainder: going on from the offset sees what one pass would have seen, whatever follows, exactly if the text that was not consumed does not tell this remainder from that of the offset |
| Base64Resume.SameQuads | openpgp/src/armor/base64_utils.rs:48-53 | then it also yields the quads that one pass would have yielded next, up to the first padded one |
| Base64Resume.EndsAtOnce | openpgp/src/armor/base64_utils.rs:148-158 | the offset is determined by the quads, if there are any |
| Base64Resume.AlwaysResumesIff | openpgp/src/armor/base64_utils.rs:48-53 | going on with the offset and the remainder that the filter returns yields what one pass would have yielded, for all texts, continuations, and limits, exactly if there is no quoting prefix |
| Base64Resume.QuoteTakenForData | openpgp/src/armor/base64_utils.rs:82-101 | for every prefix: if a call ends behind a newline that it did not consume, going on with the remainder behind the newline takes a quoting character for data |
| Base64Resume.StaleRemainder | openpgp/src/armor/base64_utils.rs:148-158 | for every prefix there is a call of the filter that returns such a remainder |
| ArmorText.WrappedLines | openpgp/src/armor.rs:529-553 | the broken text consists of lines of 64 characters and a shorter last one; none is empty or too long, and joined they are the text |
| ArmorText.BrokenExtend | openpgp/src/armor.rs:476-483 | writing what fits in the line, and then breaking it if it is full, keeps the text broken at column 64 |
| ArmorText.HeaderLinesAppend | openpgp/src/armor.rs:332-343 | headers are written one per line, in order |
| ArmorWriter.HeaderText | openpgp/src/armor.rs:325-343 | the loop writes the header line, the headers in order, and the empty line |
| ArmorWriter.Writer.constructor | openpgp/src/armor.rs:314-346 | a new writer has written nothing |
| ArmorWriter.Writer.SetProfile | openpgp/src/armor.rs:379-388 | a profile can be set once |
| ArmorWriter.Writer.FinalizeHeaders | openpgp/src/armor.rs:400-409 | the header is written once, before the first octet |
| ArmorWriter.Writer.Emit | openpgp/src/armor.rs:545-552 | writing and breaking the line extends the emitted text, and keeps the column |
| ArmorWriter.Writer.EncodeBlocks | openpgp/src/armor.rs:529-553 | the loop over the encoded blocks emits all of them, broken into lines |
| ArmorWriter.Writer.RoomForQuad | openpgp/src/armor.rs:518-527 | between writes the column is a multiple of four and below 64, so that a quad fits |
| ArmorWriter.Writer.Absorb | openpgp/src/armor.rs:500-559 | what is emitted and what is stashed is always what was written; the stash holds at most three octets |
| ArmorWriter.Writer.Write | openpgp/src/armor.rs:487-563 | every write takes all octets, including none, and keeps the invariant of the writer |
| ArmorWriter.Writer.FinalizeBody | openpgp/src/armor.rs:424-451 | finishing the body leaves exactly the header and the broken encoding of all that was written |
| ArmorWriter.Writer.Finalize | openpgp/src/armor.rs:414-473 | the final text is the header, the lines of the encoding, the checksum unless the profile omits it, and the footer, of the concatenated writes; without a write, nothing |
| ArmorRoundTrip.Enarmor | openpgp/src/armor.rs:424-563 | for every sequence of writes, empty ones included, the text is that of one write of everything |
| ArmorBody.WrittenBody | openpgp/src/armor.rs:529-553 | stripping white space from the lines of the writer gives the encoding back, and white space is never close to white space |
| ArmorBody.WrittenNourishes | openpgp/src/armor.rs:1283-1314 | no window of the lines of the writer, cut off anywhere, lacks a quad while there is one left, for all sizes of reads |
| ArmorBody.WindowQuads | openpgp/src/armor.rs:1288-1317 | the quads of any window of any text are the first quads of its body; there are none exactly if the payload is over, or the window is all body and shows fewer than four characters that are not white space |
| ArmorBody.NourishedRest | openpgp/src/armor.rs:1283-1314 | whether a body starves the reader does not change by going on behind a quad that the window showed |
| ArmorBody.FewerStarve | openpgp/src/armor.rs:1288-1300 | a larger read starves less |
| ArmorBody.RestOfBody | openpgp/src/armor.rs:1307-1344 | behind the consumed part, which ends with a quad, the body encodes the rest of the payload |
| ArmorFraming.HeaderDetected | openpgp/src/armor.rs:153-186 | the header line of every kind is recognized as that kind, with its length |
| ArmorFraming.FooterDetected | openpgp/src/armor.rs:202-223 | so is the footer line |
| ArmorFraming.OneBlurb | openpgp/src/armor.rs:188-200 | text starts with the name of at most one kind, and then not with that of a cleartext signature |
| ArmorFraming.BlurbsDiffer | openpgp/src/armor.rs:153-200 | no kind is mistaken for another, whatever follows |
| ArmorFraming.HeaderParsed | openpgp/src/armor.rs:1173-1209 | a header line always has a colon, and yields the key and the value exactly if it is valid UTF-8, the key has no colon and space in it and no white space in front, and the value does not end in a carriage return |
| ArmorHeaders.RoleOfHeader | openpgp/src/armor.rs:1149-1215 | a written header line is never taken for the end of the block, and yields its header exactly if a line can represent it |
| ArmorHeaders.WrittenBlock | openpgp/src/armor.rs:1133-1235 | the block of headers without line breaks ends behind its empty line, whatever follows, and yields the headers exactly if lines can represent all of them |
| ArmorHeaders.ParseBefore | openpgp/src/armor.rs:1133-1235 | any block ends with its empty line at the latest: what follows changes neither its headers nor what is left of it |
| ArmorHeaders.FoundAreSingle | openpgp/src/armor.rs:1149-1215 | no header with a line break is ever found |
| ArmorHeaders.FoundIff | openpgp/src/armor.rs:1133-1235 | for all headers: they come back exactly if they have no line breaks and lines can represent them |
| ArmorHeaders.PreambleDetected | openpgp/src/armor.rs:1010-1071 | the look-ahead shows the whole header line, and the headers follow it |
| ArmorHeaders.WrittenOpens | openpgp/src/armor.rs:1010-1240 | for all headers: text of the writer opens with its kind and the headers that are found, and goes on with what is left of the header block, and the body |
| ArmorReading.EndOfEnds | openpgp/src/armor.rs:1307-1344 | what is consumed of a window ends right behind the last character that is decoded |
| ArmorReading.NextPiece | openpgp/src/armor.rs:1288-1344 | what one window decodes to is the next piece of the payload, empty exactly if the payload is over or the window is starved; the text behind it encodes the rest |
| ArmorReading.StepOfBody | openpgp/src/armor.rs:1249-1410 | a read of any non-zero size returns the next octets of the payload; exactly if all was returned or the window is starved, it returns nothing if a footer follows, and fails otherwise |
| ArmorReading.RunOfBody | openpgp/src/armor.rs:1249-1410 | for every body that encodes the payload in any layout, anything without a quad behind it, and any sizes of reads: the output is a prefix of the payload, each read makes progress, and at the end comes an empty read if a footer of the kind follows, and an error otherwise; all of the payload is read if no window of 66 octets is starved, and with reads of one window size exactly if none of that size is, or else reading stops at a starved one |
| ArmorReader.SkipWhitespace | openpgp/src/armor.rs:1350-1355 | exactly the white space is skipped |
| ArmorReader.Dearmorer.constructor | openpgp/src/armor.rs:799-832 | a new reader has read nothing |
| ArmorReader.Dearmorer.Initialize | openpgp/src/armor.rs:1010-1097 | for any text: succeeds exactly if a header line of the expected kind is seen at its start; then the kind, the headers, and what is left to read are those of the text, and otherwise nothing changes |
| ArmorReader.Dearmorer.ReadHeaders | openpgp/src/armor.rs:1100-1240 | for any text: the headers are those of the block behind the header line, in order, and exactly the block is consumed |
| ArmorReader.Dearmorer.ReadHeaderLines | openpgp/src/armor.rs:1133-1235 | the loop agrees with the recursive meaning of the block, also for one that is malformed, unfinished, or missing |
| ArmorReader.Dearmorer.ReadHeaderLine | openpgp/src/armor.rs:1149-1215 | each line is consumed only when the next one is read; it adds its header, or an empty one if it is not a key and a value, or ends the block and says how much of it belongs to the block |
| ArmorReader.Dearmorer.NextWindow | openpgp/src/armor.rs:1288-1305 | the look-ahead is the next octets of the text, however much is buffered |
| ArmorReader.Dearmorer.DecodeMore | openpgp/src/armor.rs:1260-1344 | for any text: fails exactly if the quads of the window are not canonical, without consuming; otherwise returned and buffered octets together are what they decode to, as many as fit are returned, and exactly the quads are consumed, or only white space if there are none |
| ArmorReader.Dearmorer.Finish | openpgp/src/armor.rs:1348-1406 | behind the body, white space, an optional checksum, and the footer are skipped; without a footer of the right kind it fails, and only then |
| ArmorReader.Dearmorer.ReadArmoredData | openpgp/src/armor.rs:1249-1410 | for any text: what a read returns and where it leaves the reader are those of the function of the text that `StepOfBody` is about, errors included |
| ArmorReader.Dearmorer.DoRead | openpgp/src/armor.rs:1602-1631 | for any text: the first read goes through the headers, and every read does what the function of the text says; the buffer is empty behind the end, so that the assertion holds |
| ArmorReadBack.TrailerStops | openpgp/src/armor.rs:453-468 | what the writer puts behind the body, cut off anywhere, holds no quad |
| ArmorReadBack.TrailerCloses | openpgp/src/armor.rs:453-468 | the reader finds the footer behind the body, with and without a checksum |
| ArmorReadBack.SpaceNourishes | openpgp/src/armor.rs:1283-1314 | white space in front of a body starves the reader at its start or not at all |
| ArmorReadBack.ReadBack | openpgp/src/armor.rs:1249-1410 | if what is left of the header block is at most 62 octets of white space, the payload is read back, for every profile and sequence of reads, and an empty read comes only after all of it |
| ArmorReadBack.HeadersIff | openpgp/src/armor.rs:332-343 | for all headers, line breaks included: what the writer makes is read back, for all payloads and reads, exactly then |
| ArmorReadBack.BlankLineInValue | openpgp/src/armor.rs:1192-1203 | an empty line in a value ends the block, and the rest of the value is left |
| ArmorReadBack.ValueIsRead | openpgp/src/armor.rs:1192-1203 | if that rest is base64, it is read in front of the payload, whatever that is |
| ArmorRoundTrip.ReadAll | openpgp/src/armor.rs:1602-1631 | for any text, fragmentation of the source, and sequence of reads: what is read, whether there is an end and whether an error, and the headers, are those of the function of the text |
| ArmorRoundTrip.Dearmor | openpgp/src/armor.rs:1249-1410 | what the writer makes is read back, for every profile, fragmentation, and sequence of reads, if the headers are harmless; the headers that are found are those of `FoundIff` |
| ArmorRoundTrip.RoundTrip | openpgp/src/armor.rs:2256-2284 | from any sequence of writes, through a source that cuts the text into any pieces, to any reads: exactly the payload comes out if the headers are harmless, in particular if they have no line breaks, and the headers come back exactly if lines can represent them |
| ArmorRoundTrip.ValueBecomesBody | openpgp/src/armor.rs:332-343 | a header with an empty line in its value: the first octet that is read is one of the header |
| ArmorGaps.GapIff | openpgp/src/armor.rs:1288-1314 | a run of white space between two quads starves the reader exactly if the window does not reach a quad behind it |
| ArmorGaps.GapStop | openpgp/src/armor.rs:1288-1314 | it is starved nowhere else, and what was read then is what precedes the run |
| ArmorGaps.GapRun | openpgp/src/armor.rs:1249-1410 | for every payload with such a run, and enough reads of one window size: if the window reaches across the run, all is read; otherwise exactly what precedes it, and then there is an error |
| ArmorGaps.ReadAcrossGap | openpgp/src/armor.rs:1249-1410 | the same of a call |
| ArmorCuts.FooterCut | openpgp/src/armor.rs:202-223 | a footer line that is cut off anywhere is recognized exactly if its label is complete |
| ArmorCuts.TrailerCut | openpgp/src/armor.rs:1348-1406 | so is what the writer puts behind the body, with and without a checksum |
| ArmorCuts.BodyCut | openpgp/src/armor.rs:1307-1344 | a body that is cut off anywhere is the body of some first octets of the payload, and less than a quad, which is not taken for a footer |
| ArmorCuts.HeaderCut | openpgp/src/armor.rs:153-186 | a header line that is cut off within its label is not recognized |
| ArmorCuts.BlockCut | openpgp/src/armor.rs:1133-1235 | header lines without line breaks that are cut off anywhere are consumed to the end, except that a part of the first line is left, as the body, exactly if it is valid UTF-8, not blank, and has no key and value |
| ArmorCuts.RemnantIs | openpgp/src/armor.rs:1100-1240 | so nothing is left of such a preamble, unless the cut is in the key of the first header |
| ArmorCuts.PreambleCut | openpgp/src/armor.rs:1010-1240 | any preamble that is cut off anywhere opens exactly if its label is complete, and what is left for the body is what is left of the header lines |
| ArmorCuts.MisleadsIff | openpgp/src/armor.rs:1288-1314 | whether some read takes a text for data or for the end of the armor is decided by reads that are not larger than the text |
| ArmorCuts.RunQuiet | openpgp/src/armor.rs:1249-1410 | if none does, reads yield nothing but an error |
| ArmorCuts.RunMisled | openpgp/src/armor.rs:1249-1410 | if one does, it yields octets that are not there, or an end that is none |
| ArmorCuts.RunOfTail | openpgp/src/armor.rs:1348-1406 | text without a quad yields nothing, and ends without an error exactly if it is a footer |
| ArmorCuts.HeadersCut | openpgp/src/armor.rs:1010-1240 | a cut in the headers that does not mislead yields nothing but an error |
| ArmorCuts.TextCut | openpgp/src/armor.rs:1249-1410 | reading the first octets of armored text, however many behind the headers: the output is a prefix of the payload, and reading ends without an error, with all of it, exactly if at most six octets are missing |
| ArmorCuts.CutIff | openpgp/src/armor.rs:1010-1410 | for every number of octets: for all payloads and reads, what is read of so many first octets is a prefix of the payload, and all of it if reading ends without an error, exactly if the cut is not in the headers or no read takes what is left of them for data or for the end |
| ArmorCuts.ReadCut | openpgp/src/armor.rs:1249-1410 | a call on the first octets of armored text, in any pieces, yields just that; if the cut does not mislead, it ends without an error, with all of the payload, exactly if at most six octets are missing |
| ArmorCuts.KeyCut | openpgp/src/armor.rs:1191-1203 | of a key that is cut off, exactly the part in front of the cut is left for the body |
| ArmorCuts.CutHeader | openpgp/src/armor.rs:1191-1203 | a comment that is cut in its key is read as data: whatever the payload is, the same three octets come out |
| ArmorCuts.CutFooterKey | openpgp/src/armor.rs:1348-1406 | a key that looks like a footer, cut right behind it, ends reading without an error and with nothing, whatever the payload is |
| Cleartext.TrimEnd | openpgp/src/armor.rs:1494-1499 | the longest part that does not end in a space or a tab |
| Cleartext.TrimTrailing | openpgp/src/armor.rs:1494-1499 | the loop removes exactly the trailing spaces and tabs |
| Cleartext.Unescape | openpgp/src/armor.rs:1476-1506 | one line as it goes into the text: without its escape and trailing blanks, with its line ending |
| Cleartext.ReadText | openpgp/src/armor.rs:1433-1520 | the loop yields the text up to the marker, whatever the fragmentation, and leaves the reader right behind the marker line |
| Cleartext.UnescapeIff | openpgp/src/armor.rs:1435-1511 | for all lines, escaped as in section 7.2 of RFC 9580, a marker line, and what follows: the text is recovered but for trailing blanks, and the loop stops at the marker, exactly if no line that is sent unescaped reads like a marker |
| Cleartext.AsciiNeverLooksLikeMarker | openpgp/src/armor.rs:1464-1474 | no ASCII line does, if lines that start with a dash are escaped |
| Cleartext.EmDashLooksLikeMarker | openpgp/src/armor.rs:1464-1474 | a line with an em dash, which needs no escape, does |
| Cleartext.LiteralIff | openpgp/src/armor.rs:1513-1520 | the literal is the text without its last newline, exactly if trimming does not uncover a carriage return at the end of the last line |
| Cleartext.CutShort | openpgp/src/armor.rs:1464-1474 | a line that reads like a marker always cuts the text short |
| Cleartext.ChoppedIff | openpgp/src/armor.rs:1433-1520 | for all lines and escapes: the literal is the text and what follows the marker is left, exactly if no line that is sent unescaped reads like a marker and no carriage return is uncovered |
| Cleartext.ReadSigned | openpgp/src/armor.rs:1433-1520 | the same of a call, from any reader and under any fragmentation |
| GenericReader.Answer | buffered-reader/src/generic.rs:163-183 | a read takes the next octets of the source, at most as many as fit, and an interruption or an error takes none |
| GenericReader.Generic.constructor | buffered-reader/src/generic.rs:75-90 | a new reader has buffered nothing, and will deliver the source |
| GenericReader.Generic.Poll | buffered-reader/src/generic.rs:147-184 | the loop over reads puts the octets of the source behind the buffered ones, until there are enough, or the source ends or fails |
| GenericReader.Generic.Fill | buffered-reader/src/generic.rs:132-201 | filling extends the buffer, and keeps buffer and unread source together the same |
| GenericReader.Generic.DataHelper | buffered-reader/src/generic.rs:114-242 | no octet is lost or invented under any script: what was buffered and unread is what was before, less what is consumed; a soft call fails only with an empty buffer, a failed hard call loses nothing, a stashed error is handed out once, and without errors a call fails exactly if it is hard and too little is left |
| GenericReader.Generic.HandOut | buffered-reader/src/generic.rs:203-241 | what is handed out of a filled buffer: an error exactly if there is too little, and a stashed one first; otherwise all of the buffer, of which at most the amount is consumed |
| GenericReader.Generic.Consume | buffered-reader/src/generic.rs:272-293 | consuming drops the front of the buffer, and returns what the buffer was |
| Readers.Reader.OfMemory | buffered-reader/src/memory.rs:48-56 | delivers the octets |
| Readers.Reader.OfGeneric | buffered-reader/src/generic.rs:66-90 | delivers what the buffered source delivers |
| Readers.Reader.OfLimitor | buffered-reader/src/limitor.rs:42-50 | delivers the first octets of the wrapped reader |
| Readers.Reader.OfReserve | buffered-reader/src/reserve.rs:46-54 | delivers all but the last octets of the wrapped reader |
| Readers.Reader.OfDup | buffered-reader/src/dup.rs:50-57 | delivers what the wrapped reader delivers |
| Readers.Reader.Data | buffered-reader/src/lib.rs:370-413 | for every stack: the buffer only grows, up to the amount unless the stream is shorter, nothing is consumed, and an error means that nothing is buffered |
| Readers.Reader.LimitorData | buffered-reader/src/limitor.rs:73-85 | the contract of `data`, for the limited view |
| Readers.Reader.ReserveData | buffered-reader/src/reserve.rs:85-94 | the contract of `data`, for all but the reserved octets: none of them is ever in the buffer |
| Readers.Reader.DupData | buffered-reader/src/dup.rs:91-95 | the contract of `data`, behind the cursor; the assertion that the data reaches the cursor holds |
| Readers.Reader.DataHard | buffered-reader/src/lib.rs:439-448 | like `data`, but fails exactly if too little is left, for an error-free stack |
| Readers.Reader.Consume | buffered-reader/src/lib.rs:520-557 | drops the front of the buffer and the stream, returns what the buffer was, and advances the wrapped reader by as much, but not that of a `Dup` |
| Readers.Reader.LimitorConsume | buffered-reader/src/limitor.rs:87-92 | the contract of `consume`, and the limit shrinks |
| Readers.Reader.ReserveConsume | buffered-reader/src/reserve.rs:96-113 | the contract of `consume`; the returned slice hides the reserved octets |
| Readers.Reader.Rewind | buffered-reader/src/dup.rs:63-66 | a `Dup` starts over with all that the wrapped reader has |
| Readers.Reader.DataConsume | buffered-reader/src/lib.rs:559-613 | consumes what it returns, but at most the amount; an error consumes nothing |
| Readers.Reader.MemoryDataConsume | buffered-reader/src/memory.rs:98-101 | the contract of `data_consume` |
| Readers.Reader.GenericDataConsume | buffered-reader/src/generic.rs:295-297 | the contract of `data_consume` |
| Readers.Reader.LimitorDataConsume | buffered-reader/src/limitor.rs:94-104 | the contract of `data_consume`, and the limit shrinks by what was consumed |
| Readers.Reader.ReserveDataConsume | buffered-reader/src/reserve.rs:115-118 | the contract of `data_consume` |
| Readers.Reader.DupDataConsume | buffered-reader/src/dup.rs:105-111 | the contract of `data_consume`, with the wrapped reader left alone; the assertion holds |
| Readers.Reader.DataConsumeHard | buffered-reader/src/lib.rs:615-627 | consumes exactly the amount, or fails and consumes nothing |
| Readers.Reader.MemoryDataConsumeHard | buffered-reader/src/memory.rs:103-108 | the contract of `data_consume_hard` |
| Readers.Reader.GenericDataConsumeHard | buffered-reader/src/generic.rs:299-301 | the contract of `data_consume_hard` |
| Readers.Reader.LimitorDataConsumeHard | buffered-reader/src/limitor.rs:106-118 | the contract of `data_consume_hard`, within the limit |
| Readers.Reader.ReserveDataConsumeHard | buffered-reader/src/reserve.rs:120-123 | the contract of `data_consume_hard` |
| Readers.Reader.DupDataConsumeHard | buffered-reader/src/dup.rs:113-119 | the contract of `data_consume_hard`, with the wrapped reader left alone |
| Readers.Reader.Read | buffered-reader/src/lib.rs:1017-1027 | yields the next octets of the stream, at most as many as fit, and none only at its end |
| Readers.Reader.GenericRead | buffered-reader/src/lib.rs:1017-1027 | the contract of `read`, by `data_consume` |
| Readers.Reader.LimitorRead | buffered-reader/src/limitor.rs:52-61 | the contract of `read`, within the limit |
| Readers.Reader.ReserveRead | buffered-reader/src/reserve.rs:56-71 | the contract of `read`, without the reserved octets |
| Readers.Reader.DupRead | buffered-reader/src/dup.rs:69-82 | the contract of `read`, with the wrapped reader left alone; the assertion holds |
| ReaderStacks.Build | buffered-reader/src/limitor.rs:37-50 | a stack of any wrappers delivers the composition of their views of the source |
| ReaderStacks.Deliver | buffered-reader/src/limitor.rs:52-122 | whatever the nesting, the fragmentation, and the sizes of the reads, reading yields a prefix of the composed view, and an empty read only all of it |
| ReaderLoops.DataEof | buffered-reader/src/lib.rs:481-518 | returns exactly the rest of the stream, and consumes nothing |
| ReaderLoops.ReadTo | buffered-reader/src/lib.rs:719-742 | returns the stream up to and including the first terminal, or all of it, and consumes nothing |
| ReaderLoops.UntilIsUnique | buffered-reader/src/lib.rs:726-734 | the position of the first terminal is determined by having none before it |
| ReaderLoops.IsTerminal | buffered-reader/src/lib.rs:778-779 | binary search in sorted terminals finds exactly the terminals |
| ReaderLoops.Position | buffered-reader/src/lib.rs:778-785 | so the search stops at the first terminal in the buffer, or at its end |
| ReaderLoops.DropUntil | buffered-reader/src/lib.rs:754-793 | consumes exactly to the first terminal or the end, and returns that count, for sorted terminals |
| ReaderLoops.DropThrough | buffered-reader/src/lib.rs:807-817 | consumes past the first terminal and returns it; at the end it fails unless that is allowed; what is gone is counted under any errors |
| ReaderLoops.Steal | buffered-reader/src/lib.rs:824-831 | takes exactly the amount from the stream, or fails and takes nothing |
| ReaderLoops.StealEof | buffered-reader/src/lib.rs:835-839 | takes all of the stream, or fails and takes nothing |
| ReaderLoops.DropEof | buffered-reader/src/lib.rs:851-865 | drops all of the stream, and says whether there was any |
| ReaderLoops.Copy | buffered-reader/src/lib.rs:879-896 | moves the stream to the sink without loss, also when it fails half-way, and returns the count |
| PacketPile.Build | openpgp/src/packet_pile.rs:523-619 | for every stream of packets and depths: a pile is built whose depth-first listing is the stream exactly if the stream is well-formed; any other result has the packets of the stream in order, or says at which packet and how building stopped |
| PacketPile.Walk | openpgp/src/packet_pile.rs:559-574 | walking down the last packets reaches a container exactly if it exists, and fails in an orderly way exactly if a raw container is in between |
| PacketPile.ListingInjective | openpgp/src/packet_pile.rs:540-619 | two piles with the same depth-first listing are the same |
| PacketPile.ListingWellFormed | openpgp/src/packet_pile.rs:540-619 | depths of a listing start at the base, rise by at most one, and only below a packet with children |
| PacketPile.ListingPush | openpgp/src/packet_pile.rs:582-595 | a packet that is pushed into any container on the way to the last packet comes last in the listing, at that depth |
| PacketPile.Reach | openpgp/src/packet_pile.rs:556-595 | the last event alone determines which containers can be reached, and into which one can push |
| PacketPile.PlacedWhereReported | openpgp/src/packet_pile.rs:582-612 | packets are put where the parser says exactly if no depth rises by more than one |
| PacketPile.Rebuild | openpgp/src/packet_pile.rs:523-619 | every pile is what its own listing builds |
| PileEditing.Pile.constructor | openpgp/src/packet_pile.rs:150-154 | a pile of packets holds them |
| PileEditing.Pile.PathRef | openpgp/src/packet_pile.rs:247-266 | the loop finds the packet at the path, or nothing |
| PileEditing.Pile.PathRefMut | openpgp/src/packet_pile.rs:301-317 | panics exactly if a packet on the way has no container, and agrees with `path_ref` otherwise |
| PileEditing.Pile.Replace | openpgp/src/packet_pile.rs:362-415 | succeeds exactly if the path leads to a list that is long enough; then it returns the removed packets, and one stretch of the listing is replaced while the rest stays; an error changes nothing |
| PileEditing.ReplacedListing | openpgp/src/packet_pile.rs:362-415 | before and after the replaced stretch, the depth-first listing is the same, depths included |
| PileEditing.ReplacedBack | openpgp/src/packet_pile.rs:362-415 | replacing the new packets by the removed ones gives the pile back |
| PileEditing.ReplaceAndUndo | openpgp/src/packet_pile.rs:362-415 | two calls of `replace` restore the pile |
| PileEditing.LookupInside | openpgp/src/packet_pile.rs:247-266 | below a list, paths look up the packets of the list |
| PileEditing.LookupOutside | openpgp/src/packet_pile.rs:362-415 | paths that do not lead below the list find the same packet; on the way to it, packets change only in their children |
| LazySignatures.AppendedAgrees | openpgp/src/cert/lazysigs.rs:138-146 | appending keeps agreement with eager verification exactly if both lists agree in the same context |
| LazySignatures.AppendedAcrossContexts | openpgp/src/cert/lazysigs.rs:138-146 | a list of another context breaks it, which `append` does not check |
| LazySignatures.PushedAgrees | openpgp/src/cert/lazysigs.rs:130-136 | pushing keeps agreement |
| LazySignatures.FreshAgrees | openpgp/src/cert/lazysigs.rs:148-172 | lists whose states were reset agree with eager verification, in every context |
| LazySignatures.LazySigs.constructor | openpgp/src/cert/lazysigs.rs:105-113 | a new list is empty |
| LazySignatures.LazySigs.Clone | openpgp/src/cert/lazysigs.rs:65-80 | a clone has the same signatures, and the same states if it gets the lock, and none otherwise |
| LazySignatures.LazySigs.Take | openpgp/src/cert/lazysigs.rs:122-128 | returns all signatures, and leaves none |
| LazySignatures.LazySigs.Push | openpgp/src/cert/lazysigs.rs:130-136 | adds one unverified signature |
| LazySignatures.LazySigs.Append | openpgp/src/cert/lazysigs.rs:138-146 | moves signatures and states |
| LazySignatures.LazySigs.SortBy | openpgp/src/cert/lazysigs.rs:148-157 | reorders the signatures, and forgets what was known |
| LazySignatures.LazySigs.DedupBy | openpgp/src/cert/lazysigs.rs:159-172 | keeps some signatures, as many states, and forgets what was known |
| LazySignatures.LazySigs.CheckBacksigs | openpgp/src/cert/lazysigs.rs:266-291 | the loop finds whether any embedded signature binds the subkey, and marks all that do, also behind the first |
| LazySignatures.LazySigs.Verify | openpgp/src/cert/lazysigs.rs:258-300 | the verdict is that of eager verification: the signature verifies, and if it is for signing by a subkey, some embedded signature binds it |
| LazySignatures.LazySigs.VerifySig | openpgp/src/cert/lazysigs.rs:239-310 | returns the recorded state or the verdict, and records it; an index out of bounds is an error only for the largest indices, and a panic for all others |
| LazySignatures.LazySigs.Iterate | openpgp/src/cert/lazysigs.rs:226-237 | goes through all signatures in order, and leaves all of them verified |
| LazySignatures.LazySigs.IterVerified | openpgp/src/cert/lazysigs.rs:194-208 | gives out, in order, the signatures that eager verification finds good |
| LazySignatures.LazySigs.IterBad | openpgp/src/cert/lazysigs.rs:210-224 | gives out, in order, the signatures that eager verification finds bad |
| LazySignatures.SelectPartitions | openpgp/src/cert/lazysigs.rs:194-224 | every signature is given out by exactly one of the two iterators, at rising positions |
| SharedSignatures.RecordKeepsInv | openpgp/src/cert/lazysigs.rs:296-304 | a verdict that was computed without the lock can be recorded, whatever other threads recorded since |
| SharedSignatures.LookUpKeepsInv | openpgp/src/cert/lazysigs.rs:249-258 | a state that is looked up is the verdict of the subkey of the call |
| SharedSignatures.ChangeKeepsInv | openpgp/src/cert/lazysigs.rs:122-172 | push, append of the same context, sort, dedup, and take keep every stored state unverified or right |
| SharedSignatures.RunKeepsInv | openpgp/src/cert/lazysigs.rs:239-310 | over every run and every interleaving of calls, if the subkeys agree |
| SharedSignatures.TransparentIff | openpgp/src/cert/lazysigs.rs:239-310 | in every run, all states and all returned results are those of eager verification, exactly if the subkeys that calls use give the same verdicts |
| SharedSignatures.OneSubkeyIsTransparent | openpgp/src/cert/lazysigs.rs:196-197 | in particular if all calls use the subkey of the bundle |
| SharedSignatures.ClonesAgree | openpgp/src/cert/lazysigs.rs:65-80 | clones agree too, at any time |
| Rendezvous.LockKept | ipc/src/lib.rs:555-577 | the file is locked by the one client that has it open |
| Rendezvous.CookieKept | ipc/src/lib.rs:153-214 | every step of every client and server keeps each cookie with the server it was minted for |
| Rendezvous.RunKeepsCookies | ipc/src/lib.rs:426-449 | over every run: a server receives no cookie but its own, adopts it, and turns no client away, also when `bootstrap` publishes the cookie before it sends it |
| Rendezvous.AgreementIff | ipc/src/lib.rs:218-233 | cookies agree in every run exactly if servers get addresses that no server had before |
| Rendezvous.MishapIsRun | ipc/src/lib.rs:203-212 | with an address used again, a client that calls its server after closing the file can reach another one |
| Rendezvous.RunKeepsRegistration | ipc/src/lib.rs:178-213 | over every run: all servers that were registered but for the one in the file were found unreachable |
| Rendezvous.EntryReplaced | ipc/src/lib.rs:185-192 | the entry of the file is replaced or removed only by the client with the lock, after its server was found unreachable |
| Rendezvous.SecondRegistration | ipc/src/lib.rs:300-329 | of two registered servers, the first was found unreachable |
| Rendezvous.FoundUnreachable | ipc/src/lib.rs:300-317 | a server is found unreachable only by the client with the lock, which read its address from the file and failed to contact it |
| CookieFile.ExtractIff | ipc/src/lib.rs:497-506 | a cookie is extracted exactly from what starts with 32 octets |
| CookieFile.File.Read | ipc/src/lib.rs:579-589 | reads the cookie and the rest, if there is a cookie |
| CookieFile.File.Write | ipc/src/lib.rs:591-606 | replaces the contents, wherever reading left the position |
| CookieFile.File.Clear | ipc/src/lib.rs:608-615 | empties the file |
| CookieFile.Publish | ipc/src/lib.rs:579-606 | what one client writes after reading, the next one reads |
| Sexp.Sink.Write | ipc/src/sexp.rs:432-444 | writing appends the serialization, list by list |
| Sexp.Sink.WriteVerbatim | ipc/src/sexp.rs:684-693 | a string is written as its length in decimal, a colon, and its octets |
| Sexp.ReadLengthIff | ipc/src/sexp.rs:684-693 | lengths are uniquely readable decimals |
| Sexp.DecodeIff | ipc/src/sexp.rs:432-444 | the reference decoder reads exactly the serialized expressions, and what follows |
| Sexp.UniquelyReadable | ipc/src/sexp.rs:432-444 | equal octets start with equal expressions and go on equally, across nesting, display hints, and binary contents |
| Manifests.ReadExact | net/src/updates.rs:137-152 | reads exactly the octets, and reads on after an interruption |
| Manifests.ReadPrefix | net/src/updates.rs:155-173 | reads one prefix under any fragmentation, tells the end from a partial prefix, and gives up on an interruption |
| Manifests.ReadPrefixes | net/src/updates.rs:153-174 | collects exactly the prefixes of the rest of the source |
| Manifests.Parse | net/src/updates.rs:137-181 | under every fragmentation the result is that of the octets, with the same error; an interruption or an error after the epochs is always an error |
| Manifests.RoundTrip | net/src/updates.rs:122-181 | a written manifest is read back |
| Manifests.OnlyEncoded | net/src/updates.rs:137-181 | only the octets of a manifest with its epochs in order are accepted |
| Manifests.TrailingPart | net/src/updates.rs:159-165 | a partial prefix at the end is refused |
| Manifests.Manifest.Between | net/src/updates.rs:37-55 | epochs that are out of order are refused |
| Manifests.Manifest.Insert | net/src/updates.rs:106-109 | the fingerprint is contained from then on, and nothing else changes |
| Manifests.Manifest.Merge | net/src/updates.rs:111-120 | the merged manifest covers both |
| Manifests.Manifest.Serialize | net/src/updates.rs:122-134 | the prefixes are written in ascending order, each once |
| Manifests.MergeLaws | net/src/updates.rs:111-120 | merging is commutative, associative, and idempotent |
| Manifests.Transmit | net/src/updates.rs:122-181 | a manifest that is sent in any pieces arrives |
| Manifests.NeverForgets | net/src/updates.rs:64-120 | through any inserts, merges, and transmissions, whatever was contained or inserted stays contained, and epochs are only added |
| Manifests.Replay | net/src/updates.rs:64-181 | carrying the changes out, with each transmission written and parsed again in any pieces, yields just that, and no transmission fails |

## Left out

- The search for armor behind other text, quoting prefixes, and the very tolerant mode of the armor reader (`openpgp/src/armor.rs:887-1098`): heuristics; the reader is modelled from the header line on, without a prefix.
- ArmorReader.Dearmorer.DoRead: refuses text that does not start with a header line, for the reason given with `Initialize`.
- ArmorRoundTrip.ReadAll: the same.
- ArmorCuts.CutIff: says nothing of cuts behind the header block of headers with line breaks of which something is left, because what is left and the payload then mix; `HeadersIff` says what becomes of them without a cut.
- ArmorCuts.ReadCut: the same.
- ArmorCuts.TextCut: the same.
- ArmorReader.Dearmorer.Initialize: fails if the text does not start with a header line, where the source goes on to search for one (`openpgp/src/armor.rs:887-1008`).
- ArmorReader.Dearmorer.ReadHeaders: reads lines without a quoting prefix, because the prefix is found by that search.
- ArmorReader.Dearmorer.ReadHeaderLines: the same.
- ArmorReader.Dearmorer.ReadHeaderLine: the same.
- The copy of `data_helper` inside the armor reader (`openpgp/src/armor.rs:1638-1767`): the same code as that of `Generic`, which is modelled.
- The rest of the cleartext framework: the hash headers and the signature that follows the text.
- A sink that fails, in the writer, in `copy`, and in `serialize`: the checksum is updated before the failure, so a retry has no clean meaning.
- GenericReader.Generic.DataHelper: does not model the reuse of the spare buffer as a matter of speed, and an overflow of the amount.
- The overflow of index plus count in `replace`, of sizes in the doubling loops of the readers, and of machine words in general, except where the code relies on it (the top octet of the CRC, the guard of `verify_sig`).
- Errors of the packet parser, which `Build` would pass on; packets are kinds, fields, and children.
- `iter_mut_unverified`, which gives out signatures to change without forgetting what is known about them.
- LazySignatures.LazySigs.SortBy: does not say that the result is sorted, because the order is the caller's and sorting is the library's; it holds for every permutation.
- LazySignatures.LazySigs.DedupBy: does not say which signatures are kept, for the same reason; callers may also change them.
- A crash in the middle of writing the address into the cookie file, which may leave a shorter address that still parses.
- Cryptography, packet and certificate parsing, process spawning, the RPC layer, memory-mapped and file readers, decompressors, cookies of readers, and formatting: foreign, or only easy members.
- The parser of S-expressions, in place of which there is a reference decoder, and `Epoch::since`.
