# ip-sockets-cpp-lite: verification model

This project models the address, prefix, stream and socket types of ip-sockets-cpp-lite and proves
what their text forms mean, that printing and parsing undo each other, the algebra of IP prefixes,
that a stream buffer neither loses nor repeats a byte, and that every OS descriptor has exactly one
owner. `dafny verify dfyconfig.toml` checks all of it.

## How the code is represented

- An `ip4_t` or `ip6_t` is the array of 4 or 16 bytes that it is in the source. `FromStr` writes
  the array in place; `addr4_t`, `addr6_t`, `ip_prefix_t`, the stream buffer and the sockets are
  classes whose methods change their fields.
- A parser is given a buffer `value` and a `length`. The buffer is terminated or at least `length`
  characters long, as the comments of the parsers ask (`include/ip_address.h:113-114`). `Text.Visible`
  is the part up to the length limit and the first terminator. Each parsing method is proved equal to
  a function of that visible text, and the theorems are about that function.
- The loop conditions stand in the order of the source, so a method reads what the source reads. An
  access outside of the buffer or of a local array has no defined result in the source: there a
  parsing method stops and returns `inside == false`. Its contract says exactly when that happens,
  and what it does in all other cases.
- `uint32_t` and `size_t` accumulators wrap, modulo 2^32 and 2^64.
- The local variables of the IPv6 parser are the fields of `Ip6Parser.Scan`, one method for each
  branch of its loop.
- Bytes are integers from 0 to 255, and the bitwise operators are defined bit by bit in `Bits`.
- 16-bit and 32-bit stores in network order are written as their big-endian bytes. `is_ip4` compares
  32-bit words as a little-endian host loads them.
- What a text means, how an address prints and what an operation does is stated in characters,
  arithmetic, fields and recorded calls (`Ip4.AcceptsExactly`, `Ip6Meaning.AcceptsExactly`,
  `Ip6Printed.PrintedGap`, `Cidr.AcceptsExactly`, `StreamBuf.Buffer.Overflow`, `Sockets.OpenExactly`),
  next to the functions and automata that the methods are proved against.
- Error numbers of the system are those of Linux.
- The system under the sockets (`Sockets.Os`, `StreamBuf.Wire`) answers arbitrarily: any call can
  fail, a new descriptor is any descriptor that is not open, and send and receive take or deliver
  any number of bytes. Both record what was asked of them, and the contracts say which calls each
  operation makes, in which order, and what it makes of the answers.

## Where the code does not do what it says

Each point is a theorem that states exactly when the promise holds.

- A number that is too large is not always refused: accumulators wrap, so a text is judged by the
  low 32 bits of its numbers (`Ip4.LoneDecimal`, `Ip6Limits.WrappedPieces`, `Ip6Forms.FormVerdict`,
  `Cidr.LengthModulo`).
- A last octet above 255 gives 0.0.0.0 and success, against `include/ip_address.h:111-112`
  (`Ip4.DottedResult`).
- The length limit cannot be "left as default" for every terminated string
  (`include/ip_address.h:114`, `include/ip_address.h:337`): a longer text is cut off without an error,
  so "0xc0.0xa8.0x02.0x0001" is 192.168.2.0 (`DefaultLimits.Ip4Default`, `DefaultLimits.Ip4Lengths`,
  `DefaultLimits.Ip6Lengths`, `DefaultLimits.Ip6Blind`, `DefaultLimits.PrefixLengths`).
- "any format supported by ip4_t" in front of a port does not include an upper-case `0X` or a text of
  more than 21 characters: "0xc0.0xa8.0x02.0x01:8080" is read as port 8 (`DefaultLimits.Addr4Default`,
  `Addr4.EveryFormat`). "any format supported by ip6_t" in brackets does not include one-character
  texts or, but for cut zeros of port 0, more than 53 characters (`DefaultLimits.Addr6Default`,
  `Addr6.EveryFormat`).
- Four loops read a character that they may not read. After a bare `0x` at the end of a terminated
  text the IPv4 parser reads behind the terminator (`include/ip_address.h:130`, `Ip4.InsideExactly`).
  The socket address parsers and the length digits of a prefix read `value[length]` of a buffer that
  is not terminated (`include/ip_address.h:715`, `include/ip_address.h:820`,
  `include/ip_address.h:1140`; `Addr4.StopExactly`, `Addr6.BehindMeansFail`, `Cidr.IpPrefix.FromStr`).
- Seven groups before a dotted tail make the IPv6 parser write past `result_hex`
  (`include/ip_address.h:392`, `include/ip_address.h:430-431`). `Ip6Reference.OverrunExactly` says
  which texts they are, from the words and marks of the text.
- `to_str (true, true)` of an address whose first six groups are zero is read back as the
  IPv4-mapped address (`Ip6RoundTrip.RoundTrip`).
- Port 0 is refused by `addr4_t` and accepted by `addr6_t` (`Addr4.RoundTrip`, `Addr6.RoundTrip`).
- A partial send makes the stream buffer repeat bytes (`StreamBuf.WriteConservation`).
- `accept` on a server that is not open leaves the success flag and the address of its caller as they
  are, against `include/tcp_socket.h:122-123`; the flag tells the truth exactly when the server is
  open or the flag was false before (`Sockets.World.Accept`).
- `open` reports a connection that timed out as a failed open, and a refused socket option by the
  translated error of the system, against `include/udp_socket.h:402-403` (`Sockets.OpenCodes`).
- Opening a socket that is still `prepared` loses its old descriptor (`Sockets.World.Open`). Moving or
  destroying a server that has live clients breaks the ownership of their descriptors
  (`Sockets.World.Move`, `Sockets.World.Destroy`).

## Files

| file | content |
|---|---|
| Text.dfy, LetterCase.dfy | digits, wrapping accumulators, numerals, visible text; upper and lower case |
| Bits.dfy, Mask.dfy, Prefix.dfy | bits and powers of two, masks, prefixes |
| Ip4.dfy, Ip4Cut.dfy | IPv4 parser, printer, reference definition; texts that are cut off |
| Ip6Parser.dfy, Ip6Reference.dfy, Ip6Meaning.dfy | IPv6 parser, its reference definition on whole texts, and what that accepts and reads in characters and numbers |
| Ip6Forms.dfy, Ip6Limits.dfy, Ip6Cut.dfy | IPv6 text forms and their meaning, numbers that are too large, texts that are cut off |
| Ip6Printer.dfy, Ip6RoundTrip.dfy, Ip6Printed.dfy | IPv6 printer, round trip, shape of printed text, and the whole printed text |
| Ip4Mapped.dfy | IPv4-mapped addresses |
| Addr4.dfy, Addr6.dfy, Cidr.dfy | `ip:port`, `[ip]:port`, `ip/length` text and their objects |
| DefaultLimits.dfy | terminated strings under the default length limits |
| StreamBuf.dfy | the stream buffer |
| Sockets.dfy | the socket lifecycle |

## Model

| member | source | states |
|---|---|---|
| Ip4.FromStr | include/ip_address.h:123-205 | The in-place parser succeeds and writes the bytes exactly as `Ip4.Parse` of the visible text, and writes 0.0.0.0 otherwise, unless it reads behind the terminator |
| Ip4.InsideExactly | include/ip_address.h:130-141 | It reads behind the terminator exactly when the text is octets and then a bare hex mark, and the terminator is the last character of the buffer and inside the limit |
| Ip4.Turn | include/ip_address.h:130-177 | One turn of the loop is one step of the automaton, with the two-character hex mark skipped |
| Ip4.Feed | include/ip_address.h:145-174 | One character in the decimal and hex states, with the wrapping accumulator and the octet array |
| Ip4.ParserMeetsReference | include/ip_address.h:123-205 | On every text the automaton agrees with an independent definition: one to four numbers between dots, octets but for the last, each decimal or marked hex |
| Ip4.AcceptsExactly | include/ip_address.h:123-202 | For all texts, in characters and numbers: accepted exactly with one to four pieces between dots, decimal digits or `0x`/`0X` and hex digits, the last one with a digit at least, and all but the last at most 255 in their low 32 bits |
| Ip4.AcceptedBytes | include/ip_address.h:181-199 | What every accepted text means: a lone number is the address; else the last number is the last octet, the others are the first, zeros stand between, and a last number above 255 gives 0.0.0.0 |
| LetterCase.Ip4Case | include/ip_address.h:130-157 | Writing any hex letters and marks of any text in upper case does not change the result |
| Ip4.LoneNumber | include/ip_address.h:198-199 | A single number is the whole address, big-endian, modulo 2^32 |
| Ip4.LoneDecimal | include/ip_address.h:145-147 | Every non-empty decimal text is accepted, and the bytes as a big-endian number are its value modulo 2^32 |
| Ip4.LoneMarked | include/ip_address.h:151-157 | The same for hex digits of either case behind `0x` or `0X` |
| Ip4.FourOctets | include/ip_address.h:181-197 | Four octets in any mix of decimal and hex give those four bytes |
| Ip4.NotationsAgree | include/ip_address.h:123-205 | For every n below 2^32 the decimal text, the hex text and the octets n / 2^24, n / 2^16 % 256, n / 2^8 % 256, n % 256 in any mix of bases give these four bytes, and converting them back gives n |
| Ip4.DottedResult | include/ip_address.h:181-202 | With two to four numbers the text is accepted; the last octet is the last number exactly when it is at most 255, else the address is 0.0.0.0; missing octets are zero |
| Ip4.Uint32RoundTrip | include/ip_address.h:249-255 | Building from a 32-bit number and converting to one are inverse bijections, and the number is the big-endian number of the bytes |
| Ip4.RoundTrip | include/ip_address.h:299-301 | Printed are the four octets in base 10 with dots, and parsing that undoes it for every IPv4 address, in at most 15 characters |
| Ip4Cut.CutExactly | include/ip_address.h:123-205 | For texts whose numbers fit: cutting the text off changes nothing exactly when what is left ends in a number and all numbers from the cut on are zero |
| Ip6Parser.FromStr | include/ip_address.h:351-458 | All reads stay in the buffer; the in-place parser succeeds and writes the sixteen bytes exactly as `Ip6Parser.Parse` of the visible text, and writes `::` otherwise, unless it leaves the group array |
| Ip6Parser.RunBounded | include/ip_address.h:363-416 | Every run keeps at most seven completed groups and three octets, the separator unset or at most the number of groups, and both accumulators below 2^32 |
| Ip6Parser.Scan.Turn | include/ip_address.h:365-413 | One turn of the loop is one step of the automaton, and uses one character, or two for `::` |
| Ip6Parser.Scan.Complete | include/ip_address.h:418-436 | The checks after the loop and the groups appended from the dotted tail or the last number, up to a write outside of the array |
| Ip6Parser.Copy | include/ip_address.h:438-453 | The three copy loops write groups, zeros, groups: each of the eight groups once, big-endian |
| Ip6Parser.GroupBijection | include/ip_address.h:445 | Splitting bytes into groups and joining groups to bytes are inverse to each other |
| Ip6Reference.ParserMeetsReference | include/ip_address.h:351-458 | On every text the automaton agrees with an independent definition: the words of the text and the marks between them, group values in base 16 and octet values in base 10 modulo 2^32, hex letters in octets, empty words, the start condition, one gap, and eight groups |
| Ip6Reference.OverrunExactly | include/ip_address.h:392-432 | For all texts: refused exactly when the words and marks are not legible; out of bounds exactly when they are and close seven groups before a dotted tail |
| Ip6Meaning.SplitExactly | include/ip_address.h:365-402 | Where a text splits: at `:`, `::` and `.`, the longer mark first |
| Ip6Meaning.AcceptsExactly | include/ip_address.h:363-436 | For all texts, in characters and numbers: refused exactly when a start rule, the single gap, the place of the dots, the alphabet, a value in the low 32 bits or the number of words is violated |
| Ip6Meaning.AcceptedGroup | include/ip_address.h:438-453 | For every accepted text without dots and each of the eight places: its bytes are the hex number of the word that belongs there, or zero in the gap |
| Ip6Meaning.AcceptedDotted | include/ip_address.h:424-453 | The same for the first six places in front of a dotted tail, with ffff in the sixth when no group is written |
| Ip6Meaning.AcceptedOctet | include/ip_address.h:427-432 | The octets of a dotted tail are read in base 10 into the last four bytes |
| Ip6Meaning.OverrunIs | include/ip_address.h:392-432 | The write past the array happens for exactly seven groups in front of a dotted tail |
| LetterCase.Ip6Case | include/ip_address.h:403-405 | Writing any of the letters a to f of any text in upper case does not change the result |
| Ip6Forms.FormVerdict | include/ip_address.h:363-453 | The verdict on every list of hex words with at most one gap and a decimal tail, however long the list and its words: refused when a word is too large modulo 2^32; else the address it means when the pieces fit, with the gap standing for the missing zeros, none included, and `ffff` inserted only when no group precedes the tail; out of bounds for exactly seven groups before a tail; refused otherwise |
| Ip6Forms.ShortGroup | include/ip_address.h:403-412 | One to four hex digits of either case are a legal group |
| Ip6Limits.LoneGroup | include/ip_address.h:408 | A text of one group of any length is judged by its low 32 bits |
| Ip6Limits.WrappedPieces | include/ip_address.h:408-409 | Two texts with the same marks whose words differ by multiples of 2^32 parse alike |
| Ip6Limits.WrappedGroup | include/ip_address.h:408 | Adding any multiple of 2^32 to any group of any form leaves the verdict and the address unchanged |
| Ip6Limits.WrappedOctet | include/ip_address.h:409 | The same for an octet of a dotted tail |
| Ip6Limits.LargeGroup | include/ip_address.h:367-380 | One group above ffff in its low 32 bits refuses the text, wherever it stands |
| Ip6Cut.LookAlike | include/ip_address.h:363-416 | Every accepted text has an accepted neighbour that differs in the last character, or continues it by one, and stands for another address |
| Ip6Printer.ToStr | include/ip_address.h:580-640 | The printing loop produces exactly the text of `PrintForm`: the gap stands for the first maximal run of zero groups among those printed in hex |
| Ip6Printer.Turn | include/ip_address.h:591-609 | One turn of the zero automaton keeps the description of the text printed so far |
| Ip6Printer.Tail | include/ip_address.h:610-637 | The loop ends in a dotted tail exactly when the tail is forced and six groups are printed, or the first zero run ends in front of an all-ones sixth group |
| Ip6Printer.AppendGroup | include/ip_address.h:600-605 | A group prints as its hex numeral in lower case without leading zeros |
| Ip6Printer.AppendOctet | include/ip_address.h:619-633 | An octet prints as its decimal numeral |
| Ip6RoundTrip.RoundTrip | include/ip_address.h:580-640 | For every address and all four flag pairs parsing gives the address back, except exactly for both flags with six leading zero groups, which give the IPv4-mapped address |
| Ip6RoundTrip.PrintInjective | include/ip_address.h:580-640 | Different addresses print differently, for all flags |
| Ip6RoundTrip.FormMeans | include/ip_address.h:580-640 | The printed form is well-formed and means the printed groups, with the same exception |
| Ip6RoundTrip.TextShape | include/ip_address.h:580-640 | Printed text has 2 to 45 lower-case characters and `::` exactly once when a zero group was compressed, never otherwise |
| Ip6Printed.PrintedGap | include/ip_address.h:580-640 | The whole text when a zero group is left out: the groups before the first zero run, `::`, the groups after it, and the dotted tail exactly when it is forced or the first zero run ends in front of a sixth group ffff |
| Ip6Printed.PrintedPlain | include/ip_address.h:580-640 | The whole text when no zero group is left out |
| Ip6Printed.Joined | include/ip_address.h:600-609 | Groups print in hex with colons between them |
| Text.NumeralCanonical | include/ip_address.h:600-605 | Numerals are lower case and have no leading zero |
| Text.NumeralValue | include/ip_address.h:299-301 | Reading a numeral in its base gives the number back |
| Text.DigitsRead | include/ip_address.h:403-405 | The characters of "0123456789abcdef" and "0123456789ABCDEF" stand for 0 to 15 |
| Text.DigitsAre | include/ip_address.h:403-407 | There are no other digits |
| Text.PositionalValue | include/ip_address.h:409-410 | Appending a digit multiplies the value by the base and adds the digit |
| Text.AccumulateIsFoldMod | include/ip_address.h:145-152 | A wrapping accumulator holds the true value modulo its size |
| Ip4Mapped.ParseSquare | include/ip_address.h:427-453 | For four decimal numbers that are octets modulo 2^32, with or without `::` in front, the IPv6 parser equals the IPv4 parser followed by the mapping constructor |
| Ip4Mapped.PrintSquare | include/ip_address.h:610-637 | A mapped address prints as `::ffff:` and the IPv4 text |
| Ip4Mapped.MappedImage | include/ip_address.h:535-552 | `is_ip4` holds exactly on the image of the mapping constructor and `get_ip4` inverts it |
| Mask.MaskIp | include/ip_address.h:1287-1302 | Masking in place keeps the first bits and clears the others, for every length |
| Mask.MaskedBit | include/ip_address.h:1287-1302 | Every bit below the length is kept and every other bit is zero |
| Mask.MaskedEqual | include/ip_address.h:1242-1248 | Masked addresses are equal exactly when the addresses agree on the kept bits |
| Mask.MaskedNumber | include/ip_address.h:1287-1302 | As a big-endian number of W bits, masking takes away the remainder modulo 2^(W - length) |
| Mask.BitOfNumber | include/ip_address.h:1201-1207 | The bits of an address are the binary digits of its big-endian number, the most significant one first |
| Mask.NumberAppend | include/ip_address.h:249-255 | A further byte multiplies the big-endian number by 256 and adds the byte |
| Mask.MaskConstructor | include/ip_address.h:261-274 | The mask constructor writes the table byte of the bits that fall into each byte |
| Mask.AndAssign | include/ip_address.h:659-662 | The and-assignment combines the two addresses byte by byte |
| Mask.MasksAgree | include/ip_address.h:554-572 | The and with the mask constructor's bytes equals the byte-wise mask, for lengths past the width as well |
| Mask.AndBits | include/ip_address.h:261-274 | The constructed mask has ones in front and zeros behind, and the and has the common bits |
| Mask.SetMask | include/ip_address.h:276-280 | `set_mask` masks the address in place |
| Prefix.ContainsIsInterval | include/ip_address.h:1233-1248 | A prefix contains exactly the aligned interval of 2^(W - length) addresses that starts at its network address |
| Prefix.Laminar | include/ip_address.h:1242-1257 | Any two prefixes are nested or have no address in common |
| Prefix.ContainsIsSubset | include/ip_address.h:1253-1257 | A prefix contains another exactly when it contains all addresses of the other |
| Prefix.WithBitAt | include/ip_address.h:1190-1197 | Setting a bit changes that bit and no other |
| Prefix.PushPartitions | include/ip_address.h:1211-1228 | The two one-bit extensions are contained in the prefix, and every address of it lies in exactly one of them |
| Prefix.PushAllBits | include/ip_address.h:1201-1220 | Pushing a list of bits keeps the earlier bits and appends the list |
| Prefix.HistoryClean | include/ip_address.h:1190-1220 | Every history of `set_bit` and `push_back_bit` keeps all bits from the length on zero |
| Prefix.StartsClean | include/ip_address.h:1041-1058 | The empty, host and masking constructors start with zero host bits |
| Prefix.RawKeepsBits | include/ip_address.h:985-988 | The overlay and the reconstructed prefix have the bits of the prefix |
| Prefix.RawRoundTrip | include/ip_address.h:1062-1068 | Reconstruction from the overlay gives the prefix back exactly when the bytes past the value bytes are zero, so always with zero host bits |
| Cidr.IpPrefix.FromStr | include/ip_address.h:1094-1160 | The prefix parser sets length and address exactly as `Cidr.Parse` of the visible text, and resets both on failure, unless the address parser leaves its bounds or the length digits run up to the end of an unterminated buffer |
| Cidr.IpPrefix.SetBit | include/ip_address.h:1190-1197 | Bit `index` of the object's address has the value, every other bit and the length are unchanged |
| Cidr.IpPrefix.PushBackBit | include/ip_address.h:1211-1220 | The object is one bit longer, the new bit is the given one, every other bit is unchanged |
| Cidr.IpPrefix.Extended | include/ip_address.h:1224-1228 | `operator<<` returns an extended copy and leaves the object alone |
| Cidr.IpPrefix.ContainsIp | include/ip_address.h:1242-1248 | Containment is decided on masked copies |
| Cidr.RoundTrip | include/ip_address.h:1170-1172 | Parsing printed CIDR text gives the same length and the masked address, and the prefix itself exactly when its host bits are zero |
| Cidr.ParsedClean | include/ip_address.h:1094-1160 | Whatever text is accepted, the parsed prefix has zero host bits |
| Cidr.HistorySurvives | include/ip_address.h:1041-1068 | From the empty, host, masking or parsing constructor, every history of `set_bit` and `push_back_bit` keeps the host bits zero, and its result survives the raw overlay and the text unchanged, with equal bits |
| Cidr.LengthModulo | include/ip_address.h:1136-1152 | The length is judged modulo 2^32 and whatever follows its digits is ignored |
| Cidr.AcceptsExactly | include/ip_address.h:1094-1160 | For all texts: without a slash accepted exactly as an address, with all its bits; with one, exactly when the part in front is an address, at least one digit follows, and the digits modulo 2^32 are at most the width; then the remainder modulo 2^(W - length) is taken from the address |
| Cidr.Decomposed | include/ip_address.h:1102-1147 | Every text with a slash has such parts |
| Cidr.Printed | include/ip_address.h:1170-1172 | Printed is the text of the address with the default flags, a slash and the length in base 10 |
| Addr4.Addr4Object.FromStr | include/ip_address.h:709-742 | The parser sets address, port and success exactly as `Addr4.Parse` of the visible text, unless it reads behind an unterminated buffer |
| Addr4.StopExactly | include/ip_address.h:715-730 | The scan runs through a text, and so reads the character behind it, exactly when only host characters, one colon and digits stand in it |
| Addr4.AcceptsExactly | include/ip_address.h:709-742 | For all texts: success exactly with an accepted address in the host alphabet, the first colon and a port from 1 to 65535, and then both parts are read |
| Addr4.EveryFormat | include/ip_address.h:707-708 | When the whole text is visible, every accepted IPv4 text may stand before the port exactly when it has no upper-case hex mark |
| Addr4.FieldsExactly | include/ip_address.h:709-742 | Address, port and flag for every text with a port: the port modulo 2^64, a reset unless it is 1 to 65535, and a refused address keeps the port |
| Addr4.FieldsEmpty | include/ip_address.h:715-742 | Every other text resets all fields |
| Addr4.Printed | include/ip_address.h:771-773 | Printed are the text of the address, a colon and the port in base 10 |
| Addr4.RoundTrip | include/ip_address.h:771-773 | Parsing undoes printing exactly for ports other than 0, in at most 21 characters |
| Addr6.Addr6Object.FromStr | include/ip_address.h:812-874 | The parser sets address, port and success exactly as `Addr6.Parse` of the visible text, unless it reads behind an unterminated buffer or the address parser leaves its array |
| Addr6.ViableExactly | include/ip_address.h:820-856 | The scan does not fail on exactly the texts that start a bracketed address with a port |
| Addr6.BehindMeansFail | include/ip_address.h:820-856 | It reads the character behind an unterminated buffer exactly when it does not fail before the last character |
| Addr6.AcceptsExactly | include/ip_address.h:814-870 | For all texts: success exactly with an accepted address of two characters or more in brackets, followed by nothing or by a colon and a port that may be missing, and then both parts are read |
| Addr6.EveryFormat | include/ip_address.h:810-811 | When the whole text is visible, every accepted IPv6 text may stand in the brackets exactly when it has at least two characters |
| Addr6.FieldsExactly | include/ip_address.h:820-874 | Address, port and flag for every bracketed text, whatever stands inside and behind the brackets |
| Addr6.FieldsEmpty | include/ip_address.h:820-874 | Every other text resets all fields |
| Addr6.Printed | include/ip_address.h:902-904 | Printed is, in brackets, the text of the address for the same flags, then a colon and the port in base 10 |
| Addr6.RoundTrip | include/ip_address.h:902-904 | Parsing undoes printing for every address, every port and all flags but for the one exception of the address text, in at most 53 characters |
| DefaultLimits.Ip4ReadsBack | include/ip_address.h:123 | A printed IPv4 address in a longer terminated buffer is read back under the default limit |
| DefaultLimits.Ip6ReadsBack | include/ip_address.h:351 | The same for IPv6 and all unambiguous flags |
| DefaultLimits.SocketAddressesReadBack | include/ip_address.h:812 | The same for both kinds of socket address |
| DefaultLimits.PrefixReadsBack | include/ip_address.h:1094 | The same for prefixes, up to their host bits |
| DefaultLimits.Ip4Default | include/ip_address.h:114-123 | For every text whose numbers fit: read alike under the default limit exactly up to 20 characters, or when all that is cut off is zero |
| DefaultLimits.Ip4Lengths | include/ip_address.h:114-123 | All IPv4 texts of a length are read alike under the default limit exactly for lengths up to 20 |
| DefaultLimits.Ip6Lengths | include/ip_address.h:337-351 | All IPv6 texts of a length are read alike under the default limit exactly for lengths up to 45 |
| DefaultLimits.Ip6Blind | include/ip_address.h:337-351 | For every accepted IPv6 text of more than 45 characters there is another that the parser cannot tell from it under the default limit and that stands for another address |
| DefaultLimits.PrefixLengths | include/ip_address.h:1089-1094 | All prefix texts of a length are read alike under the default limit exactly for lengths up to 50 |
| DefaultLimits.Addr4Default | include/ip_address.h:707-709 | Every IPv4 format and port is read under the default limit exactly when there is no upper-case hex mark and the text has at most 21 characters |
| DefaultLimits.Addr6Default | include/ip_address.h:810-812 | Every IPv6 format and port is read under the default limit exactly when the address has two characters or more and the text at most 53, or all that is cut off are zeros of port 0 |
| StreamBuf.WriteConservation | include/tcp_socket.h:298-350 | Over any run of puts and flushes with any results of send: the bytes taken by the socket followed by the put area are the characters reported as accepted, in order, exactly when every send took nothing or the whole area; otherwise the surplus is counted |
| StreamBuf.AllReported | include/tcp_socket.h:319-329 | Over any run every character offered is accepted exactly when every put into a full area could send the whole area |
| StreamBuf.CompleteSends | include/tcp_socket.h:298-350 | When every send is complete, the bytes taken by the socket followed by the put area grow by exactly the characters offered |
| StreamBuf.ReadConservation | include/tcp_socket.h:332-345 | Over any run of reads with any blocks, timeouts and closes: the bytes received are the characters consumed followed by the get area |
| StreamBuf.ConsumedGrows | include/tcp_socket.h:332-345 | What was received or consumed is never taken back |
| StreamBuf.Buffer.FlushOut | include/tcp_socket.h:298-310 | `flush` reports success exactly when nothing is pending or send returns the pending size; then the area is empty, else it stays and the result is kept; send is called once, on the area, unless that is empty |
| StreamBuf.Buffer.Sync | include/tcp_socket.h:326-350 | The same for `sync` and end-of-file |
| StreamBuf.Buffer.Overflow | include/tcp_socket.h:319-329 | A character is accepted exactly when there is room or send takes the whole area, and then is the last of the area; else nothing changes but the error and what the socket took |
| StreamBuf.Buffer.PutChar | include/tcp_socket.h:319-329 | The same for a put through the stream |
| StreamBuf.Buffer.UnderflowIn | include/tcp_socket.h:332-345 | recv is called exactly when the get area is empty; errors leave the area alone; the character returned is the next unread one |
| StreamBuf.Buffer.GetChar | include/tcp_socket.h:332-345 | The character returned is the next one of the stream |
| StreamBuf.Buffer.AnyUse | include/tcp_socket.h:298-350 | Any interleaving of writes and reads on one buffer object is a run of the two machines with the results the socket returned, so both conservation laws hold of its areas and the socket |
| Sockets.World.OpenBase | include/udp_socket.h:411-474 | The calls made, and the state, descriptor and result, for every point at which the system may refuse: an option leaves the socket prepared and gives its translated error, a later refusal gives the descriptor back |
| Sockets.World.Connect | include/udp_socket.h:317-387 | A connection attempt makes the calls and has the error that `Sockets.AttemptExactly` describes |
| Sockets.AttemptExactly | include/udp_socket.h:331-382 | An attempt succeeds exactly when it is granted at once, or is in progress, a poll reports an event and SO_ERROR is 0; its error is the last answer; polls take 500 ms or what is left, until one is answered or no time is left |
| Sockets.OpenExactly | include/udp_socket.h:411-474 | On the record of the calls of an open that gets a descriptor: success, and the state opened, exactly when everything asked was granted, but for the "in progress" that an event and a granted request follow; a refused option keeps the descriptor, any other failure closes it |
| Sockets.SilenceFails | include/udp_socket.h:317-387 | An attempt that nothing answers polls exactly the time limit and fails |
| Sockets.OpenCodes | include/udp_socket.h:401-403 | Once the options are granted every failure is the one code for a failed open, a timeout included; a refused option is never reported as "not allowed" |
| Sockets.World.Open | include/tcp_socket.h:55-84 | The calls of the base open and, for a server, listen, with their outcome read off the record; accepted sockets refuse to open; ownership is kept; the descriptor of a socket left prepared is lost, and no other |
| Sockets.World.Close | include/tcp_socket.h:113-119 | The descriptor goes back to the system by one close, the parent's list loses it, nothing else changes, and ownership is kept |
| Sockets.World.EraseFromParent | include/tcp_socket.h:115-117 | The erasing loop removes the descriptor and nothing else |
| Sockets.World.Accept | include/tcp_socket.h:134-224 | An opened server polls and accepts; the client wraps the new descriptor, which joins the list, exactly when the system gives one; a server that is not open leaves flag and address unwritten, so the flag is right exactly when the server is open or the flag was false |
| Sockets.World.Move | include/tcp_socket.h:34-38 | The new object takes over descriptor, parent and list; the old one owns nothing; ownership holds afterwards exactly when the moved socket has no live client |
| Sockets.World.Destroy | include/tcp_socket.h:42-47 | The accepted descriptors are closed in their order, then its own, each while it is open; the other sockets do not change; every remaining descriptor is open, and ownership holds, exactly when no live client is left |
| Sockets.World.AnyHistory | include/tcp_socket.h:21-246 | Over any history, with servers moved or destroyed only without live clients: a socket is `created` exactly when it has no descriptor, descriptors have one owner and are closed only while open, and each server lists its live accepted clients once; if no prepared socket is opened, no descriptor is lost |
| Sockets.World.Ownership | include/tcp_socket.h:21-246 | What ownership means, spelled out field by field |
| Sockets.World.Lost | include/udp_socket.h:419-426 | A descriptor is lost when it is open and no socket object has it |
| Sockets.ClosedOnce | include/udp_socket.h:482-490 | Over the whole record of calls that every history keeps proper, a descriptor closed twice was handed out again in between |
| Sockets.EraseAt | include/tcp_socket.h:115-117 | Erasing one position of a list without repeats removes that descriptor and keeps the others |

## Left out

- Windows start-up and error numbers, `getaddrinfo`, the arguments of `setsockopt` and logging: calls into the system are answered arbitrarily.
- `recvfrom`, `sendto`, raw sockets, name resolution and the address fields of a socket: they carry no invariant; the address that `accept` reports is an opaque value.
- Closing a socket from another thread while it connects, and concurrent use of a server's list: the code has no locking.
- Moving a stream buffer: the source resets both areas, so conservation is stated for a buffer that stays in place.
- A stream buffer of size zero: its first put writes past the put area in the source, so the constructor asks for at least one character.
- DefaultLimits.Ip4Default: asks for numbers that do not wrap, because a cut number can agree with the whole one modulo 2^32; `DefaultLimits.Ip4Lengths` covers all texts.
- DefaultLimits.Ip6Lengths: says for which lengths the default limit is right, not for which longer texts, because a cut text can by chance stand for the same address; `DefaultLimits.Ip6Blind` says that none of them is safe.
- DefaultLimits.PrefixLengths: the same restriction to lengths.
- Comparison, hashing, stream operators, rotation and the constructors that only forward to a parser: easy members.
- A big-endian host, on which `is_ip4` compares with the wrong word.
