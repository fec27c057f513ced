# Verification of lbcd's hard parts

lbcd is a small UDP daemon that answers load-balancing queries. Most of its difficult code is in the
C it ships around the daemon: a printf engine for systems without `snprintf`, loops that complete
partial writes and reads, string vectors, address parsing and matching, the reassembly of NTP
replies, the test harness, and the wire protocol that a Perl client and a C server must agree on.
This project models that code in Dafny and proves what it promises. `dafny verify dfyconfig.toml`
checks everything.

Code that works step by step is modelled step by step: classes with the source's fields, arrays for
its buffers and tables, methods with its loops. Each such method is proved equal to a function or
relation that says what it computes, and the properties are proved about those.

## The modules

| file | models |
|---|---|
| `Common`, `Numerals`, `Bits`, `CNumbers` | shared types; digits and their value, bitwise operators, `strtol`: the arithmetic the rest rests on |
| `Output`, `Conversions`, `Dopr` | the printf engine: bounded output, the conversions, the nine-state scanner, `vsnprintf`, `vasprintf` |
| `FormatGrammar`, `C99Layout`, `C99Directives` | formats as a grammar with a meaning; what section 7.19.6.1 of C99 asks of a conversion, a directive, a format |
| `XWrite`, `Network` | writes, reads and connection attempts against a kernel that may do anything; address matching |
| `CStrings`, `Splitting`, `Vector`, `CVector` | `strlcpy`, `strlcat`, splitting and joining, copying and in place |
| `InetAddr` | `inet_aton` and `inet_ntoa` |
| `Monlist` | reassembly of the monlist reply |
| `RunTests`, `Harness`, `TapLines`, `TapPrograms`, `TestSummary` | the test harness: its state, its line reader, the programs it judges, its range listings |
| `Protocol`, `Server`, `Client` | the lbcd packets, the server's request path and the Perl client |

The environment is a parameter or an adversary: `write`, `writev`, `pwrite` and `read` return any
allowed result, and record what they accepted in ghost state; variable arguments are a sequence of tagged
values, `long double` is an exact real; what arrives on a socket, what `inet_pton` makes of a text,
and what a weight function yields are parameters.

## Where the code and its documentation differ

The model follows the code. For each difference below a lemma or a contract says, over all inputs,
exactly when the code does what the documentation or the standard asks.

- **The printf engine against C99.** Of the directives of section 7.19.6.1, those with d, i, o, u, x, X,
  f, F, c, s or % and no length other than h, l, ll or L, wide characters apart, are rendered as asked
  if and only if they do not depart (`C99Directives.DirectiveMeetsC99`), and a format in which no directive departs is
  rendered as asked (`C99Directives.FormatMeetsC99`). What this project leaves out is
  listed at the end. The departures are:
  - what the scanner does not know: F, a and A print nothing and leave their argument to the next
    directive (`C99Directives.UnknownConversion`), and after the lengths hh, j, z and t the conversion
    letter is printed instead of the number (`C99Directives.UnknownLength`); neither is ever what is
    asked (`C99Directives.UnknownConversionDeparts`, `C99Directives.UnknownLengthDeparts`);
  - integers (`C99Layout.IntMeetsC99`): a zero of precision zero, which is printed; the `0x` of `#`, and
    the leading zero of `#` in octal unless zero padding happens to supply it; and padding with a
    negative star width, or with the zero flag together with the minus flag or a precision;
  - `%f` (`C99Layout.FloatMeetsC99`): a precision above 18; a period without digits, taken as no
    precision; the point of `#` without decimals; padding with a negative star width, without
    decimals (one short) or with zeros after a sign (one short);
  - `%s` (`C99Layout.StrMeetsC99`): a period without digits, unless the string is blank and fits the
    width; a negative star width beyond the string;
  - `%c` (`C99Layout.CharMeetsC99`): any width above one.

  What is printed instead is stated for every call, departing or not: `C99Directives.IntegerPrinted` with
  `C99Layout.IntPrints`, `C99Layout.FloatPrints`, `C99Layout.StrPrints`.
- **A buffer of size zero** still gets a nul, where C99 has nothing written (`Dopr.VSnprintf`).
- **Lines too long for the harness's buffer** are meant to be ignored. They are cut into full buffers
  and a last part (`TapLines.LongLine`, `TapLines.PartAt`), and leave the harness as it is if and only
  if no full buffer holds the bail-out text and the last part, read as a line of its own, is harmless
  (`TapLines.LongLineTail`). `TapLines.TailReports` shows one that reports a test.
- **Comments of result lines** are documented as exactly `# skip` and `# todo` after white space. They are
  recognised in any mixture of cases, with any or no white space around the hash mark, and as the start
  of a longer word (`TapLines.DirectiveReads`, `TapLines.CommentDecides`), and after a number with a sign
  not at all (`TapLines.ResultForms`).
- **Aborted runs.** A run that ends aborted is still judged a success if and only if a bail-out
  without a message was reached, or reading failed, and the table ended well: exit status zero, a
  plan, only passes and skips (`RunTests.AbortedButSuccessful`). `RunTests.BailOutVerdict` says so for
  a bail-out at any point, `RunTests.ReadErrorVerdict` that a read error never changes the verdict,
  and `RunTests.BareBailStillSucceeds` shows such a run.
- **A program that skips itself as a whole** succeeds however it exits (`TapPrograms.SkipAllSucceeds`),
  and one that plans no test fails whatever it thinks of itself (`TapPrograms.HarnessAgrees`).
- **The row of the final table** is printed with a limit of 19 characters, beyond which a range gives way
  to an ellipsis. It lists the failures in full if and only if the listing fits, and takes at most five
  characters more than the limit (`TestSummary.RowFits`). It stays within the limit if and only if no
  ellipsis goes over it (`TestSummary.RowWithin`): the ellipsis itself is not checked against the
  limit, it can be repeated (`TestSummary.RowOverruns`, 23 characters with two of them), and a later,
  shorter range can follow it (`TestSummary.RangeAfterEllipsis`).
- **Prefix lengths.** Besides plain decimals in range, a mask may be empty, or have white space or a
  sign in front; a minus sign counts down from 2^64 (`Network.MaskAccepted`).
- **IPv4 numerals.** A part is read as the C constant it is unless it has the mark `0X`, which is
  refused, or is a bare `0x` in last place, which is taken as zero; the consequence for whole
  addresses is `InetAddr.MeaningMeetsC` (`InetAddr.PartMeetsC` for a part).
- **The cmd weight function** is never run for a service a client names, except `default` when that is
  what the default service runs (`Server.CmdOnlyByDefault`, and over every run `Server.HandleRequests`).

## Model

| member | source | states |
|---|---|---|
| Numerals.DigitsDenote | portable/snprintf.c:547-552 | the digits printed for a number denote it in the base and have no leading zero |
| Numerals.DigitStep | portable/snprintf.c:547-550 | one turn of a digit loop: the remainder is the last digit, the quotient has the others |
| Numerals.DigitsFit | portable/snprintf.c:515-551 | numbers below base^k take at most k digits |
| Numerals.DigitsReach | portable/snprintf.c:738-746 | numbers from base^(k-1) on take at least k digits |
| Numerals.DigitValues | portable/inet_aton.c:89-107 | the sixteen digit characters in either case have their values, and no other character has one |
| BoundedOutput.Output.constructor | portable/snprintf.c:189-193 | an output that has emitted nothing, over the buffer as it was |
| BoundedOutput.Output.Outch | portable/snprintf.c:836-841 | every character is counted; the buffer holds exactly the prefix that leaves room for the nul |
| BoundedOutput.Output.Repeat | portable/snprintf.c:571-576 | a padding loop emits exactly the padding asked for, none when negative |
| BoundedOutput.Output.Terminate | portable/snprintf.c:456-462 | the nul follows the kept text and nothing else changes, for size zero too |
| Conversions.FmtInt | portable/snprintf.c:510-603 | fmtint emits exactly spaces, sign, zeros, digits of the 64-bit magnitude and spaces, and returns their number; the sign is a minus for a signed negative value, else what the plus and space flags ask for |
| Conversions.FillScratch | portable/snprintf.c:547-552 | the scratch array holds all digits in reverse and never clips |
| Conversions.DigitsOf64Bits | portable/snprintf.c:515-551 | no 64-bit magnitude needs more than 22 digits, so 24 bytes suffice |
| Conversions.EmitNumber | portable/snprintf.c:571-602 | the five emission loops, in order, with left and right padding |
| Conversions.EmitReversed | portable/snprintf.c:592-594 | emitting the scratch backwards emits the digits |
| Conversions.FmtStr | portable/snprintf.c:466-506 | the string cut at the precision, padded on the side the minus flag selects; "(null)" for a null pointer |
| Conversions.StrLength | portable/snprintf.c:478-483 | the length found is that of the text shown, and the precision bounds what is read |
| Conversions.EmitPrefix | portable/snprintf.c:495-499 | exactly the text shown is emitted |
| Conversions.Pow10Int | portable/snprintf.c:615-626 | the loop computes the power of ten |
| Conversions.RoundInt | portable/snprintf.c:628-638 | rounding a nonnegative number to the nearest integer, halves up |
| Conversions.SplitRounding | portable/snprintf.c:728-737 | rounding only the fraction and carrying equals rounding the whole number |
| Conversions.SplitNumber | portable/snprintf.c:681-737 | integer and fraction parts of the rounded number, carry included, within 64 bits |
| Conversions.LeadingZeros | portable/snprintf.c:738-746 | dividing the mask down counts exactly the zeros missing in front of the fraction |
| Conversions.FillFraction | portable/snprintf.c:760-768 | the fraction scratch holds exactly p digits, leading zeros included, unless the fraction is zero |
| Conversions.EmitHead | portable/snprintf.c:784-804 | sign and left padding, with the place the zero padding gives up to the sign |
| Conversions.EmitFraction | portable/snprintf.c:809-825 | point and exactly p decimals, or nothing when p is zero |
| Conversions.FmtFp | portable/snprintf.c:640-834 | fmtfp on the %f path emits the layout of the rounded number, which C99Layout.FloatPrints describes, and returns its length |
| C99Layout.IntMeetsC99 | portable/snprintf.c:510-603 | for every flag, width and precision, fmtint prints what section 7.19.6.1 of C99 asks if and only if the call is not one of the departures |
| C99Layout.IntLength | portable/snprintf.c:554-564 | the width is filled if and only if the zero flag does not meet a precision beyond the digits below the width |
| C99Layout.DigitsPrinted | portable/snprintf.c:541-550 | the digits are those of the number in the base, with the letters abcdef or ABCDEF |
| C99Layout.IntPrints | portable/snprintf.c:510-603 | what fmtint prints in every case, departing or not: around sign and digits zeros or spaces, by the zero and minus flags, the width and the precision |
| C99Layout.FloatMeetsC99 | portable/snprintf.c:659-831 | for every flag, width and precision, fmtfp prints what section 7.19.6.1 of C99 asks if and only if the call is not one of the departures |
| C99Layout.NumberPrinted | portable/snprintf.c:681-768 | the number fmtfp prints is the magnitude rounded to p decimals: the digits of its integer part, a point and exactly p last digits |
| C99Layout.FloatPrints | portable/snprintf.c:640-834 | what fmtfp prints in every case, departing or not: sign, number and padding, with the width one short without decimals and one short with zeros after a sign |
| C99Layout.StrMeetsC99 | portable/snprintf.c:466-506 | the same for fmtstr |
| C99Layout.StrPrints | portable/snprintf.c:466-506 | what fmtstr prints in every case: the string or its first characters, padded to a width that is not negative |
| C99Layout.NullPrints | portable/snprintf.c:474-476 | a null pointer prints as the string "(null)" |
| C99Layout.CharMeetsC99 | portable/snprintf.c:395-397 | %c is printed as asked if and only if the width does not exceed one |
| C99Directives.CastAgrees | portable/snprintf.c:316-363 | the round trip of an argument through a signed 64-bit variable prints the value C99 converts |
| C99Directives.IntegerPrinted | portable/snprintf.c:522-550 | departing or not, an integer directive prints a minus sign exactly for a signed negative value, else the plus or the space its flags ask for, and the digits of the magnitude in base 8, 10 or 16 |
| C99Directives.ConversionMeetsC99 | portable/snprintf.c:313-443 | a conversion with d, i, o, u, x, X, f, F, c, s or % prints what C99 asks if and only if it does not depart; what it consumes |
| C99Directives.DirectiveMeetsC99 | portable/snprintf.c:175-464 | such a directive as written, with a length the scanner knows, is rendered as C99 asks if and only if it does not depart |
| C99Directives.UnknownConversion | portable/snprintf.c:440-443 | %F, %a, %A and every other conversion character the scanner does not know print nothing and consume nothing, with any flags, width, precision and length |
| C99Directives.UnknownConversionDeparts | portable/snprintf.c:440-443 | so %F, %a and %A are never printed as asked |
| C99Directives.UnknownLength | portable/snprintf.c:278-300 | after hh, j, z and t the conversion letter is printed as plain text, and nothing is consumed |
| C99Directives.UnknownLengthDeparts | portable/snprintf.c:278-300 | so no number with one of these lengths is ever printed as asked |
| C99Directives.FormatMeetsC99 | portable/snprintf.c:175-464 | a format made of plain text and such directives, none of which departs, is rendered as C99 asks |
| C99Layout.FloatDenotes | portable/snprintf.c:722-768 | exactly p decimals are printed, and digits and decimals together denote the number nearest to the magnitude, halves up |
| Dopr.Stored | portable/snprintf.c:316-363 | the promoted, cast and re-signed argument stays in the range fmtint needs |
| Dopr.EmitConversion | portable/snprintf.c:313-443 | each conversion character emits its text and consumes its argument |
| Dopr.ScanDirective | portable/snprintf.c:209-312 | each scanning state preserves what is still to be printed and makes progress |
| Dopr.Step | portable/snprintf.c:195-455 | one turn of the loop moves text from what is pending to what is emitted, and lowers (characters left, state rank) |
| Dopr.Dopr | portable/snprintf.c:175-464 | the state machine terminates, emits exactly the rendering of the format and returns its length |
| Dopr.VSnprintf | portable/snprintf.c:843-848 | the result is the full length whatever the size; the buffer holds its first min(length, n - 1) characters, a nul, and is otherwise untouched |
| Dopr.VAsprintf | portable/asprintf.c:55-81 | measuring then filling never truncates; a failed allocation gives a null pointer and -1 |
| FormatGrammar.ScanFlags | portable/snprintf.c:209-236 | flags are read in any order and number |
| FormatGrammar.ScanWidth | portable/snprintf.c:237-251 | reading digits accumulates their positional value |
| FormatGrammar.ScanPrecisionPart | portable/snprintf.c:252-277 | a written or starred precision is read as its value, an omitted or empty one as none |
| FormatGrammar.ScanLength | portable/snprintf.c:278-312 | h, l, ll and L are told apart |
| FormatGrammar.ScanItem | portable/snprintf.c:195-312 | from the percent sign the scanner reaches the conversion with exactly the directive written |
| FormatGrammar.ScannerMeansItems | portable/snprintf.c:175-464 | for every format of complete directives, known to the engine or not, the scanner renders the meaning of its items, one after the other |
| XWrite.Descriptor.Write | util/xwrite.c:92-99 | the kernel accepts any prefix, nothing, or fails |
| XWrite.XWrite | util/xwrite.c:78-102 | a prefix is accepted; success if and only if all of it; at most ten calls a byte; failure if and only if a hard error or ten fruitless calls in a row |
| XWrite.XPwrite | util/xwrite.c:106-131 | the same, with byte k at offset + k and no other byte changed |
| XWrite.FirstWritev | util/xwrite.c:166-175 | the first attempt repeats only while interrupted, at most ten times |
| XWrite.NotAtEnd | util/xwrite.c:207-213 | with bytes left to write the skip loop is still inside the vectors |
| XWrite.Skip | util/xwrite.c:185-211 | the skip loops stop at the first entry not exhausted, never past the last, with the offset into it |
| XWrite.Advance | util/xwrite.c:212-213 | shortening the entry in place leaves exactly the unwritten bytes |
| XWrite.Attempt | util/xwrite.c:207-216 | one retry offers the kernel exactly the unwritten bytes |
| XWrite.Retry | util/xwrite.c:202-224 | over all retries the accepted bytes are a prefix of the unwritten ones, and the loop ends within ten calls a byte |
| XWrite.Resume | util/xwrite.c:185-224 | after a partial first write the private copy starts at the first unwritten byte |
| XWrite.XWritev | util/xwrite.c:135-229 | the bytes accepted are a prefix of the concatenation; the total is returned if and only if all were, -1 otherwise; at most ten calls a byte |
| CStrings.Strlcpy | portable/strlcpy.c:38-50 | copies what fits, terminates, leaves the rest, returns the full length |
| CStrings.Strlcat | portable/strlcat.c:39-52 | appends what fits after the string there, leaves the rest, returns the sum of the lengths |
| Splitting.SpansTile | util/vector.c:269-276 | the stretches between separators tile the string and are free of separators |
| Splitting.PiecesAreSpans | util/vector.c:269-276 | the pieces are the texts of those stretches |
| Splitting.JoinOfSplit | util/vector.c:255-278 | joining the pieces at a separator gives the string back |
| Splitting.SplitOfJoin | util/vector.c:462-493 | splitting the join of any nonempty list of separator-free strings gives the list back |
| Splitting.TokensAreRuns | util/vector.c:351-386 | what vector_split_multi stores are exactly the maximal separator-free runs, in order |
| Splitting.TokensAreSpans | util/vector.c:371-384 | each stored text is that of its run |
| Splitting.Retokenize | util/vector.c:351-386 | joining tokens with any run of separators and splitting again gives the tokens |
| Splitting.TokensOfJoin | util/vector.c:356-386 | splitting, joining and splitting again is stable for every string |
| Splitting.JoinLayout | util/vector.c:462-493 | the length of a join, and where each piece and each whole separator stands in it |
| Splitting.JoinAppends | util/vector.c:462-493 | the join of two lists is their joins with one separator between them |
| Vectors.SplitCount | util/vector.c:234-246 | the first pass counts exactly the pieces |
| Vectors.TokensSnoc | util/vector.c:333-346 | a token begins exactly at a non-separator after a separator or the start |
| Vectors.SplitMultiCount | util/vector.c:323-348 | the transition count with its correction is the number of tokens, for every string |
| Vectors.Vector.constructor | util/vector.c:49-58 | an empty vector with a table of one |
| Vectors.Vector.Resize | util/vector.c:77-92 | keeps what fits; the table is never empty |
| Vectors.Vector.Add | util/vector.c:113-123 | appends one string |
| Vectors.FillPieces | util/vector.c:269-276 | the second pass stores exactly the pieces and never leaves the table |
| Vectors.FillTokens | util/vector.c:371-384 | the second pass stores exactly the tokens and never leaves the table |
| Vectors.Vector.Split | util/vector.c:255-278 | the vector holds exactly the pieces of the string |
| Vectors.Vector.SplitMulti | util/vector.c:356-386 | the vector holds exactly the tokens of the string |
| Vectors.Vector.JoinedSize | util/vector.c:473-483 | the computed size is exactly the length of the join and its nul |
| Vectors.FillJoined | util/vector.c:485-491 | strlcpy and strlcat into that size never truncate |
| Vectors.Vector.Joined | util/vector.c:462-493 | the buffer is exactly the join and a nul |
| CVectors.CutStep | util/vector.c:301-310 | one turn of an in-place loop keeps the closed stretches terminated and the rest of the buffer untouched |
| CVectors.CutReads | util/vector.c:281-314 | a stretch that ends in a nul reads as its text |
| CVectors.CutPieces | util/vector.c:301-313 | reading the C string at each stored offset gives the pieces; only separators were overwritten, by nuls |
| CVectors.CutTokens | util/vector.c:409-425 | the same for the tokens of cvector_split_multi |
| CVectors.CVector.Split | util/vector.c:287-314 | cvector_split refines vector_split |
| CVectors.CVector.SplitMulti | util/vector.c:395-427 | cvector_split_multi refines vector_split_multi |
| InetAddr.ParseDigits | portable/inet_aton.c:81-119 | the digit loop computes the value of the numeral, and rejects only what is none or exceeds 32 bits |
| InetAddr.Outgrown | portable/inet_aton.c:81-91 | past the guard one more digit already exceeds 32 bits, so the guard rejects nothing the range checks would take |
| InetAddr.ParsePart | portable/inet_aton.c:55-119 | a part is a decimal, 0-octal or 0x-hex numeral, bare 0x only at the end |
| InetAddr.NextPart | portable/inet_aton.c:51-131 | one turn of the part loop: at most four parts, no trailing period; a rejected text has no meaning |
| InetAddr.AssembleHigh | portable/inet_aton.c:153-158 | leading parts must be bytes, and or-ing them in adds them at their positions |
| InetAddr.Assemble | portable/inet_aton.c:153-164 | the last part must fit the remaining bits; the address is the positional sum |
| InetAddr.InetAton | portable/inet_aton.c:51-165 | accepts exactly the texts that denote an address, with exactly that address |
| InetAddr.PartsMean | portable/inet_aton.c:153-164 | the address of a text by the values of its parts: `a`, `a * 2^24 + b`, `a * 2^24 + b * 2^16 + c`, or four bytes, each part in its range, and none otherwise |
| InetAddr.NoPartNoMeaning | portable/inet_aton.c:55-119 | a text with a part that is no number has no address |
| InetAddr.PartMeetsC | portable/inet_aton.c:55-79 | a part is read as an integer constant of section 6.4.4.1 of C99 if and only if it has no upper-case mark and is no bare mark in last place |
| InetAddr.MeaningMeetsC | portable/inet_aton.c:55-79 | addresses are read with such constants except exactly when an upper-case mark is refused in one that is valid with it, or a bare mark is taken after leading bytes |
| InetAddr.QuadPrints | portable/inet_ntoa.c:44-46 | the quad format renders the dotted text |
| InetAddr.DottedFits | portable/inet_ntoa.c:40-46 | the dotted text has at most 15 characters |
| InetAddr.InetNtoa | portable/inet_ntoa.c:37-48 | the static 16-byte buffer holds the whole text and its nul |
| InetAddr.AtonOfNtoa | portable/inet_aton.c:51-165 | parsing the printed text gives back every 32-bit address |
| Bits.MaskedEqual | util/network.c:983-983 | masked addresses are equal if and only if they agree on every bit of the mask |
| Network.PrefixMask | util/network.c:976-977 | the mask loop sets exactly the top n bits |
| Network.Match4 | util/network.c:969-984 | the IPv4 comparison under a missing, prefix or dotted mask |
| Network.MatchByte | util/network.c:1001-1009 | a whole or partial byte of the IPv6 comparison |
| Network.Match6 | util/network.c:1000-1011 | the byte loop holds if and only if the top n of 128 bits agree |
| Network.MaskAccepted | util/network.c:973-975 | which texts are taken as a prefix length: plain decimals in range, the empty text, and signed or spaced numbers that wrap into range |
| Network.FormAccepted | util/network.c:973-975 | the prefix length that a text of white space, sign and digits denotes |
| Network.AddrMatch | util/network.c:943-1015 | true if and only if both are IPv4, or else both IPv6, and agree under the mask; false when an address or the mask is not read or out of range |
| Network.MatchMeans | util/network.c:943-1015 | a comparison in numbers: equal without a mask, equal on the bits of a dotted mask, in the same network of a prefix length, for IPv4 if both texts are, otherwise for IPv6 if both are, and never of an empty text |
| Network.UnmaskedMatch | util/network.c:969-1011 | without a mask two texts match if and only if they are one IPv4 address, or are not both IPv4 and are one IPv6 address |
| Network.TopBitsAreQuotients | util/network.c:969-984 | agreement on the top n bits is equality of the network numbers (section 3.1 of RFC 4632) |
| Network.TopBits6AreQuotients | util/network.c:1000-1011 | the same for the numbers of 128 bits |
| Network.BitIsQuotient | util/network.c:983-983 | a bit in terms of division |
| Network.MatchNarrows | util/network.c:943-1015 | a match at n bits is a match at every smaller n |
| Network.MatchIsEquivalence | util/network.c:943-1015 | for a fixed mask matching is symmetric, transitive, and reflexive on what it accepts |
| Network.EqualIsCanonical | util/network.c:867-910 | socket addresses are equal if and only if they mean the same address, mapped or not |
| Network.Sockets.Socket | util/network.c:569-571 | a new descriptor, or none |
| Network.Sockets.Close | util/network.c:567-568 | only an open descriptor is ever closed |
| Network.Sockets.Connect | util/network.c:560-596 | open afterwards is what was open before plus the descriptor returned, of the first address that opens, binds and connects; none if and only if no address does |
| Network.InputStream.Read | util/network.c:676-685 | a read delivers any number of bytes up to the limit, or fails |
| Network.SocketXRead | util/network.c:665-690 | the buffer holds exactly what was delivered; success if and only if it is full; at most a hundred calls a byte; EPIPE if and only if it failed without an error |
| Monlist.FieldsRoundTrip | modules/monlist.h:85-107 | unpacking a packed bit field gives its parts back |
| Monlist.AcceptedMeans | modules/monlist.c:90-102 | on the octets, exactly which packets are accepted, and what their sequence number, MORE bit, error code and item count are |
| Monlist.GetResponse | modules/monlist.c:64-133 | the receive loop computes the collection of what arrives, which Reassembly and AnyArrivals describe |
| Monlist.NewTurn | modules/monlist.c:104-131 | a new fragment ends the loop if and only if none is missing any more |
| Monlist.NewFragmentStep | modules/monlist.c:108-131 | a new fragment completes the reply or keeps the loop consistent with the set of fragments seen |
| Monlist.RepeatedStep | modules/monlist.c:91-113 | a rejected packet or a repetition changes nothing |
| Monlist.NewFragment | modules/monlist.c:108-131 | the count of packets reaches the number of fragments exactly with the last missing one |
| Monlist.Reassembly | modules/monlist.c:80-133 | under any order, repetition, junk, failure and error code it stops exactly when all fragments have come, with the sum of their items, or else reports the first error code, or -1 at the first failure, whichever comes first |
| Monlist.OrderIrrelevant | modules/monlist.c:80-133 | two streams that bring the same fragments before any failure or error code are both complete or both not, with the same items |
| Monlist.SeenStays | modules/monlist.c:112-114 | once complete, the fragments stay complete, so completion happens once |
| Monlist.AnyArrivals | modules/monlist.c:80-133 | for arrivals of any kind, from one reply or several: the first that is no packet, carries an error code, or brings the packets counted above the last sequence number decides status and items |
| RunTests.StepKeepsTally | tests/runtests.c:708-840 | after every line the tallies are the counts of the table |
| RunTests.RunKeepsTally | tests/runtests.c:1040-1048 | and so over every run |
| RunTests.StepAborts | tests/runtests.c:719-830 | exactly which lines abort a run: bail-outs, plans that are bad, too small or repeated, and test numbers that are bad, beyond the plan or repeated |
| RunTests.RunHistory | tests/runtests.c:708-840 | a run that is not broken off has recorded exactly what its lines report: each test once, with its status, under the one plan stated |
| RunTests.RunVerdict | tests/runtests.c:708-1084 | such a run is a success if and only if the program exits with zero, a line states a plan, every number of it is reported, and no report is bad: failed, or todo and passed |
| RunTests.FinallyAborted | tests/runtests.c:1003-1069 | exactly which runs end aborted |
| RunTests.AllAccounted | tests/runtests.c:1075-1082 | missing tests become failures and nothing else changes; passed, failed and skipped are still the counts of the table and add up to its length |
| RunTests.Verdict | tests/runtests.c:972-1084 | success if and only if nothing was reported as broken and the run was skipped as a whole, or exited with 0 under a valid plan with only passes and skips |
| RunTests.BailOutVerdict | tests/runtests.c:719-736 | a bail-out anywhere ends the run aborted, and is judged a success if and only if it has no message and the run so far ended well |
| RunTests.ReadErrorVerdict | tests/runtests.c:1049-1050 | a read error aborts the run and never changes the verdict |
| RunTests.AbortedButSuccessful | tests/runtests.c:972-1084 | exactly which runs end aborted and are judged a success |
| RunTests.BareBailStillSucceeds | tests/runtests.c:719-736 | one such run |
| RunTests.ResultSticks | tests/runtests.c:797-830 | a result that does not abort the run decides its test, whatever follows: skipped, todo and failed count as skipped, todo and passed as failed |
| RunTests.StepEndsSkipped | tests/runtests.c:650-670 | only a run skipped as a whole sets that flag, and it ends there |
| Harness.TestSet.constructor | tests/runtests.c:1248-1249 | a new test set has an empty table and no plan |
| Harness.TestSet.ResizeResults | tests/runtests.c:575-602 | the table covers the number, keeps its entries, and new ones are invalid |
| Harness.TestSet.TestPlan | tests/runtests.c:626-699 | the plan is recorded, refused or skips everything, exactly as specified |
| Harness.TestSet.CheckResult | tests/runtests.c:767-830 | a result is recorded, or aborts on a number out of range or given twice |
| Harness.TestSet.CheckLine | tests/runtests.c:708-840 | one line of text moves the test set as specified |
| Harness.TestSet.Analyze | tests/runtests.c:972-1014 | the classification of the exit status and the plan |
| Harness.TestSet.ConvertMissing | tests/runtests.c:1075-1082 | missing tests become failures, and are noticed |
| Harness.TestSet.TestRun | tests/runtests.c:1022-1084 | the whole run of an output: final state, verdict, and tallies that sum to the count |
| CNumbers.StrtolReads | tests/runtests.c:774-783 | strtol reads back every printed number up to LONG_MAX |
| CNumbers.StrtolDenotes | tests/runtests.c:774-783 | strtol reads white space, a sign and digits, and clips the value to a long |
| TapLines.LinesRead | tests/runtests.c:1044-1048 | lines that fit the buffer are read one by one |
| TapLines.LongLine | tests/runtests.c:1044-1048 | a line of any length is read as full buffers and a last part, whatever follows it |
| TapLines.PartAt | tests/runtests.c:1044-1048 | which characters of the line each part holds |
| TapLines.LongLineTail | tests/runtests.c:719-765 | a line of any length leaves the harness as it is if and only if no full buffer bails out and its last part is harmless by itself |
| TapLines.TailReports | tests/runtests.c:738-743 | a line too long for the buffer that still reports a test |
| TapLines.ResultReads | tests/runtests.c:767-810 | a printed result line is read as its status, number and directive |
| TapLines.ResultForms | tests/runtests.c:767-810 | a result line with a number of any form: signed, too large, after any white space; a comment after a signed number is not looked at |
| TapLines.Unnumbered | tests/runtests.c:772-783 | a result line without a number |
| TapLines.DirectiveReads | tests/runtests.c:797-810 | a comment that begins with skip or todo in any mixture of cases is that directive, every other one is none |
| TapLines.CommentDecides | tests/runtests.c:797-830 | on the text of a result line: a skip comment makes either result a skip, a todo comment makes a failed test a skip and a passed one a failure, whatever follows |
| TapLines.PlanForms | tests/runtests.c:626-676 | a plan line, with or without 1.. in front, is read as its count, with or without a skip comment |
| TapLines.NoCount | tests/runtests.c:626-676 | a plan line without a number counts as zero |
| TapLines.BailReads | tests/runtests.c:719-736 | the first bail-out text in a line decides, and has a message unless only white space follows |
| TapPrograms.TailReads | tests/tap/basic.c:402-450 | descriptions are no directives; the comments of skip() and of todo results are |
| TapPrograms.EventReads | tests/runtests.c:16-31 | the line of ok(), of skip() or of a todo result is read as that result |
| TapPrograms.PlanReads | tests/tap/basic.c:351-365 | the line of plan() is read as that plan |
| TapPrograms.RunPlanned | tests/runtests.c:708-840 | after a plan all tests are recorded in order, and one too many aborts |
| TapPrograms.RunLazy | tests/runtests.c:678-699 | without a plan the table grows, and the plan at the end fits it |
| TapPrograms.HarnessAgrees | tests/tap/basic.c:291-297 | for every program that exits normally, todo results included, the harness's verdict on its output is the program's own, provided it planned a test |
| TapPrograms.SkipAllSucceeds | tests/tap/basic.c:390-398 | a program that skips itself as a whole succeeds however it exits |
| TestSummary.PrintRange | tests/runtests.c:852-886 | a range, an ellipsis or nothing, by the limit; the count returned is that of the characters printed |
| TestSummary.ListStep | tests/runtests.c:909-925 | one more result lengthens the current range, prints it and starts another, or changes nothing |
| TestSummary.PrintRanges | tests/runtests.c:909-946 | the text lists increasing, never adjacent ranges that hold exactly the test numbers of the status |
| TestSummary.ListingDecodes | tests/runtests.c:852-886 | the text decodes to exactly those ranges |
| TestSummary.RangesUnique | tests/runtests.c:909-946 | there is only one such list of ranges, so they are maximal |
| TestSummary.FailRow | tests/runtests.c:1113-1129 | the row of the final table holds the ranges of failed tests as far as the limit lets them |
| TestSummary.RowFits | tests/runtests.c:1113-1129 | the row lists all failures if and only if they fit the limit, and exceeds it by at most five characters |
| TestSummary.RowWithin | tests/runtests.c:868-877 | the row stays within the limit if and only if no ellipsis goes over it |
| TestSummary.RowOverruns | tests/runtests.c:868-877 | a row of 23 characters under a limit of 19, with two ellipses |
| TestSummary.RangeAfterEllipsis | tests/runtests.c:868-877 | a row in which a range follows an ellipsis |
| Protocol.HeaderReads | server/protocol.h:61-66 | a packed header unpacks to itself |
| Protocol.NamesRead | server/lbcd.c:274-274 | each 32-octet slot holds its name |
| Protocol.ReplyPrefix | server/lbcd.c:319-321 | leaving out the unused slots leaves the packet of the weights in use |
| Protocol.ReadsNetwork | server/protocol.h:61-92 | what is read at a place is the number in network order there |
| Server.ServiceAllowed | server/lbcd.c:162-180 | default always, cmd never, others when configured |
| Server.RequestServices | server/lbcd.c:272-283 | the names of a version 3 request, unless one is not allowed |
| Server.RequestRecv | server/lbcd.c:191-289 | dropped, refused or accepted, by size, version, and whether every name is allowed |
| Server.ReceiveMeans | server/lbcd.c:191-289 | on the octets: dropped for any other size, refused with status 3 for another version or 2 for a name not permitted, else accepted with its id, operation and the names in its slots |
| Server.ServiceName | server/weight.c:118-122 | the copy cut to its buffer and at the colon |
| Server.ServiceToFunc | server/weight.c:107-134 | the default entry, the one named before the colon, or unknown |
| Server.CallMeans | server/weight.c:107-197 | a service runs the function its name has in the table, or the unknown one, and that is given the text after the colon as port |
| Server.DefaultCallMeans | server/weight.c:189-195 | the default service runs the default function, given the port in its own name |
| Server.CmdEntry | server/weight.c:114-127 | only the default service and the names service_allowed refuses lead to cmd |
| Server.Reply.SetLoad | server/server.c:26-52 | default weight with the sentinel override, and one weight for each service in order |
| Server.WeightsMean | server/server.c:26-52 | each weight of a reply is what its function yields; with the sentinel file the default weight is 2^32 - 1 |
| Server.Reply.PackInfo | server/server.c:93-136 | fields and weights of the whole reply, and exactly the weight functions run for it |
| Server.SendInfo | server/lbcd.c:296-327 | the packet sent is the reply with exactly the weights asked for, and the functions run are those due |
| Server.CmdOnlyByDefault | server/lbcd.c:162-180 | no datagram runs cmd but through the default service |
| Server.HandleDatagram | server/lbcd.c:485-499 | the answer due, if any, and exactly the weight functions due |
| Server.AnswerEchoes | server/lbcd.c:136-154 | an answer carries the id and operation of its datagram |
| Server.HandleRequests | server/lbcd.c:463-500 | over every sequence of datagrams: at most one answer each, echoing id and operation, the weight functions that ran, and cmd only through the default service |
| Client.ReadReply | client/lbcdclient:155-213 | the reply of any length is refused for its id, operation, status or shape, or read field by field with its pairs |
| Client.ReadsWhole | client/lbcdclient:182-209 | nothing read is undefined if and only if the reply is as long as it promises |
| Client.ReadMeans | client/lbcdclient:155-213 | on the octets: the refusals in their order, by id, operation, status and length, and where everything else is read |
| Client.QueryDies | client/lbcdclient:87-110 | exactly the queries the client refuses to send |
| Client.QueryLayout | client/lbcdclient:107-110 | a query on the wire: protocol, id 0, operation 1, the count, and each name in 32 octets, padded with nuls |
| Client.QueryReceived | client/lbcdclient:87-113 | the server recovers exactly the names sent, and refuses the query if and only if one is not allowed |
| Client.FieldsRead | client/lbcdclient:182-195 | every field the server fills in is read at its place |
| Client.PairsRead | client/lbcdclient:200-209 | every weight pair is read at its place |
| Client.ReplyLayout | server/protocol.h:72-92 | a reply on the wire, field by field and weight by weight, in network order |
| Client.AnswerMeans | server/lbcd.c:136-500 | the answer on the octets: none, a status of 2, 3 or 5 that echoes id and operation, or a reply with status 1, the machine's figures and the weights |
| Client.ReplyRead | client/lbcdclient:155-213 | the client recovers every field and exactly n + 1 pairs from 36 + 8(n + 1) octets |
| Client.Refusal | client/lbcdclient:177-180 | a query with a service that is not allowed is answered, and reported as an error by the client |
| Client.Conversation | client/lbcdclient:87-213 | protocol 3 end to end: the machine's figures and the weight of every service, in order |
| Client.ConversationVersion2 | client/lbcdclient:87-213 | protocol 2 end to end: unless the server keeps it simple the three loads carry the default weight, at most 65535, and no users are reported |

## Left out

- Dopr.Dopr: `%e`, `%E`, `%g`, `%G`, `%p`, `%n` and `%w` are not modelled; like arguments of the wrong type they make the rendering undefined.
- Dopr.VSnprintf: requires a buffer of at least one byte even for size zero, because the code stores a nul there; widths, precisions and lengths are unbounded integers where the code uses `int`.
- C99Directives.DirectiveMeetsC99: this project compares neither the conversions above nor wide characters (`%lc`, `%ls`), which the standard defines; it takes arguments inside the model, and `%f` rounded to the nearest decimal, halves up, where the standard leaves the direction open.
- TapLines.LongLineTail: the harness state must be one the run can reach safely, as for the whole run.
- Conversions.FmtInt: the minimum `long long` is excluded, because negating it overflows.
- Conversions.FmtFp: exact reals, so no rounding of binary floating point, and only magnitudes whose integer part fits a `long long`.
- XWrite.XWritev: without the check of a negative vector count and the overflow of the sum of lengths.
- Vectors.Vector.Joined: without the assertions that guard the size computation against overflow; `cvector_join` and `vector_addn` repeat the same code.
- Vectors.Vector.Split: works on an existing vector; a null one is replaced by a new one in the source.
- CVectors.CVector.Split: pointers into the string are offsets into its buffer.
- InetAddr.InetAton: `unsigned long` has 64 bits; with 32 the last addition can wrap.
- InetAddr.InetNtoa: `sprintf` is taken to render as the repository's own engine does.
- Network.AddrMatch: `inet_pton` is a parameter; `strtoul` is modelled only as far as consuming the whole text.
- Network.MatchIsEquivalence: requires that no text is an address of both families.
- Network.Sockets.Connect: whether an address opens, binds and connects within the timeout is a parameter; `errno` is not modelled. `network_read` and `network_write` with a timeout have no bound on their retries.
- Monlist.GetResponse: what `select` and `recv` deliver is a sequence; sending the request is left out.
- Monlist.Reassembly: accepted packets without an error code must come from one reply, of at most 100 fragments, of which only the last lacks the MORE bit; Monlist.AnyArrivals says what other packets do.
- Harness.TestSet.TestRun: requires that no result number exceeds a plan given at the end, which the code does not check before it uses the number as an index; nul bytes in the output, the progress display, skip reasons and starting the process are left out.
- TapPrograms.HarnessAgrees: descriptions must not contain the bail-out text or a newline, lines must fit the reader's buffer, and numbers a `long`; todo results, for which `basic.c` has no function, are printed as runtests.c documents them.
- Server.HandleRequests: sockets, signals and logging; a reply that cannot be sent is only logged.
- Server.ServiceToFunc: the table includes LDAP, which is a build option; how the default entry is chosen from the command line is a parameter.
- Server.Reply.PackInfo: kernel figures, users, disks, the sentinel file and the weight functions are parameters.
- Client.ReadReply: timeouts and the texts of the exceptions are left out; undefined values are absent ones, and warnings about them are not modelled.
- Allocation succeeds except where its failure is a parameter.
- Service probes, the operating-system back ends, daemon start-up, option parsing, messages and the shell and Perl test helpers.
