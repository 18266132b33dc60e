# XML-RPC values, Punycode and a naive Bayes mixture: a verified model

This project models the algorithmic cores of the repository and proves what they are for.

* **Names on the wire** (`Punycode`, `Ucs4`, `Hangul`, `CanonicalOrdering`): the Punycode encoder and
  decoder of `idna_convert.class.php` with their shared adaptive bias, PHP's UTF-8 converter, Hangul
  composition and canonical ordering. The encoder is proved equal to a reference that steps through
  the code points one by one, and the decoder is proved to rebuild the input by keeping both in step.
  `$q` is a real number, because the division in the encoder is not floored.
* **Reference-counted values** (`HeapState`, `ValueHeap`, `Denotation`): the heap of XML-RPC values as
  a class whose methods take, drop and move references. The invariant `Consistent` says that every
  count is the number of outside references plus the occurrences in live containers, that the heap is
  acyclic (a ghost rank), and that struct members have distinct keys and the right hashes. The fields
  `held` and `rank` are ghosts: who holds what outside the heap, and the acyclic order.
* **XML in and out** (`Numerals`, `XmlText`, `Serializer`, `XmlTree`, `Converter`, `HeapConverter`):
  the serializer over the heap, the Expat handlers over linked elements, and the conversion of
  elements to heap values. A document is a `Markup` tree; Expat is the contract that its events arrive
  in order with text cut into arbitrary nonempty chunks.
* **Byte codecs** (`Base64`, `Utf8Codec`): loops over buffers with the 32-bit accumulator written out.
* **Format strings** (`FormatSpecs`, `FormatStrings`, `FormatRoundTrip`): the build and decompose
  interpreters over one shared cursor.
* **Signatures** (`Signatures`): the method-signature parser, building its result on the heap.
* **The naive Bayes mixture** (`GrowArrays`, `Sums`, `Mixtures`, `Training`, `NaiveBayes`): EM, marginals,
  conditioning, duplicate merging and pruning over exact reals and discrete variables.

Code that changes things step by step is a method or a class with loops, proved against a
specification function; the theorems are lemmas about those functions. `Arith`, `Bytes`, `Outcomes`,
`Reals`, `Sequences` and `Values` hold shared definitions and small facts.

The specification functions are not left to themselves. Modules named after them (`PunycodeLaws`, `Utf8Laws`,
`Base64Laws`, `HeapLaws`, `SerializerLaws`, `ConverterLaws`, `FormatLaws`, and `Learning` for the mixture) say
what they compute without using their names: ranges of bytes, alphabets, tables of type names, frequencies
of cases, the text of every value, and who gets which fault.

Where the code and its own comments or design part, the model follows the code:

* The encoder's copy loop says it takes digits, letters and the hyphen, but it also copies
  U+003A..U+003F and U+007B; other code points below 0x80 are neither copied nor encoded, and the outer loop
  then never ends (`Punycode.FinishesExactly`).
* PHP's UTF-8 reader refuses 0x110000..0x13FFFF but takes larger five- and six-byte forms
  (`Ucs4.RoundTrip`).
* Hangul composition takes 29 values as trailing consonants where the standard has 27: the value after
  the last one (`<=` at line 698) and the base itself (`0 <=`), with the effects that
  `Hangul.BeyondTrailing` shows. Lists whose neighbours would join, a leading consonant before a vowel
  among them, are composed on the way back under any Hangul composition
  (`Hangul.ComposeAfterDecompose` says which those are here).
* The number parser reads the empty text as 0 (`Numerals.AtoiAccepts`).
* The comment on signature lists shows `ii,s`; the code demands a colon after the result type
  (`Signatures.AcceptsExactly`).
* Pruning gives the zeroth component a sort key of 1 but then stores the zeroth weight at the front,
  whoever was sorted there (`NaiveBayes.PruneKeepsOwnWeights`, `NaiveBayes.PruneTie`).

## Model

| member | source | states |
|---|---|---|
| Punycode.RoundTrip | interface grafica/SimplePie/idn/idna_convert.class.php:361-514 | For every code-point list the encoder can finish on (no stuck code points), that does not begin with the prefix and holds at least one code point from 0x80 up: the encoder does not refuse it, its output is accepted by the decoder with a complete digit part, and decodes to exactly the input |
| Punycode.LockStep | interface grafica/SimplePie/idn/idna_convert.class.php:474-513 | Encoder position (current code, scan index, delta) and decoder state (text, bias, index, code, first flag) stay in step at every insertion: from any matching pair of states, replaying the remaining deltas rebuilds the whole input |
| Punycode.FinishesExactly | interface grafica/SimplePie/idn/idna_convert.class.php:479-512 | The outer loop finishes if and only if every code point is one the copy loop copies or lies in 0x80..0x10FFFF, or 0x10FFFF itself occurs (its repeated rescans inflate the count) |
| Punycode.AdmissibleFinishes | interface grafica/SimplePie/idn/idna_convert.class.php:479-512 | On admissible input every pass counts at least one more code point, and the count is exactly the number of code points below the current code |
| Punycode.StuckNeverFinishes | interface grafica/SimplePie/idn/idna_convert.class.php:479-512 | With a stuck code point and no 0x10FFFF, after any number of passes the count is below the length: the loop never ends |
| Punycode.LargestKeepsCounting | interface grafica/SimplePie/idn/idna_convert.class.php:479-512 | If 0x10FFFF occurs, n passes count at least n code points whatever else is in the input |
| Punycode.OuterLoop | interface grafica/SimplePie/idn/idna_convert.class.php:479-512 | The outer loop with its guard, on every input for which it ends: it stops after the first pass that brings the count up to the length, with the code point and count that the passes lead to |
| Punycode.StuckExample | interface grafica/SimplePie/idn/idna_convert.class.php:458-512 | A concrete input, an exclamation mark before U+00FC, that is not refused and on which the loop never ends |
| Punycode.Encode | interface grafica/SimplePie/idn/idna_convert.class.php:420-514 | Refuses exactly the inputs that begin with the prefix, hold nothing above 0x7A, or are empty; otherwise returns the reference encoding, whose deltas come from stepping the code point one at a time with no skipping |
| Punycode.EncodeExtended | interface grafica/SimplePie/idn/idna_convert.class.php:474-513 | The skipping loop emits exactly the digit strings of the deltas that the one-code-point-at-a-time reference gives |
| Punycode.Advance | interface grafica/SimplePie/idn/idna_convert.class.php:479-489 | Jumping to the next present code point and adding (next - current) * (count + 1) to delta leaves the remaining deltas unchanged; the code point reached occurs in the input |
| Punycode.FindNext | interface grafica/SimplePie/idn/idna_convert.class.php:482-486 | Finds the least code point present that is not below the current one, or 0x10FFFF when there is none |
| Punycode.ScanFor | interface grafica/SimplePie/idn/idna_convert.class.php:491-511 | One scan for the current code emits its part of the delta stream and leaves delta, count, bias and first flag so that the rest of the stream is what was still to come |
| Punycode.CopyBasic | interface grafica/SimplePie/idn/idna_convert.class.php:455-464 | Copies exactly the code points of the four accepted ranges, in order |
| Punycode.EmitInteger | interface grafica/SimplePie/idn/idna_convert.class.php:496-503 | The loop over a real-valued q that is never floored emits the same digits as the integer-division algorithm of section 6.3 of RFC 3492, for every delta and bias |
| Punycode.UnflooredStep | interface grafica/SimplePie/idn/idna_convert.class.php:496-503 | Subtracting t and dividing by 36 - t in the reals, then taking the integer part, equals doing so on integer parts |
| Punycode.FloorOfQuotient | interface grafica/SimplePie/idn/idna_convert.class.php:496-503 | A real quotient y with n <= y*m < n+1 has the integer part n/m: a fractional remainder never changes the next digit |
| Punycode.SelfDelimiting | interface grafica/SimplePie/idn/idna_convert.class.php:393-400 | Variable-length integers are self-delimiting: reading the digits of q followed by any suffix, at any weight and threshold position, yields q times the weight and consumes exactly the digits of q |
| Punycode.ReadDelta | interface grafica/SimplePie/idn/idna_convert.class.php:393-400 | The read loop over $idx, $w and $k computes the generalised integer at the cursor and stops just past its last digit |
| Punycode.Adapt | interface grafica/SimplePie/idn/idna_convert.class.php:520-528 | The bias loop computes the adapted bias of section 6.1 of RFC 3492 (closed recursive form) with the truncations placed where the code has them |
| PunycodeLaws.BiasIs | interface grafica/SimplePie/idn/idna_convert.class.php:520-528 | In numbers: delta is divided by 700 the first time and by 2 later, its part per point is added, and with n the least number of divisions by 35 that bring this to at most 455, and e what is left, the bias is 36 n + 36 e / (e + 38) |
| PunycodeLaws.DividedIs | interface grafica/SimplePie/idn/idna_convert.class.php:524-526 | n divisions by 35 in a row, each rounded down, are one division by the n-th power of 35 |
| PunycodeLaws.ThresholdIs | interface grafica/SimplePie/idn/idna_convert.class.php:497-498 | The threshold is k - bias, but at least 1 and at most 26 |
| PunycodeLaws.DigitsAre | interface grafica/SimplePie/idn/idna_convert.class.php:534-547 | The letters in either case are the digits 0 to 25, and the figures those from 26 to 35; these are all the digits there are, and small letters are written |
| PunycodeLaws.IntegerIs | interface grafica/SimplePie/idn/idna_convert.class.php:393-400 | The read loop takes the digits up to the first one below its threshold and returns their sum, each times the product of 36 - t over the digits before it; and only then does it return something |
| PunycodeLaws.InsertIs | interface grafica/SimplePie/idn/idna_convert.class.php:401-411 | One insertion: code and place are quotient and remainder of index plus delta by the number of places, and the next index is one further |
| PunycodeLaws.StartsAt | interface grafica/SimplePie/idn/idna_convert.class.php:386-390 | The decoder starts with bias 72, index 0 and code point 128 |
| PunycodeLaws.PartsAre | interface grafica/SimplePie/idn/idna_convert.class.php:374-382 | A name is cut at its last hyphen: the characters after the prefix before it, when it is beyond the prefix, and the digits after it |
| PunycodeLaws.GuardsAre | interface grafica/SimplePie/idn/idna_convert.class.php:361-373 | What the decoder rejects, what the encoder refuses and which code points it copies, character by character |
| PunycodeLaws.DeltaOfFirst | interface grafica/SimplePie/idn/idna_convert.class.php:482-509 | The delta of the first occurrence of a code point: so many states for each code point passed over as there are places among the smaller ones, and one for each smaller one before it |
| PunycodeLaws.DeltaOfNext | interface grafica/SimplePie/idn/idna_convert.class.php:492-509 | The delta of each further occurrence is the number of smaller code points since the last one |
| PunycodeLaws.DeltaAfterLast | interface grafica/SimplePie/idn/idna_convert.class.php:492-511 | After the last occurrence each smaller code point that follows counts one, and so does moving to the next code point |
| PunycodeLaws.UmlautsEncoded | interface grafica/SimplePie/idn/idna_convert.class.php:420-514 | The list 0xE4, 0xF6, 0xFC is not refused and its encoding is xn--4ca0bs, letter by letter |
| Punycode.InsertAt | interface grafica/SimplePie/idn/idna_convert.class.php:405-411 | Shifting the tail one place and storing the code equals splicing it in at the index |
| Punycode.InsertNext | interface grafica/SimplePie/idn/idna_convert.class.php:401-411 | One decoder step (adapt, advance code by the quotient, wrap the index, insert) as a step of the abstract decoder |
| Punycode.DecodeDigits | interface grafica/SimplePie/idn/idna_convert.class.php:392-412 | The insertion loop returns the text of the abstract decoder run over all digits |
| Punycode.Decode | interface grafica/SimplePie/idn/idna_convert.class.php:361-414 | Rejects exactly what lacks the prefix or has nothing (or only "0") after it; otherwise splits at the last hyphen and returns the text the digits rebuild |
| Ucs4.RoundTrip | interface grafica/SimplePie/idn/idna_convert.class.php:805-910 | Converting code points to UTF-8 and back gives the same list if and only if every one is below 2^31 and none lies in 0x110000..0x13FFFF |
| Ucs4.RunPoints | interface grafica/SimplePie/idn/idna_convert.class.php:805-875 | From any state between characters, scanning the UTF-8 of a list appends exactly that list when every point is restorable and fails otherwise |
| Ucs4.RunPoint | interface grafica/SimplePie/idn/idna_convert.class.php:805-875 | One code point in any of the six lengths is read back exactly when it is restorable; otherwise the second-byte range test fails |
| Ucs4.Utf8ToUcs4 | interface grafica/SimplePie/idn/idna_convert.class.php:805-875 | The byte loop with its mode, range test and shift counter computes the scanner specification, error positions included |
| Ucs4.Ucs4ToUtf8 | interface grafica/SimplePie/idn/idna_convert.class.php:882-910 | The conversion loop concatenates the encodings of the code points and fails exactly when one is 2^31 or more |
| Utf8Laws.StartIs | interface grafica/SimplePie/idn/idna_convert.class.php:813-852 | Between characters: ASCII is taken as it is, 0xC0..0xFD starts a character of two to six bytes, and everything else is not understood |
| Utf8Laws.FollowIs | interface grafica/SimplePie/idn/idna_convert.class.php:815-871 | Inside a character: ASCII is malformed; after 0xE0, 0xF0 and 0xF4 the second byte is limited; 0x80..0xBF adds its six bits at their place; the rest is malformed |
| Hangul.ComposeAfterDecompose | interface grafica/SimplePie/idn/idna_convert.class.php:649-711 | Composing the concatenated decompositions gives the list back if and only if no neighbouring pair of the original would itself be joined |
| Hangul.SyllablesSurvive | interface grafica/SimplePie/idn/idna_convert.class.php:649-711 | In particular, composing the decompositions of any list of Hangul syllables gives that list back |
| Hangul.BeyondTrailing | interface grafica/SimplePie/idn/idna_convert.class.php:694-705 | The two values taken as trailing consonants that the standard does not have: the one after the last turns a syllable into the next syllable, and the base itself is swallowed; no syllable decomposes into either |
| Hangul.SyllableParts | interface grafica/SimplePie/idn/idna_convert.class.php:649-661 | 0xAC00 + (l * 21 + v) * 28 + t falls apart into 0x1100 + l, 0x1161 + v and, for t > 0, 0x11A7 + t |
| Hangul.OthersStay | interface grafica/SimplePie/idn/idna_convert.class.php:649-654 | What is outside 0xAC00..0xD7A3 stays as it is |
| Hangul.JoinsAre | interface grafica/SimplePie/idn/idna_convert.class.php:681-705 | Which neighbours are joined, as ranges, and into which syllable |
| Hangul.ComposedLength | interface grafica/SimplePie/idn/idna_convert.class.php:670-711 | A join at the front of a list loses a place that composition never regains (the half that makes the condition above necessary) |
| Hangul.Compose | interface grafica/SimplePie/idn/idna_convert.class.php:670-711 | The loop over $last and the result array computes the recursive composition |
| CanonicalOrdering.CanonicalMeaning | interface grafica/SimplePie/idn/idna_convert.class.php:730-755 | For every combining-class function the result has the same length, no adjacent pair with left class above a nonzero right class, the same multiset, each class in its original order (stability), and every starter in its place |
| CanonicalOrdering.OrderedIs | interface grafica/SimplePie/idn/idna_convert.class.php:739 | Ordered means that the right class of a neighbouring pair is zero or not below the left one |
| CanonicalOrdering.StarterSplits | interface grafica/SimplePie/idn/idna_convert.class.php:730-755 | Nothing crosses a starter: what stands before it and what stands from it on are ordered by themselves |
| CanonicalOrdering.ApplyCanonicalOrdering | interface grafica/SimplePie/idn/idna_convert.class.php:730-755 | The repeat-until-no-swap loop terminates and leaves in the array the canonical form of what it held |
| CanonicalOrdering.Pass | interface grafica/SimplePie/idn/idna_convert.class.php:736-752 | One pass keeps the canonical form, leaves the array ordered, and reports no swap when it was ordered already |
| CanonicalOrdering.MoveLeft | interface grafica/SimplePie/idn/idna_convert.class.php:741-747 | Moving one item leftward until it fits keeps the canonical form and extends the ordered prefix |
| CanonicalOrdering.ExchangeKeepsCanonical | interface grafica/SimplePie/idn/idna_convert.class.php:741-747 | Exchanging any reorderable adjacent pair leaves the canonical form unchanged |
| CanonicalOrdering.OrderedIsCanonical | interface grafica/SimplePie/idn/idna_convert.class.php:730-755 | An ordered list is its own canonical form, so the loop may stop there |
| Utf8Codec.DecodesExactly | servidor xmlrpc/xmlrpc-c-1.06.11/src/xmlrpc_utf8.c:134-368 | A byte string decodes to a list if and only if the list has only code points up to 0xFFFD that are not surrogates and encodes to that byte string |
| Utf8Laws.AcceptsExactly | servidor xmlrpc/xmlrpc-c-1.06.11/src/xmlrpc_utf8.c:134-245 | In numbers: a byte string decodes to a list exactly when every element is at most 0xD7FF or in 0xE000..0xFFFD and the string is the concatenation of their groups: one byte below 0x80, 0xC2..0xDF and one continuation byte, or 0xE0..0xEF and two of them in shortest form, with the value these bytes spell |
| Utf8Laws.EncodesExactly | servidor xmlrpc/xmlrpc-c-1.06.11/src/xmlrpc_utf8.c:311-368 | A wide text is encoded exactly when no character is above 0xFFFF, as the concatenation of those groups |
| Utf8Codec.DecodeSound | servidor xmlrpc/xmlrpc-c-1.06.11/src/xmlrpc_utf8.c:134-245 | Whatever is accepted decodes to legal code points that encode back to the same bytes (no overlong form, no second spelling) |
| Utf8Codec.DecodeComplete | servidor xmlrpc/xmlrpc-c-1.06.11/src/xmlrpc_utf8.c:134-368 | Every list of legal code points encodes, and decodes back to itself |
| Utf8Codec.DecodeUtf8 | servidor xmlrpc/xmlrpc-c-1.06.11/src/xmlrpc_utf8.c:134-245 | With or without an output buffer the index loop returns the specified result or fault; a buffer as long as the input is never overrun and holds exactly the characters |
| Utf8Codec.ValidateUtf8 | servidor xmlrpc/xmlrpc-c-1.06.11/src/xmlrpc_utf8.c:255-261 | Faults exactly when decoding does, with the same fault |
| Utf8Codec.Utf8ToWcs | servidor xmlrpc/xmlrpc-c-1.06.11/src/xmlrpc_utf8.c:265-301 | Allocates one element per byte, never overruns it, and trims to the decoded characters |
| Utf8Codec.WriteOne | servidor xmlrpc/xmlrpc-c-1.06.11/src/xmlrpc_utf8.c:336-351 | Writes the one, two or three bytes of a character at the write position and nothing before it |
| Utf8Codec.WcsToUtf8 | servidor xmlrpc/xmlrpc-c-1.06.11/src/xmlrpc_utf8.c:311-368 | Within three bytes a character, the loop builds the encoding and faults exactly on a character above 0xFFFF |
| Utf8Codec.EncodeEnded | servidor xmlrpc/xmlrpc-c-1.06.11/src/xmlrpc_builddecomp.c:92-117 | Converting a wide text together with its NUL gives the encoding of the text followed by a NUL, or the same fault |
| Utf8Codec.DecodeEnded | servidor xmlrpc/xmlrpc-c-1.06.11/src/xmlrpc_data.c:360-376 | Decoding a text together with its NUL gives the characters of the text followed by a NUL, and faults exactly when the text alone does |
| Utf8Codec.EncodeInjective | servidor xmlrpc/xmlrpc-c-1.06.11/src/xmlrpc_data.c:360-376 | No two wide texts, surrogates included, have the same encoding: the wide characters a value remembers are the ones its text decodes to, whenever it decodes |
| Base64.RoundTrip | servidor xmlrpc/xmlrpc-c-1.06.11/src/xmlrpc_base64.c:95-266 | For every byte string, with or without line breaks: any text whose significant characters are those of the encoding (ignored characters interspersed anywhere) decodes to the original |
| Base64Laws.LettersDecode | servidor xmlrpc/xmlrpc-c-1.06.11/src/xmlrpc_base64.c:95-266 | The same with a filter of its own: any text that has the letters of an encoding, once every character is dropped that is not A-Z, a-z, 0-9, plus, slash or the equals sign, decodes to what was encoded |
| Base64Laws.SymbolIs | servidor xmlrpc/xmlrpc-c-1.06.11/src/xmlrpc_base64.c:92-93 | The alphabet: capital letters, small letters, figures, plus and slash, in this order |
| Base64Laws.SignificantIs | servidor xmlrpc/xmlrpc-c-1.06.11/src/xmlrpc_base64.c:65-86 | The decoder takes exactly those 64 letters, each with its place in the alphabet, and the equals sign as zero |
| Base64Laws.SextetsAre | servidor xmlrpc/xmlrpc-c-1.06.11/src/xmlrpc_base64.c:131-150 | Each three bytes give four sextets with the same 24 bits; one or two last bytes give two or three, zero filled |
| Base64Laws.OctetsAre | servidor xmlrpc/xmlrpc-c-1.06.11/src/xmlrpc_base64.c:233-243 | Each four sextets give three bytes with the same 24 bits |
| Base64Laws.PaddingIs | servidor xmlrpc/xmlrpc-c-1.06.11/src/xmlrpc_base64.c:143-150 | One equals sign for each byte that is missing of the last three |
| Base64Laws.LinesAre | servidor xmlrpc/xmlrpc-c-1.06.11/src/xmlrpc_base64.c:113-162 | Lines of 57 bytes with CR and LF after each if wanted, and a lone line ending for no data |
| Base64Laws.AcceptsExactly | servidor xmlrpc/xmlrpc-c-1.06.11/src/xmlrpc_base64.c:246-256 | A text is accepted exactly when its letters come in fours and at most two of them are equals signs, no more than there are bytes; it is then as many bytes long, less one for each equals sign |
| Base64.KeptEncoding | servidor xmlrpc/xmlrpc-c-1.06.11/src/xmlrpc_base64.c:95-171 | The line breaks are all that the decoder drops from an encoding: what is kept is the one unbroken padded line |
| Base64.Encode | servidor xmlrpc/xmlrpc-c-1.06.11/src/xmlrpc_base64.c:95-171 | The chunk loop produces the lines of 57 bytes each with CRLF when asked for, and a lone CRLF (or nothing) for empty data |
| Base64.EncodeLine | servidor xmlrpc/xmlrpc-c-1.06.11/src/xmlrpc_base64.c:121-161 | One line through the 128-byte buffer: symbols of the 6-bit groups, padding, CRLF, never past the buffer |
| Base64.FeedLine | servidor xmlrpc/xmlrpc-c-1.06.11/src/xmlrpc_base64.c:131-142 | The byte loop with the wrapping accumulator leaves, with the bits pending, the line's 6-bit groups |
| Base64.FeedByte | servidor xmlrpc/xmlrpc-c-1.06.11/src/xmlrpc_base64.c:131-142 | Adding one byte emits just the groups it completes |
| Base64.Drain | servidor xmlrpc/xmlrpc-c-1.06.11/src/xmlrpc_base64.c:137-141 | The inner loop writes every complete group held in the accumulator and keeps the remaining bits |
| Base64.Flush | servidor xmlrpc/xmlrpc-c-1.06.11/src/xmlrpc_base64.c:143-150 | Writes the last partial group, zero filled, and two, one or no padding characters |
| Base64.FeedIsSextets | servidor xmlrpc/xmlrpc-c-1.06.11/src/xmlrpc_base64.c:131-150 | The bit stream regrouped step by step equals the 6-bit groups of the bytes taken three at a time |
| Base64.ShiftIn | servidor xmlrpc/xmlrpc-c-1.06.11/src/xmlrpc_base64.c:132-134 | The accumulator wraps at 32 bits without harming the bits that are still pending |
| Base64.DrainStep | servidor xmlrpc/xmlrpc-c-1.06.11/src/xmlrpc_base64.c:137-141 | What the inner loop takes from the wrapped accumulator are the mathematical groups |
| Base64.LineShape | servidor xmlrpc/xmlrpc-c-1.06.11/src/xmlrpc_base64.c:88-171 | A line of at most 57 bytes has at most 76 characters (exactly 76 when full), and its padding are its last characters, none on a full line |
| Base64.PadsAtEnd | servidor xmlrpc/xmlrpc-c-1.06.11/src/xmlrpc_base64.c:95-171 | In the whole output, of any length and with or without line endings, a character is a pad exactly when it is among the last one or two before the final line ending, as many as the data length calls for |
| Base64.Decode | servidor xmlrpc/xmlrpc-c-1.06.11/src/xmlrpc_base64.c:190-266 | Accepts exactly when no bits are left over and the padding count is at most two and at most the bytes found; returns the octets less the padding, or the parse fault |
| Base64.DecodeCharacters | servidor xmlrpc/xmlrpc-c-1.06.11/src/xmlrpc_base64.c:207-244 | Every write is inside the estimated buffer ((n+3)/4)*3; the bytes written are the octets of the significant characters; bits are left over exactly when their number is not a multiple of four |
| Base64.AbsorbOne | servidor xmlrpc/xmlrpc-c-1.06.11/src/xmlrpc_base64.c:233-243 | Shifting one 6-bit value in writes at most one byte and keeps the rest pending |
| Base64.AbsorbShift | servidor xmlrpc/xmlrpc-c-1.06.11/src/xmlrpc_base64.c:235-241 | The 32-bit shift and mask agree with the mathematical regrouping into bytes |
| HeapState.LiveExactlyHeld | servidor xmlrpc/xmlrpc-c-1.06.11/src/xmlrpc_data.c:84-108 | In every state the operations reach, the live values are exactly those reachable from an outside reference |
| HeapState.Determined | servidor xmlrpc/xmlrpc-c-1.06.11/src/xmlrpc_data.c:84-108 | Outside references and contents fix everything: two states agreeing on both have the same live values with the same reference counts |
| HeapLaws.CountIs | servidor xmlrpc/xmlrpc-c-1.06.11/src/xmlrpc_data.c:84-108 | Spelled out: a live value's count is positive and is the outside references to it plus the times it is mentioned as an item, a key or a member's value in live values; what is gone is neither referred to nor mentioned |
| HeapState.SurvivorsAreReachable | servidor xmlrpc/xmlrpc-c-1.06.11/src/xmlrpc_data.c:84-108 | After giving references up, what is left is exactly what the remaining outside references reached before |
| HeapState.ReleaseConsistent | servidor xmlrpc/xmlrpc-c-1.06.11/src/xmlrpc_data.c:95-103 | Dropping one of several references keeps count = outside references + occurrences in containers |
| HeapState.DestroyConsistent | servidor xmlrpc/xmlrpc-c-1.06.11/src/xmlrpc_data.c:102-108 | Dropping the last reference turns the container's own references into references the cascade must give up, and keeps the books balanced |
| HeapState.FreeConsistent | servidor xmlrpc/xmlrpc-c-1.06.11/src/xmlrpc_data.c:67-73 | Freeing an emptied value keeps every count right and leaves no reference dangling |
| HeapState.RetainConsistent | servidor xmlrpc/xmlrpc-c-1.06.11/src/xmlrpc_data.c:84-91 | Taking a reference keeps every count right |
| HeapState.AllocateConsistent | servidor xmlrpc/xmlrpc-c-1.06.11/src/xmlrpc_data.c:601-618 | A new value with count one, held by its creator, keeps every count right |
| HeapState.TransferConsistent | servidor xmlrpc/xmlrpc-c-1.06.11/src/xmlrpc_struct.c:507-529 | Moving references between the caller and a container (gained and dropped) keeps every count right |
| HeapState.ChildIsLive | servidor xmlrpc/xmlrpc-c-1.06.11/src/xmlrpc_data.c:84-108 | Nothing reachable from a live container has been freed |
| HeapState.AttachAcyclic | servidor xmlrpc/xmlrpc-c-1.06.11/src/xmlrpc_array.c:100-123 | Putting values into a container leaves the heap acyclic if and only if none of them reaches the container |
| HeapState.WithMemberUpdates | servidor xmlrpc/xmlrpc-c-1.06.11/src/xmlrpc_struct.c:484-533 | Setting a member is exactly a map update at its key, keys stay distinct and hashes right, over any member list |
| HeapState.LookupAtPosition | servidor xmlrpc/xmlrpc-c-1.06.11/src/xmlrpc_struct.c:150-178 | The position the hash-filtered search finds gives the map's value at the key, or nothing when the key is absent |
| HeapLaws.LookupIs | servidor xmlrpc/xmlrpc-c-1.06.11/src/xmlrpc_struct.c:274-314 | A key is found with a value exactly when some member has the two |
| HeapLaws.WithMemberIs | servidor xmlrpc/xmlrpc-c-1.06.11/src/xmlrpc_struct.c:507-529 | A key that is there keeps its place, its hash and its key object and gets the value; a new one is added at the end |
| HeapLaws.MembersAre | servidor xmlrpc/xmlrpc-c-1.06.11/src/xmlrpc_struct.c:125-141 | Keys are strings, no key occurs twice, and each hash is the sum of the key's bytes modulo 256 |
| ValueHeap.Heap.constructor | servidor xmlrpc/xmlrpc-c-1.06.11/src/xmlrpc_data.c:601-618 | A heap with nothing live and nothing held satisfies the invariant |
| ValueHeap.Heap.Create | servidor xmlrpc/xmlrpc-c-1.06.11/src/xmlrpc_data.c:601-618 | A fresh value with count one that its creator holds; nothing else changes |
| ValueHeap.Heap.IncRef | servidor xmlrpc/xmlrpc-c-1.06.11/src/xmlrpc_data.c:84-91 | One more count and one more outside reference; no contents change |
| ValueHeap.Heap.DecRef | servidor xmlrpc/xmlrpc-c-1.06.11/src/xmlrpc_data.c:95-108 | Terminates; exactly one outside reference is given up; what stays alive keeps its contents, what goes was below the value in the acyclic order, and nothing is freed while other references remain |
| ValueHeap.Heap.DestroyValue | servidor xmlrpc/xmlrpc-c-1.06.11/src/xmlrpc_data.c:19-73 | Gives up every reference the value owned, through nested containers, then frees it |
| ValueHeap.Heap.DestroyArrayContents | servidor xmlrpc/xmlrpc-c-1.06.11/src/xmlrpc_array.c:51-71 | Gives up exactly the array's item references, counted with repetition |
| ValueHeap.Heap.DestroyStruct | servidor xmlrpc/xmlrpc-c-1.06.11/src/xmlrpc_struct.c:39-53 | Gives up exactly the key and value references of the members |
| ValueHeap.Heap.ArrayAppendItem | servidor xmlrpc/xmlrpc-c-1.06.11/src/xmlrpc_array.c:100-123 | The item is added at the end, its count follows, nothing else changes; a type fault changes nothing |
| ValueHeap.Heap.ArrayReadItem | servidor xmlrpc/xmlrpc-c-1.06.11/src/xmlrpc_array.c:128-156 | Type fault, index fault or the item with a reference for the caller |
| ValueHeap.Heap.ArrayGetItem | servidor xmlrpc/xmlrpc-c-1.06.11/src/xmlrpc_array.c:161-180 | Index, type fault or the item, borrowed: taking and returning its reference restores the heap exactly |
| ValueHeap.Heap.GetHash | servidor xmlrpc/xmlrpc-c-1.06.11/src/xmlrpc_struct.c:126-138 | The loop computes the 8-bit hash, the sum of the key bytes modulo 256 |
| HeapLaws.HashIs | servidor xmlrpc/xmlrpc-c-1.06.11/src/xmlrpc_struct.c:126-138 | The hash is the sum of the key's bytes modulo 256 |
| ValueHeap.Heap.FindMember | servidor xmlrpc/xmlrpc-c-1.06.11/src/xmlrpc_struct.c:150-178 | The hash-filtered scan finds the position of the key, -1 when absent, as a plain search by key would |
| ValueHeap.Heap.FindValueNoRef | servidor xmlrpc/xmlrpc-c-1.06.11/src/xmlrpc_struct.c:274-314 | Type fault, or the map lookup of the key |
| ValueHeap.Heap.StructReadValue | servidor xmlrpc/xmlrpc-c-1.06.11/src/xmlrpc_struct.c:343-358 | Type fault, index fault for a missing key, or the value with a reference for the caller |
| ValueHeap.Heap.StructReadMember | servidor xmlrpc/xmlrpc-c-1.06.11/src/xmlrpc_struct.c:542-575 | Key and value of a member, each with a reference for the caller |
| ValueHeap.Heap.StructGetKeyAndValue | servidor xmlrpc/xmlrpc-c-1.06.11/src/xmlrpc_struct.c:580-610 | Index, type fault or a member's key and value, borrowed: the heap is exactly as before |
| ValueHeap.Heap.ReplaceMember | servidor xmlrpc/xmlrpc-c-1.06.11/src/xmlrpc_struct.c:507-518 | The new value replaces the old one at its place, also when they are the same value; the old one's cascade frees nothing that is still in use |
| ValueHeap.Heap.AddMember | servidor xmlrpc/xmlrpc-c-1.06.11/src/xmlrpc_struct.c:519-529 | A member is appended with its hash; key and value each gain a count |
| ValueHeap.Heap.StructSetValue | servidor xmlrpc/xmlrpc-c-1.06.11/src/xmlrpc_struct.c:484-533 | Type fault with nothing changed, or the member set with all other contents and the outside references as before |
| Denotation.ValueAtDenotes | servidor xmlrpc/xmlrpc-c-1.06.11/src/xmlrpc_data.c:84-108 | Every live heap value stands for a finite tree |
| Denotation.DenotesOne | servidor xmlrpc/xmlrpc-c-1.06.11/src/xmlrpc_data.c:84-108 | A live heap value stands for at most one tree, so what a value means is determined by the cells |
| Denotation.DenotesApart | servidor xmlrpc/xmlrpc-c-1.06.11/src/xmlrpc_parse.c:279-363 | A value built entirely from addresses above a container cannot reach it, so appending it makes no cycle |
| Numerals.AtoiAccepts | servidor xmlrpc/xmlrpc-c-1.06.11/src/xmlrpc_parse.c:92-137 | The number parser succeeds if and only if the text is empty (read as 0) or an optional sign with decimal digits only, in range; and then yields the signed number |
| Numerals.AtoiReadsDecimal | servidor xmlrpc/xmlrpc-c-1.06.11/src/xmlrpc_parse.c:92-137 | Every in-range integer printed in decimal is read back as itself |
| ConverterLaws.AtoiIs | servidor xmlrpc/xmlrpc-c-1.06.11/src/xmlrpc_parse.c:92-137 | A text is read as i exactly when i is within the limits and the text is empty with i = 0, or figures with at most one sign before them whose places add up to i; everything else is a parse error |
| ConverterLaws.CStringIs | servidor xmlrpc/xmlrpc-c-1.06.11/src/xmlrpc_parse.c:437-450 | The text that counts ends before the first NUL |
| XmlText.EscapedSize | servidor xmlrpc/xmlrpc-c-1.06.11/src/xmlrpc_serialize.c:88-107 | The counting loop returns the exact length of the escaped text |
| XmlText.EscapeForXml | servidor xmlrpc/xmlrpc-c-1.06.11/src/xmlrpc_serialize.c:111-165 | The buffer of that size is filled exactly with the escaped text |
| XmlText.EscapeRoundTrip | servidor xmlrpc/xmlrpc-c-1.06.11/src/xmlrpc_serialize.c:111-165 | Escaped text contains no angle bracket and unescapes to the original, for every byte string |
| SerializerLaws.EscapeIs | servidor xmlrpc/xmlrpc-c-1.06.11/src/xmlrpc_serialize.c:111-165 | The three references for the characters less-than, greater-than and ampersand; every other character stands for itself |
| XmlTree.ChunkingDoesNotMatter | servidor xmlrpc/xmlrpc-c-1.06.11/src/xmlrpc_expat.c:241-340 | However text is cut into nonempty chunks, the handlers build exactly the element tree of the document |
| XmlTree.RunTag | servidor xmlrpc/xmlrpc-c-1.06.11/src/xmlrpc_expat.c:241-320 | From any stack of open elements, the events of a nested element leave the stack as it was with the finished element added to the parent |
| XmlTree.RunSingles | servidor xmlrpc/xmlrpc-c-1.06.11/src/xmlrpc_expat.c:325-340 | Delivering text byte by byte has the same effect as in chunks |
| SerializerLaws.StepsAre | servidor xmlrpc/xmlrpc-c-1.06.11/src/xmlrpc_expat.c:241-340 | What each event does to the innermost open element and its parent: text and children are added at the end |
| XmlTree.ParseContext.constructor | servidor xmlrpc/xmlrpc-c-1.06.11/src/xmlrpc_expat.c:345-373 | Parsing starts with no root and nothing open |
| XmlTree.ParseContext.StartElement | servidor xmlrpc/xmlrpc-c-1.06.11/src/xmlrpc_expat.c:241-286 | On the linked elements with parent pointers, opening an element is one step of the stack of open elements |
| XmlTree.ParseContext.EndElement | servidor xmlrpc/xmlrpc-c-1.06.11/src/xmlrpc_expat.c:291-320 | Closing moves the current pointer to the parent, which holds the finished child last |
| XmlTree.ParseContext.CharacterData | servidor xmlrpc/xmlrpc-c-1.06.11/src/xmlrpc_expat.c:325-340 | Text is appended to the current element only |
| XmlTree.ParseContext.HandleEvents | servidor xmlrpc/xmlrpc-c-1.06.11/src/xmlrpc_expat.c:241-340 | Any accepted event list runs the handlers through the abstract run, element by element |
| XmlTree.Parse | servidor xmlrpc/xmlrpc-c-1.06.11/src/xmlrpc_expat.c:389-454 | After the events of a document in any chunking, the root pointer leads to exactly the document's element tree |
| Serializer.RenderScalar | servidor xmlrpc/xmlrpc-c-1.06.11/src/xmlrpc_serialize.c:300-380 | The text written for a scalar is the rendering of its markup, escaping included (escaping changes nothing in numbers and Base64) |
| SerializerLaws.IntegerSpelled | servidor xmlrpc/xmlrpc-c-1.06.11/src/xmlrpc_serialize.c:296-307 | The text of an integer, tags and all |
| SerializerLaws.BooleanSpelled | servidor xmlrpc/xmlrpc-c-1.06.11/src/xmlrpc_serialize.c:309-314 | The text of a boolean is 1 or 0 in its tags |
| SerializerLaws.DoubleSpelled | servidor xmlrpc/xmlrpc-c-1.06.11/src/xmlrpc_serialize.c:316-319 | The text of a double is what the C library prints, in its tags |
| SerializerLaws.StringSpelled | servidor xmlrpc/xmlrpc-c-1.06.11/src/xmlrpc_serialize.c:321-327 | The text of a string is the escaped text in its tags |
| SerializerLaws.DateTimeSpelled | servidor xmlrpc/xmlrpc-c-1.06.11/src/xmlrpc_serialize.c:363-369 | The text of a date is its escaped stamp in its tags |
| SerializerLaws.BytesSpelled | servidor xmlrpc/xmlrpc-c-1.06.11/src/xmlrpc_serialize.c:352-361 | The text of bytes is a line ending and their Base64 encoding with line endings, in its tags |
| SerializerLaws.NilSpelled | servidor xmlrpc/xmlrpc-c-1.06.11/src/xmlrpc_serialize.c:377-380 | The text of nil |
| SerializerLaws.ArraySpelled | servidor xmlrpc/xmlrpc-c-1.06.11/src/xmlrpc_serialize.c:329-346 | The text of an array: each item followed by a line ending, in order, inside array and data |
| SerializerLaws.StructSpelled | servidor xmlrpc/xmlrpc-c-1.06.11/src/xmlrpc_serialize.c:239-272 | The text of a struct: each member with its escaped name and its value, in order, line endings where the serializer puts them |
| SerializerLaws.DecimalIs | servidor xmlrpc/xmlrpc-c-1.06.11/src/xmlrpc_serialize.c:302-307 | A number is written with figures whose places add up to it, no zero in front, and a minus sign if negative |
| Serializer.SerializeScalar | servidor xmlrpc/xmlrpc-c-1.06.11/src/xmlrpc_serialize.c:300-380 | Appends that rendering, or faults for a C pointer |
| Serializer.SerializeValue | servidor xmlrpc/xmlrpc-c-1.06.11/src/xmlrpc_serialize.c:283-401 | Walking the heap value appends exactly the rendered markup of the tree it stands for, or faults if a C pointer is inside; the heap, counts included, is left as it was |
| Serializer.SerializeItems | servidor xmlrpc/xmlrpc-c-1.06.11/src/xmlrpc_serialize.c:329-346 | The item loop appends the array's text, items in order |
| Serializer.SerializeStruct | servidor xmlrpc/xmlrpc-c-1.06.11/src/xmlrpc_serialize.c:239-272 | The member loop appends the struct's text, members in order, each borrowed key and value given back |
| Converter.RoundTrip | servidor xmlrpc/xmlrpc-c-1.06.11/src/xmlrpc_parse.c:252-483 | For every storable value and any chunking of the text: serialised events fed to the tree handlers and converted return the same value, struct order kept, if and only if its depth is at most the limit and its strings and keys are valid UTF-8; otherwise conversion faults |
| Converter.RoundTripValue | servidor xmlrpc/xmlrpc-c-1.06.11/src/xmlrpc_parse.c:381-483 | Converting the element tree of a storable value returns the value if its depth fits the limit and its text is valid UTF-8, and faults otherwise |
| Converter.ItemsBack | servidor xmlrpc/xmlrpc-c-1.06.11/src/xmlrpc_parse.c:276-288 | The item list comes back whole exactly when every item survives one level deeper |
| Converter.EntriesBack | servidor xmlrpc/xmlrpc-c-1.06.11/src/xmlrpc_parse.c:330-363 | Members with distinct keys come back in order, after whatever members are there already |
| Converter.ScalarBack | servidor xmlrpc/xmlrpc-c-1.06.11/src/xmlrpc_parse.c:432-473 | Each scalar element converts back to its scalar; a string that is not UTF-8 faults |
| ConverterLaws.IntegerIs | servidor xmlrpc/xmlrpc-c-1.06.11/src/xmlrpc_parse.c:439-445 | An i4 element and an int element alike: accepted as i exactly when the text is a numeral for i in 32 bits; otherwise a parse error |
| ConverterLaws.BooleanIs | servidor xmlrpc/xmlrpc-c-1.06.11/src/xmlrpc_parse.c:448-452 | A boolean element is accepted exactly for numerals of 0 and 1; otherwise a parse error |
| ConverterLaws.StringIs | servidor xmlrpc/xmlrpc-c-1.06.11/src/xmlrpc_parse.c:446-447 | A string element is its text if that is valid UTF-8, and a fault otherwise |
| ConverterLaws.UntypedIs | servidor xmlrpc/xmlrpc-c-1.06.11/src/xmlrpc_parse.c:412-416 | A value without children is converted exactly as one that holds a string element with its text |
| ConverterLaws.Base64Is | servidor xmlrpc/xmlrpc-c-1.06.11/src/xmlrpc_parse.c:461-467 | A base64 element is what its text decodes to, or a parse error |
| ConverterLaws.OthersAre | servidor xmlrpc/xmlrpc-c-1.06.11/src/xmlrpc_parse.c:453-460 | The nil, date and double elements |
| ConverterLaws.RefusedShapes | servidor xmlrpc/xmlrpc-c-1.06.11/src/xmlrpc_parse.c:403-472 | A parse error for every other name, for more than one child, for typed elements with children, for arrays without exactly one data element, and at the nesting limit |
| ConverterLaws.ArrayIs | servidor xmlrpc/xmlrpc-c-1.06.11/src/xmlrpc_parse.c:253-299 | An array converts to a list exactly when each item converts to its element one level deeper |
| ConverterLaws.ItemsFault | servidor xmlrpc/xmlrpc-c-1.06.11/src/xmlrpc_parse.c:279-288 | If an item faults, the fault is that of the first item that does |
| ConverterLaws.MemberIs | servidor xmlrpc/xmlrpc-c-1.06.11/src/xmlrpc_parse.c:334-352 | A member needs two children, the first named name without children and with valid UTF-8 text, and the first named value, in either order |
| ConverterLaws.StructIs | servidor xmlrpc/xmlrpc-c-1.06.11/src/xmlrpc_parse.c:310-376 | A struct converts exactly when all its members do, and its entries are theirs put in one after the other |
| ConverterLaws.SetEntryIs | servidor xmlrpc/xmlrpc-c-1.06.11/src/xmlrpc_parse.c:354-356 | A key that comes again gets the later value in its first place |
| HeapConverter.ConvertValue | servidor xmlrpc/xmlrpc-c-1.06.11/src/xmlrpc_parse.c:381-483 | On every element tree and limit: on a fault the heap and the outside references are exactly as before (no leak); on success the only new outside reference is one to a value standing for the specified tree, and everything alive before is unchanged |
| HeapConverter.ConvertArray | servidor xmlrpc/xmlrpc-c-1.06.11/src/xmlrpc_parse.c:253-299 | An array converts to one new reference, or faults with the half-built array and all converted items freed and the heap as before |
| HeapConverter.ConvertStruct | servidor xmlrpc/xmlrpc-c-1.06.11/src/xmlrpc_parse.c:310-376 | A struct converts to one new reference, or faults with the half-built struct freed and the heap as before |
| HeapConverter.ConvertMember | servidor xmlrpc/xmlrpc-c-1.06.11/src/xmlrpc_parse.c:334-363 | One member: either the struct under construction gains the entry, or the fault leaves it as it was, key and value released |
| HeapConverter.ConvertParams | servidor xmlrpc/xmlrpc-c-1.06.11/src/xmlrpc_parse.c:495-549 | A parameter list converts to one new array, each parameter starting from the full nesting limit, or faults with the heap as before |
| ConverterLaws.ParamsAre | servidor xmlrpc/xmlrpc-c-1.06.11/src/xmlrpc_parse.c:517-538 | A parameter list converts to a list exactly when each child is a param element with one child that converts to its element |
| HeapConverter.StoreScalar | servidor xmlrpc/xmlrpc-c-1.06.11/src/xmlrpc_parse.c:432-473 | A converted scalar becomes one new value, a fault allocates nothing |
| HeapConverter.NewScalar | servidor xmlrpc/xmlrpc-c-1.06.11/src/xmlrpc_parse.c:201-211 | A scalar value allocated for the caller disturbs nothing alive |
| HeapConverter.GetChildByName | servidor xmlrpc/xmlrpc-c-1.06.11/src/xmlrpc_parse.c:65-82 | Finds the first child of that name, or none |
| HeapConverter.KeptWhileHeld | servidor xmlrpc/xmlrpc-c-1.06.11/src/xmlrpc_parse.c:290-298 | As long as every former outside reference is still held, every former value is still alive with its contents |
| HeapConverter.Undone | servidor xmlrpc/xmlrpc-c-1.06.11/src/xmlrpc_parse.c:290-298 | Once the outside references are back to the former ones the heap is exactly the former heap |
| HeapConverter.AbandonArray | servidor xmlrpc/xmlrpc-c-1.06.11/src/xmlrpc_parse.c:293-297 | Releasing the half-built array frees all that was built |
| HeapConverter.AbandonStruct | servidor xmlrpc/xmlrpc-c-1.06.11/src/xmlrpc_parse.c:370-374 | Releasing the half-built struct frees all that was built |
| FormatRoundTrip.RoundTrip | servidor xmlrpc/xmlrpc-c-1.06.11/src/xmlrpc_builddecomp.c:185-867 | For every well-formed nested format over all codes, with matching arguments and distinct struct keys (given by any code that makes a string): building uses up format and arguments; and decomposing what was built with the corresponding format returns the value arguments, both cursors at the end, when wide strings hold legal characters |
| FormatRoundTrip.Builds | servidor xmlrpc/xmlrpc-c-1.06.11/src/xmlrpc_builddecomp.c:329-436 | Followed by anything, a well-formed format builds the intended value and stops exactly at the end of its own format and arguments |
| FormatRoundTrip.Takes | servidor xmlrpc/xmlrpc-c-1.06.11/src/xmlrpc_builddecomp.c:713-867 | Followed by anything, the decompose format returns the value arguments and stops exactly at its own end |
| FormatRoundTrip.WideTakes | servidor xmlrpc/xmlrpc-c-1.06.11/src/xmlrpc_data.c:381-402 | The encoding of legal wide characters is read back as those characters, with w# always and with w when there is no NUL among them |
| FormatRoundTrip.NulIsRefused | servidor xmlrpc/xmlrpc-c-1.06.11/src/xmlrpc_data.c:243-262 | Reading a string back with plain s fails exactly when it contains a NUL; with s# it always succeeds |
| FormatLaws.UnknownCode | servidor xmlrpc/xmlrpc-c-1.06.11/src/xmlrpc_builddecomp.c:428-435 | A code that is none of the fourteen is refused |
| FormatLaws.FormatEnds | servidor xmlrpc/xmlrpc-c-1.06.11/src/xmlrpc_builddecomp.c:202-206 | A format that ends where a value or a closing parenthesis should be is refused |
| FormatLaws.HandedOver | servidor xmlrpc/xmlrpc-c-1.06.11/src/xmlrpc_builddecomp.c:296-410 | A value that is handed over is taken as it is by V, and by A and S only if it is an array or a struct |
| FormatLaws.CutAtNul | servidor xmlrpc/xmlrpc-c-1.06.11/src/xmlrpc_builddecomp.c:47-62 | A text without a length stops at its first NUL |
| FormatLaws.MemberFaults | servidor xmlrpc/xmlrpc-c-1.06.11/src/xmlrpc_builddecomp.c:223-248 | After a key there must be a colon, and the value's outcome is the member's |
| FormatLaws.StructFaults | servidor xmlrpc/xmlrpc-c-1.06.11/src/xmlrpc_builddecomp.c:263-287 | After a member there must be a comma or the end, and its key must be a string |
| FormatLaws.JunkRefused | servidor xmlrpc/xmlrpc-c-1.06.11/src/xmlrpc_builddecomp.c:483-492 | Anything left after the one value is refused |
| FormatLaws.WrongCode | servidor xmlrpc/xmlrpc-c-1.06.11/src/xmlrpc_builddecomp.c:713-867 | Taking a value with the code of another kind is a type fault, with no code at all an internal one |
| FormatLaws.WrongContainer | servidor xmlrpc/xmlrpc-c-1.06.11/src/xmlrpc_builddecomp.c:840-860 | Parentheses take only arrays apart, and braces only structs |
| FormatLaws.ItemCount | servidor xmlrpc/xmlrpc-c-1.06.11/src/xmlrpc_builddecomp.c:534-551 | An array needs as many items as the format has, unless a star leaves the rest alone; otherwise an index fault |
| FormatLaws.MembersLeft | servidor xmlrpc/xmlrpc-c-1.06.11/src/xmlrpc_builddecomp.c:601-615 | A struct format must end with a star directly before its end |
| FormatLaws.MissingKey | servidor xmlrpc/xmlrpc-c-1.06.11/src/xmlrpc_builddecomp.c:585-588 | A key that the struct does not have is an index fault |
| FormatStrings.Reader.constructor | servidor xmlrpc/xmlrpc-c-1.06.11/src/xmlrpc_builddecomp.c:441-459 | A reader starts at the beginning of format and arguments |
| FormatStrings.Reader.GetScalar | servidor xmlrpc/xmlrpc-c-1.06.11/src/xmlrpc_builddecomp.c:346-410 | A type code consumes its arguments (and a length marker) and yields the specified value or fault |
| FormatStrings.Reader.GetValue | servidor xmlrpc/xmlrpc-c-1.06.11/src/xmlrpc_builddecomp.c:329-436 | The shared cursors end where the specification says, with its value or fault |
| FormatStrings.Reader.GetArray | servidor xmlrpc/xmlrpc-c-1.06.11/src/xmlrpc_builddecomp.c:186-218 | Items until the delimiter, or the fault for a format that ends early |
| FormatStrings.Reader.GetStructMember | servidor xmlrpc/xmlrpc-c-1.06.11/src/xmlrpc_builddecomp.c:223-248 | Key, colon, value, or the fault |
| FormatStrings.Reader.GetStruct | servidor xmlrpc/xmlrpc-c-1.06.11/src/xmlrpc_builddecomp.c:253-292 | Members separated by commas (one may trail), later members with the same key replacing earlier ones |
| FormatStrings.Reader.TakeScalar | servidor xmlrpc/xmlrpc-c-1.06.11/src/xmlrpc_builddecomp.c:721-838 | Writes the outputs of one scalar code or the type fault |
| FormatStrings.Reader.TakeWide | servidor xmlrpc/xmlrpc-c-1.06.11/src/xmlrpc_data.c:381-434 | A text is read as wide characters: the fault for a text that is no encoding, the type fault for a NUL inside without a length, or the characters |
| FormatStrings.Reader.Take | servidor xmlrpc/xmlrpc-c-1.06.11/src/xmlrpc_builddecomp.c:713-867 | Outputs are only appended, in the specified order, and the cursors end where specified |
| FormatStrings.Reader.TakeItems | servidor xmlrpc/xmlrpc-c-1.06.11/src/xmlrpc_builddecomp.c:519-555 | Item by item, stopping at a star; too many or too few items fault |
| FormatStrings.Reader.TakeMember | servidor xmlrpc/xmlrpc-c-1.06.11/src/xmlrpc_builddecomp.c:575-599 | Builds the key with the build interpreter, looks it up and takes its value |
| FormatStrings.Reader.TakeMembers | servidor xmlrpc/xmlrpc-c-1.06.11/src/xmlrpc_builddecomp.c:560-621 | Member by member; without the final star it always faults |
| FormatStrings.BuildValueVa | servidor xmlrpc/xmlrpc-c-1.06.11/src/xmlrpc_builddecomp.c:441-466 | The empty format faults; otherwise value and unread tail are as specified |
| FormatStrings.BuildValue | servidor xmlrpc/xmlrpc-c-1.06.11/src/xmlrpc_builddecomp.c:470-494 | Anything left after the one value is a fault |
| FormatStrings.FindNul | servidor xmlrpc/xmlrpc-c-1.06.11/src/xmlrpc_data.c:137-155 | The loop finds a NUL exactly when there is one |
| FormatStrings.MakeWideString | servidor xmlrpc/xmlrpc-c-1.06.11/src/xmlrpc_builddecomp.c:69-134 | A wide string becomes the string value of its UTF-8 encoding; characters beyond the Basic Multilingual Plane fault |
| FormatStrings.FindWideNul | servidor xmlrpc/xmlrpc-c-1.06.11/src/xmlrpc_data.c:161-176 | The loop over wide characters finds a NUL exactly when there is one |
| Signatures.AcceptsExactly | servidor xmlrpc/xmlrpc-c-1.06.11/src/system_method.c:40-214 | A signature string is accepted with a given list if and only if it is the question mark and the list is empty, or it is the printed nonempty list of signatures T:T*, with or without one trailing comma |
| Signatures.ListShown | servidor xmlrpc/xmlrpc-c-1.06.11/src/system_method.c:167-214 | Parsing a printed list returns the list |
| Signatures.ListParsed | servidor xmlrpc/xmlrpc-c-1.06.11/src/system_method.c:167-214 | Whatever is accepted is the printed form of what was returned |
| Signatures.TypeNamesAre | servidor xmlrpc/xmlrpc-c-1.06.11/src/system_method.c:40-61 | The nine letters and the names they stand for, and no others |
| Signatures.ShownIs | servidor xmlrpc/xmlrpc-c-1.06.11/src/system_method.c:142-155 | How a list is printed: result type, colon, parameter types, and commas between signatures and perhaps after the last |
| Signatures.RefusedAlike | servidor xmlrpc/xmlrpc-c-1.06.11/src/system_method.c:148-207 | No text is the empty list, and every refused text gives the same fault |
| Signatures.NamesAre | servidor xmlrpc/xmlrpc-c-1.06.11/src/system_method.c:90-93 | The array of a signature holds the type names as strings, result type first |
| Signatures.ListsAre | servidor xmlrpc/xmlrpc-c-1.06.11/src/system_method.c:188-201 | The result holds one such array for each signature, in order |
| Signatures.ParseOneTypeSpecifier | servidor xmlrpc/xmlrpc-c-1.06.11/src/system_method.c:66-113 | Advances the cursor, appends the type's name, and wants a colon after the first; the pending parse is unchanged |
| Signatures.ParseOneSignature | servidor xmlrpc/xmlrpc-c-1.06.11/src/system_method.c:118-162 | Builds the array of type names of the next signature, or faults and frees all it allocated |
| Signatures.BuildSignatureArray | servidor xmlrpc/xmlrpc-c-1.06.11/src/system_method.c:167-214 | Terminates with the array of arrays of names on the heap, or a fault with the heap as before |
| GrowArrays.GrowArray.constructor | nbayes implementacion/GrowArray.h:23-32 | Empty, with at least one slot, so the spare-slot invariant holds from the start |
| GrowArrays.GrowArray.Copy | nbayes implementacion/GrowArray.h:34-43 | The same elements in storage of its own |
| GrowArrays.GrowArray.Append | nbayes implementacion/GrowArray.h:51-57 | One more element at the end, always written in range; the capacity doubles exactly when the last spare slot is used |
| GrowArrays.GrowArray.Grow | nbayes implementacion/GrowArray.h:99-108 | Moves the elements unchanged into larger storage |
| GrowArrays.GrowArray.DeleteLast | nbayes implementacion/GrowArray.h:59-64 | Drops the last element, nothing on an empty array |
| GrowArrays.GrowArray.Size | nbayes implementacion/GrowArray.h:71-72 | The number of elements |
| GrowArrays.GrowArray.Get | nbayes implementacion/GrowArray.h:76-77 | The element at the index; one past the end is still inside the storage |
| GrowArrays.GrowArray.Set | nbayes implementacion/GrowArray.h:76 | Changes that element only; writing one past the end (as addAbstraction does) changes no element |
| Mixtures.MarginalIsBayes | nbayes implementacion/AbsVarAbstractionSet.cpp:268-336 | For evidence of positive likelihood and a missing variable: marginal at a value times the evidence likelihood = likelihood of the evidence with the variable set to that value |
| Mixtures.UnknownSums | nbayes implementacion/AbsVarAbstractionSet.cpp:173-245 | The likelihood with a variable unknown is the sum of the likelihoods over its values |
| Mixtures.MarginalSums | nbayes implementacion/AbsVarAbstractionSet.cpp:268-336 | The marginal of a missing variable, given evidence of positive likelihood, sums to 1 |
| Mixtures.ProbSet | nbayes implementacion/AbsVarAbstractionSet.cpp:173-245 | Setting a missing variable multiplies a component's probability by its table entry |
| Learning.NothingKnown | nbayes implementacion/AbsVarAbstractionSet.cpp:173-245 | A case of which nothing is known has probability 1 in every component |
| Learning.LikelihoodIs | nbayes implementacion/AbstractionSet.cpp:83-86 | The likelihood adds each component's probability times its weight |
| Learning.PosteriorIs | nbayes implementacion/AbstractionSet.cpp:190-194 | A component's share of a case, times the likelihood of the case, is its weighted probability |
| Learning.BothIs | nbayes implementacion/AbsVarAbstractionSet.cpp:339-361 | Query and evidence together: the query's value where it has one, and the evidence's elsewhere |
| Mixtures.PosteriorSums | nbayes implementacion/AbsVarAbstractionSet.cpp:339-361 | The weights of the conditioned model sum to 1 |
| Mixtures.JointConditions | nbayes implementacion/AbsVarAbstractionSet.cpp:339-361 | The conditioned model gives a query (on variables apart from the evidence) the conditional probability: times the evidence likelihood it is the likelihood of both together |
| Training.NewStatsOk | nbayes implementacion/AbsVarAbstractionSet.cpp:27-60 | Fresh tables are positive, rows sum to 1, counts sum to their totals |
| Training.BiasedOk | nbayes implementacion/AbsVarAbstractionSet.cpp:400-412 | The row biased to an observed value is positive and sums to 1, with or without global statistics |
| Learning.BiasIs | nbayes implementacion/AbsVarAbstractionSet.cpp:400-414 | In numbers: 1.1 times the entry for a value is a tenth of the usual entry, or of an even spread, plus 1 for the value the case has |
| Learning.ExtensionIs | nbayes implementacion/AbsVarAbstractionSet.cpp:368-419 | Unknown values give an even row, and known ones that biased row |
| Training.ExtendedOk | nbayes implementacion/AbsVarAbstractionSet.cpp:368-419 | Every parameter row of a component made from an observation is positive and sums to 1 |
| Training.AssignedOk | nbayes implementacion/AbsVarAbstractionSet.cpp:521-543 | Adding a fractional observation keeps counts summing to their totals, all positive |
| Training.NormalizedOk | nbayes implementacion/AbsVarAbstractionSet.cpp:596-601 | When counts are positive and sum to their totals, the normalised rows are positive and sum to 1, with no division by zero |
| Training.UpdatedOk | nbayes implementacion/AbsVarAbstractionSet.cpp:596-601 | Normalising and resetting the counts satisfies the whole statistics invariant again |
| Learning.UpdatedIs | nbayes implementacion/AbsVarAbstractionSet.cpp:596-601 | A new entry times the total is the count, and counting starts anew from an even spread of one case |
| Learning.AssignedIs | nbayes implementacion/AbsVarAbstractionSet.cpp:521-543 | A fraction of a case is added to the count of the value it has and to the total of each variable it knows, and to nothing else |
| Learning.CountedIs | nbayes implementacion/AbstractionSet.cpp:132-206 | After all cases a count has grown by the component's shares of the cases with that value, and a total by its shares of the cases that know the variable |
| Training.MergedKeepsLikelihood | nbayes implementacion/AbsVarAbstractionSet.cpp:613-620 | Moving the weight of duplicates leaves the mixture probability of every observation unchanged |
| Training.MergedKeepsTotal | nbayes implementacion/AbsVarAbstractionSet.cpp:613-620 | Merging duplicates conserves the total weight and keeps weights nonnegative |
| Training.MergedKeepsFit | nbayes implementacion/AbstractionSet.cpp:71-89 | Merging duplicates leaves the mean log-likelihood of every list of cases unchanged |
| Training.MergedDropsDuplicates | nbayes implementacion/AbsVarAbstractionSet.cpp:613-620 | Every component equal to its predecessor ends with weight zero |
| Learning.MergedIs | nbayes implementacion/AbsVarAbstractionSet.cpp:613-620 | Exactly: the first of a run of equal neighbours ends with the weight of the whole run, all others with none |
| Training.AccountedSums | nbayes implementacion/AbstractionSet.cpp:132-206 | Over all observations the shares handed out sum to the number of observations |
| Training.AveragedOk | nbayes implementacion/AbstractionSet.cpp:213-217 | The new weights, the shares divided by the number of observations, are nonnegative and sum to 1 |
| Learning.AverageIs | nbayes implementacion/AbstractionSet.cpp:213-217 | A new weight is the component's share of all cases over their number |
| Training.CaseLikely | nbayes implementacion/AbstractionSet.cpp:138-150 | With some positive weight and positive tables every in-range observation has positive total weight, so the division is safe |
| NaiveBayes.Mixture.constructor | nbayes implementacion/AbstractionSet.cpp:8-13 | An empty mixture over the schema |
| NaiveBayes.Mixture.GetProb | nbayes implementacion/AbsVarAbstractionSet.cpp:173-245 | The loop with its early exit at zero computes the product over observed variables |
| NaiveBayes.Mixture.GetLikelihood | nbayes implementacion/AbstractionSet.cpp:83-86 | The likelihood whose logarithm is taken: the weighted sum of component probabilities |
| NaiveBayes.Mixture.GetLogLikelihood | nbayes implementacion/AbstractionSet.cpp:81-89 | The logarithm of the likelihood of a case |
| NaiveBayes.Mixture.MeanLogLikelihood | nbayes implementacion/AbstractionSet.cpp:71-79 | The mean of the log-likelihoods of a list of cases, the same mean that MergedKeepsFit is about |
| NaiveBayes.Mixture.CreateMarginals | nbayes implementacion/AbsVarAbstractionSet.cpp:268-336 | A distribution for exactly the untested variables, each entry the Bayes marginal and each distribution summing to 1 |
| NaiveBayes.Mixture.MarginalOf | nbayes implementacion/AbsVarAbstractionSet.cpp:316-332 | The distribution of one untested variable, accumulated component by component, is its Bayes marginal and sums to 1 |
| NaiveBayes.Mixture.CreateJoint | nbayes implementacion/AbsVarAbstractionSet.cpp:339-361 | A separate model with the same tables whose weights are the posterior weights |
| NaiveBayes.Mixture.AssignObservation | nbayes implementacion/AbsVarAbstractionSet.cpp:521-543 | Adds the fraction to the counts of the observed values of that component only |
| NaiveBayes.Mixture.UpdateParameters | nbayes implementacion/AbsVarAbstractionSet.cpp:545-623 | Every component gets its normalised tables and reset counts; weights are those after merging duplicates |
| NaiveBayes.Mixture.UpdateEach | nbayes implementacion/AbsVarAbstractionSet.cpp:550-621 | The component loop, remembering the previous distinct component, normalises every component and merges adjacent duplicates |
| NaiveBayes.Mixture.UpdateNext | nbayes implementacion/AbsVarAbstractionSet.cpp:551-621 | One round of that loop: normalise, compare with the previous distinct component, move the weight if equal |
| NaiveBayes.Mixture.PruneDuplicate | nbayes implementacion/AbsVarAbstractionSet.cpp:613-620 | Moves the weight of a duplicate, or remembers the component |
| NaiveBayes.UpdateStats | nbayes implementacion/AbsVarAbstractionSet.cpp:558-611 | Normalises and resets one component and finds out whether its tables equal the previous ones |
| NaiveBayes.Mixture.CaseTerms | nbayes implementacion/AbstractionSet.cpp:133-148 | Weighted probabilities of one observation and their total, zero-weight components skipped |
| NaiveBayes.Mixture.ShareOne | nbayes implementacion/AbstractionSet.cpp:190-200 | One component's share goes to its new weight and its counts |
| NaiveBayes.Mixture.ShareOut | nbayes implementacion/AbstractionSet.cpp:190-200 | Every component receives its share of one observation in its new weight and its counts |
| NaiveBayes.Mixture.ShareCase | nbayes implementacion/AbstractionSet.cpp:132-206 | One observation is shared out by the posterior under the current weights |
| NaiveBayes.Mixture.ShareCases | nbayes implementacion/AbstractionSet.cpp:132-206 | All observations are shared out under the weights and tables of the start of the step |
| NaiveBayes.Mixture.AverageWeights | nbayes implementacion/AbstractionSet.cpp:213-217 | New weights are the averaged shares; the change reported is the sum of absolute differences |
| NaiveBayes.Mixture.EMStep | nbayes implementacion/AbstractionSet.cpp:123-236 | From nonnegative weights with one positive, over any nonempty list of in-range observations: the weights end nonnegative with sum 1 and every table positive with rows summing to 1; each component's entry for a value, times its old total plus its shares of the cases that know the variable, is its old count plus its shares of the cases with that value; counts start anew |
| Learning.LearntFresh | nbayes implementacion/AbstractionSet.cpp:123-236 | From fresh counts: the entry for a value, times one plus the shares of the cases that know the variable, is 1 over the number of values plus the shares of the cases with that value |
| Learning.StepLearns | nbayes implementacion/AbstractionSet.cpp:123-236 | The frequencies that EMStep promises, for one component |
| NaiveBayes.GapIs | nbayes implementacion/AbstractionSet.cpp:215 | The change of a weight is the absolute difference |
| NaiveBayes.Mixture.AddAbstraction | nbayes implementacion/AbstractionSet.cpp:22-39 | One more component made from the observation; the weights are rescaled to make room exactly when a weight slot is missing; all writes in range |
| NaiveBayes.Mixture.MakeRoom | nbayes implementacion/AbstractionSet.cpp:28-34 | Scaling the weights, with one write into the spare slot, and appending the new weight |
| NaiveBayes.OneMoreSums | nbayes implementacion/AbstractionSet.cpp:27-34 | The rescaled weights sum to 1 again and the new component has positive weight |
| NaiveBayes.OneMoreIs | nbayes implementacion/AbstractionSet.cpp:28-34 | Each of n old weights is scaled by n / (n + 1), and the new one is 1 / (n + 1) |
| NaiveBayes.Mixture.InitParameters | nbayes implementacion/AbsVarAbstractionSet.cpp:421-497 | Global statistics are frequencies: the entry for a value, times one plus the number of cases with a value in range, is 1 over the number of values plus the number of cases with that value |
| NaiveBayes.TallyCase | nbayes implementacion/AbsVarAbstractionSet.cpp:443-465 | One observation counted, unobserved and too large values skipped |
| NaiveBayes.Mixture.Prune | nbayes implementacion/AbstractionSet.cpp:264-298 | Keeps the components in sorted order up to the first place where the kept weight reaches the fraction, the first always; a model that EMStep accepts is still one afterwards if and only if the first component had weight or the fraction is positive |
| NaiveBayes.KeepHeaviest | nbayes implementacion/AbstractionSet.cpp:276-292 | The selection loop: no shorter selection reaches the fraction, and if something is dropped the selection does |
| NaiveBayes.PruneLeavesWeight | nbayes implementacion/AbstractionSet.cpp:264-298 | From any nonnegative weights that are not all zero (also those a previous prune left), some kept weight is positive if and only if the first component had weight or the fraction is positive |
| NaiveBayes.PruneKeepsOwnWeights | nbayes implementacion/AbstractionSet.cpp:266-292 | For any weights whatever: every component keeps its own weight under every order the sort may leave if and only if each component but the first weighs less than 1, or exactly 1 when the first weighs 1 too |
| NaiveBayes.PruneKeepsOwnShares | nbayes implementacion/AbstractionSet.cpp:266-292 | For nonnegative weights with a sum of at most 1 this holds if and only if the first component weighs something or no component has the whole weight |
| NaiveBayes.KeepsOwnAfter | nbayes implementacion/AbstractionSet.cpp:266-292 | Under one given order every component keeps its own weight if and only if the first component is first, or the one put first and it both weigh 1 |
| NaiveBayes.PruneTie | nbayes implementacion/AbstractionSet.cpp:266-292 | A concrete input where it fails: a tie between a weightless first component and one of weight 1 leaves each with the weight of the other |

## Left out

- Punycode.Encode: inputs with a stuck code point are excluded by its precondition, because the loop does not end on them (or ends only because 0x10FFFF is counted again and again); when it ends is stated by Punycode.FinishesExactly.
- Punycode.EncodeExtended: excludes inputs with a stuck code point in the same way.
- Punycode.Advance: excludes inputs with a stuck code point in the same way.
- Punycode.Decode: covers inputs it rejects and inputs whose digit part is complete; for others the original reads past the end of the string or takes non-digits as digits, which is not modelled.
- Punycode.RoundTrip: nameprep is the identity, because its tables are not part of this model; the encoder's UTF-8 step before it is Ucs4.
- CanonicalOrdering.ApplyCanonicalOrdering: the combining class is an arbitrary function, as its table is not part of this model.
- The splitting of URLs and e-mail addresses in encode() and decode(), and _combine, which needs the same tables.
- ValueHeap.Heap.ArrayAppendItem: a call that would close a cycle is excluded by the precondition, since reference counts cannot reclaim cycles; HeapState.AttachAcyclic says exactly when that is.
- ValueHeap.Heap.StructSetValue: excludes closing a cycle in the same way.
- ValueHeap.Heap.ReplaceMember: excludes closing a cycle in the same way.
- ValueHeap.Heap.AddMember: excludes closing a cycle in the same way.
- ValueHeap.Heap.Create: allocation succeeds and never reuses an address; out-of-memory paths and the size of the count are not modelled. Counts are taken before a container is written, where the original writes first; no state in between is observable.
- ValueHeap.Heap.DestroyValue: blocks inside a value (text, bytes, the cached wide string) are part of the value and go with it. What a cached wide string can hold is stated by Utf8Codec.EncodeInjective.
- Serializer.SerializeValue: doubles are printed and read by two functions given as a parameter, required only to print plain text; dates are their stored text.
- Converter.RoundTrip: storable values are 32-bit integers, booleans, doubles that their own printing reads back, strings and base64 of any bytes, dates without NUL, nil, arrays, and structs with distinct keys. Lexing of XML text, line-end normalisation and control characters are Expat's and left out.
- XmlTree.Parse: Expat's own failures and the freeing of elements are left out.
- HeapConverter.ConvertValue: elements are read as trees, not through their pointers; the wide-character build is assumed, so strings are always checked.
- FormatRoundTrip.RoundTrip: wide strings with surrogates, U+FFFE or U+FFFF are built, but their text is not valid UTF-8 and they come back only from the characters cached beside it, which the model of values does not hold. Values and outputs are trees and lists: reference counts and the storing through pointers are not captured here.
- FormatStrings.Reader.GetValue: excludes calls whose arguments do not fit the format or whose format runs past its end, which C leaves undefined.
- FormatStrings.Reader.Take: excludes the calls on which the original stops at an assertion, and reading as wide characters a text that is not valid UTF-8 but could have been built from wide characters; the keys of a struct format come from a queue of their own.
- Mixtures.MarginalIsBayes: discrete variables and exact reals; Gaussian variables, the logarithmic form of probabilities and rounding are left out.
- NaiveBayes.Mixture.EMStep: observations hold values in range or unknown ones; the original indexes outside its tables on others. Debug output and the observation counter are left out.
- NaiveBayes.Mixture.CreateMarginals: evidence of likelihood zero is excluded, as the original divides by it.
- NaiveBayes.Mixture.GetLogLikelihood: the logarithm is any function given as a parameter, so nothing is said of its value, at zero in particular.
- NaiveBayes.Mixture.Prune: qsort is any sorting of the keys, given as a parameter, since it is not stable; PruneKeepsOwnWeights speaks of all of them.
- NaiveBayes.Mixture.CreateJoint: tables are values, so copies never alias; the copy constructor's remaining details are left out.
- Sampling, reading and writing of models, saving and restoring parameters, and removing the last component of a mixture.
- Calls and responses around a parameter list, multicall and the method registry, the transports and servers, and the PHP user interface: thin wrappers and input/output.
