# Verification of the vendored network algorithms

This Dafny project models the hard algorithms that this repository carries in its vendored tree
`taut/_vendor/src/golang.org/x/net` and proves what they are for. Check everything with

    dafny verify dfyconfig.toml

## What is modelled

**Internationalised domain names** (`idna`). `PunycodeSpec` defines the encoding of section 6 of RFC 3492 as a walk
over all states of the decoder, without arithmetic tricks. `PunycodeEncode` and `PunycodeDecode` are the two loops in
32-bit arithmetic, each proved against its specification; `PunycodeRoundTrip` says for every label whether it comes
back; `PunycodeBounds` turns that into lengths; `PunycodeNoWrap` shows that the decoder's unchecked addition is safe,
and `PunycodeOverflow` what the encoder's overflow tests catch and miss; `PunycodeVectors` names the digits and
encodes known words; `Idna` lifts all of it to domains. Strings are sequences of Unicode scalar values.

**Public suffixes** (`publicsuffix`). `SuffixRules` states naive rule matching. `SuffixTrie` builds the trie of a rule
list, `SuffixGenerator` numbers its nodes, `SuffixCapacity` says which rule lists have room in the tables,
`SuffixText` crushes the labels into one text, `SuffixPrinter` prints the packed tables and proves that they represent
the rules, and `SuffixTable` queries them by unpacking and binary search and proves the answer to be that of naive
matching; `SuffixIcann` says what the second result is worth, and `SuffixLines` what the lines of the list mean, on
the text of lines and domains alone.

**HTML text and tokens** (`html`). `HtmlEntity` and `HtmlEscape` are the entity codec: the in-place decoder against an
out-of-place one, and the round trip with the encoder. `HtmlTokens` says what each reader of the tokenizer does to a
position in the whole input; `HtmlTokenizer` is the tokenizer itself, with its sliding and growing buffer, over the
reader in `HtmlReader` that hands out bytes in pieces of any size. Every method is proved to do to the buffer what
`HtmlTokens` says about the input, so the token stream of `HtmlStream` is a function of the input. `HtmlMeaning` says
where raw text, scripts, comments and text end without mentioning the state machines. `HtmlNames` says what named
references stand for. `HtmlAttributes` says what is marked in a tag, for every way to spell one; `HtmlRoundTrip` is
`Token.String` and proves what lists of tokens are read back as; `HtmlElements` does the same for elements of raw
text, and `HtmlDeclarations` says which declarations are doctypes, CDATA sections and comments. `HtmlNodes` is the
doubly linked tree and the stack of open elements.

**Contexts** (`context`). `ContextSteps` is the package as a state machine: any number of goroutines run the calls,
one step at a time, each with a stack of activations, and mutexes are taken and released where the code does. A step
is what the code does between two points where another goroutine could notice. `ContextInvariant`, `ContextProof` and
`ContextRuns` prove one invariant for all steps and calls; `ContextSafety` and `ContextProgress` draw the consequences
for all runs. `ContextErrors` traces every error back to the call that has caused it, and `ContextTimers` says when
timers are set and which contexts are canceled. `ContextObjects` has the same calls on objects with fields, one call
at a time, and says exactly which contexts a call cancels and with which error.

**ICMP extensions** (`icmp`). `IcmpChecksum` is the Internet checksum, `IcmpObjects` and `IcmpMarshal` the MPLS and
interface information objects, `IcmpOverwrite` what marshaling them makes of the bytes that a buffer holds already,
`IcmpMultipart` the bodies of sections 7 and 8 of RFC 4884, `IcmpParse` the parsing loops, and `IcmpObjectRoundTrip`
and `IcmpRoundTrip` prove what comes back. `IcmpWire` says what the bytes are, in numbers, and what is made of bytes
that no marshaler has written.

`Int32`, `Arithmetic`, `Options`, `Strings` and `Utf8` are shared.

## What the proofs found

- The decoder of punycode adds to n without a check. That addition never wraps around, for any input, accepted or
  rejected: the first integer that is read is below 500,000,000, and every later one starts from a code point
  (`PunycodeNoWrap.WrapNeverMatters`).
- A label whose encoding has too large a weight is rejected by its own decoder. The shortest such label has 157
  characters: up to 156 all come back (`PunycodeBounds.ShortRoundTrip`), and U+0080, U+35D7, U+10FFFF and 154 letters
  do not (`PunycodeBounds.SomeLabelIsRejected`).
- The overflow tests of the encoder look at the sign of delta after adding a product that is computed in 32 bits. They
  catch every overflow in labels of up to 3855 characters, and there is none in labels of up to 1927. In 3855 letters
  and U+10FFFF the product wraps around to a positive number, and encode writes the digits of that
  (`PunycodeOverflow.LettersCode`). The decoder refuses what comes of it: it takes no more than 1024 characters
  (`PunycodeOverflow.CodedRoundTrip`).
- `html/escape.go` keeps numeric references in 32 bits: they decode modulo 2^32. A value comes out right exactly if it
  is below 2^32 or its remainder is replaced as well (`HtmlEscape.ReferenceIsItsValue`). References of three bytes,
  such as `&#1` in front of a byte that is no digit and no semicolon, are left as they are, while `&#x;` with no
  digits at all decodes to the replacement character, as the comparison with 3 counts the `x` and the semicolon.
- `html/escape.go` says that only five characters are escaped. There are six: the carriage return is escaped, too, and
  has to be, as newlines are converted before entities are decoded (`HtmlEscape.BareReturnIsLost`).
- Raw text does not end at the first end tag: the byte behind a less-than sign is not looked at again. It ends at the
  first end tag with an even number of less-than signs directly in front of it (`HtmlMeaning.RawTextIsFirst`). In the
  same way a comment does not end at the first `-->`: in `<!--!-->` the first of the two last dashes is not counted
  (`HtmlMeaning.CommentIsFirst`).
- In `<a b=c/>` the bare value takes in the slash, so that it is `c/`, and the tag closes itself all the same
  (`HtmlRoundTrip.BareSlash`).
- Comments and doctypes are decoded like text when they are read but not escaped when they are written, so that a
  comment with a reference in it does not come back from its own string (`HtmlRoundTrip.StringsBack`). The text of a
  CDATA section is decoded, too (`HtmlDeclarations.DeclarationIs`).
- If the input ends within the word of a doctype, or within `[CDATA[` where sections are allowed, the comment that is
  read instead is empty: what there was of the word is lost (`HtmlDeclarations.DeclarationIs`).
- In `readScript` a less-than sign in escaped text that opens nothing leads back to plain script data, not to escaped
  text (`HtmlMeaning.ScriptFallsBack`), so that `<!--<<script></script>` ends the script (`HtmlMeaning.FallenCloses`).
- `publicsuffix/gen.go` line 317 ignores the error of the walk that assigns the indexes, so tables are printed even
  when the rules do not fit. They fit exactly if at most 506 names have others below them and, if there are any, there
  are fewer than 16384 names in all. Otherwise the tables represent the rules in no layout (`SuffixPrinter.Generate`).
- `publicsuffix/list.go` lines 34-37 say that the second result is whether the suffix is managed by ICANN. It is what
  the last name on the walk says, and names that are there only for longer rules say yes (`publicsuffix/gen.go` line
  419). With the private rules `foo.com` and `a.b.foo.com` the suffix of `x.b.foo.com` is `foo.com`, and the result is
  true (`SuffixIcann.PrivateSaidIcann`). It is right where a rule that matches is for that last name, and for a name
  without a rule exactly if the suffix is managed by ICANN (`SuffixIcann.IcannMeaning`).
- `icmp/multipart.go` rounds a length up by a whole word even if it is aligned. The length byte is therefore wrong for
  1020 bytes of data already for ICMPv4, and for 2040 bytes for ICMPv6, which would have fitted, and from there on the
  data does not come back (`IcmpRoundTrip.BodyBack`).
- The comment in `icmp/message.go` says that placing the checksum with exclusive or avoids the assumption that the
  field is zero. It does not: up to 131074 bytes the result is right exactly if the field and the checksum have no bit
  in common (`IcmpChecksum.PatchIsRight`, `IcmpChecksum.PresetFieldFails`). Only that comment is concerned:
  `Message.Marshal` and `marshalMultipartMessageBody` always start from a field of zeros, where the result is right
  (`IcmpChecksum.ZeroField`).
- `icmp/interface.go` copies a name of more than 63 bytes beyond its field. The end of it is written into the next
  object, which is written over it, but for the padding of its own name and the reserved bytes of its address
  (`IcmpOverwrite.ObjectSplit`, `IcmpRoundTrip.ObjectsBack`).
- An interface information object carries what it has, whatever its type says. If the type names an attribute that is
  missing in front of others, the bytes of these are read as that attribute, and the object never comes back as it was
  (`IcmpObjectRoundTrip.Uncovered`); missing attributes behind all others come back as zeros.
- `Message.Marshal` of an ICMPv4 message with a pseudo header cuts off as many bytes of the message as the pseudo
  header has, or panics if there are too few (`IcmpMessage.Marshal`).
- `InsertBefore` does not check that the child in front of which it inserts is one; if it is not, the pointers fit no
  lists of children any more (`HtmlNodes.Node.InsertBefore`). Neither it nor `AppendChild` checks that the new child
  is not the node itself or above it; if it is, the parents form a cycle.
- `reparentChildren` with the same node twice returns exactly if the node has no children: otherwise each round moves
  the first child to the end (`HtmlNodes.ReturnsExactly`).

## Model

| member | source | states |
|---|---|---|
| `Int32.SignTestIsExact` | taut/_vendor/src/golang.org/x/net/idna/punycode.go:60-63 | adding two non-negative int32 values gives a negative one exactly if the true sum does not fit |
| `Punycode.EncodeDigit` | taut/_vendor/src/golang.org/x/net/idna/punycode.go:176-184 | every digit below 36 is written as a character that is read back as that digit and is no hyphen, dot or non-ASCII character |
| `Punycode.AdaptBound` | taut/_vendor/src/golang.org/x/net/idna/punycode.go:187-200 | adapt never exceeds 198, for every delta an int32 can hold |
| `Punycode.ComputeAdapt` | taut/_vendor/src/golang.org/x/net/idna/punycode.go:187-200 | the loop of adapt in int32 computes the bias adaptation of section 6.1 of RFC 3492 and stays within [0, 198] |
| `PunycodeVectors.AlphabetIs` | taut/_vendor/src/golang.org/x/net/idna/punycode.go:164-184 | each digit is the character at its place in the string of the small letters and the decimal digits, and is read in either case, and no other character is a digit |
| `PunycodeVectors.DecodedIgnoresCase` | taut/_vendor/src/golang.org/x/net/idna/punycode.go:164-174 | changing the case of letters behind the last hyphen does not change what decode gives, errors included |
| `PunycodeVectors.Umlaut` | taut/_vendor/src/golang.org/x/net/idna/punycode_test.go:25 | one character with an umlaut is encoded as tda |
| `PunycodeVectors.UmlautAndAccent` | taut/_vendor/src/golang.org/x/net/idna/punycode_test.go:26 | two characters are encoded as tdac, with the bias adapted in between |
| `PunycodeVectors.Books` | taut/_vendor/src/golang.org/x/net/idna/punycode_test.go:23 | a word with one umlaut among letters is encoded as bcher-kva |
| `PunycodeVectors.HelloWorld` | taut/_vendor/src/golang.org/x/net/idna/punycode_test.go:24 | a greeting in Latin and Chinese is encoded as Hello-ck1hg65u |
| `PunycodeVectors.Commerce` | taut/_vendor/src/golang.org/x/net/idna/idna_test.go:22 | two Chinese characters are encoded as czrw28b |
| `PunycodeDecode.LastIndexOfHyphen` | taut/_vendor/src/golang.org/x/net/idna/punycode.go:35 | finds the last hyphen, or none |
| `PunycodeDecode.ProductsFit` | taut/_vendor/src/golang.org/x/net/idna/punycode.go:60-76 | neither digit * w nor w * (base - t) leaves int32 under the weight check, and the weight grows, so the loop ends |
| `PunycodeDecode.DecodeInteger` | taut/_vendor/src/golang.org/x/net/idna/punycode.go:50-77 | reading one variable-length integer with int32 arithmetic and its sign tests gives what unbounded arithmetic gives, with the same rejections |
| `PunycodeDecode.InsertInPlace` | taut/_vendor/src/golang.org/x/net/idna/punycode.go:85-87 | shifting the output array up and storing the character is insertion at that index |
| `PunycodeDecode.NextInsertion` | taut/_vendor/src/golang.org/x/net/idna/punycode.go:50-88 | one round of the loop: same integer, same bias, same place, same character and same error cases as the specification |
| `PunycodeDecode.InsertAll` | taut/_vendor/src/golang.org/x/net/idna/punycode.go:48-89 | the whole loop over an output array is the specification's sequence of insertions |
| `PunycodeDecode.Decode` | taut/_vendor/src/golang.org/x/net/idna/punycode.go:31-91 | decode computes Decoded for every input shorter than 2^31 - 1 characters, errors included |
| `PunycodeNoWrap.FirstInteger` | taut/_vendor/src/golang.org/x/net/idna/punycode.go:50-77 | the first integer of any input that is accepted stays below 500,000,000 |
| `PunycodeNoWrap.NeverWraps` | taut/_vendor/src/golang.org/x/net/idna/punycode.go:78-84 | from every state of the decoder the next unchecked addition n += i / x stays in int32, and every output that is accepted holds Unicode code points |
| `PunycodeNoWrap.WrapNeverMatters` | taut/_vendor/src/golang.org/x/net/idna/punycode.go:48-89 | for every input and every state the loop gives what it gives on unbounded integers, whether the run is accepted or rejected in the end |
| `PunycodeNoWrap.DecodedUnbounded` | taut/_vendor/src/golang.org/x/net/idna/punycode.go:31-91 | so does decode, for every input |
| `PunycodeEncode.AppendInteger` | taut/_vendor/src/golang.org/x/net/idna/punycode.go:138-152 | the inner loop of encode appends the variable-length integer for delta |
| `PunycodeEncode.CopyBasic` | taut/_vendor/src/golang.org/x/net/idna/punycode.go:102-114 | the first loop copies the basic characters and counts the others |
| `PunycodeEncode.LeastFrom` | taut/_vendor/src/golang.org/x/net/idna/punycode.go:116-121 | the least character at or after n that the label has |
| `PunycodeEncode.InsertHere` | taut/_vendor/src/golang.org/x/net/idna/punycode.go:138-156 | emitting one delta keeps the encoder in step with what is to be written |
| `PunycodeEncode.EncodePass` | taut/_vendor/src/golang.org/x/net/idna/punycode.go:127-159 | one pass over the label appends exactly the digits that are to be written for one character, and gives up only if counting takes delta past int32, in which case there is nothing to be written |
| `PunycodeEncode.AddStates` | taut/_vendor/src/golang.org/x/net/idna/punycode.go:122-125 | adding (m - n) * (h + 1) gives a negative delta exactly if the true sum modulo 2^32 is above 2^31 - 1, and that remainder otherwise |
| `PunycodeEncode.Jump` | taut/_vendor/src/golang.org/x/net/idna/punycode.go:122-126 | moving on to the next character that occurs passes no insertion by, and the sign test fires exactly if the true sum modulo 2^32 is above 2^31 - 1 |
| `PunycodeEncode.Encode` | taut/_vendor/src/golang.org/x/net/idna/punycode.go:98-162 | for every label encode writes what the state walk with deltas modulo 2^32 gives, or fails exactly if one of these deltas is above 2^31 - 1; encodeDigit never panics |
| `PunycodeRoundTrip.ReadBack` | taut/_vendor/src/golang.org/x/net/idna/punycode.go:50-77 | reading what was written for an integer gives it back exactly if all the weights pass the check and the sum fits |
| `PunycodeRoundTrip.InsertBack` | taut/_vendor/src/golang.org/x/net/idna/punycode.go:49-88 | reading one delta brings the decoder to the encoder's next state, with the same bias, exactly if the checks pass |
| `PunycodeRoundTrip.Replay` | taut/_vendor/src/golang.org/x/net/idna/punycode.go:48-89 | from every state of the walk the decoder replays the rest of the encoder's run |
| `PunycodeRoundTrip.RoundTrip` | taut/_vendor/src/golang.org/x/net/idna/punycode.go:31-162 | for every label, decoding its encoding returns the label if every check passes and rejects it otherwise; it never returns another label |
| `PunycodeBounds.FitsBelowLeast` | taut/_vendor/src/golang.org/x/net/idna/punycode.go:50-77 | under each bias there is a least integer whose weights decode refuses: it refuses exactly those from it on |
| `PunycodeBounds.LeastIs` | taut/_vendor/src/golang.org/x/net/idna/punycode.go:66-76 | that least integer is 172616011 for the bias 122, and at least 181998811 for every other bias up to 198 |
| `PunycodeBounds.WorstIsLate` | taut/_vendor/src/golang.org/x/net/idna/punycode.go:78-200 | in a label of up to 156 characters the bias becomes 122 only behind a jump of 9000 code points or more |
| `PunycodeBounds.ShortRoundTrip` | taut/_vendor/src/golang.org/x/net/idna/punycode.go:31-162 | every label of up to 156 characters comes back |
| `PunycodeBounds.LongLabelsRejected` | taut/_vendor/src/golang.org/x/net/idna/punycode.go:82-84 | no label of more than 1024 characters that needs an encoding comes back |
| `PunycodeBounds.SomeLabelIsRejected` | taut/_vendor/src/golang.org/x/net/idna/punycode.go:73-76 | a label of 157 characters that the weight check rejects, so that 156 is exactly how far all labels come back |
| `PunycodeBounds.LengthIsSharp` | taut/_vendor/src/golang.org/x/net/idna/punycode.go:82-84 | the check for the length of the output by itself: k letters and U+0080 come back exactly if k is below 1024 |
| `PunycodeOverflow.CodedLabelIs` | taut/_vendor/src/golang.org/x/net/idna/punycode.go:98-162 | a label whose deltas are all below 2^31 is encoded as section 6.3 of RFC 3492 says, and up to 3855 characters encode fails for every other one |
| `PunycodeOverflow.ShortLabelFits` | taut/_vendor/src/golang.org/x/net/idna/punycode.go:122-132 | up to 1927 characters all deltas are, so that encode succeeds |
| `PunycodeOverflow.LettersCode` | taut/_vendor/src/golang.org/x/net/idna/punycode.go:122-132 | what encode makes of k letters and U+10FFFF, for every k |
| `PunycodeOverflow.BoundsAreSharp` | taut/_vendor/src/golang.org/x/net/idna/punycode.go:122-132 | a label of 1928 characters for which encode fails, and one of 3856 characters where the product wraps around unseen and encode writes something else |
| `PunycodeOverflow.CodedInserts` | taut/_vendor/src/golang.org/x/net/idna/punycode.go:48-89 | whatever encode has written, wrapped or not, decode inserts one character for each integer, up to 1024, or fails |
| `PunycodeOverflow.CodedRoundTrip` | taut/_vendor/src/golang.org/x/net/idna/punycode.go:31-162 | for every label that encode encodes, decode returns the label or fails, the latter exactly if a check fails; every label that passes the checks is encoded |
| `Idna.IsAscii` | taut/_vendor/src/golang.org/x/net/idna/idna.go:61-68 | whether all characters are ASCII |
| `Idna.ToASCII` | taut/_vendor/src/golang.org/x/net/idna/idna.go:24-39 | each label that is not ASCII is replaced by what encode writes for it, the rest is left alone, and the first failure is the result, for every domain |
| `Idna.ToUnicode` | taut/_vendor/src/golang.org/x/net/idna/idna.go:44-59 | each label with the prefix is decoded, and the first failure is the result |
| `Idna.AsciiFormLabels` | taut/_vendor/src/golang.org/x/net/idna/idna.go:24-39 | if all labels are encoded, they contain no dot, so the labels of the result are the encoded labels, and the result is ASCII |
| `Idna.LabelRoundTrip` | taut/_vendor/src/golang.org/x/net/idna/idna.go:24-59 | a label that survives is encoded and comes back; any other one is not encoded, not decoded, or comes back shorter |
| `Idna.DomainRoundTrip` | taut/_vendor/src/golang.org/x/net/idna/idna.go:24-59 | a domain is encoded and comes back exactly if every label survives |
| `Idna.DnsRoundTrip` | taut/_vendor/src/golang.org/x/net/idna/idna.go:24-59 | a domain of labels of at most 63 characters is encoded, and comes back exactly if no ASCII label begins with the prefix |
| `Idna.BooksDomain` | taut/_vendor/src/golang.org/x/net/idna/idna_test.go:16 | with prefix and dots in place, the domain of three labels with that word becomes www.xn--bcher-kva.de |
| `Strings.ComputeLastDot` | taut/_vendor/src/golang.org/x/net/publicsuffix/list.go:49-51 | strings.LastIndex of a dot |
| `Strings.Index` | taut/_vendor/src/golang.org/x/net/publicsuffix/gen.go:297-300 | strings.Index: the first occurrence, or none |
| `Strings.LessIs` | taut/_vendor/src/golang.org/x/net/publicsuffix/gen.go:430 | one string is in front of another exactly if the other one goes on where it ends, or has the greater character where they first differ |
| `SuffixRules.PrevailsUnique` | taut/_vendor/src/golang.org/x/net/publicsuffix/list.go:45-90 | well-formed rules decide every domain in one way only |
| `SuffixRules.TypeMeaning` | taut/_vendor/src/golang.org/x/net/publicsuffix/gen.go:198-221 | what a node type says about the rules there are |
| `SuffixRules.WalkIsNaive` | taut/_vendor/src/golang.org/x/net/publicsuffix/list.go:45-90 | from every point of a walk down the trie the best rule so far leads to the rule that prevails: the exception, or else the longest match, or else the default |
| `SuffixRules.WalkFindsSuffix` | taut/_vendor/src/golang.org/x/net/publicsuffix/list.go:45-90 | the walk finds the suffix of the naive algorithm for every domain |
| `SuffixTable.NodeWord` | taut/_vendor/src/golang.org/x/net/publicsuffix/gen.go:495-499 | packing the four fields of a node into a 32-bit word loses nothing |
| `SuffixTable.ChildrenWord` | taut/_vendor/src/golang.org/x/net/publicsuffix/gen.go:468-479 | packing the four fields of a children entry into a 32-bit word loses nothing |
| `SuffixTable.NodeLabel` | taut/_vendor/src/golang.org/x/net/publicsuffix/list.go:113-119 | the label of a node, cut out of the text by unpacking |
| `SuffixTable.Find` | taut/_vendor/src/golang.org/x/net/publicsuffix/list.go:97-110 | the binary search finds a label in a sorted range exactly if it is there, without overflow |
| `SuffixTable.Descend` | taut/_vendor/src/golang.org/x/net/publicsuffix/list.go:52-79 | one step down the packed tables is one step down the trie of the rules, with the ICANN bit of the name that it leads to |
| `SuffixTable.PublicSuffix` | taut/_vendor/src/golang.org/x/net/publicsuffix/list.go:45-90 | over tables that represent the rules the suffix is that of naive rule matching, for every domain, and icann says whether all rules for the last name on the way are in the list's ICANN section, if the tables hold that |
| `SuffixTable.SuffixStart` | taut/_vendor/src/golang.org/x/net/publicsuffix/list.go:45-90 | a suffix of whole labels starts at the start of the domain or behind a dot |
| `SuffixTable.EffectiveTLDPlusOne` | taut/_vendor/src/golang.org/x/net/publicsuffix/list.go:123-133 | one label more than the suffix, or an error if there is none; the check for an invalid public suffix never fails |
| `SuffixTable.EtldPlusOneLabels` | taut/_vendor/src/golang.org/x/net/publicsuffix/list.go:123-133 | the result is one label, a dot and the suffix |
| `SuffixLines.UnderIsPrefix` | taut/_vendor/src/golang.org/x/net/publicsuffix/list.go:45-90 | one name ends another behind a dot exactly if its labels, from the last one on, are the first of the other's |
| `SuffixLines.WellFormedText` | taut/_vendor/src/golang.org/x/net/publicsuffix/gen.go:198-221 | on the text of the lines, a list is well-formed exactly if every exception has a dot, is not a plain line as well, and is not below another exception |
| `SuffixLines.SuffixIsText` | taut/_vendor/src/golang.org/x/net/publicsuffix/gen.go:198-221 | what the lines say of every domain, on their text: under an exception `!x` the suffix is x without its first label; elsewhere it is the longest of what ends the domain and is a plain line, or a line with a star in place of one label, or a single label |
| `SuffixLines.TextUnique` | taut/_vendor/src/golang.org/x/net/publicsuffix/list.go:45-90 | there is only one such suffix |
| `SuffixLines.OneMoreIsText` | taut/_vendor/src/golang.org/x/net/publicsuffix/list.go:123-134 | EffectiveTLDPlusOne gives the suffix with one label more that ends the domain, and nothing exactly for a domain that is its own suffix |
| `SuffixLines.ExceptionLine` | taut/_vendor/src/golang.org/x/net/publicsuffix/gen.go:204-206 | if `!a.s` is a line, the suffix of a.s and of every domain under it is s |
| `SuffixLines.OwnLine` | taut/_vendor/src/golang.org/x/net/publicsuffix/gen.go:200-207 | a plain line, and a line with a star and a label for it, is its own suffix where no exception is for it |
| `SuffixLines.StarAndExceptionMean` | taut/_vendor/src/golang.org/x/net/publicsuffix/table_test.go:459-460 | of the lines `*.y` and `!a.y`: y is the suffix of a.y and of all below it, and b.y is its own for every other label b |
| `SuffixLines.CookIslands` | taut/_vendor/src/golang.org/x/net/publicsuffix/list_test.go:385-386 | the suffix of www.ck is ck, and that of foo.ck is foo.ck |
| `SuffixIcann.IcannMeaning` | taut/_vendor/src/golang.org/x/net/publicsuffix/list.go:34-61 | icann is whether the suffix is managed by ICANN if no rule matches, or if a rule that matches is for the last name on the way; it is always true if that name has no rule of its own, and what is left are domains that have only a wildcard rule for the names below them, where it is that rule's section |
| `SuffixIcann.LastDecides` | taut/_vendor/src/golang.org/x/net/publicsuffix/list.go:45-90 | where a rule that matches is for the last name on the way, such a rule gives the suffix, and none for a longer name does |
| `SuffixIcann.PrivateSaidIcann` | taut/_vendor/src/golang.org/x/net/publicsuffix/list.go:34-61 | two private rules and a domain whose suffix is said to be managed by ICANN |
| `SuffixTrie.Trie.AddChild` | taut/_vendor/src/golang.org/x/net/publicsuffix/gen.go:416-423 | a new child takes its place in the sorted list and the rest of the trie keeps its shape |
| `SuffixTrie.Trie.Child` | taut/_vendor/src/golang.org/x/net/publicsuffix/gen.go:410-424 | the child with a label, found or made |
| `SuffixTrie.Trie.RecordLabel` | taut/_vendor/src/golang.org/x/net/publicsuffix/gen.go:219 | the label is among those that the text has to contain |
| `SuffixTrie.Trie.Descend` | taut/_vendor/src/golang.org/x/net/publicsuffix/gen.go:208-219 | the loop over a rule's labels adds exactly the nodes on the rule's path |
| `SuffixTrie.Trie.Mark` | taut/_vendor/src/golang.org/x/net/publicsuffix/gen.go:212-218 | the last node records the rule and its section without losing what an earlier rule recorded |
| `SuffixTrie.Trie.AddRule` | taut/_vendor/src/golang.org/x/net/publicsuffix/gen.go:200-220 | after each line the trie has exactly the nodes and attributes that the rules so far ask for |
| `SuffixGenerator.ProgressStep` | taut/_vendor/src/golang.org/x/net/publicsuffix/gen.go:447-487 | processing one node more keeps everything recorded for the nodes before it |
| `SuffixGenerator.ProgressKept` | taut/_vendor/src/golang.org/x/net/publicsuffix/gen.go:447-487 | so does stopping at a node whose entry does not fit |
| `SuffixGenerator.TrackedStep` | taut/_vendor/src/golang.org/x/net/publicsuffix/gen.go:447-487 | processing one node more keeps every child in its place in the order, and as many entries as there are inner nodes |
| `SuffixGenerator.Generator.NumberAll` | taut/_vendor/src/golang.org/x/net/publicsuffix/gen.go:451-454 | consecutive numbers for nodes that are all different |
| `SuffixGenerator.Generator.NumberChildren` | taut/_vendor/src/golang.org/x/net/publicsuffix/gen.go:448-454 | children get consecutive numbers and no other node's number changes |
| `SuffixGenerator.Generator.EncodeEntry` | taut/_vendor/src/golang.org/x/net/publicsuffix/gen.go:468-478 | the entry unpacks to the node's range, type and wildcard; it is refused exactly if the range does not fit |
| `SuffixGenerator.Generator.AddEntry` | taut/_vendor/src/golang.org/x/net/publicsuffix/gen.go:462-479 | the entry is appended and the node refers to it exactly if there is room for it and its range fits; otherwise the table stays and the node refers to no entry of its own |
| `SuffixGenerator.Generator.AssignLeaf` | taut/_vendor/src/golang.org/x/net/publicsuffix/gen.go:480-485 | a leaf refers to a predefined entry that says what the leaf is |
| `SuffixGenerator.Generator.EnterBranch` | taut/_vendor/src/golang.org/x/net/publicsuffix/gen.go:456-479 | the root has no entry; any other inner node gets one exactly if it fits |
| `SuffixGenerator.Generator.AssignBranch` | taut/_vendor/src/golang.org/x/net/publicsuffix/gen.go:448-479 | an inner node's children are numbered, and its entry is laid out exactly if the table has room and the children's numbers fit |
| `SuffixGenerator.Generator.AssignIndexes` | taut/_vendor/src/golang.org/x/net/publicsuffix/gen.go:447-487 | one node is laid out behind those before it, or the walk stops at it |
| `SuffixGenerator.Generator.AssignWalk` | taut/_vendor/src/golang.org/x/net/publicsuffix/gen.go:396-406 | walking the trie lays out every node below, in preorder, or stops at the first node that does not fit with all nodes before it laid out |
| `SuffixCapacity.KidsAreNames` | taut/_vendor/src/golang.org/x/net/publicsuffix/gen.go:198-221 | the nodes are the names that the rules speak of, and the inner nodes are the names with others below them |
| `SuffixCapacity.LaidOutFits` | taut/_vendor/src/golang.org/x/net/publicsuffix/gen.go:447-487 | a walk that comes to its end has laid out rules that fit: at most 506 names have others below them, and if there are any, fewer than 16384 names in all |
| `SuffixCapacity.BrokenDoesNotFit` | taut/_vendor/src/golang.org/x/net/publicsuffix/gen.go:462-473 | a walk that stops has met rules that do not fit |
| `SuffixCapacity.TooManyZones` | taut/_vendor/src/golang.org/x/net/publicsuffix/gen.go:464-466 | the names a.x of more than 506 different top-level domains x do not fit |
| `SuffixCapacity.TooManyNames` | taut/_vendor/src/golang.org/x/net/publicsuffix/gen.go:471-473 | 16383 different top-level domains do not fit if there is a name below one of them |
| `SuffixGenerator.Generator.AssignBelow` | taut/_vendor/src/golang.org/x/net/publicsuffix/gen.go:396-406 | the loop of walk over the children |
| `SuffixText.Sort` | taut/_vendor/src/golang.org/x/net/publicsuffix/gen.go:562 | a sorted permutation |
| `SuffixText.RemoveSubstrings` | taut/_vendor/src/golang.org/x/net/publicsuffix/gen.go:543-559 | strings inside others are dropped until none is inside another, and every label stays a substring of one that is left |
| `SuffixText.ThinnedIs` | taut/_vendor/src/golang.org/x/net/publicsuffix/gen.go:543-559 | what is left are exactly the labels that no other label has inside, each once |
| `SuffixText.StartIs` | taut/_vendor/src/golang.org/x/net/publicsuffix/gen.go:561-565 | sorted and without empty strings they are the list that the joining starts from |
| `SuffixText.BestOverlap` | taut/_vendor/src/golang.org/x/net/publicsuffix/gen.go:569-590 | the first pair with the longest overlap of any two different strings, or none if nothing overlaps |
| `SuffixText.BestUnique` | taut/_vendor/src/golang.org/x/net/publicsuffix/gen.go:569-590 | there is only one such pair |
| `SuffixText.Merge` | taut/_vendor/src/golang.org/x/net/publicsuffix/gen.go:591-599 | merging two overlapping labels keeps every label a substring, shortens the total by the overlap and leaves fewer labels |
| `SuffixText.MakeText` | taut/_vendor/src/golang.org/x/net/publicsuffix/gen.go:532-608 | the text contains every label and is no longer than all labels together; crushed, it is what the labels that are in no other become when the first pair with the longest overlap is joined again and again until nothing overlaps |
| `SuffixPrinter.EncodeLabels` | taut/_vendor/src/golang.org/x/net/publicsuffix/gen.go:296-306 | each label's code holds an offset and length at which the text has the label; it fails exactly if some label has 64 characters or more or does not start in the first 32768 characters |
| `SuffixPrinter.SmallIsEncodable` | taut/_vendor/src/golang.org/x/net/publicsuffix/gen.go:296-306 | labels of fewer than 64 characters each and 32768 altogether can all be encoded |
| `SuffixPrinter.PrintNode` | taut/_vendor/src/golang.org/x/net/publicsuffix/gen.go:489-506 | the words of a node's children, in order |
| `SuffixPrinter.PrintWalk` | taut/_vendor/src/golang.org/x/net/publicsuffix/gen.go:396-406 | walking the trie prints the words of all nodes below, in preorder |
| `SuffixPrinter.PrintBelow` | taut/_vendor/src/golang.org/x/net/publicsuffix/gen.go:396-406 | the loop of walk over the children |
| `SuffixPrinter.InPreorder` | taut/_vendor/src/golang.org/x/net/publicsuffix/gen.go:396-406 | every node is in the preorder listing |
| `SuffixPrinter.WordHolds` | taut/_vendor/src/golang.org/x/net/publicsuffix/gen.go:489-506 | a node's word unpacks to its label in the text, its ICANN bit and its children entry |
| `SuffixPrinter.NodeAtItsIndex` | taut/_vendor/src/golang.org/x/net/publicsuffix/gen.go:489-506 | the k-th printed word is that of the node with number k |
| `SuffixPrinter.OneSlotEach` | taut/_vendor/src/golang.org/x/net/publicsuffix/gen.go:447-506 | no two nodes share a slot, and every slot holds some node's word |
| `SuffixPrinter.ChildPrinted` | taut/_vendor/src/golang.org/x/net/publicsuffix/gen.go:447-506 | the i-th child of a node is printed at the i-th place of the node's range, with its label, type and wildcard |
| `SuffixPrinter.TablesHold` | taut/_vendor/src/golang.org/x/net/publicsuffix/gen.go:258-379 | the printed tables represent the rules |
| `SuffixPrinter.BitsHold` | taut/_vendor/src/golang.org/x/net/publicsuffix/gen.go:489-506 | and each name's bit says whether all rules for it are in the ICANN section |
| `SuffixPrinter.BuildTrie` | taut/_vendor/src/golang.org/x/net/publicsuffix/gen.go:198-221 | the trie of all lines |
| `SuffixPrinter.ListLabels` | taut/_vendor/src/golang.org/x/net/publicsuffix/gen.go:222-226 | all labels, each once, in order |
| `SuffixPrinter.FirstForced` | taut/_vendor/src/golang.org/x/net/publicsuffix/gen.go:447-506 | in any layout that the tables represent, the children of the nodes laid out are where the walk has put them |
| `SuffixPrinter.NoLayout` | taut/_vendor/src/golang.org/x/net/publicsuffix/gen.go:317 | tables that are printed after the walk has stopped represent the rules in no layout whatsoever |
| `SuffixPrinter.PrintTables` | taut/_vendor/src/golang.org/x/net/publicsuffix/gen.go:317-379 | the tables represent the rules in some layout exactly if the walk came to its end and there are fewer than 2^31 nodes, and the walk comes to its end exactly if the rules fit |
| `SuffixPrinter.Generate` | taut/_vendor/src/golang.org/x/net/publicsuffix/gen.go:222-379 | it fails exactly if the text is empty or a label cannot be encoded, and otherwise prints tables that represent the rules exactly if the rules fit, and then say of every name whether all rules for it are in the ICANN section |
| `Utf8.EncodeRune` | taut/_vendor/src/golang.org/x/net/html/escape.go:119 | the rune's bytes are written at the place asked for and nowhere else |
| `Utf8.EncodeIsUtf8` | taut/_vendor/src/golang.org/x/net/html/escape.go:119-165 | the payload bits of what is written for a scalar value make up that value, the first byte gives the length, the others are continuation bytes, and the length is the least possible; anything else is written as U+FFFD |
| `Utf8.Utf8IsUnique` | taut/_vendor/src/golang.org/x/net/html/escape.go:119-165 | only one sequence of bytes is like that, so no two values are written alike |
| `HtmlEntity.ReadNumber` | taut/_vendor/src/golang.org/x/net/html/escape.go:81-104 | the digits of a numeric reference, in a rune of 32 bits that wraps around |
| `HtmlEntity.NextDigit` | taut/_vendor/src/golang.org/x/net/html/escape.go:85-98 | one digit more, modulo 2^32 |
| `HtmlEntity.ReadName` | taut/_vendor/src/golang.org/x/net/html/escape.go:125-136 | the longest run of alphanumerics with one semicolon behind it |
| `HtmlEntity.FindPrefix` | taut/_vendor/src/golang.org/x/net/html/escape.go:149-157 | the longest prefix of at most six bytes that is an entity without a semicolon |
| `HtmlEntity.EntityShrinks` | taut/_vendor/src/golang.org/x/net/html/escape.go:53-57 | no entity expands to more bytes than it takes, given that no table entry does by more than one byte |
| `HtmlEntity.UnescapedShrinks` | taut/_vendor/src/golang.org/x/net/html/escape.go:165-184 | unescaped text is no longer than the text |
| `HtmlEntity.UnescapeNumeric` | taut/_vendor/src/golang.org/x/net/html/escape.go:68-120 | a numeric reference in place: the replacement is written behind what was written before, and no unread byte changes |
| `HtmlEntity.UnescapeNamed` | taut/_vendor/src/golang.org/x/net/html/escape.go:122-162 | a named reference in place, with the attribute exception and the prefix rule |
| `HtmlEntity.UnescapeEntity` | taut/_vendor/src/golang.org/x/net/html/escape.go:57-163 | any reference in place, dst never passing src |
| `HtmlEntity.UnescapeStep` | taut/_vendor/src/golang.org/x/net/html/escape.go:168-181 | one round of the loop over an ampersand or another byte keeps the result to come |
| `HtmlEntity.Unescape` | taut/_vendor/src/golang.org/x/net/html/escape.go:167-184 | unescaping in place equals decoding into a buffer of its own, for every buffer and both modes |
| `HtmlNames.KnownName` | taut/_vendor/src/golang.org/x/net/html/escape.go:122-148 | a name in the tables is replaced by its one or two characters, with its semicolon, whatever follows, and left alone in an attribute in front of `=` |
| `HtmlNames.KnownPrefix` | taut/_vendor/src/golang.org/x/net/html/escape.go:149-158 | in text an unknown name is replaced up to its longest known proper prefix of two to six bytes |
| `HtmlNames.UnknownName` | taut/_vendor/src/golang.org/x/net/html/escape.go:138-163 | otherwise, and in attributes, an unknown name is left as it is |
| `HtmlNames.NoName` | taut/_vendor/src/golang.org/x/net/html/escape.go:122-141 | an ampersand without a name stands for itself |
| `HtmlNames.PrefixExample` | taut/_vendor/src/golang.org/x/net/html/token_test.go:386 | with not known and nothing longer, `&notit;` is read as the sign for not and `it;` in text, and left alone in an attribute |
| `HtmlNames.AccentExample` | taut/_vendor/src/golang.org/x/net/html/escape.go:67-119 | `&#233;` is read as the bytes C3 A9 |
| `HtmlNames.DigitsAre` | taut/_vendor/src/golang.org/x/net/html/escape.go:75-101 | which bytes are digits, and of what value, in either case |
| `HtmlNames.WindowsCharacters` | taut/_vendor/src/golang.org/x/net/html/escape.go:16-49 | the numbers from 128 to 159 stand for the characters of Windows-1252 |
| `HtmlNames.EscapesAre` | taut/_vendor/src/golang.org/x/net/html/escape.go:196-234 | which six characters are escaped, and what for |
| `HtmlEscape.IndexEscaped` | taut/_vendor/src/golang.org/x/net/html/escape.go:199 | the first byte that has to be escaped |
| `HtmlEscape.Escape` | taut/_vendor/src/golang.org/x/net/html/escape.go:198-231 | the loop writes the escaped text |
| `HtmlEscape.EscapeString` | taut/_vendor/src/golang.org/x/net/html/escape.go:237-244 | the escaped string, or the string itself if nothing has to be escaped |
| `HtmlEscape.UnescapeString` | taut/_vendor/src/golang.org/x/net/html/escape.go:251-258 | the unescaped string, or the string itself if it has no ampersand |
| `HtmlEscape.MoveDown` | taut/_vendor/src/golang.org/x/net/html/token.go:1088-1101 | the rest of the buffer is moved down over a dropped byte |
| `HtmlEscape.ConvertNewlines` | taut/_vendor/src/golang.org/x/net/html/token.go:1076-1104 | every CR and CR LF becomes one LF, in place |
| `HtmlEscape.NewlinesClean` | taut/_vendor/src/golang.org/x/net/html/token.go:1076-1104 | no CR is left, and converting again changes nothing |
| `HtmlEscape.UnescapeEscape` | taut/_vendor/src/golang.org/x/net/html/escape.go:167-258 | unescaping what was escaped restores every byte string, in both modes |
| `HtmlEscape.TokenRoundTrip` | taut/_vendor/src/golang.org/x/net/html/token.go:1113-1162 | escaping, converting newlines and unescaping restores every byte string, CR included, in both modes |
| `HtmlEscape.NumericReference` | taut/_vendor/src/golang.org/x/net/html/escape.go:68-119 | every numeric reference, decimal or hexadecimal, with a semicolon or without, decodes to its value modulo 2^32 as an int32, and is left as it is if it takes up three bytes or fewer |
| `HtmlEscape.ValueSurvives` | taut/_vendor/src/golang.org/x/net/html/escape.go:81-119 | which values are decoded to what they stand for: exactly those below 2^32 and those whose remainder is replaced, too |
| `HtmlEscape.ReferenceIsItsValue` | taut/_vendor/src/golang.org/x/net/html/escape.go:68-119 | a numeric reference decodes to the code point that its digits write exactly if it is longer than three bytes and its value is one of those |
| `HtmlEscape.NoDigits` | taut/_vendor/src/golang.org/x/net/html/escape.go:72-108 | `&#x;` decodes to the replacement character |
| `HtmlEscape.BareReturnIsLost` | taut/_vendor/src/golang.org/x/net/html/token.go:1076-1104 | a carriage return that is not escaped is read as a newline |
| `HtmlEscape.LongReferenceWraps` | taut/_vendor/src/golang.org/x/net/html/escape.go:81-98 | a reference to 4294967361 decodes to the letter A |
| `HtmlReader.Source.ReadAtLeastOneByte` | taut/_vendor/src/golang.org/x/net/html/token.go:297-305 | a reader that hands out its bytes in pieces of any size and may report the end together with the last piece |
| `HtmlStream.RawsAreTheInput` | taut/_vendor/src/golang.org/x/net/html/token.go:1070-1072 | the raw bytes of all tokens, the first error token's included, are the input |
| `HtmlStream.TokensAreFew` | taut/_vendor/src/golang.org/x/net/html/token.go:950-1066 | there are at most as many tokens as bytes, and one error token |
| `HtmlStream.TokensAreAdjacent` | taut/_vendor/src/golang.org/x/net/html/token.go:950-1066 | each token starts where the one before it ended, is not empty unless it is an error, and its data and attributes lie in it one behind the other |
| `HtmlStream.ReplaceNuls` | taut/_vendor/src/golang.org/x/net/html/token.go:1120-1122 | NUL bytes become replacement characters |
| `HtmlStream.NulsReplaced` | taut/_vendor/src/golang.org/x/net/html/token.go:1120-1122 | no NUL is left |
| `HtmlStream.SameStream` | taut/_vendor/src/golang.org/x/net/html/token.go:1113-1162 | asking for a token's text or attributes does not change any later token |
| `HtmlMeaning.RawTextEnds` | taut/_vendor/src/golang.org/x/net/html/token.go:329-389 | raw text ends at the end of the input or in front of an end tag of its element |
| `HtmlMeaning.RawTextIsFirst` | taut/_vendor/src/golang.org/x/net/html/token.go:329-389 | raw text ends in front of the first end tag of its element that has an even number of less-than signs directly in front of it, and nowhere else |
| `HtmlMeaning.EndTagIsHidden` | taut/_vendor/src/golang.org/x/net/html/token.go:342-350 | an input whose end tag is not seen, as the byte behind a less-than sign is not looked at again |
| `HtmlMeaning.ScriptEnds` | taut/_vendor/src/golang.org/x/net/html/token.go:393-596 | a script ends at the end of the input or in front of a script end tag |
| `HtmlMeaning.ScriptIsFirst` | taut/_vendor/src/golang.org/x/net/html/token.go:393-596 | a script ends in front of its first script end tag, or at the end of the input if there is none, as long as no `<!--` comes before that |
| `HtmlMeaning.ScriptFallsBack` | taut/_vendor/src/golang.org/x/net/html/token.go:440-504 | behind `<!--` the first less-than sign that comes before any `-->` decides: a slash behind it leads to the check for an end tag, a letter to that for another script tag, and anything else back to plain script data |
| `HtmlMeaning.FallenCloses` | taut/_vendor/src/golang.org/x/net/html/token.go:393-596 | in `<!--<<script></script>` that is why the end tag closes the script |
| `HtmlMeaning.EscapedWouldNot` | taut/_vendor/src/golang.org/x/net/html/token.go:393-596 | had the script stayed in escaped text there, the end tag would be hidden |
| `HtmlMeaning.CommentEnds` | taut/_vendor/src/golang.org/x/net/html/token.go:600-642 | a comment ends behind two dashes, perhaps an exclamation mark, and a greater-than sign, and its data does not reach into them |
| `HtmlMeaning.CommentIsFirst` | taut/_vendor/src/golang.org/x/net/html/token.go:600-642 | it ends behind the first such end, where a dash directly behind the exclamation mark of a `--!` that closes nothing does not count, and where its data ends |
| `HtmlMeaning.EndIsSkipped` | taut/_vendor/src/golang.org/x/net/html/token.go:624-635 | the comment `<!--!-->` does not end there |
| `HtmlMeaning.TextRunsToTag` | taut/_vendor/src/golang.org/x/net/html/token.go:978-1018 | text is everything up to the first place where a tag, comment or declaration opens |
| `HtmlMeaning.TagIsRead` | taut/_vendor/src/golang.org/x/net/html/token.go:978-1057 | where one opens a token starts, and the byte behind the less-than sign decides what it is: a start tag with its name, an end tag, a declaration or a comment, or an error where a tag is cut off |
| `HtmlTokenizer.Tokenizer.constructor` | taut/_vendor/src/golang.org/x/net/html/token.go:1207-1219 | a tokenizer at the start of its input, in raw text if the context tag says so |
| `HtmlTokenizer.Tokenizer.MoveSpans` | taut/_vendor/src/golang.org/x/net/html/token.go:254-268 | all spans are shifted down by the same distance |
| `HtmlTokenizer.Tokenizer.CopyLive` | taut/_vendor/src/golang.org/x/net/html/token.go:245-253 | the live bytes stand at the front of a buffer with room for at least one more |
| `HtmlTokenizer.Tokenizer.MoveToFront` | taut/_vendor/src/golang.org/x/net/html/token.go:245-269 | compaction or growth changes nothing that can be seen of the current token |
| `HtmlTokenizer.Tokenizer.Fill` | taut/_vendor/src/golang.org/x/net/html/token.go:245-278 | refilling changes nothing that can be seen, and reads at least one byte unless the input is over |
| `HtmlTokenizer.Tokenizer.ReadByte` | taut/_vendor/src/golang.org/x/net/html/token.go:234-287 | the next byte of the input, or the error at its end, whatever the buffer and the reader do |
| `HtmlTokenizer.Tokenizer.SkipWhiteSpace` | taut/_vendor/src/golang.org/x/net/html/token.go:308-325 | white space is skipped up to the first other byte |
| `HtmlTokenizer.Tokenizer.ReadRawEndTag` | taut/_vendor/src/golang.org/x/net/html/token.go:366-389 | whether the raw text ends here; if so, the tokenizer is back in front of the end tag |
| `HtmlTokenizer.Tokenizer.ReadRawText` | taut/_vendor/src/golang.org/x/net/html/token.go:336-355 | the loop over raw text |
| `HtmlTokenizer.Tokenizer.ReadScriptLabel` | taut/_vendor/src/golang.org/x/net/html/token.go:398-595 | each label of readScript goes where the state machine says, with the same backing up |
| `HtmlTokenizer.Tokenizer.ReadScript` | taut/_vendor/src/golang.org/x/net/html/token.go:393-596 | the goto machine terminates and ends where the specification says |
| `HtmlTokenizer.Tokenizer.ReadRawOrRCDATA` | taut/_vendor/src/golang.org/x/net/html/token.go:329-360 | raw text, its flags and the cleared tag |
| `HtmlTokenizer.Tokenizer.ReadUntilCloseAngle` | taut/_vendor/src/golang.org/x/net/html/token.go:645-658 | everything up to the next greater-than sign |
| `HtmlTokenizer.Tokenizer.ReadComment` | taut/_vendor/src/golang.org/x/net/html/token.go:600-642 | a comment's data and end, dashes at the end of the input dropped |
| `HtmlTokenizer.Tokenizer.ReadDoctype` | taut/_vendor/src/golang.org/x/net/html/token.go:692-713 | a doctype, or back to where it was |
| `HtmlTokenizer.Tokenizer.ReadCDATA` | taut/_vendor/src/golang.org/x/net/html/token.go:717-752 | a CDATA section, or back to where it was |
| `HtmlTokenizer.Tokenizer.ReadMarkupDeclaration` | taut/_vendor/src/golang.org/x/net/html/token.go:663-688 | comment, doctype, CDATA section or bogus comment |
| `HtmlTokenizer.Tokenizer.ReadTagName` | taut/_vendor/src/golang.org/x/net/html/token.go:845-863 | the name's span |
| `HtmlTokenizer.Tokenizer.ReadTagAttrKey` | taut/_vendor/src/golang.org/x/net/html/token.go:867-885 | a key's span |
| `HtmlTokenizer.Tokenizer.ReadTagAttrVal` | taut/_vendor/src/golang.org/x/net/html/token.go:888-947 | a value's span: quoted, bare or missing |
| `HtmlTokenizer.Tokenizer.ReadTag` | taut/_vendor/src/golang.org/x/net/html/token.go:816-840 | the name and the attributes with their spans, none for end tags |
| `HtmlTokenizer.Tokenizer.StartTagIn` | taut/_vendor/src/golang.org/x/net/html/token.go:756-774 | whether the name is one of a list in any case |
| `HtmlTokenizer.Tokenizer.StartTagIsRaw` | taut/_vendor/src/golang.org/x/net/html/token.go:783-802 | looking only at the lists for the first letter finds exactly the raw text elements |
| `HtmlTokenizer.Tokenizer.ReadStartTag` | taut/_vendor/src/golang.org/x/net/html/token.go:778-810 | the start tag, whether it closes itself, and the raw text that is due |
| `HtmlTokenizer.Tokenizer.ReadEndTag` | taut/_vendor/src/golang.org/x/net/html/token.go:1023-1047 | end tag, empty tag, bogus comment or cut-off text |
| `HtmlTokenizer.Tokenizer.FindTag` | taut/_vendor/src/golang.org/x/net/html/token.go:978-1009 | up to the first tag, comment or declaration |
| `HtmlTokenizer.Tokenizer.Next` | taut/_vendor/src/golang.org/x/net/html/token.go:950-1066 | the token after this one is a function of the input alone, even if the current token's bytes have been changed in the buffer |
| `HtmlTokenizer.Tokenizer.RawBytes` | taut/_vendor/src/golang.org/x/net/html/token.go:1070-1072 | the token's bytes of the input |
| `HtmlTokenizer.Tokenizer.Text` | taut/_vendor/src/golang.org/x/net/html/token.go:1113-1129 | the text, decoded in place, and nothing behind the token touched |
| `HtmlTokenizer.Tokenizer.TagName` | taut/_vendor/src/golang.org/x/net/html/token.go:1134-1145 | the name in lower case, in place |
| `HtmlTokenizer.Tokenizer.TagAttr` | taut/_vendor/src/golang.org/x/net/html/token.go:1150-1162 | key and value of the next attribute, decoded in place without touching the attributes after it; nothing, and nothing changed, if there is none or the token is no start tag |
| `HtmlTokenizer.Tokenizer.Token` | taut/_vendor/src/golang.org/x/net/html/token.go:1166-1185 | the whole token is what its spans of the input mean |
| `HtmlTokenizer.RawTagsByLetter` | taut/_vendor/src/golang.org/x/net/html/token.go:788-802 | the lists by first letter hold exactly the raw text elements |
| `HtmlTokenizer.LowerInPlace` | taut/_vendor/src/golang.org/x/net/html/escape.go:187-194 | ASCII letters in lower case, in place |
| `HtmlTokenizer.Tokenize` | taut/_vendor/src/golang.org/x/net/html/token.go:950-1185 | all tokens up to the first error depend only on the input, however the reader hands it out |
| `HtmlAttributes.AttributeRead` | taut/_vendor/src/golang.org/x/net/html/token.go:867-946 | an attribute spelled with any white space around its `=` and behind it, its value in quotes of either kind, bare or missing: its key is marked as what stands up to the next stop byte, and its value as what stands between the quotes or up to white space or `>` |
| `HtmlAttributes.TagRead` | taut/_vendor/src/golang.org/x/net/html/token.go:816-865 | of a whole tag spelled like that the name and every attribute are marked where they stand, in order, and the tag ends behind its `>` |
| `HtmlRoundTrip.TagString` | taut/_vendor/src/golang.org/x/net/html/token.go:84-97 | the loop writes the name and, for each attribute, a space, the key and the escaped value in quotes |
| `HtmlRoundTrip.String` | taut/_vendor/src/golang.org/x/net/html/token.go:100-118 | the string of a token of each type |
| `HtmlRoundTrip.SpelledBack` | taut/_vendor/src/golang.org/x/net/html/token.go:778-946 | for every spelling of a start tag, wherever it stands: the name and the keys in lower case, the values with their references decoded, self-closing exactly if a slash stands in front of the `>`, and raw text due exactly for its elements |
| `HtmlRoundTrip.StartTagBack` | taut/_vendor/src/golang.org/x/net/html/token.go:84-118 | a start tag that String has written is read back, its values byte for byte |
| `HtmlRoundTrip.CommentBack` | taut/_vendor/src/golang.org/x/net/html/token.go:600-642 | so is a comment whose text does not end it early; comments are decoded although they are not escaped |
| `HtmlRoundTrip.DoctypeBack` | taut/_vendor/src/golang.org/x/net/html/token.go:692-714 | so is a doctype whose text has no `>` and begins with no white space |
| `HtmlRoundTrip.StringsBack` | taut/_vendor/src/golang.org/x/net/html/token.go:100-118 | whatever list of such tokens String has written is read back as these tokens, with texts next to each other joined, and then the error token |
| `HtmlRoundTrip.RereadSame` | taut/_vendor/src/golang.org/x/net/html/token.go:1113-1131 | which comments and doctypes come back unchanged |
| `HtmlRoundTrip.CommentsFit` | taut/_vendor/src/golang.org/x/net/html/token.go:600-642 | text without `>` and without `!` at its end never ends a comment early |
| `HtmlRoundTrip.OneTagBack` | taut/_vendor/src/golang.org/x/net/html/token.go:888-946 | `<name key="` and any escaped value and `">` give one start tag with the name and the key in lower case and that value, and then the error token, for every name, those of raw text elements included |
| `HtmlRoundTrip.BareSlash` | taut/_vendor/src/golang.org/x/net/html/token.go:778-946 | in `<a b=c/>` the value is `c/`, and the tag closes itself all the same |
| `HtmlElements.LowerIsSmall` | taut/_vendor/src/golang.org/x/net/html/token.go:1134-1163 | a capital becomes its small letter, every other byte stays, and these are the letters |
| `HtmlElements.StopsAre` | taut/_vendor/src/golang.org/x/net/html/token.go:308-323 | which bytes are white space and which end a name, a key and a bare value |
| `HtmlElements.WordsAre` | taut/_vendor/src/golang.org/x/net/html/token.go:778-812 | the ten elements of raw text, and the words that open a doctype and a CDATA section |
| `HtmlElements.ElementBack` | taut/_vendor/src/golang.org/x/net/html/token.go:329-362 | an element of raw text in front of anything that String has written: start tag, the text up to its end tag, end tag, and the rest |
| `HtmlElements.RawMeansBack` | taut/_vendor/src/golang.org/x/net/html/token.go:1113-1131 | titles and text areas are decoded, so that escaped text comes back but for its NULs; the text of all others is left as it is |
| `HtmlElements.PlaintextBack` | taut/_vendor/src/golang.org/x/net/html/token.go:950-972 | behind a plaintext tag everything is text |
| `HtmlDeclarations.DeclarationIs` | taut/_vendor/src/golang.org/x/net/html/token.go:663-752 | a declaration without two dashes is a doctype exactly if the word follows, in either case, and CDATA exactly if that is allowed and `[CDATA[` follows; the data of each, up to the first `>` or `]]>`; all others are comments, of which a word that is cut off by the end of the input is no part |
| `HtmlDeclarations.DeclarationCut` | taut/_vendor/src/golang.org/x/net/html/token.go:663-671 | a declaration of fewer than two bytes is a comment of what is left |
| `HtmlDeclarations.BogusIs` | taut/_vendor/src/golang.org/x/net/html/token.go:1014-1062 | behind `<?`, and behind `</` and no letter, a comment goes up to the first `>` |
| `HtmlNodes.InsertKeeps` | taut/_vendor/src/golang.org/x/net/html/node.go:53-94 | inserting an unattached node keeps the pointers of every list in step with its sequence of children |
| `HtmlNodes.RemoveKeeps` | taut/_vendor/src/golang.org/x/net/html/node.go:100-119 | removing a child does, too, and leaves it unattached |
| `HtmlNodes.RemoveUndoesInsert` | taut/_vendor/src/golang.org/x/net/html/node.go:53-119 | removing what was inserted restores every pointer of every node |
| `HtmlNodes.Node.InsertBefore` | taut/_vendor/src/golang.org/x/net/html/node.go:53-76 | the child comes in front of the other in the sequence, or last; attached children make it panic and change nothing; the lists stay consistent exactly if it panics or the other is a child of this node or nil; parents that form no cycle form none afterwards exactly if it panics or the child is neither this node nor above it |
| `HtmlNodes.Misplaced` | taut/_vendor/src/golang.org/x/net/html/node.go:53-76 | a node whose next sibling has another parent fits no lists of children |
| `HtmlNodes.Node.AppendChild` | taut/_vendor/src/golang.org/x/net/html/node.go:81-94 | the child comes last; attached children make it panic and change nothing; parents form no cycle afterwards under the same condition |
| `HtmlNodes.Reparented` | taut/_vendor/src/golang.org/x/net/html/node.go:53-94 | giving a parent to a node without one closes a cycle exactly if that parent is the node itself or below it |
| `HtmlNodes.RemoveAcyclic` | taut/_vendor/src/golang.org/x/net/html/node.go:100-119 | removing a child closes no cycle |
| `HtmlNodes.Node.RemoveChild` | taut/_vendor/src/golang.org/x/net/html/node.go:100-119 | the child is taken from the sequence; it panics exactly for a node that is no child |
| `HtmlNodes.ReparentChildren` | taut/_vendor/src/golang.org/x/net/html/node.go:122-131 | where it returns, all of the source's children are behind the destination's, in order, and other lists as they were |
| `HtmlNodes.MoveFirst` | taut/_vendor/src/golang.org/x/net/html/node.go:128-129 | one round makes the source's first child the destination's last |
| `HtmlNodes.RoundLists` | taut/_vendor/src/golang.org/x/net/html/node.go:128-129 | what a round does to the lists: with the same node twice it moves the first child to the end |
| `HtmlNodes.ReturnsExactly` | taut/_vendor/src/golang.org/x/net/html/node.go:122-131 | it returns exactly if the nodes are different or there is nothing to move |
| `HtmlNodes.NodeStack.Index` | taut/_vendor/src/golang.org/x/net/html/node.go:167-174 | the topmost occurrence, or -1 |
| `HtmlNodes.NodeStack.Insert` | taut/_vendor/src/golang.org/x/net/html/node.go:177-181 | insertion at an index, the rest in order |
| `HtmlNodes.NodeStack.Remove` | taut/_vendor/src/golang.org/x/net/html/node.go:184-193 | only the topmost occurrence goes |
| `HtmlNodes.NodeStack.Pop` | taut/_vendor/src/golang.org/x/net/html/node.go:150-155 | the last one goes |
| `HtmlNodes.NodeStack.Top` | taut/_vendor/src/golang.org/x/net/html/node.go:158-163 | the last one, or nil |
| `HtmlNodes.StackRoundTrip` | taut/_vendor/src/golang.org/x/net/html/node.go:167-193 | removing what was just inserted restores the stack exactly if only that node stands between the place and its topmost earlier occurrence |
| `ContextTree.AboveIsAncestor` | taut/_vendor/src/golang.org/x/net/context/context.go:256-269 | parentCancelCtx follows the chain of parents |
| `ContextTree.AboveReaches` | taut/_vendor/src/golang.org/x/net/context/context.go:256-269 | contexts that can be canceled are reached over such contexts alone |
| `ContextTree.DeadlinesShrink` | taut/_vendor/src/golang.org/x/net/context/context.go:351-388 | a reported deadline never gets later down a chain of parents |
| `ContextTree.GrowKeeps` | taut/_vendor/src/golang.org/x/net/context/context.go:427-447 | deriving a context changes no other context's parent, deadline or values |
| `ContextProof.LockOrder` | taut/_vendor/src/golang.org/x/net/context/context.go:226-340 | whatever runs while a lock is held is about a context derived from that lock's |
| `ContextProof.FrameKept` | taut/_vendor/src/golang.org/x/net/context/context.go:226-406 | what one activation relies on is not disturbed by any step of another goroutine |
| `ContextProof.StepNode` | taut/_vendor/src/golang.org/x/net/context/context.go:226-406 | each step keeps every context's invariant |
| `ContextProof.StaleBefore` | taut/_vendor/src/golang.org/x/net/context/context.go:272-340 | a canceled child of a live context was canceled by someone who will remove it |
| `ContextRuns.StepKeeps` | taut/_vendor/src/golang.org/x/net/context/context.go:226-406 | every step of every goroutine keeps the invariant |
| `ContextRuns.BeginKeeps` | taut/_vendor/src/golang.org/x/net/context/context.go:211-429 | every call and every timer that fires does |
| `ContextSafety.RunKeeps` | taut/_vendor/src/golang.org/x/net/context/context.go:211-429 | so every run does |
| `ContextSafety.Reached` | taut/_vendor/src/golang.org/x/net/context/context.go:211-429 | and the invariant holds in every state that a run leads to from the start, when there are no contexts |
| `ContextSafety.PassedOn` | taut/_vendor/src/golang.org/x/net/context/context.go:319-336 | in every reachable state: if a canceled context's lock is free, what was derived from it is canceled, its channel closed and its children gone |
| `ContextSafety.QuietTree` | taut/_vendor/src/golang.org/x/net/context/context.go:211-406 | in every reachable state with no call in progress: done is closed exactly if there is an error, descendants of canceled contexts are canceled, and a live context's children are exactly its live nearest descendants |
| `ContextSafety.RunLater` | taut/_vendor/src/golang.org/x/net/context/context.go:292-336 | over every run from a reachable state errors are written once and channels stay closed |
| `ContextSafety.ClosedOnce` | taut/_vendor/src/golang.org/x/net/context/context.go:329 | in no reachable state a closed channel is about to be closed again |
| `ContextSafety.LocksGoDown` | taut/_vendor/src/golang.org/x/net/context/context.go:226-340 | in every reachable state a lock taken while another is held belongs to a descendant of the holder |
| `ContextSafety.SomeoneRuns` | taut/_vendor/src/golang.org/x/net/context/context.go:226-406 | in every reachable state with a call in progress some goroutine can take a step: there is no deadlock |
| `ContextProgress.RunsEnd` | taut/_vendor/src/golang.org/x/net/context/context.go:226-406 | from every reachable state only a bounded number of steps is left without new calls, so the recursion of cancel ends |
| `ContextProgress.AllReturn` | taut/_vendor/src/golang.org/x/net/context/context.go:226-406 | every reachable state leads to one with no call in progress |
| `ContextProgress.CancelReaches` | taut/_vendor/src/golang.org/x/net/context/context.go:211-215 | after a call of a cancel function in a reachable state, whatever else goes on, everything derived from the context by the time no call is in progress has been canceled |
| `ContextErrors.ErrorsHaveCauses` | taut/_vendor/src/golang.org/x/net/context/context.go:207-416 | over every run from the start: a context with the error Canceled is at or below one whose cancel function was called, and one with DeadlineExceeded at or below one with a deadline whose timer has fired or that WithDeadline has found over |
| `ContextTimers.NewContextIs` | taut/_vendor/src/golang.org/x/net/context/context.go:211-447 | a new context has the earlier one of its own deadline and its parent's, its parent's values but for its own, and can be canceled unless it only holds a value |
| `ContextTimers.QuietTimers` | taut/_vendor/src/golang.org/x/net/context/context.go:351-416 | in every reachable state with no call in progress every context has been returned, and a timer is set exactly for the contexts with a deadline that are not canceled |
| `ContextTimers.CanceledExactly` | taut/_vendor/src/golang.org/x/net/context/context.go:207-416 | in every reachable state with no call in progress a context that can be canceled is canceled exactly if a cancel function has been called, a timer has fired or a deadline was found over at it or above it |
| `ContextObjects.Context.ParentCancelCtx` | taut/_vendor/src/golang.org/x/net/context/context.go:256-269 | the nearest context above that can be canceled |
| `ContextObjects.Context.RemoveChild` | taut/_vendor/src/golang.org/x/net/context/context.go:272-282 | the context is taken from its parent's children and nothing else changes |
| `ContextObjects.Context.CancelChildren` | taut/_vendor/src/golang.org/x/net/context/context.go:330-333 | the loop cancels the trees of all children, in any order |
| `ContextObjects.Context.CancelFirst` | taut/_vendor/src/golang.org/x/net/context/context.go:323-335 | the first call cancels exactly the context and what can be canceled below it, with this error |
| `ContextObjects.Context.Cancel` | taut/_vendor/src/golang.org/x/net/context/context.go:319-406 | cancel on either kind of context, with or without removal: exactly the live contexts at or below it get the error, and those canceled before keep theirs |
| `ContextObjects.CancelGood` | taut/_vendor/src/golang.org/x/net/context/context.go:319-406 | after a cancel call the whole tree is as it should be between calls, and canceling again changes nothing |
| `ContextObjects.PropagateCancel` | taut/_vendor/src/golang.org/x/net/context/context.go:226-243 | the new context is canceled with its parent's error or becomes its child |
| `ContextObjects.PropagatedGood` | taut/_vendor/src/golang.org/x/net/context/context.go:226-243 | then the whole tree is as it should be |
| `ContextObjects.WithCancel` | taut/_vendor/src/golang.org/x/net/context/context.go:211-223 | a new context in its place |
| `ContextObjects.TimedIs` | taut/_vendor/src/golang.org/x/net/context/context.go:360-373 | canceling the new context at once leaves its parent as it was before it was derived |
| `ContextObjects.WithDeadline` | taut/_vendor/src/golang.org/x/net/context/context.go:351-374 | a deadline no later than asked for and than the parent's; the whole new state: canceled like its parent, canceled as its deadline is over, or with its timer set among its parent's children; all other contexts keep their errors |
| `ContextObjects.WithValue` | taut/_vendor/src/golang.org/x/net/context/context.go:427-429 | a new context that takes no part in cancellation |
| `ContextObjects.DeadlineOf` | taut/_vendor/src/golang.org/x/net/context/context.go:386-388 | the deadline of the nearest context that has one |
| `IcmpChecksum.FoldIsRemainder` | taut/_vendor/src/golang.org/x/net/icmp/message.go:44-46 | folding is the remainder modulo 65535, with zero exactly for a sum of zero |
| `IcmpChecksum.Checksum` | taut/_vendor/src/golang.org/x/net/icmp/message.go:35-47 | the loop computes the checksum of the sum modulo 2^32, for every buffer of even or odd length |
| `IcmpChecksum.SmallSum` | taut/_vendor/src/golang.org/x/net/icmp/message.go:37-40 | up to 131074 bytes the sum does not wrap around |
| `IcmpChecksum.PatchIsRight` | taut/_vendor/src/golang.org/x/net/icmp/message.go:99-104 | putting the checksum in with exclusive or makes the buffer's checksum zero exactly if the field has no bit in common with it, or just the highest bit when the sum has wrapped around to 16 bits, which up to 131074 bytes it never does |
| `IcmpChecksum.PresetFieldFails` | taut/_vendor/src/golang.org/x/net/icmp/message.go:101-104 | over a field that holds a one the exclusive or puts in a wrong checksum, against what the comment says of it |
| `IcmpChecksum.ZeroField` | taut/_vendor/src/golang.org/x/net/icmp/multipart.go:76-78 | over a field of zeros, which all messages start with, it is right |
| `IcmpMessage.PlaceChecksum` | taut/_vendor/src/golang.org/x/net/icmp/message.go:99-103 | the checksum goes to the two bytes of the field, and no others change |
| `IcmpMessage.Marshal` | taut/_vendor/src/golang.org/x/net/icmp/message.go:71-105 | when it panics; the checksum of the message, with the pseudo header for ICMPv6, is zero, and type, code and body are in place; an ICMPv4 message loses as many bytes as the pseudo header given with it has |
| `IcmpObjects.LabelBack` | taut/_vendor/src/golang.org/x/net/icmp/mpls.go:47-69 | a label comes back with each field reduced to its width |
| `IcmpObjects.LabelsBack` | taut/_vendor/src/golang.org/x/net/icmp/mpls.go:41-75 | so does a stack of labels |
| `IcmpObjectRoundTrip.NameBack` | taut/_vendor/src/golang.org/x/net/icmp/interface.go:165-184 | a name comes back with what was in its field behind it, cut to 63 bytes and without the NULs at its ends |
| `IcmpObjectRoundTrip.TrimmedIsSame` | taut/_vendor/src/golang.org/x/net/icmp/interface.go:172-184 | which leaves it alone exactly if it has none |
| `IcmpObjectRoundTrip.AddrBack` | taut/_vendor/src/golang.org/x/net/icmp/interface.go:126-163 | an address comes back, whatever its reserved bytes |
| `IcmpObjectRoundTrip.AttrsBack` | taut/_vendor/src/golang.org/x/net/icmp/interface.go:91-235 | attribute by attribute, what is carried is taken and everything else left at zero, if the type names all that is carried and none that is missing in front of it |
| `IcmpObjectRoundTrip.InfoBack` | taut/_vendor/src/golang.org/x/net/icmp/interface.go:91-235 | so an interface information object comes back as Received says, whatever it was written over |
| `IcmpObjectRoundTrip.ParseKeeps` | taut/_vendor/src/golang.org/x/net/icmp/interface.go:199-235 | whatever the bytes, parsing leaves alone what the type does not name |
| `IcmpObjectRoundTrip.Uncovered` | taut/_vendor/src/golang.org/x/net/icmp/interface.go:91-235 | an object whose type names less than it carries, or an attribute that is missing in front of others, does not come back: bytes of one attribute are read as another |
| `IcmpObjectRoundTrip.MPLSBack` | taut/_vendor/src/golang.org/x/net/icmp/mpls.go:41-75 | an MPLS object comes back as Received says |
| `IcmpObjectRoundTrip.ReceivedIsSame` | taut/_vendor/src/golang.org/x/net/icmp/interface.go:44-235 | what comes back is the object exactly if it is canonical |
| `IcmpObjectRoundTrip.ObjectIsSame` | taut/_vendor/src/golang.org/x/net/icmp/interface.go:44-235 | an object whose length fits its field comes back as it was exactly if it is canonical, its type included |
| `IcmpMarshal.MarshalMPLS` | taut/_vendor/src/golang.org/x/net/icmp/mpls.go:41-56 | the object's bytes are written and no others |
| `IcmpMarshal.MarshalIPAddr` | taut/_vendor/src/golang.org/x/net/icmp/interface.go:126-138 | family and address are written, and the two bytes between them are left as they were |
| `IcmpMarshal.MarshalName` | taut/_vendor/src/golang.org/x/net/icmp/interface.go:165-170 | length and name are written and nothing else, a long name beyond its field as far as there is room |
| `IcmpMarshal.MarshalAttr` | taut/_vendor/src/golang.org/x/net/icmp/interface.go:94-109 | one round of the loop writes the next attribute, and what is left to be done completes what there was to be done |
| `IcmpMarshal.MarshalAttrs` | taut/_vendor/src/golang.org/x/net/icmp/interface.go:94-109 | the whole buffer after the loop, whatever it held and whatever the name's length |
| `IcmpMarshal.MarshalInfo` | taut/_vendor/src/golang.org/x/net/icmp/interface.go:91-111 | the whole buffer after an object, whatever it held |
| `IcmpOverwrite.ObjectSplit` | taut/_vendor/src/golang.org/x/net/icmp/interface.go:91-111 | an object is written to its place; behind it only the end of a name of more than 63 bytes is written, less four bytes if there is an MTU |
| `IcmpOverwrite.BlankObject` | taut/_vendor/src/golang.org/x/net/icmp/interface.go:91-111 | over zeros its bytes are header, index, address, name and MTU as on the wire |
| `IcmpMultipart.BodyDataLen` | taut/_vendor/src/golang.org/x/net/icmp/multipart.go:13-25 | the lengths of the body and of the padded data |
| `IcmpMultipart.MarshalObjects` | taut/_vendor/src/golang.org/x/net/icmp/multipart.go:60-75 | the whole buffer after the loop, for every list of objects and whatever the buffer held: the objects one behind the other, each over what a long name of the one before it has left there |
| `IcmpMultipart.MarshalStructure` | taut/_vendor/src/golang.org/x/net/icmp/multipart.go:57-78 | header, objects and checksum at the end of the buffer, nothing in front of them |
| `IcmpMultipart.MarshalMultipartMessageBody` | taut/_vendor/src/golang.org/x/net/icmp/multipart.go:53-87 | the whole body for all data and objects: length byte, padded data and extension structure |
| `IcmpParse.ParseMPLSLabelStack` | taut/_vendor/src/golang.org/x/net/icmp/mpls.go:58-75 | the loop over the labels |
| `IcmpParse.ParseIPAddr` | taut/_vendor/src/golang.org/x/net/icmp/interface.go:140-163 | address, unknown family or too short |
| `IcmpParse.ParseName` | taut/_vendor/src/golang.org/x/net/icmp/interface.go:172-184 | name, invalid or too short |
| `IcmpParse.ParseInterfaceInfo` | taut/_vendor/src/golang.org/x/net/icmp/interface.go:199-235 | the loop over the attributes, its errors and the zone |
| `IcmpParse.ValidExtensionHeader` | taut/_vendor/src/golang.org/x/net/icmp/extension.go:20-30 | version 2 and a checksum that is zero or right |
| `IcmpParse.ParseObjects` | taut/_vendor/src/golang.org/x/net/icmp/extension.go:63-84 | the loop over the objects: unknown classes skipped, bad lengths ending it |
| `IcmpParse.ParseExtensions` | taut/_vendor/src/golang.org/x/net/icmp/extension.go:39-87 | the correction of the length attribute and the objects |
| `IcmpParse.ParseMultipartMessageBody` | taut/_vendor/src/golang.org/x/net/icmp/multipart.go:91-109 | data and extensions, or all of it as data |
| `IcmpRoundTrip.LengthByte` | taut/_vendor/src/golang.org/x/net/icmp/multipart.go:80-84 | the length byte is right exactly up to 1019 bytes of data for ICMPv4 and 2039 for ICMPv6 |
| `IcmpRoundTrip.StructureIsValid` | taut/_vendor/src/golang.org/x/net/icmp/extension.go:20-30 | a marshaled extension structure is accepted |
| `IcmpRoundTrip.ObjectsAreWires` | taut/_vendor/src/golang.org/x/net/icmp/multipart.go:60-75 | over zeros, and with names of at most 63 bytes but for the last object, the bytes are those of the objects one behind the other |
| `IcmpRoundTrip.ObjectsBack` | taut/_vendor/src/golang.org/x/net/icmp/extension.go:63-84 | a marshaled list of objects comes back as ReceivedAll says, with what a long name has left in the padding of the next name |
| `IcmpRoundTrip.ReceivedAlone` | taut/_vendor/src/golang.org/x/net/icmp/extension.go:63-84 | without such names each object comes back as if it were alone |
| `IcmpRoundTrip.LongStack` | taut/_vendor/src/golang.org/x/net/icmp/extension.go:68-72 | labels that take 65536 bytes or more do not come back: the length is taken modulo 65536 |
| `IcmpRoundTrip.ObjectsAreSame` | taut/_vendor/src/golang.org/x/net/icmp/extension.go:63-84 | any list of objects comes back as it was exactly if all are canonical |
| `IcmpRoundTrip.TooMuchData` | taut/_vendor/src/golang.org/x/net/icmp/multipart.go:80-109 | of more data than that something of another length comes back |
| `IcmpRoundTrip.BodyBack` | taut/_vendor/src/golang.org/x/net/icmp/multipart.go:53-109 | the data comes back padded with zeros exactly up to 1019 bytes for ICMPv4 and 2039 for ICMPv6, and then the objects come as ReceivedAll says, if their types and lengths fit |
| `IcmpRoundTrip.BodyRoundTrip` | taut/_vendor/src/golang.org/x/net/icmp/multipart.go:53-109 | for all data and all objects, of whatever types, names and lengths: both come back as they were exactly if there is no more data than that and all objects are canonical |
| `IcmpWire.WordsAreNumbers` | taut/_vendor/src/golang.org/x/net/icmp/multipart.go:53-109 | integers of 16 and 32 bits are in network order |
| `IcmpWire.ChecksumLaw` | taut/_vendor/src/golang.org/x/net/icmp/message.go:35-49 | up to 131074 bytes the words in network order and the stored checksum together make a multiple of 65535, and the checksum is 65535 exactly for zeros |
| `IcmpWire.ZeroMeans` | taut/_vendor/src/golang.org/x/net/icmp/message.go:35-49 | a checksum of zero says that the words make a multiple of 65535 that is not zero |
| `IcmpWire.LabelWord` | taut/_vendor/src/golang.org/x/net/icmp/mpls.go:41-55 | a label is 20 bits of label, three of traffic class, one for the bottom of the stack and eight of time to live, in a word of 32 bits |
| `IcmpWire.LabelsAreWords` | taut/_vendor/src/golang.org/x/net/icmp/mpls.go:58-75 | any bytes are read as labels, one for every four bytes, with the fields there, and what is left over is not read |
| `IcmpWire.HeaderIs` | taut/_vendor/src/golang.org/x/net/icmp/extension.go:20-30 | on any bytes a header is accepted exactly if its version is two and its checksum zero or right for all that follows |
| `IcmpWire.ExtensionsAre` | taut/_vendor/src/golang.org/x/net/icmp/extension.go:39-61 | on any bytes: the extensions begin where the length attribute says if that is at least 128, leaves room and a header stands there, and behind 128 bytes otherwise; without a header there, there are none |
| `IcmpWire.BodyIs` | taut/_vendor/src/golang.org/x/net/icmp/multipart.go:91-109 | on any bytes of a body: data and extensions if there are some and all can be read, and all of it as data otherwise |
| `IcmpWire.ObjectRead` | taut/_vendor/src/golang.org/x/net/icmp/extension.go:63-84 | an object of another class is skipped, label stacks and interface information are taken, and one that cannot be read fails all |
| `IcmpWire.LengthEnds` | taut/_vendor/src/golang.org/x/net/icmp/extension.go:63-68 | a length below four or beyond the end ends the reading |
| `IcmpWire.TypeBits` | taut/_vendor/src/golang.org/x/net/icmp/interface.go:14-34 | the low four bits of a type stand for index, address, name and MTU, from the highest one |
| `IcmpWire.NameRead` | taut/_vendor/src/golang.org/x/net/icmp/interface.go:172-184 | a name on any bytes: which lengths are refused and how, and that the name is what stands there without the NULs at its ends |
| `IcmpWire.AddrRead` | taut/_vendor/src/golang.org/x/net/icmp/interface.go:140-163 | an address on any bytes: four of family 1, sixteen of family 2, none of another, or too short |
| `IcmpWire.WireBack` | taut/_vendor/src/golang.org/x/net/icmp/extension.go:63-84 | a canonical object is read from its bytes on the wire |
| `IcmpWire.StackBytes` | taut/_vendor/src/golang.org/x/net/icmp/extension_test.go:20-89 | the bytes of three label stacks |
| `IcmpWire.InfoBytes` | taut/_vendor/src/golang.org/x/net/icmp/extension_test.go:90-121 | the bytes of interface information without attributes, and with index and name |
| `IcmpWire.AddressBytes` | taut/_vendor/src/golang.org/x/net/icmp/extension_test.go:123-156 | the bytes of interface information with index, address, name and MTU |
| `IcmpWire.PaddedIs` | taut/_vendor/src/golang.org/x/net/icmp/multipart.go:30-48 | data in front of extensions takes 128 bytes, or the least multiple of four or eight that is more |
| `IcmpWire.BodyBytes` | taut/_vendor/src/golang.org/x/net/icmp/multipart.go:53-87 | the length byte in words, the data and zeros, the extension header and the objects stand one behind the other |
| `IcmpWire.LengthField` | taut/_vendor/src/golang.org/x/net/icmp/message.go:71-90 | the length of the message stands in network order behind two addresses of 16 bytes |

## Left out

- PunycodeDecode.Decode: assumes an input of fewer than 2^31 - 1 characters, the range of the counter.
- PunycodeEncode.Encode: likewise, as the characters are counted in int32.
- Idna.ToASCII: likewise.
- Idna.ToUnicode: likewise.
- SuffixGenerator.Generator.EncodeEntry: node numbers are unbounded there; the conversion of a first child's number of 2^32 or more to uint32 is not modelled.
- SuffixText.Sort: stands for sort.Strings, as an insertion sort; only that the result is a sorted permutation matters.
- HtmlReader.Source.ReadAtLeastOneByte: does not model a reader that makes no progress a hundred times; any error ends the input.
- HtmlMeaning.ScriptEnds: does not say which of the script end tags it is; HtmlMeaning.ScriptIsFirst does for scripts without `<!--`, and behind it the labels of readScript decide.
- IcmpRoundTrip.BodyBack: does not say what comes back of an object whose type names an attribute that is missing in front of others, but that it is another object.
- HtmlAttributes.TagRead: does not say what is marked in tags with stray slashes or equals signs or with empty keys, beyond what HtmlTokens says.
- HtmlRoundTrip.StringsBack: a start tag behind which raw text is due is not in these lists; HtmlElements.ElementBack and HtmlElements.PlaintextBack are about these.
- HtmlElements.ElementBack: does not say which text a script has that contains `<!--`; HtmlMeaning.ScriptFallsBack is about that.
- SuffixLines.SuffixIsText: comments, empty lines and the section marks of the list's file are not modelled; lines are rules.
- IcmpWire.HeaderIs: up to 131074 bytes; beyond that the sum of the words wraps around, as IcmpChecksum.Checksum says.
- IcmpWire.ExtensionsAre: likewise.
- IcmpWire.BodyIs: likewise.
- HtmlTokenizer.Tokenizer.ReadByte: does not model the limit on the buffer's size.
- HtmlTokenizer.Tokenizer.Text: returns the bytes instead of a slice of the buffer, so that the slice's aliasing is not modelled; the in-place work is done on a copy of the slice that is written back.
- HtmlTokenizer.Tokenizer.TagName: likewise.
- HtmlTokenizer.Tokenizer.TagAttr: likewise.
- HtmlTokenizer.Tokenizer.Token: leaves out the lookup of atoms.
- HtmlTokenizer.Tokenizer.SkipWhiteSpace: like the other readers, takes a step back over a byte by a small method that changes the position, where the source writes the assignment.
- ContextSafety.QuietTree: the contexts are values with numbers there, as goroutines interleave; the objects are in ContextObjects.
- ContextSafety.RunKeeps: parents of types from other packages, which propagateCancel watches with a goroutine, are not modelled; clocks are a choice at WithDeadline, and a timer that is set may fire at any time and more than once.
- ContextObjects.Context.Cancel: no other call is in progress, so locks are not modelled there.
- ContextObjects.PropagateCancel: parents of types from other packages and their goroutine are not modelled there either.
- IcmpMessage.Marshal: does not model that append may write to the caller's pseudo header.
- The entity tables of html/entity.go are parameters, with the facts that no expansion is longer than its name and ampersand and that amp, lt and gt are there.
- Words of 32 bits with disjoint fields joined by a bitwise or are sums here.
- html/parse.go and html/render.go, the printing of Go source and the -subset and -test modes of gen.go, and the download of the list.
- The sockets of icmp and the packages ipv4, ipv6 and proxy: system calls and constants.
- nudger, taut and the slack client: HTTP, JSON and channels between them.
- Units, command-line parsing, netutil and webdav: small or not about a protocol.
