# libpeios: a verified model of its core algorithms

libpeios is the user-space library of Peios. Most of it packs arguments for system calls; six parts
of it are algorithms in their own right, and this project models those and proves what they are for.

- **Event ring reader** (`EventHeader`, `EventReader`, `EventProgress`). A lock-free consumer of a per-CPU ring that
  laps. Producer and reader are interleaved one atomic step at a time: the producer gives up the tail
  before it overwrites and publishes the write position after it has written, and the reader's loads
  (positions, tail, and each header byte) are separate steps. The producer may store any byte in its
  reserved slot in any order. The theorems hold for every schedule; `EventProgress` shows that
  this producer can publish any valid next event, so they are not about idle rings.
- **Conditional-ACE compiler** (`Condition`, `CondMeaning`, `Artx`, `ArtxMachine`, `CondText`, `CondParse`,
  `CondParser`, `CondSpelling`, `CondGrammar`, `CondRoundTrip`, `CondExact`). The condition tree, its postfix
  bytecode and stack-machine decoder (section 2.4.4.17 of MS-DTYP), and the text printer and recursive-descent
  parser (section 2.5.1 of MS-DTYP). `ArtxMachine` is an evaluator of the bytecode and `CondGrammar` a grammar
  of the text, both with codes and characters of their own: encoder, decoder and parser are proved against them.
- **MessagePack** (`Utf8`, `MsgPack`, `MsgPackGrammar`, `MsgPackCursor`, `MsgPackWriter`, `MsgPackRoundTrip`,
  `MsgPackWalker`, `AuditContext`, `AuditEncoder`). The format table and a recursive grammar are the reference; the
  cursor, the stack-machine validator, the writer, the second structural walker and the second encoder
  are proved against them.
- **Security descriptors and inheritance** (`Sid`, `Utf16`, `SecurityDescriptor`,
  `DescriptorBuilders`, `Inherit`, `InheritRules`, `Reinherit`, `StripInherited`, `DescriptorRules`,
  `Repropagation`). SIDs, ACEs, ACLs and self-relative descriptors, ACE inheritance (section 2.5.3.4.4 of
  MS-DTYP), re-propagation and stripping. The two modules of rules say what comes out bit by bit, with every
  code written out.
- **Emission policy** (`PolicyTree`, `PolicyWatch`, `PolicyCache`, `PolicyHandle`). The walk of the
  `Events` tree, the watch records, and the cached handle over a changing registry.
- **Ancillary data and claims** (`Ancillary`, `Claims`, `ClaimEncoders`). Control messages and the
  descriptors they hand over; two layouts of one claim format.

Code that computes values is modelled as functions. Code that loops or updates an object is modelled
as a method or a class with the same fields and is proved equal to such a function (`Cursor`,
`Validate`, `Writer`, `Decoder`, `Parser`, `AceIter`, `Policy`, `SocketMessage`, the builders and
encoders); the lemmas are about the functions. A failed operation is `None`, or a constructor of its
own where the caller can tell failures apart.

## Findings

Four promises do not hold of the code as it stands; each has the exact condition beside it.

- A condition whose composite literal holds an attribute reference encodes to bytecode that does not
  decode (`Artx.AttributeInCompositeIsLost`); `Artx.ArtxRoundTripExact` says, for every condition,
  when it comes back.
- `strip_outer_parens` counts parentheses inside string literals, so a bare printed condition can lose
  two unrelated groups and fail to parse (`CondRoundTrip.StripperMiscounts`). The printer also writes
  operands the parser has no text for: the least `i64` (`CondText.LeastIntIsLost`), a string with a
  quote, an empty octet string, an illegal name. `CondExact.BareRoundTrip` and
  `CondExact.WrappedRoundTrip` say exactly which printed conditions read back, bare and in the
  parentheses of an ACE.
- With no field, the audit encoder returns before its own check: the result is a valid context exactly
  when the kind is at most 4087 bytes long (`AuditEncoder.EncodeAuditContext`);
  `AuditEncoder.LongKindIsEncoded` has one that is not.
- While `Events` does not exist the policy handle watches the nearest ancestor it *can* watch, not the
  nearest there is. If `Generic` exists but cannot be watched, a change under it goes unnoticed:
  `PolicyCache.FreshHandleGoesStale` is the shortest run. `PolicyCache.StaysCurrentExact` says of every
  reachable handle whether its watched decisions stay current, and
  `PolicyCache.OpenStaysCurrentExact` says it of a registry before the handle is opened.

One comment disagrees with its code and the code is followed: `reinherit_with` says both inputs must
be self-relative, and checks only the child.

## Model

| member | source | states |
|---|---|---|
| EventHeader.ParseHeader | src/event/consume.rs:96-130 | a parsed event's base header, type and payload ranges tile the event exactly, inside the window and the ring |
| EventHeader.HeaderRoundTrip | src/event/consume.rs:96-130 | the 77 header bytes of any valid event parse to its fields |
| EventHeader.ParseRoundTrip | src/event/consume.rs:96-130 | an event followed by anything parses to its fields, and the type and payload ranges hold its type and payload |
| EventHeader.MaskIsModulo | src/event/consume.rs:244-265 | masking with capacity minus one is the remainder, for every position and power of two |
| EventHeader.WindowReadsRing | src/event/consume.rs:188-265 | through the double mapping, `event_at` reads exactly the ring bytes modulo capacity and stays inside the mapping |
| EventReader.DeliveredAreGenuine | src/event/consume.rs:662-703 | in every interleaving each delivered event carries the header the producer wrote at that position, in ring order; nothing torn or overwritten is returned |
| EventReader.ReadPositionSound | src/event/consume.rs:662-703 | along every run the read position is on an event boundary, at most the write position, and fits 64 bits |
| EventReader.CorruptUnreachable | src/event/consume.rs:679-688 | `next` never reports a corrupt slot |
| EventReader.LossIsAccounted | src/event/consume.rs:694-701 | delivered events plus `lost` is the span of sequence numbers from the first delivered to the last |
| EventReader.ContinuesArePaid | src/event/consume.rs:663-693 | every trip round the loop is paid for: at most two per tail advance |
| EventReader.NextReturnsWhenQuiet | src/event/consume.rs:662-703 | from every reachable state with the reader open, once the producer is quiet the call returns with the oldest surviving unread event exactly when there is one: within 249 loads if it was already under way, lapped or not, and within 167 if it is still to start |
| EventReader.StepKeepsInv | src/event/consume.rs:662-703 | every producer step and every reader load keeps the reader's invariant |
| MsgPack.ReadHeadSound | src/msgpack.rs:529-597 | a head that is read is a row of the format table |
| MsgPack.ReadHeadComplete | src/msgpack.rs:529-597 | every row of the format table is read back, whatever follows it |
| MsgPackGrammar.ParseIsGrammar | src/msgpack.rs:499-522 | parsing consumes a buffer as a value exactly when the recursive grammar derives it |
| MsgPackGrammar.GrammarUnambiguous | src/msgpack.rs:529-597 | no buffer derives two values |
| MsgPackCursor.Validate | src/msgpack.rs:603-633 | the stack machine accepts exactly the buffers the grammar derives as one value of valid strings nested at most `max_depth`, for depths 1 to 256, and refuses every other depth |
| MsgPackCursor.AcceptsIsGrammar | src/msgpack.rs:603-633 | the validator's worklist of open containers decides the recursive grammar with its depth bound |
| MsgPackCursor.ExtentIsGrammar | src/msgpack.rs:499-522 | the counting worklist stops at `m` exactly when the grammar derives the first `m` bytes |
| MsgPackCursor.ExtentTooMany | src/access.rs:268-308 | more values pending than bytes left can only fail, so the early exit changes nothing |
| MsgPackCursor.Cursor.ValueStep | src/msgpack.rs:529-597 | one step reads one head of the table and reports its number of children, or leaves the verdict invalid |
| MsgPackCursor.Cursor.Skip | src/msgpack.rs:499-522 | skips exactly one value, or fails with the position restored |
| MsgPackCursor.Cursor.ReadNil | src/msgpack.rs:210-218 | reads a nil head, or fails with the position restored |
| MsgPackCursor.Cursor.ReadBool | src/msgpack.rs:219-233 | reads a boolean head, or fails with the position restored |
| MsgPackCursor.Cursor.ReadI64 | src/msgpack.rs:234-289 | reads an integer of any format that an `i64` holds, or fails with the position restored |
| MsgPackCursor.Cursor.ReadU64 | src/msgpack.rs:234-299 | reads an integer of any format that a `u64` holds, or fails with the position restored |
| MsgPackCursor.Cursor.ReadF64 | src/msgpack.rs:300-325 | reads the raw bytes of a float of either width, or fails with the position restored |
| MsgPackCursor.Cursor.ReadStr | src/msgpack.rs:326-363 | reads a string of any format whose bytes are UTF-8, or fails with the position restored |
| MsgPackCursor.Cursor.ReadBin | src/msgpack.rs:364-393 | reads a byte string of any format, or fails with the position restored |
| MsgPackCursor.Cursor.ReadArray | src/msgpack.rs:394-418 | reads an array head and its count, or fails with the position restored |
| MsgPackCursor.Cursor.ReadMap | src/msgpack.rs:419-444 | reads a map head and its count, or fails with the position restored |
| MsgPackCursor.Cursor.ReadExt | src/msgpack.rs:445-498 | reads an extension of any format, or fails with the position restored |
| MsgPackWriter.EncodeIsHead | src/msgpack.rs:55-174 | every write emits a head of the format table for what was written |
| MsgPackWriter.EncodeIsSmallest | src/msgpack.rs:55-174 | no head of the table for the same value is shorter |
| MsgPackWriter.ErrorIsSticky | src/msgpack.rs:653-670 | a run of writes leaves no error exactly when each was writable, and then the buffer is their encodings in order |
| MsgPackWriter.WriteReadRoundTrip | src/msgpack.rs:653-877 | the bytes of a run of writes read back as tree `v` exactly when the writes are the preorder of `v` |
| MsgPackWriter.WriterExact | src/msgpack.rs:850-877 | the finished buffer is valid exactly when the writes are the preorder of one complete tree of depth at most 256 |
| Utf8.Utf8Exact | src/msgpack.rs:326-363 | the UTF-8 check accepts exactly the encodings of texts |
| MsgPackRoundTrip.ReadTyped | src/msgpack.rs:185-498 | trying the typed reads in turn reads any head whose string, if it is one, is UTF-8, and moves nothing otherwise |
| MsgPackRoundTrip.ReadTrees | src/msgpack.rs:185-498 | reading `n` values through the typed reads gives exactly the trees the grammar determines, or fails |
| MsgPackRoundTrip.WriteThenRead | src/msgpack.rs:185-877 | any run of writer calls, then `peios_mp_writer_bytes`, then the cursor's typed reads: a tree comes out exactly when the writes are the preorder of one of depth at most 256, and it is that tree |
| MsgPackWriter.Writer.Bytes | src/msgpack.rs:850-877 | hands the buffer out exactly when no error is latched and it is one valid payload, and latches `EINVAL` otherwise |
| MsgPackWriter.Writer.WriteStr | src/msgpack.rs:765-782 | appends the string, or latches an error and writes nothing |
| MsgPackWriter.Writer.Reset | src/msgpack.rs:701-709 | empties the buffer and clears the error |
| MsgPackWalker.TablesAgree | src/access.rs:268-308 | the second walker's lead-byte table gives the lengths and child counts of the format table |
| MsgPackWalker.SkipValue | src/access.rs:268-308 | with its early exit, the walker ends exactly where the plain worklist does, or fails with it |
| MsgPackWalker.WalkersDifferOnlyOnUtf8 | src/access.rs:268-308 | where `Cursor::skip` succeeds the walker succeeds at the same end, and where only the walker does, a string is not UTF-8 |
| MsgPackWalker.MapLenIsHead | src/access.rs:243-252 | `mp_map_len` reads exactly the map heads of the table |
| MsgPackWalker.MpStrIsHead | src/access.rs:253-267 | `mp_str` reads exactly the string heads of the table that are UTF-8 |
| AuditContext.IsSegment | src/access.rs:206-227 | the scan decides the segment grammar |
| AuditContext.SegmentExact | src/access.rs:206-227 | a segment is lower-case letters, digits and dashes, starts with a letter, does not end in a dash and has no two in a row |
| AuditContext.SegmentIsUtf8 | src/access.rs:206-227 | a segment is UTF-8 |
| AuditContext.AuditBodyValid | src/access.rs:311-326 | accepts exactly the bytes that are one non-empty map with segment keys |
| AuditContext.AuditContextShape | src/access.rs:327-365 | accepts exactly the bytes that are one map holding a `kind` segment, and at most one other entry, named by the kind and holding a body |
| AuditContext.AuditContextValid | src/access.rs:366-382 | accepts exactly the contexts of that shape, at most 4096 bytes long and nested at most 31 deep |
| AuditEncoder.EncodersAgree | src/access.rs:386-457 | the second encoder emits the same bytes as the first, or nothing past its 16-bit limits |
| AuditEncoder.LayoutSays | src/access.rs:474-545 | the bytes derive a tree exactly when it maps `kind` to the kind and, with fields, the kind to a map of each field's key to its value by type code, in order |
| AuditEncoder.LayoutAcceptable | src/access.rs:474-545 | the encoder's output satisfies the validator exactly when it fits the length limit and, with fields, the kind is not the literal `kind` |
| AuditEncoder.NoFieldLength | src/access.rs:474-545 | a context of a kind alone fits exactly when the kind is at most 4087 bytes |
| AuditEncoder.LongKindIsEncoded | src/access.rs:474-545 | a kind of 4088 bytes is encoded, and the result is no context |
| AuditEncoder.EncodeAuditContext | src/access.rs:474-545 | with fields it succeeds exactly when its per-field rules hold, the kind is not `kind` and the total fits, so the final self-check rejects nothing else; without, the result is acceptable exactly when the kind is short enough |
| Utf16.Utf16RoundTrip | src/security/sddl/condition.rs:302-309 | UTF-16LE text decodes to itself |
| Utf16.Utf16Inverse | src/security/sddl/grammar/cond.rs:882-893 | what decodes encodes back to the same bytes |
| Condition.Encode | src/security/sddl/condition.rs:204-216 | magic, tokens in postfix order, and zero padding up to the next 4-byte boundary |
| ArtxMachine.EncodingKeepsMeaning | src/security/sddl/condition.rs:204-309 | run by the evaluator, which takes an integer only with the sign and base bytes its value calls for, the encoding of every decodable condition whose lengths fit gives the condition's own value in every environment |
| Artx.ReadEmitted | src/security/sddl/grammar/cond.rs:894-921 | an emitted operand is read back, whatever follows it, unless a composite in it holds an attribute |
| Artx.ExecuteEmitted | src/security/sddl/grammar/cond.rs:721-803 | on any stack, executing a condition's tokens pushes that condition, or fails |
| Artx.DecodeEncoded | src/security/sddl/grammar/cond.rs:85-91 | what decoding the encoding of any condition gives |
| Artx.ArtxRoundTripExact | src/security/sddl/grammar/cond.rs:721-921 | for every condition: it survives encoding and decoding exactly when no composite holds an attribute, its SIDs fit the wire and its lengths fit their 32-bit prefixes |
| Artx.AttributeInCompositeIsLost | src/security/sddl/grammar/cond.rs:894-921 | a condition whose bytecode the decoder refuses |
| Artx.DecodeIsStable | src/security/sddl/grammar/cond.rs:721-921 | for every byte string the decoder accepts, encoding and decoding again gives the same condition |
| ArtxMachine.DecodingKeepsMeaning | src/security/sddl/grammar/cond.rs:721-921 | on every byte string and in every environment the evaluator accepts what the decoder accepts, and its result is the value of the decoded condition |
| Artx.Decoder.Decode | src/security/sddl/grammar/cond.rs:721-803 | the loop over position and stack computes the stack-machine semantics |
| Artx.Decode | src/security/sddl/grammar/cond.rs:85-91 | decoding, from the magic on |
| CondText.OperandRoundTrip | src/security/sddl/grammar/cond.rs:280-309 | a printed operand reads back, with the text after it untouched |
| CondText.ItemsRoundTrip | src/security/sddl/grammar/cond.rs:392-415 | a printed composite reads back |
| CondText.IntRoundTrip | src/security/sddl/grammar/cond.rs:356-391 | a printed integer above the least `i64` reads back |
| CondText.LeastIntIsLost | src/security/sddl/grammar/mod.rs:1245-1257 | the least `i64` does not |
| CondSpelling.IntReads | src/security/sddl/grammar/cond.rs:356-391 | any sign, `0x`, `0X` or no prefix, digits of either case and leading zeros: the literal reads as the number they spell, and fails exactly past 63 bits of magnitude |
| CondSpelling.ShortestSpells | src/security/sddl/grammar/cond.rs:356-391 | every number has such a spelling in every base up to 16 and in either case |
| CondSpelling.OctetReads | src/security/sddl/grammar/cond.rs:327-355 | two digits of either case for each byte read as those bytes |
| CondSpelling.OperandReads | src/security/sddl/grammar/cond.rs:280-309 | every spelling of an operand, after any blanks, reads as what it means |
| CondSpelling.OperandWritten | src/security/sddl/grammar/cond.rs:280-309 | whatever is read as an operand is one of its spellings, up to where it ends |
| CondParse.KeywordExact | src/security/sddl/grammar/cond.rs:149-163 | a word before a space matches one keyword and no other, whatever its case |
| CondParse.CompareOpFound | src/security/sddl/grammar/cond.rs:259-279 | the operator table, tried in its order, finds the operator that was printed |
| CondParse.MemberFound | src/security/sddl/grammar/cond.rs:238-248 | the membership table finds the operator that was printed |
| CondParse.UnaryRoundTrip | src/security/sddl/grammar/cond.rs:204-257 | a condition printed for the tightest context parses as one unary expression |
| CondParse.AndTail | src/security/sddl/grammar/cond.rs:189-203 | the rest of an `&&` chain folds to the left onto what was read |
| CondParse.ExprRoundTrip | src/security/sddl/grammar/cond.rs:174-188 | a condition printed for a loose context parses to its left-nested form |
| CondGrammar.ExprReads | src/security/sddl/grammar/cond.rs:174-279 | every spelling of an expression, with any blanks, casing and redundant parentheses, parses to what it means |
| CondGrammar.ExprWritten | src/security/sddl/grammar/cond.rs:174-279 | whatever parses is such a spelling |
| CondGrammar.GrammarExact | src/security/sddl/grammar/cond.rs:62-73 | a text parses to a condition exactly when, trimmed and with an outer pair taken off, it spells that condition in the grammar |
| CondGrammar.TrimExact | src/security/sddl/grammar/cond.rs:62-73 | trimming takes off all the Unicode white space at both ends and nothing else |
| CondGrammar.StripsExactly | src/security/sddl/grammar/cond.rs:479-500 | an outer pair comes off exactly when every shorter prefix has more opening parentheses than closing ones, in literals or not |
| CondExact.BareRoundTrip | src/security/sddl/grammar/cond.rs:62-73 | bare printed text parses to the left-nested condition exactly when every operand is one the syntax expresses and the parenthesis stripper leaves the text alone |
| CondExact.WrappedRoundTrip | src/security/sddl/grammar/cond.rs:62-73 | in one outer pair of parentheses, exactly when every operand is one the syntax expresses |
| CondExact.ParsedIsExpressible | src/security/sddl/grammar/cond.rs:174-309 | whatever the text, a parsed condition holds only operands the syntax expresses |
| CondExact.LeastIntNeverReads | src/security/sddl/grammar/mod.rs:1245-1257 | no text at all parses to a comparison with the least `i64` |
| CondRoundTrip.PlainRoundTrip | src/security/sddl/grammar/cond.rs:479-500 | without parentheses in its literals a bare printed condition always parses back |
| CondRoundTrip.StripperMiscounts | src/security/sddl/grammar/cond.rs:479-500 | a bare printed condition that does not parse |
| CondRoundTrip.NormKeepsMeaning | src/security/sddl/grammar/cond.rs:549-601 | nesting chains to the left keeps the three-valued result in every environment |
| CondExact.TextKeepsMeaning | src/security/sddl/grammar/cond.rs:549-648 | printing and parsing gives the same condition exactly when it is printable and left-nested, and every printable one a left-nested condition of the same value in every environment |
| CondParser.Parse | src/security/sddl/grammar/cond.rs:62-73 | the parser object computes the grammar on every text, valid or not |
| CondParser.StripOuterParens | src/security/sddl/grammar/cond.rs:479-500 | the depth-counting loop decides when an outer pair is stripped |
| CondParser.Parser.SkipSpace | src/security/sddl/grammar/cond.rs:115-125 | advances past leading blanks and no further |
| CondParser.Parser.TryKeyword | src/security/sddl/grammar/cond.rs:149-163 | consumes a keyword at a word boundary, or nothing |
| CondParser.Parser.ParseExprAt | src/security/sddl/grammar/cond.rs:174-188 | on any text, reads the disjunction chain the grammar gives, nested to the left, and stops where it ends, or fails with it |
| CondParser.Parser.ParseAndAt | src/security/sddl/grammar/cond.rs:189-203 | on any text, reads the conjunction chain the grammar gives, nested to the left, and stops where it ends, or fails with it |
| CondParser.Parser.ParseUnaryAt | src/security/sddl/grammar/cond.rs:204-213 | on any text, reads the negations and the primary the grammar gives, or fails with it |
| CondParser.Parser.ParsePrimaryAt | src/security/sddl/grammar/cond.rs:216-257 | on any text, reads the group or test the grammar gives, or fails with it |
| CondParser.Parser.ParseCompareOp | src/security/sddl/grammar/cond.rs:259-279 | consumes the first operator of the tables that fits, symbols before words, or fails |
| CondParser.Parser.ParseOperand | src/security/sddl/grammar/cond.rs:280-309 | reads the one operand the grammar gives, told by its first character, or fails with it |
| CondParser.Parser.ParseComposite | src/security/sddl/grammar/cond.rs:392-415 | reads every item up to the closing brace, a trailing comma allowed, or fails with the grammar |
| CondParser.Parser.ParseIntLit | src/security/sddl/grammar/cond.rs:356-391 | reads a signed decimal or hexadecimal literal whose magnitude is an `i64`, or fails |
| CondParser.Parser.ParseOctetLit | src/security/sddl/grammar/cond.rs:327-355 | reads a non-empty, even run of hex digits as bytes, or fails |
| CondParser.Parser.ParseStringLit | src/security/sddl/grammar/cond.rs:310-326 | reads the text up to the closing quote, or fails without one |
| CondParser.Parser.ParseAttrRef | src/security/sddl/grammar/cond.rs:416-455 | reads the scope, told without regard to case, and a non-empty name, or fails |
| SidWire.SidThroughWire | src/security/sddl/wire_sid.rs:118-243 | what is left of any SID after encoding and parsing |
| SidWire.SidRoundTripExact | src/security/sddl/wire_sid.rs:118-243 | a SID survives exactly when its authority is 48-bit and it has at most 255 sub-authorities |
| SidWire.ParsedSidEncodes | src/security/sddl/wire_sid.rs:118-243 | a parsed SID encodes to exactly the bytes it came from |
| SidWire.ParseSidExact | src/security/sddl/wire_sid.rs:118-243 | parsing gives a SID exactly where that SID's bytes stand |
| DescriptorBuilders.EncodeSidBytes | src/security/sddl/wire_sid.rs:231-243 | the pushing loop emits the wire form |
| DescriptorBuilders.ParseSidBytes | src/security/sddl/wire_sid.rs:118-141 | the shifting loop reads the wire form |
| DescriptorBuilders.SubAuthorities | src/security/sddl/wire_sid.rs:196-204 | the iterator yields the sub-authorities in order |
| SecurityDescriptor.BuildPadded | src/security/sddl/build.rs:386-403 | padding an ACE changes neither its size nor its bytes |
| SecurityDescriptor.PaddedExact | src/security/sddl/build.rs:386-403 | padding adds fewer than four zeros after the body, up to a multiple of four, and changes nothing else |
| SecurityDescriptor.AclRoundTrip | src/security/sddl/codec.rs:371-435 | a built ACL parses back, whatever follows it, to its ACEs in order with bodies padded, at revision 4 exactly when an ACE of type 0x05 to 0x10 is among them and 2 otherwise |
| SecurityDescriptor.BuildAcl | src/security/sddl/build.rs:459-484 | builds exactly the lists within both 16-bit limits |
| SecurityDescriptor.HeaderParses | src/security/sddl/codec.rs:446-467 | an assembled header parses back, absent parts as offset zero |
| SecurityDescriptor.SdRoundTrip | src/security/sddl/build.rs:545-581 | every descriptor the builder accepts parses to the same owner, group and lists, and to its control word with self-relative and the two presence bits |
| DescriptorRules.SidFoundExact | src/security/sddl/codec.rs:469-500 | owner and group are found exactly where their bytes stand at a non-zero offset |
| DescriptorRules.ListsFound | src/security/sddl/codec.rs:371-522 | a list is absent where its bit or offset is zero, malformed where its header or size does not fit, and otherwise the bytes its size covers |
| DescriptorBuilders.BuildAclBytes | src/security/sddl/build.rs:459-484 | the building loop, with its limits |
| DescriptorBuilders.AceIter.Next | src/security/sddl/codec.rs:406-430 | yields the next ACE and keeps the rest, or stops for good at a malformed one |
| DescriptorBuilders.CollectAces | src/security/sddl/codec.rs:391-430 | driving the iterator gives every ACE up to the first malformed one |
| DescriptorBuilders.BuildSdBytes | src/security/sddl/build.rs:545-581 | parts appended in turn and the header backfilled |
| Inherit.InheritedAces | src/security/sddl/inherit.rs:83-118 | the loop gives, in order, what each parent ACE passes to the child |
| Inherit.PushInherited | src/security/sddl/inherit.rs:83-118 | one ACE's zero, one or two copies |
| InheritRules.ObjectInherits | src/security/sddl/inherit.rs:83-187 | a child that is no container gets one copy of each ACE for objects and of no other, without inheritance flags, marked inherited, resolved exactly where it names a creator or has generic rights to map |
| InheritRules.ContainerInherits | src/security/sddl/inherit.rs:83-187 | a container's copies for every combination of flags: stopped and resolved, kept as written, resolved beside an inherit-only copy as written, or passed through inherit-only |
| InheritRules.ResolvesFrom | src/security/sddl/inherit.rs:123-187 | for each of the types that carry a SID, a resolved body names the child's owner for S-1-3-0, its group for S-1-3-1 and the same SID otherwise; its mask has every specific right and, for each generic right, that right's mapping and nothing else; all else is unchanged, and a body too long for an ACE stays as written |
| InheritRules.ResolvedNames | src/security/sddl/inherit.rs:170-187 | a resolved body parses again as a body of its type with that SID |
| InheritRules.ResolvableExact | src/security/sddl/inherit.rs:145-152 | the code resolves exactly the ACEs that name a creator or have generic rights and a mapping |
| Inherit.CopiesAreInherited | src/security/sddl/inherit.rs:170-187 | every copy is marked inherited |
| Inherit.FlagsCompose | src/security/sddl/inherit.rs:83-118 | a copy that goes on from a container is inherited below as its original would be |
| Inherit.AceComposes | src/security/sddl/inherit.rs:83-187 | one ACE through a container reaches a child as it would directly, or not at all under NO_PROPAGATE |
| Inherit.InheritanceComposes | src/security/sddl/inherit.rs:83-187 | through any non-empty chain of containers, whatever their owners, groups and mappings, a child inherits exactly what it would directly from the ACEs without NO_PROPAGATE |
| Inherit.PassIsOnTheWire | src/security/sddl/build.rs:459-484 | building a level's list and parsing it again gives the ACEs the next level starts from |
| Inherit.ChainOnBytes | src/security/sddl/inherit.rs:83-187 | the same on bytes, wherever every level fits its size field: the list at the end of the chain is byte for byte the one inherited directly |
| Reinherit.RedoneReadsBack | src/security/sddl/inherit.rs:208-287 | the descriptor re-propagation writes parses back to the parts it was built from |
| Reinherit.ReinheritIdempotent | src/security/sddl/inherit.rs:208-287 | for a fixed parent, re-propagating again gives the same bytes |
| Reinherit.ListsAfterwards | src/security/sddl/inherit.rs:208-287 | unselected or protected lists keep presence and ACEs; redone ones are the explicit ACEs in order and then what the parent passes, and a list is new only when something is passed |
| DescriptorRules.RepropagatedLists | src/security/sddl/inherit.rs:208-287 | the same from the bits: a list is redone when selected (4, 8) and not protected (0x1000, 0x2000), for a child of the given kind with the owner and group its descriptor names |
| DescriptorRules.ControlAfterwards | src/security/sddl/inherit.rs:236-246 | the control word bit by bit: auto-inherited when it was or when the list was redone, protection as it was, presence as the lists are, self-relative, and nothing else |
| DescriptorRules.RepropagatesExact | src/security/sddl/inherit.rs:208-287 | re-propagation succeeds exactly when the child is self-relative, its owner and group are absent or readable, and each list can be read and rebuilt within its limits |
| Reinherit.AlignedUnpadded | src/security/sddl/build.rs:371-403 | aligned ACEs are not changed by padding |
| StripInherited.FilterLoop | src/security/sddl/inherit.rs:399-426 | keeps, verbatim and in order, the ACEs that are not inherited |
| StripInherited.FilteredParses | src/security/sddl/inherit.rs:399-426 | a filtered list parses back to exactly the explicit ACEs, bytes unchanged |
| StripInherited.StripLeaves | src/security/sddl/inherit.rs:310-359 | stripping keeps owner, group, control word and unselected lists, and leaves the explicit ACEs of selected ones |
| DescriptorRules.StrippedLists | src/security/sddl/inherit.rs:310-359 | the same from the selection bits (4, 8) |
| DescriptorRules.StripsExact | src/security/sddl/inherit.rs:310-396 | stripping succeeds exactly on a self-relative descriptor of which nothing is selected, or whose owner, group and lists can be read as far as they are needed |
| DescriptorRules.ExplicitExact | src/security/sddl/inherit.rs:399-426 | an ACE is kept exactly when its flags lack 0x10 |
| StripInherited.StripUndoesReinherit | src/security/sddl/inherit.rs:208-426 | stripping what re-propagation wrote leaves exactly the child's explicit ACEs in order, in a list that is present exactly when it was, or when something was passed to it |
| Repropagation.OwnAces | src/security/sddl/inherit.rs:252-287 | the child's own ACEs, all or only the explicit ones, failing with the iterator |
| Repropagation.BuildList | src/security/sddl/inherit.rs:252-287 | one list as re-propagation leaves it |
| Repropagation.Repropagate | src/security/sddl/inherit.rs:208-246 | the whole call, failing exactly on malformed parts or lists past their limits |
| Repropagation.ResolveBytes | src/security/sddl/inherit.rs:377-396 | a list filtered or copied, refused below its header |
| Repropagation.StripBytes | src/security/sddl/inherit.rs:310-359 | the whole call, reassembled and backfilled |
| PolicyTree.Segments | src/event/policy.rs:86-99 | accepts exactly the well-formed event types, giving their segments |
| PolicyTree.SegmentsExact | src/event/policy.rs:86-99 | a type has these segments exactly when it is their dotted spelling and none is empty or holds a dot, a slash, a backslash or a zero byte |
| PolicyTree.EnabledExact | src/event/policy.rs:103-112 | a setting is a 4-byte `REG_DWORD` of 0 or 1 and nothing else |
| PolicyTree.Resolve | src/event/policy.rs:126-143 | the walk finds the setting on the longest prefix of the path that has one |
| PolicyTree.DeepestWins | src/event/policy.rs:126-143 | that setting is on a prefix below which nothing on the path is set |
| PolicyTree.OffPathChange | src/event/policy.rs:126-143 | whatever is changed, created or deleted at a key off a type's path leaves its setting alone |
| PolicyTree.DecideDecides | src/event/policy.rs:145-154 | the tiers: 0 always on, 1 off exactly where switched off, 2 and 3 on exactly where switched on, and no other |
| PolicyWatch.ClassifyRecords | src/event/policy.rs:181-210 | the loop over records, malformed ones included |
| PolicyWatch.RecordSaysGone | src/event/policy.rs:198-206 | on any bytes, a record says the watched key is gone exactly when its kind is the deletion and the depth after its name is zero or missing |
| PolicyWatch.ClassifyExact | src/event/policy.rs:181-210 | well-formed records report a change exactly when there is one, and the watched key gone exactly when one deletes it |
| PolicyWatch.Drain | src/event/policy.rs:405-438 | the read loop, with its early stop and its error cases |
| PolicyWatch.DrainMissesNothing | src/event/policy.rs:405-438 | however the kernel splits the queue into reads, nothing queued is missed |
| PolicyCache.StepKeepsInv | src/event/policy.rs:370-501 | every registry change and every query keeps the handle's invariant |
| PolicyCache.AnswerExact | src/event/policy.rs:490-501 | no answer for a malformed type or a tier above 3, and otherwise what the tier makes of the setting the refreshed handle finds |
| PolicyCache.RetriesExact | src/event/policy.rs:370-459 | a handle that could watch nothing looks again after one second and not before |
| PolicyCache.EveryDecision | src/event/policy.rs:370-501 | after every run, a decision of a handle that watches the nearest key there was, or has just opened its keys, is what its tier makes of a walk of the current tree; an unwatched one reflects a registry less than a second old |
| PolicyCache.StaleAncestor | src/event/policy.rs:382-396 | from every other handle, and for every event type, a change that queues no record makes the next decision wrong |
| PolicyCache.StaysCurrentExact | src/event/policy.rs:370-501 | watched decisions stay current over every next change exactly when news is waiting or the handle watches the nearest key there was |
| PolicyCache.OpenStaysCurrentExact | src/event/policy.rs:370-402 | a fresh handle's do exactly when the registry does not hold a `Generic` that cannot be watched under a `Machine` that can, with `Events` absent |
| PolicyCache.FreshHandleGoesStale | src/event/policy.rs:382-396 | one such registry and the decision that goes wrong in it |
| PolicyHandle.Search | src/event/policy.rs:463-466 | binary search finds the key or its place in the sorted cache |
| PolicyHandle.InsertMaps | src/event/policy.rs:474-488 | inserting at that place adds one entry and moves no other |
| PolicyHandle.Policy.EstablishIn | src/event/policy.rs:370-402 | opens and watches what there is, in at most two rounds |
| PolicyHandle.Policy.RefreshFrom | src/event/policy.rs:441-459 | drains, and clears or re-establishes as the news demands |
| PolicyHandle.Policy.SettingOf | src/event/policy.rs:461-472 | answers from the cache, or walks and remembers |
| PolicyHandle.Policy.Remember | src/event/policy.rs:474-488 | keeps the cache sorted and within 4096 entries |
| PolicyHandle.Policy.IsEnabled | src/event/policy.rs:490-501 | no answer for a malformed type or a tier above 3; otherwise an essential type is on, a standard one off exactly where its setting is off, a verbose or debug one on exactly where it is on |
| Ancillary.PushCmsg | src/token/message.rs:84-103 | appends one padded control message |
| Ancillary.BuildSendControl | src/token/message.rs:107-126 | the token's message when there is a token, then the descriptors' when there are any |
| Ancillary.ParseInverts | src/token/message.rs:136-165 | parsing a buffer of built messages gives the messages back |
| Ancillary.SocketMessage.Deliver | src/token/message.rs:170-205 | hands over or closes every descriptor in every message; the truncation flag is set exactly when one was closed |
| Ancillary.Conservation | src/token/message.rs:170-205 | token, descriptors handed over and descriptors closed are together exactly what arrived; the token is the first and the rest are the first that fit, in order |
| Ancillary.SendReceive | src/token/message.rs:107-205 | what one side attaches the other is handed, when it has room |
| Claims.PlacedReads | src/security/sddl/claims.rs:5-29 | the reader of the format recovers a claim from any placement of its parts |
| Claims.NameFirstReads | src/security/sddl/claims.rs:107-190 | it recovers the claim from the security-descriptor layout |
| Claims.NameLastReads | src/token/builder.rs:732-833 | it recovers the claim from the token layout |
| Claims.LayoutsAgree | src/security/sddl/claims.rs:107-190 | the two layouts differ, are equally long, and are the same claim to the reader |
| Claims.ArrayReads | src/security/sddl/claims.rs:194-211 | an array of claims reads back in order |
| ClaimEncoders.EncodeAttribute | src/security/sddl/claims.rs:107-190 | fails exactly on no values, mixed values or too many, and otherwise its patched buffer is the first layout |
| ClaimEncoders.FillSlots | src/security/sddl/claims.rs:171-176 | each indirect slot ends up pointing at its own data |
| ClaimEncoders.FillFront | src/security/sddl/claims.rs:178-188 | header and value offsets are backfilled without touching the rest |
| ClaimEncoders.EncodeTokenClaim | src/token/builder.rs:732-827 | fails exactly on an embedded NUL or a name offset past 32 bits, and otherwise emits the second layout |

## Left out

- System-call, socket, `ioctl` and `mmap` wrappers, registry access and token operations: argument packing only.
- The SDDL top level and its vocabulary of SID aliases: SID text is a pair of functions, assumed inverse on the SIDs printed (`ShownCond`).
- `Ring::wait` and its futex: the order of sampling and waking on the producer's side is not in this repository.
- A change of ring generation and `reattach` after a resize: the reader theorems are about one generation, under sequential consistency, where the generation load always sees the same value. `next` is therefore a state machine over its loads rather than an object with methods.
- The reader's `lost` and `last_seq` are unbounded here; `LossIsAccounted` shows that they stay inside 64 bits.
- `peios_mp_write_raw`, out-of-memory paths, NULL arguments, and which `errno` a failure sets.
- MsgPackCursor.Cursor.ReadF64: returns the raw bytes of the float, with no conversion of the 32-bit form to 64 bits.
- Iterating an ACL whose size field is under 8 (the source slices past the header there): the inheritance and re-propagation lemmas ask for at least 8, as the stripping code checks.
- AceBuilder constructors and object bodies: an ACE is its type, flags and body bytes.
- `acl_builder.rs`, `sd_builder.rs`, `view.rs`, and the last check of `encode_claim`: they rest on the `kacs_core` parsers, which are not part of this repository.
- Constants of the `peios_uapi` crate (access-control bits, claim types, watch-record offsets) are not in this repository; those of MS-DTYP are used where it defines them, the tests give the record layout and the audit limits, and the record kind for a deletion is a parameter.
- ClaimEncoders.EncodeTokenClaim: takes decoded text, SIDs and booleans, so the UTF-8, SID and 0-or-1 checks on the raw C values are not modelled.
- Ancillary.ParseInverts: lengths are added without the 64-bit wrap-around of `usize`; the lengths a kernel reports cannot reach it.
- PolicyCache.EveryDecision: assumes that nothing changes while a call is in progress (a key created between a failed open and the arming of the watch above it is not covered), that one registry operation does not delete and recreate `Events` at once, and that every change a walk could see queues a record.
- Artx.ReadEmitted: leaves out operands of 4 GiB and more, whose length prefix is cut; what is then read depends on the data.
- Artx.ExecuteEmitted: leaves out conditions with such an operand; `ArtxRoundTripExact` covers them.
- Artx.DecodeEncoded: leaves out conditions with such an operand; `ArtxRoundTripExact` covers them.
- ArtxMachine.EncodingKeepsMeaning: leaves out conditions with such an operand, and conditions with an attribute in a composite, which `DecodingKeepsMeaning` shows the evaluator refuses; SIDs the wire cuts are tested as cut.
- CondText.OperandRoundTrip: text is a sequence of characters rather than UTF-8 bytes; every delimiter is ASCII, so positions correspond.
- Names, labels and display forms of SIDs, masks and ACE types.
