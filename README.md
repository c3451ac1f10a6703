# seqan3 core pieces in Dafny

This project models part of the seqan3 sequence-analysis library:

- **The syncmer selector** (`views::syncmer`). Its iterator slides a window of `k - s + 1` s-mer hash values over the input. It tracks the window's rightmost minimum and its position, and stops where that position equals the configured offset. Along the way it keeps the rolling 2-bit value `((kmer << 2) | smer) & mask` of the window.
- **`concatenated_sequences`**. A collection of sequences stored as one flat value buffer plus a delimiter vector. Every modifier rewrites both in place.
- **The BAM record codec** (section 4.2 of SAMv1), covering:
  - `reg2bin` (section 5.3 of SAMv1);
  - the 32-bit CIGAR words;
  - the 4-bit packed sequence;
  - qualities, read name, reference id and position;
  - the `block_size` arithmetic;
  - the long-CIGAR-in-`CG` convention (section 4.2.2 of SAMv1);
  - the optional tag writer and reader (section 4.2.4 of SAMv1).
- **`take_exactly` / `take_exactly_or_throw`**. The adaptor's size guard and result-type choice, the view, and its counting iterator.
- **The banded affine-gap initialisation policy.** Origin, first-column and first-row cells, and `balance_leading_gaps`.
- **The full trace matrix.** Its constructor sizing, and the column-major layout of the columns and proxies it hands out.
- **The 2-bit k-mer decoder** `kmer_to_string`, which appears in two test files.
- **The `dna2` how-to alphabet** and its comparison operators.

## How the model is built

There is one Dafny module per source file; the BAM codec is split into `BamBytes`, `BamCore`, `BamTags` and `BamRecord`. `Wrappers` holds `Option` and `Result`.

- **Classes.** Code that updates state in place is a `class` whose methods carry `modifies` clauses. This covers `ConcatenatedSequences`, `SyncmerIterator`, `TakeExactlyView` and its `Iterator`, `BandedInitPolicy` with its cells and cache, and `TraceMatrix`.
- **Loops.** Each modelled loop of the source is a `while` loop, proved against a specification function that is written recursively. Examples are `ParseBinaryCigar` against `ParseCigar`, `WriteCigar` against `EncodeCigar`, `ReadArrayElems` against `DecodeElems`, `ReadHexString` against `DecodeHex`, `GetTagDictStr` against `EncodeDict`, `ReadSamDict` against `ParseDict`, and `KmerToString` against `Decode`. The copy loops inside `concatenated_sequences`' `insert` are the exception: they are one splice of the value buffer (see "## Left out").
- **Errors.** Exceptions become `Failure` results, and the contracts state when each one occurs. A `Failure` carries no output: where the source has already written part of a record when it throws, those bytes are not modelled (see "## Left out").
- **Byte order.** The BAM core is copied from host memory; the model fixes the byte order to little-endian.
- **Two variants of the BAM codec.** The composite BAM members take a `Variant`. `AsWritten` is the code as it stands, and the round trips state the exact conditions under which it round-trips. `Intended` swaps in the corrected steps listed under "## Findings" for the integer width, the name length, the hex pair and the CG restore.
- **The syncmer's rolling value** is a 64-entry bit sequence with pointwise shift, or and and. Its hashes are numbers below `2^64`.

## Model

| member | source | states |
|---|---|---|
| BamBytes.DecodeEncode | include/seqan3/io/sam_file/format_bam.hpp:740-745 | little-endian decoding of the `n` bytes written for a value below `256^n` gives the value back |
| BamBytes.EncodeDecode | include/seqan3/io/sam_file/format_bam.hpp:427-430 | bytes are determined by their little-endian value: re-encoding what was read gives the same bytes |
| BamBytes.ToSigned | include/seqan3/io/sam_file/format_bam.hpp:866-876 | the two's complement reading of an `n`-byte value lies in the signed range and is congruent to it |
| BamBytes.SignedRoundTrip | include/seqan3/io/sam_file/format_bam.hpp:1191-1197 | a signed value that fits in `n` bytes reads back unchanged after the truncating cast to `n` bytes |
| BamCore.Reg2Bin | include/seqan3/io/sam_file/format_bam.hpp:183-197 | the bin always fits the 16-bit result type |
| BamCore.Reg2BinIsSmallestBin | include/seqan3/io/sam_file/format_bam.hpp:183-197 | for `0 <= beg < end <= 2^29` the bin is the offset of the deepest level whose window holds both `beg` and `end - 1`, plus that window's index; no finer level holds both; the bin is at most 37448 |
| BamCore.OpFromChar | include/seqan3/io/sam_file/format_bam.hpp:1104-1105 | a character names a CIGAR operation exactly when it is one of `MIDNSHP=X`, and the operation's character is that character |
| BamCore.CharToSamRank | include/seqan3/io/sam_file/format_bam.hpp:163-181 | the table gives every character a rank of at most 8 |
| BamCore.SamRankTablesAgree | include/seqan3/io/sam_file/format_bam.hpp:163-181 | the writer's rank table and the reader's operation table are inverse on the nine operation letters; every other character is written as `M` |
| BamCore.CigarWord | include/seqan3/io/sam_file/format_bam.hpp:740-745 | the word `count << 4 \| rank` fits in 32 bits |
| BamCore.EncodeCigar | include/seqan3/io/sam_file/format_bam.hpp:740-745 | the binary CIGAR takes four bytes per element |
| BamCore.WriteCigar | include/seqan3/io/sam_file/format_bam.hpp:740-745 | the writer's loop over the elements emits exactly `EncodeCigar` of the CIGAR |
| BamCore.ParseCigar | include/seqan3/io/sam_file/format_bam.hpp:1101-1126 | a successful parse yields one element per four bytes |
| BamCore.ParseBinaryCigar | include/seqan3/io/sam_file/format_bam.hpp:1101-1126 | the word-by-word loop computes `ParseCigar`, including the error of a word whose low four bits name no operation |
| BamCore.DecodeCigarWord | include/seqan3/io/sam_file/format_bam.hpp:1116-1124 | a word fails with `InvalidCigarOperation` exactly when its low four bits exceed 8; otherwise the count is the word shifted right by four and the operation's rank is the low four bits |
| BamCore.PrefixFailure | include/seqan3/io/sam_file/format_bam.hpp:1116-1123 | once a word fails, the rest of the buffer does not change the parser's result |
| BamCore.CigarWordRoundTrip | include/seqan3/io/sam_file/format_bam.hpp:1116-1123 | one element with a count below `2^28` is written as four bytes that parse back to it |
| BamCore.CigarRoundTrip | include/seqan3/io/sam_file/format_bam.hpp:1101-1126 | parsing the written binary CIGAR gives the CIGAR back when every count is below `2^28` |
| BamCore.CigarCountTruncated | include/seqan3/io/sam_file/format_bam.hpp:742-743 | a count of `2^28` loses its high bits in the shift and reads back as 0 |
| BamCore.Pack | include/seqan3/io/sam_file/format_bam.hpp:751-761 | two 4-bit ranks per byte: `(l_seq + 1) / 2` bytes |
| BamCore.Unpack | include/seqan3/io/sam_file/format_bam.hpp:436-454 | the reader yields exactly `l_seq` ranks |
| BamCore.WritePackedSequence | include/seqan3/io/sam_file/format_bam.hpp:751-761 | the writer's loop (pairs, then an odd tail) emits `Pack` of the sequence |
| BamCore.ReadPackedSequence | include/seqan3/io/sam_file/format_bam.hpp:436-454 | the reader's loop (two nibbles per byte, then truncation to `l_seq`) computes `Unpack` |
| BamCore.PackRoundTrip | include/seqan3/io/sam_file/format_bam.hpp:436-454 | unpacking the packed sequence to its length gives the sequence back |
| BamCore.PackOddTail | include/seqan3/io/sam_file/format_bam.hpp:760-761 | for an odd length the last rank sits in the high nibble of the last byte over a zero low nibble |
| BamCore.QualBytes | include/seqan3/io/sam_file/format_bam.hpp:764-785 | missing qualities are written as `l_seq` bytes of 255; qualities of any other length than `l_seq` are a format error, and that is the only error |
| BamCore.ReadQuality | include/seqan3/io/sam_file/format_bam.hpp:461-468 | the reader's loop gives `l_seq` characters, each its byte plus 33 as a `char` |
| BamCore.QualRoundTrip | include/seqan3/io/sam_file/format_bam.hpp:764-785 | a written rank below 223 reads back as rank + 33; missing qualities read back as spaces |
| BamCore.ReadNameSizeAsWritten | include/seqan3/io/sam_file/format_bam.hpp:647-648 | `l_read_name` as the code computes it, with the id length cut to 8 bits first: always 2..255 |
| BamCore.ReadNameSizeWraps | include/seqan3/io/sam_file/format_bam.hpp:647 | ids of 256 and 300 letters get `l_read_name` 2 and 45 |
| BamCore.ReadNameSize | include/seqan3/io/sam_file/format_bam.hpp:647-648 | `l_read_name` is 2 for an empty id (written `*`), `n + 1` for `n` in 1..254, and 255 above |
| BamCore.ReadNameSizeAgrees | include/seqan3/io/sam_file/format_bam.hpp:647-648 | the code and the intended size agree on every id shorter than 256 letters |
| BamCore.ReadNameSizeIn | include/seqan3/io/sam_file/format_bam.hpp:647-648 | in either variant `l_read_name` is 2..255, 2 for an empty id, at most one more than the id length, and the intended size for every id shorter than 256 letters |
| BamCore.NameBytes | include/seqan3/io/sam_file/format_bam.hpp:733-737 | the name field takes `l_read_name` bytes, or `*` and NUL for an empty id |
| BamCore.ReadName | include/seqan3/io/sam_file/format_bam.hpp:420-421 | the id is a prefix of the body of `l_read_name - 1` bytes; an `l_read_name` of 0 makes the length `npos`, and the id is the whole body |
| BamCore.ReadNameRoundTrip | include/seqan3/io/sam_file/format_bam.hpp:420-423 | the reader's first `l_read_name - 1` bytes are the id written (cut to 254 letters), or `*` for an empty id |
| BamCore.CheckRefId | include/seqan3/io/sam_file/format_bam.hpp:384-392 | a reference id is a format error exactly when it is below -1 or not below the number of references; -1 means none |
| BamCore.WrittenPos | include/seqan3/io/sam_file/format_bam.hpp:605-606 | a position below -1 is a format error and the only one; a missing position is written as -1 |
| BamCore.ReadPos | include/seqan3/io/sam_file/format_bam.hpp:401-402 | a position is read exactly when it is not negative |
| BamCore.PosRoundTrip | include/seqan3/io/sam_file/format_bam.hpp:401-402 | a non-negative position reads back unchanged; a missing position or -1 reads back as missing |
| BamCore.RecordBinAsWritten | include/seqan3/io/sam_file/format_bam.hpp:655 | the `bin` written is `reg2bin(pos, ref_length)` and fits 16 bits |
| BamCore.RecordBin | include/seqan3/io/sam_file/format_bam.hpp:655 | the intended `bin`, that of `[pos, pos + ref_length)`, fits 16 bits |
| BamCore.RecordBinMisplaced | include/seqan3/io/sam_file/format_bam.hpp:655 | 50 aligned bases at 100000 get bin 585 as written, where their region lies in bin 4687 |
| BamCore.RecordBinHoldsRegion | include/seqan3/io/sam_file/format_bam.hpp:183-197 | the intended bin of an aligned region inside `[0, 2^29)` is the deepest bin holding the whole region |
| BamRecord.MoveLongCigar | include/seqan3/io/sam_file/format_bam.hpp:632-638 | the written CIGAR has fewer than 65536 elements; tags other than `CG` are untouched; a shorter CIGAR and its tags are left as they are |
| BamRecord.RestoreLongCigarAsWritten | include/seqan3/io/sam_file/format_bam.hpp:479-511 | the reader's CG step as written: it acts when `l_seq != 0` and the front soft clip equals `l_seq`; it fails exactly then if `CG` is missing or not a string; on success `CG` is gone |
| BamRecord.RestoreLongCigar | include/seqan3/io/sam_file/format_bam.hpp:479-511 | the intended CG step: it acts exactly on the placeholder `<l_seq>S<m>N`, fails exactly when `CG` is then missing or not a string, and otherwise replaces the CIGAR with the parsed `CG` text and erases the tag |
| BamRecord.EraseStored | include/seqan3/io/sam_file/format_bam.hpp:510 | erasing a freshly stored `CG` leaves the dictionary as it was |
| BamRecord.LongCigarRoundTrip | include/seqan3/io/sam_file/format_bam.hpp:632-638 | writing moves a long CIGAR into `CG`, and the intended read restores it and erases `CG`; a short CIGAR not of the placeholder shape passes both steps unchanged |
| BamRecord.SoftClipOnlyRejectedAsWritten | include/seqan3/io/sam_file/format_bam.hpp:486 | the CIGAR `5S` on a five-base read without `CG` is written unchanged, rejected with a format error by the code, and kept by the intended read |
| BamRecord.LongCigarWithoutSequenceKeptAsWritten | include/seqan3/io/sam_file/format_bam.hpp:486 | with an empty sequence, the code's read keeps the placeholder and `CG` for a long CIGAR |
| BamRecord.RestoreAgreesOnPlaceholder | include/seqan3/io/sam_file/format_bam.hpp:479-511 | on the placeholder with a non-empty sequence the code and the intended read agree |
| BamRecord.LongCigarRoundTripAsWritten | include/seqan3/io/sam_file/format_bam.hpp:479-511 | with the code's read the CG step round-trips exactly under the source's conditions: a sequence under every long CIGAR, and no short CIGAR soft-clipping exactly `l_seq` bases at its front |
| BamRecord.RestoreLongCigarIn | include/seqan3/io/sam_file/format_bam.hpp:479-511 | the two variants of the read step agree on the placeholder with a non-empty sequence |
| BamRecord.LongCigarRoundTripIn | include/seqan3/io/sam_file/format_bam.hpp:632-638 | in either variant, the read step undoes the write step for every CIGAR that variant can carry |
| BamRecord.EncodeRecord | include/seqan3/io/sam_file/format_bam.hpp:620-785 | the writer, as written or corrected: fails exactly on qualities of the wrong length; `block_size` is 32 plus the bytes after the core; `n_cigar_op < 65536` and `l_read_name` in 2..255 |
| BamRecord.BlockSize | include/seqan3/io/sam_file/format_bam.hpp:724-729 | `block_size` is 32 plus the offset where the reader finds the end of the qualities plus the tag bytes, so the writer's size and the reader's field offsets agree |
| BamRecord.QualChars | include/seqan3/io/sam_file/format_bam.hpp:461-468 | the read qualities are the stored bytes plus 33, one per byte |
| BamRecord.DecodeRecord | include/seqan3/io/sam_file/format_bam.hpp:417-511 | the reader, as written or corrected: a successful read had lengths that fit the body and yields `l_seq` bases and `l_seq` qualities; an `l_read_name` of 0 gives the whole body as the id; a CIGAR that fits the body but names no operation fails with `InvalidCigarOperation` whatever follows it |
| BamRecord.BodySlices | include/seqan3/io/sam_file/format_bam.hpp:417-475 | the five fields laid end to end are recovered by slicing at their ends |
| BamRecord.LaidOut | include/seqan3/io/sam_file/format_bam.hpp:725-729 | with the core's lengths equal to the field sizes, the reader's offsets land on the field boundaries |
| BamRecord.NameWithoutNul | include/seqan3/io/sam_file/format_bam.hpp:733-737 | the name field written for an id of at most 254 letters has `l_read_name` bytes: the id, or `*` for an empty id, then the zero |
| BamRecord.MovedCigarRoundTrip | include/seqan3/io/sam_file/format_bam.hpp:740-745 | the CIGAR that is written, placeholder included, parses back from its binary form |
| BamRecord.WrittenLayout | include/seqan3/io/sam_file/format_bam.hpp:725-737 | the record written has its name, CIGAR, sequence, quality and tag bytes at the offsets the core's lengths give |
| BamRecord.DecodeParsed | include/seqan3/io/sam_file/format_bam.hpp:417-511 | in either variant, the reader on a body whose CIGAR and tags parse and whose CG step succeeds returns those fields |
| BamRecord.DecodeWritten | include/seqan3/io/sam_file/format_bam.hpp:417-511 | in either variant, the reader on the written layout returns the written record |
| BamRecord.RecordRoundTrip | include/seqan3/io/sam_file/format_bam.hpp:620-785 | in either variant, reading what was written gives the record back, with `*` for an empty id and Phred+33 characters for the qualities. This holds for every record that variant can carry; as written that excludes integer tags in -255..-129 or -65535..-32769, a long CIGAR on an empty sequence, and a short CIGAR soft-clipping exactly `l_seq` bases at its front |
| BamRecord.MovedPartsRoundTrip | include/seqan3/io/sam_file/format_bam.hpp:620-785 | in either variant, the CIGAR and tags the CG step leaves are written so that both parse back and the reader's CG step restores the record's own |
| BamRecord.WrittenRecordDecodes | include/seqan3/io/sam_file/format_bam.hpp:620-785 | the body the writer lays out reads back as the record, with `*` for an empty name and the quality bytes as characters |
| BamRecord.SoftClipOnlyRecordRejectedAsWritten | include/seqan3/io/sam_file/format_bam.hpp:486-507 | as written, a five-base read with CIGAR `5S`, no quality and no tags is written, then rejected with a format error on reading |
| BamTags.TagIdBytes | include/seqan3/io/sam_file/format_bam.hpp:1202-1203 | a tag id is written as two bytes |
| BamTags.ParseTagId | include/seqan3/io/sam_file/format_bam.hpp:946-953 | the id's low byte is the second byte; its high byte is the first byte when the second is below 128, and 255 otherwise, because the `char` is sign-extended |
| BamTags.TagIdRoundTrip | include/seqan3/io/sam_file/format_bam.hpp:946-953 | `(c0 << 8) \| c1` of the written bytes `tag / 256`, `tag % 256` gives the tag back when its second character is ASCII |
| BamTags.TagIdSignExtends | include/seqan3/io/sam_file/format_bam.hpp:946-953 | a second character of 128 or above is sign-extended by the `char` cast and sets the whole high byte |
| BamTags.BitCeil | include/seqan3/io/sam_file/format_bam.hpp:1144 | `bit_ceil` is at least 1 |
| BamTags.WidthClassRanges | include/seqan3/io/sam_file/format_bam.hpp:1143-1144 | `countr_zero(bit_ceil(\|v\| + 1) >> 1) / 8` is 0 for `\|v\|` in 1..255, 1 up to 65535, 2 up to `2^24 - 1`, 3 above, and 8 for zero |
| BamTags.IntTagAgreesOutsideTruncation | include/seqan3/io/sam_file/format_bam.hpp:1140-1182 | the code's choice of integer type differs from the intended one exactly on -255..-129 and -65535..-32769 |
| BamTags.IntTagAsWrittenTruncates | include/seqan3/io/sam_file/format_bam.hpp:1140-1182 | -200 is written as a one-byte `c` value and reads back as 56 |
| BamTags.IntTagAsWritten | include/seqan3/io/sam_file/format_bam.hpp:1140-1182 | the width matches the type character and is chosen by `\|v\|` alone: 1 byte exactly for `0 < \|v\| < 256`, 2 exactly for `256 <= \|v\| < 65536`, 4 for zero and larger magnitudes; `C`/`S` only for positive values, `c`/`s` only for negative ones |
| BamTags.IntTag | include/seqan3/io/sam_file/format_bam.hpp:1140-1182 | the intended choice takes 1, 2 or 4 bytes |
| BamTags.IntTagRoundTrip | include/seqan3/io/sam_file/format_bam.hpp:930-936 | every 32-bit integer except the smallest, written with the intended type, reads back unchanged at the width that type announces |
| BamTags.IntTagIn | include/seqan3/io/sam_file/format_bam.hpp:1140-1182 | the two variants pick the same type and width for every value outside the truncated ranges |
| BamTags.ReadInt | include/seqan3/io/sam_file/format_bam.hpp:929-936 | the value read is congruent to the payload's little-endian value modulo `256^width`; `C` and `S` read it unsigned, every other integer type as a 32-bit signed value |
| BamTags.SubtypeFromChar | include/seqan3/io/sam_file/format_bam.hpp:1056-1084 | a recognised array subtype character is the character of that subtype |
| BamTags.EncodeElem | include/seqan3/io/sam_file/format_bam.hpp:1191-1197 | an array element takes its type's width |
| BamTags.EncodeEntry | include/seqan3/io/sam_file/format_bam.hpp:1200-1211 | in either variant, a tag takes at least its two id bytes and a type byte |
| BamTags.TypeCharOf | include/seqan3/io/sam_file/format_bam.hpp:1200-1207 | integers get one of `cCsSi`, and a char, float, string or array value gets `A`, `f`, `Z` or `B`, each exactly for its kind |
| BamTags.EncodePayload | include/seqan3/io/sam_file/format_bam.hpp:1135-1198 | a char takes one byte, an integer as many as its type character says, a float four; a string is followed by one zero; an array is its subtype, a four-byte count and its elements |
| BamTags.EncodeDict | include/seqan3/io/sam_file/format_bam.hpp:1131-1214 | the writer produces no bytes exactly when the dictionary has no tags |
| BamTags.SortedTagsEmpty | include/seqan3/io/sam_file/format_bam.hpp:1200-1211 | the writer visits no tag exactly when the dictionary has none |
| BamTags.TagsFromMembers | include/seqan3/io/sam_file/format_bam.hpp:1200 | the tags listed from `k` upwards are exactly the dictionary's tags of at least `k` |
| BamTags.TagsFromSorted | include/seqan3/io/sam_file/format_bam.hpp:1200 | the tags listed from `k` upwards are strictly ascending |
| BamTags.SortedTagsInDict | include/seqan3/io/sam_file/format_bam.hpp:1200 | every listed tag is in the dictionary |
| BamTags.SortedTagsSpec | include/seqan3/io/sam_file/format_bam.hpp:1200 | the writer visits every tag of the ordered map exactly once, in ascending order |
| BamTags.WriterStep | include/seqan3/io/sam_file/format_bam.hpp:1200-1211 | appending one more tag keeps the written prefix a prefix of the whole output |
| BamTags.GetTagDictStr | include/seqan3/io/sam_file/format_bam.hpp:1131-1214 | in either variant, the writer's loop produces `EncodeDict`, the tags in key order |
| BamTags.FindNul | include/seqan3/io/sam_file/format_bam.hpp:1011 | a found terminator lies inside the buffer |
| BamTags.FindNulSpec | include/seqan3/io/sam_file/format_bam.hpp:1011 | the terminator found is the first zero byte; none is found only when the buffer holds no zero |
| BamTags.HexPair | include/seqan3/io/sam_file/format_bam.hpp:1029-1043 | as written, a pair fails exactly when its first character is not a hex digit |
| BamTags.HexPairStrict | include/seqan3/io/sam_file/format_bam.hpp:1029-1043 | a pair decodes exactly when both characters are hex digits, and the byte's high digit is the first character |
| BamTags.HexPairStrictAgrees | include/seqan3/io/sam_file/format_bam.hpp:1029-1043 | the code and the strict decoding agree whenever the second character is a digit, and differ when only the first is |
| BamTags.HexPairAcceptsBadSecondDigit | include/seqan3/io/sam_file/format_bam.hpp:1029-1043 | as written, the pair `1G` decodes to 1 and the `H` value `1G` reads as the byte 1; the intended read rejects the value |
| BamTags.HexPairIn | include/seqan3/io/sam_file/format_bam.hpp:1029-1043 | the two variants decode every pair whose second character is a hex digit as the code does |
| BamTags.DecodeHex | include/seqan3/io/sam_file/format_bam.hpp:1016-1050 | in either variant, an odd number of digits is a format error, and a decoded value has one byte per two digits |
| BamTags.ReadHexString | include/seqan3/io/sam_file/format_bam.hpp:1016-1050 | the pair-by-pair loop computes `DecodeHex`, errors included |
| BamTags.DecodeHexRoundTrip | include/seqan3/io/sam_file/format_bam.hpp:1016-1050 | in either variant, decoding the upper-case hex text of any bytes gives the bytes back |
| BamTags.HexText | include/seqan3/io/sam_file/format_bam.hpp:1016-1050 | hex text takes two characters per byte |
| BamTags.DecodeElems | include/seqan3/io/sam_file/format_bam.hpp:883-895 | the array reader yields exactly `count` elements |
| BamTags.ReadElem | include/seqan3/io/sam_file/format_bam.hpp:883-895 | an element read back lies in its type's range and is congruent to its raw bytes |
| BamTags.ReadArrayElems | include/seqan3/io/sam_file/format_bam.hpp:883-897 | the element-by-element loop computes `DecodeElems` |
| BamTags.ParseArray | include/seqan3/io/sam_file/format_bam.hpp:862-902 | a parsed array took its 4-byte count and no more than the buffer |
| BamTags.ParseValue | include/seqan3/io/sam_file/format_bam.hpp:962-1091 | in either variant, a parsed value never takes more than the buffer holds |
| BamTags.ParseEntry | include/seqan3/io/sam_file/format_bam.hpp:955-961 | in either variant, a parsed tag took at least its id and type bytes and no more than the buffer |
| BamTags.ParseDict | include/seqan3/io/sam_file/format_bam.hpp:919-1094 | an empty buffer leaves the target as it is, and a successful parse keeps every tag the target already held |
| BamTags.ParseDictStop | include/seqan3/io/sam_file/format_bam.hpp:1087-1091 | a tag that does not parse ends the reader with its error |
| BamTags.ParseDictStep | include/seqan3/io/sam_file/format_bam.hpp:954-1093 | a parsed tag is stored (overwriting an earlier one) and reading resumes after it |
| BamTags.ReadSamDict | include/seqan3/io/sam_file/format_bam.hpp:919-1094 | in either variant, the reader's loop computes `ParseDict`, errors included |
| BamTags.ElemRoundTrip | include/seqan3/io/sam_file/format_bam.hpp:883-895 | an array element in its type's range reads back unchanged |
| BamTags.ElemsRoundTrip | include/seqan3/io/sam_file/format_bam.hpp:883-895 | the elements written read back unchanged, whatever follows them |
| BamTags.StringRoundTrip | include/seqan3/io/sam_file/format_bam.hpp:1011-1012 | a string without zero bytes is found again up to its terminator |
| BamTags.IntValueRoundTrip | include/seqan3/io/sam_file/format_bam.hpp:971-1000 | an integer tag value reads back unchanged and takes exactly the bytes written: always with the intended widths, and as written for every value outside -255..-129 and -65535..-32769 |
| BamTags.CountRoundTrip | include/seqan3/io/sam_file/format_bam.hpp:868-876 | an array length written as `int32` reads back unchanged |
| BamTags.ArrayValueRoundTrip | include/seqan3/io/sam_file/format_bam.hpp:862-902 | an array value reads back unchanged and takes exactly the bytes written |
| BamTags.FloatValueRoundTrip | include/seqan3/io/sam_file/format_bam.hpp:1001-1008 | a float's 32-bit pattern reads back unchanged |
| BamTags.StrValueRoundTrip | include/seqan3/io/sam_file/format_bam.hpp:1009-1015 | a string tag reads back unchanged and takes its bytes and the terminator |
| BamTags.ArrayEntryValueRoundTrip | include/seqan3/io/sam_file/format_bam.hpp:1051-1086 | a `B` value with its subtype reads back unchanged |
| BamTags.ValueRoundTrip | include/seqan3/io/sam_file/format_bam.hpp:962-1091 | every writable value reads back unchanged with the type character written for it, in either variant; as written this excludes integers in the truncated ranges |
| BamTags.EntryRoundTrip | include/seqan3/io/sam_file/format_bam.hpp:955-961 | in either variant, a written tag the variant can carry reads back as the same id and value, and takes exactly the bytes written |
| BamTags.IntEntryTruncatedAsWritten | include/seqan3/io/sam_file/format_bam.hpp:1140-1182 | as written, an `Int(-200)` tag reads back as `Int(56)` from one value byte; corrected, it reads back as itself from two |
| BamTags.EntriesRoundTrip | include/seqan3/io/sam_file/format_bam.hpp:954-1093 | in either variant, reading the written tags stores each into the target |
| BamTags.StoreAllCovers | include/seqan3/io/sam_file/format_bam.hpp:954-1093 | after storing, the target holds exactly the old keys and the stored tags, with the stored values |
| BamTags.DictRoundTrip | include/seqan3/io/sam_file/format_bam.hpp:1131-1214 | in either variant, reading the tag bytes written for a dictionary gives it back. This holds for every dictionary the variant can carry; as written, integers in -255..-129 and -65535..-32769 are excluded |
| BamTags.StoreAllMembers | include/seqan3/io/sam_file/format_bam.hpp:954-1093 | storing every tag of a dictionary into an empty one rebuilds it |
| Concatenated.Offsets | include/seqan3/alphabet/container/concatenated_sequences.hpp:234-246 | the delimiters of a list of sequences start at 0, number one more than the sequences and end at the total length |
| Concatenated.OffsetsSlice | include/seqan3/alphabet/container/concatenated_sequences.hpp:556-569 | element `t` is exactly the buffer between delimiters `t` and `t + 1` |
| Concatenated.OffsetsMonotone | include/seqan3/alphabet/container/concatenated_sequences.hpp:234-246 | the delimiters are non-decreasing |
| Concatenated.CanonicalElements | include/seqan3/alphabet/container/concatenated_sequences.hpp:234-246 | the buffer and delimiters built from a list satisfy the invariant and hold that list |
| Concatenated.RepresentationUnique | include/seqan3/alphabet/container/concatenated_sequences.hpp:1415-1418 | a well-formed buffer and delimiter pair is determined by its elements |
| Concatenated.RawEqualIffSameElements | include/seqan3/alphabet/container/concatenated_sequences.hpp:1415-1418 | equal buffers and delimiters exactly when the elements are equal |
| Concatenated.SpliceElements | include/seqan3/alphabet/container/concatenated_sequences.hpp:954-1011 | replacing elements `a..b` by a list keeps the invariant and gives `old[..a] + list + old[b..]` |
| Concatenated.SpliceWellFormed | include/seqan3/alphabet/container/concatenated_sequences.hpp:1039-1090 | a splice keeps the delimiters starting at 0, non-decreasing and ending at the buffer's length |
| Concatenated.AddToTail | include/seqan3/alphabet/container/concatenated_sequences.hpp:1000-1008 | the loop adds the same amount to every delimiter from a given index on and leaves the rest |
| Concatenated.SubtractFromTail | include/seqan3/alphabet/container/concatenated_sequences.hpp:1160-1165 | the loop subtracts the same amount from every delimiter from a given index on and leaves the rest |
| Concatenated.InsertCountDelimiters | include/seqan3/alphabet/container/concatenated_sequences.hpp:954-1011 | the count form's delimiter loops give the delimiters of the splice of `count` copies |
| Concatenated.InsertRangesDelimiters | include/seqan3/alphabet/container/concatenated_sequences.hpp:1039-1090 | the range form's loops give the inserted sequences' total length and the delimiters of their splice |
| Concatenated.EraseDelimiters | include/seqan3/alphabet/container/concatenated_sequences.hpp:1140-1167 | the erase loop measures the erased elements' total length and gives the delimiters without them |
| Concatenated.ErasedElements | include/seqan3/alphabet/container/concatenated_sequences.hpp:1140-1167 | erasing elements `first..last` removes exactly their slice of the buffer and leaves the other elements |
| Concatenated.PushBackIsSplice | include/seqan3/alphabet/container/concatenated_sequences.hpp:1215-1221 | appending to the buffer and one delimiter is the splice of one element at the end |
| Concatenated.LastAppendIsSplice | include/seqan3/alphabet/container/concatenated_sequences.hpp:1293-1299 | extending the buffer and the last delimiter replaces the last element by its extension |
| Concatenated.LastAppendOnEmptyBreaksRepresentation | include/seqan3/alphabet/container/concatenated_sequences.hpp:1266-1299 | on an empty container, `last_push_back` and `last_append` leave size 0, a non-empty buffer and a first delimiter other than 0, a state that is not well formed |
| Concatenated.PopBackIsSplice | include/seqan3/alphabet/container/concatenated_sequences.hpp:1319-1325 | cutting the buffer at the second-to-last delimiter and dropping the last delimiter removes the last element |
| Concatenated.TruncateElements | include/seqan3/alphabet/container/concatenated_sequences.hpp:1355-1360 | cutting buffer and delimiters at element `count` keeps the first `count` elements |
| Concatenated.PadElements | include/seqan3/alphabet/container/concatenated_sequences.hpp:1355-1360 | repeating the last delimiter appends that many empty elements |
| Concatenated.ConcatenatedSequences.constructor | include/seqan3/alphabet/container/concatenated_sequences.hpp:887-892 | a new collection is empty with delimiters `[0]` |
| Concatenated.ConcatenatedSequences.FromRanges | include/seqan3/alphabet/container/concatenated_sequences.hpp:234-246 | the range constructor holds exactly the given sequences, their concatenation and their offsets |
| Concatenated.ConcatenatedSequences.Filled | include/seqan3/alphabet/container/concatenated_sequences.hpp:263-272 | the count constructor holds `count` copies of the value |
| Concatenated.ConcatenatedSequences.Assign | include/seqan3/alphabet/container/concatenated_sequences.hpp:357-363 | after `assign` the collection holds exactly the given sequences |
| Concatenated.ConcatenatedSequences.Size | include/seqan3/alphabet/container/concatenated_sequences.hpp:706-709 | one less than the number of delimiters is the number of elements |
| Concatenated.ConcatenatedSequences.ConcatSize | include/seqan3/alphabet/container/concatenated_sequences.hpp:823-826 | the buffer's length is the total length of the elements |
| Concatenated.ConcatenatedSequences.Get | include/seqan3/alphabet/container/concatenated_sequences.hpp:556-569 | element `i` is the part of the buffer between the elements before it and the elements after it |
| Concatenated.ConcatenatedSequences.At | include/seqan3/alphabet/container/concatenated_sequences.hpp:523-538 | `at(i)` fails with out-of-range exactly when `i >= size()`, and otherwise gives element `i` |
| Concatenated.ConcatenatedSequences.Clear | include/seqan3/alphabet/container/concatenated_sequences.hpp:887-892 | `clear` leaves no elements, an empty buffer and delimiters `[0]` |
| Concatenated.ConcatenatedSequences.PushBack | include/seqan3/alphabet/container/concatenated_sequences.hpp:1215-1221 | `push_back(v)` appends `v` as the new last element, grows the buffer by `v` and keeps the earlier elements |
| Concatenated.ConcatenatedSequences.PushBackEmpty | include/seqan3/alphabet/container/concatenated_sequences.hpp:1241-1244 | `push_back()` appends an empty element and leaves the buffer alone |
| Concatenated.ConcatenatedSequences.LastPushBack | include/seqan3/alphabet/container/concatenated_sequences.hpp:1266-1270 | `last_push_back` extends only the last element by one value; the size is unchanged |
| Concatenated.ConcatenatedSequences.LastAppend | include/seqan3/alphabet/container/concatenated_sequences.hpp:1293-1299 | `last_append` extends only the last element by a sequence; the size is unchanged |
| Concatenated.ConcatenatedSequences.PopBack | include/seqan3/alphabet/container/concatenated_sequences.hpp:1319-1325 | `pop_back` removes exactly the last element and shrinks the buffer by its length |
| Concatenated.ConcatenatedSequences.Insert | include/seqan3/alphabet/container/concatenated_sequences.hpp:954-1011 | `insert(pos, count, v)` gives `old[..pos] + count copies of v + old[pos..]`, with a count of 0 changing nothing |
| Concatenated.ConcatenatedSequences.InsertOne | include/seqan3/alphabet/container/concatenated_sequences.hpp:920-925 | `insert(pos, v)` puts `v` at `pos` |
| Concatenated.ConcatenatedSequences.InsertRanges | include/seqan3/alphabet/container/concatenated_sequences.hpp:1039-1090 | the range form inserts the given sequences at `pos`, in order |
| Concatenated.ConcatenatedSequences.Erase | include/seqan3/alphabet/container/concatenated_sequences.hpp:1140-1167 | `erase(first, last)` removes exactly those elements, shrinks the buffer by their total length and keeps the others |
| Concatenated.ConcatenatedSequences.EraseAt | include/seqan3/alphabet/container/concatenated_sequences.hpp:1189-1192 | `erase(pos)` removes exactly element `pos` |
| Concatenated.ConcatenatedSequences.Resize | include/seqan3/alphabet/container/concatenated_sequences.hpp:1355-1360 | `resize(n)` truncates to `n` elements or pads with empty ones |
| Concatenated.ConcatenatedSequences.ResizeWith | include/seqan3/alphabet/container/concatenated_sequences.hpp:1367-1378 | `resize(n, v)` truncates to `n` elements or pads with copies of `v` |
| Concatenated.ConcatenatedSequences.Swap | include/seqan3/alphabet/container/concatenated_sequences.hpp:1393-1397 | `swap` exchanges both buffers of the two collections |
| Concatenated.ConcatenatedSequences.Equals | include/seqan3/alphabet/container/concatenated_sequences.hpp:1415-1418 | comparing both buffers is comparing the element lists |
| Syncmer.RightmostMin | include/seqan3/search/views/syncmer.hpp:254-256 | `min_element` with `less_equal` picks a minimum with no other minimum to its right |
| Syncmer.RightmostMinUnique | include/seqan3/search/views/syncmer.hpp:254-256 | there is only one rightmost minimum |
| Syncmer.NoMinAfterRightmost | include/seqan3/search/views/syncmer.hpp:275-277 | no position after the rightmost minimum holds a minimum |
| Syncmer.MinElementLessEqual | include/seqan3/search/views/syncmer.hpp:254-256 | the scan's loop returns the rightmost minimum |
| Syncmer.WindowSizeFor | include/seqan3/search/views/syncmer.hpp:308 | `k - s + 1` in `size_t`: for `1 <= s <= k` the window and the s-mer cover the k-mer; `s = k + 1` gives 0; larger `s` wraps around |
| Syncmer.MinElsewhereNotUnique | include/seqan3/search/views/syncmer.hpp:225-229 | a window whose minimum sits elsewhere has no unique minimum at the offset |
| Syncmer.SlideContents | include/seqan3/search/views/syncmer.hpp:269-270 | dropping the front value and appending the next hash gives the next window of the input |
| Syncmer.NewMinimumAtBack | include/seqan3/search/views/syncmer.hpp:280-285 | a strictly smaller arriving value is the minimum of the slid window, at its back |
| Syncmer.MinimumMovesUp | include/seqan3/search/views/syncmer.hpp:287-289 | when the minimum was not at the front and the arriving value is not smaller, the minimum stays, one position further up |
| Syncmer.KmerStep | include/seqan3/search/views/syncmer.hpp:218-223 | one `update_kmer_value` extends the fold of the hashes read so far by the next hash |
| Syncmer.NextSyncmerStepAtEnd | include/seqan3/search/views/syncmer.hpp:261-265 | a step that reaches the end keeps the invariant and reports a stop |
| Syncmer.NextSyncmerStepMinimum | include/seqan3/search/views/syncmer.hpp:273-289 | after every step the tracked pair names a minimum of the window and its value |
| Syncmer.NextSyncmerStepWindow | include/seqan3/search/views/syncmer.hpp:267-270 | after a step inside the input the deque is the next window of exactly `window_size` values |
| Syncmer.NextSyncmerStepKmer | include/seqan3/search/views/syncmer.hpp:218-223 | after a step inside the input the rolling value folds every hash read under the mask |
| Syncmer.NextSyncmerStepInside | include/seqan3/search/views/syncmer.hpp:261-290 | a step inside the input keeps the whole invariant and moves the window by one |
| Syncmer.SkippedWindow | include/seqan3/search/views/syncmer.hpp:225-229 | a window passed over with the tracked position off the offset has no unique minimum at the offset |
| Syncmer.FirstWindow | include/seqan3/search/views/syncmer.hpp:246-258 | the first window read with its rightmost minimum satisfies the invariant |
| Syncmer.KmerIsWindowValue | include/seqan3/search/views/syncmer.hpp:148 | the masked rolling value depends only on the last `window_size` hashes |
| Syncmer.SyncmerIterator.constructor | include/seqan3/search/views/syncmer.hpp:138-151 | the window is clamped to the input size; afterwards the iterator is at the end or at a window whose minimum sits at the offset, and no syncmer was skipped |
| Syncmer.SyncmerIterator.EqualsSentinel | include/seqan3/search/views/syncmer.hpp:164-167 | the iterator equals the sentinel exactly when the input is used up |
| Syncmer.SyncmerIterator.Value | include/seqan3/search/views/syncmer.hpp:197-200 | `operator*` is the masked fold of the current window's hashes |
| Syncmer.SyncmerIterator.GetOffset | include/seqan3/search/views/syncmer.hpp:212-215 | the offset reported names a minimum of the window, holding the tracked value |
| Syncmer.SyncmerIterator.UpdateKmerValue | include/seqan3/search/views/syncmer.hpp:218-223 | the rolling value becomes `((kmer << 2) \| smer) & mask` and nothing else changes |
| Syncmer.SyncmerIterator.ReadFirstWindow | include/seqan3/search/views/syncmer.hpp:246-253 | `init`'s loop reads exactly the first `window_size` hashes into the deque and the rolling value |
| Syncmer.SyncmerIterator.Init | include/seqan3/search/views/syncmer.hpp:241-259 | a window of 0 does nothing; otherwise the iterator ends at the first syncmer or at the end, with none skipped |
| Syncmer.SyncmerIterator.NextSyncmer | include/seqan3/search/views/syncmer.hpp:261-290 | one step: at the end it reports a stop; else it slides the window, rescans only when the minimum was at the front, moves to the back on a strictly smaller value, and otherwise moves the position up by one; it stops exactly when the position equals the offset |
| Syncmer.SyncmerIterator.NextUniqueSyncmer | include/seqan3/search/views/syncmer.hpp:225-229 | the loop advances to the next window whose minimum sits at the offset, or to the end, and no window skipped on the way has a unique minimum there |
| Syncmer.SyncmerIterator.Advance | include/seqan3/search/views/syncmer.hpp:261-290 | one step keeps the invariant and moves the input by one position |
| SyncmerBits.FoldBit | include/seqan3/search/views/syncmer.hpp:218-223 | bit `i` of the masked fold is set exactly when it lies under the mask and some hash set it, shifted by its distance from the end |
| SyncmerBits.RollingValueIsWindowValue | include/seqan3/search/views/syncmer.hpp:148 | folding all hashes under the `2 * window_size`-bit mask equals folding only the last `window_size` |
| SyncmerBits.FoldSnoc | include/seqan3/search/views/syncmer.hpp:218-223 | folding one more hash is one more update step |
| SyncmerBits.StepInsideMask | include/seqan3/search/views/syncmer.hpp:148 | an update step never sets a bit above the mask |
| TakeExactly.TakeExactlyFn | include/seqan3/io/views/detail/take_exactly_view.hpp:458-512 | on a sized range the throwing variant fails with `invalid_argument` exactly when the target exceeds the size, and the other clamps the target to the size; a direct prefix is chosen only for sized ranges and never exceeds the size |
| TakeExactly.DrainFrom | include/seqan3/io/views/detail/take_exactly_view.hpp:366-383 | iterating to the sentinel yields the elements up to the target or the end, or `unexpected_end_of_input` for the throwing variant on a range that ends first |
| TakeExactly.TakeExactlyContents | include/seqan3/io/views/detail/take_exactly_view.hpp:475-512 | every result type, the direct prefixes and the iterated view alike, yields the first `min(n, size)` elements or the error |
| TakeExactly.DecrementSize | include/seqan3/io/views/detail/take_exactly_view.hpp:290 | `--target_size` counts down by one and wraps at 0 like `size_t` |
| TakeExactly.TakeExactlyView.constructor | include/seqan3/io/views/detail/take_exactly_view.hpp:92-110 | the view keeps the range, its traits, the variant and the target |
| TakeExactly.MakeView | include/seqan3/io/views/detail/take_exactly_view.hpp:92-110 | constructing over a sized range fails with `invalid_argument` exactly when the throwing variant gets a shorter range; the size is then the clamped target |
| TakeExactly.TakeExactlyView.Begin | include/seqan3/io/views/detail/take_exactly_view.hpp:141-147 | `begin()` gives an iterator at position 0 that stops at the target |
| TakeExactly.TakeExactlyView.Size | include/seqan3/io/views/detail/take_exactly_view.hpp:206-209 | `size()` is the view's target size |
| TakeExactly.Iterator.constructor | include/seqan3/io/views/detail/take_exactly_view.hpp:259-273 | the iterator keeps its host, underlying position, position and target |
| TakeExactly.Iterator.Deref | include/seqan3/io/views/detail/take_exactly_view.hpp:227-228 | `operator*`, inherited from the underlying iterator, is the element at the current position |
| TakeExactly.Iterator.Index | include/seqan3/io/views/detail/take_exactly_view.hpp:424-428 | `operator[](n)` is the element `n` past the current position |
| TakeExactly.Iterator.Increment | include/seqan3/io/views/detail/take_exactly_view.hpp:285-292 | `++` advances both positions by one; on a single-pass range the host's target counts down, on others it is unchanged |
| TakeExactly.Iterator.Decrement | include/seqan3/io/views/detail/take_exactly_view.hpp:313-319 | `--` moves both positions back by one |
| TakeExactly.Iterator.AddAssign | include/seqan3/io/views/detail/take_exactly_view.hpp:332-339 | `+=` moves both positions by `skip` |
| TakeExactly.Iterator.SubtractAssign | include/seqan3/io/views/detail/take_exactly_view.hpp:342-349 | `-=` moves both positions back by `skip` |
| TakeExactly.Iterator.EqualsSentinel | include/seqan3/io/views/detail/take_exactly_view.hpp:366-383 | equal once the position reaches the target, whatever the range holds; before that, at the end of the range the throwing variant fails with `unexpected_end_of_input` and the other reports equal; otherwise not equal |
| TakeExactly.Iterator.EqualsIterator | include/seqan3/io/views/detail/take_exactly_view.hpp:358-363 | two iterators are equal exactly when they are at the same position |
| AffineGapBandedInit.FirstColumnIsLeadingGap | include/seqan3/alignment/pairwise/policy/affine_gap_banded_init_policy.hpp:89-106 | after the origin and `k` first-column cells the running vertical score is the cost of a leading gap of length `k + 1`, or 0 when such gaps are free |
| AffineGapBandedInit.FirstRowIsLeadingGap | include/seqan3/alignment/pairwise/policy/affine_gap_banded_init_policy.hpp:114-130 | after the origin and `k` first-row cells the stored horizontal score is the cost of a leading gap of length `k + 1`, or 0 when such gaps are free |
| AffineGapBandedInit.BandedInitPolicy.constructor | include/seqan3/alignment/pairwise/policy/affine_gap_banded_init_policy.hpp:60-81 | the policy keeps the two free-leading-gap flags |
| AffineGapBandedInit.BandedInitPolicy.InitOriginCell | include/seqan3/alignment/pairwise/policy/affine_gap_banded_init_policy.hpp:60-81 | main score 0; vertical and horizontal scores 0 when their leading gaps are free, else the gap-open value |
| AffineGapBandedInit.BandedInitPolicy.InitColumnCell | include/seqan3/alignment/pairwise/policy/affine_gap_banded_init_policy.hpp:89-106 | main takes the running vertical score, which then becomes 0 or grows by the extension; horizontal is main plus gap open |
| AffineGapBandedInit.BandedInitPolicy.InitRowCell | include/seqan3/alignment/pairwise/policy/affine_gap_banded_init_policy.hpp:114-130 | main takes the shifted horizontal score; the vertical score grows by main plus gap open; horizontal becomes 0 or the shifted one plus the extension; the next entry is otherwise untouched |
| AffineGapBandedInit.BandedInitPolicy.BalancedTotal | include/seqan3/alignment/pairwise/policy/affine_gap_banded_init_policy.hpp:145-160 | `score(\|upper\|)` is added only when second-sequence leading gaps are not free and `upper < 0`, `score(lower)` only when first-sequence leading gaps are not free and `lower > 0`; otherwise the total is unchanged |
| AffineGapBandedInit.BandedInitPolicy.BalanceLeadingGaps | include/seqan3/alignment/pairwise/policy/affine_gap_banded_init_policy.hpp:145-160 | `balance_leading_gaps` updates the total as `BalancedTotal` says |
| AffineGapBandedInit.BandedInitPolicy.BalanceMatchesColumnInit | include/seqan3/alignment/pairwise/policy/affine_gap_banded_init_policy.hpp:150-154 | with the gap scheme's own score, the balance for a band starting inside the second sequence is the first column's vertical score at that depth |
| AffineGapBandedInit.BandedInitPolicy.BalanceMatchesRowInit | include/seqan3/alignment/pairwise/policy/affine_gap_banded_init_policy.hpp:155-160 | with the gap scheme's own score, the balance for a band starting inside the first sequence is the first row's horizontal score at that width |
| TraceMatrixFull.LayoutIndexInBounds | include/seqan3/alignment/matrix/detail/alignment_trace_matrix_full.hpp:145-147 | cell `num_rows * j + i` of every column `j` and row `i` lies inside `data` |
| TraceMatrixFull.LayoutInjective | include/seqan3/alignment/matrix/detail/alignment_trace_matrix_full.hpp:145-147 | different coordinates use different cells |
| TraceMatrixFull.LayoutSurjective | include/seqan3/alignment/matrix/detail/alignment_trace_matrix_full.hpp:145-147 | every cell of `data` belongs to column `d / num_rows`, row `d % num_rows` |
| TraceMatrixFull.TraceMatrix.constructor | include/seqan3/alignment/matrix/detail/alignment_trace_matrix_full.hpp:116-129 | `num_cols = \|first\| + 1`, `num_rows = \|second\| + 1`; in full mode `data` has one default trace per cell and `cache_left` one initial value per row; coordinate-only mode allocates nothing |
| TraceMatrixFull.TraceMatrix.Column | include/seqan3/alignment/matrix/detail/alignment_trace_matrix_full.hpp:134-152 | column `j` yields `num_rows` entries with coordinates `(j, 0) .. (j, num_rows - 1)`; in full mode entry `i` pairs cell `num_rows * j + i`, entry `i` of `cache_left` twice and `cache_up`; in coordinate-only mode no proxy |
| TraceMatrixFull.TraceMatrix.ColumnInBounds | include/seqan3/alignment/matrix/detail/alignment_trace_matrix_full.hpp:155-170 | every proxy refers to cells inside `data` and `cache_left` |
| TraceMatrixFull.TraceMatrix.ColumnsPartitionData | include/seqan3/alignment/matrix/detail/alignment_trace_matrix_full.hpp:134-152 | the columns visit every cell of `data` exactly once, in column-major order |
| KmerDecode.KmerToString | test/unit/search/views/example.cpp:15-24 | the result has `kmer_size` letters; the letter at `kmer_size - 1 - i` is the `i`-th 2-bit group of the k-mer |
| KmerDecode.Decode | test/unit/search/views/example.cpp:15-24 | the decoded k-mer has exactly `k` letters |
| KmerDecode.DecodeIndex | test/unit/search/views/example.cpp:18-22 | letter `j` of the decoded k-mer is its 2-bit group `k - 1 - j`: the first letter comes from the most significant group |
| KmerDecode.DecodeIgnoresHighBits | test/unit/search/views/example.cpp:18-22 | bits above `2 * kmer_size` do not change the result |
| KmerDecode.PackDecode | test/unit/search/views/minimiser_hash_test.cpp:84-93 | re-packing the decoded ranks gives the k-mer modulo `4^k` |
| KmerDecode.DecodePack | test/unit/search/views/minimiser_hash_test.cpp:84-93 | decoding the packing of any ranks gives the ranks back |
| KmerDecode.DecodeZero | test/unit/search/views/minimiser_hash_test.cpp:84-93 | the k-mer 0 decodes to `kmer_size` letters of rank 0 |
| Dna2.CharToRankTable | doc/howto/write_an_alphabet/dna2_derive_from_base.cpp:46-52 | the table covers all 256 characters |
| Dna2.RankToChar | doc/howto/write_an_alphabet/dna2_derive_from_base.cpp:23-29 | rank 0 is `S` and rank 1 is `W` |
| Dna2.CharToRank | doc/howto/write_an_alphabet/dna2_derive_from_base.cpp:31-38 | a character gets rank 1 exactly when it is `W` or `w` |
| Dna2.RankToCharArithmetic | doc/howto/write_an_alphabet/dna2_derive_from_base.cpp:27-28 | the arithmetic form gives only `S` or `W`, and `W` exactly for rank 1 |
| Dna2.ToLower | doc/howto/write_an_alphabet/dna2_derive_from_base.cpp:37 | an upper-case letter becomes its lower-case partner, every other character is unchanged, and no upper-case letter comes out |
| Dna2.CharToRankArithmetic | doc/howto/write_an_alphabet/dna2_derive_from_base.cpp:36-37 | the arithmetic form gives rank 1 exactly for `W` and `w` |
| Dna2.ArithmeticFormsAgree | doc/howto/write_an_alphabet/dna2_derive_from_base.cpp:23-38 | the unreachable arithmetic forms compute the same as the tables |
| Dna2.CharOfRankRoundTrip | doc/howto/write_an_alphabet/dna2_derive_from_base.cpp:23-38 | converting a rank to its character and back gives the rank |
| Dna2.RankToCharImage | doc/howto/write_an_alphabet/dna2_derive_from_base.cpp:44 | the characters of the alphabet are exactly `S` and `W` |
| Dna2Comparison.Eq | doc/howto/write_an_alphabet/dna2_comparison_operators.cpp:14-17 | `==` holds exactly for equal letters |
| Dna2Comparison.Ne | doc/howto/write_an_alphabet/dna2_comparison_operators.cpp:19-22 | `!=` holds exactly for different letters |
| Dna2Comparison.Lt | doc/howto/write_an_alphabet/dna2_comparison_operators.cpp:26-29 | `<` never holds between equal letters, and of two different letters one is below the other |
| Dna2Comparison.Le | doc/howto/write_an_alphabet/dna2_comparison_operators.cpp:31-34 | `<=` is `<` or equality |
| Dna2Comparison.Gt | doc/howto/write_an_alphabet/dna2_comparison_operators.cpp:36-39 | `>` is the converse of `<` |
| Dna2Comparison.Ge | doc/howto/write_an_alphabet/dna2_comparison_operators.cpp:41-44 | `>=` is the converse of `<` or equality |
| Dna2Comparison.TotallyOrdered | doc/howto/write_an_alphabet/dna2_comparison_operators.cpp:26-29 | `<` is irreflexive, transitive and asymmetric, and any two letters are related by `<` one way or the other or are equal |

## Left out

- Stream and file plumbing of the BAM format (`istreambuf`, `ostringstream`, header text, `header_was_read`), `ref_dict` lookups, and the cast of the 36-byte core from host memory: only the byte layout after the core, the core's length fields and the checks named above are modelled, in little-endian order.
- The alphabet conversions around the codec (`dna16sam` ranks, Phred quality characters, `assign_char_to`): sequences are their 4-bit ranks and qualities their bytes.
- `soft_clipping_at_front`, `get_cigar_string`, `parse_cigar` and `update_alignment_lengths` are not part of this model: the CIGAR text codec is a parameter of the CG step, and `RefLength` and `SoftClipAtFront` state what those helpers are documented to compute.
- Mapping quality, flag, mate fields and template length of the core are copied as they are and not modelled.
- BamRecord.MoveLongCigar: the reference length is not modelled as a 32-bit signed sum; `RecordRoundTrip` requires it below `2^28`.
- BamRecord.MoveLongCigar: returns a new CIGAR and tag dictionary. The source takes `cigar_vector` and `tag_dict` as forwarding references and rewrites them in place, so a caller passing lvalues sees `CG` added and its CIGAR replaced by the placeholder. The model does not capture that update of the caller's objects.
- BamRecord.EncodeRecord: the core's `bin` field is not part of the modelled layout; `RecordBinAsWritten` models the value written (see "## Findings"), and the reader ignores it.
- BamRecord.RecordRoundTrip: requires an id of at most 254 letters, counts and sequence length below `2^28`, a CIGAR text codec that round-trips without zero bytes, no `CG` tag of its own, tag values the writer can emit, and a CIGAR the variant's reader undoes. As written, the last means a sequence under every long CIGAR and no short CIGAR soft-clipping exactly `l_seq` bases at its front (shown by `SoftClipOnlyRecordRejectedAsWritten` and `LongCigarWithoutSequenceKeptAsWritten`).
- BamRecord.EncodeRecord: when the quality length differs from the sequence length, the source has already streamed the core, the name, the CIGAR words and the packed sequence (include/seqan3/io/sam_file/format_bam.hpp:731-761) before it throws `format_error` (include/seqan3/io/sam_file/format_bam.hpp:766-767). The model returns `Failure(FormatError)` without those bytes, so the partial record left in the output stream is not modelled.
- BamRecord.DecodeRecord: a body that ends before the CIGAR does, or whose later fields do not fit once the CIGAR has parsed, is reported as `Malformed`. Here the source's `substr` calls either throw `std::out_of_range` or return shortened fields that are then read past their end (include/seqan3/io/sam_file/format_bam.hpp:427-447).
- BamTags.DictRoundTrip: as written, excludes integer tags in -255..-129 and -65535..-32769, which the writer truncates (shown by `IntEntryTruncatedAsWritten`); `ValueRoundTrip`, `EntryRoundTrip`, `EntriesRoundTrip` and `IntValueRoundTrip` exclude them likewise.
- BamCore.CigarRoundTrip: requires counts below `2^28`, because the shift drops higher bits (shown by `CigarCountTruncated`).
- BamTags.TagIdRoundTrip: requires the second id character to be ASCII, because the reader sign-extends it (shown by `TagIdSignExtends`).
- BamTags.IntTagRoundTrip: excludes `INT32_MIN`, whose `std::abs` is undefined.
- Float tags and float arrays are carried as their 32-bit patterns; no floating-point arithmetic is modelled.
- The writer's byte-array (`H`) case: the variant index and the type-character table it reads are not part of this model, so byte arrays are not written; the reader's `H` case is modelled.
- Out-of-buffer reads, which are undefined behaviour in the reader, are reported as a `Malformed` error. A negative array count makes the source throw `std::length_error` from `reserve`; the model reports that as `Malformed` too.
- `concatenated_sequences`: the return values of `insert` and `erase` are not specified. Also left out: `front`/`back`, `concat`/`raw_data` views, capacity and `reserve`, the ordering operators and cereal serialisation. Also left out are the overloads that only forward to modelled ones: the initializer-list constructor, `operator=`, `assign` and `insert`; the iterator-pair constructor and `assign`; and the count-and-value `assign`. The iterator-pair `insert` is modelled as `InsertRanges`.
- Concatenated.ConcatenatedSequences.Insert: the source first inserts `count * |value|` default elements into the value buffer and then copies `value` into each slot in a loop; the model replaces the buffer by the spliced result in one step, so the intermediate placeholder state is not modelled.
- Concatenated.ConcatenatedSequences.InsertRanges: likewise, the placeholder insertion followed by the copy loop over the ranges is one splice of the value buffer; the intermediate state is not modelled.
- The `kmer_hash` view that feeds the syncmer is not shown; its output is a given sequence of hashes below `2^64`.
- The syncmer iterator-to-iterator `operator==` refers to a member that does not exist and is left out.
- Syncmer.SyncmerIterator.constructor: requires `2 * window_size < 64`, since a wider shift of `1ULL` is undefined.
- Syncmer.SyncmerIterator.NextUniqueSyncmer: requires a non-zero window unless the step reaches the end, because incrementing after a window of 0 pops an empty deque.
- TakeExactly.Iterator.Decrement: requires a position above 0, and `AddAssign`/`SubtractAssign` require the result to stay inside the range; stepping outside is undefined behaviour.
- Concatenated.ConcatenatedSequences.LastPushBack: requires a non-empty container. The source has no guard, and on an empty container it leaves a state that is not well formed (`LastAppendOnEmptyBreaksRepresentation`). The model keeps the representation invariant and does not model that state.
- Concatenated.ConcatenatedSequences.LastAppend: requires a non-empty container, for the same reason as `LastPushBack`. On an empty container with a non-empty `value`, the source leaves size 0, a buffer holding `value` and a first delimiter of `|value|`.
- TakeExactly.Iterator.EqualsIterator: the model keeps the iterator's position equal to the underlying iterator's, so comparing underlying iterators is comparing positions.
- TakeExactly.TakeExactlyView.Begin: requires a range that is not both sized and random-access. For such a range `begin()` and `end()` are the underlying iterator and that iterator plus the target (take_exactly_view.hpp:141-147, 176-181), which happens for a `View` result over a range that is not borrowed. The model has no separate iterator type for it; because the target was checked or clamped against the size, that pair spans the same first `target` elements that `TakeExactlyContents` states for every result.
- The trace matrix's `data` is filled with default traces, as the constructor's code does; only `cache_left` receives `initial_value`.
- The gap scheme's `score` is an abstract function of the gap length.
- `persist_view`, the interleaved Bloom filter, counting agents, minimiser views, the benchmarks, the concept and literal tests, `complement` and the configuration headers have no behaviour of their own here, or their implementation is not part of this model.

## Findings

Each corrected member below is what the `Intended` variant of the BAM codec uses.

| source | as written | input that shows it | evidently intended | confidence | as-written member | corrected member |
|---|---|---|---|---|---|---|
| include/seqan3/io/sam_file/format_bam.hpp:1140-1182 | the integer tag type is chosen from `\|v\|`, so negative values in -255..-129 get `c` and in -65535..-32769 get `s`, and are truncated | the tag value -200 is written as `c` with byte 56 and reads back as 56 | `c` only for -128..-1 and `s` only for -32768..-129 | high; not executed | BamTags.IntEntryTruncatedAsWritten | BamTags.IntTagRoundTrip |
| include/seqan3/io/sam_file/format_bam.hpp:479-511 | the reader treats every CIGAR whose front soft clip equals `l_seq` as the `CG` placeholder | a five-base read with CIGAR `5S` and no `CG` tag is written fine and then rejected with `format_error` on reading | act only on the two-element placeholder `<l_seq>S<m>N` | high; not executed | BamRecord.SoftClipOnlyRecordRejectedAsWritten | BamRecord.LongCigarRoundTrip |
| include/seqan3/io/sam_file/format_bam.hpp:486 | the `l_seq != 0` guard skips the CG step for a read without sequence | a record with 65536 CIGAR elements and an empty sequence reads back with the placeholder CIGAR and the `CG` tag | restore from `CG` whenever the placeholder is present | medium; not executed | BamRecord.LongCigarWithoutSequenceKeptAsWritten | BamRecord.LongCigarRoundTrip |
| include/seqan3/io/sam_file/format_bam.hpp:647 | `std::min<uint8_t>` casts the id length to 8 bits before the comparison | an id of 256 letters gets `l_read_name` 2 (and of 300 letters 45), so the name is cut to one letter or to 44 | `min(length, 254) + 1` | high; not executed | BamCore.ReadNameSizeWraps | BamCore.ReadNameSize |
| include/seqan3/io/sam_file/format_bam.hpp:1029-1043 | `std::from_chars` accepts a partial parse, so only the first character of a hex pair must be a digit | the `H` value `1G` reads as the byte 1 | both characters of each pair must be hex digits | medium; not executed | BamTags.HexPairAcceptsBadSecondDigit | BamTags.HexPairStrict |
| include/seqan3/io/sam_file/format_bam.hpp:655 | `reg2bin(ref_offset.value_or(-1), ref_length)` passes the aligned length where the region's end belongs | 50 aligned bases at position 100000 get bin 585; their region `[100000, 100050)` lies in bin 4687 | `reg2bin(pos, pos + ref_length)`, the bin of the aligned region (section 4.2.1 of SAMv1) | high; not executed | BamCore.RecordBinMisplaced | BamCore.RecordBinHoldsRegion |
