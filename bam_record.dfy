/**
 * One BAM alignment record as `write_alignment_record` lays it out and
 * `read_alignment_record` takes it apart (section 4.2 of SAMv1): after the
 * fixed 36-byte core come the read name, the binary CIGAR, the packed
 * sequence, the qualities and the optional tags; `block_size` counts every
 * byte after its own four. A CIGAR of 65536 or more operations does not fit
 * the 16-bit `n_cigar_op` field: it moves, as text, into the `CG` tag and the
 * record carries the two-element placeholder `<l_seq>S<ref_len>N` instead
 * (section 4.2.2 of SAMv1).
 *
 * The CIGAR text codec (`get_cigar_string` / `parse_cigar`) is not part of
 * this model: both directions are parameters.
 */
module BamRecord {
  import opened Wrappers
  import opened BamBytes
  import C = BamCore
  import T = BamTags

  /** The tag id of `CG`: `'C' * 256 + 'G'`. */
  const CgTag: T.Tag := 17223

  /** The first CIGAR length that no longer fits `n_cigar_op`. */
  const LongCigar: nat := 65536

  datatype Error =
    | FormatError             // `format_error`
    | InvalidCigarOperation   // a CIGAR word whose low four bits name no operation
    | Malformed               // the core's lengths do not fit the record, or a tag runs past its end
    | BadVariantAccess        // the `CG` tag holds something other than a string

  // ---------------------------------------------------------------------------
  // Reference length and front soft clip of a CIGAR
  // ---------------------------------------------------------------------------

  /** Operations that consume the reference: `M`, `D`, `N`, `=` and `X`. */
  predicate ConsumesReference(op: C.CigarOp)
  {
    op.Match? || op.Deletion? || op.Skip? || op.SeqMatch? || op.Mismatch?
  }

  /**
   * The reference length the writer accumulates over the CIGAR (the
   * `update_alignment_lengths` helper is not part of this model; this is the
   * length SAMv1 defines: the counts of the reference-consuming operations).
   */
  function RefLength(cigar: seq<C.Cigar>): nat
  {
    if |cigar| == 0 then 0
    else (if ConsumesReference(cigar[0].op) then cigar[0].count else 0) + RefLength(cigar[1..])
  }

  /**
   * The number of bases soft-clipped at the front: the count of a leading `S`,
   * or of an `S` right after a leading `H` (the `soft_clipping_at_front`
   * helper is not part of this model; this is its documented meaning).
   */
  function SoftClipAtFront(cigar: seq<C.Cigar>): nat
  {
    if |cigar| >= 1 && cigar[0].op.SoftClip? then cigar[0].count
    else if |cigar| >= 2 && cigar[0].op.HardClip? && cigar[1].op.SoftClip? then cigar[1].count
    else 0
  }

  // ---------------------------------------------------------------------------
  // The CG convention
  // ---------------------------------------------------------------------------

  /** The placeholder written for a long CIGAR: `l_seq` soft-clipped bases, then a skip over the reference length. */
  function Placeholder(lSeq: nat, refLength: nat): seq<C.Cigar>
  {
    [C.Cigar(lSeq, C.SoftClip), C.Cigar(refLength, C.Skip)]
  }

  /**
   * The writer's CG step: a CIGAR of 65536 or more operations is stored as
   * text under `CG` and replaced by the placeholder; a shorter one is kept.
   */
  function MoveLongCigar(cigar: seq<C.Cigar>, lSeq: nat, tags: T.Dict, toText: seq<C.Cigar> -> seq<byte>)
    : (r: (seq<C.Cigar>, T.Dict))
    ensures |r.0| < LongCigar
    ensures forall t :: t != CgTag ==> (t in r.1 <==> t in tags)
    ensures forall t :: t != CgTag && t in tags ==> r.1[t] == tags[t]
    ensures |cigar| < LongCigar ==> r == (cigar, tags)
  {
    if |cigar| >= LongCigar then
      (Placeholder(lSeq, RefLength(cigar)), tags[CgTag := T.Str(toText(cigar))])
    else (cigar, tags)
  }

  /**
   * The reader's CG step as written: when `l_seq` is not 0 and the front soft
   * clip equals `l_seq`, the CIGAR is taken from `CG` and the tag erased; a
   * missing `CG` is a format error and a `CG` that is no string a bad variant
   * access.
   */
  function RestoreLongCigarAsWritten(cigar: seq<C.Cigar>, lSeq: nat, tags: T.Dict, fromText: seq<byte> -> seq<C.Cigar>)
    : (r: Result<(seq<C.Cigar>, T.Dict), Error>)
    ensures !(lSeq != 0 && SoftClipAtFront(cigar) == lSeq) ==> r == Success((cigar, tags))
    ensures r.Failure? <==> lSeq != 0 && SoftClipAtFront(cigar) == lSeq && (CgTag !in tags || !tags[CgTag].Str?)
    ensures r.Success? ==> CgTag !in r.value.1 || r.value == (cigar, tags)
  {
    if lSeq != 0 && SoftClipAtFront(cigar) == lSeq then
      if CgTag !in tags then Failure(FormatError)
      else match tags[CgTag]
        case Str(text) => Success((fromText(text), tags - {CgTag}))
        case _ => Failure(BadVariantAccess)
    else Success((cigar, tags))
  }

  /** The placeholder shape the CG convention is defined by: exactly `<l_seq>S<m>N`. */
  predicate IsPlaceholder(cigar: seq<C.Cigar>, lSeq: nat)
  {
    |cigar| == 2 && cigar[0] == C.Cigar(lSeq, C.SoftClip) && cigar[1].op.Skip?
  }

  /**
   * The reader's CG step as intended: only the exact placeholder shape sends
   * the reader to `CG`; the errors are as in the source.
   */
  function RestoreLongCigar(cigar: seq<C.Cigar>, lSeq: nat, tags: T.Dict, fromText: seq<byte> -> seq<C.Cigar>)
    : (r: Result<(seq<C.Cigar>, T.Dict), Error>)
    ensures !IsPlaceholder(cigar, lSeq) ==> r == Success((cigar, tags))
    ensures r.Failure? <==> IsPlaceholder(cigar, lSeq) && (CgTag !in tags || !tags[CgTag].Str?)
    ensures r.Success? && IsPlaceholder(cigar, lSeq) ==> CgTag !in r.value.1 && r.value.0 == fromText(tags[CgTag].s)
  {
    if IsPlaceholder(cigar, lSeq) then
      if CgTag !in tags then Failure(FormatError)
      else match tags[CgTag]
        case Str(text) => Success((fromText(text), tags - {CgTag}))
        case _ => Failure(BadVariantAccess)
    else Success((cigar, tags))
  }

  /** Erasing a tag that was just stored gives back a dictionary that did not have it. */
  lemma EraseStored(tags: T.Dict, v: T.TagValue)
    requires CgTag !in tags
    ensures tags[CgTag := v] - {CgTag} == tags
  {
    var r := tags[CgTag := v] - {CgTag};
    assert forall t :: t in r <==> t in tags;
  }

  /**
   * With the intended reader step the CG convention round-trips: whatever the
   * CIGAR, the writer's step followed by the reader's step gives back the
   * CIGAR and the tags, provided the text codec round-trips, the tags held no
   * `CG` of their own and a short CIGAR is not itself of the placeholder shape.
   */
  lemma {:induction false} LongCigarRoundTrip(cigar: seq<C.Cigar>, lSeq: nat, tags: T.Dict,
                                              toText: seq<C.Cigar> -> seq<byte>, fromText: seq<byte> -> seq<C.Cigar>)
    requires CgTag !in tags
    requires fromText(toText(cigar)) == cigar
    requires |cigar| < LongCigar ==> !IsPlaceholder(cigar, lSeq)
    ensures var (written, stored) := MoveLongCigar(cigar, lSeq, tags, toText);
            RestoreLongCigar(written, lSeq, stored, fromText) == Success((cigar, tags))
  {
    if |cigar| >= LongCigar {
      EraseStored(tags, T.Str(toText(cigar)));
    }
  }

  /**
   * As written, a CIGAR that merely starts with `l_seq` soft-clipped bases is
   * taken for the placeholder: a five-base read with CIGAR `5S` and no `CG`
   * is written unchanged but rejected on reading.
   */
  lemma SoftClipOnlyRejectedAsWritten(toText: seq<C.Cigar> -> seq<byte>, fromText: seq<byte> -> seq<C.Cigar>)
    ensures MoveLongCigar([C.Cigar(5, C.SoftClip)], 5, map[], toText) == ([C.Cigar(5, C.SoftClip)], map[])
    ensures RestoreLongCigarAsWritten([C.Cigar(5, C.SoftClip)], 5, map[], fromText) == Failure(FormatError)
    ensures RestoreLongCigar([C.Cigar(5, C.SoftClip)], 5, map[], fromText) == Success(([C.Cigar(5, C.SoftClip)], map[]))
  {
  }

  /**
   * As written, a long CIGAR of a read without sequence (`l_seq` 0) is not
   * restored: the reader returns the placeholder and keeps the `CG` tag.
   */
  lemma LongCigarWithoutSequenceKeptAsWritten(cigar: seq<C.Cigar>, tags: T.Dict,
                                               toText: seq<C.Cigar> -> seq<byte>, fromText: seq<byte> -> seq<C.Cigar>)
    requires |cigar| >= LongCigar
    ensures var (written, stored) := MoveLongCigar(cigar, 0, tags, toText);
            RestoreLongCigarAsWritten(written, 0, stored, fromText) == Success((written, stored))
            && written != cigar && CgTag in stored
  {
  }

  /** The two reader steps agree on every CIGAR of the placeholder shape with a sequence. */
  lemma RestoreAgreesOnPlaceholder(cigar: seq<C.Cigar>, lSeq: nat, tags: T.Dict, fromText: seq<byte> -> seq<C.Cigar>)
    requires lSeq != 0 && IsPlaceholder(cigar, lSeq)
    ensures RestoreLongCigarAsWritten(cigar, lSeq, tags, fromText) == RestoreLongCigar(cigar, lSeq, tags, fromText)
  {
  }

  /**
   * With the reader step as written the CG convention round-trips when the
   * read has a sequence whenever its CIGAR is long, and a short CIGAR does not
   * soft-clip exactly `l_seq` bases at its front.
   */
  lemma LongCigarRoundTripAsWritten(cigar: seq<C.Cigar>, lSeq: nat, tags: T.Dict,
                                    toText: seq<C.Cigar> -> seq<byte>, fromText: seq<byte> -> seq<C.Cigar>)
    requires CgTag !in tags
    requires fromText(toText(cigar)) == cigar
    requires |cigar| < LongCigar ==> !(lSeq != 0 && SoftClipAtFront(cigar) == lSeq)
    requires |cigar| >= LongCigar ==> lSeq != 0
    ensures var (written, stored) := MoveLongCigar(cigar, lSeq, tags, toText);
            RestoreLongCigarAsWritten(written, lSeq, stored, fromText) == Success((cigar, tags))
  {
    if |cigar| >= LongCigar {
      var (written, stored) := MoveLongCigar(cigar, lSeq, tags, toText);
      RestoreAgreesOnPlaceholder(written, lSeq, stored, fromText);
      LongCigarRoundTrip(cigar, lSeq, tags, toText, fromText);
    }
  }

  /** The reader's CG step in the given variant. */
  function RestoreLongCigarIn(variant: Variant, cigar: seq<C.Cigar>, lSeq: nat, tags: T.Dict, fromText: seq<byte> -> seq<C.Cigar>)
    : (r: Result<(seq<C.Cigar>, T.Dict), Error>)
    ensures lSeq != 0 && IsPlaceholder(cigar, lSeq) ==> r == RestoreLongCigar(cigar, lSeq, tags, fromText)
  {
    if variant.AsWritten? then RestoreLongCigarAsWritten(cigar, lSeq, tags, fromText)
    else RestoreLongCigar(cigar, lSeq, tags, fromText)
  }

  /** The CIGARs whose CG step the variant's reader undoes. */
  predicate CigarSurvives(variant: Variant, cigar: seq<C.Cigar>, lSeq: nat)
  {
    if variant.AsWritten? then
      (|cigar| < LongCigar ==> !(lSeq != 0 && SoftClipAtFront(cigar) == lSeq)) && (|cigar| >= LongCigar ==> lSeq != 0)
    else
      |cigar| < LongCigar ==> !IsPlaceholder(cigar, lSeq)
  }

  /** The CG convention round-trips in either variant for the CIGARs that variant's reader undoes. */
  lemma LongCigarRoundTripIn(variant: Variant, cigar: seq<C.Cigar>, lSeq: nat, tags: T.Dict,
                             toText: seq<C.Cigar> -> seq<byte>, fromText: seq<byte> -> seq<C.Cigar>)
    requires CgTag !in tags
    requires fromText(toText(cigar)) == cigar
    requires CigarSurvives(variant, cigar, lSeq)
    ensures var (written, stored) := MoveLongCigar(cigar, lSeq, tags, toText);
            RestoreLongCigarIn(variant, written, lSeq, stored, fromText) == Success((cigar, tags))
  {
    if variant.AsWritten? {
      LongCigarRoundTripAsWritten(cigar, lSeq, tags, toText, fromText);
    } else {
      LongCigarRoundTrip(cigar, lSeq, tags, toText, fromText);
    }
  }

  // ---------------------------------------------------------------------------
  // Record layout
  // ---------------------------------------------------------------------------

  /** The fields of a record the model carries through a write and a read. */
  datatype Record = Record(id: seq<byte>, cigar: seq<C.Cigar>, sequence: seq<C.Rank16>, qual: seq<byte>, tags: T.Dict)

  /** The length fields of the core. */
  datatype Layout = Layout(blockSize: nat, lReadName: nat, nCigarOp: nat, lSeq: nat)

  /**
   * `block_size`: the core without its own `block_size` field (32 bytes), the
   * name with its zero, four bytes per CIGAR element, the packed sequence,
   * one quality byte per base and the tag bytes.
   */
  function BlockSize(lReadName: nat, nCigarOp: nat, lSeq: nat, tagBytes: nat): (size: nat)
    ensures size == 32 + QualEnd(Layout(0, lReadName, nCigarOp, lSeq)) + tagBytes
  {
    32 + lReadName + 4 * nCigarOp + (lSeq + 1) / 2 + lSeq + tagBytes
  }

  /**
   * The writer: the CG step, the quality check, then name, CIGAR, sequence,
   * quality and tags one after another. The result is the core's length
   * fields and the bytes after the core.
   */
  function EncodeRecord(variant: Variant, r: Record, toText: seq<C.Cigar> -> seq<byte>): (res: Result<(Layout, seq<byte>), Error>)
    requires T.WritableDict(r.tags)
    ensures res.Failure? <==> |r.qual| != 0 && |r.qual| != |r.sequence|
    ensures res.Success? ==> res.value.0.blockSize == 32 + |res.value.1|
    ensures res.Success? ==> res.value.0.nCigarOp < LongCigar && 2 <= res.value.0.lReadName < 256
  {
    var (cigar, tags) := MoveLongCigar(r.cigar, |r.sequence|, r.tags, toText);
    match C.QualBytes(r.qual, |r.sequence|)
    case Failure(_) => Failure(FormatError)
    case Success(qualBytes) =>
      var lReadName := C.ReadNameSizeIn(variant, |r.id|);
      assert T.WritableDict(tags);
      var tagBytes := T.EncodeDict(variant, tags);
      var body := C.NameBytes(r.id, lReadName) + C.EncodeCigar(cigar) + C.Pack(r.sequence) + qualBytes + tagBytes;
      Success((Layout(BlockSize(lReadName, |cigar|, |r.sequence|, |tagBytes|), lReadName, |cigar|, |r.sequence|), body))
  }

  /** The reader's quality: one character `byte + 33` per byte. */
  function QualChars(bs: seq<byte>): (q: seq<byte>)
    ensures |q| == |bs| && forall i :: 0 <= i < |bs| ==> q[i] == C.QualChar(bs[i])
  {
    seq(|bs|, i requires 0 <= i < |bs| => C.QualChar(bs[i]))
  }

  /** Where each field of the record body ends, from the core's length fields. */
  function NameEnd(layout: Layout): nat { layout.lReadName }
  function CigarEnd(layout: Layout): nat { NameEnd(layout) + 4 * layout.nCigarOp }
  function SeqEnd(layout: Layout): nat { CigarEnd(layout) + (layout.lSeq + 1) / 2 }
  function QualEnd(layout: Layout): nat { SeqEnd(layout) + layout.lSeq }

  /**
   * The reader: the name is the first `l_read_name - 1` bytes; CIGAR,
   * sequence and quality follow at the offsets the core's lengths give; the
   * tags take the rest. The CG step comes last. Lengths that do not fit the
   * body are reported as malformed.
   */
  function DecodeRecord(variant: Variant, layout: Layout, body: seq<byte>, fromText: seq<byte> -> seq<C.Cigar>): (res: Result<Record, Error>)
    ensures res.Success? ==> QualEnd(layout) <= |body|
    ensures res.Success? ==> |res.value.sequence| == layout.lSeq && |res.value.qual| == layout.lSeq
    ensures res.Success? && layout.lReadName == 0 ==> res.value.id == body
    ensures CigarEnd(layout) <= |body| && C.ParseCigar(body[NameEnd(layout)..CigarEnd(layout)]).Failure?
            ==> res == Failure(InvalidCigarOperation)
  {
    if CigarEnd(layout) > |body| then Failure(Malformed)
    else
      match C.ParseCigar(body[NameEnd(layout)..CigarEnd(layout)])
      case Failure(_) => Failure(InvalidCigarOperation)
      case Success(cigar) =>
        if QualEnd(layout) > |body| then Failure(Malformed)
        else match T.ParseDict(variant, body[QualEnd(layout)..], map[])
        case Failure(e) => Failure(if e.FormatError? then FormatError else Malformed)
        case Success(tags) =>
          match RestoreLongCigarIn(variant, cigar, layout.lSeq, tags, fromText)
          case Failure(e) => Failure(e)
          case Success((restored, rest)) =>
            Success(Record(C.ReadName(body, layout.lReadName),
                           restored,
                           C.Unpack(body[CigarEnd(layout)..SeqEnd(layout)], layout.lSeq),
                           QualChars(body[SeqEnd(layout)..QualEnd(layout)]),
                           rest))
  }

  /** The five fields of a body laid end to end are recovered by slicing at their ends. */
  lemma BodySlices(name: seq<byte>, cigar: seq<byte>, sequence: seq<byte>, qual: seq<byte>, tags: seq<byte>)
    ensures var body := name + cigar + sequence + qual + tags;
            var a, b, c, d := |name|, |name| + |cigar|, |name| + |cigar| + |sequence|, |name| + |cigar| + |sequence| + |qual|;
            body[..a] == name && body[a..b] == cigar && body[b..c] == sequence && body[c..d] == qual && body[d..] == tags
  {
  }

  /** What a record reads back as: `*` for an empty name, and the qualities as Phred+33 characters (or spaces when absent). */
  function ExpectedRead(r: Record): Record
    requires |r.qual| == 0 || |r.qual| == |r.sequence|
  {
    var qualBytes := if |r.qual| == 0 then seq(|r.sequence|, _ => 255) else r.qual;
    Record(if |r.id| == 0 then [C.Star] else r.id, r.cigar, r.sequence, QualChars(qualBytes), r.tags)
  }

  /** Every CIGAR count the writer emits fits in 28 bits. */
  predicate CountsFit(cigar: seq<C.Cigar>)
  {
    forall i :: 0 <= i < |cigar| ==> cigar[i].count < 268435456
  }

  /** The reader on a body whose CIGAR and tag slices parse and whose CG step succeeds. */
  lemma DecodeParsed(variant: Variant, layout: Layout, body: seq<byte>, fromText: seq<byte> -> seq<C.Cigar>,
                     cigarBytes: seq<byte>, cigar: seq<C.Cigar>, tagBytes: seq<byte>, tags: T.Dict)
    requires 1 <= layout.lReadName && QualEnd(layout) <= |body|
    requires body[NameEnd(layout)..CigarEnd(layout)] == cigarBytes && C.ParseCigar(cigarBytes) == Success(cigar)
    requires body[QualEnd(layout)..] == tagBytes && T.ParseDict(variant, tagBytes, map[]) == Success(tags)
    requires RestoreLongCigarIn(variant, cigar, layout.lSeq, tags, fromText).Success?
    ensures var restored := RestoreLongCigarIn(variant, cigar, layout.lSeq, tags, fromText).value;
            DecodeRecord(variant, layout, body, fromText)
            == Success(Record(C.ReadName(body, layout.lReadName), restored.0, C.Unpack(body[CigarEnd(layout)..SeqEnd(layout)], layout.lSeq),
                              QualChars(body[SeqEnd(layout)..QualEnd(layout)]), restored.1))
  {
  }

  /** The field ends the core's lengths give are the ends of the fields laid out by the writer. */
  lemma LaidOut(layout: Layout, name: seq<byte>, cigarBytes: seq<byte>, seqBytes: seq<byte>, qualBytes: seq<byte>, tagBytes: seq<byte>)
    requires layout.lReadName == |name| >= 1 && 4 * layout.nCigarOp == |cigarBytes|
    requires (layout.lSeq + 1) / 2 == |seqBytes| && layout.lSeq == |qualBytes|
    ensures var body := name + cigarBytes + seqBytes + qualBytes + tagBytes;
            QualEnd(layout) <= |body| &&
            C.ReadName(body, layout.lReadName) == name[..|name| - 1] &&
            body[NameEnd(layout)..CigarEnd(layout)] == cigarBytes &&
            body[CigarEnd(layout)..SeqEnd(layout)] == seqBytes &&
            body[SeqEnd(layout)..QualEnd(layout)] == qualBytes &&
            body[QualEnd(layout)..] == tagBytes
  {
    BodySlices(name, cigarBytes, seqBytes, qualBytes, tagBytes);
    var body := name + cigarBytes + seqBytes + qualBytes + tagBytes;
    assert body[..|name|] == name;
  }

  /** The written name without its zero is the id, or `*` for an empty id, for ids of at most 254 letters. */
  lemma NameWithoutNul(id: seq<byte>)
    requires |id| <= 254
    ensures var name := C.NameBytes(id, C.ReadNameSize(|id|));
            |name| == C.ReadNameSize(|id|) && name[..|name| - 1] == (if |id| == 0 then [C.Star] else id)
  {
  }

  /** The CIGAR the CG step leaves in the record parses back, its counts being within 28 bits, when the record's counts, sequence length and reference length are. */
  lemma MovedCigarRoundTrip(cigar: seq<C.Cigar>, lSeq: nat, tags: T.Dict, toText: seq<C.Cigar> -> seq<byte>)
    requires CountsFit(cigar) && lSeq < 268435456 && RefLength(cigar) < 268435456
    ensures var written := MoveLongCigar(cigar, lSeq, tags, toText).0;
            C.ParseCigar(C.EncodeCigar(written)) == Success(written)
  {
    var written := MoveLongCigar(cigar, lSeq, tags, toText).0;
    assert CountsFit(written);
    C.CigarRoundTrip(written);
  }

  /** The writer's layout of a record: each field sits where the core's lengths say it does. */
  lemma WrittenLayout(r: Record, cigar: seq<C.Cigar>, qualBytes: seq<byte>, tagBytes: seq<byte>)
    requires |r.id| <= 254 && |qualBytes| == |r.sequence|
    ensures var lReadName := C.ReadNameSize(|r.id|);
            var layout := Layout(BlockSize(lReadName, |cigar|, |r.sequence|, |tagBytes|), lReadName, |cigar|, |r.sequence|);
            var body := C.NameBytes(r.id, lReadName) + C.EncodeCigar(cigar) + C.Pack(r.sequence) + qualBytes + tagBytes;
            1 <= layout.lReadName && QualEnd(layout) <= |body| &&
            C.ReadName(body, layout.lReadName) == (if |r.id| == 0 then [C.Star] else r.id) &&
            body[NameEnd(layout)..CigarEnd(layout)] == C.EncodeCigar(cigar) &&
            body[CigarEnd(layout)..SeqEnd(layout)] == C.Pack(r.sequence) &&
            body[SeqEnd(layout)..QualEnd(layout)] == qualBytes &&
            body[QualEnd(layout)..] == tagBytes
  {
    var lReadName := C.ReadNameSize(|r.id|);
    var nameBytes := C.NameBytes(r.id, lReadName);
    var layout := Layout(BlockSize(lReadName, |cigar|, |r.sequence|, |tagBytes|), lReadName, |cigar|, |r.sequence|);
    NameWithoutNul(r.id);
    assert layout.lReadName == |nameBytes| >= 1;
    assert 4 * layout.nCigarOp == |C.EncodeCigar(cigar)|;
    assert (layout.lSeq + 1) / 2 == |C.Pack(r.sequence)|;
    LaidOut(layout, nameBytes, C.EncodeCigar(cigar), C.Pack(r.sequence), qualBytes, tagBytes);
  }

  /** Reading a body whose fields hold the written bytes of a record whose CIGAR and tags parse back and whose CG step undoes. */
  lemma DecodeWritten(variant: Variant, layout: Layout, body: seq<byte>, r: Record, cigar: seq<C.Cigar>, tags: T.Dict, qualBytes: seq<byte>,
                      fromText: seq<byte> -> seq<C.Cigar>)
    requires 1 <= layout.lReadName && QualEnd(layout) <= |body| && layout.lSeq == |r.sequence|
    requires C.ReadName(body, layout.lReadName) == (if |r.id| == 0 then [C.Star] else r.id)
    requires body[NameEnd(layout)..CigarEnd(layout)] == C.EncodeCigar(cigar) && C.ParseCigar(C.EncodeCigar(cigar)) == Success(cigar)
    requires body[CigarEnd(layout)..SeqEnd(layout)] == C.Pack(r.sequence)
    requires body[SeqEnd(layout)..QualEnd(layout)] == qualBytes
    requires T.WritableDict(tags) && body[QualEnd(layout)..] == T.EncodeDict(variant, tags)
    requires T.ParseDict(variant, T.EncodeDict(variant, tags), map[]) == Success(tags)
    requires RestoreLongCigarIn(variant, cigar, |r.sequence|, tags, fromText) == Success((r.cigar, r.tags))
    ensures DecodeRecord(variant, layout, body, fromText)
            == Success(Record(if |r.id| == 0 then [C.Star] else r.id, r.cigar, r.sequence, QualChars(qualBytes), r.tags))
  {
    DecodeParsed(variant, layout, body, fromText, C.EncodeCigar(cigar), cigar, T.EncodeDict(variant, tags), tags);
    C.PackRoundTrip(r.sequence);
  }

  /**
   * The record round trip: reading what the writer produced gives back the
   * record, for names of at most 254 letters, tags that survive on their own
   * and hold no `CG`, counts, sequence length and reference length below
   * `2^28`, a CIGAR text codec that round-trips without zero bytes, and a
   * CIGAR whose CG step the variant's reader undoes. As written, that means
   * no integer tag in the truncated ranges, a sequence under every long
   * CIGAR, and no short CIGAR soft-clipping exactly `l_seq` bases at its front.
   */
  lemma RecordRoundTrip(variant: Variant, r: Record, toText: seq<C.Cigar> -> seq<byte>, fromText: seq<byte> -> seq<C.Cigar>)
    requires |r.id| <= 254
    requires |r.qual| == 0 || |r.qual| == |r.sequence|
    requires T.RoundTripDict(variant, r.tags) && CgTag !in r.tags
    requires CountsFit(r.cigar) && |r.sequence| < 268435456 && RefLength(r.cigar) < 268435456
    requires fromText(toText(r.cigar)) == r.cigar
    requires forall k :: 0 <= k < |toText(r.cigar)| ==> toText(r.cigar)[k] != 0
    requires CigarSurvives(variant, r.cigar, |r.sequence|)
    ensures T.WritableDict(r.tags) && EncodeRecord(variant, r, toText).Success?
    ensures var (layout, body) := EncodeRecord(variant, r, toText).value;
            DecodeRecord(variant, layout, body, fromText) == Success(ExpectedRead(r))
  {
    var lSeq := |r.sequence|;
    var (cigar, tags) := MoveLongCigar(r.cigar, lSeq, r.tags, toText);
    MovedPartsRoundTrip(variant, r, toText, fromText);
    var qualBytes := C.QualBytes(r.qual, lSeq).value;
    var lReadName := C.ReadNameSizeIn(variant, |r.id|);
    assert lReadName == C.ReadNameSize(|r.id|);
    var tagBytes := T.EncodeDict(variant, tags);
    var layout := Layout(BlockSize(lReadName, |cigar|, lSeq, |tagBytes|), lReadName, |cigar|, lSeq);
    var body := C.NameBytes(r.id, lReadName) + C.EncodeCigar(cigar) + C.Pack(r.sequence) + qualBytes + tagBytes;
    assert EncodeRecord(variant, r, toText) == Success((layout, body));
    WrittenRecordDecodes(variant, r, cigar, tags, qualBytes, fromText);
  }

  /** What the CG step leaves of a record's CIGAR and tags is written so that both parse back and the reader's CG step restores the originals. */
  lemma MovedPartsRoundTrip(variant: Variant, r: Record, toText: seq<C.Cigar> -> seq<byte>, fromText: seq<byte> -> seq<C.Cigar>)
    requires T.RoundTripDict(variant, r.tags) && CgTag !in r.tags
    requires CountsFit(r.cigar) && |r.sequence| < 268435456 && RefLength(r.cigar) < 268435456
    requires fromText(toText(r.cigar)) == r.cigar
    requires forall k :: 0 <= k < |toText(r.cigar)| ==> toText(r.cigar)[k] != 0
    requires CigarSurvives(variant, r.cigar, |r.sequence|)
    ensures var (cigar, tags) := MoveLongCigar(r.cigar, |r.sequence|, r.tags, toText);
            T.WritableDict(tags) && T.ParseDict(variant, T.EncodeDict(variant, tags), map[]) == Success(tags) &&
            C.ParseCigar(C.EncodeCigar(cigar)) == Success(cigar) &&
            RestoreLongCigarIn(variant, cigar, |r.sequence|, tags, fromText) == Success((r.cigar, r.tags))
  {
    var lSeq := |r.sequence|;
    var (cigar, tags) := MoveLongCigar(r.cigar, lSeq, r.tags, toText);
    assert T.RoundTripDict(variant, tags) by {
      if |r.cigar| >= LongCigar {
        assert T.RoundTrips(variant, CgTag, T.Str(toText(r.cigar)));
      }
    }
    T.DictRoundTrip(variant, tags);
    MovedCigarRoundTrip(r.cigar, lSeq, r.tags, toText);
    LongCigarRoundTripIn(variant, r.cigar, lSeq, r.tags, toText, fromText);
  }

  /** The bytes the writer lays out for a record read back as the record, once its CIGAR and tags parse back and its CG step undoes. */
  lemma WrittenRecordDecodes(variant: Variant, r: Record, cigar: seq<C.Cigar>, tags: T.Dict, qualBytes: seq<byte>,
                             fromText: seq<byte> -> seq<C.Cigar>)
    requires |r.id| <= 254 && |qualBytes| == |r.sequence|
    requires C.ParseCigar(C.EncodeCigar(cigar)) == Success(cigar)
    requires T.WritableDict(tags) && T.ParseDict(variant, T.EncodeDict(variant, tags), map[]) == Success(tags)
    requires RestoreLongCigarIn(variant, cigar, |r.sequence|, tags, fromText) == Success((r.cigar, r.tags))
    ensures var lReadName := C.ReadNameSize(|r.id|);
            var tagBytes := T.EncodeDict(variant, tags);
            var layout := Layout(BlockSize(lReadName, |cigar|, |r.sequence|, |tagBytes|), lReadName, |cigar|, |r.sequence|);
            var body := C.NameBytes(r.id, lReadName) + C.EncodeCigar(cigar) + C.Pack(r.sequence) + qualBytes + tagBytes;
            DecodeRecord(variant, layout, body, fromText)
            == Success(Record(if |r.id| == 0 then [C.Star] else r.id, r.cigar, r.sequence, QualChars(qualBytes), r.tags))
  {
    var lReadName := C.ReadNameSize(|r.id|);
    var tagBytes := T.EncodeDict(variant, tags);
    var layout := Layout(BlockSize(lReadName, |cigar|, |r.sequence|, |tagBytes|), lReadName, |cigar|, |r.sequence|);
    var body := C.NameBytes(r.id, lReadName) + C.EncodeCigar(cigar) + C.Pack(r.sequence) + qualBytes + tagBytes;
    WrittenLayout(r, cigar, qualBytes, tagBytes);
    DecodeWritten(variant, layout, body, r, cigar, tags, qualBytes, fromText);
  }

  /**
   * As written, a five-base read with CIGAR `5S`, no quality and no tags is
   * written but its record is rejected on reading: the reader takes the CIGAR
   * for the long-CIGAR placeholder and finds no `CG` tag.
   */
  lemma SoftClipOnlyRecordRejectedAsWritten(toText: seq<C.Cigar> -> seq<byte>, fromText: seq<byte> -> seq<C.Cigar>)
    ensures var r := Record([65], [C.Cigar(5, C.SoftClip)], [1, 1, 1, 1, 1], [], map[]);
            EncodeRecord(AsWritten, r, toText).Success? &&
            DecodeRecord(AsWritten, EncodeRecord(AsWritten, r, toText).value.0, EncodeRecord(AsWritten, r, toText).value.1, fromText)
            == Failure(FormatError)
  {
    var r := Record([65], [C.Cigar(5, C.SoftClip)], [1, 1, 1, 1, 1], [], map[]);
    var cigar := r.cigar;
    var qualBytes := C.QualBytes(r.qual, 5).value;
    var (layout, body) := EncodeRecord(AsWritten, r, toText).value;
    assert layout == Layout(BlockSize(2, 1, 5, 0), 2, 1, 5);
    assert body == C.NameBytes(r.id, 2) + C.EncodeCigar(cigar) + C.Pack(r.sequence) + qualBytes + [];
    WrittenLayout(r, cigar, qualBytes, []);
    C.CigarRoundTrip(cigar);
    assert T.ParseDict(AsWritten, body[QualEnd(layout)..], map[]) == Success(map[]);
    assert RestoreLongCigarIn(AsWritten, cigar, 5, map[], fromText) == Failure(FormatError);
  }
}
