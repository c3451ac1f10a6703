/**
 * Field codecs of a BAM alignment record (section 4.2 of the SAM/BAM Format
 * Specification, SAMv1): the bin of a region (section 5.3), the binary CIGAR,
 * the 4-bit packed sequence, the quality bytes, the read name and the
 * reference checks.
 */
module BamCore {
  import opened Wrappers
  import opened BamBytes

  datatype Error = FormatError | InvalidCigarOperation

  // ---------------------------------------------------------------------------
  // reg2bin
  // ---------------------------------------------------------------------------

  /** `x >> k` on a signed 32-bit value: an arithmetic shift, i.e. floor division by `2^k`. */
  function Shr(x: int, k: nat): int
    requires k in {14, 17, 20, 23, 26}
  {
    if k == 14 then x / 16384
    else if k == 17 then x / 131072
    else if k == 20 then x / 1048576
    else if k == 23 then x / 8388608
    else x / 67108864
  }

  /**
   * `reg2bin(beg, end)`: the bin of the region `[beg, end)`. Levels 5 down to 1
   * cover 2^14, 2^17, 2^20, 2^23 and 2^26 positions per bin and start at bin
   * numbers 4681, 585, 73, 9 and 1; the result is a 16-bit unsigned value.
   */
  function Reg2Bin(beg: int, end: int): (bin: nat)
    ensures bin < 65536
  {
    var last := end - 1;
    (if Shr(beg, 14) == Shr(last, 14) then 4681 + Shr(beg, 14)
     else if Shr(beg, 17) == Shr(last, 17) then 585 + Shr(beg, 17)
     else if Shr(beg, 20) == Shr(last, 20) then 73 + Shr(beg, 20)
     else if Shr(beg, 23) == Shr(last, 23) then 9 + Shr(beg, 23)
     else if Shr(beg, 26) == Shr(last, 26) then 1 + Shr(beg, 26)
     else 0) % 65536
  }

  /** Bits per bin at each level of the binning scheme, level 0 being the whole 2^29 range. */
  function LevelShift(level: nat): nat
    requires level <= 5
  {
    [29, 26, 23, 20, 17, 14][level]
  }

  /** The first bin number of each level: `((1 << 3*level) - 1) / 7`. */
  function LevelOffset(level: nat): nat
    requires level <= 5
  {
    [0, 1, 9, 73, 585, 4681][level]
  }

  /** `2^LevelShift(level)`. */
  function LevelWidth(level: nat): nat
    requires level <= 5
  {
    [536870912, 67108864, 8388608, 1048576, 131072, 16384][level]
  }

  /** A bin number below 2^16 is its own 16-bit value. */
  lemma BinInRange(offset: nat, index: int)
    requires 0 <= index < 32768 && offset <= 4681
    ensures (offset + index) % 65536 == offset + index
  {
  }

  /**
   * For a region inside `[0, 2^29)` the bin is the one at the deepest level
   * whose window holds both ends of the region: that window contains the
   * region and no finer window does. Its number lies in `0 .. 37448`.
   */
  lemma Reg2BinIsSmallestBin(beg: int, end: int) returns (level: nat)
    requires 0 <= beg < end <= 536870912
    ensures level <= 5
    ensures Reg2Bin(beg, end) == LevelOffset(level) + beg / LevelWidth(level)
    ensures beg / LevelWidth(level) == (end - 1) / LevelWidth(level)
    ensures forall finer :: level < finer <= 5 ==> beg / LevelWidth(finer) != (end - 1) / LevelWidth(finer)
    ensures Reg2Bin(beg, end) <= 37448
  {
    var last := end - 1;
    if beg / 16384 == last / 16384 {
      level := 5;
      BinInRange(4681, beg / 16384);
    } else if beg / 131072 == last / 131072 {
      level := 4;
      BinInRange(585, beg / 131072);
    } else if beg / 1048576 == last / 1048576 {
      level := 3;
      BinInRange(73, beg / 1048576);
    } else if beg / 8388608 == last / 8388608 {
      level := 2;
      BinInRange(9, beg / 8388608);
    } else if beg / 67108864 == last / 67108864 {
      level := 1;
      BinInRange(1, beg / 67108864);
    } else {
      level := 0;
      assert beg / 536870912 == 0 == last / 536870912;
    }
  }

  // ---------------------------------------------------------------------------
  // CIGAR
  // ---------------------------------------------------------------------------

  datatype CigarOp = Match | Insertion | Deletion | Skip | SoftClip | HardClip | Padding | SeqMatch | Mismatch

  /** One CIGAR element: a 32-bit count and an operation. */
  datatype Cigar = Cigar(count: nat, op: CigarOp)

  function OpChar(op: CigarOp): char
  {
    match op
    case Match => 'M'
    case Insertion => 'I'
    case Deletion => 'D'
    case Skip => 'N'
    case SoftClip => 'S'
    case HardClip => 'H'
    case Padding => 'P'
    case SeqMatch => '='
    case Mismatch => 'X'
  }

  /** `assign_char_strictly_to` for a CIGAR operation: only the nine operation letters are accepted. */
  function OpFromChar(c: char): (r: Option<CigarOp>)
    ensures r.Some? ==> OpChar(r.value) == c
    ensures (exists op :: OpChar(op) == c) ==> r.Some?
  {
    match c
    case 'M' => Some(Match)
    case 'I' => Some(Insertion)
    case 'D' => Some(Deletion)
    case 'N' => Some(Skip)
    case 'S' => Some(SoftClip)
    case 'H' => Some(HardClip)
    case 'P' => Some(Padding)
    case '=' => Some(SeqMatch)
    case 'X' => Some(Mismatch)
    case _ => None
  }

  /** `char_to_sam_rank`: the nine operation letters map to 0..8, every other character to 0. */
  function CharToSamRank(c: char): (rank: nat)
    ensures rank <= 8
  {
    match c
    case 'I' => 1
    case 'D' => 2
    case 'N' => 3
    case 'S' => 4
    case 'H' => 5
    case 'P' => 6
    case '=' => 7
    case 'X' => 8
    case _ => 0
  }

  /** The decoder's table from the low four bits back to operation letters. */
  const CigarOperationMapping: seq<char> := ['M', 'I', 'D', 'N', 'S', 'H', 'P', '=', 'X', '*', '*', '*', '*', '*', '*', '*']

  /** The two tables agree: each operation letter survives rank and back; any other letter becomes `M`. */
  lemma SamRankTablesAgree(c: char)
    ensures OpFromChar(c).Some? ==> CigarOperationMapping[CharToSamRank(c)] == c
    ensures OpFromChar(c).None? ==> CigarOperationMapping[CharToSamRank(c)] == 'M'
  {
  }

  const TwoTo32: nat := 4294967296

  /** The 32-bit word of one element: `count << 4 | rank` in unsigned 32-bit arithmetic. */
  function CigarWord(c: Cigar): (w: nat)
    ensures w < TwoTo32
  {
    (c.count * 16) % TwoTo32 + CharToSamRank(OpChar(c.op))
  }

  /** The little-endian bytes the writer emits for a CIGAR. */
  function EncodeCigar(cigar: seq<Cigar>): (bs: seq<byte>)
    ensures |bs| == 4 * |cigar| && |bs| % 4 == 0
  {
    if |cigar| == 0 then [] else EncodeCigar(cigar[..|cigar| - 1]) + EncodeLE(CigarWord(cigar[|cigar| - 1]), 4)
  }

  /** The writer's CIGAR loop: each element's word appended as four little-endian bytes. */
  method WriteCigar(cigar: seq<Cigar>) returns (out: seq<byte>)
    ensures out == EncodeCigar(cigar)
  {
    out := [];
    var i := 0;
    while i < |cigar|
      invariant i <= |cigar|
      invariant out == EncodeCigar(cigar[..i])
    {
      assert cigar[..i + 1][..i] == cigar[..i];
      out := out + EncodeLE(CigarWord(cigar[i]), 4);
      i := i + 1;
    }
    assert cigar[..|cigar|] == cigar;
  }

  /** Decoding one 32-bit word: operation from the low four bits, count from the rest. */
  function DecodeCigarWord(w: nat): (r: Result<Cigar, Error>)
    ensures r.Failure? <==> w % 16 > 8
    ensures r.Failure? ==> r.error == InvalidCigarOperation
    ensures r.Success? ==> r.value.count == w / 16 && CharToSamRank(OpChar(r.value.op)) == w % 16
  {
    match OpFromChar(CigarOperationMapping[w % 16])
    case Some(op) => Success(Cigar(w / 16, op))
    case None => Failure(InvalidCigarOperation)
  }

  /** `parse_binary_cigar` as a function of the byte string, four bytes per element. */
  function ParseCigar(bs: seq<byte>): (r: Result<seq<Cigar>, Error>)
    requires |bs| % 4 == 0
    ensures r.Success? ==> 4 * |r.value| == |bs|
  {
    if |bs| == 0 then Success([])
    else
      match ParseCigar(bs[..|bs| - 4])
      case Failure(e) => Failure(e)
      case Success(front) =>
        match DecodeCigarWord(DecodeLE(bs[|bs| - 4..]))
        case Failure(e) => Failure(e)
        case Success(c) => Success(front + [c])
  }

  /** Before the end of a string of whole words, a whole word is left. */
  lemma WholeWordLeft(it: nat, n: nat)
    requires it < n && it % 4 == 0 && n % 4 == 0
    ensures it + 4 <= n && (it + 4) % 4 == 0
  {
    var p, q := it / 4, n / 4;
    assert it == 4 * p && n == 4 * q;
  }

  /** `parse_binary_cigar`: reads the 32-bit words in order and appends one element per word. */
  method ParseBinaryCigar(cigarStr: seq<byte>) returns (r: Result<seq<Cigar>, Error>)
    requires |cigarStr| % 4 == 0
    ensures r == ParseCigar(cigarStr)
  {
    var cigarVector: seq<Cigar> := [];
    var it := 0;
    while it < |cigarStr|
      invariant it <= |cigarStr| && it % 4 == 0
      invariant ParseCigar(cigarStr[..it]) == Success(cigarVector)
    {
      WholeWordLeft(it, |cigarStr|);
      assert cigarStr[..it + 4][..it] == cigarStr[..it];
      assert cigarStr[..it + 4][it..] == cigarStr[it..it + 4];
      var operationAndCount := DecodeLE(cigarStr[it..it + 4]);
      var c := DecodeCigarWord(operationAndCount);
      if c.Failure? {
        PrefixFailure(cigarStr, it + 4);
        return Failure(c.error);
      }
      cigarVector := cigarVector + [c.value];
      it := it + 4;
    }
    assert cigarStr[..it] == cigarStr;
    return Success(cigarVector);
  }

  /** A failure in a prefix of whole words is the failure of the whole string. */
  lemma {:induction false} PrefixFailure(bs: seq<byte>, n: nat)
    requires n <= |bs| && n % 4 == 0 && |bs| % 4 == 0
    requires ParseCigar(bs[..n]).Failure?
    ensures ParseCigar(bs) == ParseCigar(bs[..n])
  {
    if n < |bs| {
      assert bs[..|bs| - 4][..n] == bs[..n];
      PrefixFailure(bs[..|bs| - 4], n);
    } else {
      assert bs[..n] == bs;
    }
  }

  /** One written element decodes to itself when its count fits in 28 bits. */
  lemma CigarWordRoundTrip(c: Cigar)
    requires c.count < 268435456
    ensures DecodeCigarWord(DecodeLE(EncodeLE(CigarWord(c), 4))) == Success(c)
  {
    var rank := CharToSamRank(OpChar(c.op));
    WordFields(c.count, rank);
    DecodeEncode(CigarWord(c), 4);
    assert OpFromChar(OpChar(c.op)) == Some(c.op);
  }

  /** `count << 4 | rank` without overflow splits back into `count` and `rank`. */
  lemma WordFields(count: nat, rank: nat)
    requires count < 268435456 && rank < 16
    ensures var w := (count * 16) % TwoTo32 + rank;
            w % 16 == rank && w / 16 == count
  {
    var m := count * 16;
    assert 0 <= m < TwoTo32;
    ModInRange(m, TwoTo32);
    var w := m + rank;
    assert w == 16 * count + rank;
  }


  /** Decoding a written CIGAR gives it back when every count fits in 28 bits. */
  lemma {:induction false} CigarRoundTrip(cigar: seq<Cigar>)
    requires forall i :: 0 <= i < |cigar| ==> cigar[i].count < 268435456
    ensures ParseCigar(EncodeCigar(cigar)) == Success(cigar)
  {
    if |cigar| > 0 {
      var front, c := cigar[..|cigar| - 1], cigar[|cigar| - 1];
      assert front + [c] == cigar;
      CigarRoundTrip(front);
      CigarParseStep(front, c);
    }
  }

  /** Parsing one more written word appends its element. */
  lemma CigarParseStep(front: seq<Cigar>, c: Cigar)
    requires c.count < 268435456
    requires ParseCigar(EncodeCigar(front)) == Success(front)
    ensures ParseCigar(EncodeCigar(front + [c])) == Success(front + [c])
  {
    var cigar := front + [c];
    var bs := EncodeCigar(cigar);
    var word := EncodeLE(CigarWord(c), 4);
    assert cigar[..|cigar| - 1] == front;
    assert bs == EncodeCigar(front) + word;
    assert bs[..|bs| - 4] == EncodeCigar(front);
    assert bs[|bs| - 4..] == word;
    CigarWordRoundTrip(c);
  }


  /** A written count of `2^28` or more loses its high bits: the element reads back with count 0. */
  lemma CigarCountTruncated()
    ensures ParseCigar(EncodeCigar([Cigar(268435456, Match)])) == Success([Cigar(0, Match)])
  {
    var c := Cigar(268435456, Match);
    assert CigarWord(c) == 0;
    var bs := EncodeCigar([c]);
    assert [c][..0] == [];
    assert bs == EncodeLE(0, 4);
    DecodeEncode(0, 4);
    assert |bs| == 4 && bs[..|bs| - 4] == [] && bs[|bs| - 4..] == bs;
    assert ParseCigar(bs[..|bs| - 4]) == Success([]);
    assert DecodeLE(bs[|bs| - 4..]) == 0;
    assert DecodeCigarWord(0) == Success(Cigar(0, Match));
    assert ParseCigar(bs) == Success([] + [Cigar(0, Match)]);
    assert [] + [Cigar(0, Match)] == [Cigar(0, Match)];
  }

  // ---------------------------------------------------------------------------
  // Sequence: two 4-bit ranks per byte, first in the high nibble
  // ---------------------------------------------------------------------------

  type Rank16 = x: nat | x < 16

  /** The packed bytes of a sequence; an odd last letter sits over a zero low nibble. */
  function Pack(s: seq<Rank16>): (bs: seq<byte>)
    ensures |bs| == (|s| + 1) / 2
  {
    seq((|s| + 1) / 2, i requires 0 <= i < (|s| + 1) / 2 =>
      s[2 * i] as int * 16 + (if 2 * i + 1 < |s| then s[2 * i + 1] as int else 0))
  }

  /** Unpacking `lSeq` letters: the high nibble, then the low nibble, of each byte. */
  function Unpack(bs: seq<byte>, lSeq: nat): (s: seq<Rank16>)
    requires (lSeq + 1) / 2 <= |bs|
    ensures |s| == lSeq
  {
    seq(lSeq, j requires 0 <= j < lSeq => if j % 2 == 0 then bs[j / 2] / 16 else bs[j / 2] % 16)
  }

  /** The sequence block of `write_alignment_record`: two letters per byte, then an odd last letter. */
  method WritePackedSequence(s: seq<Rank16>) returns (out: seq<byte>)
    ensures out == Pack(s)
  {
    out := [];
    var lSeq := |s|;
    var sidx := 0;
    var bound := if lSeq % 2 == 1 then lSeq - 1 else lSeq;
    while sidx < bound
      invariant sidx % 2 == 0 && sidx <= bound
      invariant |out| == sidx / 2
      invariant forall i :: 0 <= i < |out| ==> out[i] == s[2 * i] as int * 16 + s[2 * i + 1] as int
    {
      var compressed: int := s[sidx] as int * 16;
      sidx := sidx + 1;
      compressed := compressed + s[sidx] as int;
      out := out + [compressed];
      sidx := sidx + 1;
    }
    if lSeq % 2 == 1 {
      out := out + [s[lSeq - 1] as int * 16];
    }
  }

  /** The sequence block of `read_alignment_record`: fills `l_seq + 1` slots two at a time, then trims one. */
  method ReadPackedSequence(seqStr: seq<byte>, lSeq: nat) returns (s: seq<Rank16>)
    requires (lSeq + 1) / 2 <= |seqStr|
    ensures s == Unpack(seqStr, lSeq)
  {
    var numberOfBytes := (lSeq + 1) / 2;
    var buffer: seq<Rank16> := seq(lSeq + 1, _ => 0);
    var i, j := 0, 0;
    while i < numberOfBytes
      invariant i <= numberOfBytes && j == 2 * i && |buffer| == lSeq + 1
      invariant forall k :: 0 <= k < j ==> buffer[k] == (if k % 2 == 0 then seqStr[k / 2] / 16 else seqStr[k / 2] % 16)
    {
      buffer := buffer[j := seqStr[i] / 16][j + 1 := seqStr[i] % 16];
      i, j := i + 1, j + 2;
    }
    s := buffer[..lSeq];
  }

  /** Unpacking a packed sequence gives it back. */
  lemma PackRoundTrip(s: seq<Rank16>)
    ensures Unpack(Pack(s), |s|) == s
  {
    var bs := Pack(s);
    forall j | 0 <= j < |s|
      ensures Unpack(bs, |s|)[j] == s[j]
    {
      var i := j / 2;
      if j % 2 == 0 {
        assert j == 2 * i;
        assert bs[i] == s[j] as int * 16 + (if j + 1 < |s| then s[j + 1] as int else 0);
      } else {
        assert j == 2 * i + 1;
        assert bs[i] == s[2 * i] as int * 16 + s[j] as int;
      }
    }
  }

  /** An odd-length sequence's last byte carries a zero low nibble. */
  lemma PackOddTail(s: seq<Rank16>)
    requires |s| % 2 == 1
    ensures Pack(s)[|s| / 2] == s[|s| - 1] as int * 16
  {
  }

  // ---------------------------------------------------------------------------
  // Quality
  // ---------------------------------------------------------------------------

  /**
   * The quality block of the writer: no quality becomes `l_seq` bytes of 255;
   * a quality of another length than the sequence is a format error;
   * otherwise each rank is one byte.
   */
  function QualBytes(qual: seq<byte>, lSeq: nat): (r: Result<seq<byte>, Error>)
    ensures r.Failure? <==> (|qual| != 0 && |qual| != lSeq)
    ensures r.Success? ==> |r.value| == lSeq
    ensures |qual| == 0 ==> r == Success(seq(lSeq, _ => 255))
  {
    if |qual| == 0 then Success(seq(lSeq, _ => 255))
    else if |qual| != lSeq then Failure(FormatError)
    else Success(qual)
  }

  /** What the reader makes of a quality byte: the character `byte + 33`, taken modulo 256. */
  function QualChar(b: byte): byte
  {
    (b + 33) % 256
  }

  /** The quality block of the reader: one character per byte. */
  method ReadQuality(qualStr: seq<byte>, lSeq: nat) returns (qual: seq<byte>)
    requires lSeq <= |qualStr|
    ensures |qual| == lSeq
    ensures forall i :: 0 <= i < lSeq ==> qual[i] == QualChar(qualStr[i])
  {
    qual := seq(lSeq, _ => 0);
    var i := 0;
    while i < lSeq
      invariant i <= lSeq && |qual| == lSeq
      invariant forall k :: 0 <= k < i ==> qual[k] == QualChar(qualStr[k])
    {
      qual := qual[i := QualChar(qualStr[i])];
      i := i + 1;
    }
  }

  /**
   * Reading back what was written: each rank below 223 returns as its Phred+33
   * character, and a missing quality returns as `l_seq` spaces (255 + 33 wraps to 32).
   */
  lemma QualRoundTrip(qual: seq<byte>, lSeq: nat)
    requires |qual| == 0 || |qual| == lSeq
    ensures QualBytes(qual, lSeq).Success?
    ensures |qual| == lSeq ==> forall i :: 0 <= i < lSeq && qual[i] < 223 ==>
              QualChar(QualBytes(qual, lSeq).value[i]) == qual[i] + 33
    ensures |qual| == 0 ==> forall i :: 0 <= i < lSeq ==> QualChar(QualBytes(qual, lSeq).value[i]) == 32
  {
  }

  // ---------------------------------------------------------------------------
  // Read name
  // ---------------------------------------------------------------------------

  /**
   * `read_name_size` as the writer computes it: `std::min<uint8_t>` first
   * truncates the id length to 8 bits, then caps it at 254; one byte is added
   * for the terminating zero, and an empty id gets 2 (it is written as `*`).
   */
  function ReadNameSizeAsWritten(idLength: nat): (size: nat)
    ensures 2 <= size <= 255
    ensures idLength == 0 ==> size == 2
    ensures idLength > 0 ==> size - 1 <= idLength
  {
    var capped := if idLength % 256 < 254 then idLength % 256 else 254;
    if capped + 1 == 1 then 2 else capped + 1
  }

  /** An id of 256 letters is stored as its first letter only: the length wraps to 0 before the cap. */
  lemma ReadNameSizeWraps()
    ensures ReadNameSizeAsWritten(256) == 2
    ensures ReadNameSizeAsWritten(300) == 45
  {
  }

  /** The intended `read_name_size`: at most 254 letters plus the zero, and 2 for the `*` of an empty id. */
  function ReadNameSize(idLength: nat): (size: nat)
    ensures 2 <= size <= 255
    ensures idLength == 0 ==> size == 2
    ensures 0 < idLength <= 254 ==> size == idLength + 1
    ensures idLength >= 254 ==> size == 255
  {
    if idLength == 0 then 2 else if idLength < 254 then idLength + 1 else 255
  }

  /** The two agree on every id shorter than 256 letters. */
  lemma ReadNameSizeAgrees(idLength: nat)
    requires idLength < 256
    ensures ReadNameSizeAsWritten(idLength) == ReadNameSize(idLength)
  {
  }

  /** `l_read_name` as the given variant of the writer computes it. */
  function ReadNameSizeIn(variant: Variant, idLength: nat): (size: nat)
    ensures 2 <= size <= 255
    ensures idLength == 0 ==> size == 2
    ensures idLength > 0 ==> size - 1 <= idLength
    ensures idLength < 256 ==> size == ReadNameSize(idLength)
  {
    if variant.AsWritten? then ReadNameSizeAsWritten(idLength) else ReadNameSize(idLength)
  }

  const Star: byte := 42

  /** The read-name bytes: `*` for an empty id, else the first `l_read_name - 1` letters; then a zero. */
  function NameBytes(id: seq<byte>, lReadName: nat): (bs: seq<byte>)
    requires lReadName >= 2 && (|id| > 0 ==> lReadName - 1 <= |id|)
    ensures |bs| == lReadName || (|id| == 0 && |bs| == 2)
  {
    (if |id| == 0 then [Star] else id[..lReadName - 1]) + [0]
  }

  /**
   * The reader's id: the first `l_read_name - 1` bytes of the record body.
   * An `l_read_name` of 0 makes that length `npos`, so the id is the whole body.
   */
  function ReadName(body: seq<byte>, lReadName: nat): (id: seq<byte>)
    requires lReadName <= |body|
    ensures id <= body
    ensures lReadName == 0 ==> id == body
    ensures lReadName > 0 ==> |id| == lReadName - 1
  {
    if lReadName == 0 then body else body[..lReadName - 1]
  }

  /** With the intended size, an id round-trips up to 254 letters; an empty id reads back as `*`. */
  lemma ReadNameRoundTrip(id: seq<byte>, rest: seq<byte>)
    ensures ReadName(NameBytes(id, ReadNameSize(|id|)) + rest, ReadNameSize(|id|))
         == (if |id| == 0 then [Star] else if |id| <= 254 then id else id[..254])
  {
    var n := ReadNameSize(|id|);
    var body := NameBytes(id, n) + rest;
    assert body[..n - 1] == NameBytes(id, n)[..n - 1];
  }

  // ---------------------------------------------------------------------------
  // Reference id and position
  // ---------------------------------------------------------------------------

  /** The reader's `refID` check: `-1` means unmapped, `0 .. n_ref - 1` name a reference, anything else is an error. */
  function CheckRefId(refID: int, nRef: nat): (r: Result<Option<nat>, Error>)
    ensures r.Failure? <==> (refID < -1 || refID >= nRef)
    ensures r.Success? ==> (r.value.Some? <==> refID >= 0)
    ensures r.Success? && r.value.Some? ==> r.value.value == refID < nRef
  {
    if refID >= nRef || refID < -1 then Failure(FormatError)
    else if refID > -1 then Success(Some(refID))
    else Success(None)
  }

  /** The writer's `ref_offset` check: a present offset below `-1` is an error; an absent one is written as `-1`. */
  function WrittenPos(refOffset: Option<int>): (r: Result<int, Error>)
    ensures r.Failure? <==> (refOffset.Some? && refOffset.value < -1)
    ensures r.Success? ==> r.value >= -1
  {
    match refOffset
    case None => Success(-1)
    case Some(v) => if v + 1 < 0 then Failure(FormatError) else Success(v)
  }

  /** The reader's position: set only when `pos > -1`. */
  function ReadPos(pos: int): (r: Option<nat>)
    ensures r.Some? <==> pos >= 0
  {
    if pos > -1 then Some(pos) else None
  }

  /** A written position reads back unchanged, except that an explicit `-1` reads back as absent. */
  lemma PosRoundTrip(refOffset: Option<int>)
    requires WrittenPos(refOffset).Success?
    ensures refOffset.Some? && refOffset.value >= 0 ==> ReadPos(WrittenPos(refOffset).value) == Some(refOffset.value)
    ensures refOffset.None? || refOffset == Some(-1) ==> ReadPos(WrittenPos(refOffset).value) == None
  {
  }

  // ---------------------------------------------------------------------------
  // The record's bin
  // ---------------------------------------------------------------------------

  /**
   * The `bin` field as the writer fills it: `reg2bin(pos, ref_length)`, with
   * the aligned length passed where the region's end belongs.
   */
  function RecordBinAsWritten(pos: int, refLength: nat): (bin: nat)
    ensures bin < 65536
  {
    Reg2Bin(pos, refLength)
  }

  /** The intended `bin`: that of the region `[pos, pos + ref_length)` the alignment covers. */
  function RecordBin(pos: int, refLength: nat): (bin: nat)
    ensures bin < 65536
  {
    Reg2Bin(pos, pos + refLength)
  }

  /** An alignment of 50 bases at 100000 gets bin 585 as written, where its region lies in bin 4687. */
  lemma RecordBinMisplaced()
    ensures RecordBinAsWritten(100000, 50) == 585
    ensures RecordBin(100000, 50) == 4687
  {
  }

  /** The intended bin is the deepest bin holding the whole aligned region. */
  lemma RecordBinHoldsRegion(pos: int, refLength: nat) returns (level: nat)
    requires 0 <= pos && 0 < refLength && pos + refLength <= 536870912
    ensures level <= 5
    ensures RecordBin(pos, refLength) == LevelOffset(level) + pos / LevelWidth(level)
    ensures pos / LevelWidth(level) == (pos + refLength - 1) / LevelWidth(level)
    ensures forall finer :: level < finer <= 5 ==> pos / LevelWidth(finer) != (pos + refLength - 1) / LevelWidth(finer)
  {
    level := Reg2BinIsSmallestBin(pos, pos + refLength);
  }
}
