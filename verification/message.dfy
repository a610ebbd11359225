/**
 * The wire format of dns/message.go: the 12-byte header of section 4.1.1 of
 * RFC 1035, question entries (section 4.1.2), and domain names written as
 * length-prefixed labels and read back with the compression pointers of
 * section 4.1.4.
 *
 * A Go string in this package is a sequence of bytes, so domain names and
 * labels are `seq<byte>`.
 */
module Message {
  import opened Wire
  import opened Text

  /** The byte '.', which separates the labels of a dotted name. */
  const Dot: byte := 46

  const MaxLabelLength := 63

  /** A length byte whose two top bits are set starts a two-byte compression pointer. */
  const PointerTag := 0xC0

  const HeaderSize := 12

  /** The numeric resource-record type (declared in dns/records.go). */
  type RecordType = u16

  datatype Header = Header(id: u16, flags: u16, qdCount: u16, anCount: u16, nsCount: u16, arCount: u16)

  datatype Question = Question(name: seq<byte>, rtype: RecordType, dnsClass: u16)

  datatype HeaderError = HeaderTooShort

  datatype EncodeError = LabelTooLong(segment: seq<byte>)

  datatype DecodeError =
    | OffsetOutOfBounds(offset: nat)
    | MalformedPointer(offset: nat)
    | LabelOverrun(length: byte)
    | PointedNameFailed(cause: DecodeError)
    | TooManyJumps

  /** A decoded name and the number of bytes it occupies where decoding started. */
  datatype Decoded = Decoded(name: seq<byte>, consumed: nat)

  /** The labels read from one position on, and the position just after them. */
  datatype Scanned = Scanned(labels: seq<seq<byte>>, end: nat)

  // ---------------------------------------------------------------------------
  // Header
  // ---------------------------------------------------------------------------

  /** Header.Pack: the six fields, each big-endian, in declaration order. */
  function PackHeader(h: Header): (r: seq<byte>)
    ensures |r| == HeaderSize
    ensures Uint16At(r, 0) == h.id && Uint16At(r, 2) == h.flags && Uint16At(r, 4) == h.qdCount
    ensures Uint16At(r, 6) == h.anCount && Uint16At(r, 8) == h.nsCount && Uint16At(r, 10) == h.arCount
  {
    BigEndian16(h.id) + BigEndian16(h.flags) + BigEndian16(h.qdCount)
    + BigEndian16(h.anCount) + BigEndian16(h.nsCount) + BigEndian16(h.arCount)
  }

  /**
   * UnpackHeader: fails exactly on inputs shorter than 12 bytes; otherwise
   * the header is the one whose packing is the first 12 bytes.
   */
  function UnpackHeader(data: seq<byte>): (r: Result<Header, HeaderError>)
    ensures r.Err? <==> |data| < HeaderSize
    ensures r.Ok? ==> PackHeader(r.value) == data[..HeaderSize]
  {
    if |data| < HeaderSize then Err(HeaderTooShort)
    else
      var h := Header(Uint16At(data, 0), Uint16At(data, 2), Uint16At(data, 4),
                      Uint16At(data, 6), Uint16At(data, 8), Uint16At(data, 10));
      assert PackHeader(h) == data[..HeaderSize] by {
        forall i | 0 <= i < 6 {
          BigEndian16At(data, 2 * i);
        }
      }
      Ok(h)
  }

  /** Unpacking a packed header gives it back, whatever follows it. */
  lemma HeaderRoundTrip(h: Header, rest: seq<byte>)
    ensures UnpackHeader(PackHeader(h) + rest) == Ok(h)
  {
    var data := PackHeader(h) + rest;
    forall i | 0 <= i < 6 ensures Uint16At(data, 2 * i) == Uint16At(PackHeader(h), 2 * i) {
      Uint16AtSlice(data, 2 * i, PackHeader(h)[2 * i..2 * i + 2]);
    }
  }

  /** Only the first 12 bytes are read. */
  lemma UnpackHeaderIgnoresTail(data: seq<byte>, tail: seq<byte>)
    requires |data| >= HeaderSize
    ensures UnpackHeader(data + tail) == UnpackHeader(data)
  {
    assert (data + tail)[..HeaderSize] == data[..HeaderSize];
  }

  // ---------------------------------------------------------------------------
  // Encoding names and questions
  // ---------------------------------------------------------------------------

  /** Each segment prefixed by its length; fails on the first segment longer than 63 bytes. */
  function EncodeLabels(segments: seq<seq<byte>>): (r: Result<seq<byte>, EncodeError>)
    ensures r.Ok? <==> forall i :: 0 <= i < |segments| ==> |segments[i]| <= MaxLabelLength
    ensures r.Ok? ==> |r.value| == TotalLength(segments) + |segments|
  {
    if segments == [] then Ok([])
    else if |segments[0]| > MaxLabelLength then Err(LabelTooLong(segments[0]))
    else
      match EncodeLabels(segments[1..])
      case Err(e) => Err(e)
      case Ok(rest) =>
        assert forall i :: 1 <= i < |segments| ==> segments[i] == segments[1..][i - 1];
        Ok([|segments[0]|] + segments[0] + rest)
  }

  /**
   * EncodeDomainName as a function: the dot-separated segments as labels and
   * a final zero byte. Fails exactly when some segment is longer than 63
   * bytes; otherwise the encoding is two bytes longer than the name.
   */
  function EncodeName(domain: seq<byte>): (r: Result<seq<byte>, EncodeError>)
    ensures r.Ok? <==> forall i :: 0 <= i < |Split(domain, Dot)| ==> |Split(domain, Dot)[i]| <= MaxLabelLength
    ensures r.Ok? ==> |r.value| == |domain| + 2 && r.value[|r.value| - 1] == 0
  {
    JoinSplit(domain, Dot);
    JoinLength(Split(domain, Dot), Dot);
    match EncodeLabels(Split(domain, Dot))
    case Err(e) => Err(e)
    case Ok(labels) => Ok(labels + [0])
  }

  function Then(prefix: seq<byte>, r: Result<seq<byte>, EncodeError>): Result<seq<byte>, EncodeError>
  {
    match r
    case Ok(bytes) => Ok(prefix + bytes)
    case Err(e) => Err(e)
  }

  lemma ThenEmpty(r: Result<seq<byte>, EncodeError>)
    ensures Then([], r) == r
  {
    if r.Ok? {
      assert [] + r.value == r.value;
    }
  }

  lemma ThenAppend(buf: seq<byte>, more: seq<byte>, r: Result<seq<byte>, EncodeError>)
    ensures Then(buf, Then(more, r)) == Then(buf + more, r)
  {
    if r.Ok? {
      assert buf + (more + r.value) == buf + more + r.value;
    }
  }

  /** EncodeDomainName: writes the labels one segment at a time into a buffer. */
  method EncodeDomainName(domain: seq<byte>) returns (r: Result<seq<byte>, EncodeError>)
    ensures r == EncodeName(domain)
  {
    var segments := Split(domain, Dot);
    var buf: seq<byte> := [];
    assert segments[0..] == segments;
    ThenEmpty(EncodeLabels(segments));
    for i := 0 to |segments|
      invariant EncodeLabels(segments) == Then(buf, EncodeLabels(segments[i..]))
    {
      var segment := segments[i];
      assert segments[i..][0] == segment && segments[i..][1..] == segments[i + 1..];
      if |segment| > MaxLabelLength {
        return Err(LabelTooLong(segment));
      }
      assert EncodeLabels(segments[i..]) == Then([|segment|] + segment, EncodeLabels(segments[i + 1..]));
      ThenAppend(buf, [|segment|] + segment, EncodeLabels(segments[i + 1..]));
      buf := buf + ([|segment|] + segment);
    }
    assert segments[|segments|..] == [];
    assert buf + [] == buf;
    buf := buf + [0];
    return Ok(buf);
  }

  /** A dotted name is written as its segments' labels and a zero byte. */
  lemma EncodeJoined(segments: seq<seq<byte>>)
    requires |segments| >= 1
    requires forall i :: 0 <= i < |segments| ==> Dot !in segments[i] && |segments[i]| <= MaxLabelLength
    ensures EncodeName(Join(segments, Dot)) == Ok(EncodeLabels(segments).value + [0])
  {
    SplitJoin(segments, Dot);
  }

  /** "example.com" is written [7]example[3]com[0]. */
  lemma EncodeExample(example: seq<byte>, com: seq<byte>)
    requires example == [101, 120, 97, 109, 112, 108, 101] && com == [99, 111, 109]
    ensures EncodeName(example + [Dot] + com) == Ok([7] + example + [3] + com + [0])
  {
    assert [example, com][1..] == [com];
    assert Join([example, com], Dot) == example + [Dot] + com;
    EncodeJoined([example, com]);
    assert [com][1..] == [];
    assert EncodeLabels([]) == Ok([]);
    assert EncodeLabels([com]) == Ok([|com|] + com + []);
    assert [|com|] + com + [] == [3] + com;
    assert EncodeLabels([example, com]) == Ok([|example|] + example + ([3] + com));
    assert [|example|] + example + ([3] + com) + [0] == [7] + example + [3] + com + [0];
  }

  /**
   * Question.Pack: the encoded name, then the type and the class big-endian.
   * Fails exactly when the name cannot be encoded.
   */
  function PackQuestion(q: Question): (r: Result<seq<byte>, EncodeError>)
    ensures r.Ok? <==> EncodeName(q.name).Ok?
    ensures r.Ok? ==> |r.value| == |q.name| + 6 && r.value[..|q.name| + 2] == EncodeName(q.name).value
    ensures r.Ok? ==> Uint16At(r.value, |q.name| + 2) == q.rtype && Uint16At(r.value, |q.name| + 4) == q.dnsClass
  {
    match EncodeName(q.name)
    case Err(e) => Err(e)
    case Ok(name) =>
      var r := name + BigEndian16(q.rtype) + BigEndian16(q.dnsClass);
      Uint16AtSlice(r, |name|, BigEndian16(q.rtype));
      Uint16AtSlice(r, |name| + 2, BigEndian16(q.dnsClass));
      Ok(r)
  }

  // ---------------------------------------------------------------------------
  // Decoding names
  // ---------------------------------------------------------------------------

  /** The 14-bit message offset a pointer names: the two bytes with the tag bits masked off. */
  function PointerTarget(msg: seq<byte>, pos: nat): (target: nat)
    requires pos + 1 < |msg| && msg[pos] >= PointerTag
    ensures target < 0x4000 && target == Uint16At(msg, pos) % 0x4000
  {
    (msg[pos] - PointerTag) * 0x100 + msg[pos + 1]
  }

  /**
   * The loop of DecodeDomainName from `pos` on: ordinary labels up to a zero
   * byte, or up to a pointer whose target name (decoded with one jump less)
   * becomes the last label. Lengths 1..0xBF are all ordinary labels.
   */
  function ScanLabels(msg: seq<byte>, pos: nat, jumps: nat): (r: Result<Scanned, DecodeError>)
    ensures r.Ok? ==> pos < r.value.end <= |msg|
    decreases jumps, |msg| - pos, 0
  {
    if pos >= |msg| then Err(OffsetOutOfBounds(pos))
    else
      var length := msg[pos];
      if length == 0 then Ok(Scanned([], pos + 1))
      else if length >= PointerTag then
        if pos + 1 >= |msg| then Err(MalformedPointer(pos))
        else if jumps == 0 then Err(TooManyJumps)
        else
          PointerScan(DecodeName(msg, PointerTarget(msg, pos), jumps - 1), pos)
      else if pos + 1 + length > |msg| then Err(LabelOverrun(length))
      else
        match ScanLabels(msg, pos + 1 + length, jumps)
        case Err(e) => Err(e)
        case Ok(rest) => Ok(Scanned([msg[pos + 1..pos + 1 + length]] + rest.labels, rest.end))
  }

  /** A pointer at `pos` ends a scan: the name at its target is the last label. */
  function PointerScan(pointed: Result<Decoded, DecodeError>, pos: nat): (r: Result<Scanned, DecodeError>)
    ensures r.Ok? ==> r.value.end == pos + 2
  {
    if pointed.Err? then Err(PointedNameFailed(pointed.error))
    else Ok(Scanned([pointed.value.name], pos + 2))
  }

  /** Joins the labels already read with those of a scan; counts the bytes from `start`. */
  function Resume(labels: seq<seq<byte>>, start: nat, scan: Result<Scanned, DecodeError>): Result<Decoded, DecodeError>
    requires scan.Ok? ==> start <= scan.value.end
  {
    match scan
    case Err(e) => Err(e)
    case Ok(s) => Ok(Decoded(Join(labels + s.labels, Dot), s.end - start))
  }

  /**
   * DecodeDomainName with at most `jumps` pointer jumps: on success the name
   * occupies `consumed` (at least one) bytes from `offset`, all inside the message.
   */
  function DecodeName(msg: seq<byte>, offset: nat, jumps: nat): (r: Result<Decoded, DecodeError>)
    ensures r.Ok? ==> 1 <= r.value.consumed && offset + r.value.consumed <= |msg|
    decreases jumps, |msg| - offset, 1
  {
    Resume([], offset, ScanLabels(msg, offset, jumps))
  }

  /** The jump budget the package's callers decode with. */
  function JumpBudget(msg: seq<byte>): nat
  {
    |msg| + 1
  }

  /** DecodeDomainName(fullMessage, offset) as the rest of the package calls it. */
  function DecodeAt(msg: seq<byte>, offset: nat): (r: Result<Decoded, DecodeError>)
    ensures r.Ok? ==> 1 <= r.value.consumed && offset + r.value.consumed <= |msg|
  {
    DecodeName(msg, offset, JumpBudget(msg))
  }

  /**
   * DecodeDomainName: a loop over length bytes that collects labels and
   * recurses, with one jump less, on a compression pointer. The source's
   * `jumped` flag is always false where it is tested, so it does not appear.
   */
  method DecodeDomainName(msg: seq<byte>, offset: nat, jumps: nat) returns (r: Result<Decoded, DecodeError>)
    ensures r == DecodeName(msg, offset, jumps)
    decreases jumps
  {
    var labels: seq<seq<byte>> := [];
    var pos := offset;
    while true
      invariant offset <= pos
      invariant DecodeName(msg, offset, jumps) == Resume(labels, offset, ScanLabels(msg, pos, jumps))
      decreases |msg| - pos
    {
      if pos >= |msg| {
        return Err(OffsetOutOfBounds(pos));
      }
      ghost var at := pos;
      var length := msg[pos];
      pos := pos + 1;
      if length == 0 {
        ResumeEnd(msg, offset, at, labels, jumps);
        return Ok(Decoded(Join(labels, Dot), pos - offset));
      }
      if length >= PointerTag {
        if pos >= |msg| {
          return Err(MalformedPointer(pos - 1));
        }
        if jumps == 0 {
          return Err(TooManyJumps);
        }
        var target := (length - PointerTag) * 0x100 + msg[pos];
        assert target == PointerTarget(msg, at);
        var pointed := DecodeDomainName(msg, target, jumps - 1);
        ResumePointer(msg, offset, at, labels, jumps);
        if pointed.Err? {
          return Err(PointedNameFailed(pointed.error));
        }
        labels := labels + [pointed.value.name];
        return Ok(Decoded(Join(labels, Dot), pos - offset + 1));
      }
      if pos + length > |msg| {
        return Err(LabelOverrun(length));
      }
      ResumeLabel(msg, offset, at, labels, jumps);
      labels := labels + [msg[pos..pos + length]];
      pos := pos + length;
    }
  }

  /** A zero length byte ends the name: the labels read so far are the name. */
  lemma ResumeEnd(msg: seq<byte>, offset: nat, at: nat, labels: seq<seq<byte>>, jumps: nat)
    requires offset <= at < |msg| && msg[at] == 0
    ensures Resume(labels, offset, ScanLabels(msg, at, jumps)) == Ok(Decoded(Join(labels, Dot), at + 1 - offset))
  {
    assert labels + [] == labels;
  }

  /** A pointer ends the name: the name at its target is the last label. */
  lemma ResumePointer(msg: seq<byte>, offset: nat, at: nat, labels: seq<seq<byte>>, jumps: nat)
    requires offset <= at && at + 1 < |msg| && msg[at] >= PointerTag && jumps >= 1
    ensures var pointed := DecodeName(msg, PointerTarget(msg, at), jumps - 1);
      Resume(labels, offset, ScanLabels(msg, at, jumps))
        == if pointed.Err? then Err(PointedNameFailed(pointed.error))
           else Ok(Decoded(Join(labels + [pointed.value.name], Dot), at + 2 - offset))
  {
    ScanPointer(msg, at, jumps);
  }

  /** An ordinary label moves from the bytes still to scan to the labels already read. */
  lemma ResumeLabel(msg: seq<byte>, offset: nat, at: nat, labels: seq<seq<byte>>, jumps: nat)
    requires offset <= at < |msg| && 0 < msg[at] < PointerTag && at + 1 + msg[at] <= |msg|
    ensures Resume(labels, offset, ScanLabels(msg, at, jumps))
         == Resume(labels + [msg[at + 1..at + 1 + msg[at]]], offset, ScanLabels(msg, at + 1 + msg[at], jumps))
  {
    var first := msg[at + 1..at + 1 + msg[at]];
    var rest := ScanLabels(msg, at + 1 + msg[at], jumps);
    ScanOneLabel(msg, at, jumps);
    if rest.Ok? {
      assert labels + ([first] + rest.value.labels) == labels + [first] + rest.value.labels;
    }
  }

  // ---------------------------------------------------------------------------
  // Properties of decoding
  // ---------------------------------------------------------------------------

  /** A name every segment of which is a label of 1 to 63 bytes. */
  predicate PlainName(domain: seq<byte>)
  {
    forall i :: 0 <= i < |Split(domain, Dot)| ==> 1 <= |Split(domain, Dot)[i]| <= MaxLabelLength
  }

  predicate PlainSegments(segments: seq<seq<byte>>)
  {
    forall i :: 0 <= i < |segments| ==> 1 <= |segments[i]| <= MaxLabelLength
  }

  function Prepend(labels: seq<seq<byte>>, scan: Result<Scanned, DecodeError>): Result<Scanned, DecodeError>
  {
    match scan
    case Err(e) => Err(e)
    case Ok(s) => Ok(Scanned(labels + s.labels, s.end))
  }

  lemma PrependTwice(first: seq<seq<byte>>, second: seq<seq<byte>>, scan: Result<Scanned, DecodeError>)
    ensures Prepend(first, Prepend(second, scan)) == Prepend(first + second, scan)
  {
    if scan.Ok? {
      assert first + (second + scan.value.labels) == first + second + scan.value.labels;
    }
  }

  /** One ordinary label, then whatever follows it. */
  lemma ScanOneLabel(msg: seq<byte>, pos: nat, jumps: nat)
    requires pos < |msg| && 0 < msg[pos] < PointerTag && pos + 1 + msg[pos] <= |msg|
    ensures ScanLabels(msg, pos, jumps)
         == Prepend([msg[pos + 1..pos + 1 + msg[pos]]], ScanLabels(msg, pos + 1 + msg[pos], jumps))
  {
  }

  /** ScanOneLabel with the label's extent, length byte included, given as `step`. */
  lemma ScanStep(msg: seq<byte>, pos: nat, step: nat, jumps: nat)
    requires pos < |msg| && 0 < msg[pos] < PointerTag && step == 1 + msg[pos] && pos + step <= |msg|
    ensures ScanLabels(msg, pos, jumps) == Prepend([msg[pos + 1..pos + step]], ScanLabels(msg, pos + step, jumps))
  {
    ScanOneLabel(msg, pos, jumps);
  }

  /** A pointer ends the labels; its target name, decoded with one jump less, is the last label. */
  lemma ScanPointer(msg: seq<byte>, pos: nat, jumps: nat)
    requires pos + 1 < |msg| && msg[pos] >= PointerTag && jumps >= 1
    ensures ScanLabels(msg, pos, jumps) == PointerScan(DecodeName(msg, PointerTarget(msg, pos), jumps - 1), pos)
  {
  }

  /** Uncompressed labels in the message are read back as the segments they were written from. */
  lemma {:induction false} ScanPrefix(msg: seq<byte>, pos: nat, segments: seq<seq<byte>>, jumps: nat)
    requires PlainSegments(segments) && StoredAt(msg, pos, EncodeLabels(segments).value)
    ensures ScanLabels(msg, pos, jumps) == Prepend(segments, ScanLabels(msg, pos + |EncodeLabels(segments).value|, jumps))
    decreases |segments|
  {
    var enc := EncodeLabels(segments).value;
    if segments == [] {
      var scan := ScanLabels(msg, pos, jumps);
      if scan.Ok? {
        assert [] + scan.value.labels == scan.value.labels;
      }
    } else {
      var segment := segments[0];
      var rest := EncodeLabels(segments[1..]).value;
      EncodeLabelsCons(segments);
      var next := pos + 1 + |segment|;
      LabelStored(msg, pos, segment, rest, jumps);
      ScanPrefix(msg, next, segments[1..], jumps);
      assert next + |rest| == pos + |enc|;
      PrependCons(segments, ScanLabels(msg, pos + |enc|, jumps));
    }
  }

  /** The encoding of plain segments is the first label, then the encoding of the others. */
  lemma EncodeLabelsCons(segments: seq<seq<byte>>)
    requires PlainSegments(segments) && segments != []
    ensures PlainSegments(segments[1..])
    ensures EncodeLabels(segments).value == [|segments[0]|] + segments[0] + EncodeLabels(segments[1..]).value
    ensures |EncodeLabels(segments).value| == 1 + |segments[0]| + |EncodeLabels(segments[1..]).value|
  {
    forall i | 0 <= i < |segments[1..]| ensures 1 <= |segments[1..][i]| <= MaxLabelLength {
      assert segments[1..][i] == segments[i + 1];
    }
  }

  lemma PrependCons(segments: seq<seq<byte>>, scan: Result<Scanned, DecodeError>)
    requires segments != []
    ensures Prepend([segments[0]], Prepend(segments[1..], scan)) == Prepend(segments, scan)
  {
    PrependTwice([segments[0]], segments[1..], scan);
    assert [segments[0]] + segments[1..] == segments;
  }

  /** Where a label and what follows it are stored, the scan reads that label and goes on after it. */
  lemma LabelStored(msg: seq<byte>, pos: nat, segment: seq<byte>, rest: seq<byte>, jumps: nat)
    requires 1 <= |segment| <= MaxLabelLength && StoredAt<byte>(msg, pos, [|segment|] + segment + rest)
    ensures StoredAt(msg, pos + 1 + |segment|, rest)
    ensures ScanLabels(msg, pos, jumps) == Prepend([segment], ScanLabels(msg, pos + 1 + |segment|, jumps))
  {
    var length: seq<byte> := [|segment|];
    StoredSplit(msg, pos, length + segment + rest, length + segment, rest);
    StoredSplit(msg, pos, length + segment, length, segment);
    StoredSlice(msg, pos + 1, segment);
    assert At(msg, pos, 0) == length[0];
    ScanStep(msg, pos, 1 + |segment|, jumps);
  }

  /**
   * Round trip: wherever a plain name is written uncompressed in a message,
   * decoding there gives the name back and consumes exactly its encoding.
   */
  lemma DecodeEncoded(msg: seq<byte>, offset: nat, domain: seq<byte>, jumps: nat)
    requires PlainName(domain) && StoredAt(msg, offset, EncodeName(domain).value)
    ensures DecodeName(msg, offset, jumps) == Ok(Decoded(domain, |domain| + 2))
  {
    var segments := Split(domain, Dot);
    var enc := EncodeLabels(segments).value;
    var end := offset + |enc|;
    StoredSplit(msg, offset, EncodeName(domain).value, enc, [0]);
    assert msg[end] == 0 by {
      assert At(msg, end, 0) == [0][0];
    }
    var last := ScanLabels(msg, end, jumps);
    assert last == Ok(Scanned([], end + 1));
    assert ScanLabels(msg, offset, jumps) == Prepend(segments, last) by {
      ScanPrefix(msg, offset, segments, jumps);
    }
    assert Prepend(segments, last) == Ok(Scanned(segments, end + 1)) by {
      assert segments + [] == segments;
    }
    assert Join([] + segments, Dot) == domain by {
      assert [] + segments == segments;
      JoinSplit(domain, Dot);
    }
  }

  /** DecodeDomainName(EncodeDomainName(n), 0) == (n, len(EncodeDomainName(n))). */
  lemma NameRoundTrip(domain: seq<byte>)
    requires PlainName(domain)
    ensures EncodeName(domain).Ok?
    ensures DecodeAt(EncodeName(domain).value, 0) == Ok(Decoded(domain, |EncodeName(domain).value|))
  {
    var enc := EncodeName(domain).value;
    assert enc[0..|enc|] == enc;
    StoredSlice(enc, 0, enc);
    DecodeEncoded(enc, 0, domain, JumpBudget(enc));
  }

  /**
   * Compression (section 4.1.4 of RFC 1035): labels followed by a pointer
   * decode to those labels joined with the name at the pointer's 14-bit
   * target, and consume the labels plus the two pointer bytes, however long
   * the target name is. A failure at the target is reported wrapped.
   */
  lemma DecodeCompressed(msg: seq<byte>, offset: nat, segments: seq<seq<byte>>, target: nat, jumps: nat)
    requires PlainSegments(segments) && target < 0x4000 && jumps >= 1
    requires StoredAt<byte>(msg, offset, EncodeLabels(segments).value + [PointerTag + target / 0x100, target % 0x100])
    ensures DecodeName(msg, offset, jumps) ==
      match DecodeName(msg, target, jumps - 1)
      case Ok(pointed) => Ok(Decoded(Join(segments + [pointed.name], Dot), |EncodeLabels(segments).value| + 2))
      case Err(e) => Err(PointedNameFailed(e))
  {
    var enc := EncodeLabels(segments).value;
    var p := offset + |enc|;
    CompressedStored(msg, offset, enc, target);
    ScanPrefix(msg, offset, segments, jumps);
    ResumeAtPointer(msg, offset, p, segments, jumps);
  }

  /** Where labels and a pointer to `target` are stored, the labels are found and then that pointer. */
  lemma CompressedStored(msg: seq<byte>, offset: nat, enc: seq<byte>, target: nat)
    requires target < 0x4000 && StoredAt<byte>(msg, offset, enc + [PointerTag + target / 0x100, target % 0x100])
    ensures StoredAt(msg, offset, enc)
    ensures offset + |enc| + 1 < |msg| && msg[offset + |enc|] >= PointerTag
    ensures PointerTarget(msg, offset + |enc|) == target
  {
    var p := offset + |enc|;
    var pointer: seq<byte> := [PointerTag + target / 0x100, target % 0x100];
    StoredSplit(msg, offset, enc + pointer, enc, pointer);
    StoredSlice(msg, p, pointer);
    assert msg[p] == msg[p..p + 2][0] == pointer[0];
    assert msg[p + 1] == msg[p..p + 2][1] == pointer[1];
  }

  /** Labels already read, then a pointer at `p`: the result is decided by the name at its target. */
  lemma ResumeAtPointer(msg: seq<byte>, offset: nat, p: nat, segments: seq<seq<byte>>, jumps: nat)
    requires offset <= p && p + 1 < |msg| && msg[p] >= PointerTag && jumps >= 1
    ensures var pointed := DecodeName(msg, PointerTarget(msg, p), jumps - 1);
      Resume([], offset, Prepend(segments, ScanLabels(msg, p, jumps)))
        == if pointed.Err? then Err(PointedNameFailed(pointed.error))
           else Ok(Decoded(Join(segments + [pointed.value.name], Dot), p - offset + 2))
  {
    ScanPointer(msg, p, jumps);
    ResumeCompressed(segments, offset, p, DecodeName(msg, PointerTarget(msg, p), jumps - 1));
  }

  /** Labels followed by a pointer whose target decodes (or fails) as `pointed`. */
  lemma ResumeCompressed(segments: seq<seq<byte>>, offset: nat, p: nat, pointed: Result<Decoded, DecodeError>)
    requires offset <= p
    ensures Resume([], offset, Prepend(segments, PointerScan(pointed, p)))
         == if pointed.Err? then Err(PointedNameFailed(pointed.error))
            else Ok(Decoded(Join(segments + [pointed.value.name], Dot), p - offset + 2))
  {
    if pointed.Ok? {
      assert [] + (segments + [pointed.value.name]) == segments + [pointed.value.name];
    }
  }

  /** An error that comes from running out of jumps, possibly wrapped by the pointers that led there. */
  predicate OutOfJumps(e: DecodeError)
  {
    match e
    case TooManyJumps => true
    case PointedNameFailed(cause) => OutOfJumps(cause)
    case _ => false
  }

  lemma {:induction false} ScanMoreJumps(msg: seq<byte>, pos: nat, jumps: nat, more: nat)
    requires jumps <= more
    requires ScanLabels(msg, pos, jumps).Err? ==> !OutOfJumps(ScanLabels(msg, pos, jumps).error)
    ensures ScanLabels(msg, pos, more) == ScanLabels(msg, pos, jumps)
    decreases jumps, |msg| - pos
  {
    if pos < |msg| {
      var length := msg[pos];
      if length >= PointerTag && pos + 1 < |msg| && jumps > 0 {
        var target := PointerTarget(msg, pos);
        ScanPointer(msg, pos, jumps);
        ScanPointer(msg, pos, more);
        var inner := ScanLabels(msg, target, jumps - 1);
        assert inner.Err? ==> DecodeName(msg, target, jumps - 1) == Err(inner.error);
        ScanMoreJumps(msg, target, jumps - 1, more - 1);
      } else if 0 < length < PointerTag && pos + 1 + length <= |msg| {
        ScanOneLabel(msg, pos, jumps);
        ScanOneLabel(msg, pos, more);
        ScanMoreJumps(msg, pos + 1 + length, jumps, more);
      }
    }
  }

  /**
   * The jump budget only decides whether decoding gives up: a result that
   * is not a give-up stays the same with any larger budget.
   */
  lemma DecodeMoreJumps(msg: seq<byte>, offset: nat, jumps: nat, more: nat)
    requires jumps <= more
    requires DecodeName(msg, offset, jumps).Err? ==> !OutOfJumps(DecodeName(msg, offset, jumps).error)
    ensures DecodeName(msg, offset, more) == DecodeName(msg, offset, jumps)
  {
    ScanMoreJumps(msg, offset, jumps, more);
  }

  /**
   * The three ways decoding fails at the byte it is reading: no byte there,
   * a pointer without its second byte, a label running past the end; and a
   * zero byte there is the empty name of one byte.
   */
  lemma DecodeFirstByte(msg: seq<byte>, offset: nat, jumps: nat)
    ensures offset >= |msg| ==> DecodeName(msg, offset, jumps) == Err(OffsetOutOfBounds(offset))
    ensures offset < |msg| && msg[offset] == 0 ==> DecodeName(msg, offset, jumps) == Ok(Decoded([], 1))
    ensures offset + 1 == |msg| && msg[offset] >= PointerTag ==> DecodeName(msg, offset, jumps) == Err(MalformedPointer(offset))
    ensures offset < |msg| && 0 < msg[offset] < PointerTag && offset + 1 + msg[offset] > |msg|
         ==> DecodeName(msg, offset, jumps) == Err(LabelOverrun(msg[offset]))
  {
    assert Join<byte>([] + [], Dot) == [];
  }

  /**
   * The same three failures, and the same end of the name, at the byte
   * reached after uncompressed labels: the loop stops there with the error
   * of that byte, whatever labels it has already read.
   */
  lemma DecodeAfterLabels(msg: seq<byte>, offset: nat, segments: seq<seq<byte>>, p: nat, jumps: nat)
    requires PlainSegments(segments) && StoredAt(msg, offset, EncodeLabels(segments).value)
    requires p == offset + |EncodeLabels(segments).value|
    ensures p >= |msg| ==> DecodeName(msg, offset, jumps) == Err(OffsetOutOfBounds(p))
    ensures p < |msg| && msg[p] == 0 ==> DecodeName(msg, offset, jumps) == Ok(Decoded(Join(segments, Dot), p - offset + 1))
    ensures p + 1 == |msg| && msg[p] >= PointerTag ==> DecodeName(msg, offset, jumps) == Err(MalformedPointer(p))
    ensures p < |msg| && 0 < msg[p] < PointerTag && p + 1 + msg[p] > |msg|
         ==> DecodeName(msg, offset, jumps) == Err(LabelOverrun(msg[p]))
  {
    var tail := ScanLabels(msg, p, jumps);
    assert DecodeName(msg, offset, jumps) == Resume([], offset, Prepend(segments, tail)) by {
      ScanPrefix(msg, offset, segments, jumps);
    }
    ResumePrefix(segments, offset, tail);
    if p >= |msg| {
      assert tail == Err(OffsetOutOfBounds(p)) by { ScanFirstByte(msg, p, jumps); }
    } else if msg[p] == 0 {
      assert tail == Ok(Scanned([], p + 1)) by { ScanFirstByte(msg, p, jumps); }
    } else if p + 1 == |msg| && msg[p] >= PointerTag {
      assert tail == Err(MalformedPointer(p)) by { ScanFirstByte(msg, p, jumps); }
    } else if 0 < msg[p] < PointerTag && p + 1 + msg[p] > |msg| {
      assert tail == Err(LabelOverrun(msg[p])) by { ScanFirstByte(msg, p, jumps); }
    }
  }

  /** Labels read before a scan that fails, or that ends the name at once. */
  lemma ResumePrefix(segments: seq<seq<byte>>, offset: nat, tail: Result<Scanned, DecodeError>)
    requires tail.Ok? ==> offset <= tail.value.end
    ensures tail.Err? ==> Resume([], offset, Prepend(segments, tail)) == Err(tail.error)
    ensures tail.Ok? && tail.value.labels == []
         ==> Resume([], offset, Prepend(segments, tail)) == Ok(Decoded(Join(segments, Dot), tail.value.end - offset))
  {
    if tail.Ok? {
      assert [] + (segments + tail.value.labels) == segments + tail.value.labels;
      assert segments + [] == segments;
    }
  }

  /** The first byte a scan reads decides the three failures and the end of the name. */
  lemma ScanFirstByte(msg: seq<byte>, pos: nat, jumps: nat)
    ensures pos >= |msg| ==> ScanLabels(msg, pos, jumps) == Err(OffsetOutOfBounds(pos))
    ensures pos < |msg| && msg[pos] == 0 ==> ScanLabels(msg, pos, jumps) == Ok(Scanned([], pos + 1))
    ensures pos + 1 == |msg| && msg[pos] >= PointerTag ==> ScanLabels(msg, pos, jumps) == Err(MalformedPointer(pos))
    ensures pos < |msg| && 0 < msg[pos] < PointerTag && pos + 1 + msg[pos] > |msg|
         ==> ScanLabels(msg, pos, jumps) == Err(LabelOverrun(msg[pos]))
  {
  }

  /** A second label whose length byte reaches past the end: [3]abc[5]x. */
  lemma DecodeOverrunExample(msg: seq<byte>)
    requires msg == [3, 97, 98, 99, 5, 120]
    ensures DecodeAt(msg, 0) == Err(LabelOverrun(5))
  {
    var abc: seq<byte> := [97, 98, 99];
    OneLabelStored(msg, abc);
    DecodeAfterLabels(msg, 0, [abc], 4, JumpBudget(msg));
  }

  /** A pointer that lacks its second byte after one label: [1]a[0xC0]. */
  lemma DecodeMalformedExample(msg: seq<byte>)
    requires msg == [1, 97, 0xC0]
    ensures DecodeAt(msg, 0) == Err(MalformedPointer(2))
  {
    var a: seq<byte> := [97];
    OneLabelStored(msg, a);
    DecodeAfterLabels(msg, 0, [a], 2, JumpBudget(msg));
  }

  /** A label of 1 to 63 bytes written at the start of the message is its encoding there. */
  lemma OneLabelStored(msg: seq<byte>, segment: seq<byte>)
    requires 1 <= |segment| <= MaxLabelLength && |segment| < |msg|
    requires msg[0] as int == |segment| && msg[1..1 + |segment|] == segment
    ensures PlainSegments([segment]) && EncodeLabels([segment]) == Ok([msg[0]] + segment)
    ensures StoredAt(msg, 0, EncodeLabels([segment]).value)
  {
    var segments := [segment];
    var none: seq<byte> := [];
    assert |segments[1..]| == 0;
    assert EncodeLabels(segments[1..]) == Ok(none);
    var enc := [msg[0]] + segment;
    assert enc == [|segments[0]|] + segments[0] + none;
    assert msg[0..1 + |segment|] == enc;
    StoredSlice(msg, 0, enc);
  }

  /** The `width` bytes from `i` on equal those from `j` on. */
  predicate SameBytes(msg: seq<byte>, i: nat, j: nat, width: nat)
  {
    i + width <= |msg| && j + width <= |msg| && forall k :: 0 <= k < width ==> ByteAt(msg, i, k) == ByteAt(msg, j, k)
  }

  /** The byte `k` places after position `i`. */
  function ByteAt(msg: seq<byte>, i: nat, k: nat): byte
    requires i + k < |msg|
  {
    msg[i + k]
  }

  lemma SameBytesSlice(msg: seq<byte>, i: nat, j: nat, width: nat)
    requires i + width <= |msg| && j + width <= |msg| && msg[i..i + width] == msg[j..j + width]
    ensures SameBytes(msg, i, j, width)
  {
    forall k | 0 <= k < width ensures ByteAt(msg, i, k) == ByteAt(msg, j, k) {
      assert msg[i..i + width][k] == msg[j..j + width][k];
    }
  }

  /** The scan step of a pointer reads only its two bytes. */
  lemma SamePointer(msg: seq<byte>, i: nat, j: nat, jumps: nat)
    requires i + 1 < |msg| && j + 1 < |msg| && msg[i] == msg[j] && msg[i + 1] == msg[j + 1]
    requires msg[j] >= PointerTag
    requires ScanLabels(msg, j, jumps).Ok?
    ensures ScanLabels(msg, i, jumps)
         == Ok(Scanned(ScanLabels(msg, j, jumps).value.labels, ScanLabels(msg, j, jumps).value.end - j + i))
  {
    assert jumps >= 1;
    ScanPointer(msg, i, jumps);
    ScanPointer(msg, j, jumps);
  }

  /** The scan step of an ordinary label reads only the label's bytes. */
  lemma SameLabel(msg: seq<byte>, i: nat, j: nat, width: nat, jumps: nat) returns (step: nat)
    requires SameBytes(msg, i, j, width) && j < |msg| && 0 < msg[j] < PointerTag
    requires ScanLabels(msg, j, jumps).Ok? && ScanLabels(msg, j, jumps).value.end <= j + width
    ensures step == 1 + msg[j] && step < width
    ensures SameBytes(msg, i + step, j + step, width - step)
    ensures ScanLabels(msg, j + step, jumps).Ok?
    ensures ScanLabels(msg, j + step, jumps).value.end <= j + step + (width - step)
    ensures ScanLabels(msg, i + step, jumps)
              == Ok(Scanned(ScanLabels(msg, j + step, jumps).value.labels,
                            ScanLabels(msg, j + step, jumps).value.end - (j + step) + (i + step)))
         ==> ScanLabels(msg, i, jumps)
              == Ok(Scanned(ScanLabels(msg, j, jumps).value.labels, ScanLabels(msg, j, jumps).value.end - j + i))
  {
    step := 1 + msg[j];
    assert ByteAt(msg, i, 0) == ByteAt(msg, j, 0);
    ScanStep(msg, j, step, jumps);
    ScanStep(msg, i, step, jumps);
    SameLabelBytes(msg, i, j, width, step);
    ShiftedScans(ScanLabels(msg, i, jumps), ScanLabels(msg, j, jumps), ScanLabels(msg, i + step, jumps),
                 ScanLabels(msg, j + step, jumps), msg[j + 1..j + step], i, j, step);
  }

  /** Equal runs of bytes hold equal labels and equal runs after them. */
  lemma SameLabelBytes(msg: seq<byte>, i: nat, j: nat, width: nat, step: nat)
    requires SameBytes(msg, i, j, width) && 1 <= step <= width
    ensures msg[i + 1..i + step] == msg[j + 1..j + step]
    ensures SameBytes(msg, i + step, j + step, width - step)
  {
    var labelI, labelJ := msg[i + 1..i + step], msg[j + 1..j + step];
    forall k | 0 <= k < step - 1 ensures labelI[k] == labelJ[k] {
      assert ByteAt(msg, i, 1 + k) == ByteAt(msg, j, 1 + k);
    }
    var nextI, nextJ := i + step, j + step;
    forall k | 0 <= k < width - step ensures ByteAt(msg, nextI, k) == ByteAt(msg, nextJ, k) {
      assert ByteAt(msg, i, step + k) == ByteAt(msg, j, step + k);
    }
  }

  /** A zero byte or a pointer ends both scans the same way. */
  lemma SameStop(msg: seq<byte>, i: nat, j: nat, width: nat, jumps: nat)
    requires SameBytes(msg, i, j, width) && j < |msg| && (msg[j] == 0 || msg[j] >= PointerTag)
    requires ScanLabels(msg, j, jumps).Ok? && ScanLabels(msg, j, jumps).value.end <= j + width
    ensures ScanLabels(msg, i, jumps)
         == Ok(Scanned(ScanLabels(msg, j, jumps).value.labels, ScanLabels(msg, j, jumps).value.end - j + i))
  {
    assert ByteAt(msg, i, 0) == ByteAt(msg, j, 0);
    if msg[j] >= PointerTag {
      assert j + 1 < |msg| && jumps >= 1;
      ScanPointer(msg, j, jumps);
      assert ByteAt(msg, i, 1) == ByteAt(msg, j, 1);
      SamePointer(msg, i, j, jumps);
    }
  }

  lemma {:induction false} ScanSameBytes(msg: seq<byte>, i: nat, j: nat, width: nat, jumps: nat)
    requires SameBytes(msg, i, j, width)
    requires ScanLabels(msg, j, jumps).Ok? && ScanLabels(msg, j, jumps).value.end <= j + width
    ensures ScanLabels(msg, i, jumps)
         == Ok(Scanned(ScanLabels(msg, j, jumps).value.labels, ScanLabels(msg, j, jumps).value.end - j + i))
    decreases |msg| - j
  {
    if msg[j] == 0 || msg[j] >= PointerTag {
      SameStop(msg, i, j, width, jumps);
    } else {
      var step := SameLabel(msg, i, j, width, jumps);
      ScanSameBytes(msg, i + step, j + step, width - step, jumps);
    }
  }

  /** Scans that agree after a common first label agree from its start. */
  lemma ShiftedScans(atI: Result<Scanned, DecodeError>, atJ: Result<Scanned, DecodeError>,
                     nextI: Result<Scanned, DecodeError>, nextJ: Result<Scanned, DecodeError>,
                     first: seq<byte>, i: nat, j: nat, step: nat)
    requires atJ.Ok? && nextJ.Ok? && nextJ.value.end == atJ.value.end && j + step <= nextJ.value.end
    requires atJ.value.labels == [first] + nextJ.value.labels
    requires atI == Prepend([first], nextI)
    ensures nextI == Ok(Scanned(nextJ.value.labels, nextJ.value.end - (j + step) + (i + step)))
        ==> atI == Ok(Scanned(atJ.value.labels, atJ.value.end - j + i))
  {
  }

  /**
   * Decoding depends only on the bytes of the name and on the message: the
   * same bytes found at another position decode to the same name with the
   * same byte count. (Pointer targets are absolute offsets.)
   */
  lemma DecodeSameBytes(msg: seq<byte>, i: nat, j: nat, width: nat, jumps: nat)
    requires i + width <= |msg| && j + width <= |msg| && msg[i..i + width] == msg[j..j + width]
    requires DecodeName(msg, j, jumps).Ok? && DecodeName(msg, j, jumps).value.consumed <= width
    ensures DecodeName(msg, i, jumps) == DecodeName(msg, j, jumps)
  {
    SameBytesSlice(msg, i, j, width);
    ScanSameBytes(msg, i, j, width, jumps);
  }
}
