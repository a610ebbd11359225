/**
 * dns/records.go: the record types the resolver knows by name, the resource
 * record of section 4.1.3 of RFC 1035, reading one record from a message,
 * and the human-readable rendering of a record's data.
 *
 * Rendered text is a Dafny `string`; the bytes of a Go string that end up in
 * it (a decoded name, a TXT string) are shown one byte per character.
 */
module Records {
  import opened Wire
  import opened Text
  import opened Message

  const TypeA: RecordType := 1
  const TypeNS: RecordType := 2
  const TypeCNAME: RecordType := 5
  const TypeMX: RecordType := 15
  const TypeTXT: RecordType := 16
  const TypeAAAA: RecordType := 28

  /** The six types that have a name of their own. */
  predicate KnownType(t: RecordType)
  {
    t == TypeA || t == TypeNS || t == TypeCNAME || t == TypeMX || t == TypeTXT || t == TypeAAAA
  }

  /** RecordType.String: the conventional name, or "TYPE" and the decimal value (RFC 3597). */
  function TypeString(t: RecordType): (s: string)
    ensures |s| > 0 && (KnownType(t) <==> s[0] != 'T' || s == "TXT")
  {
    match t
    case 1 => "A"
    case 28 => "AAAA"
    case 5 => "CNAME"
    case 15 => "MX"
    case 16 => "TXT"
    case 2 => "NS"
    case _ => "TYPE" + Decimal(t)
  }

  /** Every type has its own name: the value can be read back from the name of an unknown type. */
  lemma TypeStringUnknown(t: RecordType)
    requires !KnownType(t)
    ensures TypeString(t)[..4] == "TYPE" && ValueOf(TypeString(t)[4..], 10) == t
  {
    var s := TypeString(t);
    assert s[4..] == Decimal(t);
    DigitsRoundTrip(t, 10);
  }

  lemma TypeStringInjective(a: RecordType, b: RecordType)
    requires TypeString(a) == TypeString(b)
    ensures a == b
  {
    if !KnownType(a) && !KnownType(b) {
      TypeStringUnknown(a);
      TypeStringUnknown(b);
    }
  }

  /** A resource record as ParseResourceRecord fills it in. */
  datatype ResourceRecord = ResourceRecord(
    name: seq<byte>, rtype: RecordType, rrClass: u16, ttl: u32, rdLength: u16, rdata: seq<byte>)

  datatype RecordError =
    | OwnerNameFailed(cause: DecodeError)
    | TruncatedRecordHeader
    | RecordDataOverrun

  /** A parsed record and the absolute offset of the byte just after it. */
  datatype ParsedRecord = ParsedRecord(rr: ResourceRecord, next: nat)

  /** The owner name's length in bytes, the ten fixed bytes, and the data. */
  const FixedFieldsSize := 10

  /**
   * ParseResourceRecord: the owner name (compression allowed), then type,
   * class, TTL and RDLENGTH big-endian, then RDLENGTH bytes of data. Each
   * error case is exactly the failure of the step that reads too far.
   */
  function ParseResourceRecord(msg: seq<byte>, offset: nat): (r: Result<ParsedRecord, RecordError>)
  {
    match DecodeAt(msg, offset)
    case Err(e) => Err(OwnerNameFailed(e))
    case Ok(owner) =>
      var pos := offset + owner.consumed;
      if pos + FixedFieldsSize > |msg| then Err(TruncatedRecordHeader)
      else
        var rdLength := Uint16At(msg, pos + 8);
        var start := pos + FixedFieldsSize;
        if start + rdLength > |msg| then Err(RecordDataOverrun)
        else
          Ok(ParsedRecord(
            ResourceRecord(owner.name, Uint16At(msg, pos), Uint16At(msg, pos + 2), Uint32At(msg, pos + 4),
                           rdLength, msg[start..start + rdLength]),
            start + rdLength))
  }

  /**
   * What ParseResourceRecord reads: each error is exactly the failure of the
   * step that would read too far, and a record is the owner name, type,
   * class, TTL and RDLENGTH big-endian, and then RDLENGTH bytes of data; the
   * offset returned is absolute, just after the data.
   */
  lemma RecordLayout(msg: seq<byte>, offset: nat)
    ensures var r := ParseResourceRecord(msg, offset);
      && (r.Err? && r.error.OwnerNameFailed? <==> DecodeAt(msg, offset).Err?)
      && (r == Err(TruncatedRecordHeader)
          <==> DecodeAt(msg, offset).Ok? && offset + DecodeAt(msg, offset).value.consumed + FixedFieldsSize > |msg|)
      && (r == Err(RecordDataOverrun)
          <==> && DecodeAt(msg, offset).Ok?
               && var fixed := offset + DecodeAt(msg, offset).value.consumed;
               && fixed + FixedFieldsSize <= |msg|
               && fixed + FixedFieldsSize + Uint16At(msg, fixed + 8) > |msg|)
      && (r.Ok? ==>
            var fixed := offset + DecodeAt(msg, offset).value.consumed;
            && r.value.rr.name == DecodeAt(msg, offset).value.name
            && r.value.next == fixed + FixedFieldsSize + r.value.rr.rdLength
            && r.value.rr.rtype == Uint16At(msg, fixed) && r.value.rr.rrClass == Uint16At(msg, fixed + 2)
            && r.value.rr.ttl == Uint32At(msg, fixed + 4) && r.value.rr.rdLength == Uint16At(msg, fixed + 8)
            && r.value.rr.rdata == msg[fixed + FixedFieldsSize..r.value.next])
  {
  }

  /** A record whose owner name can be written uncompressed and whose RDLENGTH matches its data. */
  predicate WellFormed(rr: ResourceRecord)
  {
    PlainName(rr.name) && |rr.rdata| == rr.rdLength
  }

  /** The wire form of a record with an uncompressed owner name: the inverse of ParseResourceRecord. */
  function PackRecord(rr: ResourceRecord): (r: seq<byte>)
    requires WellFormed(rr)
    ensures |r| == |rr.name| + 2 + FixedFieldsSize + rr.rdLength
  {
    EncodeName(rr.name).value
    + (BigEndian16(rr.rtype) + BigEndian16(rr.rrClass) + BigEndian32(rr.ttl) + BigEndian16(rr.rdLength))
    + rr.rdata
  }

  /** The ten fixed bytes read back as the fields they were written from. */
  lemma FixedFieldsAt(msg: seq<byte>, pos: nat, rr: ResourceRecord)
    requires StoredAt(msg, pos, BigEndian16(rr.rtype) + BigEndian16(rr.rrClass) + BigEndian32(rr.ttl) + BigEndian16(rr.rdLength))
    ensures pos + FixedFieldsSize <= |msg|
    ensures Uint16At(msg, pos) == rr.rtype && Uint16At(msg, pos + 2) == rr.rrClass
    ensures Uint32At(msg, pos + 4) == rr.ttl && Uint16At(msg, pos + 8) == rr.rdLength
  {
    var fixed := BigEndian16(rr.rtype) + BigEndian16(rr.rrClass) + BigEndian32(rr.ttl) + BigEndian16(rr.rdLength);
    assert At(msg, pos, 0) == fixed[0] && At(msg, pos, 1) == fixed[1] && At(msg, pos, 2) == fixed[2];
    assert At(msg, pos, 3) == fixed[3] && At(msg, pos, 4) == fixed[4] && At(msg, pos, 5) == fixed[5];
    assert At(msg, pos, 6) == fixed[6] && At(msg, pos, 7) == fixed[7];
    assert At(msg, pos, 8) == fixed[8] && At(msg, pos, 9) == fixed[9];
  }

  /**
   * Round trip: a well-formed record written at `offset` is read back whole,
   * and the returned offset is the first byte after it.
   */
  lemma RecordRoundTrip(msg: seq<byte>, offset: nat, rr: ResourceRecord)
    requires WellFormed(rr) && StoredAt(msg, offset, PackRecord(rr))
    ensures ParseResourceRecord(msg, offset) == Ok(ParsedRecord(rr, offset + |PackRecord(rr)|))
  {
    RecordParts(msg, offset, rr);
    ParsedFromParts(msg, offset, rr, |rr.name| + 2);
  }

  /** Where the owner name, the fixed fields and the data of a written record are read back. */
  lemma RecordParts(msg: seq<byte>, offset: nat, rr: ResourceRecord)
    requires WellFormed(rr) && StoredAt(msg, offset, PackRecord(rr))
    ensures var pos := offset + |rr.name| + 2;
      && DecodeAt(msg, offset) == Ok(Decoded(rr.name, |rr.name| + 2))
      && pos + FixedFieldsSize + rr.rdLength <= |msg|
      && Uint16At(msg, pos) == rr.rtype && Uint16At(msg, pos + 2) == rr.rrClass
      && Uint32At(msg, pos + 4) == rr.ttl && Uint16At(msg, pos + 8) == rr.rdLength
      && msg[pos + FixedFieldsSize..pos + FixedFieldsSize + rr.rdLength] == rr.rdata
  {
    var name := EncodeName(rr.name).value;
    var fixed := BigEndian16(rr.rtype) + BigEndian16(rr.rrClass) + BigEndian32(rr.ttl) + BigEndian16(rr.rdLength);
    StoredSplit(msg, offset, PackRecord(rr), name + fixed, rr.rdata);
    StoredSplit(msg, offset, name + fixed, name, fixed);
    StoredSlice(msg, offset + |name| + FixedFieldsSize, rr.rdata);
    DecodeEncoded(msg, offset, rr.name, JumpBudget(msg));
    FixedFieldsAt(msg, offset + |name|, rr);
  }

  /** The parse of a record whose owner name and fields are known. */
  lemma ParsedFromParts(msg: seq<byte>, offset: nat, rr: ResourceRecord, consumed: nat)
    requires DecodeAt(msg, offset) == Ok(Decoded(rr.name, consumed))
    requires offset + consumed + FixedFieldsSize + rr.rdLength <= |msg|
    requires Uint16At(msg, offset + consumed) == rr.rtype && Uint16At(msg, offset + consumed + 2) == rr.rrClass
    requires Uint32At(msg, offset + consumed + 4) == rr.ttl && Uint16At(msg, offset + consumed + 8) == rr.rdLength
    requires msg[offset + consumed + FixedFieldsSize..offset + consumed + FixedFieldsSize + rr.rdLength] == rr.rdata
    ensures ParseResourceRecord(msg, offset) == Ok(ParsedRecord(rr, offset + consumed + FixedFieldsSize + rr.rdLength))
  {
  }

  /** A record whose last data byte is missing from the message is refused, not read short. */
  lemma TruncatedRecord(rr: ResourceRecord)
    requires WellFormed(rr) && rr.rdLength > 0
    ensures ParseResourceRecord(PackRecord(rr)[..|PackRecord(rr)| - 1], 0) == Err(RecordDataOverrun)
  {
    var packed := PackRecord(rr);
    var msg := packed[..|packed| - 1];
    var name := EncodeName(rr.name).value;
    var fixed := BigEndian16(rr.rtype) + BigEndian16(rr.rrClass) + BigEndian32(rr.ttl) + BigEndian16(rr.rdLength);
    assert |fixed| == FixedFieldsSize && packed == name + fixed + rr.rdata;
    assert DecodeAt(msg, 0) == Ok(Decoded(rr.name, |name|)) by {
      assert msg[0..|rr.name| + 2] == name;
      StoredSlice(msg, 0, name);
      DecodeEncoded(msg, 0, rr.name, JumpBudget(msg));
    }
    assert Uint16At(packed, |name| + 8) == rr.rdLength by {
      assert packed[|name|..|name| + FixedFieldsSize] == fixed;
      StoredSlice(packed, |name|, fixed);
      FixedFieldsAt(packed, |name|, rr);
    }
    assert msg[|name| + 8] == packed[|name| + 8] && msg[|name| + 9] == packed[|name| + 9];
  }

  // ---------------------------------------------------------------------------
  // Rendering record data
  // ---------------------------------------------------------------------------

  /** `needle` occurs in `hay` at position `k`. */
  predicate OccursAt(hay: seq<byte>, needle: seq<byte>, k: nat)
  {
    k + |needle| <= |hay| && hay[k..k + |needle|] == needle
  }

  /** bytes.Index from position `from` on: the least position of an occurrence, or None (Go's -1). */
  function IndexFrom(hay: seq<byte>, needle: seq<byte>, from: nat): (r: Option<nat>)
    ensures r.Some? ==> from <= r.value && OccursAt(hay, needle, r.value)
    ensures r.Some? ==> forall k :: from <= k < r.value ==> !OccursAt(hay, needle, k)
    ensures r.None? ==> forall k :: from <= k ==> !OccursAt(hay, needle, k)
    decreases |hay| - from
  {
    if from + |needle| > |hay| then None
    else if hay[from..from + |needle|] == needle then Some(from)
    else IndexFrom(hay, needle, from + 1)
  }

  function Index(hay: seq<byte>, needle: seq<byte>): Option<nat>
  {
    IndexFrom(hay, needle, 0)
  }

  /** A Go string shown as text: one character per byte. */
  function Latin(bytes: seq<byte>): (s: string)
    ensures |s| == |bytes| && forall i :: 0 <= i < |s| ==> s[i] as int == bytes[i]
  {
    seq(|bytes|, i requires 0 <= i < |bytes| => bytes[i] as char)
  }

  /** Go's `%q`, for text without quotes, backslashes or unprintable characters: the text in double quotes. */
  function Quote(s: string): (q: string)
    ensures |q| == |s| + 2 && q[0] == '"' && q[|q| - 1] == '"' && q[1..|q| - 1] == s
  {
    "\"" + s + "\""
  }

  /** Go's `%v` of a byte slice: the decimal bytes between brackets, separated by spaces. */
  function ByteList(bytes: seq<byte>): (s: string)
    ensures |s| >= 2 && s[0] == '[' && s[|s| - 1] == ']'
  {
    "[" + Join(DecimalAll(bytes), ' ') + "]"
  }

  function DecimalAll(bytes: seq<byte>): (parts: seq<string>)
    ensures |parts| == |bytes| && forall i :: 0 <= i < |bytes| ==> parts[i] == Decimal(bytes[i])
  {
    seq(|bytes|, i requires 0 <= i < |bytes| => Decimal(bytes[i]))
  }

  /** The text shown when no rendering applies. */
  function Unsupported(rdata: seq<byte>): (s: string)
    ensures |s| > |ByteList(rdata)| && s[|s| - |ByteList(rdata)| - 1..|s| - 1] == ByteList(rdata) && s[|s| - 1] == ')'
  {
    "unsupported record type or malformed data (" + ByteList(rdata) + ")"
  }

  /** The eight 16-bit groups of an IPv6 address in lower-case hexadecimal, without zero compression. */
  function HexGroups(data: seq<byte>): (groups: seq<string>)
    requires |data| % 2 == 0
    ensures |groups| == |data| / 2
    ensures forall k :: 0 <= k < |groups| ==> groups[k] == Hex(Uint16At(data, 2 * k))
    ensures forall k :: 0 <= k < |groups| ==> 1 <= |groups[k]| <= 4 && ValueOf(groups[k], 16) == Uint16At(data, 2 * k)
  {
    var groups := seq(|data| / 2, k requires 0 <= k < |data| / 2 => Hex(Uint16At(data, 2 * k)));
    HexWords(data, groups);
    groups
  }

  /** `%x` of a 16-bit word: one to four digits that read back as the word. */
  lemma HexWord(n: nat)
    requires n < 0x1_0000
    ensures 1 <= |Hex(n)| <= 4 && ValueOf(Hex(n), 16) == n
  {
    assert Power(16, 4) == 0x1_0000 by {
      assert Power(16, 2) == 0x100;
    }
    DigitsWidth(n, 16, 4);
    DigitsRoundTrip(n, 16);
  }

  lemma HexWords(data: seq<byte>, groups: seq<string>)
    requires 2 * |groups| <= |data|
    requires forall k :: 0 <= k < |groups| ==> groups[k] == Hex(Uint16At(data, 2 * k))
    ensures forall k :: 0 <= k < |groups| ==> 1 <= |groups[k]| <= 4 && ValueOf(groups[k], 16) == Uint16At(data, 2 * k)
  {
    forall k | 0 <= k < |groups| ensures 1 <= |groups[k]| <= 4 && ValueOf(groups[k], 16) == Uint16At(data, 2 * k) {
      HexWord(Uint16At(data, 2 * k));
    }
  }

  /**
   * The character-strings of TXT data, each a length byte and that many
   * bytes; reading stops at the first length byte that runs past the end.
   */
  function TxtStrings(data: seq<byte>): (strs: seq<seq<byte>>)
    ensures forall i :: 0 <= i < |strs| ==> |strs[i]| < 0x100
    decreases |data|
  {
    if |data| == 0 then []
    else if |data| > data[0] then [data[1..1 + data[0]]] + TxtStrings(data[1 + data[0]..])
    else []
  }

  function QuoteAll(strs: seq<seq<byte>>): (texts: seq<string>)
    ensures |texts| == |strs| && forall i :: 0 <= i < |strs| ==> texts[i] == Quote(Latin(strs[i]))
  {
    seq(|strs|, i requires 0 <= i < |strs| => Quote(Latin(strs[i])))
  }

  /**
   * RDataString: the record data as text. The data of CNAME, NS and MX
   * records is located in `msg` by its first occurrence there, and decoded
   * from that position, so that compression pointers resolve.
   */
  function RDataText(rr: ResourceRecord, msg: seq<byte>): (s: string)
    ensures s == "" ==> rr.rtype == TypeTXT || rr.rtype == TypeCNAME || rr.rtype == TypeNS
  {
    var rdata := rr.rdata;
    if rr.rtype == TypeA && |rdata| == 4 then
      Join([Decimal(rdata[0]), Decimal(rdata[1]), Decimal(rdata[2]), Decimal(rdata[3])], '.')
    else if rr.rtype == TypeAAAA && |rdata| == 16 then
      Join(HexGroups(rdata), ':')
    else if rr.rtype == TypeCNAME || rr.rtype == TypeNS then
      match Index(msg, rdata)
      case None => "invalid CNAME/NS data"
      case Some(start) =>
        match DecodeAt(msg, start)
        case Ok(target) => Latin(target.name)
        case Err(_) => Unsupported(rdata)
    else if rr.rtype == TypeMX && |rdata| > 2 then
      match Index(msg, rdata)
      case None => "invalid MX data"
      case Some(start) =>
        match DecodeAt(msg, start + 2)
        case Ok(exchange) => Decimal(Uint16At(rdata, 0)) + " " + Latin(exchange.name)
        case Err(_) => Unsupported(rdata)
    else if rr.rtype == TypeTXT then
      Join(QuoteAll(TxtStrings(rdata)), ' ')
    else Unsupported(rdata)
  }

  /** RDataString, with its two loops: the AAAA groups two bytes at a time and the TXT strings one at a time. */
  method RDataString(rr: ResourceRecord, msg: seq<byte>) returns (s: string)
    ensures s == RDataText(rr, msg)
  {
    if rr.rtype == TypeAAAA && |rr.rdata| == 16 {
      var parts := HexParts(rr.rdata);
      return Join(parts, ':');
    }
    if rr.rtype == TypeTXT {
      var texts := TxtTexts(rr.rdata);
      return Join(texts, ' ');
    }
    return RDataText(rr, msg);
  }

  /** The AAAA loop of RDataString: one `%x` group per two bytes. */
  method HexParts(rdata: seq<byte>) returns (parts: seq<string>)
    requires |rdata| == 16
    ensures parts == HexGroups(rdata)
  {
    parts := [];
    var i := 0;
    while i < 16
      invariant i % 2 == 0 && i <= 16
      invariant |parts| == i / 2
      invariant forall k :: 0 <= k < |parts| ==> parts[k] == Hex(Uint16At(rdata, 2 * k))
    {
      parts := parts + [Hex(Uint16At(rdata, i))];
      i := i + 2;
    }
  }

  /** The TXT loop of RDataString: each character-string quoted, until a length byte runs past the end. */
  method TxtTexts(rdata: seq<byte>) returns (texts: seq<string>)
    ensures texts == QuoteAll(TxtStrings(rdata))
  {
    texts := [];
    ghost var seen: seq<seq<byte>> := [];
    var data := rdata;
    while |data| > 0
      invariant TxtStrings(rdata) == seen + TxtStrings(data)
      invariant texts == QuoteAll(seen)
    {
      var length := data[0];
      if |data| > length {
        texts := texts + [Quote(Latin(data[1..1 + length]))];
        seen := seen + [data[1..1 + length]];
        data := data[1 + length..];
      } else {
        break;
      }
    }
    assert TxtStrings(data) == [];
    assert seen + [] == seen;
  }

  // ---------------------------------------------------------------------------
  // Properties of the rendering
  // ---------------------------------------------------------------------------

  /** A rendered number contains no separator character. */
  lemma DigitsFree(n: nat, base: nat, sep: char)
    requires 2 <= base <= 16 && !IsDigit(sep, base)
    ensures sep !in Digits(n, base)
  {
    var s := Digits(n, base);
    forall i | 0 <= i < |s| ensures s[i] != sep {
      assert IsDigit(s[i], base);
    }
  }

  /**
   * An A record shows the dotted quad: split on '.', the text has four
   * parts, and the i-th reads back as the i-th address byte.
   */
  lemma DottedQuad(rr: ResourceRecord, msg: seq<byte>)
    requires rr.rtype == TypeA && |rr.rdata| == 4
    ensures |Split(RDataText(rr, msg), '.')| == 4
    ensures forall i :: 0 <= i < 4 ==> ValueOf(Split(RDataText(rr, msg), '.')[i], 10) == rr.rdata[i]
  {
    var parts := [Decimal(rr.rdata[0]), Decimal(rr.rdata[1]), Decimal(rr.rdata[2]), Decimal(rr.rdata[3])];
    forall i | 0 <= i < 4 ensures '.' !in parts[i] && ValueOf(parts[i], 10) == rr.rdata[i] {
      DigitsFree(rr.rdata[i], 10, '.');
      DigitsRoundTrip(rr.rdata[i], 10);
    }
    SplitJoin(parts, '.');
  }

  /** A join of four parts written out. */
  lemma JoinFour<T>(a: seq<T>, b: seq<T>, c: seq<T>, d: seq<T>, sep: T)
    ensures Join([a, b, c, d], sep) == a + [sep] + b + [sep] + c + [sep] + d
  {
    var parts := [a, b, c, d];
    assert parts[1..] == [b, c, d] && parts[1..][1..] == [c, d] && parts[1..][1..][1..] == [d];
    assert Join([d], sep) == d;
    assert Join([c, d], sep) == c + [sep] + d;
    assert Join([b, c, d], sep) == b + [sep] + (c + [sep] + d);
  }

  /** 93.184.216.34 */
  lemma DottedQuadExample(rr: ResourceRecord)
    requires rr.rtype == TypeA && rr.rdata == [93, 184, 216, 34]
    ensures RDataText(rr, []) == "93.184.216.34"
  {
    ExampleDecimals();
    JoinFour("93", "184", "216", "34", '.');
  }

  lemma ExampleDecimals()
    ensures Decimal(93) == "93" && Decimal(184) == "184" && Decimal(216) == "216" && Decimal(34) == "34"
  {
    assert Decimal(9) == "9" && Decimal(3) == "3" && Decimal(1) == "1" && Decimal(8) == "8";
    assert Decimal(4) == "4" && Decimal(2) == "2" && Decimal(6) == "6";
    assert Decimal(93) == Decimal(9) + "3";
    assert Decimal(18) == Decimal(1) + "8";
    assert Decimal(184) == Decimal(18) + "4";
    assert Decimal(21) == Decimal(2) + "1";
    assert Decimal(216) == Decimal(21) + "6";
    assert Decimal(34) == Decimal(3) + "4";
    assert "9" + "3" == "93" && "18" + "4" == "184" && "21" + "6" == "216" && "3" + "4" == "34";
    assert "1" + "8" == "18" && "2" + "1" == "21";
  }

  /**
   * An AAAA record shows eight colon-separated groups, the k-th of which
   * reads back, in base 16, as the k-th 16-bit word of the address.
   */
  lemma ColonGroups(rr: ResourceRecord, msg: seq<byte>)
    requires rr.rtype == TypeAAAA && |rr.rdata| == 16
    ensures |Split(RDataText(rr, msg), ':')| == 8
    ensures forall k :: 0 <= k < 8 ==> ValueOf(Split(RDataText(rr, msg), ':')[k], 16) == Uint16At(rr.rdata, 2 * k)
  {
    var groups := HexGroups(rr.rdata);
    forall k | 0 <= k < 8 ensures ':' !in groups[k] && ValueOf(groups[k], 16) == Uint16At(rr.rdata, 2 * k) {
      DigitsFree(Uint16At(rr.rdata, 2 * k), 16, ':');
      DigitsRoundTrip(Uint16At(rr.rdata, 2 * k), 16);
    }
    SplitJoin(groups, ':');
  }

  /**
   * Locating CNAME/NS data by its first occurrence is sound when the name
   * lies inside the data: whichever copy is found, it decodes to the name
   * at the record's own position.
   */
  lemma AliasFromAnyCopy(rr: ResourceRecord, msg: seq<byte>, at: nat)
    requires rr.rtype == TypeCNAME || rr.rtype == TypeNS
    requires OccursAt(msg, rr.rdata, at)
    requires DecodeAt(msg, at).Ok? && DecodeAt(msg, at).value.consumed <= |rr.rdata|
    ensures RDataText(rr, msg) == Latin(DecodeAt(msg, at).value.name)
  {
    var found := Index(msg, rr.rdata);
    assert found.Some? && found.value <= at;
    var w := |rr.rdata|;
    DecodeSameBytes(msg, found.value, at, w, JumpBudget(msg));
  }

  /**
   * MX data is located by its first occurrence in the message and the
   * exchange decoded two bytes further on, after the preference. As for
   * CNAME and NS, whichever copy is found, the exchange shown is the one at
   * the record's own position when that name lies inside the data.
   */
  lemma MxFromAnyCopy(rr: ResourceRecord, msg: seq<byte>, at: nat)
    requires rr.rtype == TypeMX && |rr.rdata| > 2
    requires OccursAt(msg, rr.rdata, at)
    requires DecodeAt(msg, at + 2).Ok? && DecodeAt(msg, at + 2).value.consumed <= |rr.rdata| - 2
    ensures RDataText(rr, msg) == Decimal(Uint16At(rr.rdata, 0)) + " " + Latin(DecodeAt(msg, at + 2).value.name)
  {
    var found := Index(msg, rr.rdata);
    assert found.Some? && found.value <= at by {
      assert OccursAt(msg, rr.rdata, at);
    }
    var start, w := found.value, |rr.rdata|;
    assert DecodeAt(msg, start + 2) == DecodeAt(msg, at + 2) by {
      assert msg[start + 2..start + w] == msg[at + 2..at + w] by {
        assert msg[start..start + w] == msg[at..at + w];
        assert msg[start + 2..start + w] == msg[start..start + w][2..];
        assert msg[at + 2..at + w] == msg[at..at + w][2..];
      }
      DecodeSameBytes(msg, start + 2, at + 2, w - 2, JumpBudget(msg));
    }
  }

  /** MX data found nowhere in the message shows as invalid; CNAME and NS data likewise. */
  lemma DataNotFound(rr: ResourceRecord, msg: seq<byte>)
    requires (rr.rtype == TypeMX && |rr.rdata| > 2) || rr.rtype == TypeCNAME || rr.rtype == TypeNS
    requires forall k :: !OccursAt(msg, rr.rdata, k)
    ensures rr.rtype == TypeMX ==> RDataText(rr, msg) == "invalid MX data"
    ensures rr.rtype != TypeMX ==> RDataText(rr, msg) == "invalid CNAME/NS data"
  {
  }

  /** Against the empty message printResponse passes, MX data with an exchange shows as invalid. */
  lemma MxWithoutMessage(rr: ResourceRecord)
    requires rr.rtype == TypeMX && |rr.rdata| > 2
    ensures RDataText(rr, []) == "invalid MX data"
  {
  }

  /**
   * The placeholder text for data of a type without a rendering, A data that
   * is not four bytes, AAAA data that is not sixteen, and MX data of two
   * bytes or fewer.
   */
  lemma Placeholder(rr: ResourceRecord, msg: seq<byte>)
    ensures !KnownType(rr.rtype) ==> RDataText(rr, msg) == Unsupported(rr.rdata)
    ensures rr.rtype == TypeA && |rr.rdata| != 4 ==> RDataText(rr, msg) == Unsupported(rr.rdata)
    ensures rr.rtype == TypeAAAA && |rr.rdata| != 16 ==> RDataText(rr, msg) == Unsupported(rr.rdata)
    ensures rr.rtype == TypeMX && |rr.rdata| <= 2 ==> RDataText(rr, msg) == Unsupported(rr.rdata)
  {
  }

  /** The placeholder text, too, for a name that does not decode where the data is found. */
  lemma PlaceholderUndecodable(rr: ResourceRecord, msg: seq<byte>)
    ensures (rr.rtype == TypeCNAME || rr.rtype == TypeNS) && Index(msg, rr.rdata).Some?
         && DecodeAt(msg, Index(msg, rr.rdata).value).Err?
         ==> RDataText(rr, msg) == Unsupported(rr.rdata)
    ensures rr.rtype == TypeMX && |rr.rdata| > 2 && Index(msg, rr.rdata).Some?
         && DecodeAt(msg, Index(msg, rr.rdata).value + 2).Err?
         ==> RDataText(rr, msg) == Unsupported(rr.rdata)
  {
  }

  /** MX data [0, 10, 2, 'm', 'x', 0] found at the start of the message shows as "10 mx". */
  lemma MxExample(rr: ResourceRecord)
    requires rr.rtype == TypeMX && rr.rdata == [0, 10, 2, 109, 120, 0]
    ensures RDataText(rr, rr.rdata) == "10 mx"
  {
    var msg := rr.rdata;
    var mx: seq<byte> := [109, 120];
    assert DecodeAt(msg, 2) == Ok(Decoded(mx, 4)) by {
      MxName(msg, mx);
    }
    assert OccursAt(msg, rr.rdata, 0) by {
      assert msg[0..6] == msg;
    }
    MxFromAnyCopy(rr, msg, 0);
    assert Decimal(Uint16At(rr.rdata, 0)) == "10" by {
      assert Decimal(10) == Decimal(1) + "0";
    }
    assert Latin(mx) == "mx";
  }

  /** The name "mx" written uncompressed at offset 2 is read back there. */
  lemma MxName(msg: seq<byte>, mx: seq<byte>)
    requires mx == [109, 120] && msg == [0, 10, 2, 109, 120, 0]
    ensures DecodeAt(msg, 2) == Ok(Decoded(mx, 4))
  {
    var segments: seq<seq<byte>> := [mx];
    var labels: seq<byte> := [2, 109, 120];
    var encoded: seq<byte> := labels + [0];
    assert Split(mx, Dot) == segments by {
      assert Dot !in mx && Join(segments, Dot) == mx;
      SplitJoin(segments, Dot);
    }
    assert EncodeName(mx) == Ok(encoded) by {
      assert |segments[1..]| == 0;
      var none: seq<byte> := [];
      assert EncodeLabels(segments[1..]) == Ok(none);
      assert labels == [|segments[0]|] + segments[0] + none;
    }
    assert msg[2..6] == encoded;
    StoredSlice(msg, 2, encoded);
    DecodeEncoded(msg, 2, mx, JumpBudget(msg));
  }

  /** The byte list of the placeholder holds the data bytes in decimal, one per space-separated part. */
  lemma ByteListRoundTrip(bytes: seq<byte>)
    requires |bytes| > 0
    ensures var s := ByteList(bytes);
      && |Split(s[1..|s| - 1], ' ')| == |bytes|
      && forall i :: 0 <= i < |bytes| ==> ValueOf(Split(s[1..|s| - 1], ' ')[i], 10) == bytes[i]
  {
    var parts := DecimalAll(bytes);
    forall i | 0 <= i < |parts| ensures ' ' !in parts[i] && ValueOf(parts[i], 10) == bytes[i] {
      DigitsFree(bytes[i], 10, ' ');
      DigitsRoundTrip(bytes[i], 10);
    }
    var s := ByteList(bytes);
    assert s[1..|s| - 1] == Join(parts, ' ');
    SplitJoin(parts, ' ');
  }

  /** The TXT character-strings of some texts. */
  function PackTxt(strs: seq<seq<byte>>): (data: seq<byte>)
    requires forall i :: 0 <= i < |strs| ==> |strs[i]| < 0x100
  {
    if strs == [] then [] else [|strs[0]|] + strs[0] + PackTxt(strs[1..])
  }

  /** Reading TXT data undoes writing it. */
  lemma {:induction false} TxtRoundTrip(strs: seq<seq<byte>>)
    requires forall i :: 0 <= i < |strs| ==> |strs[i]| < 0x100
    ensures TxtStrings(PackTxt(strs)) == strs
  {
    if strs != [] {
      var data := PackTxt(strs);
      var first := strs[0];
      TxtRoundTrip(strs[1..]);
      assert data[1..1 + |first|] == first;
      assert data[1 + |first|..] == PackTxt(strs[1..]);
    }
  }

  /** Empty TXT data shows as empty text; a length byte past the end ends the list. */
  lemma TxtEdges(rr: ResourceRecord, msg: seq<byte>)
    requires rr.rtype == TypeTXT
    ensures rr.rdata == [] ==> RDataText(rr, msg) == ""
    ensures |rr.rdata| > 0 && rr.rdata[0] >= |rr.rdata| ==> RDataText(rr, msg) == ""
  {
  }

  /**
   * printResponse renders answers against an empty message, so no CNAME or
   * NS data is ever found there: any such record with data shows as invalid.
   */
  lemma AliasWithoutMessage(rr: ResourceRecord)
    requires (rr.rtype == TypeCNAME || rr.rtype == TypeNS) && |rr.rdata| > 0
    ensures RDataText(rr, []) == "invalid CNAME/NS data"
  {
  }
}
