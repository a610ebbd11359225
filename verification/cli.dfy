/**
 * cmd/dsn-resolver/main.go: the helpers that describe a response header in
 * dig's words (getStatus, getFlags), and the choice of the record type from
 * the command line.
 */
module Cli {
  import opened Wire
  import opened Text
  import opened Message
  import opened Records
  import opened Resolver

  /** Go's `flags & mask` on a uint16. */
  function Mask(flags: u16, mask: bv16): bv16
  {
    (flags as bv16) & mask
  }

  // ---------------------------------------------------------------------------
  // getStatus
  // ---------------------------------------------------------------------------

  /**
   * getStatus: the name of the response code held in the low four bits
   * (`flags & 0x000F`, which is Rcode).
   */
  function Status(flags: u16): (s: string)
    ensures s == "NOERROR" <==> Rcode(flags) == 0
    ensures s == "NXDOMAIN" <==> Rcode(flags) == 3
    ensures s == "ERROR" <==> Rcode(flags) != 0 && Rcode(flags) != 3
  {
    if Rcode(flags) == 0 then "NOERROR"
    else if Rcode(flags) == 3 then "NXDOMAIN"
    else "ERROR"
  }

  /**
   * The status of a response that parsed: never NXDOMAIN, because a reply
   * with response code 3 is refused before it is printed; every code other
   * than 0, 2 and 3 shows as ERROR.
   */
  lemma StatusOfResponse(msg: seq<byte>)
    requires ResponseAsWritten(msg).Ok?
    ensures var flags := ResponseAsWritten(msg).value.header.flags;
      && flags == Uint16At(msg, 2)
      && Status(flags) != "NXDOMAIN"
      && (Status(flags) == "NOERROR" <==> Rcode(flags) == 0)
      && (Status(flags) == "ERROR" <==> Rcode(flags) != 0)
  {
    var h := ResponseAsWritten(msg).value.header;
    assert UnpackHeader(msg) == Ok(h);
    assert Uint16At(PackHeader(h), 2) == Uint16At(msg, 2) by {
      assert msg[..HeaderSize][2] == msg[2] && msg[..HeaderSize][3] == msg[3];
    }
  }

  // ---------------------------------------------------------------------------
  // getFlags
  // ---------------------------------------------------------------------------

  /** getFlags before the join: the names of the set flags among qr, aa, rd and ra, in that order. */
  function FlagNames(flags: u16): (names: seq<string>)
    ensures |names| <= 4
    ensures forall i :: 0 <= i < |names| ==> |names[i]| == 2 && ' ' !in names[i]
  {
    (if Mask(flags, 0x8000) != 0 then ["qr"] else [])
    + (if Mask(flags, 0x0400) != 0 then ["aa"] else [])
    + (if Mask(flags, 0x0100) != 0 then ["rd"] else [])
    + (if Mask(flags, 0x0080) != 0 then ["ra"] else [])
  }

  /** getFlags: the names of the set flags joined by single spaces. */
  function Flags(flags: u16): (s: string)
    ensures s == "" <==> FlagNames(flags) == []
  {
    var names := FlagNames(flags);
    if names == [] then Join(names, ' ')
    else
      JoinLength(names, ' ');
      assert TotalLength(names) >= 2;
      Join(names, ' ')
  }

  /** Bit `bit` (a power of two) is set in `flags`, stated with arithmetic. */
  predicate BitSet(flags: u16, bit: nat)
  {
    bit > 0 && (flags / bit) % 2 == 1
  }

  /** The header bits of RFC 1035 section 4.1.1 that getFlags names, most significant first. */
  const FlagTable: seq<(string, nat)> := [("qr", 0x8000), ("aa", 0x0400), ("rd", 0x0100), ("ra", 0x0080)]

  /** The names in `table` whose bit is set in `flags`, in table order. */
  function SetNames(table: seq<(string, nat)>, flags: u16): seq<string>
  {
    if table == [] then []
    else (if BitSet(flags, table[0].1) then [table[0].0] else []) + SetNames(table[1..], flags)
  }

  lemma MaskBit8000(flags: u16)
    ensures (Mask(flags, 0x8000) != 0) == BitSet(flags, 0x8000)
  {
    var b := flags as bv16;
    assert (b & 0x8000 != 0) == ((b / 0x8000) % 2 == 1);
  }

  lemma MaskBit0400(flags: u16)
    ensures (Mask(flags, 0x0400) != 0) == BitSet(flags, 0x0400)
  {
    var b := flags as bv16;
    assert (b & 0x0400 != 0) == ((b / 0x0400) % 2 == 1);
  }

  lemma MaskBit0100(flags: u16)
    ensures (Mask(flags, 0x0100) != 0) == BitSet(flags, 0x0100)
  {
    var b := flags as bv16;
    assert (b & 0x0100 != 0) == ((b / 0x0100) % 2 == 1);
  }

  lemma MaskBit0080(flags: u16)
    ensures (Mask(flags, 0x0080) != 0) == BitSet(flags, 0x0080)
  {
    var b := flags as bv16;
    assert (b & 0x0080 != 0) == ((b / 0x0080) % 2 == 1);
  }

  /**
   * Each of qr, aa, rd and ra is listed exactly when its bit is set, in the
   * order of the table, and nothing else is listed.
   */
  lemma FlagNamesListed(flags: u16)
    ensures FlagNames(flags) == SetNames(FlagTable, flags)
  {
    MaskBit8000(flags);
    MaskBit0400(flags);
    MaskBit0100(flags);
    MaskBit0080(flags);
    var t: seq<(string, nat)> := FlagTable;
    assert |t[4..]| == 0;
    assert SetNames(t[3..], flags) == if BitSet(flags, 0x0080) then ["ra"] else [] by {
      assert |t[3..][1..]| == 0;
    }
    assert SetNames(t[2..], flags) == (if BitSet(flags, 0x0100) then ["rd"] else []) + SetNames(t[3..], flags) by {
      assert t[2..][1..] == t[3..];
    }
    assert SetNames(t[1..], flags) == (if BitSet(flags, 0x0400) then ["aa"] else []) + SetNames(t[2..], flags) by {
      assert t[1..][1..] == t[2..];
    }
  }

  /** The text of the flags splits back into the listed names; it is empty when no listed bit is set. */
  lemma FlagsRoundTrip(flags: u16)
    ensures FlagNames(flags) != [] ==> Split(Flags(flags), ' ') == FlagNames(flags)
  {
    var names := FlagNames(flags);
    if names != [] {
      SplitJoin(names, ' ');
    }
  }

  /** Bits other than 0x8000, 0x0400, 0x0100 and 0x0080 do not change the flags text. */
  lemma FlagsIgnoreOtherBits(a: u16, b: u16)
    requires Mask(a, 0x8580) == Mask(b, 0x8580)
    ensures Flags(a) == Flags(b)
  {
    var x, y := a as bv16, b as bv16;
    assert x & 0x8000 == x & 0x8580 & 0x8000;
    assert y & 0x8000 == y & 0x8580 & 0x8000;
    assert x & 0x0400 == x & 0x8580 & 0x0400;
    assert y & 0x0400 == y & 0x8580 & 0x0400;
    assert x & 0x0100 == x & 0x8580 & 0x0100;
    assert y & 0x0100 == y & 0x8580 & 0x0100;
    assert x & 0x0080 == x & 0x8580 & 0x0080;
    assert y & 0x0080 == y & 0x8580 & 0x0080;
    assert FlagNames(a) == FlagNames(b);
  }

  /** A query's flags read "rd"; a typical recursive answer's read "qr rd ra". */
  lemma FlagsExamples()
    ensures Flags(QueryFlags) == "rd"
    ensures Flags(0x8180) == "qr rd ra"
  {
    assert FlagNames(QueryFlags) == ["rd"];
    assert FlagNames(0x8180) == ["qr", "rd", "ra"];
  }

  // ---------------------------------------------------------------------------
  // Choosing the record type
  // ---------------------------------------------------------------------------

  /** strings.ToUpper on one character, for the ASCII letters. */
  function UpperChar(c: char): char
  {
    if 'a' <= c <= 'z' then (c as int - 'a' as int + 'A' as int) as char else c
  }

  /** strings.ToUpper, for ASCII letters. */
  function Upper(s: string): (u: string)
    ensures |u| == |s| && forall i :: 0 <= i < |s| ==> u[i] == UpperChar(s[i])
    ensures forall i :: 0 <= i < |u| ==> !('a' <= u[i] <= 'z')
    ensures forall i :: 0 <= i < |s| && !('a' <= s[i] <= 'z') ==> u[i] == s[i]
    ensures forall i :: 0 <= i < |s| && 'a' <= s[i] <= 'z' ==> 'A' <= u[i] <= 'Z' && u[i] as int - s[i] as int == 'A' as int - 'a' as int
  {
    seq(|s|, i requires 0 <= i < |s| => UpperChar(s[i]))
  }

  /** Upper-casing twice is upper-casing once. */
  lemma UpperIdempotent(s: string)
    ensures Upper(Upper(s)) == Upper(s)
  {
  }

  /** The switch in main: the six names it accepts and the types they select. */
  function TypeFromName(name: string): (r: Option<RecordType>)
    ensures r.Some? ==> KnownType(r.value) && TypeString(r.value) == name
  {
    match name
    case "A" => Some(TypeA)
    case "AAAA" => Some(TypeAAAA)
    case "CNAME" => Some(TypeCNAME)
    case "MX" => Some(TypeMX)
    case "TXT" => Some(TypeTXT)
    case "NS" => Some(TypeNS)
    case _ => None
  }

  datatype SelectError = UnsupportedType(name: string)

  /**
   * The record type main asks for, from its arguments (program, domain,
   * then optionally the type): the third argument upper-cased, or "A" when
   * there is none.
   */
  function SelectType(args: seq<string>): (r: Result<RecordType, SelectError>)
    ensures r.Ok? ==> KnownType(r.value)
    ensures r.Err? ==> |args| > 2 && TypeFromName(r.error.name) == None
  {
    var name := if |args| > 2 then Upper(args[2]) else "A";
    match TypeFromName(name)
    case Some(t) => Ok(t)
    case None => Err(UnsupportedType(name))
  }

  /** A name is accepted exactly when it is the name RecordType.String gives a type with a name of its own. */
  lemma TypeFromNameRoundTrip(name: string, t: RecordType)
    ensures TypeFromName(name) == Some(t) <==> KnownType(t) && TypeString(t) == name
  {
    if !KnownType(t) {
      var s := TypeString(t);
      assert s[0] == 'T' && s != "TXT";
      assert |s| > 1 ==> s[1] != 'X' by {
        TypeStringUnknown(t);
        assert s[..4][1] == 'Y';
      }
    }
  }

  /** Without a type argument, A is queried; with one, its case does not matter. */
  lemma SelectTypeCases(args: seq<string>)
    ensures |args| <= 2 ==> SelectType(args) == Ok(TypeA)
    ensures |args| > 2 ==> SelectType(args) == SelectType(args[2 := Upper(args[2])])
    ensures SelectType(args).Ok? ==> TypeString(SelectType(args).value) == (if |args| > 2 then Upper(args[2]) else "A")
    ensures SelectType(args).Err? ==> SelectType(args).error.name != "A" && |args| > 2
  {
    if |args| > 2 {
      var u := Upper(args[2]);
      assert Upper(u) == u;
    }
    if SelectType(args).Ok? {
      var name := if |args| > 2 then Upper(args[2]) else "A";
      TypeFromNameRoundTrip(name, SelectType(args).value);
    }
  }

  lemma SelectTypeExamples()
    ensures SelectType(["dsn-resolver", "example.com", "mx"]) == Ok(TypeMX)
    ensures SelectType(["dsn-resolver", "example.com", "Aaaa"]) == Ok(TypeAAAA)
    ensures SelectType(["dsn-resolver", "example.com", "soa"]) == Err(UnsupportedType("SOA"))
  {
    assert Upper("mx") == "MX";
    assert Upper("Aaaa") == "AAAA";
    assert Upper("soa") == "SOA";
  }
}
