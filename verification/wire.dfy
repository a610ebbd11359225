/**
 * Fixed-width integers and network-byte-order helpers shared by the DNS
 * codec. Go's `uint8`, `uint16` and `uint32` become subset types of `int`,
 * so the arithmetic below is exact and every narrowing is checked.
 */
module Wire {

  type byte = b: int | 0 <= b < 0x100
  type u16 = x: int | 0 <= x < 0x1_0000
  type u32 = x: int | 0 <= x < 0x1_0000_0000

  datatype Option<+T> = None | Some(value: T)

  /** The value of a call that returns either a result or one of the source's errors. */
  datatype Result<+T, +E> = Ok(value: T) | Err(error: E)

  /** binary.BigEndian.Uint16: the 16-bit value stored at `s[i..i+2]`. */
  function Uint16At(s: seq<byte>, i: nat): u16
    requires i + 2 <= |s|
  {
    (s[i] as int) * 0x100 + s[i + 1] as int
  }

  /** binary.BigEndian.Uint32: the 32-bit value stored at `s[i..i+4]`. */
  function Uint32At(s: seq<byte>, i: nat): u32
    requires i + 4 <= |s|
  {
    Uint16At(s, i) * 0x1_0000 + Uint16At(s, i + 2)
  }

  /** binary.Write of a uint16 in network byte order. */
  function BigEndian16(x: u16): (r: seq<byte>)
    ensures |r| == 2 && Uint16At(r, 0) == x
  {
    [x / 0x100, x % 0x100]
  }

  /** binary.Write of a uint32 in network byte order. */
  function BigEndian32(x: u32): (r: seq<byte>)
    ensures |r| == 4 && Uint32At(r, 0) == x
  {
    BigEndian16(x / 0x1_0000) + BigEndian16(x % 0x1_0000)
  }

  /** Writing back a value read at `i` gives the two bytes found there. */
  lemma BigEndian16At(s: seq<byte>, i: nat)
    requires i + 2 <= |s|
    ensures BigEndian16(Uint16At(s, i)) == s[i..i + 2]
  {
  }

  /** Reading at an offset into a longer buffer only looks at the bytes there. */
  lemma Uint16AtSlice(s: seq<byte>, i: nat, part: seq<byte>)
    requires i + |part| <= |s| && s[i..i + |part|] == part && |part| >= 2
    ensures Uint16At(s, i) == Uint16At(part, 0)
  {
    assert s[i] == part[0] && s[i + 1] == part[1];
  }

  /** The element `i` places after position `at`. */
  function At<T>(s: seq<T>, at: nat, i: nat): T
    requires at + i < |s|
  {
    s[at + i]
  }

  /**
   * `part` is stored in `s` from position `at` on, stated element by
   * element: the same as `s[at..at + |part|] == part`, in a form that is
   * cheaper to carry through long proofs.
   */
  predicate StoredAt<T(==)>(s: seq<T>, at: nat, part: seq<T>)
  {
    at + |part| <= |s| && forall i {:trigger At(s, at, i)} :: 0 <= i < |part| ==> At(s, at, i) == part[i]
  }

  lemma StoredSlice<T>(s: seq<T>, at: nat, part: seq<T>)
    ensures StoredAt(s, at, part) <==> at + |part| <= |s| && s[at..at + |part|] == part
  {
    if at + |part| <= |s| && s[at..at + |part|] == part {
      forall i | 0 <= i < |part| ensures At(s, at, i) == part[i] {
        assert s[at..at + |part|][i] == s[at + i];
      }
    }
    if StoredAt(s, at, part) {
      forall i | 0 <= i < |part| ensures s[at..at + |part|][i] == part[i] {
        assert At(s, at, i) == part[i];
      }
    }
  }

  /** Elements that hold `first + rest` hold `first` and then `rest`. */
  lemma StoredSplit<T>(s: seq<T>, at: nat, whole: seq<T>, first: seq<T>, rest: seq<T>)
    requires whole == first + rest && StoredAt(s, at, whole)
    ensures StoredAt(s, at, first) && StoredAt(s, at + |first|, rest)
  {
    forall i | 0 <= i < |first| ensures At(s, at, i) == first[i] {
      assert At(s, at, i) == whole[i];
    }
    var next := at + |first|;
    forall i | 0 <= i < |rest| ensures At(s, next, i) == rest[i] {
      assert At(s, at, |first| + i) == whole[|first| + i];
    }
  }

  /** Elements that hold `part` hold each prefix of it. */
  lemma StoredPrefix<T>(s: seq<T>, at: nat, part: seq<T>, n: nat)
    requires StoredAt(s, at, part) && n <= |part|
    ensures StoredAt(s, at, part[..n])
  {
    var prefix := part[..n];
    forall i | 0 <= i < n ensures At(s, at, i) == prefix[i] {
      assert At(s, at, i) == part[i];
    }
  }

  /** A value read inside a stored copy of `part` is the value read at the same place in `part`. */
  lemma Uint16AtStored(s: seq<byte>, at: nat, part: seq<byte>, j: nat)
    requires StoredAt(s, at, part) && j + 2 <= |part|
    ensures Uint16At(s, at + j) == Uint16At(part, j)
  {
    assert At(s, at, j) == part[j] && At(s, at, j + 1) == part[j + 1];
  }
}
