/**
 * The pieces of Go's `strings` and `fmt` packages that the resolver relies on:
 * strings.Split and strings.Join with a one-element separator, and the `%d`
 * and `%x` renderings of unsigned integers, each with the reading that
 * undoes it.
 */
module Text {

  /** strings.Join: the parts with `sep` between consecutive parts. */
  function Join<T>(parts: seq<seq<T>>, sep: T): seq<T>
  {
    if |parts| == 0 then []
    else if |parts| == 1 then parts[0]
    else parts[0] + [sep] + Join(parts[1..], sep)
  }

  /** strings.Split: the maximal runs between occurrences of `sep` (one more part than separators). */
  function Split<T(==)>(s: seq<T>, sep: T): (parts: seq<seq<T>>)
    ensures |parts| >= 1
    ensures forall i :: 0 <= i < |parts| ==> sep !in parts[i]
  {
    if |s| == 0 then [[]]
    else
      var rest := Split(s[1..], sep);
      if s[0] == sep then [[]] + rest
      else
        assert sep !in [s[0]] + rest[0];
        [[s[0]] + rest[0]] + rest[1..]
  }

  lemma JoinCons<T>(parts: seq<seq<T>>, sep: T)
    requires |parts| >= 2
    ensures Join(parts, sep) == parts[0] + [sep] + Join(parts[1..], sep)
  {
  }

  /** Joining the parts of a split gives the original back. */
  lemma {:induction false} JoinSplit<T>(s: seq<T>, sep: T)
    ensures Join(Split(s, sep), sep) == s
  {
    if |s| > 0 {
      var rest := Split(s[1..], sep);
      JoinSplit(s[1..], sep);
      if s[0] == sep {
        assert Split(s, sep) == [[]] + rest;
        JoinCons([[]] + rest, sep);
        assert ([[]] + rest)[1..] == rest;
      } else if |rest| == 1 {
        assert Split(s, sep) == [[s[0]] + rest[0]];
      } else {
        var parts := [[s[0]] + rest[0]] + rest[1..];
        assert Split(s, sep) == parts;
        JoinCons(parts, sep);
        JoinCons(rest, sep);
        assert parts[1..] == rest[1..];
      }
    }
  }

  /** Splitting a text that starts with a separator-free run glues that run onto the first part. */
  lemma {:induction false} SplitPrefix<T>(p: seq<T>, t: seq<T>, sep: T)
    requires sep !in p
    ensures Split(p + t, sep) == [p + Split(t, sep)[0]] + Split(t, sep)[1..]
  {
    if |p| > 0 {
      SplitPrefix(p[1..], t, sep);
      assert (p + t)[1..] == p[1..] + t;
      assert [p[0]] + (p[1..] + Split(t, sep)[0]) == p + Split(t, sep)[0];
    } else {
      assert p + t == t;
      assert p + Split(t, sep)[0] == Split(t, sep)[0];
      assert Split(t, sep) == [Split(t, sep)[0]] + Split(t, sep)[1..];
    }
  }

  /** Splitting a join of separator-free parts gives the parts back. */
  lemma {:induction false} SplitJoin<T>(parts: seq<seq<T>>, sep: T)
    requires |parts| >= 1
    requires forall i :: 0 <= i < |parts| ==> sep !in parts[i]
    ensures Split(Join(parts, sep), sep) == parts
  {
    if |parts| == 1 {
      SplitPrefix(parts[0], [], sep);
      assert parts[0] + [] == parts[0];
    } else {
      var rest := Join(parts[1..], sep);
      SplitJoin(parts[1..], sep);
      SplitPrefix(parts[0], [sep] + rest, sep);
      assert parts[0] + [sep] + rest == parts[0] + ([sep] + rest);
      assert ([sep] + rest)[1..] == rest;
      assert Split([sep] + rest, sep) == [[]] + parts[1..];
      assert parts[0] + [] == parts[0];
    }
  }

  /** The parts' lengths added up. */
  function TotalLength<T>(parts: seq<seq<T>>): nat
  {
    if parts == [] then 0 else |parts[0]| + TotalLength(parts[1..])
  }

  /** The length of a join: the parts' lengths plus one separator between each pair. */
  lemma {:induction false} JoinLength<T>(parts: seq<seq<T>>, sep: T)
    requires |parts| >= 1
    ensures |Join(parts, sep)| == TotalLength(parts) + |parts| - 1
  {
    if |parts| > 1 {
      JoinLength(parts[1..], sep);
    }
  }

  /** One digit in base 2..16, lower-case as Go's `%x` writes it. */
  function DigitChar(d: nat): (c: char)
    requires d < 16
  {
    if d < 10 then ('0' as int + d) as char else ('a' as int + d - 10) as char
  }

  /** The value of a digit character; characters that are not digits count as 0. */
  function DigitValue(c: char): nat
  {
    if '0' <= c <= '9' then c as int - '0' as int
    else if 'a' <= c <= 'f' then c as int - 'a' as int + 10
    else 0
  }

  predicate IsDigit(c: char, base: nat)
  {
    ('0' <= c <= '9' && c as int - '0' as int < base) || ('a' <= c <= 'f' && c as int - 'a' as int + 10 < base)
  }

  /**
   * The `%d` (base 10) and `%x` (base 16) renderings of a natural number:
   * digits only, most significant first, no leading zero.
   */
  function Digits(n: nat, base: nat): (s: string)
    requires 2 <= base <= 16
    ensures |s| >= 1
    ensures forall i :: 0 <= i < |s| ==> IsDigit(s[i], base)
    ensures (s[0] == '0') == (n == 0)
    decreases n
  {
    if n < base then [DigitChar(n)]
    else
      DivisionShrinks(n, base);
      Digits(n / base, base) + [DigitChar(n % base)]
  }

  lemma DivisionShrinks(n: nat, base: nat)
    requires 2 <= base <= n
    ensures 1 <= n / base < n && n % base < base
    ensures n == (n / base) * base + n % base
  {
    var q, r := n / base, n % base;
    assert q * base == n - r > 0;
    assert q > 0;
    assert q * base - q * 2 == q * (base - 2) >= 0;
  }

  function Power(base: nat, k: nat): nat
  {
    if k == 0 then 1 else base * Power(base, k - 1)
  }

  /** A number below base^width has at most `width` digits. */
  lemma {:induction false} DigitsWidth(n: nat, base: nat, width: nat)
    requires 2 <= base <= 16 && 1 <= width && n < Power(base, width)
    ensures |Digits(n, base)| <= width
    decreases width
  {
    if n >= base {
      assert Power(base, 1) == base;
      DivisionShrinks(n, base);
      QuotientBelow(n, base, Power(base, width - 1));
      DigitsWidth(n / base, base, width - 1);
    }
  }

  lemma QuotientBelow(n: nat, base: nat, m: nat)
    requires 2 <= base && n < base * m
    ensures n / base < m
  {
    var q := n / base;
    assert q * base <= n;
    assert (m - q) * base == base * m - q * base > 0;
  }

  function Decimal(n: nat): string { Digits(n, 10) }

  function Hex(n: nat): string { Digits(n, 16) }

  /** Reads a string of digits back as a number. */
  function ValueOf(s: string, base: nat): nat
  {
    if |s| == 0 then 0 else ValueOf(s[..|s| - 1], base) * base + DigitValue(s[|s| - 1])
  }

  /** Rendering and reading back are inverse, so the rendering is injective. */
  lemma {:induction false} DigitsRoundTrip(n: nat, base: nat)
    requires 2 <= base <= 16
    ensures ValueOf(Digits(n, base), base) == n
    decreases n
  {
    var s := Digits(n, base);
    if n < base {
      assert s[..0] == [];
    } else {
      DivisionShrinks(n, base);
      DigitsRoundTrip(n / base, base);
      assert s[..|s| - 1] == Digits(n / base, base);
    }
  }
}
