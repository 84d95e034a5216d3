/**
 * The part of Go's `net.ParseIP` that the A-record answer relies on
 * (basic-auth-dns/main.go:140): reading a dotted-quad IPv4 address. A text
 * is accepted when it has exactly four `.`-separated fields, each a decimal
 * number from 0 to 255 written without a leading zero. Anything else has no
 * address (`ParseIP` returns nil).
 */
module IPv4 {
  import opened Wrappers

  type Octet = x: int | 0 <= x < 256

  datatype Address = Address(a: Octet, b: Octet, c: Octet, d: Octet)

  predicate IsDigit(ch: char) {
    '0' <= ch <= '9'
  }

  predicate AllDigits(s: string) {
    forall i :: 0 <= i < |s| ==> IsDigit(s[i])
  }

  function DigitValue(ch: char): (n: nat)
    requires IsDigit(ch)
    ensures n < 10
  {
    ch as int - '0' as int
  }

  function DigitChar(n: nat): (ch: char)
    requires n < 10
    ensures IsDigit(ch) && DigitValue(ch) == n
  {
    ('0' as int + n) as char
  }

  /** The number a string of decimal digits denotes, most significant first. */
  function DecimalValue(s: string): (n: nat)
    requires AllDigits(s)
    decreases |s|
  {
    if |s| == 0 then 0 else DecimalValue(s[..|s| - 1]) * 10 + DigitValue(s[|s| - 1])
  }

  /** The value of a field of up to three digits, spelled out positionally. */
  lemma DecimalValueShort(f: string)
    requires 1 <= |f| <= 3 && AllDigits(f)
    ensures |f| == 1 ==> DecimalValue(f) == DigitValue(f[0])
    ensures |f| == 2 ==> DecimalValue(f) == DigitValue(f[0]) * 10 + DigitValue(f[1])
    ensures |f| == 3 ==> DecimalValue(f) == (DigitValue(f[0]) * 10 + DigitValue(f[1])) * 10 + DigitValue(f[2])
  {
    assert DecimalValue(f[..0]) == 0;
    if |f| >= 2 {
      assert f[..2][..1] == f[..1];
    }
    if |f| == 3 {
      assert f[..3] == f;
      assert f[..3][..2] == f[..2];
    }
  }

  /**
   * One field of a dotted quad. A field of four or more digits without a
   * leading zero is at least 1000, so the length bound rejects nothing the
   * range check would accept.
   */
  function ParseOctet(f: string): (r: Option<Octet>)
    ensures r.Some? ==> FormatOctet(r.value) == f
  {
    if 1 <= |f| <= 3 && AllDigits(f) && (|f| == 1 || f[0] != '0') && DecimalValue(f) < 256
    then FormatCanonical(f); Some(DecimalValue(f))
    else None
  }

  /** The shortest decimal spelling of an octet. */
  function FormatOctet(n: Octet): (f: string)
  {
    if n < 10 then [DigitChar(n)]
    else if n < 100 then [DigitChar(n / 10), DigitChar(n % 10)]
    else [DigitChar(n / 100), DigitChar(n / 10 % 10), DigitChar(n % 10)]
  }

  /** Every octet reads back from its canonical spelling. */
  lemma ParseFormatOctet(n: Octet)
    ensures ParseOctet(FormatOctet(n)) == Some(n)
  {
    if n < 10 {
      ParseFormatOneDigit(n);
    } else if n < 100 {
      ParseFormatTwoDigits(n);
    } else {
      ParseFormatThreeDigits(n);
    }
  }

  lemma ParseFormatOneDigit(n: Octet)
    requires n < 10
    ensures ParseOctet(FormatOctet(n)) == Some(n)
  {
    DecimalValueShort(FormatOctet(n));
  }

  lemma ParseFormatTwoDigits(n: Octet)
    requires 10 <= n < 100
    ensures ParseOctet(FormatOctet(n)) == Some(n)
  {
    var f := FormatOctet(n);
    DecimalValueShort(f);
    assert DecimalValue(f) == (n / 10) * 10 + n % 10;
  }

  lemma ParseFormatThreeDigits(n: Octet)
    requires 100 <= n
    ensures ParseOctet(FormatOctet(n)) == Some(n)
  {
    var f := FormatOctet(n);
    DecimalValueShort(f);
    assert DecimalValue(f) == ((n / 100) * 10 + n / 10 % 10) * 10 + n % 10;
  }

  lemma DigitRoundTrip(ch: char)
    requires IsDigit(ch)
    ensures DigitChar(DigitValue(ch)) == ch
  {
  }

  /** A two-digit number without a leading zero is spelled by its two digits. */
  lemma FormatTwoDigits(d0: nat, d1: nat)
    requires 1 <= d0 < 10 && d1 < 10
    ensures FormatOctet(d0 * 10 + d1) == [DigitChar(d0), DigitChar(d1)]
  {
    var n := d0 * 10 + d1;
    assert n / 10 == d0 && n % 10 == d1;
  }

  /** A three-digit number up to 255 without a leading zero is spelled by its three digits. */
  lemma FormatThreeDigits(d0: nat, d1: nat, d2: nat)
    requires 1 <= d0 < 10 && d1 < 10 && d2 < 10 && (d0 * 10 + d1) * 10 + d2 < 256
    ensures FormatOctet((d0 * 10 + d1) * 10 + d2) == [DigitChar(d0), DigitChar(d1), DigitChar(d2)]
  {
    var n := (d0 * 10 + d1) * 10 + d2;
    assert n / 100 == d0 && n / 10 % 10 == d1 && n % 10 == d2;
  }

  /** A field of one to three digits without a leading zero, below 256, is the canonical spelling of its value. */
  lemma FormatCanonical(f: string)
    requires 1 <= |f| <= 3 && AllDigits(f) && (|f| == 1 || f[0] != '0') && DecimalValue(f) < 256
    ensures FormatOctet(DecimalValue(f)) == f
  {
    DecimalValueShort(f);
    if |f| == 1 {
      DigitRoundTrip(f[0]);
    } else if |f| == 2 {
      FormatCanonicalTwo(f);
    } else {
      FormatCanonicalThree(f);
    }
  }

  lemma FormatCanonicalTwo(f: string)
    requires |f| == 2 && AllDigits(f) && f[0] != '0'
    ensures FormatOctet(DigitValue(f[0]) * 10 + DigitValue(f[1])) == f
  {
    DigitRoundTrip(f[0]);
    DigitRoundTrip(f[1]);
    FormatTwoDigits(DigitValue(f[0]), DigitValue(f[1]));
  }

  lemma FormatCanonicalThree(f: string)
    requires |f| == 3 && AllDigits(f) && f[0] != '0'
    requires (DigitValue(f[0]) * 10 + DigitValue(f[1])) * 10 + DigitValue(f[2]) < 256
    ensures FormatOctet((DigitValue(f[0]) * 10 + DigitValue(f[1])) * 10 + DigitValue(f[2])) == f
  {
    DigitRoundTrip(f[0]);
    DigitRoundTrip(f[1]);
    DigitRoundTrip(f[2]);
    FormatThreeDigits(DigitValue(f[0]), DigitValue(f[1]), DigitValue(f[2]));
  }

  /** Splits a text at every `.`; there is always at least one field. */
  function Split(s: string): (fs: seq<string>)
    ensures |fs| >= 1
    decreases |s|
  {
    if |s| == 0 then [""]
    else if s[0] == '.' then [""] + Split(s[1..])
    else
      var rest := Split(s[1..]);
      [[s[0]] + rest[0]] + rest[1..]
  }

  /** Joins fields with `.` between them. */
  function Join(fs: seq<string>): (s: string)
    requires |fs| >= 1
    decreases |fs|
  {
    if |fs| == 1 then fs[0] else fs[0] + "." + Join(fs[1..])
  }

  predicate NoDot(f: string) {
    forall i :: 0 <= i < |f| ==> f[i] != '.'
  }

  /** Joining the fields of a split restores the text. */
  lemma {:induction false} JoinSplit(s: string)
    ensures Join(Split(s)) == s
    decreases |s|
  {
    if |s| == 0 {
    } else if s[0] == '.' {
      JoinSplit(s[1..]);
      assert Split(s)[1..] == Split(s[1..]);
      assert s == "." + s[1..];
    } else {
      JoinSplit(s[1..]);
      JoinSplitField(s);
    }
  }

  /** The step of `JoinSplit` for a text that starts inside a field. */
  lemma JoinSplitField(s: string)
    requires |s| > 0 && s[0] != '.'
    requires Join(Split(s[1..])) == s[1..]
    ensures Join(Split(s)) == s
  {
    var rest := Split(s[1..]);
    assert Split(s) == [[s[0]] + rest[0]] + rest[1..];
    JoinConsField(s[0], rest);
    assert s == [s[0]] + s[1..];
  }

  /** Prefixing the first field with a character prefixes the joined text. */
  lemma JoinConsField(c: char, fs: seq<string>)
    requires |fs| >= 1
    ensures Join([[c] + fs[0]] + fs[1..]) == [c] + Join(fs)
  {
    if |fs| == 1 {
      JoinConsOnlyField(c, fs);
    } else {
      JoinConsFirstField(c, fs);
    }
  }

  /** The single-field case of `JoinConsField`. */
  lemma JoinConsOnlyField(c: char, fs: seq<string>)
    requires |fs| == 1
    ensures Join([[c] + fs[0]] + fs[1..]) == [c] + Join(fs)
  {
    var head, tail := [c] + fs[0], fs[1..];
    assert Join([head] + tail) == head by { JoinCons(head, tail); }
    assert Join(fs) == fs[0];
  }

  /** The several-field case of `JoinConsField`. */
  lemma JoinConsFirstField(c: char, fs: seq<string>)
    requires |fs| > 1
    ensures Join([[c] + fs[0]] + fs[1..]) == [c] + Join(fs)
  {
    var head, tail := [c] + fs[0], fs[1..];
    var rest := Join(tail);
    assert Join([head] + tail) == head + "." + rest by { JoinCons(head, tail); }
    assert Join(fs) == fs[0] + "." + rest;
    DotAssociates(c, fs[0], rest);
  }

  /** Prefixing a character commutes with joining two fields by a dot. */
  lemma DotAssociates(c: char, f: string, g: string)
    ensures ([c] + f) + "." + g == [c] + (f + "." + g)
  {
  }

  /** Joining a first field onto further fields puts a dot between them. */
  lemma JoinCons(head: string, tail: seq<string>)
    ensures Join([head] + tail) == if |tail| == 0 then head else head + "." + Join(tail)
  {
    assert ([head] + tail)[1..] == tail;
  }

  /** Splitting a dot-free field followed by more text keeps the field whole. */
  lemma {:induction false} SplitDotFreePrefix(f: string, rest: string)
    requires NoDot(f)
    ensures Split(f + rest) == [f + Split(rest)[0]] + Split(rest)[1..]
    decreases |f|
  {
    if |f| == 0 {
      assert f + rest == rest;
      assert f + Split(rest)[0] == Split(rest)[0];
      assert Split(rest) == [Split(rest)[0]] + Split(rest)[1..];
    } else {
      assert (f + rest)[1..] == f[1..] + rest;
      SplitDotFreePrefix(f[1..], rest);
      assert [f[0]] + (f[1..] + Split(rest)[0]) == f + Split(rest)[0];
    }
  }

  lemma {:induction false} SplitJoin(fs: seq<string>)
    requires |fs| >= 1
    requires forall i :: 0 <= i < |fs| ==> NoDot(fs[i])
    ensures Split(Join(fs)) == fs
    decreases |fs|
  {
    if |fs| == 1 {
      SplitDotFreePrefix(fs[0], "");
      assert fs[0] + "" == fs[0];
    } else {
      var tail := Join(fs[1..]);
      SplitJoin(fs[1..]);
      assert fs[0] + "." + tail == fs[0] + ("." + tail);
      SplitDotFreePrefix(fs[0], "." + tail);
      assert ("." + tail)[1..] == tail;
      assert Split("." + tail) == [""] + fs[1..];
      assert fs[0] + "" == fs[0];
    }
  }

  /**
   * `net.ParseIP` restricted to the dotted-quad form. A text that parses is
   * exactly the canonical spelling of its address (`ParseFormat` is the
   * converse).
   */
  function Parse(s: string): (r: Option<Address>)
    ensures r.Some? ==> Format(r.value) == s
  {
    var fs := Split(s);
    if |fs| != 4 then None
    else
      match (ParseOctet(fs[0]), ParseOctet(fs[1]), ParseOctet(fs[2]), ParseOctet(fs[3]))
      case (Some(a), Some(b), Some(c), Some(d)) =>
        JoinSplit(s);
        assert fs == [fs[0], fs[1], fs[2], fs[3]];
        Some(Address(a, b, c, d))
      case _ => None
  }

  /** The canonical dotted-quad spelling of an address. */
  function Format(addr: Address): (s: string)
  {
    Join([FormatOctet(addr.a), FormatOctet(addr.b), FormatOctet(addr.c), FormatOctet(addr.d)])
  }

  lemma FormatOctetNoDot(n: Octet)
    ensures NoDot(FormatOctet(n))
  {
  }

  /** Every address reads back from its canonical spelling. */
  lemma ParseFormat(addr: Address)
    ensures Parse(Format(addr)) == Some(addr)
  {
    var fs := [FormatOctet(addr.a), FormatOctet(addr.b), FormatOctet(addr.c), FormatOctet(addr.d)];
    FormatOctetNoDot(addr.a);
    FormatOctetNoDot(addr.b);
    FormatOctetNoDot(addr.c);
    FormatOctetNoDot(addr.d);
    SplitJoin(fs);
    ParseFormatOctet(addr.a);
    ParseFormatOctet(addr.b);
    ParseFormatOctet(addr.c);
    ParseFormatOctet(addr.d);
  }
}
