/** The parts of C's sscanf that src/read.hpp uses: "%*c", "%*s" and "%u"
    over one line, as glibc performs them. A conversion that fails stops the
    scan; the variables of the conversions not performed keep their values. */
module Scan {
  import opened Text

  const U32: int := 0x1_0000_0000
  const U64: int := 0x1_0000_0000_0000_0000

  /** What one "%u" read: the unsigned int value and the text after it. */
  datatype Scanned = Scanned(value: nat, rest: string)

  /** C's isspace: space, \t, \n, \v, \f and \r. */
  predicate IsCSpace(c: char) {
    c == ' ' || ('\t' <= c <= '\r')
  }

  /** Drops leading C whitespace, as a space directive and every "%u" and
      "%s" conversion do. */
  function SkipSpace(s: string): (r: string)
    ensures |r| <= |s|
    ensures r != [] ==> !IsCSpace(r[0])
  {
    if s != [] && IsCSpace(s[0]) then SkipSpace(s[1..]) else s
  }

  /** The longest prefix of s without C whitespace: what "%s" reads. */
  function Token(s: string): (w: string)
    ensures |w| <= |s|
  {
    if s == [] || IsCSpace(s[0]) then [] else [s[0]] + Token(s[1..])
  }

  /** The longest prefix of s made of decimal digits. */
  function Digits(s: string): (d: string)
    ensures |d| <= |s| && d == s[..|d|] && AllDigits(d)
    ensures |d| < |s| ==> !IsDigit(s[|d|])
  {
    if s != [] && IsDigit(s[0]) then [s[0]] + Digits(s[1..]) else []
  }

  /** strtoul's result for a sign and the value of the digits, as an
      unsigned int: negated modulo 2^64 when the sign is '-', ULONG_MAX when
      the digits exceed it, then truncated to 32 bits. */
  function UInt(neg: bool, v: nat): (r: nat)
    ensures r < U32
  {
    if v >= U64 then U32 - 1 else (if neg then (U64 - v) % U64 else v) % U32
  }

  /** One "%u": leading whitespace, an optional sign, at least one digit. */
  function ScanUnsigned(s: string): Option<Scanned> {
    var t := SkipSpace(s);
    var signed := t != [] && (t[0] == '-' || t[0] == '+');
    var body := if signed then t[1..] else t;
    var d := Digits(body);
    if d == [] then None else Some(Scanned(UInt(signed && t[0] == '-', DigitsValue(d)), body[|d|..]))
  }

  /** The values of up to k successive "%u" conversions; the scan stops at
      the first that fails. */
  function ScanUnsigneds(s: string, k: nat): (r: seq<nat>)
    ensures |r| <= k && forall i :: 0 <= i < |r| ==> r[i] < U32
    decreases k
  {
    if k == 0 then []
    else match ScanUnsigned(s)
      case None => []
      case Some(x) => [x.value] + ScanUnsigneds(x.rest, k - 1)
  }

  /** "%*c" followed by k "%u": the first character is skipped, whatever
      it is, and the space directive skips any whitespace. */
  function ScanAfterChar(line: string, k: nat): (r: seq<nat>)
    ensures |r| <= k && forall i :: 0 <= i < |r| ==> r[i] < U32
  {
    if line == [] then [] else ScanUnsigneds(line[1..], k)
  }

  /** "%*s %u": a word is skipped, whatever it says, then one "%u". */
  function ScanAfterWord(line: string): (r: seq<nat>)
    ensures |r| <= 1 && forall i :: 0 <= i < |r| ==> r[i] < U32
  {
    var t := SkipSpace(line);
    if t == [] then [] else ScanUnsigneds(t[|Token(t)|..], 1)
  }

  /** The variables after a scan: the converted values first, the others as
      they were. */
  function Assign(vars: seq<nat>, got: seq<nat>): (r: seq<nat>)
    requires |got| <= |vars|
    ensures |r| == |vars|
    ensures forall i :: 0 <= i < |r| ==> r[i] == if i < |got| then got[i] else vars[i]
  {
    got + vars[|got|..]
  }

  /** The int an unsigned int becomes in two's complement. */
  function ToInt(x: nat): (r: int)
    requires x < U32
    ensures -U32 / 2 <= r < U32 / 2
  {
    if x < U32 / 2 then x else x - U32
  }

  /** The unsigned int "%u" reads from what "%d" printed for a 32-bit i. */
  function Unsigned(i: int): (r: nat)
    requires -U32 / 2 <= i < U32 / 2
    ensures r < U32
  {
    if i >= 0 then i else U32 + i
  }

  /** Casting back gives i for every 32-bit int. */
  lemma ToIntUnsigned(i: int)
    requires -U32 / 2 <= i < U32 / 2
    ensures ToInt(Unsigned(i)) == i
  {
  }

  /** A digit string followed by a non-digit splits off whole. */
  lemma {:induction false} DigitsThen(d: string, rest: string)
    requires AllDigits(d) && (rest == [] || !IsDigit(rest[0]))
    ensures Digits(d + rest) == d
  {
    if d != [] {
      assert (d + rest)[1..] == d[1..] + rest;
      DigitsThen(d[1..], rest);
      assert d == [d[0]] + d[1..];
    }
  }

  /** strtoul of "-a" for 0 < a <= 2^31, as an unsigned int. */
  lemma NegatedValue(a: nat)
    requires 0 < a <= U32 / 2
    ensures UInt(true, a) == U32 - a
  {
    assert (U64 - a) % U64 == U64 - a;
    assert U64 - a == (U32 - 1) * U32 + (U32 - a);
  }

  /** "%u" on digits that start the text. */
  lemma ScanPlain(s: string, n: string, rest: string)
    requires n != [] && AllDigits(n) && s == n + rest && Digits(s) == n
    ensures ScanUnsigned(s) == Some(Scanned(UInt(false, DigitsValue(n)), rest))
  {
    assert s[0] == n[0];
    assert SkipSpace(s) == s;
    assert s[|n|..] == rest;
  }

  /** "%u" on a minus sign and digits that start the text. */
  lemma ScanMinus(s: string, n: string, rest: string)
    requires n != [] && s == "-" + (n + rest) && Digits(n + rest) == n
    ensures ScanUnsigned(s) == Some(Scanned(UInt(true, DigitsValue(n)), rest))
  {
    assert SkipSpace(s) == s;
    assert s[1..] == n + rest;
    assert (n + rest)[|n|..] == rest;
  }

  /** "%u" reads back what "%u" printed for a natural number below 2^32. */
  lemma ScanPrintedNat(a: nat, rest: string)
    requires a < U32 && (rest == [] || !IsDigit(rest[0]))
    ensures ScanUnsigned(NatToString(a) + rest) == Some(Scanned(a, rest))
  {
    var n := NatToString(a);
    NatToStringValue(a);
    DigitsThen(n, rest);
    PlainValue(a);
    ScanPlain(n + rest, n, rest);
  }

  /** strtoul of the digits of a < 2^32, as an unsigned int. */
  lemma PlainValue(a: nat)
    requires a < U32
    ensures UInt(false, a) == a
  {
  }

  /** "%u" reads "-a" as 2^32 - a for 0 < a <= 2^31. */
  lemma ScanPrintedNegative(a: nat, rest: string)
    requires 0 < a <= U32 / 2 && (rest == [] || !IsDigit(rest[0]))
    ensures ScanUnsigned("-" + NatToString(a) + rest) == Some(Scanned(U32 - a, rest))
  {
    var n := NatToString(a);
    NatToStringValue(a);
    DigitsThen(n, rest);
    Assoc("-", n, rest);
    ScanMinus("-" + (n + rest), n, rest);
    NegatedValue(a);
  }

  /** "%u" reads back what "%d" printed for a 32-bit int, up to the
      following whitespace. */
  lemma ScanPrinted(i: int, rest: string)
    requires -U32 / 2 <= i < U32 / 2 && (rest == [] || IsCSpace(rest[0]))
    ensures ScanUnsigned(IntToString(i) + rest) == Some(Scanned(Unsigned(i), rest))
  {
    if i < 0 {
      ScanPrintedNegative(-i, rest);
    } else {
      ScanPrintedNat(i, rest);
    }
  }

  /** A space in front changes no "%u". */
  lemma SpaceSkipped(c: char, s: string)
    requires IsCSpace(c)
    ensures ScanUnsigned([c] + s) == ScanUnsigned(s)
  {
    assert ([c] + s)[1..] == s;
  }

  /** One printed value after a space, and what follows it, read by "%u"s. */
  lemma ScanPrintedThen(i: int, rest: string, k: nat)
    requires -U32 / 2 <= i < U32 / 2 && k > 0 && (rest == [] || IsCSpace(rest[0]))
    ensures ScanUnsigneds(" " + IntToString(i) + rest, k) == [Unsigned(i)] + ScanUnsigneds(rest, k - 1)
  {
    var s := IntToString(i) + rest;
    Assoc(" ", IntToString(i), rest);
    SpaceSkipped(' ', s);
    ScanPrinted(i, rest);
  }

  lemma Nest<X>(p1: seq<X>, p2: seq<X>, p3: seq<X>, p4: seq<X>, p5: seq<X>, p6: seq<X>, p7: seq<X>, p8: seq<X>)
    ensures p1 + p2 + p3 + p4 + p5 + p6 + p7 + p8 == p1 + (p2 + p3 + (p4 + p5 + (p6 + p7 + p8)))
  {
  }

  /** A word without whitespace, followed by whitespace, is what "%s" reads. */
  lemma {:induction false} TokenThen(w: string, rest: string)
    requires NoSpace(w) && (rest == [] || IsCSpace(rest[0]))
    ensures Token(w + rest) == w
  {
    if w != [] {
      assert (w + rest)[1..] == w[1..] + rest;
      TokenThen(w[1..], rest);
      assert w == [w[0]] + w[1..];
    }
  }

  /** "%*s %u" ignores which word comes first: any two words lead to the
      same scan of what follows them. */
  lemma KeywordIgnored(w1: string, w2: string, rest: string)
    requires w1 != [] && NoSpace(w1) && w2 != [] && NoSpace(w2)
    requires rest == [] || IsCSpace(rest[0])
    ensures ScanAfterWord(w1 + rest) == ScanAfterWord(w2 + rest) == ScanUnsigneds(rest, 1)
  {
    TokenThen(w1, rest);
    TokenThen(w2, rest);
    assert (w1 + rest)[0] == w1[0] && (w2 + rest)[0] == w2[0];
    assert SkipSpace(w1 + rest) == w1 + rest && SkipSpace(w2 + rest) == w2 + rest;
    assert (w1 + rest)[|w1|..] == rest && (w2 + rest)[|w2|..] == rest;
  }

  /** "%*s %u" on a "%s %d\n" line of a 32-bit int reads the int. */
  lemma ScanHeaderPrinted(kw: string, i: int)
    requires kw != [] && NoSpace(kw) && -U32 / 2 <= i < U32 / 2
    ensures ScanAfterWord(kw + " " + IntToString(i) + "\n") == [Unsigned(i)]
  {
    var rest := " " + IntToString(i) + "\n";
    Assoc(kw + " ", IntToString(i), "\n");
    Assoc(kw, " ", IntToString(i) + "\n");
    Assoc(" ", IntToString(i), "\n");
    KeywordIgnored(kw, kw, rest);
    ScanPrintedThen(i, "\n", 1);
  }

  /** "%*c %u" on a "%c %d\n" line of a 32-bit int reads the int. */
  lemma ScanOnePrinted(c: char, i: int)
    requires -U32 / 2 <= i < U32 / 2
    ensures ScanAfterChar([c] + " " + IntToString(i) + "\n", 1) == [Unsigned(i)]
  {
    var rest := " " + IntToString(i) + "\n";
    Assoc([c] + " ", IntToString(i), "\n");
    Assoc([c], " ", IntToString(i) + "\n");
    Assoc(" ", IntToString(i), "\n");
    assert ([c] + rest)[1..] == rest;
    ScanPrintedThen(i, "\n", 1);
  }

  /** "%*c %u %u %u" on a "%c %d %d %d\n" line of 32-bit ints reads the
      three ints. */
  lemma ScanThreePrinted(c: char, u: int, v: int, w: int)
    requires -U32 / 2 <= u < U32 / 2 && -U32 / 2 <= v < U32 / 2 && -U32 / 2 <= w < U32 / 2
    ensures ScanAfterChar([c] + " " + IntToString(u) + " " + IntToString(v) + " " + IntToString(w) + "\n", 3) ==
      [Unsigned(u), Unsigned(v), Unsigned(w)]
  {
    var r3 := "\n";
    var r2 := " " + IntToString(w) + r3;
    var r1 := " " + IntToString(v) + r2;
    var r0 := " " + IntToString(u) + r1;
    Nest([c], " ", IntToString(u), " ", IntToString(v), " ", IntToString(w), "\n");
    assert ([c] + r0)[1..] == r0;
    ScanPrintedThen(u, r1, 3);
    ScanPrintedThen(v, r2, 2);
    ScanPrintedThen(w, r3, 1);
  }
}
