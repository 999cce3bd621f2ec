/** Text handling shared by the readers and writers of the PACE 2018 formats:
    the whitespace rules of Python's str.strip() and str.split(), decimal
    integer parsing as Python's int() does it on a token, and decimal printing
    as printf's "%d" does it. */
module Text {

  datatype Option<T> = None | Some(value: T)

  /** The characters str.isspace(), str.strip() and str.split() treat as
      whitespace: space, \t, \n, \v, \f, \r, the separators \x1c to \x1f,
      NEL \x85, the no-break space \xa0, the Ogham space mark, the spaces
      \u2000 to \u200a, the line and paragraph separators, the narrow
      no-break space, the medium mathematical space and the ideographic
      space. */
  predicate IsSpace(c: char) {
    c == ' ' || ('\t' <= c <= '\r') || ('\U{1C}' <= c <= '\U{1F}')
    || c == '\U{85}' || c == '\U{A0}' || c == '\U{1680}'
    || ('\U{2000}' <= c <= '\U{200A}') || c == '\U{2028}' || c == '\U{2029}'
    || c == '\U{202F}' || c == '\U{205F}' || c == '\U{3000}'
  }

  predicate NoSpace(s: string) {
    forall i :: 0 <= i < |s| ==> !IsSpace(s[i])
  }

  predicate IsDigit(c: char) {
    '0' <= c <= '9'
  }

  predicate AllDigits(s: string) {
    forall i :: 0 <= i < |s| ==> IsDigit(s[i])
  }

  /** Drops leading whitespace. */
  function TrimLeft(s: string): (r: string)
    ensures |r| <= |s|
    ensures r != [] ==> !IsSpace(r[0])
  {
    if s != [] && IsSpace(s[0]) then TrimLeft(s[1..]) else s
  }

  /** Drops trailing whitespace. */
  function TrimRight(s: string): (r: string)
    ensures |r| <= |s|
  {
    if s != [] && IsSpace(s[|s| - 1]) then TrimRight(s[..|s| - 1]) else s
  }

  /** Python's str.strip() with no argument. */
  function Strip(s: string): string {
    TrimRight(TrimLeft(s))
  }

  /** The longest prefix of s without whitespace. */
  function Word(s: string): (w: string)
    ensures |w| <= |s|
    ensures s != [] && !IsSpace(s[0]) ==> w != []
  {
    if s == [] || IsSpace(s[0]) then [] else [s[0]] + Word(s[1..])
  }

  /** Python's str.split() with no argument: the maximal runs of
      non-whitespace characters, in order. */
  function Split(s: string): (r: seq<string>)
    decreases |s|
  {
    var t := TrimLeft(s);
    if t == [] then []
    else
      var w := Word(t);
      [w] + Split(t[|w|..])
  }

  function DigitValue(c: char): nat
    requires IsDigit(c)
  {
    (c as int) - ('0' as int)
  }

  function DigitChar(d: nat): (c: char)
    requires d < 10
    ensures IsDigit(c) && DigitValue(c) == d
  {
    ('0' as int + d) as char
  }

  /** The value of a string of decimal digits. */
  function DigitsValue(s: string): nat
    requires AllDigits(s)
  {
    if s == [] then 0 else DigitsValue(s[..|s| - 1]) * 10 + DigitValue(s[|s| - 1])
  }

  /** Python's int() applied to a token without whitespace: an optional sign
      followed by at least one ASCII decimal digit. */
  function ParseInt(s: string): Option<int> {
    if s != [] && (s[0] == '-' || s[0] == '+') then
      if |s| > 1 && AllDigits(s[1..]) then
        var magnitude: int := DigitsValue(s[1..]);
        Some(if s[0] == '-' then -magnitude else magnitude)
      else None
    else if s != [] && AllDigits(s) then Some(DigitsValue(s))
    else None
  }

  /** printf's "%u" of a natural number. */
  function NatToString(n: nat): (s: string)
    ensures s != [] && AllDigits(s)
  {
    if n < 10 then [DigitChar(n)] else NatToString(n / 10) + [DigitChar(n % 10)]
  }

  /** printf's "%d". */
  function IntToString(i: int): (s: string)
    ensures s != [] && NoSpace(s)
  {
    if i < 0 then "-" + NatToString(-i) else NatToString(i)
  }

  lemma {:induction false} NatToStringValue(n: nat)
    ensures DigitsValue(NatToString(n)) == n
  {
    if n >= 10 {
      var s := NatToString(n);
      NatToStringValue(n / 10);
      assert s[..|s| - 1] == NatToString(n / 10);
    }
  }

  /** Reading back what "%d" printed gives the same number. */
  lemma IntToStringParses(i: int)
    ensures ParseInt(IntToString(i)) == Some(i)
  {
    var s := IntToString(i);
    if i < 0 {
      NatToStringValue(-i);
      assert s[1..] == NatToString(-i);
    } else {
      NatToStringValue(i);
    }
  }

  lemma {:induction false} TrimLeftSpaceFree(s: string)
    requires s == [] || !IsSpace(s[0])
    ensures TrimLeft(s) == s
  {
  }

  lemma {:induction false} WordOfWordThenSpace(w: string, rest: string)
    requires NoSpace(w)
    requires rest == [] || IsSpace(rest[0])
    ensures Word(w + rest) == w
    decreases |w|
  {
    if w != [] {
      assert (w + rest)[1..] == w[1..] + rest;
      WordOfWordThenSpace(w[1..], rest);
    }
  }

  /** A leading whitespace character does not change the split. */
  lemma SplitSkipsSpace(c: char, s: string)
    requires IsSpace(c)
    ensures Split([c] + s) == Split(s)
  {
    assert ([c] + s)[1..] == s;
  }

  /** A word followed by whitespace (or nothing) is the first token. */
  lemma SplitWord(w: string, rest: string)
    requires w != [] && NoSpace(w)
    requires rest == [] || IsSpace(rest[0])
    ensures Split(w + rest) == [w] + Split(rest)
  {
    TrimLeftSpaceFree(w + rest);
    WordOfWordThenSpace(w, rest);
    assert (w + rest)[|w|..] == rest;
  }

  lemma SplitNewline()
    ensures Split("\n") == []
  {
  }

  lemma {:induction false} SplitWordThen(w: string, rest: string, tail: seq<string>)
    requires w != [] && NoSpace(w) && (rest == [] || IsSpace(rest[0]))
    requires Split(rest) == tail
    ensures Split(w + rest) == [w] + tail
  {
    SplitWord(w, rest);
  }

  lemma {:induction false} SplitSpaceThen(rest: string, tail: seq<string>)
    requires Split(rest) == tail
    ensures Split([' '] + rest) == tail
  {
    SplitSkipsSpace(' ', rest);
  }

  /** A word and a space in front of a string add the word as first token. */
  lemma {:induction false} SplitWordSpace(w: string, rest: string, tail: seq<string>)
    requires w != [] && NoSpace(w)
    requires Split(rest) == tail
    ensures Split(w + " " + rest) == [w] + tail
  {
    SplitSpaceThen(rest, tail);
    SplitWordThen(w, [' '] + rest, tail);
    assert w + " " + rest == w + ([' '] + rest);
  }

  /** Splitting "a b\n" gives [a, b]. */
  lemma SplitTwo(a: string, b: string)
    requires a != [] && NoSpace(a) && b != [] && NoSpace(b)
    ensures Split(a + " " + b + "\n") == [a, b]
  {
    SplitNewline();
    SplitWordThen(b, "\n", []);
    SplitWordSpace(a, b + "\n", [b]);
    assert a + " " + b + "\n" == a + " " + (b + "\n");
  }

  /** Splitting "a b c d\n" gives [a, b, c, d]. */
  lemma {:induction false} SplitFour(a: string, b: string, c: string, d: string, line: string)
    requires a != [] && NoSpace(a) && b != [] && NoSpace(b)
    requires c != [] && NoSpace(c) && d != [] && NoSpace(d)
    requires line == a + " " + b + " " + c + " " + d + "\n"
    ensures Split(line) == [a, b, c, d]
  {
    var r1 := c + " " + d + "\n";
    var r2 := b + " " + r1;
    SplitTwo(c, d);
    SplitWordSpace(b, r1, [c, d]);
    SplitWordSpace(a, r2, [b, c, d]);
    Regroup(a, " ", b, " ", c, " ", d, "\n");
  }

  lemma Assoc<X>(p: seq<X>, q: seq<X>, r: seq<X>)
    ensures p + q + r == p + (q + r)
  {
  }

  lemma Regroup<X>(p1: seq<X>, p2: seq<X>, p3: seq<X>, p4: seq<X>, p5: seq<X>, p6: seq<X>, p7: seq<X>, p8: seq<X>)
    ensures p1 + p2 + p3 + p4 + p5 + p6 + p7 + p8 == p1 + p2 + (p3 + p4 + (p5 + p6 + p7 + p8))
  {
  }

  /** Stripping "kw\n" gives kw when kw has no whitespace at either end. */
  lemma StripLine(kw: string)
    requires kw == [] || (!IsSpace(kw[0]) && !IsSpace(kw[|kw| - 1]))
    ensures Strip(kw + "\n") == kw
  {
    if kw == [] {
      assert TrimLeft("\n") == [];
    } else {
      var s := kw + "\n";
      TrimLeftSpaceFree(s);
      assert s[..|s| - 1] == kw;
      assert TrimRight(s) == TrimRight(kw);
    }
  }

  /** A line that does not strip to nothing has at least one token. */
  lemma SplitOfNonBlank(s: string)
    requires Strip(s) != []
    ensures Split(s) != []
  {
    assert TrimLeft(s) != [];
  }

  /** f applied to every element of s, in order. */
  function Map<X, Y>(f: X -> Y, s: seq<X>): (r: seq<Y>)
    ensures |r| == |s| && forall i :: 0 <= i < |s| ==> r[i] == f(s[i])
  {
    seq(|s|, i requires 0 <= i < |s| => f(s[i]))
  }

  lemma MapAppend<X, Y>(f: X -> Y, a: seq<X>, b: seq<X>)
    ensures Map(f, a + b) == Map(f, a) + Map(f, b)
  {
    var l, r := Map(f, a + b), Map(f, a) + Map(f, b);
    forall j | 0 <= j < |a| + |b|
      ensures l[j] == r[j]
    {
      if j < |a| {
        assert (a + b)[j] == a[j];
      } else {
        assert (a + b)[j] == b[j - |a|];
      }
    }
    assert |l| == |r|;
  }

  lemma MapPush<X, Y>(f: X -> Y, a: seq<X>, x: X)
    ensures Map(f, a + [x]) == Map(f, a) + [f(x)]
  {
    MapAppend(f, a, [x]);
    assert Map(f, [x]) == [f(x)];
  }

  /** Index i of a sequence with one element put in front. */
  lemma ConsAt<X>(x: X, s: seq<X>, i: int)
    requires 1 <= i <= |s|
    ensures ([x] + s)[i] == s[i - 1]
  {
  }
}
