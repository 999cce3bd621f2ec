/** src/star_contractions.hpp: the ratio of a star, a total distance over
    the number of terminals it connects minus one ("work"), compared exactly
    by cross-multiplication instead of division. The long long and int
    arithmetic of the source is modelled by unbounded integers. */
module Ratios {

  datatype Ratio = Ratio(weight: int, terminalCount: int)

  /** Ratio::work(): the number of terminals minus one, and 0 for none. */
  function Work(r: Ratio): (w: int)
    ensures r.terminalCount >= 0 ==> w >= 0
    ensures r.terminalCount >= 1 ==> w + 1 == r.terminalCount
  {
    if r.terminalCount == 0 then 0 else r.terminalCount - 1
  }

  /** operator<(const Ratio&). */
  predicate Less(a: Ratio, b: Ratio) {
    a.weight * Work(b) < b.weight * Work(a)
  }

  /** operator<(long long). */
  predicate LessThan(r: Ratio, x: int) {
    r.weight < x * Work(r)
  }

  /** operator>(const Ratio&). */
  predicate Greater(a: Ratio, b: Ratio) {
    Less(b, a)
  }

  /** operator>(long long). */
  predicate GreaterThan(r: Ratio, x: int) {
    r.weight > x * Work(r)
  }

  /** operator<=(const Ratio&). */
  predicate LessEq(a: Ratio, b: Ratio) {
    !Greater(a, b)
  }

  /** operator<=(long long). */
  predicate AtMost(r: Ratio, x: int) {
    !GreaterThan(r, x)
  }

  /** operator>=(const Ratio&). */
  predicate GreaterEq(a: Ratio, b: Ratio) {
    !Less(a, b)
  }

  /** operator>=(long long). */
  predicate AtLeast(r: Ratio, x: int) {
    !LessThan(r, x)
  }

  /** operator==. */
  predicate Same(a: Ratio, b: Ratio) {
    a.weight * Work(b) == b.weight * Work(a)
  }

  /** operator+: the ratio whose work is the product of the works. */
  function Add(a: Ratio, b: Ratio): (c: Ratio)
    ensures a.terminalCount >= 0 && b.terminalCount >= 0 ==> Work(c) == Work(a) * Work(b)
  {
    Ratio(a.weight * Work(b) + b.weight * Work(a), Work(b) * Work(a) + 1)
  }

  /** The ratio a well-formed star has: a count of at least 0. */
  predicate Counted(r: Ratio) {
    r.terminalCount >= 0
  }

  /** The value the comparisons stand for, when the work is positive. */
  function Value(r: Ratio): real
    requires Work(r) > 0
  {
    r.weight as real / Work(r) as real
  }

  lemma CrossMultiply(x: real, p: real, y: real, q: real)
    requires p > 0.0 && q > 0.0
    ensures x / p < y / q <==> x * q < y * p
    ensures x / p == y / q <==> x * q == y * p
  {
    assert x / p * (p * q) == x * q;
    assert y / q * (p * q) == y * p;
  }

  /** With positive works, < and == compare the quotients weight/work. */
  lemma OrderIsQuotientOrder(a: Ratio, b: Ratio)
    requires Work(a) > 0 && Work(b) > 0
    ensures Less(a, b) <==> Value(a) < Value(b)
    ensures Same(a, b) <==> Value(a) == Value(b)
  {
    CrossMultiply(a.weight as real, Work(a) as real, b.weight as real, Work(b) as real);
    assert (a.weight * Work(b)) as real == a.weight as real * Work(b) as real;
    assert (b.weight * Work(a)) as real == b.weight as real * Work(a) as real;
  }

  /** Against a scalar, with positive work, < and > compare the quotient. */
  lemma ScalarIsQuotientOrder(r: Ratio, x: int)
    requires Work(r) > 0
    ensures LessThan(r, x) <==> Value(r) < x as real
    ensures GreaterThan(r, x) <==> Value(r) > x as real
  {
    CrossMultiply(r.weight as real, Work(r) as real, x as real, 1.0);
    assert (x * Work(r)) as real == x as real * Work(r) as real;
  }

  /** Exactly one of a < b, a == b, b < a holds. */
  lemma Trichotomy(a: Ratio, b: Ratio)
    ensures Less(a, b) || Same(a, b) || Less(b, a)
    ensures !(Less(a, b) && Same(a, b)) && !(Less(a, b) && Less(b, a)) && !(Same(a, b) && Less(b, a))
  {
  }

  /** The derived operators: > swaps the operands of <, and <= and >= negate
      > and <. */
  lemma DerivedOperators(a: Ratio, b: Ratio, x: int)
    ensures Greater(a, b) <==> Less(b, a)
    ensures LessEq(a, b) <==> (Less(a, b) || Same(a, b))
    ensures GreaterEq(a, b) <==> (Less(b, a) || Same(a, b))
    ensures AtMost(a, x) <==> a.weight <= x * Work(a)
    ensures AtLeast(a, x) <==> a.weight >= x * Work(a)
  {
  }

  /** With positive works the sum's quotient is the sum of the quotients. */
  lemma AddIsQuotientSum(a: Ratio, b: Ratio)
    requires Counted(a) && Counted(b) && Work(a) > 0 && Work(b) > 0
    ensures Work(Add(a, b)) > 0
    ensures Value(Add(a, b)) == Value(a) + Value(b)
  {
    var p, q := Work(a) as real, Work(b) as real;
    var c := Add(a, b);
    assert Work(c) as real == p * q;
    assert c.weight as real == a.weight as real * q + b.weight as real * p;
    assert (a.weight as real * q + b.weight as real * p) / (p * q) == a.weight as real / p + b.weight as real / q;
  }

  /** inf_ratio of contract_till_the_bitter_end: weight 1 and no terminals. */
  function Infinite(): (r: Ratio)
    ensures Work(r) == 0
  {
    Ratio(1, 0)
  }

  /** r < inf_ratio exactly when r's work is positive, and inf_ratio is
      below no counted ratio: the scan for the best ratio keeps inf_ratio
      until the first centre of positive work. */
  lemma BelowInfinite(r: Ratio)
    requires Counted(r)
    ensures Less(r, Infinite()) <==> Work(r) > 0
    ensures !Less(Infinite(), r)
  {
  }

  /** A terminal at distance d joins the ratio r. */
  function Join(r: Ratio, d: int): (r': Ratio)
    ensures r'.terminalCount == r.terminalCount + 1 && r'.weight == r.weight + d
  {
    Ratio(r.weight + d, r.terminalCount + 1)
  }

  /** examine_vertex lets a terminal join a ratio of positive work only when
      the terminal's distance is below the ratio (the ratio is not <= dist):
      exactly then the joined ratio is smaller. The visitor thus stops at
      the first vertex that can no longer improve the star. */
  lemma JoinImproves(r: Ratio, d: int)
    requires Counted(r) && Work(r) >= 1
    ensures Less(Join(r, d), r) <==> !AtMost(r, d)
  {
    var k := Work(r);
    assert Work(Join(r, d)) == k + 1;
    assert (r.weight + d) * k < r.weight * (k + 1) <==> d * k < r.weight;
  }

  /** ratio_counting_visitor: the ratio it accumulates, held by reference in
      the source, while a Dijkstra search examines vertices. */
  class RatioCounter {
    var ratio: Ratio

    constructor (r: Ratio)
      ensures ratio == r
    {
      ratio := r;
    }

    /** examine_vertex: the search is stopped (EarlyTerminate in the source)
        once the ratio has positive work and is at most dist; otherwise a
        terminal joins the ratio with its distance. */
    method ExamineVertex(dist: int, isTerminal: bool) returns (stop: bool)
      modifies this
      ensures stop <==> Work(old(ratio)) >= 1 && AtMost(old(ratio), dist)
      ensures stop || !isTerminal ==> ratio == old(ratio)
      ensures !stop && isTerminal ==> ratio == Join(old(ratio), dist)
    {
      if Work(ratio) >= 1 && AtMost(ratio, dist) {
        return true;
      }
      if isTerminal {
        ratio := Ratio(ratio.weight + dist, ratio.terminalCount + 1);
      }
      return false;
    }
  }
}
