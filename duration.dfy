/** A signed 64-bit count of nanoseconds with eight named units, a greedy
    decomposition of any such span into "<count> <unit>" terms, the naming
    function built on it, and an always-advancing rounding operation. */
module Duration {
  import opened Text
  import Arith

  const MinInt64: int := -0x8000_0000_0000_0000
  const MaxInt64: int := 0x7FFF_FFFF_FFFF_FFFF

  /** Go's `Duration`: an int64 number of nanoseconds. */
  type Duration = d: int | MinInt64 <= d <= MaxInt64

  const Year: Duration := 31536000000000000
  const Week: Duration := 604800000000000
  const Day: Duration := 86400000000000
  const Hour: Duration := 3600000000000
  const Minute: Duration := 60000000000
  const Second: Duration := 1000000000
  const Millisecond: Duration := 1000000
  const Nanosecond: Duration := 1

  predicate IsUnit(d: int) {
    d == Year || d == Week || d == Day || d == Hour ||
    d == Minute || d == Second || d == Millisecond || d == Nanosecond
  }

  /** One of the eight named constants. */
  type Unit = u: Duration | 0 < u && IsUnit(u) witness 1

  /** The fixed table human() walks, largest unit first. */
  const Units: seq<Unit> := [Year, Week, Day, Hour, Minute, Second, Millisecond, Nanosecond]

  /** The singular lower-case name of a unit: the switch in Name(). */
  function UnitName(u: Unit): (name: string)
    ensures |name| >= 3 && NoSpace(name) && name[|name| - 1] != 's'
  {
    if u == Year then "year"
    else if u == Week then "week"
    else if u == Day then "day"
    else if u == Hour then "hour"
    else if u == Minute then "minute"
    else if u == Second then "second"
    else if u == Millisecond then "millisecond"
    else "nanosecond"
  }

  /** One emitted term of a decomposition: `count` times `unit`. */
  datatype Term = Term(count: nat, unit: Unit)

  /** The terms human() emits for the non-negative span `n` when it walks the
      table `us` in order: a unit whose quotient is zero is skipped and
      leaves `n` alone; otherwise its quotient is emitted and only the
      remainder goes on to the units after it. */
  function Decompose(n: nat, us: seq<Unit>): (ts: seq<Term>)
    decreases |us|
  {
    if us == [] then []
    else
      var value := n / us[0];
      if value == 0 then Decompose(n, us[1..])
      else [Term(value, us[0])] + Decompose(n % us[0], us[1..])
  }

  /** What the terms add up to. */
  function Sum(ts: seq<Term>): nat
    decreases |ts|
  {
    if ts == [] then 0 else ts[0].count * ts[0].unit + Sum(ts[1..])
  }

  /** The unit name of a term, with "s" appended unless the count is 1. */
  function Label(t: Term): string {
    if t.count != 1 then UnitName(t.unit) + "s" else UnitName(t.unit)
  }

  /** One term as human() writes it: "<count> <label>". */
  function Render(t: Term): string {
    DecimalString(t.count) + " " + Label(t)
  }

  function Renders(ts: seq<Term>): (ss: seq<string>)
    ensures |ss| == |ts|
    decreases |ts|
  {
    if ts == [] then [] else [Render(ts[0])] + Renders(ts[1..])
  }

  lemma RendersCons(t: Term, ts: seq<Term>)
    ensures Renders([t] + ts) == [Render(t)] + Renders(ts)
  {
    assert ([t] + ts)[1..] == ts;
  }

  /** Rendering term by term: the groups are `ss` when each term renders
      as the group in the same place. */
  lemma {:induction false} RendersAs(ts: seq<Term>, ss: seq<string>)
    requires |ts| == |ss|
    requires forall i :: 0 <= i < |ts| ==> Render(ts[i]) == ss[i]
    ensures Renders(ts) == ss
    decreases |ts|
  {
    if ts != [] {
      RendersAs(ts[1..], ss[1..]);
      assert ss == [ss[0]] + ss[1..];
    }
  }

  /** One pass of the loop keeps "groups so far, then the groups of what is
      left over the rest of the table" equal to the groups of the whole span. */
  lemma GroupsStep(groups: seq<string>, all: seq<string>, n: nat, us: seq<Unit>, i: nat)
    requires i < |us|
    requires groups + Renders(Decompose(n, us[i..])) == all
    ensures var c := us[i];
      if n / c == 0 then groups + Renders(Decompose(n, us[i + 1..])) == all
      else groups + [DecimalString(n / c) + " " + Label(Term(n / c, c))]
             + Renders(Decompose(n % c, us[i + 1..])) == all
  {
    var c := us[i];
    assert us[i..][1..] == us[i + 1..];
    if n / c != 0 {
      RendersCons(Term(n / c, c), Decompose(n % c, us[i + 1..]));
    }
  }

  /** The loop of human(): for each unit of the table, the quotient of what
      is left; a zero quotient is skipped, any other one is written with the
      unit's name (plural unless it is 1) and only the remainder is kept. */
  method CollectGroups(n0: Duration, us: seq<Unit>) returns (groups: seq<string>)
    requires 0 <= n0
    ensures groups == Renders(Decompose(n0, us))
  {
    groups := [];
    var n: Duration := n0;
    ghost var all := Renders(Decompose(n0, us));
    for i := 0 to |us|
      invariant 0 <= n <= MaxInt64
      invariant groups + Renders(Decompose(n, us[i..])) == all
    {
      var c := us[i];
      Arith.DivModBounds(n, c);
      var value := n / c;
      if value == 0 {
        GroupsStep(groups, all, n, us, i);
        continue;
      }
      var name := UnitName(c);
      if value != 1 {
        name := name + "s";
      }
      assert name == Label(Term(value, c));
      GroupsStep(groups, all, n, us, i);
      groups := groups + [DecimalString(value) + " " + name];
      n := n % c;
    }
    assert us[|us|..] == [];
  }

  function Abs(d: int): nat {
    if d < 0 then -d else d
  }

  /** The text human() returns for `d`: the rendered terms of |d| over the
      unit table, joined by spaces, followed by " ago" when `d` is negative. */
  function HumanText(d: Duration): string
    requires d != MinInt64
  {
    var r := JoinSpace(Renders(Decompose(Abs(d), Units)));
    if d < 0 then r + " ago" else r
  }

  /** human(): negate a negative span and remember it, collect the groups
      over the unit table, join them with spaces and mark the past. */
  method Human(d: Duration) returns (s: string)
    requires d != MinInt64
    ensures s == HumanText(d)
  {
    var past := false;
    var n := d;
    if n < 0 {
      past := true;
      n := n * -1;
    }
    assert n == Abs(d);
    var groups := CollectGroups(n, Units);
    var r := JoinSpace(groups);
    if past {
      return r + " ago";
    }
    return r;
  }

  /** Name(): the singular name of one of the eight constants, otherwise the
      human() text of the span. */
  function Name(d: Duration): string
    requires d != MinInt64
  {
    if IsUnit(d) then UnitName(d) else HumanText(d)
  }

  /** String(): the fmt.Stringer hook, an alias for Name(). */
  function String(d: Duration): string
    requires d != MinInt64
  {
    Name(d)
  }

  /** Go's `%` for a positive divisor: the remainder takes the sign of the
      dividend, because Go's division truncates toward zero. */
  function TruncRem(a: int, b: int): (r: int)
    requires b > 0
    ensures (a - r) % b == 0
    ensures a >= 0 ==> 0 <= r < b
    ensures a < 0 ==> -b < r <= 0
  {
    if a >= 0 then
      Arith.RemOffMultiple(a, b);
      a % b
    else
      Arith.NegRemOffMultiple(a, b);
      -((-a) % b)
  }

  /** The value Round(d, to) computes is representable as an int64. */
  predicate RoundFits(d: Duration, to: Duration)
    requires to > 0
  {
    if d < 0 then MinInt64 + to <= d as int - (-(d as int)) % to
    else d as int - d % to <= MaxInt64 - to
  }

  /** Round(): for d >= 0 the next multiple of `to` strictly above d; for
      d < 0, d + (d % to) - to with Go's truncated remainder, which lies as
      far below d - to as d lies below the multiple of `to` next toward zero. */
  function Round(d: Duration, to: Duration): (r: Duration)
    requires to > 0
    requires RoundFits(d, to)
    ensures d >= 0 ==> r % to == 0 && d < r <= d + to
    ensures d < 0 ==> d - 2 * to < r <= d - to
    ensures d < 0 ==> (d - to) - r == (-d) % to
  {
    if d < 0 then d + TruncRem(d, to) - to
    else
      Arith.NextMultiple(d, to);
      d - TruncRem(d, to) + to
  }

  // ---------------------------------------------------------------------
  // What human() promises about its terms.

  /** The table is in strictly decreasing order. */
  predicate Descending(us: seq<Unit>) {
    forall i, j :: 0 <= i < j < |us| ==> us[i] > us[j]
  }

  predicate TermsDescending(ts: seq<Term>) {
    forall i, j :: 0 <= i < j < |ts| ==> ts[i].unit > ts[j].unit
  }

  lemma UnitsDescending()
    ensures Descending(Units)
  {
  }

  /** Every emitted term has a non-zero count and a unit taken from the table. */
  lemma {:induction false} DecomposeTerms(n: nat, us: seq<Unit>)
    ensures forall t :: t in Decompose(n, us) ==> t.count > 0 && t.unit in us
    decreases |us|
  {
    if us != [] {
      var u := us[0];
      if n / u == 0 {
        DecomposeTerms(n, us[1..]);
      } else {
        DecomposeTerms(n % u, us[1..]);
      }
    }
  }

  /** Over a decreasing table the emitted units strictly decrease too, so
      no unit appears twice. */
  lemma {:induction false} DecomposeDescending(n: nat, us: seq<Unit>)
    requires Descending(us)
    ensures TermsDescending(Decompose(n, us))
    decreases |us|
  {
    if us != [] {
      var u := us[0];
      var rest := us[1..];
      assert Descending(rest);
      if n / u == 0 {
        DecomposeDescending(n, rest);
      } else {
        DecomposeDescending(n % u, rest);
        DecomposeTerms(n % u, rest);
        var ts := Decompose(n % u, rest);
        forall k | 0 <= k < |ts|
          ensures u > ts[k].unit
        {
          assert ts[k] in ts;
          var j :| 0 <= j < |rest| && rest[j] == ts[k].unit;
          assert us[j + 1] == rest[j];
        }
      }
    }
  }

  /** The counts times their units add back up to the span whenever the
      table ends with the nanosecond, as human()'s table does. */
  lemma {:induction false} DecomposeSum(n: nat, us: seq<Unit>)
    requires us != [] && us[|us| - 1] == Nanosecond
    ensures Sum(Decompose(n, us)) == n
    decreases |us|
  {
    var u := us[0];
    var rest := us[1..];
    var q := n / u;
    if |us| == 1 {
      assert u == 1 && rest == [];
      if q != 0 {
        var ts := [Term(q, u)];
        assert ts[1..] == [];
      }
    } else {
      assert rest[|rest| - 1] == Nanosecond;
      if q == 0 {
        DecomposeSum(n, rest);
      } else {
        DecomposeSum(n % u, rest);
        var tail := Decompose(n % u, rest);
        assert ([Term(q, u)] + tail)[1..] == tail;
        assert n == u * q + n % u;
      }
    }
  }

  /** The exclusive bound on what can be left of the span when a unit is
      reached: the next larger unit of the table, and for the year (the
      first unit) the int64 range itself. */
  function Ceiling(u: Unit): (c: int)
    ensures c > u
  {
    if u == Year then MaxInt64 + 1
    else if u == Week then Year
    else if u == Day then Week
    else if u == Hour then Day
    else if u == Minute then Hour
    else if u == Second then Minute
    else if u == Millisecond then Second
    else assert IsUnit(u); Millisecond
  }

  /** Each unit of the table is preceded by its ceiling. */
  predicate Chained(us: seq<Unit>) {
    forall j :: 0 < j < |us| ==> Ceiling(us[j]) == us[j - 1]
  }

  lemma UnitsChained()
    ensures Chained(Units)
  {
  }

  /** What each emitted term stands for stays below the ceiling of its unit:
      only the remainder of the larger units is carried on. */
  lemma {:induction false} CarryBound(n: nat, us: seq<Unit>)
    requires Chained(us)
    requires us != [] ==> n < Ceiling(us[0])
    ensures forall t :: t in Decompose(n, us) ==> t.count * t.unit < Ceiling(t.unit)
    decreases |us|
  {
    if us != [] {
      var u := us[0];
      var rest := us[1..];
      var q := n / u;
      assert Chained(rest);
      assert n == u * q + n % u;
      if q == 0 {
        assert rest != [] ==> Ceiling(rest[0]) == u;
        CarryBound(n, rest);
      } else {
        assert rest != [] ==> Ceiling(rest[0]) == u;
        CarryBound(n % u, rest);
      }
    }
  }

  /** From each term on, the counts are positive and the rest of the list
      adds up to less than the ceiling of that term's unit, so no larger
      unit could have taken any of it. */
  predicate CarryFits(ts: seq<Term>)
    decreases |ts|
  {
    ts == [] ||
    (ts[0].count > 0 && Sum(ts) < Ceiling(ts[0].unit) && CarryFits(ts[1..]))
  }

  /** A term list human() could have written: units strictly decreasing and
      every carry within its ceiling. */
  predicate Canonical(ts: seq<Term>) {
    TermsDescending(ts) && CarryFits(ts)
  }

  /** The unit tables human() can walk: strictly decreasing, each unit
      preceded by its ceiling, and ending with the nanosecond. */
  predicate IsTable(us: seq<Unit>) {
    us != [] && Descending(us) && Chained(us) && us[|us| - 1] == Nanosecond
  }

  lemma UnitsIsTable()
    ensures IsTable(Units)
  {
    UnitsDescending();
    UnitsChained();
  }

  /** A unit of the table other than the first sits under the first one. */
  lemma {:induction false} BelowHead(us: seq<Unit>, v: Unit)
    requires Descending(us) && Chained(us) && v in us && v != us[0]
    ensures v < us[0] && Ceiling(v) <= us[0] && v in us[1..]
  {
    var j :| 0 <= j < |us| && us[j] == v;
    assert j > 0;
    assert us[1..][j - 1] == v;
    if j > 1 {
      assert us[0] > us[j - 1];
    }
  }

  lemma CanonicalTail(ts: seq<Term>)
    requires Canonical(ts) && ts != []
    ensures Canonical(ts[1..])
  {
    var tail := ts[1..];
    forall i, j | 0 <= i < j < |tail|
      ensures tail[i].unit > tail[j].unit
    {
      assert tail[i] == ts[i + 1] && tail[j] == ts[j + 1];
    }
  }

  lemma SumCons(t: Term, ts: seq<Term>)
    ensures Sum([t] + ts) == t.count * t.unit + Sum(ts)
  {
    assert ([t] + ts)[1..] == ts;
  }

  /** Over a table, what human() emits for a span below the table's first
      ceiling is canonical and adds up to the span. */
  lemma {:induction false} DecomposeIsCanonical(n: nat, us: seq<Unit>)
    requires IsTable(us) && n < Ceiling(us[0])
    ensures Canonical(Decompose(n, us)) && Sum(Decompose(n, us)) == n
    decreases |us|
  {
    DecomposeSum(n, us);
    var u := us[0];
    var rest := us[1..];
    var q := n / u;
    var c := if q == 0 then n else n % u;
    assert n == u * q + n % u;
    if rest != [] {
      assert IsTable(rest) && Ceiling(rest[0]) == u;
      DecomposeIsCanonical(c, rest);
    }
    if q != 0 {
      var tail := Decompose(c, rest);
      var ts := [Term(q, u)] + tail;
      DecomposeTerms(c, rest);
      forall i, j | 0 <= i < j < |ts|
        ensures ts[i].unit > ts[j].unit
      {
        if i == 0 {
          assert tail[j - 1] in tail;
          BelowHead(us, tail[j - 1].unit);
        } else {
          assert ts[i] == tail[i - 1] && ts[j] == tail[j - 1];
        }
      }
      assert ts[1..] == tail;
    }
  }

  /** Conversely, a canonical term list whose units come from the table is
      exactly what human() emits for its sum: the terms of a span are unique. */
  lemma {:induction false} CanonicalIsDecompose(ts: seq<Term>, us: seq<Unit>)
    requires Descending(us) && Chained(us) && Canonical(ts)
    requires forall t :: t in ts ==> t.unit in us
    requires us != [] ==> Sum(ts) < Ceiling(us[0])
    ensures Decompose(Sum(ts), us) == ts
    decreases |us|, 1
  {
    if ts == [] {
      DecomposeZero(us);
    } else if us != [] && ts[0].unit == us[0] {
      TakenCase(ts, us);
    } else if us != [] {
      SkippedCase(ts, us);
    }
  }

  /** When the first term does not use the table's first unit, no term
      does: all of them come from the rest of the table. */
  lemma UnitsInRest(ts: seq<Term>, us: seq<Unit>)
    requires Descending(us) && Chained(us) && TermsDescending(ts)
    requires forall t :: t in ts ==> t.unit in us
    requires us != [] && (ts != [] ==> ts[0].unit != us[0])
    ensures forall t :: t in ts ==> t.unit in us[1..]
  {
    forall t | t in ts
      ensures t.unit in us[1..]
    {
      var j :| 0 <= j < |ts| && ts[j] == t;
      assert ts[0] in ts;
      assert j == 0 || ts[0].unit > ts[j].unit;
      BelowHead(us, ts[0].unit);
      BelowHead(us, t.unit);
    }
  }

  /** The first unit of the table is the first term's unit: its count is
      the quotient and the other terms are what the remainder decomposes into. */
  lemma {:induction false} TakenCase(ts: seq<Term>, us: seq<Unit>)
    requires Descending(us) && Chained(us) && Canonical(ts)
    requires forall t :: t in ts ==> t.unit in us
    requires us != [] && ts != [] && ts[0].unit == us[0]
    ensures Decompose(Sum(ts), us) == ts
    decreases |us|, 0
  {
    var tail := ts[1..];
    var c := ts[0].count;
    TailFits(ts, us);
    CanonicalIsDecompose(tail, us[1..]);
    assert ts == [Term(c, us[0])] + tail;
    SumCons(Term(c, us[0]), tail);
    HeadTaken(Sum(ts), c, Sum(tail), us);
  }

  /** When the first unit of the table goes `c > 0` times into `n` with
      remainder `r`, human() writes that term and goes on with `r`. */
  lemma HeadTaken(n: nat, c: nat, r: nat, us: seq<Unit>)
    requires us != [] && c > 0 && r < us[0] && n == us[0] * c + r
    ensures Decompose(n, us) == [Term(c, us[0])] + Decompose(r, us[1..])
  {
    Arith.DivModUnique(n, c, r, us[0]);
  }

  /** Behind a term that takes the table's first unit, the other terms are
      a canonical list over the rest of the table that stays below that unit. */
  lemma TailFits(ts: seq<Term>, us: seq<Unit>)
    requires Descending(us) && Chained(us) && Canonical(ts)
    requires forall t :: t in ts ==> t.unit in us
    requires ts != [] && us != [] && ts[0].unit == us[0]
    ensures Descending(us[1..]) && Chained(us[1..]) && Canonical(ts[1..])
    ensures forall t :: t in ts[1..] ==> t.unit in us[1..]
    ensures Sum(ts[1..]) < us[0]
  {
    var tail := ts[1..];
    CanonicalTail(ts);
    assert forall t :: t in tail ==> t.unit in us by {
      forall t | t in tail
        ensures t.unit in us
      {
        assert t in ts;
      }
    }
    assert tail != [] ==> tail[0].unit != us[0] by {
      if tail != [] {
        assert ts[0].unit > ts[1].unit;
      }
    }
    UnitsInRest(tail, us);
    if tail != [] {
      assert tail[0] in tail;
      BelowHead(us, tail[0].unit);
    }
  }

  /** The first unit of the table is above every term: its quotient is zero
      and the table's rest takes all of the sum. */
  lemma {:induction false} SkippedCase(ts: seq<Term>, us: seq<Unit>)
    requires Descending(us) && Chained(us) && Canonical(ts)
    requires forall t :: t in ts ==> t.unit in us
    requires us != [] && Sum(ts) < Ceiling(us[0])
    requires ts != [] && ts[0].unit != us[0]
    ensures Decompose(Sum(ts), us) == ts
    decreases |us|, 0
  {
    var u := us[0];
    var rest := us[1..];
    assert Descending(rest) && Chained(rest) by {
    }
    UnitsInRest(ts, us);
    assert Sum(ts) < u by {
      assert ts[0] in ts;
      BelowHead(us, ts[0].unit);
    }
    Arith.DivModUnique(Sum(ts), 0, Sum(ts), u);
    CanonicalIsDecompose(ts, rest);
  }

  /** The largest count human() can write for each unit. */
  function MaxCount(u: Unit): nat {
    if u == Year then 292
    else if u == Week then 52
    else if u == Day then 6
    else if u == Hour then 23
    else if u == Minute then 59
    else if u == Second then 59
    else if u == Millisecond then 999
    else 999999
  }

  /** Every count human() writes is positive and below the carry of the
      larger unit: at most 292 years, 52 weeks, 6 days, 23 hours, 59
      minutes, 59 seconds, 999 milliseconds and 999999 nanoseconds. */
  lemma HumanCounts(d: Duration)
    requires d != MinInt64
    ensures forall t :: t in Decompose(Abs(d), Units) ==> 0 < t.count <= MaxCount(t.unit)
  {
    UnitsChained();
    CarryBound(Abs(d), Units);
    DecomposeTerms(Abs(d), Units);
  }

  /** The terms of a span have strictly decreasing units and add up to its
      magnitude. */
  lemma HumanTerms(d: Duration)
    requires d != MinInt64
    ensures TermsDescending(Decompose(Abs(d), Units))
    ensures Sum(Decompose(Abs(d), Units)) == Abs(d)
  {
    UnitsDescending();
    DecomposeDescending(Abs(d), Units);
    DecomposeSum(Abs(d), Units);
  }

  /** The terms of a span are the canonical list that adds up to it. */
  lemma TermsOfSpan(n: nat, ts: seq<Term>)
    requires Canonical(ts) && Sum(ts) == n <= MaxInt64
    ensures Decompose(n, Units) == ts
  {
    forall t | t in ts
      ensures t.unit in Units
    {
      UnitsComplete(t.unit);
    }
    UnitsIsTable();
    CanonicalIsDecompose(ts, Units);
  }

  /** A label ends in "s" exactly when the count is not 1. */
  lemma LabelPlural(t: Term)
    ensures var l := Label(t);
      (l == UnitName(t.unit) || l == UnitName(t.unit) + "s") &&
      (l[|l| - 1] == 's' <==> t.count != 1)
  {
  }

  lemma {:induction false} DecomposeZero(us: seq<Unit>)
    ensures Decompose(0, us) == []
    decreases |us|
  {
    if us != [] {
      DecomposeZero(us[1..]);
    }
  }

  /** Over a decreasing table a unit of the table decomposes into one of itself. */
  lemma {:induction false} DecomposeOfUnit(us: seq<Unit>, j: nat)
    requires Descending(us) && j < |us|
    ensures Decompose(us[j], us) == [Term(1, us[j])]
    decreases |us|
  {
    var u := us[0];
    if j == 0 {
      DecomposeZero(us[1..]);
    } else {
      assert us[j] < u;
      assert Descending(us[1..]) && us[1..][j - 1] == us[j];
      DecomposeOfUnit(us[1..], j - 1);
    }
  }

  /** The table holds every one of the eight units. */
  lemma UnitsComplete(u: Unit)
    ensures u in Units
  {
    assert IsUnit(u);
  }

  /** human() of a constant is "1 <name>", not the bare name Name() gives it. */
  lemma HumanOfUnit(u: Unit)
    ensures HumanText(u) == "1 " + UnitName(u)
    ensures Name(u) == UnitName(u) != HumanText(u)
  {
    UnitsComplete(u);
    var j :| 0 <= j < |Units| && Units[j] == u;
    UnitsDescending();
    DecomposeOfUnit(Units, j);
    assert Renders([Term(1, u)]) == [Render(Term(1, u))];
    assert DecimalString(1) == "1";
  }

  /** human() of zero is empty, and only of zero. */
  lemma HumanEmpty(d: Duration)
    requires d != MinInt64
    ensures HumanText(d) == "" <==> d == 0
  {
    if d == 0 {
      DecomposeZero(Units);
    } else if d > 0 {
      DecomposeSum(d, Units);
      var ts := Decompose(d, Units);
      assert ts != [];
      var parts := Renders(ts);
      assert parts[0] == Render(ts[0]);
    }
  }

  /** A negative span reads as its magnitude followed by " ago". */
  lemma HumanPast(d: Duration)
    requires 0 < d
    ensures HumanText(-d) == HumanText(d) + " ago"
  {
  }

  /** The text of a non-zero span starts with its first group, whose count
      and label are separated by a space. */
  lemma HumanHasSpace(d: Duration)
    requires d != MinInt64 && d != 0
    ensures !NoSpace(HumanText(d))
  {
    var n := Abs(d);
    DecomposeSum(n, Units);
    var ts := Decompose(n, Units);
    assert ts != [];
    var parts := Renders(ts);
    assert parts[0] == Render(ts[0]);
    var k := |DecimalString(ts[0].count)|;
    assert parts[0][k] == ' ';
    var r := JoinSpace(parts);
    assert r[k] == ' ';
    assert HumanText(d)[k] == ' ';
  }

  /** Name() is a single word exactly for the eight constants, and for zero,
      whose text is empty; every other span gets several words. */
  lemma NameOneWord(d: Duration)
    requires d != MinInt64
    ensures NoSpace(Name(d)) <==> IsUnit(d) || d == 0
    ensures String(d) == Name(d)
  {
    if d == 0 {
      DecomposeZero(Units);
    } else if !IsUnit(d) {
      HumanHasSpace(d);
    }
  }

  // ---------------------------------------------------------------------
  // What Round() does.

  /** For a non-negative span Round() gives the least multiple of `to`
      strictly above it. */
  lemma RoundLeastMultipleAbove(d: Duration, to: Duration, m: int)
    requires 0 <= d && 0 < to && RoundFits(d, to)
    requires m % to == 0 && d < m
    ensures Round(d, to) <= m
  {
    var base := d - TruncRem(d, to);
    var a := m / to;
    var b := base / to;
    assert m == to * a;
    assert base == to * b;
    assert m - base == to * (a - b);
    if a - b >= 1 {
      Arith.MulAtLeast(to, a - b);
    } else {
      Arith.MulMonotone(to, a - b, 0);
    }
  }

  /** A span that is already a multiple of `to` still moves by a whole `to`:
      up when it is non-negative, down when it is negative. */
  lemma RoundExactMultiple(d: Duration, to: Duration)
    requires 0 < to && RoundFits(d, to)
    requires d % to == 0
    ensures Round(d, to) == if d < 0 then d - to else d + to
  {
    var q := d / to;
    assert d == to * q;
    Arith.MultipleMod(-q, to);
    assert -d == to * -q;
  }

  /** Rounding an already rounded non-negative span advances it again. */
  lemma RoundAdvancesAgain(d: Duration, to: Duration)
    requires 0 <= d && 0 < to && RoundFits(d, to)
    requires RoundFits(Round(d, to), to)
    ensures Round(Round(d, to), to) == Round(d, to) + to
  {
    RoundExactMultiple(Round(d, to), to);
  }

  /** For a negative span the result is a multiple of `to` only when Go's
      remainder is zero or exactly minus half of `to`. */
  lemma RoundNegativeMultiple(d: Duration, to: Duration)
    requires d < 0 && 0 < to && RoundFits(d, to)
    ensures Round(d, to) % to == 0 <==> TruncRem(d, to) == 0 || 2 * TruncRem(d, to) == -to
  {
    var t := TruncRem(d, to);
    Arith.MultipleMod(-1, to);
    Arith.ModAddMultiple(d - t, -to, to);
    Arith.ModAddMultiple(d - t - to, 2 * t, to);
    assert Round(d, to) == (d - t - to) + 2 * t;
    Arith.TwiceMultiple(t, to);
  }

  /** Round() is symmetric about zero exactly when the span is a multiple
      of `to`. */
  lemma RoundMirror(d: Duration, to: Duration)
    requires d < 0 && 0 < to && RoundFits(d, to) && RoundFits(-d, to)
    ensures Round(d, to) == -Round(-d, to) <==> TruncRem(d, to) == 0
  {
  }
}
