/** The `grpc-timeout` header (grpc/timeout.rs): a decimal count and a unit. */
module Timeout {
  import opened Wrappers
  import opened WireBasics
  import opened Decimal

  const NANOS: nat := 1_000_000_000

  /** `std::time::Duration` */
  datatype Duration = Duration(secs: nat, nanos: nat)

  predicate Valid(d: Duration) {
    d.secs < U64 && d.nanos < NANOS
  }

  function AsNanos(d: Duration): nat {
    d.secs * NANOS + d.nanos
  }

  datatype Unit = Hour | Minute | Second | Milli | Micro | Nano

  function UnitNanos(u: Unit): (n: nat)
    ensures n >= 1
  {
    match u
    case Hour => 3600 * NANOS
    case Minute => 60 * NANOS
    case Second => NANOS
    case Milli => 1_000_000
    case Micro => 1_000
    case Nano => 1
  }

  function Letter(u: Unit): (c: char)
    ensures c < 128 as char && UnitOf(c) == Some(u)
  {
    match u
    case Hour => 'H'
    case Minute => 'M'
    case Second => 'S'
    case Milli => 'm'
    case Micro => 'u'
    case Nano => 'n'
  }

  function UnitOf(c: char): Option<Unit> {
    match c
    case 'H' => Some(Hour)
    case 'M' => Some(Minute)
    case 'S' => Some(Second)
    case 'm' => Some(Milli)
    case 'u' => Some(Micro)
    case 'n' => Some(Nano)
    case _ => None
  }

  /** `Panics`: splitting a string inside a character. */
  datatype Parsed = Parsed(d: Duration) | TooShort | BadCount | BadUnit | Overflows | Panics

  /** `parse_timeout` */
  function ParseTimeout(value: string): Parsed {
    if |value| == 0 then TooShort
    else
      var last := value[|value| - 1];
      if last >= 128 as char then Panics
      else if |value| < 2 then TooShort
      else
        var count := ParseUnsigned(value[..|value| - 1], U64);
        if count.None? then BadCount
        else
          var n := count.value;
          match UnitOf(last)
          case None => BadUnit
          case Some(Hour) => if n * 3600 < U64 then Parsed(Duration(n * 3600, 0)) else Overflows
          case Some(Minute) => if n * 60 < U64 then Parsed(Duration(n * 60, 0)) else Overflows
          case Some(Second) => Parsed(Duration(n, 0))
          case Some(Milli) => Parsed(Duration(n / 1000, n % 1000 * 1_000_000))
          case Some(Micro) => Parsed(Duration(n / 1_000_000, n % 1_000_000 * 1_000))
          case Some(Nano) => Parsed(Duration(n / NANOS, n % NANOS))
  }

  /** The unit and the count `format_timeout` prints. */
  function Choice(d: Duration): (r: (Unit, nat))
    requires Valid(d)
  {
    var total := AsNanos(d);
    if total % NANOS == 0 then
      if d.secs % 3600 == 0 then (Hour, d.secs / 3600)
      else if d.secs % 60 == 0 then (Minute, d.secs / 60)
      else (Second, d.secs)
    else if total % 1_000_000 == 0 then (Milli, total / 1_000_000)
    else if total % 1_000 == 0 then (Micro, total / 1_000)
    else (Nano, total)
  }

  /** `format_timeout` */
  function FormatTimeout(d: Duration): string
    requires Valid(d)
  {
    Show(Choice(d).1) + [Letter(Choice(d).0)]
  }

  // ------------------------------------------------------------------------ exact units

  ghost predicate Exact(d: Duration, u: Unit) {
    AsNanos(d) % UnitNanos(u) == 0
  }

  lemma ModMultiple(a: nat, k: nat, b: nat)
    requires b > 0
    ensures (a + k * b) % b == a % b
    ensures (a + k * b) / b == a / b + k
  {
    var (q, r) := (a / b, a % b);
    assert a + k * b == (q + k) * b + r;
    DivModUnique(a + k * b, b, q + k, r);
  }

  lemma Multiples(k: int, b: int)
    requires b > 0
    ensures k >= 1 ==> k * b >= b
    ensures k <= -1 ==> k * b <= -b
  {
    if k >= 1 { assert k * b >= 1 * b; }
    if k <= -1 { assert k * b <= -1 * b; }
  }

  lemma DivModUnique(n: nat, b: nat, q: nat, r: nat)
    requires b > 0 && r < b && n == q * b + r
    ensures n / b == q && n % b == r
  {
    var (q', r') := (n / b, n % b);
    assert n == q' * b + r';
    assert (q - q') * b == r' - r;
    Multiples(q - q', b);
  }

  lemma ExactMeaning(d: Duration)
    requires Valid(d)
    ensures Exact(d, Hour) <==> d.nanos == 0 && d.secs % 3600 == 0
    ensures Exact(d, Minute) <==> d.nanos == 0 && d.secs % 60 == 0
    ensures Exact(d, Second) <==> d.nanos == 0
    ensures Exact(d, Milli) <==> d.nanos % 1_000_000 == 0
    ensures Exact(d, Micro) <==> d.nanos % 1_000 == 0
    ensures AsNanos(d) % NANOS == d.nanos && AsNanos(d) / NANOS == d.secs
  {
    DivModUnique(AsNanos(d), NANOS, d.secs, d.nanos);
    assert AsNanos(d) == d.nanos + d.secs * 1000 * 1_000_000;
    ModMultiple(d.nanos, d.secs * 1000, 1_000_000);
    assert AsNanos(d) == d.nanos + d.secs * 1_000_000 * 1_000;
    ModMultiple(d.nanos, d.secs * 1_000_000, 1_000);
    CoarseUnit(d, 3600);
    CoarseUnit(d, 60);
  }

  lemma CoarseUnit(d: Duration, k: nat)
    requires Valid(d) && k > 0
    ensures AsNanos(d) % (k * NANOS) == 0 <==> d.nanos == 0 && d.secs % k == 0
  {
    var (q, r) := (d.secs / k, d.secs % k);
    assert d.secs == q * k + r;
    assert AsNanos(d) == q * (k * NANOS) + (r * NANOS + d.nanos);
    assert r * NANOS + d.nanos < k * NANOS by {
      assert r + 1 <= k;
      assert (r + 1) * NANOS <= k * NANOS;
    }
    DivModUnique(AsNanos(d), k * NANOS, q, r * NANOS + d.nanos);
  }

  /** The count times the unit is the duration. */
  lemma ChoiceExact(d: Duration)
    requires Valid(d)
    ensures AsNanos(d) == Choice(d).1 * UnitNanos(Choice(d).0)
  {
    var (chosen, count) := Choice(d);
    match chosen
    case Hour =>
      WholeSeconds(d);
      assert d.secs == count * 3600;
    case Minute =>
      WholeSeconds(d);
      assert d.secs == count * 60;
    case Second => WholeSeconds(d);
    case Milli => assert AsNanos(d) == AsNanos(d) / 1_000_000 * 1_000_000 + AsNanos(d) % 1_000_000;
    case Micro => assert AsNanos(d) == AsNanos(d) / 1_000 * 1_000 + AsNanos(d) % 1_000;
    case Nano =>
  }

  lemma WholeSeconds(d: Duration)
    requires Valid(d) && AsNanos(d) % NANOS == 0
    ensures AsNanos(d) == d.secs * NANOS
  {
    DivModUnique(AsNanos(d), NANOS, d.secs, d.nanos);
  }

  /** The unit chosen divides the duration, the count is the quotient, and no coarser unit divides it. */
  lemma CoarsestExact(d: Duration, u: Unit)
    requires Valid(d)
    ensures var (chosen, count) := Choice(d);
            && AsNanos(d) == count * UnitNanos(chosen)
            && (UnitNanos(u) > UnitNanos(chosen) ==> !Exact(d, u))
  {
    ExactMeaning(d);
    ChoiceExact(d);
  }

  /** What an accepted text denotes. */
  lemma ParseMeaning(value: string)
    requires ParseTimeout(value).Parsed?
    ensures var d := ParseTimeout(value).d;
            && Valid(d) && |value| >= 2 && UnitOf(value[|value| - 1]).Some?
            && ParseUnsigned(value[..|value| - 1], U64).Some?
            && AsNanos(d) ==
               ParseUnsigned(value[..|value| - 1], U64).value * UnitNanos(UnitOf(value[|value| - 1]).value)
  {
    var n := ParseUnsigned(value[..|value| - 1], U64).value;
    match UnitOf(value[|value| - 1]).value
    case Milli => assert n == n / 1000 * 1000 + n % 1000;
    case Micro => assert n == n / 1_000_000 * 1_000_000 + n % 1_000_000;
    case Nano => assert n == n / NANOS * NANOS + n % NANOS;
    case _ =>
  }

  lemma SameNanos(a: Duration, b: Duration)
    requires Valid(a) && Valid(b) && AsNanos(a) == AsNanos(b)
    ensures a == b
  {
    ExactMeaning(a);
    ExactMeaning(b);
  }

  /** Parsing the printed form gives the duration back if and only if the printed count fits 64 bits. */
  lemma TimeoutRoundTrip(d: Duration)
    requires Valid(d)
    ensures ParseTimeout(FormatTimeout(d)) == Parsed(d) <==> Choice(d).1 < U64
    ensures Choice(d).1 >= U64 ==> ParseTimeout(FormatTimeout(d)) == BadCount
  {
    var (u, n) := Choice(d);
    var text := FormatTimeout(d);
    assert text[..|text| - 1] == Show(n) && text[|text| - 1] == Letter(u);
    ShowParses(n, U64);
    if n < U64 {
      CoarsestExact(d, u);
      assert ParseTimeout(text).Parsed? by {
        if u.Hour? { assert n * 3600 == d.secs; }
        if u.Minute? { assert n * 60 == d.secs; }
      }
      ParseMeaning(text);
      SameNanos(ParseTimeout(text).d, d);
    }
  }

  /** No accepted text for the same duration is shorter. */
  lemma MostCompact(d: Duration, value: string)
    requires Valid(d) && ParseTimeout(value) == Parsed(d)
    ensures |FormatTimeout(d)| <= |value|
  {
    ParseMeaning(value);
    var (u, n) := Choice(d);
    var (text, u') := (value[..|value| - 1], UnitOf(value[|value| - 1]).value);
    var digits := if text[0] == '+' then text[1..] else text;
    var n' := Value(digits);
    CoarsestExact(d, u');
    assert Exact(d, u') by { DivModUnique(AsNanos(d), UnitNanos(u'), n', 0); }
    assert n <= n' by {
      if n > n' { Products(n', UnitNanos(u'), n, UnitNanos(u)); }
    }
    ShowShortest(n, digits);
  }

  lemma Products(a: nat, b: nat, c: nat, e: nat)
    requires a < c && b <= e && e > 0
    ensures a * b < c * e
  {
    assert a * b <= a * e;
    assert a * e < c * e;
  }

  // --------------------------------------------------------------------- the texts themselves

  /** A count, perhaps behind a plus, and a last character: all that can come of it. */
  lemma TimeoutReads(plus: bool, s: string, ds: seq<nat>, c: char)
    requires Spells(s, ds) && |ds| > 0
    ensures var n := Number(ds);
            ParseTimeout((if plus then "+" + s else s) + [c]) ==
            if c as int >= 128 then Panics
            else if n >= 0x1_0000_0000_0000_0000 then BadCount
            else
              match c
              case 'H' => if n * 3600 < 0x1_0000_0000_0000_0000 then Parsed(Duration(n * 3600, 0)) else Overflows
              case 'M' => if n * 60 < 0x1_0000_0000_0000_0000 then Parsed(Duration(n * 60, 0)) else Overflows
              case 'S' => Parsed(Duration(n, 0))
              case 'm' => Parsed(Duration(n / 1000, n % 1000 * 1000000))
              case 'u' => Parsed(Duration(n / 1000000, n % 1000000 * 1000))
              case 'n' => Parsed(Duration(n / 1000000000, n % 1000000000))
              case _ => BadUnit
  {
    hide ParseUnsigned, Spells, Number;
    UnsignedReads(s, ds, U64);
    var count := if plus then "+" + s else s;
    assert |count| > 0 by { assert |s| > 0 by { SpelledLength(s, ds); } }
    var value := count + [c];
    assert value[..|value| - 1] == count;
  }

  lemma SpelledLength(s: string, ds: seq<nat>)
    requires Spells(s, ds)
    ensures |s| == |ds|
  {
  }

  /** Every text that is accepted is of that form. */
  lemma TimeoutParses(value: string) returns (plus: bool, s: string, ds: seq<nat>, c: char)
    requires ParseTimeout(value).Parsed?
    ensures Spells(s, ds) && |ds| > 0 && value == (if plus then "+" + s else s) + [c]
    ensures c in "HMSmun"
  {
    hide ParseUnsigned, Spells, Number;
    c := value[|value| - 1];
    var count := value[..|value| - 1];
    plus, ds := UnsignedParses(count, U64);
    s := if plus then count[1..] else count;
    assert value == count + [c];
  }

  /** What is printed: the count of the unit, without leading zeros, and the letter of the unit. */
  lemma TimeoutWritten(d: Duration) returns (ds: seq<nat>, c: char, nanos: nat)
    requires Valid(d)
    ensures (c, nanos) in [('H', 3600000000000), ('M', 60000000000), ('S', 1000000000), ('m', 1000000), ('u', 1000), ('n', 1)]
    ensures Number(ds) * nanos == d.secs * 1000000000 + d.nanos && |ds| > 0 && (ds[0] == 0 ==> Number(ds) == 0)
    ensures |FormatTimeout(d)| == |ds| + 1 && Spells(FormatTimeout(d)[..|ds|], ds) && FormatTimeout(d)[|ds|] == c
  {
    hide Spells, Number, Show, Choice;
    var (u, n) := Choice(d);
    ds := ShowSpells(n);
    c, nanos := Letter(u), UnitNanos(u);
    CoarsestExact(d, u);
    SpelledLength(Show(n), ds);
    assert FormatTimeout(d)[..|ds|] == Show(n);
  }
}
