/** The JSON text of a protobuf Duration (json/well_known.rs). */
module JsonDuration {
  import opened Wrappers
  import opened Decimal

  const I64: int := 0x8000_0000_0000_0000
  const I32: int := 0x8000_0000
  const NANOS: nat := 1_000_000_000

  function Abs(n: int): nat {
    if n < 0 then -n else n
  }

  function Fraction(nanos: int): string {
    TrimZeros(ZeroPadded(Abs(nanos), 9))
  }

  function Format(secs: int, nanos: int): string {
    (if secs < 0 || (secs == 0 && nanos < 0) then "-" else "")
    + Show(Abs(secs)) + (if nanos != 0 then "." + Fraction(nanos) else "") + "s"
  }

  /** `Overflows`: the product of the sign and the least `i64`. */
  datatype Parsed = Parsed(secs: int, nanos: int) | MissingSuffix | BadSeconds | BadNanos | Overflows

  function DotAt(s: string): (k: nat)
    ensures k <= |s| && (k < |s| ==> s[k] == '.') && forall i :: 0 <= i < k ==> s[i] != '.'
  {
    if |s| == 0 then 0
    else if s[0] == '.' then 0
    else
      var k := DotAt(s[1..]);
      assert forall i :: 1 <= i < k + 1 ==> s[i] == s[1..][i - 1];
      k + 1
  }

  /** The nanoseconds of the text after the point: at most nine characters, padded on the right. */
  function ParseFraction(b: string): Option<int> {
    ParseSigned(PaddedRight(if |b| > 9 then b[..9] else b, 9), I32)
  }

  function ParseBody(sign: int, body: string): Parsed {
    var dot := DotAt(body);
    var secs := ParseSigned(body[..dot], I64);
    if secs.None? then BadSeconds
    else
      var nanos := if dot < |body| then ParseFraction(body[dot + 1..]) else Some(0);
      if nanos.None? then BadNanos
      else if sign * secs.value >= I64 then Overflows
      else Parsed(sign * secs.value, sign * nanos.value)
  }

  /** The text half of `duration_from_json`. */
  function Parse(s: string): Parsed {
    if |s| == 0 || s[|s| - 1] != 's' then MissingSuffix
    else
      var trimmed := s[..|s| - 1];
      if |trimmed| > 0 && trimmed[0] == '-' then ParseBody(-1, trimmed[1..]) else ParseBody(1, trimmed)
  }

  /** The signs do not contradict each other, and the nanoseconds are less than a second. */
  predicate Consistent(secs: int, nanos: int) {
    Abs(nanos) < NANOS && (secs > 0 ==> nanos >= 0) && (secs < 0 ==> nanos <= 0)
  }

  lemma Pow10Nine()
    ensures Pow10(9) == NANOS
  {
    assert Pow10(9) == 10 * (10 * (10 * Pow10(6)));
    assert Pow10(6) == 10 * (10 * (10 * Pow10(3)));
    assert Pow10(3) == 10 * (10 * (10 * Pow10(0)));
  }

  lemma FractionDigits(nanos: int)
    ensures AllDigits(Fraction(nanos))
  {
    TrimDigits(ZeroPadded(Abs(nanos), 9));
  }

  /** The printed fraction reads back as the nanoseconds while they are less than a second, and never otherwise. */
  lemma FractionReads(nanos: int)
    requires Abs(nanos) <= I32
    ensures ParseFraction(Fraction(nanos)) == Some(Abs(nanos)) <==> Abs(nanos) < NANOS
    ensures ParseFraction(Fraction(nanos)).Some? && ParseFraction(Fraction(nanos)).value >= 0
  {
    hide Fraction, ParseSigned, PaddedRight;
    FractionRange(nanos);
    if Abs(nanos) < NANOS { FractionBack(nanos); }
  }

  /** Whatever is printed reads back as something from zero up to a second. */
  lemma FractionRange(nanos: int)
    requires Abs(nanos) <= I32
    ensures ParseFraction(Fraction(nanos)).Some? && 0 <= ParseFraction(Fraction(nanos)).value < NANOS
  {
    hide Fraction;
    var t := Fraction(nanos);
    FractionDigits(nanos);
    var b := PaddedRight(if |t| > 9 then t[..9] else t, 9);
    assert |b| == 9 && AllDigits(b);
    Pow10Nine();
    ValueBelow(b);
    assert IsDigit(b[0]);
  }

  lemma FractionBack(nanos: int)
    requires Abs(nanos) < NANOS
    ensures ParseFraction(Fraction(nanos)) == Some(Abs(nanos))
  {
    var (n, t) := (Abs(nanos), Fraction(nanos));
    FractionDigits(nanos);
    Pow10Nine();
    ShowLength(n, 9);
    TrimThenPad(ZeroPadded(n, 9));
    ZeroPaddedValue(n, 9);
    assert |t| <= 9;
    var b := PaddedRight(t, 9);
    assert b == ZeroPadded(n, 9) && IsDigit(b[0]);
  }

  lemma FindDot(a: string, b: string)
    requires AllDigits(a)
    ensures DotAt(a + "." + b) == |a| && DotAt(a) == |a|
  {
    var s := a + "." + b;
    assert s[|a|] == '.';
    forall i | 0 <= i < |a|
      ensures s[i] != '.' && a[i] != '.'
    {
      assert IsDigit(a[i]);
    }
  }

  lemma BodyReads(sign: int, secs: int, nanos: int)
    requires sign == 1 || sign == -1
    requires -I64 <= secs < I64 && -I32 <= nanos < I32
    requires ParseFraction(Fraction(nanos)).Some?
    ensures var body := Show(Abs(secs)) + (if nanos != 0 then "." + Fraction(nanos) else "");
            var r := ParseBody(sign, body);
            if Abs(secs) >= I64 then r == BadSeconds
            else r == Parsed(sign * Abs(secs), if nanos == 0 then 0 else sign * ParseFraction(Fraction(nanos)).value)
  {
    hide Fraction, ParseFraction, ParseSigned, Show, DotAt;
    var digits := Show(Abs(secs));
    var body := digits + (if nanos != 0 then "." + Fraction(nanos) else "");
    FindDot(digits, Fraction(nanos));
    ShowParses(Abs(secs), I64);
    if nanos == 0 {
      assert body == digits;
    } else {
      assert body == digits + "." + Fraction(nanos);
      assert body[..|digits|] == digits && body[|digits| + 1..] == Fraction(nanos);
    }
    assert body[..|digits|] == digits;
  }

  function Body(secs: int, nanos: int): string {
    Show(Abs(secs)) + (if nanos != 0 then "." + Fraction(nanos) else "")
  }

  predicate Negative(secs: int, nanos: int) {
    secs < 0 || (secs == 0 && nanos < 0)
  }

  /** The sign and the suffix are taken off again. */
  lemma TextReads(secs: int, nanos: int)
    ensures Parse(Format(secs, nanos)) == ParseBody(if Negative(secs, nanos) then -1 else 1, Body(secs, nanos))
  {
    hide ParseBody, Fraction, Show;
    var (text, body) := (Format(secs, nanos), Body(secs, nanos));
    var trimmed := (if Negative(secs, nanos) then "-" else "") + body;
    assert text == trimmed + "s";
    assert text[..|text| - 1] == trimmed;
    if Negative(secs, nanos) {
      assert trimmed[1..] == body;
    } else {
      assert trimmed == body;
      assert IsDigit(Show(Abs(secs))[0]) && body[0] == Show(Abs(secs))[0];
    }
  }

  /** Putting the signs back on gives the pair exactly when it is consistent. */
  lemma SignsBack(secs: int, nanos: int, fraction: int)
    requires fraction >= 0 && (fraction == Abs(nanos) <==> Abs(nanos) < NANOS)
    ensures var sign := if Negative(secs, nanos) then -1 else 1;
            (sign * Abs(secs) == secs && (if nanos == 0 then 0 else sign * fraction) == nanos)
            <==> Consistent(secs, nanos)
  {
  }

  /**
   * Printing and parsing give the pair back if and only if its signs agree, its nanoseconds are less than a second
   * and its seconds are not the least `i64`.
   */
  lemma DurationRoundTrip(secs: int, nanos: int)
    requires -I64 <= secs < I64 && -I32 <= nanos < I32
    ensures Parse(Format(secs, nanos)) == Parsed(secs, nanos) <==> secs > -I64 && Consistent(secs, nanos)
  {
    hide Parse, Format, ParseBody, ParseFraction, Fraction, Show, Negative, Consistent;
    FractionReads(nanos);
    TextReads(secs, nanos);
    BodyReads(if Negative(secs, nanos) then -1 else 1, secs, nanos);
    SignsBack(secs, nanos, ParseFraction(Fraction(nanos)).value);
  }

  /**
   * `format_duration`: for every pair of 64-bit seconds and 32-bit nanoseconds the text parses back to the pair
   * exactly when the pair is consistent and its seconds are not the least `i64`.
   */
  method FormatDuration(secs: int, nanos: int) returns (out: string)
    ensures out == Format(secs, nanos)
    ensures -I64 <= secs < I64 && -I32 <= nanos < I32 ==>
            (Parse(out) == Parsed(secs, nanos) <==> secs > -I64 && Consistent(secs, nanos))
  {
    hide Parse, Consistent, Show, ZeroPadded, TrimZeros;
    var sign := if secs < 0 || (secs == 0 && nanos < 0) then "-" else "";
    out := sign + Show(Abs(secs));
    if nanos != 0 {
      var frac := ZeroPadded(Abs(nanos), 9);
      var trimmed := TrimZeros(frac);
      out := out + ".";
      out := out + trimmed;
    }
    out := out + "s";
    if -I64 <= secs < I64 && -I32 <= nanos < I32 { DurationRoundTrip(secs, nanos); }
  }

  // --------------------------------------------------------------------- the texts themselves

  /** An optional sign in front of digits. */
  predicate SignOk(sign: string) {
    sign == "" || sign == "+" || sign == "-"
  }

  function Signed(sign: string, n: nat): int {
    if sign == "-" then -(n as int) else n
  }

  /** A number with zeros put behind it. */
  function Shifted(n: nat, k: nat): nat {
    if k == 0 then n else 10 * Shifted(n, k - 1)
  }

  lemma {:induction false} ZerosSpelled(s: string, ds: seq<nat>, k: nat) returns (more: seq<nat>)
    requires Spells(s, ds)
    ensures Spells(s + Zeros(k), more) && |more| == |ds| + k && Number(more) == Shifted(Number(ds), k)
  {
    more := ds;
    assert s + Zeros(0) == s;
    if k > 0 {
      var front := ZerosSpelled(s, ds, k - 1);
      more := front + [0];
      assert more[..|more| - 1] == front;
      assert s + Zeros(k) == (s + Zeros(k - 1)) + ['0'] by { ZerosSnoc(k); }
    }
  }

  lemma {:induction false} ZerosSnoc(k: nat)
    requires k > 0
    ensures Zeros(k) == Zeros(k - 1) + ['0']
  {
  }

  /** What follows the point: a sign perhaps, digits, and behind the ninth character anything. */
  datatype Places = Places(sign: string, digits: string, ds: seq<nat>, tail: string)

  predicate FractionOk(f: Places) {
    && SignOk(f.sign) && Spells(f.digits, f.ds) && |f.sign| + |f.digits| <= 9
    && (f.tail != "" ==> |f.sign| + |f.digits| == 9)
  }

  function FractionText(f: Places): string {
    f.sign + f.digits + f.tail
  }

  /** Missing digits are zeros. */
  function FractionNanos(f: Places): int
    requires FractionOk(f)
  {
    Signed(f.sign, Shifted(Number(f.ds), 9 - |f.sign| - |f.digits|))
  }

  lemma NineOf(f: Places)
    requires FractionOk(f)
    ensures var b := FractionText(f);
            PaddedRight(if |b| > 9 then b[..9] else b, 9) == f.sign + (f.digits + Zeros(9 - |f.sign| - |f.digits|))
  {
    hide Spells;
    var (b, k) := (FractionText(f), 9 - |f.sign| - |f.digits|);
    Assoc(f.sign, f.digits, Zeros(k));
    if f.tail != "" {
      assert b[..9] == f.sign + f.digits;
      PaddedIs(f.sign + f.digits, 0);
    } else {
      assert b == f.sign + f.digits;
      PaddedIs(b, k);
    }
  }

  lemma Assoc(a: string, b: string, c: string)
    ensures (a + b) + c == a + (b + c)
  {
  }

  lemma PaddedIs(s: string, k: nat)
    requires |s| + k == 9
    ensures PaddedRight(s, 9) == s + Zeros(k)
  {
    assert s + Zeros(0) == s;
  }

  lemma SpelledBelow(ds: seq<nat>, s: string)
    requires Spells(s, ds) && |s| <= 9
    ensures Number(ds) < NANOS
  {
    SpelledValue(s, ds);
    ValueBelow(s);
    Pow10Nine();
    Pow10Grows(|s|, 9);
  }

  lemma {:induction false} Pow10Grows(a: nat, b: nat)
    requires a <= b
    ensures Pow10(a) <= Pow10(b)
  {
    if a < b { Pow10Grows(a, b - 1); }
  }

  /** A signed number reads as itself within the bounds of its type. */
  lemma SignedSpelled(sign: string, s: string, ds: seq<nat>, bound: nat)
    requires SignOk(sign) && Spells(s, ds) && |ds| > 0 && bound > 0
    ensures var n := Signed(sign, Number(ds));
            ParseSigned(sign + s, bound) == if -(bound as int) <= n < bound then Some(n) else None
  {
    hide ParseSigned, Spells, Number;
    SignedReads(s, ds, bound);
    assert sign == "" ==> sign + s == s;
  }

  lemma FractionSpelled(f: Places)
    requires FractionOk(f)
    ensures ParseFraction(FractionText(f)) == Some(FractionNanos(f))
  {
    hide ParseSigned, Spells, Number, Shifted, FractionText;
    var k := 9 - |f.sign| - |f.digits|;
    NineOf(f);
    var ds := ZerosSpelled(f.digits, f.ds, k);
    SpellsLength(f.digits, f.ds);
    SpellsLength(f.digits + Zeros(k), ds);
    SpelledBelow(ds, f.digits + Zeros(k));
    SignedSpelled(f.sign, f.digits + Zeros(k), ds, I32);
  }

  lemma SpellsLength(s: string, ds: seq<nat>)
    requires Spells(s, ds)
    ensures |s| == |ds|
  {
  }

  lemma FirstDot(a: string, b: string)
    requires '.' !in a
    ensures DotAt(a + "." + b) == |a| && DotAt(a) == |a|
  {
    var s := a + "." + b;
    assert s[|a|] == '.';
    assert forall i :: 0 <= i < |a| ==> s[i] == a[i];
  }

  lemma SpelledPlain(sign: string, s: string, ds: seq<nat>)
    requires SignOk(sign) && Spells(s, ds) && |ds| > 0
    ensures '.' !in sign + s && ((sign + s)[0] == '-' <==> sign == "-")
  {
    SpelledValue(s, ds);
    assert forall i :: 0 <= i < |s| ==> IsDigit(s[i]);
  }

  /** A duration as it is written: a minus perhaps, the seconds, and a fraction perhaps. */
  datatype Written = Written(minus: bool, sign: string, digits: string, ds: seq<nat>, fraction: Option<Places>)

  predicate WrittenOk(w: Written) {
    && SignOk(w.sign) && Spells(w.digits, w.ds) && |w.ds| > 0 && (w.sign == "-" ==> w.minus)
    && (w.fraction.Some? ==> FractionOk(w.fraction.value))
  }

  function BodyText(w: Written): string {
    w.sign + w.digits + if w.fraction.Some? then "." + FractionText(w.fraction.value) else ""
  }

  function WrittenText(w: Written): string {
    (if w.minus then "-" else "") + BodyText(w) + "s"
  }

  lemma BodySpelled(k: int, w: Written)
    requires WrittenOk(w)
    ensures var n := Signed(w.sign, Number(w.ds));
            ParseBody(k, BodyText(w)) ==
            if n < -0x8000_0000_0000_0000 || n >= 0x8000_0000_0000_0000 then BadSeconds
            else if k * n >= 0x8000_0000_0000_0000 then Overflows
            else Parsed(k * n, k * if w.fraction.Some? then FractionNanos(w.fraction.value) else 0)
  {
    hide ParseSigned, ParseFraction, DotAt, Spells, Number, FractionText, FractionNanos, SignOk, FractionOk;
    var (a, b) := (w.sign + w.digits, if w.fraction.Some? then FractionText(w.fraction.value) else "");
    SpelledPlain(w.sign, w.digits, w.ds);
    SignedSpelled(w.sign, w.digits, w.ds, I64);
    FirstDot(a, b);
    if w.fraction.Some? {
      FractionSpelled(w.fraction.value);
      Assoc(a, ".", b);
      assert BodyText(w) == a + "." + b;
      assert BodyText(w)[..|a|] == a && BodyText(w)[|a| + 1..] == b;
    } else {
      assert BodyText(w) == a && a[..|a|] == a;
    }
  }

  /** Whatever is written that way reads as its seconds and nanoseconds, the minus in front negating both. */
  lemma DurationReads(w: Written)
    requires WrittenOk(w)
    ensures var (k, n) := (if w.minus then -1 else 1, Signed(w.sign, Number(w.ds)));
            Parse(WrittenText(w)) ==
            if n < -0x8000_0000_0000_0000 || n >= 0x8000_0000_0000_0000 then BadSeconds
            else if k * n >= 0x8000_0000_0000_0000 then Overflows
            else Parsed(k * n, k * if w.fraction.Some? then FractionNanos(w.fraction.value) else 0)
  {
    hide ParseBody, Spells, Number, SignOk, FractionOk, BodyText, FractionNanos, Signed;
    var (text, body) := (WrittenText(w), BodyText(w));
    BodySpelled(if w.minus then -1 else 1, w);
    var trimmed := (if w.minus then "-" else "") + body;
    assert text[..|text| - 1] == trimmed;
    if w.minus {
      assert trimmed[1..] == body;
    } else {
      assert trimmed == body;
      BodyStart(w);
    }
  }

  lemma BodyStart(w: Written)
    requires WrittenOk(w)
    ensures |BodyText(w)| > 0 && (BodyText(w)[0] == '-' <==> w.sign == "-")
  {
    hide Spells, FractionText, FractionOk;
    SpelledPlain(w.sign, w.digits, w.ds);
    SpellsLength(w.digits, w.ds);
    assert BodyText(w)[0] == (w.sign + w.digits)[0];
  }

  lemma SignedParses(s: string, bound: nat) returns (sign: string, digits: string, ds: seq<nat>)
    requires ParseSigned(s, bound).Some?
    ensures SignOk(sign) && Spells(digits, ds) && |ds| > 0 && s == sign + digits
  {
    hide Spells;
    var signed := |s| > 0 && (s[0] == '+' || s[0] == '-');
    sign, digits := if signed then s[..1] else "", if signed then s[1..] else s;
    ds := DigitsSpell(digits);
    SpellsLength(digits, ds);
    assert s == s[..1] + s[1..] || !signed;
    assert signed ==> sign == [s[0]];
  }

  lemma FractionParses(b: string) returns (f: Places)
    requires ParseFraction(b).Some?
    ensures FractionOk(f) && b == FractionText(f)
  {
    hide ParseSigned, Spells;
    var front := if |b| > 9 then b[..9] else b;
    var sign, digits, ds := SignedParses(PaddedRight(front, 9), I32);
    SpellsLength(digits, ds);
    PaddedIs(front, 9 - |front|);
    var k := if |front| < |sign| then 0 else |front| - |sign|;
    SpellsPrefix(digits, ds, k) by { assert |sign| + |digits| == 9; }
    if |front| < |sign| {
      assert b == "" && PaddedRight(front, 9)[0] == '0';
      SignChar(sign, digits);
    } else {
      f := Places(sign, digits[..k], ds[..k], if |b| > 9 then b[9..] else "");
      assert front == (sign + digits)[..|front|] == sign + digits[..k];
      assert b == front + f.tail;
    }
  }

  lemma SignChar(sign: string, digits: string)
    requires SignOk(sign) && |sign| > 0
    ensures (sign + digits)[0] == '+' || (sign + digits)[0] == '-'
  {
  }

  lemma SpellsPrefix(s: string, ds: seq<nat>, k: nat)
    requires Spells(s, ds) && k <= |s|
    ensures Spells(s[..k], ds[..k])
  {
  }

  lemma BodyParses(k: int, body: string) returns (w: Written)
    requires ParseBody(k, body).Parsed?
    ensures SignOk(w.sign) && Spells(w.digits, w.ds) && |w.ds| > 0 && BodyText(w) == body
    ensures w.fraction.Some? ==> FractionOk(w.fraction.value)
  {
    hide ParseSigned, ParseFraction, Spells, FractionOk, FractionText;
    var dot := DotAt(body);
    var sign, digits, ds := SignedParses(body[..dot], I64);
    if dot < |body| {
      var f := FractionParses(body[dot + 1..]);
      w := Written(false, sign, digits, ds, Some(f));
      assert body == body[..dot] + "." + body[dot + 1..];
      Assoc(sign + digits, ".", FractionText(f));
    } else {
      w := Written(false, sign, digits, ds, None);
      assert body[..dot] == body;
    }
  }

  /** And whatever is accepted is written that way. */
  lemma DurationParses(text: string) returns (w: Written)
    requires Parse(text).Parsed?
    ensures WrittenOk(w) && WrittenText(w) == text
  {
    hide ParseBody, Spells, FractionOk, BodyText;
    var trimmed := text[..|text| - 1];
    var minus := |trimmed| > 0 && trimmed[0] == '-';
    var body := if minus then trimmed[1..] else trimmed;
    var v := BodyParses(if minus then -1 else 1, body);
    w := v.(minus := minus);
    assert BodyText(w) == BodyText(v) by { SameBody(v, minus); }
    if !minus && w.sign == "-" { StartsWithSign(w); }
    assert text == trimmed + "s" && (minus ==> trimmed == "-" + body);
  }

  lemma SameBody(w: Written, minus: bool)
    ensures BodyText(w.(minus := minus)) == BodyText(w)
  {
  }

  lemma StartsWithSign(w: Written)
    requires w.sign == "-"
    ensures |BodyText(w)| > 0 && BodyText(w)[0] == '-'
  {
  }

  lemma {:induction false} TrimEnds(s: string)
    ensures var t := TrimZeros(s); |t| > 0 ==> t[|t| - 1] != '0'
  {
    if |s| > 0 && s[|s| - 1] == '0' { TrimEnds(s[..|s| - 1]); }
  }

  lemma FractionWritten(nanos: int) returns (f: Places)
    requires 0 < Abs(nanos) < NANOS
    ensures FractionOk(f) && FractionText(f) == Fraction(nanos) && FractionNanos(f) == Abs(nanos)
    ensures f.sign == "" && f.tail == "" && |f.digits| > 0 && f.digits[|f.digits| - 1] != '0'
  {
    hide Spells, ParseFraction, FractionText;
    var t := Fraction(nanos);
    FractionDigits(nanos);
    TrimEnds(ZeroPadded(Abs(nanos), 9));
    ShowLength(Abs(nanos), 9);
    Pow10Nine();
    var ds := DigitsSpell(t);
    f := Places("", t, ds, "");
    assert FractionText(f) == t by { PlacesText(t, ds); }
    FractionSpelled(f);
    FractionReads(nanos);
    if |t| == 0 { NoDigits(f); }
  }

  lemma PlacesText(t: string, ds: seq<nat>)
    ensures FractionText(Places("", t, ds, "")) == t
  {
  }

  lemma NoDigits(f: Places)
    requires FractionOk(f) && |f.digits| == 0 && f.sign == ""
    ensures FractionNanos(f) == 0
  {
    ShiftedZero(9);
  }

  lemma {:induction false} ShiftedZero(k: nat)
    ensures Shifted(0, k) == 0
  {
    if k > 0 { ShiftedZero(k - 1); }
  }

  /** What is printed: no sign but the minus in front, no leading zeros, and no zeros at the end of the fraction. */
  lemma FormatWritten(secs: int, nanos: int) returns (w: Written)
    requires Abs(nanos) < 1000000000
    ensures WrittenOk(w) && WrittenText(w) == Format(secs, nanos)
    ensures w.minus <==> secs < 0 || (secs == 0 && nanos < 0)
    ensures w.sign == "" && Number(w.ds) == Abs(secs) && (w.ds[0] == 0 ==> secs == 0)
    ensures w.fraction.None? <==> nanos == 0
    ensures w.fraction.Some? ==>
              var f := w.fraction.value;
              && f.sign == "" && f.tail == "" && |f.digits| > 0 && f.digits[|f.digits| - 1] != '0'
              && FractionNanos(f) == Abs(nanos)
  {
    hide Spells, FractionText, FractionOk, FractionNanos, Number, Show, Fraction;
    var ds := ShowSpells(Abs(secs));
    var minus := secs < 0 || (secs == 0 && nanos < 0);
    if nanos == 0 {
      w := Written(minus, "", Show(Abs(secs)), ds, None);
    } else {
      var f := FractionWritten(nanos);
      w := Written(minus, "", Show(Abs(secs)), ds, Some(f));
    }
    assert "" + Show(Abs(secs)) == Show(Abs(secs));
  }
}
