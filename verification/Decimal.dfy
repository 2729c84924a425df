/** Decimal numerals as the standard library prints and parses them. */
module Decimal {
  import opened Wrappers

  predicate IsDigit(c: char) {
    '0' <= c <= '9'
  }

  predicate AllDigits(s: string) {
    forall i :: 0 <= i < |s| ==> IsDigit(s[i])
  }

  function DigitChar(d: nat): (c: char)
    requires d < 10
    ensures IsDigit(c) && c as int - '0' as int == d
  {
    ('0' as int + d) as char
  }

  /** Printing without leading zeros. */
  function Show(n: nat): (s: string)
    ensures |s| >= 1 && AllDigits(s)
  {
    if n < 10 then [DigitChar(n)] else Show(n / 10) + [DigitChar(n % 10)]
  }

  function Value(s: string): nat
    requires AllDigits(s)
  {
    if |s| == 0 then 0 else 10 * Value(s[..|s| - 1]) + (s[|s| - 1] as int - '0' as int)
  }

  /** Parsing to an unsigned integer below `bound`; one leading plus is accepted. */
  function ParseUnsigned(s: string, bound: nat): Option<nat> {
    var digits := if |s| > 0 && s[0] == '+' then s[1..] else s;
    if |digits| == 0 || !AllDigits(digits) || Value(digits) >= bound then None else Some(Value(digits))
  }

  /** Parsing to a signed integer of `-bound` up to `bound - 1`. */
  function ParseSigned(s: string, bound: nat): Option<int> {
    var digits := if |s| > 0 && (s[0] == '+' || s[0] == '-') then s[1..] else s;
    if |digits| == 0 || !AllDigits(digits) then None
    else if |s| > 0 && s[0] == '-' then (if Value(digits) > bound then None else Some(-(Value(digits) as int)))
    else if Value(digits) >= bound then None
    else Some(Value(digits))
  }

  function Pow10(n: nat): nat {
    if n == 0 then 1 else 10 * Pow10(n - 1)
  }

  lemma {:induction false} ShowValue(n: nat)
    ensures Value(Show(n)) == n
  {
    if n >= 10 {
      ShowValue(n / 10);
      var s := Show(n);
      assert s[..|s| - 1] == Show(n / 10);
    } else {
      assert Show(n)[..0] == [];
    }
  }

  lemma {:induction false} ShowLength(n: nat, k: nat)
    requires k >= 1
    ensures |Show(n)| <= k <==> n < Pow10(k)
  {
    if n >= 10 {
      if k > 1 {
        ShowLength(n / 10, k - 1);
      } else {
        assert Pow10(1) == 10 * Pow10(0);
      }
    } else {
      AtLeastTen(k);
    }
  }

  lemma {:induction false} AtLeastTen(k: nat)
    requires k >= 1
    ensures Pow10(k) >= 10
  {
    if k > 1 { AtLeastTen(k - 1); } else { assert Pow10(1) == 10 * Pow10(0); }
  }

  lemma {:induction false} ValueBelow(s: string)
    requires AllDigits(s)
    ensures Value(s) < Pow10(|s|)
  {
    if |s| != 0 { ValueBelow(s[..|s| - 1]); }
  }

  /** No numeral of the same value, or of a larger one, is shorter. */
  lemma ShowShortest(n: nat, s: string)
    requires |s| >= 1 && AllDigits(s) && n <= Value(s)
    ensures |Show(n)| <= |s|
  {
    ValueBelow(s);
    ShowLength(n, |s|);
  }

  /** A printed number parses back exactly while it is below the bound of the type. */
  lemma ShowParses(n: nat, bound: nat)
    ensures ParseUnsigned(Show(n), bound) == if n < bound then Some(n) else None
    ensures ParseSigned(Show(n), bound) == if n < bound then Some(n) else None
  {
    ShowValue(n);
    assert IsDigit(Show(n)[0]);
  }

  // ----------------------------------------------------------------------- zero padding

  function Zeros(k: nat): (s: string)
    ensures |s| == k && AllDigits(s) && forall i :: 0 <= i < k ==> s[i] == '0'
  {
    if k == 0 then [] else ['0'] + Zeros(k - 1)
  }

  /** `{:0width}` */
  function ZeroPadded(n: nat, width: nat): (s: string)
    ensures AllDigits(s) && |s| >= width && |s| >= 1
  {
    var s := Show(n);
    if |s| >= width then s else Zeros(width - |s|) + s
  }

  /** `{:0<width}` */
  function PaddedRight(s: string, width: nat): string {
    if |s| >= width then s else s + Zeros(width - |s|)
  }

  /** `trim_end_matches('0')` */
  function TrimZeros(s: string): (t: string)
    ensures |t| <= |s|
  {
    if |s| > 0 && s[|s| - 1] == '0' then TrimZeros(s[..|s| - 1]) else s
  }

  lemma {:induction false} ZerosInFront(k: nat, s: string)
    requires AllDigits(s)
    ensures AllDigits(Zeros(k) + s) && Value(Zeros(k) + s) == Value(s)
    decreases |s| + k
  {
    var t := Zeros(k) + s;
    if |s| == 0 {
      assert t == Zeros(k);
      if k > 0 {
        ZerosInFront(k - 1, s);
        ZerosAgain(k);
        assert Zeros(k)[..k - 1] == Zeros(k - 1) + s;
      }
    } else {
      ZerosInFront(k, s[..|s| - 1]);
      assert t[..|t| - 1] == Zeros(k) + s[..|s| - 1];
    }
  }

  lemma ZerosAgain(k: nat)
    requires k > 0
    ensures Zeros(k)[..k - 1] == Zeros(k - 1)
  {
  }

  lemma ZeroPaddedValue(n: nat, width: nat)
    ensures Value(ZeroPadded(n, width)) == n
  {
    hide Value, Show, Zeros, AllDigits;
    ShowValue(n);
    if |Show(n)| < width { ZerosInFront(width - |Show(n)|, Show(n)); }
  }

  /** Trimming zeros off the end and padding them on again gives the text back. */
  lemma {:induction false} TrimThenPad(s: string)
    ensures PaddedRight(TrimZeros(s), |s|) == s
  {
    if |s| > 0 && s[|s| - 1] == '0' {
      var front := s[..|s| - 1];
      TrimThenPad(front);
      var t := TrimZeros(s);
      assert t + Zeros(|s| - |t|) == t + Zeros(|front| - |t|) + ['0'] by {
        assert Zeros(|s| - |t|) == Zeros(|front| - |t|) + ['0'];
      }
    }
  }

  lemma {:induction false} TrimDigits(s: string)
    requires AllDigits(s)
    ensures AllDigits(TrimZeros(s))
  {
    if |s| > 0 && s[|s| - 1] == '0' { TrimDigits(s[..|s| - 1]); }
  }

  // ------------------------------------------------------------------- digits as they are spelled

  /** The number with these decimal digits. */
  function Number(ds: seq<nat>): nat {
    if |ds| == 0 then 0 else 10 * Number(ds[..|ds| - 1]) + ds[|ds| - 1]
  }

  predicate Spells(s: string, ds: seq<nat>) {
    |s| == |ds| && forall i :: 0 <= i < |s| ==> ds[i] < 10 && s[i] == "0123456789"[ds[i]]
  }

  lemma DigitSpelled(d: nat)
    requires d < 10
    ensures var c := "0123456789"[d]; IsDigit(c) && c as int - '0' as int == d
  {
  }

  lemma {:induction false} SpelledValue(s: string, ds: seq<nat>)
    requires Spells(s, ds)
    ensures AllDigits(s) && Value(s) == Number(ds)
  {
    hide IsDigit;
    if |s| > 0 {
      var last := |s| - 1;
      SpelledValue(s[..last], ds[..last]);
      DigitSpelled(ds[last]);
      assert forall i :: 0 <= i < last ==> s[i] == s[..last][i];
    }
  }

  lemma {:induction false} DigitsSpell(s: string) returns (ds: seq<nat>)
    requires AllDigits(s)
    ensures Spells(s, ds)
  {
    ds := [];
    if |s| > 0 {
      var front := DigitsSpell(s[..|s| - 1]);
      var d := s[|s| - 1] as int - '0' as int;
      assert IsDigit(s[|s| - 1]);
      assert "0123456789"[d] == s[|s| - 1] by { DigitSpelled(d); }
      ds := front + [d];
      assert s == s[..|s| - 1] + [s[|s| - 1]];
    }
  }

  /** What is read as an unsigned number: digits, perhaps behind a plus, of a number below the bound. */
  lemma UnsignedReads(s: string, ds: seq<nat>, bound: nat)
    requires Spells(s, ds) && |ds| > 0
    ensures var r := if Number(ds) < bound then Some(Number(ds)) else None;
            ParseUnsigned(s, bound) == r && ParseUnsigned("+" + s, bound) == r
  {
    SpelledValue(s, ds);
    assert IsDigit(s[0]);
    assert ("+" + s)[1..] == s;
  }

  lemma UnsignedParses(s: string, bound: nat) returns (plus: bool, ds: seq<nat>)
    requires ParseUnsigned(s, bound).Some?
    ensures |ds| > 0 && Number(ds) < bound && ParseUnsigned(s, bound) == Some(Number(ds))
    ensures plus ==> |s| > 0 && s[0] == '+' && Spells(s[1..], ds)
    ensures !plus ==> Spells(s, ds)
  {
    plus := |s| > 0 && s[0] == '+';
    var digits := if plus then s[1..] else s;
    ds := DigitsSpell(digits);
    SpelledValue(digits, ds);
  }

  lemma PlainSigned(s: string, bound: nat)
    requires |s| > 0 && AllDigits(s)
    ensures ParseSigned(s, bound) == if Value(s) < bound then Some(Value(s)) else None
  {
    hide Value;
    assert IsDigit(s[0]);
  }

  lemma PlusSigned(s: string, bound: nat)
    requires |s| > 0 && AllDigits(s)
    ensures ParseSigned("+" + s, bound) == if Value(s) < bound then Some(Value(s)) else None
  {
    hide Value, AllDigits;
    var t := "+" + s;
    assert t[1..] == s && t[0] == '+' && |t| > 0;
  }

  lemma MinusSigned(s: string, bound: nat)
    requires |s| > 0 && AllDigits(s)
    ensures ParseSigned("-" + s, bound) == if Value(s) <= bound then Some(-(Value(s) as int)) else None
  {
    hide Value, AllDigits;
    var t := "-" + s;
    assert t[1..] == s && t[0] == '-' && |t| > 0;
  }

  /** The same for signed numbers, of which a minus gives the negative ones down to the bound. */
  lemma SignedReads(s: string, ds: seq<nat>, bound: nat)
    requires Spells(s, ds) && |ds| > 0
    ensures var r := if Number(ds) < bound then Some(Number(ds)) else None;
            ParseSigned(s, bound) == r && ParseSigned("+" + s, bound) == r
    ensures ParseSigned("-" + s, bound) == if Number(ds) <= bound then Some(-(Number(ds) as int)) else None
  {
    hide Value, AllDigits, ParseSigned, Number;
    SpelledValue(s, ds);
    PlainSigned(s, bound);
    PlusSigned(s, bound);
    MinusSigned(s, bound);
  }

  /** Printing spells the number without a leading zero. */
  lemma {:induction false} ShowSpells(n: nat) returns (ds: seq<nat>)
    ensures Spells(Show(n), ds) && Number(ds) == n && |ds| > 0 && (ds[0] == 0 ==> n == 0)
  {
    if n < 10 {
      ds := [n];
      DigitSpelled(n);
      assert ds[..0] == [];
    } else {
      var front := ShowSpells(n / 10);
      ds := front + [n % 10];
      DigitSpelled(n % 10);
      assert ds[..|ds| - 1] == front;
    }
  }
}
