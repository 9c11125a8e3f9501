/** Rust's `u8::from_str`: the parser applied to each dotted part of a host,
    and the decimal rendering `Display` gives a `u8`. */
module U8Parse {
  import opened Results

  /** A value of Rust's `u8`. */
  type Octet = x: int | 0 <= x < 256

  predicate IsDigit(c: char) {
    '0' <= c <= '9'
  }

  function DigitValue(c: char): (v: nat)
    requires IsDigit(c)
    ensures v < 10
  {
    (c as int) - ('0' as int)
  }

  predicate AllDigits(s: string) {
    forall i :: 0 <= i < |s| ==> IsDigit(s[i])
  }

  function Pow10(n: nat): (p: nat)
    ensures p >= 1
  {
    if n == 0 then 1 else 10 * Pow10(n - 1)
  }

  /** The number a digit string denotes, most significant digit first. */
  function DecimalValue(d: string): (v: nat)
    requires AllDigits(d)
  {
    if |d| == 0 then 0
    else DecimalValue(d[..|d| - 1]) * 10 + DigitValue(d[|d| - 1])
  }

  /** The text after an optional single leading '+'. */
  function Digits(s: string): (d: string) {
    if |s| > 0 && s[0] == '+' then s[1..] else s
  }

  /** Reference definition of what `u8::from_str` accepts: an optional '+',
      then one or more ASCII decimal digits (leading zeros allowed) whose
      value is at most 255. */
  predicate IsU8Literal(s: string) {
    var d := Digits(s);
    |d| > 0 && AllDigits(d) && DecimalValue(d) < 256
  }

  /** The digit loop of the standard library's integer parser: each step
      multiplies the running value by ten and adds the next digit, failing on
      a non-digit or as soon as the value leaves the `u8` range. */
  function Accumulate(acc: Octet, d: string): (r: Option<Octet>)
    decreases |d|
  {
    if |d| == 0 then Some(acc)
    else if !IsDigit(d[0]) then None
    else
      var next := acc * 10 + DigitValue(d[0]);
      if next < 256 then Accumulate(next, d[1..]) else None
  }

  /** `u8::from_str`. An empty text fails; a lone sign fails; one leading
      '+' is skipped; a '-' reaches the digit loop and fails there, since
      `u8` is unsigned. */
  function ParseU8(s: string): (r: Option<Octet>)
    ensures r.Some? <==> IsU8Literal(s)
    ensures r.Some? ==> r.value == DecimalValue(Digits(s))
  {
    if |s| == 0 then None
    else if (s[0] == '+' || s[0] == '-') && |s| == 1 then None
    else
      var d := if s[0] == '+' then s[1..] else s;
      AccumulateMeaning(0, d);
      Accumulate(0, d)
  }

  /** Appending digits shifts the value of the prefix left by their count. */
  lemma {:induction false} DecimalValueAppend(a: string, b: string)
    requires AllDigits(a) && AllDigits(b)
    ensures AllDigits(a + b)
    ensures DecimalValue(a + b) == DecimalValue(a) * Pow10(|b|) + DecimalValue(b)
  {
    if |b| > 0 {
      var b' := b[..|b| - 1];
      assert (a + b)[..|a + b| - 1] == a + b';
      assert (a + b)[|a + b| - 1] == b[|b| - 1];
      DecimalValueAppend(a, b');
      calc {
        DecimalValue(a + b);
        DecimalValue(a + b') * 10 + DigitValue(b[|b| - 1]);
        (DecimalValue(a) * Pow10(|b'|) + DecimalValue(b')) * 10 + DigitValue(b[|b| - 1]);
        DecimalValue(a) * (Pow10(|b'|) * 10) + (DecimalValue(b') * 10 + DigitValue(b[|b| - 1]));
        DecimalValue(a) * Pow10(|b|) + DecimalValue(b);
      }
    } else {
      assert a + b == a;
    }
  }

  lemma AllDigitsCons(d: string)
    requires |d| > 0
    ensures AllDigits(d) <==> IsDigit(d[0]) && AllDigits(d[1..])
  {
    if IsDigit(d[0]) && AllDigits(d[1..]) {
      forall i | 0 <= i < |d| ensures IsDigit(d[i]) {
        if i > 0 { assert d[i] == d[1..][i - 1]; }
      }
    }
  }

  /** The leading digit weighs ten to the power of the digits after it. */
  lemma DecimalValueCons(d: string)
    requires |d| > 0 && AllDigits(d)
    ensures AllDigits(d[1..])
    ensures DecimalValue(d) == DigitValue(d[0]) * Pow10(|d| - 1) + DecimalValue(d[1..])
  {
    AllDigitsCons(d);
    assert AllDigits([d[0]]);
    assert DecimalValue([d[0]]) == DigitValue(d[0]) by {
      assert [d[0]][..0] == [];
    }
    assert [d[0]] + d[1..] == d;
    DecimalValueAppend([d[0]], d[1..]);
  }

  lemma ShiftStep(acc: nat, v: nat, p: nat, rest: nat)
    requires p >= 1
    ensures acc * (10 * p) + (v * p + rest) == (acc * 10 + v) * p + rest
    ensures (acc * 10 + v) * p + rest >= acc * 10 + v
  {
  }

  /** The digit loop started from `acc` yields `acc` shifted left by the
      digits plus their value, exactly when every character is a digit and
      that number fits in a `u8`. */
  lemma {:induction false} AccumulateMeaning(acc: Octet, d: string)
    ensures Accumulate(acc, d).Some? <==>
      AllDigits(d) && acc * Pow10(|d|) + DecimalValue(d) < 256
    ensures Accumulate(acc, d).Some? ==>
      Accumulate(acc, d).value == acc * Pow10(|d|) + DecimalValue(d)
    decreases |d|
  {
    if |d| > 0 {
      AllDigitsCons(d);
      if IsDigit(d[0]) {
        var rest := d[1..];
        var v := DigitValue(d[0]);
        var next := acc * 10 + v;
        if AllDigits(rest) {
          DecimalValueCons(d);
          ShiftStep(acc, v, Pow10(|rest|), DecimalValue(rest));
          assert acc * Pow10(|d|) + DecimalValue(d) == next * Pow10(|rest|) + DecimalValue(rest);
        }
        if next < 256 {
          AccumulateMeaning(next, rest);
        }
      }
    }
  }

  function DigitChar(v: nat): (c: char)
    requires v < 10
    ensures IsDigit(c) && DigitValue(c) == v
  {
    (('0' as int) + v) as char
  }

  /** The decimal text `Display` gives a number: no sign, no leading zeros. */
  function DecimalText(n: nat): (text: string)
  {
    if n < 10 then [DigitChar(n)]
    else DecimalText(n / 10) + [DigitChar(n % 10)]
  }

  /** The text is a non-empty run of digits with no leading zero (unless it
      is "0") that denotes `n`. */
  lemma {:induction false} DecimalTextMeaning(n: nat)
    ensures |DecimalText(n)| > 0 && AllDigits(DecimalText(n))
    ensures DecimalValue(DecimalText(n)) == n
    ensures DecimalText(n)[0] == '0' ==> n == 0
    ensures DecimalText(n)[0] == '0' ==> DecimalText(n) == "0"
  {
    var t := DecimalText(n);
    if n < 10 {
      assert t[..0] == [];
    } else {
      var p := DecimalText(n / 10);
      DecimalTextMeaning(n / 10);
      assert t == p + [DigitChar(n % 10)];
      assert t[..|t| - 1] == p;
      assert AllDigits(t) by {
        forall i | 0 <= i < |t| ensures IsDigit(t[i]) {
          if i < |p| { assert t[i] == p[i]; }
        }
      }
      assert t[0] == p[0];
    }
  }

  /** `u8::from_str` reads back what `Display` writes. */
  lemma ParseDecimalText(o: Octet)
    ensures ParseU8(DecimalText(o)) == Some(o)
  {
    DecimalTextMeaning(o);
  }

  /** Edge cases of the standard parser: a '+' sign and leading zeros are
      accepted; an empty text, a lone sign, a '-' sign, a doubled sign and a
      value past 255 are not. */
  lemma ParseU8Examples()
    ensures ParseU8("+7") == Some(7)
    ensures ParseU8("007") == Some(7)
    ensures ParseU8("255") == Some(255)
    ensures ParseU8("256") == None
    ensures ParseU8("") == None
    ensures ParseU8("+") == None
    ensures ParseU8("-") == None
    ensures ParseU8("-0") == None
    ensures ParseU8("++1") == None
    ensures ParseU8("1 ") == None
  {
    assert Accumulate(2, "56") == None;
  }
}
