/** Decimal text of integers, in both directions.

    JavaScript writes an integer-valued number below 10^21 as its plain
    decimal digits (`Date.now() + '-'`), and a route parameter such as
    `/producto/42` reaches the product table as the text "42", which the
    table compares with its integer key. `Show` is the first direction,
    `Parse` the second, and `ParseShow` proves they are inverse. */
module Decimal {
  import opened JsValue

  predicate IsDigit(c: char) {
    '0' <= c <= '9'
  }

  predicate AllDigits(s: string) {
    forall i :: 0 <= i < |s| ==> IsDigit(s[i])
  }

  function DigitChar(d: nat): (c: char)
    requires d < 10
    ensures IsDigit(c)
  {
    (('0' as int) + d) as char
  }

  function DigitValue(c: char): (d: nat)
    requires IsDigit(c)
    ensures d < 10
  {
    (c as int) - ('0' as int)
  }

  /** The digits of `n`, most significant first, without leading zeros. */
  function Digits(n: nat): (s: string)
    ensures |s| > 0 && AllDigits(s)
    ensures |s| > 1 ==> s[0] != '0'
    decreases n
  {
    if n < 10 then [DigitChar(n)] else Digits(n / 10) + [DigitChar(n % 10)]
  }

  /** The decimal text of an integer, with a leading '-' when negative. */
  function Show(n: int): (s: string)
    ensures |s| > 0
    ensures n >= 0 <==> AllDigits(s)
    ensures n < 0 <==> s[0] == '-'
  {
    if n < 0 then
      var s := "-" + Digits(-n);
      assert !IsDigit(s[0]);
      s
    else Digits(n)
  }

  /** The value of a run of decimal digits; leading zeros are allowed. */
  function ParseDigits(s: string): nat
    requires AllDigits(s)
    decreases |s|
  {
    if s == [] then 0 else ParseDigits(s[..|s| - 1]) * 10 + DigitValue(s[|s| - 1])
  }

  /** The integer a decimal text denotes: one or more digits, optionally
      after a single '-'; `None` for anything else. */
  function Parse(s: string): (r: Option<int>)
    ensures r.Some? <==> (|s| > 0 && AllDigits(s)) || (|s| > 1 && s[0] == '-' && AllDigits(s[1..]))
    ensures r.Some? && s[0] != '-' ==> r.value >= 0
  {
    if |s| > 0 && AllDigits(s) then Some(ParseDigits(s))
    else if |s| > 1 && s[0] == '-' && AllDigits(s[1..]) then Some(0 - ParseDigits(s[1..]))
    else None
  }

  lemma {:induction false} ParseDigitsOfDigits(n: nat)
    ensures ParseDigits(Digits(n)) == n
    decreases n
  {
    if n >= 10 {
      var s := Digits(n);
      assert s[..|s| - 1] == Digits(n / 10);
      ParseDigitsOfDigits(n / 10);
    }
  }

  /** Reading back the text of an integer gives the integer. */
  lemma ParseShow(n: int)
    ensures Parse(Show(n)) == Some(n)
  {
    if n < 0 {
      assert Show(n)[1..] == Digits(-n);
      ParseDigitsOfDigits(-n);
    } else {
      ParseDigitsOfDigits(n);
    }
  }

  /** Different integers have different texts. */
  lemma ShowInjective(a: int, b: int)
    ensures Show(a) == Show(b) ==> a == b
  {
    ParseShow(a);
    ParseShow(b);
  }

  /** `k` zeros. */
  function Zeros(k: nat): (z: string)
    ensures |z| == k && AllDigits(z)
    decreases k
  {
    if k == 0 then [] else "0" + Zeros(k - 1)
  }

  /** The decimal text of `m` with `k` zeros in front, after a '-' when
      `neg`: the texts a route parameter may use for a key. */
  function Padded(neg: bool, k: nat, m: nat): string {
    (if neg then "-" else "") + (Zeros(k) + Digits(m))
  }

  lemma {:induction false} ParseDigitsOfZeros(k: nat)
    ensures ParseDigits(Zeros(k)) == 0
    decreases k
  {
    if k > 0 {
      var z := Zeros(k);
      assert z[..k - 1] == Zeros(k - 1) by {
        if k > 1 {
          ZerosShift(k - 1);
        }
      }
      ParseDigitsOfZeros(k - 1);
    }
  }

  /** `Zeros(k + 1)` is `Zeros(k)` followed by one more zero. */
  lemma {:induction false} ZerosShift(k: nat)
    ensures Zeros(k + 1) == Zeros(k) + "0"
    decreases k
  {
    if k > 0 {
      ZerosShift(k - 1);
    }
  }

  /** Leading zeros do not change the value of a run of digits. */
  lemma {:induction false} ParseDigitsZeroPrefix(k: nat, d: string)
    requires AllDigits(d)
    ensures AllDigits(Zeros(k) + d)
    ensures ParseDigits(Zeros(k) + d) == ParseDigits(d)
    decreases |d|
  {
    var s := Zeros(k) + d;
    assert AllDigits(s) by {
      forall i | 0 <= i < |s| ensures IsDigit(s[i]) {
        if i >= k {
          assert s[i] == d[i - k];
        }
      }
    }
    if d == [] {
      assert s == Zeros(k);
      ParseDigitsOfZeros(k);
    } else {
      var init := d[..|d| - 1];
      assert s[..|s| - 1] == Zeros(k) + init;
      assert s[|s| - 1] == d[|d| - 1];
      ParseDigitsZeroPrefix(k, init);
    }
  }

  /** A digit run without a leading zero is the text `Digits` writes for
      its value. */
  lemma {:induction false} DigitsOfCanonical(d: string)
    requires |d| > 0 && AllDigits(d)
    requires |d| > 1 ==> d[0] != '0'
    ensures Digits(ParseDigits(d)) == d
    decreases |d|
  {
    var last := d[|d| - 1];
    var v := DigitValue(last);
    assert DigitChar(v) == last;
    if |d| == 1 {
      assert d[..0] == [];
      assert d == [last];
    } else {
      var init := d[..|d| - 1];
      assert init[0] == d[0];
      DigitsOfCanonical(init);
      var p := ParseDigits(init);
      if p == 0 {
        assert false;
      }
      var n := ParseDigits(d);
      assert n == p * 10 + v;
      assert n / 10 == p && n % 10 == v;
      assert d == init + [last];
    }
  }

  /** Every run of digits is some number of zeros followed by the text
      `Digits` writes for its value. */
  lemma {:induction false} DigitsSplit(d: string) returns (k: nat)
    requires |d| > 0 && AllDigits(d)
    ensures d == Zeros(k) + Digits(ParseDigits(d))
    decreases |d|
  {
    if |d| > 1 && d[0] == '0' {
      var t := d[1..];
      assert AllDigits(t) by {
        forall i | 0 <= i < |t| ensures IsDigit(t[i]) {
          assert t[i] == d[i + 1];
        }
      }
      assert d == Zeros(1) + t;
      ParseDigitsZeroPrefix(1, t);
      var k' := DigitsSplit(t);
      k := k' + 1;
      assert Zeros(k) == "0" + Zeros(k');
    } else {
      DigitsOfCanonical(d);
      k := 0;
      assert Zeros(0) + Digits(ParseDigits(d)) == Digits(ParseDigits(d));
    }
  }

  /** Every padded text of an integer parses to that integer; "-0" and its
      padded forms give 0. */
  lemma ParsePadded(neg: bool, k: nat, m: nat)
    ensures Parse(Padded(neg, k, m)) == Some(if neg then -(m as int) else m as int)
  {
    var d := Zeros(k) + Digits(m);
    ParseDigitsZeroPrefix(k, Digits(m));
    ParseDigitsOfDigits(m);
    if neg {
      var s := "-" + d;
      assert s[1..] == d;
      assert !AllDigits(s) by {
        assert !IsDigit(s[0]);
      }
    } else {
      assert Padded(neg, k, m) == d;
    }
  }

  /** The texts `Parse` accepts are exactly the padded texts: with
      `ParsePadded`, a text addresses key `n` exactly when it is the text of
      `n` with zeros in front. */
  lemma ParseOnlyPadded(s: string)
    requires Parse(s).Some?
    ensures exists neg, k, m :: s == Padded(neg, k, m)
  {
    if |s| > 0 && AllDigits(s) {
      var k := DigitsSplit(s);
      assert s == Padded(false, k, ParseDigits(s));
    } else {
      assert |s| > 1 && s[0] == '-' && AllDigits(s[1..]);
      var k, m := NegativePadded(s);
      assert s == Padded(true, k, m);
    }
  }

  lemma NegativePadded(s: string) returns (k: nat, m: nat)
    requires |s| > 1 && s[0] == '-' && AllDigits(s[1..])
    ensures s == Padded(true, k, m)
  {
    var d := s[1..];
    k := DigitsSplit(d);
    m := ParseDigits(d);
    assert s == "-" + d;
  }
}
