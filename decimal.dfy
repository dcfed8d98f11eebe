/** `write_int`: the decimal text of a 32-bit int, as the shell prints it.

    The characters written to the file descriptor are returned as a string. */
module Decimal {
  import opened Optional

  /** C's 32-bit int. */
  type Int32 = x: int | -0x8000_0000 <= x < 0x8000_0000

  const IntMin: int := -0x8000_0000

  predicate IsDigit(c: char)
  {
    '0' <= c <= '9'
  }

  predicate AllDigits(s: seq<char>)
  {
    forall i :: 0 <= i < |s| ==> IsDigit(s[i])
  }

  /** The character '0' + d of a digit value d. */
  function DigitChar(d: int): char
    requires 0 <= d < 10
  {
    ('0' as int + d) as char
  }

  function DigitValue(c: char): (d: int)
    requires IsDigit(c)
    ensures 0 <= d < 10
  {
    c as int - '0' as int
  }

  /** The decimal digits of n, most significant first; none for 0. */
  function Digits(n: nat): seq<char>
  {
    if n == 0 then [] else Digits(n / 10) + [DigitChar(n % 10)]
  }

  /** The digits of n are digits, and a positive n has a non-zero leading digit. */
  lemma {:induction false} DigitsShape(n: nat)
    ensures AllDigits(Digits(n))
    ensures n > 0 ==> |Digits(n)| > 0 && Digits(n)[0] != '0'
  {
    if n > 0 {
      DigitsShape(n / 10);
      if n / 10 == 0 {
        assert Digits(n) == [DigitChar(n % 10)];
      }
    }
  }

  /** The text printed for x: "0", or an optional '-' and the digits of |x|. */
  function Dec(x: int): string
  {
    if x == 0 then "0" else if x < 0 then "-" + Digits(-x) else Digits(x)
  }

  /** The reverse of s. */
  function Reverse(s: seq<char>): (r: seq<char>)
    ensures |r| == |s|
  {
    if s == [] then [] else Reverse(s[1..]) + [s[0]]
  }

  /** The value of a string of digits, most significant first. */
  function ParseDigits(ds: seq<char>): nat
    requires AllDigits(ds)
  {
    if ds == [] then 0 else 10 * ParseDigits(ds[..|ds| - 1]) + DigitValue(ds[|ds| - 1])
  }

  /** Reads back the text of a decimal int: "0", or an optional '-' followed by
      digits without a leading zero. */
  function ParseDec(s: string): Option<int>
  {
    if s == "0" then Some(0)
    else if |s| >= 2 && s[0] == '-' && AllDigits(s[1..]) && s[1] != '0' then Some(-(ParseDigits(s[1..]) as int))
    else if |s| >= 1 && AllDigits(s) && s[0] != '0' then Some(ParseDigits(s))
    else None
  }

  function Pow10(k: nat): (p: nat)
    ensures p >= 1
  {
    if k == 0 then 1 else 10 * Pow10(k - 1)
  }

  /** Reading back the digits of n gives n. */
  lemma {:induction false} DigitsRoundTrip(n: nat)
    ensures AllDigits(Digits(n)) && ParseDigits(Digits(n)) == n
  {
    DigitsShape(n);
    if n > 0 {
      DigitsRoundTrip(n / 10);
      var ds := Digits(n);
      assert ds[..|ds| - 1] == Digits(n / 10);
    }
  }

  /** Conversely, digits without a leading zero are the digits of their value. */
  lemma {:induction false} DigitsOfParse(ds: seq<char>)
    requires AllDigits(ds) && (ds == [] || ds[0] != '0')
    ensures Digits(ParseDigits(ds)) == ds
    decreases |ds|
  {
    if ds != [] {
      var init := ds[..|ds| - 1];
      var d := DigitValue(ds[|ds| - 1]);
      assert init == [] || init[0] == ds[0];
      DigitsOfParse(init);
      var n := ParseDigits(ds);
      assert n == 10 * ParseDigits(init) + d;
      if init == [] {
        assert d != 0;
      } else {
        ParsePositive(init);
      }
      assert n > 0 && n / 10 == ParseDigits(init) && n % 10 == d;
      assert ds == init + [ds[|ds| - 1]];
    }
  }

  /** Digits with a non-zero leading one have a positive value. */
  lemma {:induction false} ParsePositive(ds: seq<char>)
    requires AllDigits(ds) && ds != [] && ds[0] != '0'
    ensures ParseDigits(ds) > 0
    decreases |ds|
  {
    var init := ds[..|ds| - 1];
    if init != [] {
      assert init[0] == ds[0];
      ParsePositive(init);
    }
  }

  /** Reading back the printed text of x gives x: the text determines the number. */
  lemma DecRoundTrip(x: int)
    ensures ParseDec(Dec(x)) == Some(x)
  {
    if x < 0 {
      NegativeRoundTrip(x);
    } else if x > 0 {
      PositiveRoundTrip(x);
    }
  }

  lemma NegativeRoundTrip(x: int)
    requires x < 0
    ensures ParseDec(Dec(x)) == Some(x)
  {
    var n: nat := -x;
    DigitsRoundTrip(n);
    DigitsShape(n);
    var s := Dec(x);
    assert s == "-" + Digits(n);
    assert s[1..] == Digits(n);
    assert s[0] == '-' && s[1] != '0';
    assert s != "0";
  }

  lemma PositiveRoundTrip(x: int)
    requires x > 0
    ensures ParseDec(Dec(x)) == Some(x)
  {
    DigitsRoundTrip(x);
    DigitsShape(x);
    var s := Dec(x);
    assert s == Digits(x);
    assert s != "0" by {
      if |s| == 1 {
        assert s[0] != '0';
      }
    }
  }

  /** Different numbers print differently. */
  lemma DecInjective(x: int, y: int)
    requires Dec(x) == Dec(y)
    ensures x == y
  {
    DecRoundTrip(x);
    DecRoundTrip(y);
  }

  /** A number below 10^k has at most k digits. */
  lemma {:induction false} DigitsLength(n: nat, k: nat)
    requires n < Pow10(k)
    ensures |Digits(n)| <= k
  {
    if n > 0 {
      DigitsLength(n / 10, k - 1);
    }
  }

  /** The printed text consists of digits and at most a leading '-'. */
  lemma DecChars(x: int)
    ensures forall i :: 0 <= i < |Dec(x)| ==> IsDigit(Dec(x)[i]) || (i == 0 && Dec(x)[i] == '-')
  {
    if x < 0 {
      DigitsShape(-x);
      assert Dec(x)[1..] == Digits(-x);
    } else if x > 0 {
      DigitsShape(x);
    }
  }

  lemma TenDigits()
    ensures Pow10(10) == 10_000_000_000
  {
  }

  /** The shape of the printed text: "0" for 0, a '-' exactly for negatives, and
      never more than 11 characters for a 32-bit int. */
  lemma DecShape(x: Int32)
    ensures x == 0 <==> Dec(x) == "0"
    ensures |Dec(x)| >= 1 && (Dec(x)[0] == '-' <==> x < 0)
    ensures |Dec(x)| <= 11
  {
    DigitsLength(if x < 0 then -(x as int) else x as int, 10);
    if x > 0 {
      DigitsShape(x);
      assert Dec(x)[0] == Digits(x)[0];
      assert Dec(x) != "0" by {
        if |Digits(x)| == 1 { assert Digits(x)[0] != '0'; }
      }
    }
  }

  /** The digits of 2^31, the magnitude of INT_MIN. */
  lemma DigitsIntMin()
    ensures Digits(-IntMin) == "2147483648"
  {
    DigitsSnoc(0, 2);
    DigitsSnoc(2, 1);
    DigitsSnoc(21, 4);
    DigitsSnoc(214, 7);
    DigitsSnoc(2147, 4);
    DigitsSnoc(21474, 8);
    DigitsSnoc(214748, 3);
    DigitsSnoc(2147483, 6);
    DigitsSnoc(21474836, 4);
    DigitsSnoc(214748364, 8);
  }

  /** INT_MIN prints as "-2147483648". */
  lemma DecIntMin()
    ensures Dec(IntMin) == "-2147483648"
  {
    DigitsIntMin();
  }

  /** Appending a digit d to n appends its character to the digits of n. */
  lemma DigitsSnoc(n: nat, d: int)
    requires 0 <= d < 10 && (n > 0 || d > 0)
    ensures Digits(10 * n + d) == Digits(n) + [DigitChar(d)]
  {
  }

  /** Adding a character at the back of s puts it at the front of the reverse. */
  lemma {:induction false} ReverseSnoc(s: seq<char>, c: char)
    ensures Reverse(s + [c]) == [c] + Reverse(s)
  {
    if s != [] {
      assert (s + [c])[1..] == s[1..] + [c];
      ReverseSnoc(s[1..], c);
    } else {
      assert s + [c] == [c];
    }
  }

  /** The digit loop of `write_int`: stores the digits of v least significant
      first in buf, stopping when v runs out or the buffer is full. */
  method FillDigits(buf: array<char>, v0: nat) returns (len: nat)
    requires v0 < 0x8000_0000 && buf.Length == 32
    modifies buf
    ensures len <= 10 && Reverse(buf[..len]) == Digits(v0)
  {
    var v := v0;
    TenDigits();
    DigitsLength(v0, 10);
    len := 0;
    while v > 0 && len < buf.Length
      invariant len <= buf.Length
      invariant Digits(v) + Reverse(buf[..len]) == Digits(v0)
      invariant len + |Digits(v)| <= 10
      decreases v
    {
      ghost var before := buf[..len];
      buf[len] := DigitChar(v % 10);
      assert buf[..len + 1] == before + [DigitChar(v % 10)];
      ReverseSnoc(before, DigitChar(v % 10));
      len := len + 1;
      v := v / 10;
    }
  }

  /** `write_int`: "0" for 0; for a negative x a '-', then "2147483648" for INT_MIN
      and otherwise the digits of -x; the digits are stored least significant
      first in a 32-character buffer and printed from its end. */
  method WriteInt(x: Int32) returns (out: string)
    ensures out == Dec(x)
  {
    if x == 0 {
      return "0";
    }
    out := [];
    var v: int := x;
    if v < 0 {
      out := out + ['-'];
      if v == -2147483647 - 1 {
        DigitsIntMin();
        out := out + "2147483648";
        return;
      }
      v := -v;
    }
    out := WriteDigits(out, v);
  }

  /** The digit loops of `write_int` for a positive v, after the text out0. */
  method WriteDigits(out0: string, v: int) returns (out: string)
    requires 0 < v < 0x8000_0000
    ensures out == out0 + Digits(v)
  {
    var buf := new char[32];
    var len := FillDigits(buf, v);
    out := EmitReversed(out0, buf, len);
  }

  /** The print loop of `write_int`: emits buf[len - 1], ..., buf[0] after out0. */
  method EmitReversed(out0: string, buf: array<char>, len: nat) returns (out: string)
    requires len <= buf.Length
    ensures out == out0 + Reverse(buf[..len])
  {
    out := out0;
    var i := len;
    while i > 0
      invariant 0 <= i <= len
      invariant out == out0 + Reverse(buf[i..len])
    {
      i := i - 1;
      assert buf[i..len][1..] == buf[i + 1..len];
      out := out + [buf[i]];
    }
    assert buf[0..len] == buf[..len];
  }
}
