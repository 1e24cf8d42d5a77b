/** Small pieces of the string behaviour the evaluation engine relies on:
    ASCII lower-casing, substring search, joining with a separator, and
    extracting and reading the decimal digits of a string. */
module Text {

  /** The ASCII part of `str.lower` (characters outside 'A'..'Z' are kept). */
  function LowerChar(c: char): (d: char)
    ensures 'A' <= c <= 'Z' ==> 'a' <= d <= 'z' && d as int - c as int == 'a' as int - 'A' as int
    ensures !('A' <= c <= 'Z') ==> d == c
    ensures !('A' <= d <= 'Z')
  {
    if 'A' <= c <= 'Z' then (c as int - 'A' as int + 'a' as int) as char else c
  }

  /** `s.lower()`, character by character. */
  function Lower(s: string): (r: string)
    ensures |r| == |s|
    ensures forall k :: 0 <= k < |s| ==> r[k] == LowerChar(s[k])
  {
    seq(|s|, k requires 0 <= k < |s| => LowerChar(s[k]))
  }

  /** Lower-casing twice is lower-casing once. */
  lemma LowerIdempotent(s: string)
    ensures Lower(Lower(s)) == Lower(s)
  {
    var once := Lower(s);
    forall k | 0 <= k < |s| ensures Lower(once)[k] == once[k] {
      assert !('A' <= once[k] <= 'Z');
    }
  }

  /** Lower-casing introduces no character other than a lower-case letter. */
  lemma LowerKeepsAbsent(s: string, c: char)
    requires c !in s && !('a' <= c <= 'z')
    ensures c !in Lower(s)
  {
    forall k | 0 <= k < |s| ensures Lower(s)[k] != c {
      assert s[k] != c;
    }
  }

  /** `needle` occurs in `hay` starting at position `i`. */
  predicate IsAt(hay: string, needle: string, i: int)
  {
    0 <= i && i + |needle| <= |hay| && hay[i..i + |needle|] == needle
  }

  /** Python's `needle in hay` on strings, as a left-to-right scan (the empty string occurs everywhere). */
  predicate Contains(hay: string, needle: string)
    decreases |hay|
  {
    |needle| <= |hay| && (hay[..|needle|] == needle || Contains(hay[1..], needle))
  }

  /** An occurrence at any position is found by the scan. */
  lemma {:induction false} ContainsAt(hay: string, needle: string, i: nat)
    requires IsAt(hay, needle, i)
    ensures Contains(hay, needle)
  {
    if i > 0 {
      assert hay[1..][i - 1..i - 1 + |needle|] == hay[i..i + |needle|];
      ContainsAt(hay[1..], needle, i - 1);
    }
  }

  /** The scan succeeds only where there is an occurrence. */
  lemma {:induction false} ContainsWitness(hay: string, needle: string) returns (i: nat)
    requires Contains(hay, needle)
    ensures IsAt(hay, needle, i)
  {
    if hay[..|needle|] == needle {
      i := 0;
    } else {
      var i' := ContainsWitness(hay[1..], needle);
      assert hay[1..][i'..i' + |needle|] == hay[i' + 1..i' + 1 + |needle|];
      i := i' + 1;
    }
  }

  /** The scan agrees with the positional definition of an occurrence. */
  lemma ContainsIff(hay: string, needle: string)
    ensures Contains(hay, needle) <==> exists i :: IsAt(hay, needle, i)
  {
    if Contains(hay, needle) {
      var i := ContainsWitness(hay, needle);
    }
    forall i | IsAt(hay, needle, i) ensures Contains(hay, needle) {
      ContainsAt(hay, needle, i);
    }
  }

  /** Every character of a string that occurs in `hay` is a character of `hay`. */
  lemma ContainsChars(hay: string, needle: string, k: nat)
    requires Contains(hay, needle) && k < |needle|
    ensures needle[k] in hay
  {
    var i := ContainsWitness(hay, needle);
    assert hay[i..i + |needle|][k] == hay[i + k];
  }

  /** A string occurs in any string built around it. */
  lemma ContainsInfix(a: string, needle: string, b: string)
    ensures Contains(a + needle + b, needle)
  {
    var hay := a + needle + b;
    assert hay[|a|..|a| + |needle|] == needle;
    ContainsAt(hay, needle, |a|);
  }

  /** `sep.join(parts)`. */
  function Join(parts: seq<string>, sep: string): (r: string)
    ensures parts == [] ==> r == []
    ensures parts != [] ==> |r| >= |parts[0]|
  {
    if parts == [] then []
    else if |parts| == 1 then parts[0]
    else parts[0] + sep + Join(parts[1..], sep)
  }

  /** Joining non-empty strings gives the empty string exactly when there is nothing to join. */
  lemma JoinEmptyIff(parts: seq<string>, sep: string)
    requires forall k :: 0 <= k < |parts| ==> parts[k] != []
    ensures Join(parts, sep) == [] <==> parts == []
  {
    if parts != [] {
      assert parts[0] != [];
    }
  }

  /** Joining appends the separator and the new part to the joined prefix. */
  lemma {:induction false} JoinSnoc(parts: seq<string>, sep: string, p: string)
    requires parts != []
    ensures Join(parts + [p], sep) == Join(parts, sep) + sep + p
  {
    if |parts| == 1 {
      assert parts + [p] == [parts[0], p];
    } else {
      assert (parts + [p])[1..] == parts[1..] + [p];
      JoinSnoc(parts[1..], sep, p);
    }
  }

  /** The ASCII part of `str.isdigit`. */
  predicate IsDigit(c: char)
  {
    '0' <= c <= '9'
  }

  predicate AllDigits(s: string)
  {
    forall k :: 0 <= k < |s| ==> IsDigit(s[k])
  }

  /** `''.join(filter(str.isdigit, s))`: every digit of `s`, in order. */
  function Digits(s: string): (ds: string)
    ensures AllDigits(ds)
    ensures |ds| <= |s|
  {
    if s == [] then []
    else Digits(s[..|s| - 1]) + (if IsDigit(s[|s| - 1]) then [s[|s| - 1]] else [])
  }

  /** Filtering distributes over concatenation: the digits of `a + b` are those of `a` followed by those of `b`. */
  lemma {:induction false} DigitsAppend(a: string, b: string)
    ensures Digits(a + b) == Digits(a) + Digits(b)
  {
    if b == [] {
      assert a + b == a;
    } else {
      var b' := b[..|b| - 1];
      assert (a + b)[..|a + b| - 1] == a + b';
      DigitsAppend(a, b');
    }
  }

  /** A string of digits is its own filtered form. */
  lemma {:induction false} DigitsOfDigitString(s: string)
    requires AllDigits(s)
    ensures Digits(s) == s
  {
    if s != [] {
      DigitsOfDigitString(s[..|s| - 1]);
    }
  }

  /** A string with no digit characters filters to the empty string. */
  lemma {:induction false} DigitsOfDigitFree(s: string)
    requires forall k :: 0 <= k < |s| ==> !IsDigit(s[k])
    ensures Digits(s) == []
  {
    if s != [] {
      DigitsOfDigitFree(s[..|s| - 1]);
    }
  }

  function DigitValue(c: char): (v: nat)
    requires IsDigit(c)
    ensures v < 10
  {
    c as int - '0' as int
  }

  function DigitChar(v: nat): (c: char)
    requires v < 10
    ensures IsDigit(c) && DigitValue(c) == v
  {
    ('0' as int + v) as char
  }

  function Pow10(n: nat): (p: nat)
    ensures p >= 1
  {
    if n == 0 then 1 else 10 * Pow10(n - 1)
  }

  /** `int(ds)` for a non-empty string of ASCII digits: the base-10 value, leading zeros allowed. */
  function DecimalValue(ds: string): (v: nat)
    requires AllDigits(ds)
    ensures v < Pow10(|ds|)
  {
    if ds == [] then 0
    else DecimalValue(ds[..|ds| - 1]) * 10 + DigitValue(ds[|ds| - 1])
  }

  /** Reading `x + y` shifts the value of `x` left by the length of `y`. */
  lemma {:induction false} DecimalValueAppend(x: string, y: string)
    requires AllDigits(x) && AllDigits(y)
    ensures DecimalValue(x + y) == DecimalValue(x) * Pow10(|y|) + DecimalValue(y)
  {
    if y == [] {
      assert x + y == x;
    } else {
      var y', last := y[..|y| - 1], y[|y| - 1];
      var xy := x + y;
      assert xy[..|xy| - 1] == x + y';
      assert xy[|xy| - 1] == last;
      DecimalValueAppend(x, y');
      var a, p, b, d := DecimalValue(x), Pow10(|y'|), DecimalValue(y'), DigitValue(last);
      assert DecimalValue(xy) == DecimalValue(x + y') * 10 + d;
      assert DecimalValue(y) == b * 10 + d;
      assert Pow10(|y|) == 10 * p;
      ShiftDistributes(a, p, b, d);
    }
  }

  lemma ShiftDistributes(a: int, p: int, b: int, d: int)
    ensures (a * p + b) * 10 + d == a * (10 * p) + (b * 10 + d)
  {
  }

  /** The shortest decimal rendering of `n`, used only to state `DecimalRoundTrip`. */
  function Decimal(n: nat): (s: string)
    ensures s != [] && AllDigits(s)
    ensures |s| > 1 ==> s[0] != '0'
  {
    if n < 10 then [DigitChar(n)] else Decimal(n / 10) + [DigitChar(n % 10)]
  }

  /** Reading back a rendered number gives the number. */
  lemma {:induction false} DecimalRoundTrip(n: nat)
    ensures DecimalValue(Decimal(n)) == n
  {
    if n >= 10 {
      var s := Decimal(n);
      assert s[..|s| - 1] == Decimal(n / 10);
      DecimalRoundTrip(n / 10);
    }
  }
}
