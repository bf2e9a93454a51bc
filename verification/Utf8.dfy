/** UTF-8 as section 3 of RFC 3629 defines it: the octets of one scalar value,
    and the only octet sequences a decoder may accept. A Dafny `char` is a
    Unicode scalar value. */
module Utf8 {
  import opened Wrappers

  type Octet = b: int | 0 <= b < 0x100

  function ToOctets(c: char): (octets: seq<Octet>)
    ensures 1 <= |octets| <= 4
  {
    var n := c as int;
    if n < 0x80 then [n]
    else if n < 0x800 then [0xC0 + n / 0x40, 0x80 + n % 0x40]
    else if n < 0x1_0000 then [0xE0 + n / 0x1000, 0x80 + n / 0x40 % 0x40, 0x80 + n % 0x40]
    else [0xF0 + n / 0x4_0000, 0x80 + n / 0x1000 % 0x40, 0x80 + n / 0x40 % 0x40, 0x80 + n % 0x40]
  }

  /** How many octets the first one announces; 0 when it cannot come first. */
  function Announced(first: Octet): nat {
    if first < 0x80 then 1
    else if first < 0xC0 then 0
    else if first < 0xE0 then 2
    else if first < 0xF0 then 3
    else if first < 0xF8 then 4
    else 0
  }

  predicate Continuation(b: Octet) {
    0x80 <= b < 0xC0
  }

  predicate Scalar(n: int) {
    0 <= n < 0xD800 || 0xE000 <= n < 0x11_0000
  }

  // The bits a well-announced octet sequence carries, and the least value that
  // needs that many octets.
  function Payload(octets: seq<Octet>): int
    requires 1 <= |octets| <= 4
  {
    if |octets| == 1 then octets[0] as int
    else if |octets| == 2 then (octets[0] as int - 0xC0) * 0x40 + (octets[1] as int - 0x80)
    else if |octets| == 3 then
      (octets[0] as int - 0xE0) * 0x1000 + (octets[1] as int - 0x80) * 0x40 + (octets[2] as int - 0x80)
    else
      (octets[0] as int - 0xF0) * 0x4_0000 + (octets[1] as int - 0x80) * 0x1000
      + (octets[2] as int - 0x80) * 0x40 + (octets[3] as int - 0x80)
  }

  function Least(length: nat): int {
    if length <= 1 then 0 else if length == 2 then 0x80 else if length == 3 then 0x800 else 0x1_0000
  }

  /** Decode the octets of one character. Stray and missing continuation octets,
      overlong forms, surrogates and values past U+10FFFF are refused. */
  function FromOctets(octets: seq<Octet>): Option<char> {
    if octets == [] || |octets| != Announced(octets[0]) then None
    else if !(forall k | 1 <= k < |octets| :: Continuation(octets[k])) then None
    else
      var n := Payload(octets);
      if n < Least(|octets|) || !Scalar(n) then None else Some(n as char)
  }

  // A value is its digits in base 0x40.
  lemma Digits(n: int)
    requires 0 <= n < 0x11_0000
    ensures n == n / 0x40 * 0x40 + n % 0x40
    ensures n == n / 0x1000 * 0x1000 + n / 0x40 % 0x40 * 0x40 + n % 0x40
    ensures n == n / 0x4_0000 * 0x4_0000 + n / 0x1000 % 0x40 * 0x1000 + n / 0x40 % 0x40 * 0x40 + n % 0x40
    ensures n < 0x800 ==> n / 0x40 < 0x20
    ensures n < 0x1_0000 ==> n / 0x1000 < 0x10
    ensures n / 0x4_0000 < 5
  {
  }

  lemma FromTo(c: char)
    ensures FromOctets(ToOctets(c)) == Some(c)
    ensures Announced(ToOctets(c)[0]) == |ToOctets(c)|
  {
    var n := c as int;
    var o := ToOctets(c);
    assert Scalar(n);
    Digits(n);
    assert Payload(o) == n;
  }

  lemma LastDigit(front: int, last: int)
    requires 0 <= front && 0 <= last < 0x40
    ensures (front * 0x40 + last) / 0x40 == front && (front * 0x40 + last) % 0x40 == last
  {
  }

  lemma Shift(n: int)
    requires 0 <= n
    ensures n / 0x1000 == n / 0x40 / 0x40
    ensures n / 0x4_0000 == n / 0x1000 / 0x40
  {
  }

  lemma DigitsUnique(a: int, b: int, c: int, d: int)
    requires 0 <= a < 8 && 0 <= b < 0x40 && 0 <= c < 0x40 && 0 <= d < 0x40
    ensures var n := a * 0x4_0000 + b * 0x1000 + c * 0x40 + d;
            n % 0x40 == d && n / 0x40 % 0x40 == c && n / 0x1000 % 0x40 == b && n / 0x4_0000 == a &&
            (a == 0 ==> n / 0x1000 == b) && (a == 0 && b == 0 ==> n / 0x40 == c)
  {
    var n := a * 0x4_0000 + b * 0x1000 + c * 0x40 + d;
    LastDigit(a * 0x1000 + b * 0x40 + c, d);
    LastDigit(a * 0x40 + b, c);
    LastDigit(a, b);
    Shift(n);
  }

  lemma ToFrom(octets: seq<Octet>)
    requires FromOctets(octets).Some?
    ensures ToOctets(FromOctets(octets).value) == octets
  {
    var n := Payload(octets);
    if |octets| == 2 {
      assert Continuation(octets[1]);
      DigitsUnique(0, 0, octets[0] as int - 0xC0, octets[1] as int - 0x80);
    } else if |octets| == 3 {
      assert Continuation(octets[1]) && Continuation(octets[2]);
      DigitsUnique(0, octets[0] as int - 0xE0, octets[1] as int - 0x80, octets[2] as int - 0x80);
    } else if |octets| == 4 {
      assert Continuation(octets[1]) && Continuation(octets[2]) && Continuation(octets[3]);
      DigitsUnique(octets[0] as int - 0xF0, octets[1] as int - 0x80, octets[2] as int - 0x80, octets[3] as int - 0x80);
    }
  }

  /** The decoder is the exact inverse of the encoder: it accepts an octet
      sequence for c if and only if the encoder produces it for c. */
  lemma Utf8Exact(octets: seq<Octet>, c: char)
    ensures FromOctets(octets) == Some(c) <==> octets == ToOctets(c)
  {
    FromTo(c);
    if FromOctets(octets) == Some(c) {
      ToFrom(octets);
    }
  }

  // ---- The encoding, without its arithmetic ----

  predicate In(b: Octet, low: int, high: int) {
    low <= b <= high
  }

  /** The grammar of section 4 of RFC 3629. */
  predicate Utf8Char(o: seq<Octet>) {
    || (|o| == 1 && In(o[0], 0x00, 0x7F))
    || (|o| == 2 && In(o[0], 0xC2, 0xDF) && In(o[1], 0x80, 0xBF))
    || (|o| == 3 && In(o[2], 0x80, 0xBF) &&
        (|| (o[0] == 0xE0 && In(o[1], 0xA0, 0xBF))
         || (In(o[0], 0xE1, 0xEC) && In(o[1], 0x80, 0xBF))
         || (o[0] == 0xED && In(o[1], 0x80, 0x9F))
         || (In(o[0], 0xEE, 0xEF) && In(o[1], 0x80, 0xBF))))
    || (|o| == 4 && In(o[2], 0x80, 0xBF) && In(o[3], 0x80, 0xBF) &&
        (|| (o[0] == 0xF0 && In(o[1], 0x90, 0xBF))
         || (In(o[0], 0xF1, 0xF3) && In(o[1], 0x80, 0xBF))
         || (o[0] == 0xF4 && In(o[1], 0x80, 0x8F))))
  }

  /** The decoder accepts exactly the sentences of that grammar. */
  lemma GrammarExact(o: seq<Octet>)
    ensures FromOctets(o).Some? <==> Utf8Char(o)
  {
  }

  /** a and b first differ at k, where a has the smaller octet. */
  ghost predicate SmallerAt(a: seq<Octet>, b: seq<Octet>, k: nat) {
    k < |a| && k < |b| && a[k] < b[k] && forall j | 0 <= j < k :: a[j] == b[j]
  }

  /** Lexicographic order, on sequences of which neither continues the other. */
  ghost predicate Precedes(a: seq<Octet>, b: seq<Octet>) {
    exists k: nat :: SmallerAt(a, b, k)
  }

  lemma PrecedesOneWay(a: seq<Octet>, b: seq<Octet>)
    requires Precedes(a, b)
    ensures !Precedes(b, a)
  {
    var k: nat :| SmallerAt(a, b, k);
    forall m: nat ensures !SmallerAt(b, a, m) {
    }
  }

  // Numbers compare as their digits in base 0x40 do.
  lemma LastDigitOrdered(n: int, m: int)
    requires 0 <= n < m
    ensures n / 0x40 < m / 0x40 || (n / 0x40 == m / 0x40 && n % 0x40 < m % 0x40)
  {
  }

  lemma SmallerThreeOctets(c: char, d: char)
    requires 0x800 <= c as int < d as int < 0x1_0000
    ensures Precedes(ToOctets(c), ToOctets(d))
  {
    var a, b, n, m := ToOctets(c), ToOctets(d), c as int, d as int;
    Shift(n);
    Shift(m);
    LastDigitOrdered(n, m);
    if n / 0x40 < m / 0x40 {
      LastDigitOrdered(n / 0x40, m / 0x40);
      assert SmallerAt(a, b, if n / 0x1000 < m / 0x1000 then 0 else 1);
    } else {
      assert SmallerAt(a, b, 2);
    }
  }

  lemma SmallerFourOctets(c: char, d: char)
    requires 0x1_0000 <= c as int < d as int
    ensures Precedes(ToOctets(c), ToOctets(d))
  {
    var a, b, n, m := ToOctets(c), ToOctets(d), c as int, d as int;
    Shift(n);
    Shift(m);
    LastDigitOrdered(n, m);
    if n / 0x40 < m / 0x40 {
      LastDigitOrdered(n / 0x40, m / 0x40);
      if n / 0x1000 < m / 0x1000 {
        LastDigitOrdered(n / 0x1000, m / 0x1000);
        assert SmallerAt(a, b, if n / 0x4_0000 < m / 0x4_0000 then 0 else 1);
      } else {
        assert SmallerAt(a, b, 2);
      }
    } else {
      assert SmallerAt(a, b, 3);
    }
  }

  lemma SmallerPrecedes(c: char, d: char)
    requires c < d
    ensures Precedes(ToOctets(c), ToOctets(d))
  {
    var a, b, n, m := ToOctets(c), ToOctets(d), c as int, d as int;
    if |a| < |b| || |b| == 1 {
      assert SmallerAt(a, b, 0);
    } else if |b| == 2 {
      LastDigitOrdered(n, m);
      assert SmallerAt(a, b, if n / 0x40 < m / 0x40 then 0 else 1);
    } else if |b| == 3 {
      SmallerThreeOctets(c, d);
    } else {
      SmallerFourOctets(c, d);
    }
  }

  /** And it keeps the order of the characters: octet sequences compare as the
      characters they encode do. */
  lemma OrderExact(c: char, d: char)
    ensures c < d <==> Precedes(ToOctets(c), ToOctets(d))
  {
    if c < d {
      SmallerPrecedes(c, d);
    } else if d < c {
      SmallerPrecedes(d, c);
      PrecedesOneWay(ToOctets(d), ToOctets(c));
    }
  }

  /** An encoding of the characters by all the sentences of the grammar, in order. */
  ghost predicate IsEncoding(f: char -> seq<Octet>) {
    && (forall c :: Utf8Char(f(c)))
    && (forall c, d | c < d :: Precedes(f(c), f(d)))
    && (forall o :: Utf8Char(o) ==> exists c :: f(c) == o)
  }

  lemma {:induction false} OnlyEncoding(f: char -> seq<Octet>, c: char)
    requires IsEncoding(f)
    ensures f(c) == ToOctets(c)
    decreases c as int
  {
    Utf8Exact(ToOctets(c), c);
    GrammarExact(ToOctets(c));
    var e :| f(e) == ToOctets(c);
    if e < c {
      OnlyEncoding(f, e);
      Utf8Exact(ToOctets(e), e);
    } else if c < e {
      GrammarExact(f(c));
      var x := FromOctets(f(c)).value;
      Utf8Exact(f(c), x);
      OrderExact(x, c);
      OnlyEncoding(f, x);
      PrecedesOneWay(f(x), f(c));
    }
  }

  /** UTF-8 without its arithmetic: it is the one encoding of the characters by all
      the sentences of the grammar that keeps their order. */
  lemma EncodingExact(f: char -> seq<Octet>)
    ensures IsEncoding(f) <==> forall c :: f(c) == ToOctets(c)
  {
    if IsEncoding(f) {
      forall c ensures f(c) == ToOctets(c) {
        OnlyEncoding(f, c);
      }
    }
    if forall c :: f(c) == ToOctets(c) {
      forall c ensures Utf8Char(f(c)) {
        Utf8Exact(f(c), c);
        GrammarExact(f(c));
      }
      forall c, d | c < d ensures Precedes(f(c), f(d)) {
        OrderExact(c, d);
      }
      forall o | Utf8Char(o) ensures exists c :: f(c) == o {
        GrammarExact(o);
        Utf8Exact(o, FromOctets(o).value);
        assert f(FromOctets(o).value) == o;
      }
    }
  }
}
