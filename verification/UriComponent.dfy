/** `encodeURIComponent` and `decodeURIComponent` (section 19.2.6 of ECMA-262)
    over strings of Unicode scalar values, with percent-encoding as in section
    2.1 of RFC 3986. */
module UriComponent {
  import opened Wrappers
  import opened Utf8

  /** The characters that are left as they are. */
  predicate Unescaped(c: char) {
    'A' <= c <= 'Z' || 'a' <= c <= 'z' || '0' <= c <= '9' || c in "-_.!~*'()"
  }

  function HexDigit(n: int): char
    requires 0 <= n < 16
  {
    "0123456789ABCDEF"[n]
  }

  /** Decoding accepts either case of a hexadecimal digit. */
  function HexValue(c: char): Option<int> {
    if '0' <= c <= '9' then Some(c as int - '0' as int)
    else if 'A' <= c <= 'F' then Some(c as int - 'A' as int + 10)
    else if 'a' <= c <= 'f' then Some(c as int - 'a' as int + 10)
    else None
  }

  function Escape(b: Octet): string {
    ['%', HexDigit(b / 16), HexDigit(b % 16)]
  }

  function EscapeAll(octets: seq<Octet>): string {
    if octets == [] then "" else Escape(octets[0]) + EscapeAll(octets[1..])
  }

  function EncodeChar(c: char): string {
    if Unescaped(c) then [c] else EscapeAll(ToOctets(c))
  }

  function Encode(s: string): string {
    if s == "" then "" else EncodeChar(s[0]) + Encode(s[1..])
  }

  /** The octet escaped at the head of t. */
  function ReadOctet(t: string): (b: Option<Octet>)
    ensures b.Some? ==> |t| >= 3
  {
    if |t| < 3 || t[0] != '%' then None
    else
      var hi, lo := HexValue(t[1]), HexValue(t[2]);
      if hi.Some? && lo.Some? then Some(16 * hi.value + lo.value) else None
  }

  function ReadOctets(t: string, n: nat): (octets: Option<seq<Octet>>)
    ensures octets.Some? ==> |octets.value| == n && 3 * n <= |t|
  {
    if n == 0 then Some([])
    else
      var b := ReadOctet(t);
      if b.None? then None
      else
        var rest := ReadOctets(t[3..], n - 1);
        if rest.None? then None else Some([b.value] + rest.value)
  }

  /** The first character of t and how much of t spells it; None for a URIError. */
  function DecodeHead(t: string): (r: Option<(char, nat)>)
    requires t != ""
    ensures r.Some? ==> 0 < r.value.1 <= |t|
  {
    if t[0] != '%' then Some((t[0], 1))
    else
      var first := ReadOctet(t);
      if first.None? || Announced(first.value) == 0 then None
      else
        var octets := ReadOctets(t, Announced(first.value));
        if octets.None? then None
        else
          var c := FromOctets(octets.value);
          if c.None? then None else Some((c.value, 3 * Announced(first.value)))
  }

  function Decode(t: string): Option<string>
    decreases |t|
  {
    if t == "" then Some("")
    else
      var head := DecodeHead(t);
      if head.None? then None
      else
        var rest := Decode(t[head.value.1..]);
        if rest.None? then None else Some([head.value.0] + rest.value)
  }

  // ---- Decoding undoes encoding ----

  predicate UpperHex(c: char) {
    '0' <= c <= '9' || 'A' <= c <= 'F'
  }

  /** Which digits the decoder reads, and as what: both cases, and nothing else. */
  lemma HexValueExact(c: char, n: int)
    requires 0 <= n < 16
    ensures HexValue(c) == Some(n) <==> c == "0123456789ABCDEF"[n] || c == "0123456789abcdef"[n]
    ensures HexValue(c).Some? ==> 0 <= HexValue(c).value < 16
  {
  }

  lemma HexRoundTrip(n: int)
    requires 0 <= n < 16
    ensures HexValue(HexDigit(n)) == Some(n) && Unescaped(HexDigit(n)) && UpperHex(HexDigit(n))
  {
  }

  lemma ReadEscaped(b: Octet, rest: string)
    ensures ReadOctet(Escape(b) + rest) == Some(b)
  {
    HexRoundTrip(b / 16);
    HexRoundTrip(b % 16);
  }

  lemma {:induction false} ReadEscapedAll(octets: seq<Octet>, rest: string)
    ensures ReadOctets(EscapeAll(octets) + rest, |octets|) == Some(octets)
    ensures |EscapeAll(octets)| == 3 * |octets|
  {
    if octets == [] {
      assert EscapeAll(octets) + rest == rest;
    } else {
      var t := EscapeAll(octets) + rest;
      var tail := EscapeAll(octets[1..]) + rest;
      assert t == Escape(octets[0]) + tail;
      ReadEscaped(octets[0], tail);
      assert t[3..] == tail;
      ReadEscapedAll(octets[1..], rest);
      assert [octets[0]] + octets[1..] == octets;
    }
  }

  lemma DecodeHeadOfOctets(t: string, octets: seq<Octet>, c: char)
    requires octets != [] && ReadOctets(t, |octets|) == Some(octets) && FromOctets(octets) == Some(c)
    ensures DecodeHead(t) == Some((c, 3 * |octets|))
  {
    assert ReadOctet(t) == Some(octets[0]);
  }

  lemma DecodeHeadOfEscaped(octets: seq<Octet>, c: char, rest: string)
    requires octets != [] && FromOctets(octets) == Some(c)
    ensures DecodeHead(EscapeAll(octets) + rest) == Some((c, |EscapeAll(octets)|))
  {
    ReadEscapedAll(octets, rest);
    DecodeHeadOfOctets(EscapeAll(octets) + rest, octets, c);
  }

  lemma DecodeHeadOfEncoded(c: char, rest: string)
    ensures DecodeHead(EncodeChar(c) + rest) == Some((c, |EncodeChar(c)|))
  {
    if !Unescaped(c) {
      FromTo(c);
      DecodeHeadOfEscaped(ToOctets(c), c, rest);
    }
  }

  /** Component decoding undoes component encoding, on every string. */
  lemma {:induction false} DecodeEncode(s: string)
    ensures Decode(Encode(s)) == Some(s)
  {
    if s != "" {
      DecodeHeadOfEncoded(s[0], Encode(s[1..]));
      assert Encode(s)[|EncodeChar(s[0])|..] == Encode(s[1..]);
      DecodeEncode(s[1..]);
      assert [s[0]] + s[1..] == s;
    }
  }

  // ---- Which characters the encoder leaves alone ----

  lemma LetterAt(i: nat)
    requires i < 26
    ensures "ABCDEFGHIJKLMNOPQRSTUVWXYZ"[i] == 'A' + i as char
    ensures "abcdefghijklmnopqrstuvwxyz"[i] == 'a' + i as char
  {
  }

  lemma UpperCaseLetters(c: char)
    ensures 'A' <= c <= 'Z' <==> c in "ABCDEFGHIJKLMNOPQRSTUVWXYZ"
  {
    var letters := "ABCDEFGHIJKLMNOPQRSTUVWXYZ";
    if i: nat :| i < |letters| && letters[i] == c {
      LetterAt(i);
    }
    if 'A' <= c <= 'Z' {
      LetterAt(c as int - 'A' as int);
    }
  }

  lemma LowerCaseLetters(c: char)
    ensures 'a' <= c <= 'z' <==> c in "abcdefghijklmnopqrstuvwxyz"
  {
    var letters := "abcdefghijklmnopqrstuvwxyz";
    if i: nat :| i < |letters| && letters[i] == c {
      LetterAt(i);
    }
    if 'a' <= c <= 'z' {
      LetterAt(c as int - 'a' as int);
    }
  }

  lemma DecimalDigits(c: char)
    ensures '0' <= c <= '9' <==> c in "0123456789"
  {
    if '0' <= c <= '9' {
      assert "0123456789"[c as int - '0' as int] == c;
    }
  }

  /** The 71 characters that section 19.2.6.5 of ECMA-262 lists. */
  predicate Unreserved(c: char) {
    || c in "ABCDEFGHIJKLMNOPQRSTUVWXYZ"
    || c in "abcdefghijklmnopqrstuvwxyz"
    || c in "0123456789"
    || c in "-_.!~*'()"
  }

  lemma UnescapedExact(c: char)
    ensures Unescaped(c) <==> Unreserved(c)
  {
    UpperCaseLetters(c);
    LowerCaseLetters(c);
    DecimalDigits(c);
  }

  lemma {:induction false} EscapedAlphabet(octets: seq<Octet>)
    ensures |EscapeAll(octets)| == 3 * |octets|
    ensures forall c | c in EscapeAll(octets) :: Unescaped(c) || c == '%'
  {
    if octets != [] {
      HexRoundTrip(octets[0] / 16);
      HexRoundTrip(octets[0] % 16);
      EscapedAlphabet(octets[1..]);
    }
  }

  /** The encoder leaves a character as it is if and only if it is one of those. */
  lemma LeftAloneExact(c: char)
    ensures EncodeChar(c) == [c] <==>
            || c in "ABCDEFGHIJKLMNOPQRSTUVWXYZ"
            || c in "abcdefghijklmnopqrstuvwxyz"
            || c in "0123456789"
            || c in "-_.!~*'()"
  {
    UnescapedExact(c);
    EscapedAlphabet(ToOctets(c));
  }

  lemma {:induction false} EncodedCharacters(s: string)
    ensures forall c | c in Encode(s) :: Unescaped(c) || c == '%'
  {
    if s != "" {
      EncodedCharacters(s[1..]);
      EscapedAlphabet(ToOctets(s[0]));
    }
  }

  /** An encoded component consists of those characters and '%' alone; in
      particular no '&' and no '='. */
  lemma EncodedAlphabet(s: string)
    ensures forall c | c in Encode(s) :: Unreserved(c) || c == '%'
    ensures '&' !in Encode(s) && '=' !in Encode(s)
  {
    EncodedCharacters(s);
    forall c | c in Encode(s) && c != '%' ensures Unreserved(c) {
      UnescapedExact(c);
    }
    assert !Unescaped('&') && !Unescaped('=');
  }

  predicate UpperCaseEscapes(u: string) {
    forall c | c in u :: c == '%' || UpperHex(c)
  }

  /** A hexadecimal digit of either case. */
  predicate IsHexDigit(c: char, n: int)
    requires 0 <= n < 16
  {
    c == "0123456789ABCDEF"[n] || c == "0123456789abcdef"[n]
  }

  /** The k-th group of three characters of u is a percent-encoding of b. */
  predicate EscapesAt(u: string, k: nat, b: Octet) {
    && 3 * k + 2 < |u| && u[3 * k] == '%'
    && IsHexDigit(u[3 * k + 1], b / 16) && IsHexDigit(u[3 * k + 2], b % 16)
  }

  predicate EscapesEach(u: string, octets: seq<Octet>) {
    forall k | 0 <= k < |octets| :: EscapesAt(u, k, octets[k])
  }

  lemma EscapesEachTail(t: string, octets: seq<Octet>)
    requires octets != [] && |t| >= 3
    ensures EscapesEach(t, octets) <==> EscapesAt(t, 0, octets[0]) && EscapesEach(t[3..], octets[1..])
  {
    if EscapesEach(t, octets) {
      forall k | 0 <= k < |octets[1..]| ensures EscapesAt(t[3..], k, octets[1..][k]) {
        assert EscapesAt(t, k + 1, octets[k + 1]);
      }
    }
    if EscapesAt(t, 0, octets[0]) && EscapesEach(t[3..], octets[1..]) {
      forall k | 0 <= k < |octets| ensures EscapesAt(t, k, octets[k]) {
        if k > 0 {
          assert EscapesAt(t[3..], k - 1, octets[1..][k - 1]);
        }
      }
    }
  }

  // The escapes of octets, group by group, with upper-case digits.
  lemma {:induction false} EscapedGroups(octets: seq<Octet>)
    ensures |EscapeAll(octets)| == 3 * |octets|
    ensures EscapesEach(EscapeAll(octets), octets)
    ensures UpperCaseEscapes(EscapeAll(octets))
  {
    if octets != [] {
      EscapedGroups(octets[1..]);
      ReadEscaped(octets[0], EscapeAll(octets[1..]));
      EscapesEachTail(EscapeAll(octets), octets);
      HexRoundTrip(octets[0] / 16);
      HexRoundTrip(octets[0] % 16);
    }
  }

  lemma UpperCaseDigit(a: char, b: char, n: int)
    requires 0 <= n < 16 && IsHexDigit(a, n) && IsHexDigit(b, n)
    requires (a == '%' || UpperHex(a)) && (b == '%' || UpperHex(b))
    ensures a == b
  {
  }

  lemma UpperCaseUnique(u: string, w: string, octets: seq<Octet>)
    requires |u| == |w| == 3 * |octets| && EscapesEach(u, octets) && EscapesEach(w, octets)
    requires UpperCaseEscapes(u) && UpperCaseEscapes(w)
    ensures u == w
  {
    forall i | 0 <= i < |u| ensures u[i] == w[i] {
      var k := i / 3;
      assert EscapesAt(u, k, octets[k]) && EscapesAt(w, k, octets[k]);
      UpperCaseDigit(u[3 * k + 1], w[3 * k + 1], octets[k] / 16);
      UpperCaseDigit(u[3 * k + 2], w[3 * k + 2], octets[k] % 16);
    }
  }

  /** u is one way of writing c: the character itself, unless it is '%', or its
      UTF-8 octets, each percent-encoded with digits of either case. */
  predicate Spells(u: string, c: char) {
    var octets := ToOctets(c);
    (u == [c] && c != '%') ||
    (|u| == 3 * |octets| && EscapesEach(u, octets))
  }

  /** The encoder's exact choice among the spellings of a character: the character
      itself if it is unreserved, otherwise its octets with upper-case digits. */
  lemma EncodeCharExact(c: char, u: string)
    ensures u == EncodeChar(c) <==>
            Spells(u, c) && if Unreserved(c) then u == [c] else u != [c] && UpperCaseEscapes(u)
  {
    UnescapedExact(c);
    var octets := ToOctets(c);
    EscapedGroups(octets);
    if !Unescaped(c) {
      if Spells(u, c) && u != [c] && UpperCaseEscapes(u) {
        UpperCaseUnique(u, EncodeChar(c), octets);
      }
    }
  }

  // ---- Which texts decode, and to what ----

  ghost predicate IsSpelling(t: string, s: string) {
    if s == "" then t == ""
    else exists n | 0 < n <= |t| :: Spells(t[..n], s[0]) && IsSpelling(t[n..], s[1..])
  }

  lemma {:induction false} ReadOctetsPrefix(t: string, n: nat)
    requires 3 * n <= |t|
    ensures ReadOctets(t[..3 * n], n) == ReadOctets(t, n)
  {
    if n > 0 {
      ReadOctetsPrefix(t[3..], n - 1);
      assert t[..3 * n][3..] == t[3..][..3 * (n - 1)];
    }
  }

  lemma ReadOctetExact(t: string, b: Octet)
    ensures ReadOctet(t) == Some(b) <==> EscapesAt(t, 0, b)
  {
    if |t| >= 3 {
      HexValueExact(t[1], b / 16);
      HexValueExact(t[2], b % 16);
    }
  }

  lemma {:induction false} ReadOctetsExact(t: string, octets: seq<Octet>)
    ensures ReadOctets(t, |octets|) == Some(octets) <==> EscapesEach(t, octets)
  {
    if octets != [] {
      var first, rest := octets[0], octets[1..];
      assert octets == [first] + rest;
      ReadOctetExact(t, first);
      if |t| >= 3 {
        ReadOctetsExact(t[3..], rest);
        EscapesEachTail(t, octets);
      }
    }
  }

  lemma DecodedHeadSpells(t: string, c: char, n: nat)
    requires t != "" && DecodeHead(t) == Some((c, n))
    ensures Spells(t[..n], c)
  {
    if t[0] == '%' {
      var read := ReadOctets(t, n / 3).value;
      Utf8Exact(read, c);
      ReadOctetsPrefix(t, n / 3);
      ReadOctetsExact(t[..n], read);
    }
  }

  lemma SpelledHeadDecodes(t: string, c: char, n: nat)
    requires 0 < n <= |t| && Spells(t[..n], c)
    ensures DecodeHead(t) == Some((c, n))
  {
    var octets := ToOctets(c);
    FromTo(c);
    assert t[0] != '%' ==> !EscapesAt(t[..n], 0, octets[0]);
    if t[0] == '%' {
      ReadOctetsExact(t[..n], octets);
      ReadOctetsPrefix(t, |octets|);
      assert ReadOctet(t) == Some(octets[0]);
    }
  }

  lemma {:induction false} DecodedIsSpelled(t: string, s: string)
    requires Decode(t) == Some(s)
    ensures IsSpelling(t, s)
    decreases |t|
  {
    if t != "" {
      var n := DecodeHead(t).value.1;
      DecodedHeadSpells(t, s[0], n);
      DecodedIsSpelled(t[n..], s[1..]);
    }
  }

  lemma {:induction false} SpelledDecodes(t: string, s: string)
    requires IsSpelling(t, s)
    ensures Decode(t) == Some(s)
    decreases |t|
  {
    if s != "" {
      var n :| 0 < n <= |t| && Spells(t[..n], s[0]) && IsSpelling(t[n..], s[1..]);
      SpelledHeadDecodes(t, s[0], n);
      SpelledDecodes(t[n..], s[1..]);
      assert [s[0]] + s[1..] == s;
    }
  }

  /** The decoder's exact meaning: t decodes to s if and only if t is a spelling
      of s, character by character. So it raises a URIError exactly when t spells
      no string. */
  lemma DecodeExact(t: string, s: string)
    ensures Decode(t) == Some(s) <==> IsSpelling(t, s)
  {
    if Decode(t) == Some(s) {
      DecodedIsSpelled(t, s);
    }
    if IsSpelling(t, s) {
      SpelledDecodes(t, s);
    }
  }

  /** Text without a '%' is left as it is; a '+' in particular stays a '+'. */
  lemma {:induction false} PlainTextDecodes(t: string)
    requires '%' !in t
    ensures Decode(t) == Some(t)
  {
    if t != "" {
      PlainTextDecodes(t[1..]);
      assert [t[0]] + t[1..] == t;
    }
  }
}
