/** The order in which JavaScript lists the own keys of an object
    (OrdinaryOwnPropertyKeys, section 10.1.11 of ECMA-262): array indices in
    ascending order, then all other keys in order of creation. */
module PropertyKeys {

  predicate AllDigits(s: string) {
    forall i | 0 <= i < |s| :: '0' <= s[i] <= '9'
  }

  function Number(s: string): nat
    requires AllDigits(s)
  {
    if s == "" then 0 else 10 * Number(s[..|s| - 1]) + (s[|s| - 1] as int - '0' as int)
  }

  /** A decimal without leading zeros, below 2^32 - 1. */
  predicate IsArrayIndex(s: string) {
    s != "" && AllDigits(s) && (s[0] == '0' ==> |s| == 1) && Number(s) < 0xFFFF_FFFF
  }

  /** A key x that is there already is listed before a new key k. */
  predicate Precedes(x: string, k: string) {
    IsArrayIndex(k) ==> IsArrayIndex(x) && Number(x) <= Number(k)
  }

  ghost predicate InOrder(keys: seq<string>) {
    forall i, j | 0 <= i < j < |keys| :: Precedes(keys[i], keys[j])
  }

  ghost predicate NoDuplicates(keys: seq<string>) {
    forall i, j | 0 <= i < j < |keys| :: keys[i] != keys[j]
  }

  /** Where a new key is listed. */
  function Place(keys: seq<string>, k: string): (i: nat)
    ensures i <= |keys|
    ensures !IsArrayIndex(k) ==> i == |keys|
    ensures forall j | 0 <= j < i :: Precedes(keys[j], k)
    ensures i < |keys| ==> !Precedes(keys[i], k)
  {
    if keys != [] && Precedes(keys[0], k) then Place(keys[1..], k) + 1 else 0
  }

  function Insert(keys: seq<string>, k: string): seq<string> {
    var i := Place(keys, k);
    keys[..i] + [k] + keys[i..]
  }

  /** Creating a key keeps the listing in order, without duplicates, and adds that
      key only. */
  lemma InsertKeeps(keys: seq<string>, k: string)
    ensures InOrder(keys) ==> InOrder(Insert(keys, k))
    ensures NoDuplicates(keys) && k !in keys ==> NoDuplicates(Insert(keys, k))
    ensures forall x :: x in Insert(keys, k) <==> x in keys || x == k
  {
  }

  /** A key that all others precede is listed last. */
  lemma InsertLast(keys: seq<string>, k: string)
    requires forall i | 0 <= i < |keys| :: Precedes(keys[i], k)
    ensures Insert(keys, k) == keys + [k]
  {
  }

  // ---- Who is listed before whom ----

  ghost predicate ListedBefore(keys: seq<string>, a: string, b: string) {
    exists i, j | 0 <= i < j < |keys| :: keys[i] == a && keys[j] == b
  }

  lemma ListedOneWay(keys: seq<string>, a: string, b: string)
    requires NoDuplicates(keys) && a in keys && b in keys && a != b
    ensures ListedBefore(keys, a, b) <==> !ListedBefore(keys, b, a)
  {
  }

  lemma ListedBeforeCons(keys: seq<string>, a: string, b: string)
    requires keys != []
    ensures ListedBefore(keys, a, b) <==> (keys[0] == a && b in keys[1..]) || ListedBefore(keys[1..], a, b)
  {
    var rest := keys[1..];
    if i, j :| 0 <= i < j < |keys| && keys[i] == a && keys[j] == b {
      assert rest[j - 1] == b;
      assert i > 0 ==> rest[i - 1] == a;
    }
    if keys[0] == a && b in rest {
      var j :| 0 <= j < |rest| && rest[j] == b;
      assert keys[j + 1] == b;
    }
    if i, j :| 0 <= i < j < |rest| && rest[i] == a && rest[j] == b {
      assert keys[i + 1] == a && keys[j + 1] == b;
    }
  }

  lemma HeadFirst(keys: seq<string>, k: string)
    requires NoDuplicates(keys) && k in keys && k != keys[0]
    ensures ListedBefore(keys, keys[0], k) && !ListedBefore(keys, k, keys[0])
  {
    ListedBeforeCons(keys, keys[0], k);
    ListedOneWay(keys, keys[0], k);
  }

  lemma SameHead(keys: seq<string>, others: seq<string>)
    requires NoDuplicates(keys) && NoDuplicates(others) && keys != []
    requires forall k :: k in keys <==> k in others
    requires forall a, b | a in keys && b in keys :: ListedBefore(keys, a, b) <==> ListedBefore(others, a, b)
    ensures others != [] && keys[0] == others[0]
  {
    assert keys[0] in others && others[0] in keys;
    if keys[0] != others[0] {
      HeadFirst(keys, others[0]);
      HeadFirst(others, keys[0]);
    }
  }

  /** A listing is determined by its members and their order. */
  lemma {:induction false} SameListing(keys: seq<string>, others: seq<string>)
    requires NoDuplicates(keys) && NoDuplicates(others)
    requires forall k :: k in keys <==> k in others
    requires forall a, b | a in keys && b in keys :: ListedBefore(keys, a, b) <==> ListedBefore(others, a, b)
    ensures keys == others
  {
    assert others != [] ==> others[0] in others;
    if keys != [] {
      SameHead(keys, others);
      var rest, more := keys[1..], others[1..];
      forall k ensures k in rest <==> k in more {
        assert k in rest <==> k in keys && k != keys[0];
        assert k in more <==> k in others && k != others[0];
      }
      forall a, b | a in rest && b in rest ensures ListedBefore(rest, a, b) <==> ListedBefore(more, a, b) {
        ListedBeforeCons(keys, a, b);
        ListedBeforeCons(others, a, b);
      }
      SameListing(rest, more);
      assert keys == [keys[0]] + rest && others == [others[0]] + more;
    }
  }

  /** Creating a key leaves the order of the others alone. */
  lemma InsertMovesNobody(keys: seq<string>, k: string, a: string, b: string)
    requires a != k && b != k
    ensures ListedBefore(Insert(keys, k), a, b) <==> ListedBefore(keys, a, b)
  {
    var p, after := Place(keys, k), Insert(keys, k);
    if i, j :| 0 <= i < j < |keys| && keys[i] == a && keys[j] == b {
      var i', j' := if i < p then i else i + 1, if j < p then j else j + 1;
      assert after[i'] == a && after[j'] == b;
    }
    if i, j :| 0 <= i < j < |after| && after[i] == a && after[j] == b {
      var i', j' := if i < p then i else i - 1, if j < p then j else j - 1;
      assert keys[i'] == a && keys[j'] == b;
    }
  }

  /** A new key that is no array index goes behind all others. */
  lemma InsertedLast(keys: seq<string>, k: string, a: string)
    requires !IsArrayIndex(k) && k !in keys && a in keys
    ensures ListedBefore(Insert(keys, k), a, k) && !ListedBefore(Insert(keys, k), k, a)
  {
    var after := Insert(keys, k);
    assert after == keys + [k];
    var i :| 0 <= i < |keys| && keys[i] == a;
    assert after[i] == a && after[|keys|] == k;
  }

  lemma {:induction false} NumberPositive(s: string)
    requires AllDigits(s) && s != "" && s[0] != '0'
    ensures Number(s) >= 1
  {
    if |s| > 1 {
      NumberPositive(s[..|s| - 1]);
    }
  }

  lemma {:induction false} NumberInjective(s: string, t: string)
    requires s != "" && AllDigits(s) && (s[0] == '0' ==> |s| == 1)
    requires t != "" && AllDigits(t) && (t[0] == '0' ==> |t| == 1)
    requires Number(s) == Number(t)
    ensures s == t
  {
    var s', t' := s[..|s| - 1], t[..|t| - 1];
    if |s| > 1 {
      NumberPositive(s');
    }
    if |t| > 1 {
      NumberPositive(t');
    }
    assert Number(s') == Number(t');
    if |s| > 1 {
      NumberInjective(s', t');
    }
    assert s == s' + [s[|s| - 1]] && t == t' + [t[|t| - 1]];
  }

  /** The decimal numeral of n. */
  function Decimal(n: nat): string {
    if n < 10 then ["0123456789"[n]] else Decimal(n / 10) + ["0123456789"[n % 10]]
  }

  lemma {:induction false} NumberDecimal(n: nat)
    ensures Decimal(n) != "" && AllDigits(Decimal(n)) && Number(Decimal(n)) == n
    ensures n > 0 ==> Decimal(n)[0] != '0'
    ensures n < 10 ==> |Decimal(n)| == 1
  {
    var d := "0123456789"[n % 10];
    assert d == '0' + (n % 10) as char;
    if n >= 10 {
      NumberDecimal(n / 10);
      assert Decimal(n)[..|Decimal(n)| - 1] == Decimal(n / 10);
    } else {
      assert Decimal(n) == [d] && Number([d][..0]) == 0;
    }
  }

  /** The array indices are the numerals of the numbers up to 2^32 - 2. */
  lemma ArrayIndexExact(s: string)
    ensures IsArrayIndex(s) <==> exists n: nat :: n < 4294967295 && s == Decimal(n)
    ensures IsArrayIndex(s) ==> s == Decimal(Number(s))
  {
    if IsArrayIndex(s) {
      NumberDecimal(Number(s));
      NumberInjective(s, Decimal(Number(s)));
    }
    forall n: nat | n < 4294967295 && s == Decimal(n) ensures IsArrayIndex(s) {
      NumberDecimal(n);
    }
  }

  /** What a listing in order says of two keys of which one is an array index. */
  lemma ArrayIndicesFirst(keys: seq<string>, a: string, b: string)
    requires InOrder(keys) && NoDuplicates(keys) && a in keys && b in keys && a != b
    ensures IsArrayIndex(a) && IsArrayIndex(b) ==> (ListedBefore(keys, a, b) <==> Number(a) < Number(b))
    ensures IsArrayIndex(a) && !IsArrayIndex(b) ==> ListedBefore(keys, a, b)
    ensures !IsArrayIndex(a) && IsArrayIndex(b) ==> !ListedBefore(keys, a, b)
  {
    ListedOneWay(keys, a, b);
    if IsArrayIndex(a) && IsArrayIndex(b) && Number(a) == Number(b) {
      NumberInjective(a, b);
    }
  }
}
