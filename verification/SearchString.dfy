/** The URL parameters of the GraphiQL page: parsing `location.search` into an
    object and printing the object back. */
module SearchString {
  import opened Wrappers
  import opened Joiner
  import opened UriComponent
  import opened PropertyKeys

  /** A JavaScript object with string values: its own keys in the order in which
      `Object.keys` lists them. */
  datatype Params = Params(keys: seq<string>, values: map<string, string>)

  const PROTO := "__proto__"
  const EMPTY := Params([], map[])

  ghost predicate Valid(p: Params) {
    && NoDuplicates(p.keys)
    && (forall k | k in p.keys :: k in p.values)
    && (forall k | k in p.values :: k in p.keys)
    && PROTO !in p.values
  }

  /** `parameters[key] = value`. Assigning a string to `__proto__` has no effect. */
  function Assign(p: Params, key: string, value: string): (q: Params)
    requires Valid(p)
    ensures Valid(q) && (InOrder(p.keys) ==> InOrder(q.keys))
    ensures q.values == if key == PROTO then p.values else p.values[key := value]
  {
    InsertKeeps(p.keys, key);
    if key == PROTO then p
    else if key in p.values then Params(p.keys, p.values[key := value])
    else Params(Insert(p.keys, key), p.values[key := value])
  }

  function IndexOf(s: string, c: char): (i: int)
    ensures -1 <= i < |s|
    ensures i >= 0 ==> s[i] == c && c !in s[..i]
    ensures i < 0 <==> c !in s
  {
    if s == "" then -1
    else if s[0] == c then 0
    else
      var i := IndexOf(s[1..], c);
      if i < 0 then -1 else i + 1
  }

  /** One entry of the search string; None for a URIError, which ends the script. */
  function ParseEntry(p: Params, entry: string): (r: Option<Params>)
    requires Valid(p)
    ensures r.Some? ==> Valid(r.value) && (InOrder(p.keys) ==> InOrder(r.value.keys))
  {
    var eq := IndexOf(entry, '=');
    if eq < 0 then Some(p)
    else
      var key := Decode(entry[..eq]);
      if key.None? then None
      else
        var value := Decode(entry[eq + 1..]);
        if value.None? then None else Some(Assign(p, key.value, value.value))
  }

  function ParseEntries(p: Params, entries: seq<string>): (r: Option<Params>)
    requires Valid(p)
    ensures r.Some? ==> Valid(r.value) && (InOrder(p.keys) ==> InOrder(r.value.keys))
    decreases |entries|
  {
    if entries == [] then Some(p)
    else
      var q := ParseEntry(p, entries[0]);
      if q.None? then None else ParseEntries(q.value, entries[1..])
  }

  function Tail(search: string): string {
    if search == "" then "" else search[1..]
  }

  function Parse(search: string): (r: Option<Params>)
    ensures r.Some? ==> Valid(r.value) && InOrder(r.value.keys)
  {
    ParseEntries(EMPTY, Split(Tail(search), '&'))
  }

  /** The keys with a truthy value, in order. */
  function Kept(keys: seq<string>, values: map<string, string>): (kept: seq<string>)
    requires forall k | k in keys :: k in values
    ensures forall k | k in kept :: k in keys && values[k] != ""
    ensures forall k | k in keys && values[k] != "" :: k in kept
  {
    if keys == [] then []
    else (if values[keys[0]] != "" then [keys[0]] else []) + Kept(keys[1..], values)
  }

  function Entry(key: string, value: string): string {
    Encode(key) + "=" + Encode(value)
  }

  function Entries(keys: seq<string>, values: map<string, string>): (entries: seq<string>)
    requires forall k | k in keys :: k in values
    ensures |entries| == |keys|
  {
    seq(|keys|, i requires 0 <= i < |keys| => Entry(keys[i], values[keys[i]]))
  }

  function Print(p: Params): string
    requires Valid(p)
  {
    "?" + Join(Entries(Kept(p.keys, p.values), p.values), "&")
  }

  lemma {:induction false} KeptNoDuplicates(keys: seq<string>, values: map<string, string>)
    requires NoDuplicates(keys) && forall k | k in keys :: k in values
    ensures NoDuplicates(Kept(keys, values))
  {
    if keys != [] {
      KeptNoDuplicates(keys[1..], values);
      assert keys[0] !in keys[1..];
    }
  }

  /** The parameters without the empty ones. */
  function NonEmpty(p: Params): (q: Params)
    requires Valid(p)
    ensures Valid(q)
    ensures forall k :: k in q.values <==> k in p.values && p.values[k] != ""
    ensures forall k | k in q.values :: q.values[k] == p.values[k]
  {
    KeptNoDuplicates(p.keys, p.values);
    Params(Kept(p.keys, p.values), map k | k in p.values && p.values[k] != "" :: p.values[k])
  }

  /** What `location.search` answers after `replaceState`: a bare "?" reads back as empty. */
  function ReadBack(url: string): string {
    if url == "?" then "" else url
  }

  lemma {:induction false} KeptInOrder(keys: seq<string>, values: map<string, string>)
    requires InOrder(keys) && forall k | k in keys :: k in values
    ensures InOrder(Kept(keys, values))
  {
    if keys != [] {
      KeptInOrder(keys[1..], values);
      var rest := Kept(keys[1..], values);
      forall i | 0 <= i < |rest| ensures Precedes(keys[0], rest[i]) {
        assert rest[i] in keys[1..];
      }
    }
  }

  lemma {:induction false} IndexOfFirst(before: string, after: string, c: char)
    requires c !in before
    ensures IndexOf(before + [c] + after, c) == |before|
  {
    if before != "" {
      assert (before + [c] + after)[1..] == before[1..] + [c] + after;
      IndexOfFirst(before[1..], after, c);
    }
  }

  lemma CutPrintedEntry(key: string, value: string)
    ensures var entry, eq := Entry(key, value), |Encode(key)|;
            IndexOf(entry, '=') == eq && entry[..eq] == Encode(key) && entry[eq + 1..] == Encode(value)
    ensures '&' !in Entry(key, value)
  {
    EncodedAlphabet(key);
    EncodedAlphabet(value);
    IndexOfFirst(Encode(key), Encode(value), '=');
  }

  lemma ParsePrintedEntry(p: Params, key: string, value: string)
    requires Valid(p)
    ensures ParseEntry(p, Entry(key, value)) == Some(Assign(p, key, value))
  {
    CutPrintedEntry(key, value);
    DecodeEncode(key);
    DecodeEncode(value);
  }

  function AssignAll(p: Params, keys: seq<string>, values: map<string, string>): (q: Params)
    requires Valid(p) && forall k | k in keys :: k in values
    ensures Valid(q)
    decreases |keys|
  {
    if keys == [] then p else AssignAll(Assign(p, keys[0], values[keys[0]]), keys[1..], values)
  }

  /** What a key maps to, if anything. */
  function Lookup(values: map<string, string>, key: string): Option<string> {
    if key in values then Some(values[key]) else None
  }

  // Parsing entries goes on from what the first one gives, or ends in its failure.
  lemma ParseEntriesStep(p: Params, entries: seq<string>, q: Option<Params>)
    requires Valid(p) && entries != [] && ParseEntry(p, entries[0]) == q
    ensures q.None? ==> ParseEntries(p, entries).None?
    ensures q.Some? ==> Valid(q.value) && ParseEntries(p, entries) == ParseEntries(q.value, entries[1..])
  {
  }

  lemma EntriesHead(keys: seq<string>, values: map<string, string>)
    requires keys != [] && forall k | k in keys :: k in values
    ensures Entries(keys, values)[0] == Entry(keys[0], values[keys[0]])
    ensures Entries(keys, values)[1..] == Entries(keys[1..], values)
  {
  }

  lemma ParsePrintedHead(p: Params, keys: seq<string>, values: map<string, string>)
    requires Valid(p) && keys != [] && forall k | k in keys :: k in values
    ensures ParseEntries(p, Entries(keys, values)) ==
            ParseEntries(Assign(p, keys[0], values[keys[0]]), Entries(keys[1..], values))
  {
    var entries := Entries(keys, values);
    EntriesHead(keys, values);
    ParsePrintedEntry(p, keys[0], values[keys[0]]);
    ParseEntriesStep(p, entries, Some(Assign(p, keys[0], values[keys[0]])));
  }

  // Parsing printed entries assigns them one after the other ...
  lemma {:induction false} ParsePrintedEntries(p: Params, keys: seq<string>, values: map<string, string>)
    requires Valid(p) && forall k | k in keys :: k in values
    ensures ParseEntries(p, Entries(keys, values)) == Some(AssignAll(p, keys, values))
    decreases |keys|
  {
    if keys == [] {
      assert Entries(keys, values) == [];
    } else {
      ParsePrintedHead(p, keys, values);
      ParsePrintedEntries(Assign(p, keys[0], values[keys[0]]), keys[1..], values);
    }
  }

  ghost predicate New(p: Params, keys: seq<string>) {
    && NoDuplicates(keys) && InOrder(p.keys + keys)
    && forall i | 0 <= i < |keys| :: keys[i] !in p.values && keys[i] != PROTO
  }

  lemma NewTail(p: Params, keys: seq<string>, value: string)
    requires Valid(p) && New(p, keys) && keys != []
    ensures New(Assign(p, keys[0], value), keys[1..])
    ensures Assign(p, keys[0], value).keys + keys[1..] == p.keys + keys
  {
    var q, rest := Assign(p, keys[0], value), keys[1..];
    forall i | 0 <= i < |p.keys| ensures Precedes(p.keys[i], keys[0]) {
      assert Precedes((p.keys + keys)[i], (p.keys + keys)[|p.keys|]);
    }
    InsertLast(p.keys, keys[0]);
    assert keys == [keys[0]] + rest;
    assert p.keys + [keys[0]] + rest == p.keys + keys;
    forall i | 0 <= i < |rest| ensures rest[i] !in q.values && rest[i] != PROTO {
      assert rest[i] == keys[i + 1];
    }
    forall i, j | 0 <= i < j < |rest| ensures rest[i] != rest[j] {
      assert rest[i] == keys[i + 1] && rest[j] == keys[j + 1];
    }
  }

  // ... which for new and distinct keys in order appends them one by one ...
  lemma {:induction false} AssignAllKeys(p: Params, keys: seq<string>, values: map<string, string>)
    requires Valid(p) && New(p, keys) && forall k | k in keys :: k in values
    ensures AssignAll(p, keys, values).keys == p.keys + keys
    decreases |keys|
  {
    if keys == [] {
      assert p.keys + keys == p.keys;
    } else {
      NewTail(p, keys, values[keys[0]]);
      AssignAllKeys(Assign(p, keys[0], values[keys[0]]), keys[1..], values);
    }
  }

  // ... and gives each of them its value.
  lemma {:induction false} AssignAllValue(p: Params, keys: seq<string>, values: map<string, string>, k: string)
    requires Valid(p) && forall key | key in keys :: key in values && key != PROTO
    ensures Lookup(AssignAll(p, keys, values).values, k) ==
            if k in keys then Some(values[k]) else Lookup(p.values, k)
    decreases |keys|
  {
    if keys != [] {
      assert k in keys <==> k == keys[0] || k in keys[1..];
      AssignAllValue(Assign(p, keys[0], values[keys[0]]), keys[1..], values, k);
    }
  }

  lemma SameLookups(v: map<string, string>, w: map<string, string>)
    requires forall k :: Lookup(v, k) == Lookup(w, k)
    ensures v == w
  {
    forall k ensures k in v <==> k in w {
      assert Lookup(v, k) == Lookup(w, k);
    }
    forall k | k in v ensures v[k] == w[k] {
      assert Lookup(v, k) == Lookup(w, k);
    }
  }

  lemma AssignKept(p: Params)
    requires Valid(p)
    ensures AssignAll(EMPTY, Kept(p.keys, p.values), p.values).values == NonEmpty(p).values
    ensures InOrder(p.keys) ==> AssignAll(EMPTY, Kept(p.keys, p.values), p.values) == NonEmpty(p)
  {
    var kept := Kept(p.keys, p.values);
    forall k ensures Lookup(AssignAll(EMPTY, kept, p.values).values, k) == Lookup(NonEmpty(p).values, k) {
      AssignAllValue(EMPTY, kept, p.values, k);
      assert k in kept <==> k in p.values && p.values[k] != "";
    }
    SameLookups(AssignAll(EMPTY, kept, p.values).values, NonEmpty(p).values);
    if InOrder(p.keys) {
      KeptNoDuplicates(p.keys, p.values);
      KeptInOrder(p.keys, p.values);
      assert EMPTY.keys + kept == kept;
      AssignAllKeys(EMPTY, kept, p.values);
    }
  }

  lemma SplitPrinted(p: Params)
    requires Valid(p) && Kept(p.keys, p.values) != []
    ensures Split(Tail(Print(p)), '&') == Entries(Kept(p.keys, p.values), p.values)
    ensures Print(p) != "?"
  {
    var kept := Kept(p.keys, p.values);
    var entries := Entries(kept, p.values);
    forall i | 0 <= i < |entries| ensures '&' !in entries[i] {
      CutPrintedEntry(kept[i], p.values[kept[i]]);
    }
    assert Tail(Print(p)) == Join(entries, "&");
    SplitJoin(entries, '&');
    assert '=' in entries[0];
    assert |Join(entries, "&")| >= |entries[0]|;
  }

  lemma ParseNothing()
    ensures Parse("") == Some(EMPTY) && Parse("?") == Some(EMPTY)
  {
    assert Split("", '&') == [""];
    assert ParseEntry(EMPTY, "") == Some(EMPTY);
    ParseEntriesStep(EMPTY, [""], Some(EMPTY));
    assert [""][1..] == [];
    assert Tail("?") == "";
  }

  lemma ParseKept(p: Params)
    requires Valid(p) && Kept(p.keys, p.values) != []
    ensures Parse(Print(p)) == Some(AssignAll(EMPTY, Kept(p.keys, p.values), p.values))
    ensures ReadBack(Print(p)) == Print(p)
  {
    SplitPrinted(p);
    ParsePrintedEntries(EMPTY, Kept(p.keys, p.values), p.values);
  }

  lemma ParsePrinted(p: Params)
    requires Valid(p)
    ensures Parse(Print(p)) == Some(AssignAll(EMPTY, Kept(p.keys, p.values), p.values))
    ensures Parse(ReadBack(Print(p))) == Parse(Print(p))
  {
    if Kept(p.keys, p.values) == [] {
      ParseNothing();
      assert Print(p) == "?";
    } else {
      ParseKept(p);
    }
  }

  /** The round trip: parsing the string printed for any parameters gives back
      exactly those with a non-empty value, whatever order `Object.keys` lists them
      in; and in the same order, if that is the order of section 10.1.11 of
      ECMA-262. */
  lemma ParsePrint(p: Params)
    requires Valid(p)
    ensures Parse(Print(p)).Some? && Parse(Print(p)).value.values == NonEmpty(p).values
    ensures InOrder(p.keys) ==> Parse(Print(p)) == Some(NonEmpty(p))
    ensures Parse(ReadBack(Print(p))) == Parse(Print(p))
  {
    ParsePrinted(p);
    AssignKept(p);
  }

  lemma {:induction false} KeptIdempotent(keys: seq<string>, values: map<string, string>)
    requires forall k | k in keys :: k in values && values[k] != ""
    ensures Kept(keys, values) == keys
  {
    if keys != [] {
      KeptIdempotent(keys[1..], values);
      assert [keys[0]] + keys[1..] == keys;
    }
  }

  /** Printing only ever depends on the non-empty parameters, so re-printing what
      a printed URL parses to gives the same URL, character for character. */
  lemma PrintNonEmpty(p: Params)
    requires Valid(p)
    ensures Print(NonEmpty(p)) == Print(p)
  {
    var q := NonEmpty(p);
    KeptIdempotent(q.keys, q.values);
    assert Entries(q.keys, q.values) == Entries(q.keys, p.values);
  }

  lemma PrintedEntryInjective(k: string, v: string, l: string, w: string)
    requires Entry(k, v) == Entry(l, w)
    ensures k == l && v == w
  {
    CutPrintedEntry(k, v);
    CutPrintedEntry(l, w);
    DecodeEncode(k);
    DecodeEncode(l);
    DecodeEncode(v);
    DecodeEncode(w);
  }

  lemma SamePrintedEntries(p: Params, q: Params)
    requires Valid(p) && Valid(q) && Print(p) == Print(q)
    ensures Entries(Kept(p.keys, p.values), p.values) == Entries(Kept(q.keys, q.values), q.values)
  {
    var ep := Entries(Kept(p.keys, p.values), p.values);
    var eq := Entries(Kept(q.keys, q.values), q.values);
    assert Tail(Print(p)) == Join(ep, "&") && Tail(Print(q)) == Join(eq, "&");
    if ep == [] || eq == [] {
      if ep != [] {
        SplitPrinted(p);
      }
      if eq != [] {
        SplitPrinted(q);
      }
    } else {
      forall i | 0 <= i < |ep| ensures '&' !in ep[i] {
        CutPrintedEntry(Kept(p.keys, p.values)[i], p.values[Kept(p.keys, p.values)[i]]);
      }
      forall i | 0 <= i < |eq| ensures '&' !in eq[i] {
        CutPrintedEntry(Kept(q.keys, q.values)[i], q.values[Kept(q.keys, q.values)[i]]);
      }
      JoinInjective(ep, eq, '&');
    }
  }

  /** Two parameter objects share a URL if and only if their non-empty parts agree,
      the order of the keys included, whatever it is. */
  lemma PrintInjective(p: Params, q: Params)
    requires Valid(p) && Valid(q)
    ensures Print(p) == Print(q) <==> NonEmpty(p) == NonEmpty(q)
  {
    PrintNonEmpty(p);
    PrintNonEmpty(q);
    if Print(p) == Print(q) {
      var kp, kq := Kept(p.keys, p.values), Kept(q.keys, q.values);
      SamePrintedEntries(p, q);
      assert |kp| == |Entries(kp, p.values)| == |Entries(kq, q.values)| == |kq|;
      forall i | 0 <= i < |kp| ensures kp[i] == kq[i] {
        assert Entries(kp, p.values)[i] == Entries(kq, q.values)[i];
        PrintedEntryInjective(kp[i], p.values[kp[i]], kq[i], q.values[kq[i]]);
      }
      ParsePrint(p);
      ParsePrint(q);
    }
  }

  // ---- The URL's text ----

  /** The keys with a non-empty value, each once, in the order in which p lists them. */
  ghost predicate ShownKeys(p: Params, shown: seq<string>) {
    && NoDuplicates(shown)
    && (forall k :: k in shown <==> k in p.values && p.values[k] != "")
    && (forall a, b | a in shown && b in shown :: ListedBefore(shown, a, b) <==> ListedBefore(p.keys, a, b))
  }

  /** Cut at its first '=', the piece is the encoded key and the encoded value. */
  predicate IsPiece(piece: string, key: string, value: string) {
    var eq := IndexOf(piece, '=');
    eq >= 0 && piece[..eq] == Encode(key) && piece[eq + 1..] == Encode(value)
  }

  /** A question mark, and then one piece a key, between ampersands. */
  ghost predicate IsUrlFor(url: string, shown: seq<string>, values: map<string, string>)
    requires forall k | k in shown :: k in values
  {
    if shown == [] then url == "?"
    else
      && url != "" && url[0] == '?'
      && var pieces := Split(url[1..], '&');
         && |pieces| == |shown|
         && forall i | 0 <= i < |shown| :: IsPiece(pieces[i], shown[i], values[shown[i]])
  }

  lemma KeptOrderOfHead(keys: seq<string>, values: map<string, string>, other: string)
    requires NoDuplicates(keys) && keys != [] && forall k | k in keys :: k in values
    requires values[keys[0]] != "" && other in keys && values[other] != "" && other != keys[0]
    ensures ListedBefore(Kept(keys, values), keys[0], other) && ListedBefore(keys, keys[0], other)
    ensures !ListedBefore(Kept(keys, values), other, keys[0]) && !ListedBefore(keys, other, keys[0])
  {
    KeptNoDuplicates(keys, values);
    HeadFirst(keys, other);
    HeadFirst(Kept(keys, values), other);
  }

  lemma KeptTail(keys: seq<string>, values: map<string, string>, a: string, b: string)
    requires keys != [] && (forall k | k in keys :: k in values) && a != keys[0]
    ensures ListedBefore(keys, a, b) <==> ListedBefore(keys[1..], a, b)
    ensures ListedBefore(Kept(keys, values), a, b) <==> ListedBefore(Kept(keys[1..], values), a, b)
  {
    ListedBeforeCons(keys, a, b);
    if values[keys[0]] != "" {
      ListedBeforeCons(Kept(keys, values), a, b);
      assert Kept(keys, values)[1..] == Kept(keys[1..], values);
    } else {
      assert Kept(keys, values) == Kept(keys[1..], values);
    }
  }

  lemma {:induction false} KeptOrder(keys: seq<string>, values: map<string, string>, a: string, b: string)
    requires NoDuplicates(keys) && forall k | k in keys :: k in values
    requires a in keys && values[a] != "" && b in keys && values[b] != "" && a != b
    ensures ListedBefore(Kept(keys, values), a, b) <==> ListedBefore(keys, a, b)
  {
    if a == keys[0] {
      KeptOrderOfHead(keys, values, b);
    } else if b == keys[0] {
      KeptOrderOfHead(keys, values, a);
    } else {
      KeptTail(keys, values, a, b);
      KeptOrder(keys[1..], values, a, b);
    }
  }

  lemma KeptIsShown(p: Params)
    requires Valid(p)
    ensures ShownKeys(p, Kept(p.keys, p.values))
    ensures forall shown :: ShownKeys(p, shown) ==> shown == Kept(p.keys, p.values)
  {
    var kept := Kept(p.keys, p.values);
    KeptNoDuplicates(p.keys, p.values);
    forall a, b | a in kept && b in kept ensures ListedBefore(kept, a, b) <==> ListedBefore(p.keys, a, b) {
      if a != b {
        KeptOrder(p.keys, p.values, a, b);
      }
    }
    forall shown | ShownKeys(p, shown) ensures shown == kept {
      SameListing(shown, kept);
    }
  }

  lemma PrintedUrl(p: Params)
    requires Valid(p)
    ensures var kept := Kept(p.keys, p.values); IsUrlFor(Print(p), kept, p.values)
  {
    var kept := Kept(p.keys, p.values);
    if kept == [] {
      assert Print(p) == "?";
    } else {
      SplitPrinted(p);
      forall i | 0 <= i < |kept| ensures IsPiece(Entries(kept, p.values)[i], kept[i], p.values[kept[i]]) {
        CutPrintedEntry(kept[i], p.values[kept[i]]);
      }
    }
  }

  lemma CutAt(s: string, i: nat)
    requires i < |s|
    ensures s == s[..i] + [s[i]] + s[i + 1..]
  {
  }

  lemma OnePiece(piece: string, key: string, value: string)
    requires IsPiece(piece, key, value)
    ensures piece == Entry(key, value)
  {
    CutAt(piece, IndexOf(piece, '='));
  }

  lemma PiecesAreEntries(pieces: seq<string>, keys: seq<string>, values: map<string, string>)
    requires |pieces| == |keys| && forall k | k in keys :: k in values
    requires forall i | 0 <= i < |keys| :: IsPiece(pieces[i], keys[i], values[keys[i]])
    ensures pieces == Entries(keys, values)
  {
    forall i | 0 <= i < |keys| ensures pieces[i] == Entries(keys, values)[i] {
      OnePiece(pieces[i], keys[i], values[keys[i]]);
    }
  }

  lemma OnlyPrintedUrl(p: Params, url: string)
    requires Valid(p) && IsUrlFor(url, Kept(p.keys, p.values), p.values)
    ensures url == Print(p)
  {
    var kept := Kept(p.keys, p.values);
    if kept == [] {
      assert Print(p) == "?";
    } else {
      PiecesAreEntries(Split(url[1..], '&'), kept, p.values);
      JoinSplit(url[1..], '&');
      assert url == "?" + url[1..];
    }
  }

  /** The text of the URL, exactly: a question mark, and then for each key with a
      non-empty value, in order, its encoding, an equals sign and the encoding of the
      value, with ampersands between. */
  lemma PrintExact(p: Params, url: string)
    requires Valid(p)
    ensures url == Print(p) <==> exists shown :: ShownKeys(p, shown) && IsUrlFor(url, shown, p.values)
    ensures Print(p)[0] == '?'
  {
    KeptIsShown(p);
    PrintedUrl(p);
    if shown :| ShownKeys(p, shown) && IsUrlFor(url, shown, p.values) {
      OnlyPrintedUrl(p, url);
    }
  }

  /** The page's address shows no search string at all if and only if every
      parameter is empty. */
  lemma NothingShownExact(p: Params)
    requires Valid(p)
    ensures ReadBack(Print(p)) == "" <==> forall k | k in p.values :: p.values[k] == ""
  {
    KeptIsShown(p);
    PrintedUrl(p);
    var kept := Kept(p.keys, p.values);
    if kept == [] {
      forall k | k in p.values ensures p.values[k] == "" {
        assert k !in kept;
      }
    } else {
      SplitPrinted(p);
      assert kept[0] in kept;
    }
  }

  // ---- What any search string parses to ----

  /** The entry has a first '=', what stands before it spells the key, and what
      stands after it spells the value. */
  ghost predicate EntrySpells(entry: string, key: string, value: string) {
    var eq := IndexOf(entry, '=');
    eq >= 0 && IsSpelling(entry[..eq], key) && IsSpelling(entry[eq + 1..], value)
  }

  /** Both halves of the entry, if it has two, spell something. */
  ghost predicate WellFormedEntry(entry: string) {
    '=' in entry ==> exists key, value :: EntrySpells(entry, key, value)
  }

  ghost predicate NoneSpells(entries: seq<string>, key: string) {
    forall i, value | 0 <= i < |entries| :: !EntrySpells(entries[i], key, value)
  }

  /** The last entry that spells the key spells this value for it. */
  ghost predicate LastSpells(entries: seq<string>, key: string, value: string) {
    exists i | 0 <= i < |entries| ::
      EntrySpells(entries[i], key, value) && NoneSpells(entries[i + 1..], key)
  }

  lemma EntrySpellsExact(entry: string, key: string, value: string)
    requires '=' in entry
    ensures var eq := IndexOf(entry, '=');
            EntrySpells(entry, key, value) <==>
            Decode(entry[..eq]) == Some(key) && Decode(entry[eq + 1..]) == Some(value)
  {
    var eq := IndexOf(entry, '=');
    DecodeExact(entry[..eq], key);
    DecodeExact(entry[eq + 1..], value);
  }

  lemma ParseEntrySpelled(p: Params, entry: string, key: string, value: string)
    requires Valid(p) && EntrySpells(entry, key, value)
    ensures ParseEntry(p, entry) == Some(Assign(p, key, value))
  {
    EntrySpellsExact(entry, key, value);
  }

  lemma ParseEntryExact(p: Params, entry: string)
    requires Valid(p)
    ensures ParseEntry(p, entry).Some? <==> WellFormedEntry(entry)
    ensures '=' !in entry ==> ParseEntry(p, entry) == Some(p)
  {
    if '=' in entry {
      var eq := IndexOf(entry, '=');
      if ParseEntry(p, entry).Some? {
        var key, value := Decode(entry[..eq]).value, Decode(entry[eq + 1..]).value;
        EntrySpellsExact(entry, key, value);
      }
      if key, value :| EntrySpells(entry, key, value) {
        ParseEntrySpelled(p, entry, key, value);
      }
    }
  }

  lemma OneSpelling(entry: string, k: string, v: string, key: string)
    requires EntrySpells(entry, k, v)
    ensures forall value :: EntrySpells(entry, key, value) <==> k == key && v == value
  {
    EntrySpellsExact(entry, k, v);
    forall value ensures EntrySpells(entry, key, value) <==> k == key && v == value {
      EntrySpellsExact(entry, key, value);
    }
  }

  // What one entry does to one key.
  lemma EntryEffect(p: Params, entry: string, key: string, value: string)
    requires Valid(p) && ParseEntry(p, entry).Some? && key != PROTO
    ensures Lookup(ParseEntry(p, entry).value.values, key) == Some(value) <==>
            EntrySpells(entry, key, value) ||
            (NoneSpells([entry], key) && Lookup(p.values, key) == Some(value))
  {
    ParseEntryExact(p, entry);
    if '=' in entry {
      var k, v :| EntrySpells(entry, k, v);
      ParseEntrySpelled(p, entry, k, v);
      OneSpelling(entry, k, v, key);
      assert NoneSpells([entry], key) <==> k != key by {
        assert [entry][0] == entry;
      }
    }
  }

  lemma LastSpellsCons(entries: seq<string>, key: string, value: string)
    requires entries != []
    ensures LastSpells(entries, key, value) <==>
            LastSpells(entries[1..], key, value) ||
            (EntrySpells(entries[0], key, value) && NoneSpells(entries[1..], key))
  {
    var rest := entries[1..];
    if i :| 0 <= i < |entries| && EntrySpells(entries[i], key, value) && NoneSpells(entries[i + 1..], key) {
      if i > 0 {
        assert rest[i - 1] == entries[i] && rest[i..] == entries[i + 1..];
      }
    }
    if i :| 0 <= i < |rest| && EntrySpells(rest[i], key, value) && NoneSpells(rest[i + 1..], key) {
      assert entries[i + 1] == rest[i] && entries[i + 2..] == rest[i + 1..];
    }
  }

  lemma NoneSpellsCons(entries: seq<string>, key: string)
    requires entries != []
    ensures NoneSpells(entries, key) <==> NoneSpells([entries[0]], key) && NoneSpells(entries[1..], key)
  {
    assert [entries[0]][0] == entries[0];
    assert forall i | 0 <= i < |entries| - 1 :: entries[1..][i] == entries[i + 1];
    if NoneSpells([entries[0]], key) && NoneSpells(entries[1..], key) {
      forall i, value | 0 <= i < |entries| ensures !EntrySpells(entries[i], key, value) {
        assert i > 0 ==> entries[i] == entries[1..][i - 1];
      }
    }
    if NoneSpells(entries, key) {
      forall i, value | 0 <= i < |entries[1..]| ensures !EntrySpells(entries[1..][i], key, value) {
        assert entries[1..][i] == entries[i + 1];
      }
    }
  }

  ghost predicate WellFormed(entries: seq<string>) {
    forall i | 0 <= i < |entries| :: WellFormedEntry(entries[i])
  }

  lemma {:induction false} ParseEntriesSucceed(p: Params, entries: seq<string>)
    requires Valid(p)
    ensures ParseEntries(p, entries).Some? <==> WellFormed(entries)
    decreases |entries|
  {
    if entries != [] {
      ParseEntryExact(p, entries[0]);
      assert WellFormed(entries) <==> WellFormedEntry(entries[0]) && WellFormed(entries[1..]) by {
        assert entries == [entries[0]] + entries[1..];
      }
      if ParseEntry(p, entries[0]).Some? {
        ParseEntriesSucceed(ParseEntry(p, entries[0]).value, entries[1..]);
      }
    }
  }

  lemma {:induction false} ParseEntriesLookup(p: Params, entries: seq<string>, key: string, value: string)
    requires Valid(p) && ParseEntries(p, entries).Some? && key != PROTO
    ensures Lookup(ParseEntries(p, entries).value.values, key) == Some(value) <==>
            LastSpells(entries, key, value) ||
            (NoneSpells(entries, key) && Lookup(p.values, key) == Some(value))
    decreases |entries|
  {
    if entries != [] {
      EntryEffect(p, entries[0], key, value);
      ParseEntriesLookup(ParseEntry(p, entries[0]).value, entries[1..], key, value);
      LastSpellsCons(entries, key, value);
      NoneSpellsCons(entries, key);
    }
  }

  /** What any search string parses to, printed here or not. It parses if and only
      if both halves of every entry with an '=' are spellings, entries without one
      being skipped; and a key other than `__proto__` then gets a value if and only
      if the last entry that spells the key spells that value for it. */
  lemma ParseExact(search: string)
    ensures var entries := Split(Tail(search), '&');
            && (Parse(search).Some? <==> WellFormed(entries))
            && (Parse(search).Some? ==>
                  && "__proto__" !in Parse(search).value.values
                  && forall key, value | key != "__proto__" ::
                       Lookup(Parse(search).value.values, key) == Some(value) <==> LastSpells(entries, key, value))
  {
    var entries := Split(Tail(search), '&');
    ParseEntriesSucceed(EMPTY, entries);
    if Parse(search).Some? {
      forall key, value | key != PROTO
        ensures Lookup(Parse(search).value.values, key) == Some(value) <==> LastSpells(entries, key, value)
      {
        ParseEntriesLookup(EMPTY, entries, key, value);
      }
    }
  }

  /** The entries of a search string: the one list of pieces without '&' whose join
      is what follows the first character, whatever that is; an empty search string
      has one empty entry. */
  lemma EntriesExact(search: string, entries: seq<string>)
    ensures entries == Split(Tail(search), '&') <==>
            && entries != [] && (forall i | 0 <= i < |entries| :: '&' !in entries[i])
            && Join(entries, "&") == if search == "" then "" else search[1..]
  {
    JoinSplit(Tail(search), '&');
    if entries != [] && (forall i | 0 <= i < |entries| :: '&' !in entries[i]) {
      SplitJoin(entries, '&');
    }
  }

  // ---- The order in which the parsed keys are listed ----

  ghost predicate Spells(entry: string, key: string) {
    exists value :: EntrySpells(entry, key, value)
  }

  /** The first entry that spells a stands before any that spells b. */
  ghost predicate SpelledBefore(entries: seq<string>, a: string, b: string) {
    exists i | 0 <= i < |entries| :: Spells(entries[i], a) && NoneSpells(entries[..i + 1], b)
  }

  /** Whether a comes before b once the entries have been assigned to p. */
  ghost predicate ComesBefore(p: Params, entries: seq<string>, a: string, b: string) {
    if a in p.values && b in p.values then ListedBefore(p.keys, a, b)
    else if a in p.values then true
    else if b in p.values then false
    else SpelledBefore(entries, a, b)
  }

  lemma SpelledBeforeCons(entries: seq<string>, a: string, b: string)
    requires entries != []
    ensures SpelledBefore(entries, a, b) <==>
            !Spells(entries[0], b) && (Spells(entries[0], a) || SpelledBefore(entries[1..], a, b))
  {
    var rest := entries[1..];
    if i :| 0 <= i < |entries| && Spells(entries[i], a) && NoneSpells(entries[..i + 1], b) {
      NoneSpellsCons(entries[..i + 1], b);
      if i > 0 {
        assert rest[i - 1] == entries[i] && rest[..i] == entries[..i + 1][1..];
      }
      assert [entries[0]][0] == entries[0];
    }
    if !Spells(entries[0], b) {
      assert NoneSpells([entries[0]], b);
      if Spells(entries[0], a) {
        assert entries[..1] == [entries[0]];
      }
      if i :| 0 <= i < |rest| && Spells(rest[i], a) && NoneSpells(rest[..i + 1], b) {
        assert entries[i + 1] == rest[i] && entries[..i + 2][1..] == rest[..i + 1];
        NoneSpellsCons(entries[..i + 2], b);
      }
    }
  }

  // Assigning to a key that is neither a nor b, or is there already, moves neither,
  lemma AssignOther(p: Params, key: string, value: string, a: string, b: string)
    requires Valid(p)
    requires key == PROTO || key in p.values || (key != a && key != b)
    ensures var q := Assign(p, key, value);
            ListedBefore(q.keys, a, b) <==> ListedBefore(p.keys, a, b)
  {
    if key != PROTO && key !in p.values {
      InsertMovesNobody(p.keys, key, a, b);
    }
  }

  // and creating one of the two puts it last.
  lemma AssignNew(p: Params, key: string, value: string, other: string)
    requires Valid(p) && key != PROTO && key !in p.values && !IsArrayIndex(key)
    requires other in p.values
    ensures var q := Assign(p, key, value);
            ListedBefore(q.keys, other, key) && !ListedBefore(q.keys, key, other)
  {
    InsertedLast(p.keys, key, other);
  }

  lemma AssignedOrder(p: Params, entries: seq<string>, key: string, value: string, a: string, b: string)
    requires Valid(p) && entries != []
    requires a != b && a != PROTO && b != PROTO && !IsArrayIndex(a) && !IsArrayIndex(b)
    requires SpelledBefore(entries, a, b) <==> key != b && (key == a || SpelledBefore(entries[1..], a, b))
    ensures ComesBefore(p, entries, a, b) <==> ComesBefore(Assign(p, key, value), entries[1..], a, b)
  {
    if key == PROTO || key in p.values || (key != a && key != b) {
      AssignOther(p, key, value, a, b);
    } else if key == a {
      if b in p.values {
        AssignNew(p, key, value, b);
      }
    } else if a in p.values {
      AssignNew(p, key, value, a);
    }
  }

  lemma EntryOrder(p: Params, entries: seq<string>, a: string, b: string)
    requires Valid(p) && entries != [] && ParseEntry(p, entries[0]).Some?
    requires a != b && a != PROTO && b != PROTO && !IsArrayIndex(a) && !IsArrayIndex(b)
    ensures ComesBefore(p, entries, a, b) <==>
            ComesBefore(ParseEntry(p, entries[0]).value, entries[1..], a, b)
  {
    ParseEntryExact(p, entries[0]);
    SpelledBeforeCons(entries, a, b);
    if '=' in entries[0] {
      var key, value :| EntrySpells(entries[0], key, value);
      ParseEntrySpelled(p, entries[0], key, value);
      OneSpelling(entries[0], key, value, a);
      OneSpelling(entries[0], key, value, b);
      assert Spells(entries[0], a) <==> key == a;
      assert Spells(entries[0], b) <==> key == b;
      AssignedOrder(p, entries, key, value, a, b);
    }
  }

  lemma {:induction false} ParseEntriesOrder(p: Params, entries: seq<string>, a: string, b: string)
    requires Valid(p) && ParseEntries(p, entries).Some?
    requires a != b && !IsArrayIndex(a) && !IsArrayIndex(b)
    requires var q := ParseEntries(p, entries).value; a in q.values && b in q.values
    ensures ListedBefore(ParseEntries(p, entries).value.keys, a, b) <==> ComesBefore(p, entries, a, b)
    decreases |entries|
  {
    if entries != [] {
      EntryOrder(p, entries, a, b);
      ParseEntriesOrder(ParseEntry(p, entries[0]).value, entries[1..], a, b);
    }
  }

  /** The order of the keys a search string parses to, of any two of them: array
      indices come first, by their number, and the others follow in the order of
      the first entry that spells each. */
  lemma ParseOrderExact(search: string, a: string, b: string)
    requires Parse(search).Some? && a != b
    requires a in Parse(search).value.values && b in Parse(search).value.values
    ensures ListedBefore(Parse(search).value.keys, a, b) <==>
            if IsArrayIndex(a) && IsArrayIndex(b) then Number(a) < Number(b)
            else if IsArrayIndex(a) || IsArrayIndex(b) then IsArrayIndex(a)
            else SpelledBefore(Split(Tail(search), '&'), a, b)
  {
    if IsArrayIndex(a) || IsArrayIndex(b) {
      ArrayIndicesFirst(Parse(search).value.keys, a, b);
    } else {
      ParseEntriesOrder(EMPTY, Split(Tail(search), '&'), a, b);
    }
  }

  // ---- The page over a session ----

  datatype Edit = EditQuery(text: string) | EditVariables(text: string) | EditOperationName(text: string)

  function EditedKey(e: Edit): string {
    match e
    case EditQuery(_) => "query"
    case EditVariables(_) => "variables"
    case EditOperationName(_) => "operationName"
  }

  datatype Page = Page(parameters: Params, url: string)

  /** Opening the page: parse the search string; a non-empty `variables` is
      replaced by its reformatted text, whatever the reformatter does. */
  function Open(search: string, reformat: string -> string): (page: Option<Page>)
    ensures page.Some? ==> Valid(page.value.parameters) && InOrder(page.value.parameters.keys)
  {
    var p := Parse(search);
    if p.None? then None
    else if "variables" in p.value.values && p.value.values["variables"] != "" then
      Some(Page(Assign(p.value, "variables", reformat(p.value.values["variables"])), search))
    else Some(Page(p.value, search))
  }

  /** An edit handler: assign, then `updateURL`. */
  function Apply(page: Page, e: Edit): (after: Page)
    requires Valid(page.parameters)
    ensures Valid(after.parameters)
    ensures InOrder(page.parameters.keys) ==> InOrder(after.parameters.keys)
  {
    var q := Assign(page.parameters, EditedKey(e), e.text);
    Page(q, Print(q))
  }

  function ApplyAll(page: Page, edits: seq<Edit>): (after: Page)
    requires Valid(page.parameters)
    ensures Valid(after.parameters)
    ensures InOrder(page.parameters.keys) ==> InOrder(after.parameters.keys)
  {
    if edits == [] then page
    else Apply(ApplyAll(page, edits[..|edits| - 1]), edits[|edits| - 1])
  }

  /** The last text given to a key by a sequence of edits. */
  function LastText(edits: seq<Edit>, key: string): Option<string> {
    if edits == [] then None
    else if EditedKey(edits[|edits| - 1]) == key then Some(edits[|edits| - 1].text)
    else LastText(edits[..|edits| - 1], key)
  }

  lemma EditTakesEffect(page: Page, e: Edit, key: string)
    requires Valid(page.parameters)
    ensures Lookup(Apply(page, e).parameters.values, key) ==
            if key == EditedKey(e) then Some(e.text) else Lookup(page.parameters.values, key)
  {
    assert EditedKey(e)[0] != PROTO[0];
  }

  lemma EditedKeys(text: string)
    ensures EditedKey(EditQuery(text)) == "query" != PROTO
    ensures EditedKey(EditVariables(text)) == "variables" != PROTO
    ensures EditedKey(EditOperationName(text)) == "operationName" != PROTO
    ensures "query" != "variables" && "query" != "operationName" && "variables" != "operationName"
  {
    assert "query"[0] == 'q' && "variables"[0] == 'v' && "operationName"[0] == 'o' && PROTO[0] == '_';
  }

  /** After any number of edits every parameter has the text last given to it, or
      the one it was opened with. */
  lemma {:induction false} EditsTakeEffect(page: Page, edits: seq<Edit>, key: string)
    requires Valid(page.parameters)
    ensures Lookup(ApplyAll(page, edits).parameters.values, key) ==
            if LastText(edits, key).Some? then LastText(edits, key)
            else Lookup(page.parameters.values, key)
  {
    if edits != [] {
      EditsTakeEffect(page, edits[..|edits| - 1], key);
      EditTakesEffect(ApplyAll(page, edits[..|edits| - 1]), edits[|edits| - 1], key);
    }
  }

  lemma {:induction false} LastTextOfKey(edits: seq<Edit>, k: nat)
    requires k < |edits|
    requires forall j | k < j < |edits| :: EditedKey(edits[j]) != EditedKey(edits[k])
    ensures LastText(edits, EditedKey(edits[k])) == Some(edits[k].text)
    decreases |edits|
  {
    if k < |edits| - 1 {
      LastTextOfKey(edits[..|edits| - 1], k);
    }
  }

  /** The last edit of a kind decides the parameter of that name. */
  lemma LastEditWins(page: Page, edits: seq<Edit>, k: nat, text: string)
    requires Valid(page.parameters) && k < |edits|
    ensures edits[k] == EditQuery(text) && (forall j | k < j < |edits| :: !edits[j].EditQuery?) ==>
              Lookup(ApplyAll(page, edits).parameters.values, "query") == Some(text)
    ensures edits[k] == EditVariables(text) && (forall j | k < j < |edits| :: !edits[j].EditVariables?) ==>
              Lookup(ApplyAll(page, edits).parameters.values, "variables") == Some(text)
    ensures edits[k] == EditOperationName(text) && (forall j | k < j < |edits| :: !edits[j].EditOperationName?) ==>
              Lookup(ApplyAll(page, edits).parameters.values, "operationName") == Some(text)
  {
    EditedKeys(text);
    if forall j | k < j < |edits| :: EditedKey(edits[j]) != EditedKey(edits[k]) {
      LastTextOfKey(edits, k);
      EditsTakeEffect(page, edits, EditedKey(edits[k]));
    }
  }

  /** For every search string that parses, every reformatter and every non-empty
      sequence of edits: the URL then shown parses to the current parameters
      minus the empty ones, opening it and printing again changes nothing. */
  lemma UrlFollowsEdits(search: string, reformat: string -> string, edits: seq<Edit>)
    requires Open(search, reformat).Some? && edits != []
    ensures var page := ApplyAll(Open(search, reformat).value, edits);
            && Parse(ReadBack(page.url)) == Some(NonEmpty(page.parameters))
            && Print(Parse(ReadBack(page.url)).value) == page.url
  {
    var page := ApplyAll(Open(search, reformat).value, edits);
    ParsePrint(page.parameters);
    PrintNonEmpty(page.parameters);
  }

  // What a page shows of the parameters its URL parses to.
  lemma OpenSees(search: string, reformat: string -> string, key: string)
    requires Parse(search).Some?
    ensures var parsed, page := Lookup(Parse(search).value.values, key), Open(search, reformat);
            && page.Some?
            && Lookup(page.value.parameters.values, key) ==
                 if parsed.None? || parsed.value == "" || key != "variables" then parsed
                 else Some(reformat(parsed.value))
  {
    assert "variables"[0] != PROTO[0];
  }

  /** A shared link carries the session over to every reader, however that
      reader's page reformats: of the keys edited, those with a non-empty text are
      there with the text last given to them, `variables` reformatted, and those
      emptied are not. */
  lemma SharedLink(search: string, reformat: string -> string, edits: seq<Edit>,
                   readerReformat: string -> string, key: string, text: string)
    requires Open(search, reformat).Some? && edits != []
    requires LastText(edits, key) == Some(text)
    ensures var shown := ApplyAll(Open(search, reformat).value, edits).url;
            var reader := Open(ReadBack(shown), readerReformat);
            && reader.Some?
            && Lookup(reader.value.parameters.values, key) ==
                 if text == "" then None
                 else if key == "variables" then Some(readerReformat(text))
                 else Some(text)
  {
    var page := Open(search, reformat).value;
    UrlFollowsEdits(search, reformat, edits);
    EditsTakeEffect(page, edits, key);
    OpenSees(ReadBack(ApplyAll(page, edits).url), readerReformat, key);
  }
}
