/** The GraphiQL page itself: the parser's loop and the edit handlers assign into
    `parameters` in place, and `updateURL` replaces the URL. */
module GraphiqlPage {
  import opened Wrappers
  import opened Joiner
  import opened UriComponent
  import opened PropertyKeys
  import opened SearchString

  class Session {
    var keys: seq<string>
    var values: map<string, string>
    var url: string

    ghost function Parameters(): Params
      reads this
    {
      Params(keys, values)
    }

    ghost predicate Consistent()
      reads this
    {
      Valid(Parameters()) && InOrder(keys)
    }

    ghost function View(): Page
      reads this
    {
      Page(Parameters(), url)
    }

    constructor (search: string)
      ensures Consistent() && View() == Page(EMPTY, search)
    {
      keys, values, url := [], map[], search;
    }

    /** `parameters[key] = value` */
    method Set(key: string, value: string)
      requires Consistent()
      modifies this`keys, this`values
      ensures Consistent() && Parameters() == Assign(old(Parameters()), key, value)
    {
      InsertKeeps(keys, key);
      if key != PROTO {
        if key !in values {
          keys := Insert(keys, key);
        }
        values := values[key := value];
      }
    }

    /** One entry; false for a URIError. */
    method ParseOne(entry: string) returns (ok: bool)
      requires Consistent()
      modifies this`keys, this`values
      ensures Consistent()
      ensures ParseEntry(old(Parameters()), entry) == if ok then Some(Parameters()) else None
    {
      var eq := IndexOf(entry, '=');
      if eq >= 0 {
        var key := Decode(entry[..eq]);
        if key.None? {
          return false;
        }
        var value := Decode(entry[eq + 1..]);
        if value.None? {
          return false;
        }
        Set(key.value, value.value);
      }
      return true;
    }

    /** Parse the search string entry by entry; false for a URIError. It succeeds
        exactly when both halves of every entry with an '=' are spellings, and then
        each key but `__proto__` has the value of the last entry that spells it. */
    method ParseSearch() returns (ok: bool)
      requires Consistent() && Parameters() == EMPTY
      modifies this`keys, this`values
      ensures Consistent()
      ensures Parse(url) == if ok then Some(Parameters()) else None
      ensures ok <==> WellFormed(Split(Tail(url), '&'))
      ensures ok ==> forall key, value | key != PROTO ::
                Lookup(values, key) == Some(value) <==> LastSpells(Split(Tail(url), '&'), key, value)
    {
      ParseExact(url);
      var entries := Split(Tail(url), '&');
      var i := 0;
      assert entries[0..] == entries;
      while i < |entries|
        invariant 0 <= i <= |entries| && Consistent()
        invariant ParseEntries(Parameters(), entries[i..]) == Parse(url)
      {
        ghost var p := Parameters();
        var parsed := ParseOne(entries[i]);
        ParseEntriesStep(p, entries[i..], if parsed then Some(Parameters()) else None);
        if !parsed {
          return false;
        }
        assert entries[i..][1..] == entries[i + 1..];
        i := i + 1;
      }
      return true;
    }

    /** Open the page: parse, then reformat a non-empty `variables`. */
    method Load(reformat: string -> string) returns (ok: bool)
      requires Consistent() && Parameters() == EMPTY
      modifies this`keys, this`values
      ensures Consistent()
      ensures ok <==> Open(url, reformat).Some?
      ensures ok ==> View() == Open(url, reformat).value
      ensures ok ==>
                var parsed := Parse(url).value.values;
                values == if "variables" in parsed && parsed["variables"] != ""
                          then parsed["variables" := reformat(parsed["variables"])]
                          else parsed
    {
      ok := ParseSearch();
      if ok && "variables" in values && values["variables"] != "" {
        Set("variables", reformat(values["variables"]));
      }
    }

    /** After an update the URL shown parses to the non-empty parameters, and
        printing what it parses to shows the same URL. */
    method UpdateURL()
      requires Consistent()
      modifies this`url
      ensures url == Print(Parameters()) && url[0] == '?'
      ensures exists shown :: ShownKeys(Parameters(), shown) && IsUrlFor(url, shown, values)
      ensures Parse(ReadBack(url)) == Some(NonEmpty(Parameters()))
      ensures Print(NonEmpty(Parameters())) == url
    {
      url := Print(Params(keys, values));
      ParsePrint(Parameters());
      PrintNonEmpty(Parameters());
      PrintExact(Parameters(), url);
    }

    method Edit(key: string, value: string)
      requires Consistent()
      modifies this
      ensures Consistent()
      ensures View() == Page(Assign(old(Parameters()), key, value), Print(Assign(old(Parameters()), key, value)))
      ensures Parse(ReadBack(url)) == Some(NonEmpty(Parameters()))
    {
      Set(key, value);
      UpdateURL();
    }

    method OnEditQuery(newQuery: string)
      requires Consistent()
      modifies this
      ensures Consistent() && View() == Apply(old(View()), EditQuery(newQuery))
      ensures values == old(values)["query" := newQuery]
      ensures Parse(ReadBack(url)) == Some(NonEmpty(Parameters()))
    {
      EditedKeys(newQuery);
      Edit("query", newQuery);
    }

    method OnEditVariables(newVariables: string)
      requires Consistent()
      modifies this
      ensures Consistent() && View() == Apply(old(View()), EditVariables(newVariables))
      ensures values == old(values)["variables" := newVariables]
      ensures Parse(ReadBack(url)) == Some(NonEmpty(Parameters()))
    {
      EditedKeys(newVariables);
      Edit("variables", newVariables);
    }

    method OnEditOperationName(newOperationName: string)
      requires Consistent()
      modifies this
      ensures Consistent() && View() == Apply(old(View()), EditOperationName(newOperationName))
      ensures values == old(values)["operationName" := newOperationName]
      ensures Parse(ReadBack(url)) == Some(NonEmpty(Parameters()))
    {
      EditedKeys(newOperationName);
      Edit("operationName", newOperationName);
    }
  }
}
