/** The two `joinStrings`, the join they compute, and the split that undoes it. */
module Joiner {
  import opened Wrappers

  function Join(xs: seq<string>, delimiter: string): string {
    if |xs| == 0 then ""
    else if |xs| == 1 then xs[0]
    else xs[0] + delimiter + Join(xs[1..], delimiter)
  }

  /** Cut at every occurrence of c, as JavaScript's `split` does: always at least one piece. */
  function Split(s: string, c: char): (pieces: seq<string>)
    ensures |pieces| >= 1
  {
    if s == "" then [""]
    else
      var rest := Split(s[1..], c);
      if s[0] == c then [""] + rest else [[s[0]] + rest[0]] + rest[1..]
  }

  lemma {:induction false} JoinSnoc(xs: seq<string>, x: string, delimiter: string)
    requires xs != []
    ensures Join(xs + [x], delimiter) == Join(xs, delimiter) + delimiter + x
  {
    if |xs| == 1 {
      assert (xs + [x])[1..] == [x];
    } else {
      JoinSnoc(xs[1..], x, delimiter);
      assert (xs + [x])[1..] == xs[1..] + [x];
    }
  }

  /** What a join is: nothing for no strings, the string for one, and for two lists
      one after the other their joins with the delimiter between. */
  lemma {:induction false} JoinAppend(xs: seq<string>, ys: seq<string>, x: string, delimiter: string)
    ensures Join([], delimiter) == "" && Join([x], delimiter) == x
    ensures xs != [] && ys != [] ==>
              Join(xs + ys, delimiter) == Join(xs, delimiter) + delimiter + Join(ys, delimiter)
    decreases |xs|
  {
    if |xs| == 1 {
      assert (xs + ys)[1..] == ys;
    } else if |xs| > 1 {
      assert (xs + ys)[1..] == xs[1..] + ys;
      JoinAppend(xs[1..], ys, x, delimiter);
    }
  }

  lemma {:induction false} SplitPiece(p: string, c: char)
    requires c !in p
    ensures Split(p, c) == [p]
  {
    if p != "" {
      SplitPiece(p[1..], c);
      assert [p[0]] + p[1..] == p;
    }
  }

  lemma {:induction false} SplitAtDelimiter(p: string, rest: string, c: char)
    requires c !in p
    ensures Split(p + [c] + rest, c) == [p] + Split(rest, c)
  {
    var s := p + [c] + rest;
    if p == "" {
      assert s[1..] == rest;
    } else {
      assert s[1..] == p[1..] + [c] + rest;
      SplitAtDelimiter(p[1..], rest, c);
      assert [p[0]] + p[1..] == p;
    }
  }

  /** Splitting recovers every non-empty list whose pieces avoid the delimiter. */
  lemma {:induction false} SplitJoin(xs: seq<string>, c: char)
    requires xs != [] && forall i | 0 <= i < |xs| :: c !in xs[i]
    ensures Split(Join(xs, [c]), c) == xs
  {
    if |xs| == 1 {
      SplitPiece(xs[0], c);
    } else {
      SplitAtDelimiter(xs[0], Join(xs[1..], [c]), c);
      SplitJoin(xs[1..], c);
    }
  }

  // A character in front of the first piece is in front of the join.
  lemma JoinLonger(xs: seq<string>, c: char, delimiter: string)
    requires xs != []
    ensures Join([[c] + xs[0]] + xs[1..], delimiter) == [c] + Join(xs, delimiter)
  {
    var r := [[c] + xs[0]] + xs[1..];
    assert r[1..] == xs[1..];
  }

  /** And joining recovers every string from its pieces, none of which holds the
      delimiter: on strings, splitting is exactly the inverse of joining. */
  lemma {:induction false} JoinSplit(s: string, c: char)
    ensures Join(Split(s, c), [c]) == s
    ensures forall i | 0 <= i < |Split(s, c)| :: c !in Split(s, c)[i]
  {
    if s != "" {
      JoinSplit(s[1..], c);
      var rest := Split(s[1..], c);
      if s[0] == c {
        assert ([""] + rest)[1..] == rest;
      } else {
        JoinLonger(rest, s[0], [c]);
      }
    }
  }

  /** Distinct lists of delimiter-free pieces never join to the same string. */
  lemma JoinInjective(xs: seq<string>, ys: seq<string>, c: char)
    requires xs != [] && forall i | 0 <= i < |xs| :: c !in xs[i]
    requires ys != [] && forall i | 0 <= i < |ys| :: c !in ys[i]
    requires Join(xs, [c]) == Join(ys, [c])
    ensures xs == ys
  {
    SplitJoin(xs, c);
    SplitJoin(ys, c);
  }

  /** `EmitLogTopic.joinStrings` */
  method JoinStrings(strings: seq<string>, delimiter: string) returns (joined: string)
    ensures joined == Join(strings, delimiter)
  {
    var length := |strings|;
    if length == 0 {
      return "";
    }
    var words := strings[0];
    for i := 1 to length
      invariant words == Join(strings[..i], delimiter)
    {
      JoinSnoc(strings[..i], strings[i], delimiter);
      assert strings[..i] + [strings[i]] == strings[..i + 1];
      words := words + delimiter + strings[i];
    }
    assert strings[..length] == strings;
    return words;
  }

  /** `DelayProducer.joinStrings`; None stands for the out-of-bounds exception of
      a negative start index. From a start index on it is the first method
      applied to the tail of the list. */
  method JoinStringsFrom(strings: seq<string>, delimiter: string, startIndex: int)
    returns (joined: Option<string>)
    ensures joined.None? <==> startIndex < 0 && strings != []
    ensures 0 <= startIndex <= |strings| ==> joined == Some(Join(strings[startIndex..], delimiter))
    ensures strings == [] || startIndex > |strings| ==> joined == Some("")
  {
    var length := |strings|;
    if length == 0 {
      return Some("");
    }
    if length <= startIndex {
      return Some("");
    }
    if startIndex < 0 {
      return None;
    }
    ghost var tail := strings[startIndex..];
    var words := strings[startIndex];
    for i := startIndex + 1 to length
      invariant words == Join(tail[..i - startIndex], delimiter)
    {
      JoinSnoc(tail[..i - startIndex], strings[i], delimiter);
      assert tail[..i - startIndex] + [strings[i]] == tail[..i + 1 - startIndex];
      words := words + delimiter + strings[i];
    }
    assert tail[..length - startIndex] == tail;
    return Some(words);
  }
}
