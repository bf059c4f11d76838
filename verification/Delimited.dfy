/** Delimiter-separated text: joining fields and splitting a line. */
module Delimited {

  /** The position of the first sep in s, or |s|. */
  function Find(s: string, sep: char): (p: nat)
    ensures p <= |s| && sep !in s[..p]
    ensures p < |s| ==> s[p] == sep
  {
    if s == [] || s[0] == sep then 0 else
      var p := 1 + Find(s[1..], sep);
      assert s[..p] == [s[0]] + s[1..][..p - 1];
      p
  }

  /** The pieces of s between separators, empty ones included. */
  function SplitOn(s: string, sep: char): seq<string> {
    var p := Find(s, sep);
    if p == |s| then [s] else [s[..p]] + SplitOn(s[p + 1..], sep)
  }

  function Join(fields: seq<string>, sep: char): string {
    if fields == [] then "" else if |fields| == 1 then fields[0] else fields[0] + [sep] + Join(fields[1..], sep)
  }

  ghost predicate Free(fields: seq<string>, sep: char) {
    forall i :: 0 <= i < |fields| ==> sep !in fields[i]
  }

  lemma FindAfter(f: string, rest: string, sep: char)
    requires sep !in f
    ensures Find(f + rest, sep) == |f| + Find(rest, sep)
  {
    if f == [] {
      assert f + rest == rest;
    } else {
      assert (f + rest)[1..] == f[1..] + rest;
      FindAfter(f[1..], rest, sep);
    }
  }

  /** Splitting undoes joining, for separator-free fields. */
  lemma {:induction false} SplitOfJoin(fields: seq<string>, sep: char)
    requires fields != [] && Free(fields, sep)
    ensures SplitOn(Join(fields, sep), sep) == fields
  {
    var f := fields[0];
    if |fields| == 1 {
      FindAfter(f, "", sep);
      assert f + "" == f;
    } else {
      var rest := Join(fields[1..], sep);
      SplitOfJoin(fields[1..], sep);
      var line := f + [sep] + rest;
      assert line == f + ([sep] + rest);
      FindAfter(f, [sep] + rest, sep);
      assert line[..|f|] == f && line[|f| + 1..] == rest;
    }
  }

  lemma FreeCons(f: string, rest: seq<string>, sep: char)
    requires sep !in f && Free(rest, sep)
    ensures Free([f] + rest, sep)
  {
    var pieces := [f] + rest;
    forall i | 0 <= i < |pieces| ensures sep !in pieces[i] {
      assert i > 0 ==> pieces[i] == rest[i - 1];
    }
  }

  /** Joining undoes splitting, for every string; the pieces are separator-free. */
  lemma {:induction false} JoinOfSplit(s: string, sep: char)
    ensures SplitOn(s, sep) != [] && Free(SplitOn(s, sep), sep)
    ensures Join(SplitOn(s, sep), sep) == s
    decreases |s|
  {
    var p := Find(s, sep);
    if p == |s| {
      assert s[..p] == s;
    } else {
      var rest := SplitOn(s[p + 1..], sep);
      JoinOfSplit(s[p + 1..], sep);
      FreeCons(s[..p], rest, sep);
      JoinCons(s[..p], rest, sep);
      assert s == s[..p] + [sep] + s[p + 1..];
    }
  }

  lemma JoinCons(f: string, rest: seq<string>, sep: char)
    requires rest != []
    ensures Join([f] + rest, sep) == f + [sep] + Join(rest, sep)
  {
    assert ([f] + rest)[1..] == rest;
  }

  lemma {:induction false} JoinAppend(fields: seq<string>, f: string, sep: char)
    requires fields != []
    ensures Join(fields + [f], sep) == Join(fields, sep) + [sep] + f
  {
    if |fields| == 1 {
      assert (fields + [f])[1..] == [f];
    } else {
      assert (fields + [f])[1..] == fields[1..] + [f];
      JoinAppend(fields[1..], f, sep);
    }
  }

  lemma JoinNonempty(fields: seq<string>, sep: char)
    requires fields != [] && fields[0] != ""
    ensures Join(fields, sep) != ""
  {
  }

  lemma AppendAssociates(a: seq<string>, b: seq<string>, c: seq<string>)
    ensures (a + b) + c == a + (b + c)
  {
  }

  /** The program's own splitting loop, on commas. */
  method Split(value: string) returns (result: seq<string>)
    ensures result == SplitOn(value, ',')
  {
    result := [];
    var start := 0;
    assert value[0..] == value;
    ghost var rest := value;
    while start <= |value|
      invariant start <= |value| && rest == value[start..]
      invariant result + SplitOn(rest, ',') == SplitOn(value, ',')
      decreases |value| - start
    {
      var length := Find(value[start..], ',');
      var comma := start + length;
      var piece := value[start..comma];
      assert piece == rest[..length];
      if comma == |value| {
        assert piece == rest;
        result := result + [piece];
        break;
      }
      assert SplitOn(rest, ',') == [piece] + SplitOn(rest[length + 1..], ',');
      AppendAssociates(result, [piece], SplitOn(rest[length + 1..], ','));
      result := result + [piece];
      start := comma + 1;
      rest := rest[length + 1..];
    }
  }
}
