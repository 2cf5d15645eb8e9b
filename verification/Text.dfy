/** Splitting and joining text on a separator, as Python's and JavaScript's `split` and `join`
    do: occurrences are found from the left and do not overlap. */
module Text {

  predicate At(s: string, sep: string, i: nat) {
    i + |sep| <= |s| && s[i..i + |sep|] == sep
  }

  /** The first index at which `sep` occurs in `s`, or -1. */
  function Find(s: string, sep: string): (i: int)
    requires sep != ""
    ensures i == -1 || (0 <= i && At(s, sep, i))
    ensures forall j: nat :: (i == -1 || j < i) ==> !At(s, sep, j)
  {
    if At(s, sep, 0) then 0
    else if s == "" then -1
    else
      var k := Find(s[1..], sep);
      assert forall j: nat :: j >= 1 && At(s, sep, j) ==> At(s[1..], sep, j - 1) by {
        forall j: nat | j >= 1 && At(s, sep, j) ensures At(s[1..], sep, j - 1) {
          assert s[1..][j - 1..j - 1 + |sep|] == s[j..j + |sep|];
        }
      }
      if k == -1 then -1
      else
        assert s[1..][k..k + |sep|] == s[k + 1..k + 1 + |sep|];
        k + 1
  }

  function Split(s: string, sep: string): (parts: seq<string>)
    requires sep != ""
    ensures |parts| >= 1
    decreases |s|
  {
    var i := Find(s, sep);
    if i == -1 then [s] else [s[..i]] + Split(s[i + |sep|..], sep)
  }

  function Join(parts: seq<string>, sep: string): string
    requires |parts| >= 1
  {
    if |parts| == 1 then parts[0] else parts[0] + sep + Join(parts[1..], sep)
  }

  /** Python's `str.replace` and JavaScript's `split(..).join(..)`. */
  function Replace(s: string, sep: string, glue: string): string
    requires sep != ""
  {
    Join(Split(s, sep), glue)
  }

  /** `part` followed by the separator is cut exactly where the separator starts. */
  predicate Clean(part: string, sep: string)
    requires sep != ""
  {
    Find(part + sep, sep) == |part|
  }

  lemma AtPrefix(a: string, b: string, sep: string, j: nat)
    requires j + |sep| <= |a|
    ensures At(a + b, sep, j) <==> At(a, sep, j)
  {
    assert (a + b)[j..j + |sep|] == a[j..j + |sep|];
  }

  /** Text after an occurrence does not move it. */
  lemma FindPrefix(a: string, b: string, sep: string)
    requires sep != "" && Find(a, sep) != -1
    ensures Find(a + b, sep) == Find(a, sep)
  {
    var i := Find(a, sep);
    forall j: nat | j <= i ensures At(a + b, sep, j) <==> At(a, sep, j) {
      AtPrefix(a, b, sep, j);
    }
  }

  lemma JoinCons(part: string, parts: seq<string>, sep: string)
    requires |parts| >= 1
    ensures Join([part] + parts, sep) == part + sep + Join(parts, sep)
  {
    assert ([part] + parts)[1..] == parts;
  }

  lemma SplitAt(s: string, sep: string, i: nat)
    requires sep != "" && Find(s, sep) == i
    ensures Split(s, sep) == [s[..i]] + Split(s[i + |sep|..], sep)
  {
  }

  lemma LastOfSplit(s: string, sep: string, i: nat)
    requires sep != "" && Find(s, sep) == i
    ensures var parts, more := Split(s, sep), Split(s[i + |sep|..], sep);
            |parts| >= 2 && parts[|parts| - 1] == more[|more| - 1]
  {
    SplitAt(s, sep, i);
  }

  lemma AtEnd(s: string, sep: string)
    requires |sep| <= |s| && s[|s| - |sep|..] == sep
    ensures At(s, sep, |s| - |sep|)
  {
    assert s[|s| - |sep|..|s|] == s[|s| - |sep|..];
  }

  lemma SplitSingle(s: string, sep: string)
    requires sep != ""
    ensures if |Split(s, sep)| == 1 then Split(s, sep)[0] == s else s != ""
  {
    if Find(s, sep) != -1 {
      SplitAt(s, sep, Find(s, sep));
    }
  }

  lemma Cut(s: string, sep: string, i: nat)
    requires At(s, sep, i)
    ensures s == s[..i] + sep + s[i + |sep|..]
  {
    assert s == s[..i] + s[i..i + |sep|] + s[i + |sep|..];
  }

  lemma {:induction false} JoinOfSplit(s: string, sep: string)
    requires sep != ""
    ensures Join(Split(s, sep), sep) == s
    decreases |s|
  {
    var i := Find(s, sep);
    if i != -1 {
      var rest := s[i + |sep|..];
      JoinOfSplit(rest, sep);
      JoinCons(s[..i], Split(rest, sep), sep);
      Cut(s, sep, i);
    }
  }

  /** Splitting undoes joining when no part disturbs the separators. */
  lemma {:induction false} SplitOfJoin(parts: seq<string>, sep: string)
    requires sep != "" && |parts| >= 1
    requires forall i :: 0 <= i < |parts| ==> Clean(parts[i], sep)
    ensures Split(Join(parts, sep), sep) == parts
    decreases |parts|
  {
    assert Clean(parts[0], sep);
    if |parts| == 1 {
      NoneInside(parts[0], sep);
    } else {
      var rest := Join(parts[1..], sep);
      SplitOfJoin(parts[1..], sep);
      SplitFirst(parts[0], rest, sep);
    }
  }

  lemma SplitFirst(part: string, rest: string, sep: string)
    requires sep != "" && Clean(part, sep)
    ensures Split(part + sep + rest, sep) == [part] + Split(rest, sep)
  {
    var s := part + sep + rest;
    FindPrefix(part + sep, rest, sep);
    assert s[..|part|] == part;
    assert s[|part| + |sep|..] == rest;
  }

  /** A clean part holds no separator. */
  lemma NoneInside(part: string, sep: string)
    requires sep != "" && Clean(part, sep)
    ensures Find(part, sep) == -1
  {
    if Find(part, sep) != -1 {
      FindPrefix(part, sep, sep);
    }
  }

  /** Every part but the last of a split text is clean, and the last holds no separator. */
  lemma {:induction false} SplitParts(s: string, sep: string)
    requires sep != ""
    ensures var parts := Split(s, sep);
            (forall k :: 0 <= k < |parts| - 1 ==> Clean(parts[k], sep)) &&
            Find(parts[|parts| - 1], sep) == -1
    decreases |s|
  {
    var i := Find(s, sep);
    if i != -1 {
      var rest := s[i + |sep|..];
      SplitParts(rest, sep);
      CleanAtFirst(s, sep);
      SplitAt(s, sep, i);
      CleanCons(s[..i], Split(rest, sep), Split(s, sep), sep);
    }
  }

  lemma CleanCons(first: string, more: seq<string>, parts: seq<string>, sep: string)
    requires sep != "" && |more| >= 1 && parts == [first] + more
    requires Clean(first, sep) && forall k :: 0 <= k < |more| - 1 ==> Clean(more[k], sep)
    ensures parts[|parts| - 1] == more[|more| - 1]
    ensures forall k :: 0 <= k < |parts| - 1 ==> Clean(parts[k], sep)
  {
    forall k | 0 <= k < |parts| - 1 ensures Clean(parts[k], sep) {
      assert k > 0 ==> parts[k] == more[k - 1];
    }
  }

  lemma CleanAtFirst(s: string, sep: string)
    requires sep != "" && Find(s, sep) != -1
    ensures Clean(s[..Find(s, sep)], sep)
  {
    var i := Find(s, sep);
    var part, rest := s[..i], s[i + |sep|..];
    Cut(s, sep, i);
    AtTheEnd(part, sep);
    forall j: nat | j < i ensures !At(part + sep, sep, j) {
      AtPrefix(part + sep, rest, sep, j);
    }
  }

  lemma AtTheEnd(part: string, sep: string)
    ensures At(part + sep, sep, |part|)
  {
  }

  /** For a one-character separator, clean means free of that character. */
  lemma CleanChar(part: string, c: char)
    ensures Clean(part, [c]) <==> c !in part
    ensures Find(part, [c]) == -1 <==> c !in part
  {
    var s := part + [c];
    forall j: nat | j < |s| ensures At(s, [c], j) <==> s[j] == c {
    }
    forall j: nat | j < |part| ensures At(part, [c], j) <==> part[j] == c {
    }
    assert At(s, [c], |part|) && s[|part|] == c;
    if c in part {
      var k :| 0 <= k < |part| && part[k] == c;
      assert s[k] == c && At(s, [c], k) && At(part, [c], k);
    }
  }

  /** A character that is in a joined text is in a part or in the separator. */
  lemma {:induction false} CharsOfJoin(parts: seq<string>, sep: string, c: char)
    requires |parts| >= 1 && c !in sep
    requires forall i :: 0 <= i < |parts| ==> c !in parts[i]
    ensures c !in Join(parts, sep)
    decreases |parts|
  {
    if |parts| > 1 {
      CharsOfJoin(parts[1..], sep, c);
    }
  }
}
