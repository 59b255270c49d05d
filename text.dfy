/** String splitting, joining and stripping as the back end (Python `str.split`,
    `str.strip`) and the front end (JS `Array.join`) perform them. */
module Text {

  /** Python's `str.isspace()` for a single character: the characters `str.strip()`
      removes when called without arguments. */
  predicate IsSpace(c: char) {
    || '\U{9}' <= c <= '\U{D}'
    || '\U{1C}' <= c <= '\U{20}'
    || c == '\U{85}' || c == '\U{A0}' || c == '\U{1680}'
    || '\U{2000}' <= c <= '\U{200A}'
    || c == '\U{2028}' || c == '\U{2029}' || c == '\U{202F}' || c == '\U{205F}' || c == '\U{3000}'
  }

  /** JS `parts.join(sep)` for a one-character separator. */
  function Join(parts: seq<string>, sep: char): string {
    if |parts| == 0 then ""
    else if |parts| == 1 then parts[0]
    else parts[0] + [sep] + Join(parts[1..], sep)
  }

  /** Python `s.split(sep)` for a one-character separator: one part more than there
      are separators, empty parts included, and the parts joined back give `s`. */
  function Split(s: string, sep: char): (r: seq<string>)
    ensures |r| == multiset(s)[sep] + 1
    ensures forall i :: 0 <= i < |r| ==> sep !in r[i]
    ensures Join(r, sep) == s
    decreases |s|
  {
    if |s| == 0 then [""]
    else
      var rest := Split(s[1..], sep);
      SplitStepKeeps(s, sep, rest);
      SplitStep(s[0], rest, sep)
  }

  /** One character of the split: the separator opens a new part, any other character
      joins the front of the first part. */
  function SplitStep(c: char, rest: seq<string>, sep: char): seq<string>
    requires |rest| > 0
  {
    if c == sep then [""] + rest else [[c] + rest[0]] + rest[1..]
  }

  lemma SplitStepKeeps(s: string, sep: char, rest: seq<string>)
    requires |s| > 0 && |rest| == multiset(s[1..])[sep] + 1
    requires forall i :: 0 <= i < |rest| ==> sep !in rest[i]
    requires Join(rest, sep) == s[1..]
    ensures |SplitStep(s[0], rest, sep)| == multiset(s)[sep] + 1
    ensures forall i :: 0 <= i < |SplitStep(s[0], rest, sep)| ==> sep !in SplitStep(s[0], rest, sep)[i]
    ensures Join(SplitStep(s[0], rest, sep), sep) == s
  {
    assert s == [s[0]] + s[1..];
    assert multiset(s) == multiset{s[0]} + multiset(s[1..]);
    SplitStepParts(s[0], rest, sep);
    if s[0] == sep {
      JoinCons("", rest, sep);
    } else {
      JoinPrepend([s[0]], rest, sep);
    }
  }

  lemma SplitStepParts(c: char, rest: seq<string>, sep: char)
    requires |rest| > 0
    requires forall i :: 0 <= i < |rest| ==> sep !in rest[i]
    ensures |SplitStep(c, rest, sep)| == if c == sep then |rest| + 1 else |rest|
    ensures forall i :: 0 <= i < |SplitStep(c, rest, sep)| ==> sep !in SplitStep(c, rest, sep)[i]
  {
    var r := SplitStep(c, rest, sep);
    if c == sep {
      assert forall i :: 1 <= i < |r| ==> r[i] == rest[i - 1];
    } else {
      assert forall i :: 1 <= i < |r| ==> r[i] == rest[i];
    }
  }

  lemma {:induction false} JoinCons(a: string, rest: seq<string>, sep: char)
    requires |rest| > 0
    ensures Join([a] + rest, sep) == a + [sep] + Join(rest, sep)
  {
    assert ([a] + rest)[1..] == rest;
  }

  lemma SplitAtSeparator(s: string, sep: char)
    requires |s| > 0 && s[0] == sep
    ensures Split(s, sep) == [""] + Split(s[1..], sep)
  {
  }

  lemma SplitAtOther(s: string, sep: char)
    requires |s| > 0 && s[0] != sep
    ensures Split(s, sep) == [[s[0]] + Split(s[1..], sep)[0]] + Split(s[1..], sep)[1..]
  {
  }

  /** Gluing a prefix onto the first part glues it onto the joined string. */
  lemma {:induction false} JoinPrepend(c: string, parts: seq<string>, sep: char)
    requires |parts| > 0
    ensures Join([c + parts[0]] + parts[1..], sep) == c + Join(parts, sep)
  {
    if |parts| > 1 {
      JoinCons(c + parts[0], parts[1..], sep);
    }
  }

  /** Splitting `a + sep + b`, where `a` holds no separator, yields `a` followed by the parts of `b`. */
  lemma {:induction false} SplitAfterSeparator(a: string, b: string, sep: char)
    requires sep !in a
    ensures Split(a + [sep] + b, sep) == [a] + Split(b, sep)
    decreases |a|
  {
    var s := a + [sep] + b;
    if |a| == 0 {
      assert s[1..] == b;
      SplitAtSeparator(s, sep);
    } else {
      assert s[0] == a[0] && a[0] != sep;
      assert s[1..] == a[1..] + [sep] + b;
      SplitAfterSeparator(a[1..], b, sep);
      SplitAtOther(s, sep);
      var t := Split(s[1..], sep);
      assert t[0] == a[1..] && t[1..] == Split(b, sep);
      assert [a[0]] + a[1..] == a;
    }
  }

  /** A string without the separator splits into itself alone. */
  lemma {:induction false} SplitWithoutSeparator(a: string, sep: char)
    requires sep !in a
    ensures Split(a, sep) == [a]
    decreases |a|
  {
    if |a| > 0 {
      SplitWithoutSeparator(a[1..], sep);
      assert [a[0]] + a[1..] == a;
    }
  }

  /** Round trip: splitting what `Join` produced gives back the parts, provided there is
      at least one part and no part contains the separator. */
  lemma {:induction false} SplitJoin(parts: seq<string>, sep: char)
    requires |parts| > 0
    requires forall i :: 0 <= i < |parts| ==> sep !in parts[i]
    ensures Split(Join(parts, sep), sep) == parts
    decreases |parts|
  {
    if |parts| == 1 {
      SplitWithoutSeparator(parts[0], sep);
    } else {
      SplitJoin(parts[1..], sep);
      SplitAfterSeparator(parts[0], Join(parts[1..], sep), sep);
      assert [parts[0]] + parts[1..] == parts;
    }
  }

  /** Every character of a part is a character of the split string. */
  lemma {:induction false} PartCharsFromString(s: string, sep: char, i: nat, k: nat)
    requires i < |Split(s, sep)| && k < |Split(s, sep)[i]|
    ensures Split(s, sep)[i][k] in s
    decreases |s|
  {
    var rest := Split(s[1..], sep);
    if s[0] == sep {
      SplitAtSeparator(s, sep);
      PartCharsFromString(s[1..], sep, i - 1, k);
    } else {
      SplitAtOther(s, sep);
      if i == 0 && k == 0 {
      } else if i == 0 {
        PartCharsFromString(s[1..], sep, 0, k - 1);
      } else {
        PartCharsFromString(s[1..], sep, i, k);
      }
    }
  }

  /** A character that is not the separator and occurs in no part does not occur in the joined string. */
  lemma {:induction false} NotInJoin(parts: seq<string>, sep: char, c: char)
    requires c != sep
    requires forall i :: 0 <= i < |parts| ==> c !in parts[i]
    ensures c !in Join(parts, sep)
    decreases |parts|
  {
    if |parts| > 1 {
      NotInJoin(parts[1..], sep, c);
    }
  }

  /** The number of whitespace characters `s` starts with. */
  function LeadingSpaces(s: string): (n: nat)
    ensures n <= |s|
    ensures forall k :: 0 <= k < n ==> IsSpace(s[k])
    ensures n < |s| ==> !IsSpace(s[n])
  {
    if |s| > 0 && IsSpace(s[0]) then 1 + LeadingSpaces(s[1..]) else 0
  }

  function TrimEnd(s: string): (r: string)
    ensures |r| <= |s| && r == s[..|r|]
    ensures r == "" || !IsSpace(r[|r| - 1])
    ensures forall k :: |r| <= k < |s| ==> IsSpace(s[k])
  {
    if |s| > 0 && IsSpace(s[|s| - 1]) then TrimEnd(s[..|s| - 1]) else s
  }

  /** Python `s.strip()`: the infix of `s` left after removing whitespace from both ends. */
  function Strip(s: string): (r: string)
    ensures r == "" || (!IsSpace(r[0]) && !IsSpace(r[|r| - 1]))
    ensures LeadingSpaces(s) + |r| <= |s|
    ensures r == s[LeadingSpaces(s)..LeadingSpaces(s) + |r|]
    ensures forall k :: LeadingSpaces(s) + |r| <= k < |s| ==> IsSpace(s[k])
  {
    TrimEnd(s[LeadingSpaces(s)..])
  }

  /** Stripping introduces no character. */
  lemma StripKeepsAbsent(s: string, c: char)
    requires c !in s
    ensures c !in Strip(s)
  {
    var lo := LeadingSpaces(s);
    var r := Strip(s);
    assert r == s[lo..lo + |r|];
  }

  /** A string with no whitespace at either end is left as it is by `Strip`. */
  lemma StripUntrimmed(s: string)
    requires s == "" || (!IsSpace(s[0]) && !IsSpace(s[|s| - 1]))
    ensures Strip(s) == s
  {
  }
}
