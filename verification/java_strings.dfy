/** The handful of `java.lang.String` operations the downloader relies on,
    over strings modelled as sequences of characters. */
module JavaStrings {

  type String = seq<char>

  /** `pat` occurs in `s` starting at index `i`. */
  predicate OccursAt(s: String, pat: String, i: int)
  {
    0 <= i && i + |pat| <= |s| && s[i..i + |pat|] == pat
  }

  /** `s.indexOf(pat, from)` for a non-empty `pat`: the first index at or
      after `from` where `pat` occurs, or -1 when there is none. */
  function IndexOf(s: String, pat: String, from: nat): (r: int)
    requires |pat| > 0
    ensures r == -1 || from <= r
    ensures r == -1 <==> forall j :: from <= j ==> !OccursAt(s, pat, j)
    ensures r != -1 ==> OccursAt(s, pat, r)
    ensures r != -1 ==> forall j :: from <= j < r ==> !OccursAt(s, pat, j)
    decreases |s| - from
  {
    if from + |pat| > |s| then -1
    else if s[from..from + |pat|] == pat then
      assert OccursAt(s, pat, from);
      from
    else IndexOf(s, pat, from + 1)
  }

  /** `s.lastIndexOf(c, s.length())`: the index of the last `c` in `s`, or -1. */
  function LastIndexOf(s: String, c: char): (r: int)
    ensures -1 <= r < |s|
    ensures r == -1 <==> c !in s
    ensures r != -1 ==> s[r] == c && c !in s[r + 1..]
  {
    if |s| == 0 then -1
    else if s[|s| - 1] == c then |s| - 1
    else
      assert s == s[..|s| - 1] + [s[|s| - 1]];
      LastIndexOf(s[..|s| - 1], c)
  }

  /** Lower-casing of one character, restricted to ASCII letters. */
  function LowerChar(c: char): char
  {
    if 'A' <= c <= 'Z' then (c as int + 32) as char else c
  }

  /** `s.toLowerCase()` restricted to ASCII letters; it keeps the length, so an
      index found in the lower-cased copy is an index into the original. */
  function ToLower(s: String): (r: String)
    ensures |r| == |s|
    ensures forall i :: 0 <= i < |s| ==> r[i] == LowerChar(s[i])
  {
    seq(|s|, i requires 0 <= i < |s| => LowerChar(s[i]))
  }

  /** The pieces joined back together with `sep` between neighbours. */
  function Join(parts: seq<String>, sep: char): String
  {
    if |parts| == 0 then []
    else if |parts| == 1 then parts[0]
    else parts[0] + [sep] + Join(parts[1..], sep)
  }

  /** Cutting `s` at every `sep`: the maximal `sep`-free pieces, empty ones
      included, so that joining them with `sep` gives back `s`. */
  function Split(s: String, sep: char): (parts: seq<String>)
    ensures |parts| >= 1
    ensures forall i :: 0 <= i < |parts| ==> sep !in parts[i]
    ensures Join(parts, sep) == s
    decreases |s|
  {
    var k := IndexOf(s, [sep], 0);
    FirstSeparator(s, sep);
    if k == -1 then [s]
    else
      var head, rest := s[..k], Split(s[k + 1..], sep);
      assert ([head] + rest)[1..] == rest;
      [head] + rest
  }

  /** Searching for `sep` from the start finds its first occurrence, or -1
      when `s` has none. */
  lemma {:induction false} FirstSeparator(s: String, sep: char)
    ensures var k := IndexOf(s, [sep], 0);
      && (k == -1 ==> sep !in s)
      && (k != -1 ==> k < |s| && sep !in s[..k] && s == s[..k] + [sep] + s[k + 1..])
  {
    var k := IndexOf(s, [sep], 0);
    var end := if k == -1 then |s| else k;
    forall j | 0 <= j < end
      ensures s[j] != sep
    {
      assert !OccursAt(s, [sep], j);
      assert s[j..j + 1][0] == s[j];
    }
    if k != -1 {
      assert s[k..k + 1][0] == s[k];
      assert s == s[..k] + [sep] + s[k + 1..];
    }
  }

  /** The only way to cut `s` into `sep`-free pieces that join back to `s` is `Split`. */
  lemma {:induction false} SplitUnique(s: String, sep: char, parts: seq<String>)
    requires |parts| >= 1
    requires forall i :: 0 <= i < |parts| ==> sep !in parts[i]
    requires Join(parts, sep) == s
    ensures parts == Split(s, sep)
    decreases |parts|
  {
    var p := parts[0];
    var k := IndexOf(s, [sep], 0);
    if |parts| == 1 {
      assert s == p;
    } else {
      var rest := parts[1..];
      assert s == p + [sep] + Join(rest, sep);
      assert OccursAt(s, [sep], |p|);
      forall j | 0 <= j < |p|
        ensures !OccursAt(s, [sep], j)
      {
        assert s[j] == p[j];
      }
      assert k == |p|;
      assert s[k + 1..] == Join(rest, sep);
      SplitUnique(s[k + 1..], sep, rest);
      assert s[..k] == p;
    }
  }

  /** The pieces with every empty piece at the end removed. */
  function DropTrailingEmpty(parts: seq<String>): (r: seq<String>)
    ensures |r| <= |parts| && r == parts[..|r|]
    ensures forall i :: |r| <= i < |parts| ==> parts[i] == []
    ensures |r| > 0 ==> r[|r| - 1] != []
  {
    if |parts| == 0 then []
    else if parts[|parts| - 1] == [] then DropTrailingEmpty(parts[..|parts| - 1])
    else parts
  }

  /** `s.split(String.valueOf(sep))` with Java's rules: when `sep` does not
      occur the whole string is the one piece (even when it is empty);
      otherwise trailing empty pieces are dropped. */
  function JavaSplit(s: String, sep: char): (lines: seq<String>)
    ensures sep !in s ==> lines == [s]
    ensures sep in s ==> |lines| <= |Split(s, sep)| && lines == Split(s, sep)[..|lines|]
    ensures sep in s ==> forall i :: |lines| <= i < |Split(s, sep)| ==> Split(s, sep)[i] == []
    ensures sep in s && |lines| > 0 ==> lines[|lines| - 1] != []
    ensures forall i :: 0 <= i < |lines| ==> sep !in lines[i]
  {
    if sep !in s then [s] else DropTrailingEmpty(Split(s, sep))
  }

  /** Java's `split` undoes `Join` when no piece holds the separator and the
      last piece is not empty (a lone piece may be empty). */
  lemma {:induction false} JavaSplitJoin(lines: seq<String>, sep: char)
    requires |lines| >= 1
    requires forall i :: 0 <= i < |lines| ==> sep !in lines[i]
    requires |lines| >= 2 ==> lines[|lines| - 1] != []
    ensures JavaSplit(Join(lines, sep), sep) == lines
  {
    var s := Join(lines, sep);
    SplitUnique(s, sep, lines);
    if |lines| >= 2 {
      assert s == lines[0] + [sep] + Join(lines[1..], sep);
      assert s[|lines[0]|] == sep;
    }
  }
}
