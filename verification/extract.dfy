/** The reference extractor: `makeSrcName` and `getSourceUrls` (Proj4.java:179-231).
    A page is already-decoded text; a line is scanned for the first `src="`
    in any letter case and the quoted value is captured from the original line. */
module Extract {
  import opened Outcomes
  import opened JavaStrings

  /** The needle searched for in the lower-cased copy of a line. */
  const Token: String := "src=\""
  const Quote: char := '"'
  const Newline: char := '\n'

  /** `src="` in some letter case starts at index `i` of `line`; stated
      without lower-casing: each letter may be either case, `="` is literal. */
  predicate TokenAt(line: String, i: int)
  {
    && 0 <= i && i + 5 <= |line|
    && (line[i] == 's' || line[i] == 'S')
    && (line[i + 1] == 'r' || line[i + 1] == 'R')
    && (line[i + 2] == 'c' || line[i + 2] == 'C')
    && line[i + 3] == '='
    && line[i + 4] == Quote
  }

  /** `i` is where the first `src="` of `line` starts. */
  predicate FirstTokenAt(line: String, i: int)
  {
    TokenAt(line, i) && forall j :: 0 <= j < i ==> !TokenAt(line, j)
  }

  /** Searching the lower-cased copy for `src="` finds exactly the
      case-insensitive occurrences in the original line. */
  lemma {:induction false} LowerTokenAt(line: String, i: int)
    ensures OccursAt(ToLower(line), Token, i) <==> TokenAt(line, i)
  {
    var lc := ToLower(line);
    if 0 <= i && i + 5 <= |line| {
      assert lc[i..i + 5] == [lc[i], lc[i + 1], lc[i + 2], lc[i + 3], lc[i + 4]];
    }
  }

  /** A quote in the lower-cased copy is a quote in the original. */
  lemma {:induction false} LowerQuoteAt(line: String, j: int)
    ensures OccursAt(ToLower(line), [Quote], j) <==> 0 <= j < |line| && line[j] == Quote
  {
    if 0 <= j < |line| {
      assert ToLower(line)[j..j + 1] == [ToLower(line)[j]];
    }
  }

  /** There is at most one first occurrence. */
  lemma {:induction false} FirstTokenUnique(line: String, f: int, g: int)
    requires FirstTokenAt(line, f) && FirstTokenAt(line, g)
    ensures f == g
  {
  }

  /** Searching the lower-cased copy from the start finds the first
      case-insensitive `src="`, and -1 exactly when there is none. */
  lemma {:induction false} FoundIsFirstToken(line: String)
    ensures IndexOf(ToLower(line), Token, 0) == -1 <==> forall i :: 0 <= i ==> !TokenAt(line, i)
    ensures IndexOf(ToLower(line), Token, 0) != -1 ==> FirstTokenAt(line, IndexOf(ToLower(line), Token, 0))
  {
    var found := IndexOf(ToLower(line), Token, 0);
    if found == -1 {
      forall i | 0 <= i ensures !TokenAt(line, i) {
        LowerTokenAt(line, i);
      }
    } else {
      LowerTokenAt(line, found);
      forall j | 0 <= j < found ensures !TokenAt(line, j) {
        LowerTokenAt(line, j);
      }
    }
  }

  /** Searching the lower-cased copy for a quote from `from` finds the next
      quote of the original line, and -1 exactly when there is none. */
  lemma {:induction false} StopIsNextQuote(line: String, from: nat)
    requires from <= |line|
    ensures IndexOf(ToLower(line), [Quote], from) == -1 <==> Quote !in line[from..]
    ensures IndexOf(ToLower(line), [Quote], from) != -1 ==>
      var stop := IndexOf(ToLower(line), [Quote], from);
      stop < |line| && line[stop] == Quote && Quote !in line[from..stop]
  {
    var stop := IndexOf(ToLower(line), [Quote], from);
    if stop == -1 {
      forall j | from <= j < |line| ensures line[j] != Quote {
        LowerQuoteAt(line, j);
      }
    } else {
      LowerQuoteAt(line, stop);
      forall j | from <= j < stop ensures line[j] != Quote {
        LowerQuoteAt(line, j);
      }
      assert line[from..][stop - from] == Quote;
    }
  }

  /** `makeSrcName(line)`: search the lower-cased copy for `src="`, then for
      the next quote after it, and cut the original line between the two.
      With no token the result is `Ok("")`; with a token but no closing quote
      `substring` is given an end index of -1 and throws. */
  function MakeSrcName(line: String): (r: Result<String>)
    ensures r.Err? ==> r.fault == IndexOutOfBounds
    ensures r.Ok? ==> |r.value| < |line| || r.value == []
  {
    var lc := ToLower(line);
    var found := IndexOf(lc, Token, 0);
    var stop := IndexOf(lc, [Quote], found + 5);
    if found != -1 then
      if stop == -1 then Err(IndexOutOfBounds) else Ok(line[found + 5..stop])
    else
      Ok([])
  }

  /** What `makeSrcName` captures, stated without lower-casing or `indexOf`:
      nothing when no `src="` occurs in any letter case; otherwise a failure
      exactly when no quote follows the first token, and else the original-case
      text from the token's end up to (not including) the next quote. */
  lemma {:induction false} MakeSrcNameSpec(line: String)
    ensures (forall i :: 0 <= i ==> !TokenAt(line, i)) ==> MakeSrcName(line) == Ok([])
    ensures forall f :: FirstTokenAt(line, f) ==> (MakeSrcName(line).Err? <==> Quote !in line[f + 5..])
    ensures forall f :: FirstTokenAt(line, f) && MakeSrcName(line).Ok? ==>
      var v := MakeSrcName(line).value;
      && f + 5 + |v| < |line|
      && line[f + 5..f + 5 + |v|] == v
      && line[f + 5 + |v|] == Quote
    ensures MakeSrcName(line).Ok? ==> forall k :: 0 <= k < |MakeSrcName(line).value| ==> MakeSrcName(line).value[k] != Quote
  {
    FoundIsFirstToken(line);
    forall f | FirstTokenAt(line, f)
      ensures MakeSrcName(line).Err? <==> Quote !in line[f + 5..]
      ensures MakeSrcName(line).Ok? ==>
        var v := MakeSrcName(line).value;
        && f + 5 + |v| < |line|
        && line[f + 5..f + 5 + |v|] == v
        && line[f + 5 + |v|] == Quote
    {
      TokenCapture(line, f);
    }
    var found := IndexOf(ToLower(line), Token, 0);
    if found != -1 {
      TokenCapture(line, found);
    }
  }

  /** `MakeSrcNameSpec` for a line whose first token starts at `f`. */
  lemma {:induction false} TokenCapture(line: String, f: nat)
    requires FirstTokenAt(line, f)
    ensures MakeSrcName(line).Err? <==> Quote !in line[f + 5..]
    ensures MakeSrcName(line).Ok? ==>
      var v := MakeSrcName(line).value;
      && f + 5 + |v| < |line|
      && line[f + 5..f + 5 + |v|] == v
      && line[f + 5 + |v|] == Quote
      && forall k :: 0 <= k < |v| ==> v[k] != Quote
  {
    var stop := TokenStop(line, f);
    if stop != -1 {
      var v := line[f + 5..stop];
      assert forall k :: 0 <= k < |v| ==> v[k] == line[f + 5..stop][k];
    }
  }

  /** With the first token at `f`, `makeSrcName` stops at the quote search
      from `f + 5`. */
  lemma {:induction false} TokenStop(line: String, f: nat) returns (stop: int)
    requires FirstTokenAt(line, f)
    ensures stop == -1 <==> Quote !in line[f + 5..]
    ensures stop == -1 ==> MakeSrcName(line) == Err(IndexOutOfBounds)
    ensures stop != -1 ==>
      && f + 5 <= stop < |line| && line[stop] == Quote && Quote !in line[f + 5..stop]
      && MakeSrcName(line) == Ok(line[f + 5..stop])
  {
    var lc := ToLower(line);
    FoundIsFirstToken(line);
    var found := IndexOf(lc, Token, 0);
    FirstTokenUnique(line, f, found);
    StopIsNextQuote(line, f + 5);
    stop := IndexOf(lc, [Quote], f + 5);
  }

  /** A capture that `getSourceUrls` keeps: it did not throw and is not empty
      (the source's `!= ""` test). */
  predicate Kept(c: Result<String>)
  {
    c.Ok? && c.value != []
  }

  /** The positions of the kept captures, in increasing order. */
  function KeptPositions(caps: seq<Result<String>>): (o: seq<nat>)
    ensures |o| <= |caps|
    ensures forall k :: 0 <= k < |o| ==> o[k] < |caps| && Kept(caps[o[k]])
    ensures forall k, l :: 0 <= k < l < |o| ==> o[k] < o[l]
  {
    if |caps| == 0 then []
    else
      var n := |caps| - 1;
      var prev := KeptPositions(caps[..n]);
      assert forall k :: 0 <= k < |prev| ==> caps[..n][prev[k]] == caps[prev[k]];
      prev + (if Kept(caps[n]) then [n] else [])
  }

  /** Every kept capture's position is listed. */
  lemma {:induction false} KeptPositionsComplete(caps: seq<Result<String>>, i: nat)
    requires i < |caps| && Kept(caps[i])
    ensures i in KeptPositions(caps)
    decreases |caps|
  {
    var n := |caps| - 1;
    if i < n {
      assert caps[..n][i] == caps[i];
      KeptPositionsComplete(caps[..n], i);
    }
  }

  /** The loop of `getSourceUrls` over the captures of the lines, in line
      order: kept captures are appended, the first capture that threw makes
      the whole extraction throw. */
  function Collect(caps: seq<Result<String>>): (r: Result<seq<String>>)
    ensures r.Err? <==> exists i :: 0 <= i < |caps| && caps[i].Err?
    ensures r.Err? ==> exists i :: 0 <= i < |caps| && caps[i] == Err(r.fault)
    ensures r.Ok? ==> |r.value| == |KeptPositions(caps)|
    ensures r.Ok? ==> forall k :: 0 <= k < |r.value| ==> r.value[k] == caps[KeptPositions(caps)[k]].value
  {
    if |caps| == 0 then Ok([])
    else
      var n := |caps| - 1;
      assert forall i :: 0 <= i < n ==> caps[..n][i] == caps[i];
      match Collect(caps[..n])
      case Err(e) => Err(e)
      case Ok(prev) =>
        match caps[n]
        case Err(e) => Err(e)
        case Ok(c) => Ok(prev + (if c == [] then [] else [c]))
  }

  /** The capture of every line, in line order. */
  function Captures(lines: seq<String>): (caps: seq<Result<String>>)
    ensures |caps| == |lines|
    ensures forall i :: 0 <= i < |lines| ==> caps[i] == MakeSrcName(lines[i])
  {
    seq(|lines|, i requires 0 <= i < |lines| => MakeSrcName(lines[i]))
  }

  /** `getSourceUrls(text)`: split the page on newlines the way Java's `split`
      does, and collect the kept captures of the lines in order. */
  function GetSourceUrls(text: String): (r: Result<seq<String>>)
    ensures r.Err? ==> r.fault == IndexOutOfBounds
  {
    Collect(Captures(JavaSplit(text, Newline)))
  }

  /** The references of a page: extraction throws exactly when some line has
      a token with no closing quote; otherwise there is at most one reference
      per line, each a non-empty capture of some line, and they are exactly
      the kept captures of the lines, in line order. */
  lemma {:induction false} GetSourceUrlsSpec(text: String)
    ensures var lines, r := JavaSplit(text, Newline), GetSourceUrls(text);
      r.Err? <==> exists i :: 0 <= i < |lines| && MakeSrcName(lines[i]).Err?
    ensures var lines, r := JavaSplit(text, Newline), GetSourceUrls(text);
      r.Ok? ==>
      && |r.value| <= |lines|
      && (forall k :: 0 <= k < |r.value| ==> r.value[k] != [])
      && (forall k :: 0 <= k < |r.value| ==> exists i :: 0 <= i < |lines| && MakeSrcName(lines[i]) == Ok(r.value[k]))
    ensures var lines, r := JavaSplit(text, Newline), GetSourceUrls(text);
      var o := KeptPositions(Captures(lines));
      r.Ok? ==> |r.value| == |o| && forall k :: 0 <= k < |o| ==> MakeSrcName(lines[o[k]]) == Ok(r.value[k])
  {
    var lines := JavaSplit(text, Newline);
    var caps := Captures(lines);
    var r := Collect(caps);
    if r.Ok? {
      assert forall k :: 0 <= k < |r.value| ==> caps[KeptPositions(caps)[k]] == Ok(r.value[k]);
    }
  }

  /** Captures that are `Ok("")` at the end of the list change nothing. */
  lemma {:induction false} CollectDropsEmptyTail(caps: seq<Result<String>>, m: nat)
    requires m <= |caps|
    requires forall i :: m <= i < |caps| ==> caps[i] == Ok([])
    ensures Collect(caps) == Collect(caps[..m])
    decreases |caps|
  {
    if |caps| > m {
      var n := |caps| - 1;
      assert caps[n] == Ok([]);
      match Collect(caps[..n]) {
        case Err(_) =>
        case Ok(prev) => assert prev + [] == prev;
      }
      assert Collect(caps) == Collect(caps[..n]);
      assert caps[..n][..m] == caps[..m];
      CollectDropsEmptyTail(caps[..n], m);
    } else {
      assert caps[..m] == caps;
    }
  }

  /** An empty line captures nothing. */
  lemma {:induction false} EmptyLineCapturesNothing()
    ensures MakeSrcName([]) == Ok([])
  {
    assert ToLower([]) == [];
  }

  /** Java's `split` drops trailing empty lines and keeps an empty page as one
      line; neither changes the references found, which are exactly those of
      the plain newline-separated lines. */
  lemma {:induction false} SplitQuirkInvisible(text: String)
    ensures GetSourceUrls(text) == Collect(Captures(Split(text, Newline)))
  {
    var parts := Split(text, Newline);
    var lines := JavaSplit(text, Newline);
    if Newline !in text {
      assert Join([text], Newline) == text;
      SplitUnique(text, Newline, [text]);
    } else {
      var m, caps := |lines|, Captures(parts);
      EmptyLineCapturesNothing();
      CapturesPrefix(parts, m);
      assert forall i :: m <= i < |caps| ==> caps[i] == MakeSrcName(parts[i]);
      CollectDropsEmptyTail(caps, m);
    }
  }

  /** The captures of the first `m` lines are the first `m` captures. */
  lemma {:induction false} CapturesPrefix(lines: seq<String>, m: nat)
    requires m <= |lines|
    ensures Captures(lines[..m]) == Captures(lines)[..m]
  {
    var head, all := Captures(lines[..m]), Captures(lines);
    forall i | 0 <= i < m
      ensures head[i] == all[i]
    {
      assert lines[..m][i] == lines[i];
    }
  }

  /** The converse reading of `MakeSrcNameSpec`: given the first token and the
      next quote after it, the capture is the text in between. */
  lemma {:induction false} CaptureBetween(line: String, f: nat, stop: nat)
    requires FirstTokenAt(line, f)
    requires f + 5 <= stop < |line| && line[stop] == Quote
    requires forall j :: f + 5 <= j < stop ==> line[j] != Quote
    ensures MakeSrcName(line) == Ok(line[f + 5..stop])
  {
    var s := TokenStop(line, f);
    assert line[f + 5..][stop - f - 5] == Quote;
  }

  /** A line made of a prefix with no `s` in either case, a token in some
      letter case, a quote-free value and a quote captures exactly the value,
      whatever follows. */
  lemma {:induction false} TaggedCapture(line: String, pre: String, tok: String, v: String, post: String)
    requires line == pre + tok + v + [Quote] + post
    requires |tok| == 5 && TokenAt(tok, 0)
    requires forall j :: 0 <= j < |pre| ==> pre[j] != 's' && pre[j] != 'S'
    requires forall k :: 0 <= k < |v| ==> v[k] != Quote
    ensures MakeSrcName(line) == Ok(v)
  {
    var f := |pre|;
    var stop := f + 5 + |v|;
    assert forall j :: 0 <= j < f ==> line[j] == pre[j];
    assert forall i :: 0 <= i < 5 ==> line[f + i] == tok[i];
    assert forall k :: 0 <= k < |v| ==> line[f + 5 + k] == v[k];
    assert line[stop] == Quote;
    assert TokenAt(line, f);
    assert FirstTokenAt(line, f);
    assert line[f + 5..stop] == v;
    CaptureBetween(line, f, stop);
  }

  /** First line of the extraction example: the upper-case token is matched
      and the value keeps its case. */
  lemma {:induction false} UpperCaseTokenExample(line: String)
    requires line == "<img SRC=\"a.png\">"
    ensures MakeSrcName(line) == Ok("a.png")
  {
    assert line == "<img " + "SRC=\"" + "a.png" + [Quote] + ">";
    TaggedCapture(line, "<img ", "SRC=\"", "a.png", ">");
  }

  /** Second line of the extraction example: no token, nothing captured. */
  lemma {:induction false} NoTokenExample(line: String)
    requires line == "no match here"
    ensures MakeSrcName(line) == Ok([])
  {
    assert forall i :: 0 <= i ==> !TokenAt(line, i);
    MakeSrcNameSpec(line);
  }

  /** Third line of the extraction example: the value stops at the first quote
      after the token although another attribute follows. */
  lemma {:induction false} TrailingAttributeExample(line: String)
    requires line == "<img src=\"b.jpg\" alt=\"x\">"
    ensures MakeSrcName(line) == Ok("b.jpg")
  {
    assert line == "<img " + Token + "b.jpg" + [Quote] + " alt=\"x\">";
    TaggedCapture(line, "<img ", Token, "b.jpg", " alt=\"x\">");
  }

  /** The extraction example end to end: three lines, two references, in order. */
  lemma {:induction false} ExtractionExample(a: String, b: String, c: String)
    requires a == "<img SRC=\"a.png\">" && b == "no match here" && c == "<img src=\"b.jpg\" alt=\"x\">"
    ensures GetSourceUrls(Join([a, b, c], Newline)) == Ok(["a.png", "b.jpg"])
  {
    var lines := [a, b, c];
    assert JavaSplit(Join(lines, Newline), Newline) == lines by {
      JavaSplitJoin(lines, Newline);
    }
    ExampleCaptures(a, b, c);
    CollectKeepsNonEmpty(Captures(lines), "a.png", "b.jpg");
  }

  /** The captures of the three example lines. */
  lemma {:induction false} ExampleCaptures(a: String, b: String, c: String)
    requires a == "<img SRC=\"a.png\">" && b == "no match here" && c == "<img src=\"b.jpg\" alt=\"x\">"
    ensures var caps := Captures([a, b, c]);
      |caps| == 3 && caps[0] == Ok("a.png") && caps[1] == Ok([]) && caps[2] == Ok("b.jpg")
  {
    UpperCaseTokenExample(a);
    NoTokenExample(b);
    TrailingAttributeExample(c);
  }

  /** Collecting a kept capture, an empty one and a kept one yields the two
      kept values in order. */
  lemma {:induction false} CollectKeepsNonEmpty(caps: seq<Result<String>>, a: String, b: String)
    requires a != [] && b != []
    requires |caps| == 3 && caps[0] == Ok(a) && caps[1] == Ok([]) && caps[2] == Ok(b)
    ensures Collect(caps) == Ok([a, b])
  {
    var o := KeptPositions(caps);
    KeptPositionsComplete(caps, 0);
    KeptPositionsComplete(caps, 2);
    assert forall k :: 0 <= k < |o| ==> o[k] == 0 || o[k] == 2;
    assert |o| == 2 && o[0] == 0 && o[1] == 2;
    assert forall i :: 0 <= i < |caps| ==> caps[i].Ok?;
    var r := Collect(caps);
    assert r.Ok? && |r.value| == 2;
    assert r.value[0] == a && r.value[1] == b;
    assert r.value == [a, b];
  }

  /** Only the first token of a line is used; a second one is ignored. */
  lemma {:induction false} FirstTokenOnlyExample(line: String)
    requires line == "<a src=\"x.png\"><b src=\"y.png\">"
    ensures MakeSrcName(line) == Ok("x.png")
  {
    assert FirstTokenAt(line, 3);
    assert line[13] == Quote;
    assert forall j :: 8 <= j < 13 ==> line[j] != Quote;
    assert line[8..13] == "x.png" by {
      assert |line[8..13]| == 5;
      assert forall k :: 0 <= k < 5 ==> line[8..13][k] == "x.png"[k];
    }
    CaptureBetween(line, 3, 13);
  }

  /** A token with no closing quote on its line makes the capture throw. */
  lemma {:induction false} UnclosedTokenExample(line: String)
    requires line == "<img src=\"a.png"
    ensures MakeSrcName(line) == Err(IndexOutOfBounds)
  {
    assert FirstTokenAt(line, 5);
    MakeSrcNameSpec(line);
  }
}
