/** The string side of `saveResource` and `makeAbsoluteURL` (Proj4.java:93-167,
    204-211): how an address is classified, which address is fetched, which
    local files are written, and whether the body is handed back. The transfer
    itself (network, files, `java.net.URL`/`URI` parsing) is an environment
    that answers success with a body, or failure. */
module Fetch {
  import opened Outcomes
  import opened JavaStrings

  const Scheme: String := "http://"
  const Slash: char := '/'

  /** An address is absolute when `http://` occurs anywhere in it
      (`indexOf("http://") != -1`), not only at its start. */
  function IsAbsolute(url: String): (b: bool)
    ensures b <==> exists i :: OccursAt(url, Scheme, i)
  {
    IndexOf(url, Scheme, 0) != -1
  }

  /** The string `makeAbsoluteURL(s, page)` hands to `new URL`: the page
      address up to and including its last `/`, followed by `s`. */
  function MakeAbsoluteUrl(s: String, page: String): (r: String)
    ensures |s| <= |r| <= |page| + |s|
    ensures r[|r| - |s|..] == s
    ensures r[..|r| - |s|] == page[..|r| - |s|]
    ensures |r| > |s| ==> r[|r| - |s| - 1] == Slash
    ensures Slash !in page[|r| - |s|..]
    ensures Slash !in page ==> r == s
  {
    var d := LastIndexOf(page, Slash);
    page[..d + 1] + s
  }

  /** The name of an absolute address: `urlString.substring(lastIndexOf('/') + 1)`,
      the text after its last `/`. */
  function AbsoluteName(url: String): (name: String)
    ensures Slash !in name
    ensures |name| <= |url| && url[|url| - |name|..] == name
    ensures |name| < |url| ==> url[|url| - |name| - 1] == Slash
    ensures Slash !in url ==> name == url
  {
    var d := LastIndexOf(url, Slash);
    url[d + 1..]
  }

  /** An absolute address always has a `/` (its scheme has two), so it
      ends in a `/` followed by its name. */
  lemma {:induction false} AbsoluteAddressEndsInName(url: String)
    requires IsAbsolute(url)
    ensures |AbsoluteName(url)| < |url|
    ensures url[|url| - |AbsoluteName(url)| - 1..] == [Slash] + AbsoluteName(url)
  {
    var i :| OccursAt(url, Scheme, i);
    assert url[i + 5] == Slash by {
      assert url[i..i + 7][5] == Scheme[5];
    }
    var name := AbsoluteName(url);
    var k := |url| - |name|;
    assert url[k - 1..] == [url[k - 1]] + url[k..];
  }

  /** The address with every `/` at its end removed, as `java.io.File`
      normalises a path. */
  function TrimTrailingSlashes(path: String): (q: String)
    ensures |q| <= |path| && q == path[..|q|]
    ensures forall j :: |q| <= j < |path| ==> path[j] == Slash
    ensures q == [] || q[|q| - 1] != Slash
  {
    if |path| > 0 && path[|path| - 1] == Slash then TrimTrailingSlashes(path[..|path| - 1])
    else path
  }

  /** Two `/` in a row at index `j` of `s`. */
  predicate DoubleSlashAt(s: String, j: int)
  {
    0 <= j && j + 1 < |s| && s[j] == Slash && s[j + 1] == Slash
  }

  /** `s` with every run of `/` shortened to a single `/`; its first and last
      characters are kept. */
  function CollapseSlashes(s: String): (r: String)
    ensures |r| <= |s|
    ensures |s| > 0 ==> |r| > 0 && r[0] == s[0] && r[|r| - 1] == s[|s| - 1]
  {
    if |s| <= 1 then s
    else
      var init, c := CollapseSlashes(s[..|s| - 1]), s[|s| - 1];
      if c == Slash && s[|s| - 2] == Slash then init else init + [c]
  }

  /** Collapsing leaves no two `/` in a row. */
  lemma {:induction false} CollapseLeavesSingles(s: String)
    ensures forall j :: 0 <= j < |CollapseSlashes(s)| ==> !DoubleSlashAt(CollapseSlashes(s), j)
    decreases |s|
  {
    if |s| > 1 {
      var init, c := CollapseSlashes(s[..|s| - 1]), s[|s| - 1];
      CollapseLeavesSingles(s[..|s| - 1]);
      if !(c == Slash && s[|s| - 2] == Slash) {
        var r := init + [c];
        assert CollapseSlashes(s) == r;
        assert init[|init| - 1] == s[|s| - 2];
        forall j | 0 <= j < |r|
          ensures !DoubleSlashAt(r, j)
        {
          if j < |init| - 1 {
            assert !DoubleSlashAt(init, j);
          }
        }
      } else {
        assert CollapseSlashes(s) == init;
      }
    }
  }

  /** A path with no doubled `/` is left alone by collapsing. */
  lemma {:induction false} CollapseKeepsSingle(s: String)
    requires forall j :: 0 <= j < |s| ==> !DoubleSlashAt(s, j)
    ensures CollapseSlashes(s) == s
    decreases |s|
  {
    if |s| > 1 {
      var init := s[..|s| - 1];
      assert forall j :: 0 <= j < |init| ==> DoubleSlashAt(init, j) == DoubleSlashAt(s, j);
      CollapseKeepsSingle(init);
      assert !DoubleSlashAt(s, |s| - 2);
      assert s == init + [s[|s| - 1]];
    }
  }

  /** `new File(path).toString()` on a `/`-separated file system: `java.io.File`
      drops trailing `/`s (keeping a lone `/` for a path of nothing but `/`s)
      and collapses doubled `/`s. */
  function FilePath(path: String): (r: String)
    ensures r == [] <==> path == []
  {
    var q := TrimTrailingSlashes(path);
    if q == [] then (if path == [] then [] else [Slash]) else CollapseSlashes(q)
  }

  /** The `java.io.File` path has no doubled `/` and ends in `/` only when it
      is the lone `/`. */
  lemma {:induction false} FilePathIsNormal(path: String)
    ensures forall j :: 0 <= j < |FilePath(path)| ==> !DoubleSlashAt(FilePath(path), j)
    ensures var r := FilePath(path); r == [Slash] || r == [] || r[|r| - 1] != Slash
  {
    var q := TrimTrailingSlashes(path);
    if q != [] {
      CollapseLeavesSingles(q);
      assert FilePath(path) == CollapseSlashes(q);
    }
  }

  /** A path already in normal form is its own `java.io.File` path, so
      normalising twice changes nothing. */
  lemma {:induction false} FilePathKeepsNormal(path: String)
    requires forall j :: 0 <= j < |path| ==> !DoubleSlashAt(path, j)
    requires path == [Slash] || path == [] || path[|path| - 1] != Slash
    ensures FilePath(path) == path
    ensures FilePath(FilePath(path)) == FilePath(path)
  {
    if path != [] && path[|path| - 1] != Slash {
      assert TrimTrailingSlashes(path) == path;
      CollapseKeepsSingle(path);
    }
  }

  /** Normalising is idempotent. */
  lemma {:induction false} FilePathIdempotent(path: String)
    ensures FilePath(FilePath(path)) == FilePath(path)
  {
    FilePathIsNormal(path);
    FilePathKeepsNormal(FilePath(path));
  }

  /** `new File(path).getName()` on a `/`-separated file system: the text
      after the last `/` once trailing `/`s are removed (doubled `/`s do not
      matter to the last component, as `FileNameIsGetName` shows). */
  function FileName(path: String): (name: String)
    ensures Slash !in name
  {
    AbsoluteName(TrimTrailingSlashes(path))
  }

  /** A name ending in `/` has an empty last component; otherwise appending a
      character extends the last component. */
  lemma {:induction false} AbsoluteNameSnoc(s: String, c: char)
    ensures AbsoluteName(s + [c]) == if c == Slash then [] else AbsoluteName(s) + [c]
  {
    assert (s + [c])[..|s|] == s;
    if c != Slash {
      var d := LastIndexOf(s, Slash);
      assert (s + [c])[d + 1..] == s[d + 1..] + [c];
    }
  }

  /** Collapsing `/` runs keeps the text after the last `/`. */
  lemma {:induction false} NameAfterCollapse(s: String)
    ensures AbsoluteName(CollapseSlashes(s)) == AbsoluteName(s)
    decreases |s|
  {
    if |s| > 1 {
      var init, c := s[..|s| - 1], s[|s| - 1];
      assert s == init + [c];
      NameAfterCollapse(init);
      AbsoluteNameSnoc(init, c);
      if c == Slash && s[|s| - 2] == Slash {
        var r := CollapseSlashes(init);
        assert r == r[..|r| - 1] + [Slash];
        AbsoluteNameSnoc(r[..|r| - 1], Slash);
      } else {
        AbsoluteNameSnoc(CollapseSlashes(init), c);
      }
    }
  }

  /** The file name is the last non-empty component of the path: empty only
      when the path is nothing but `/`s, otherwise a `/`-free tail of the
      trimmed path that starts the path or follows a `/`. */
  lemma {:induction false} FileNameSpec(path: String)
    ensures FileName(path) == [] <==> forall j :: 0 <= j < |path| ==> path[j] == Slash
    ensures var q, name := TrimTrailingSlashes(path), FileName(path);
      && |name| <= |q| && q[|q| - |name|..] == name
      && (|name| < |q| ==> q[|q| - |name| - 1] == Slash)
  {
  }

  /** The file name is what `getName` reads off the `java.io.File` path: the
      text after the last `/` of the normalised path. */
  lemma {:induction false} FileNameIsGetName(path: String)
    ensures FileName(path) == AbsoluteName(FilePath(path))
  {
    var q := TrimTrailingSlashes(path);
    if q == [] {
      AllSlashesGetName(path);
    } else {
      PlainGetName(path);
    }
  }

  /** `FileNameIsGetName` for a path of nothing but `/`s. */
  lemma {:induction false} AllSlashesGetName(path: String)
    requires TrimTrailingSlashes(path) == []
    ensures FileName(path) == [] && AbsoluteName(FilePath(path)) == []
  {
    if path != [] {
      assert FilePath(path) == [Slash];
      assert LastIndexOf([Slash], Slash) == 0;
    }
  }

  /** `FileNameIsGetName` for a path with a character other than `/`. */
  lemma {:induction false} PlainGetName(path: String)
    requires TrimTrailingSlashes(path) != []
    ensures FileName(path) == AbsoluteName(FilePath(path))
  {
    var q := TrimTrailingSlashes(path);
    assert FilePath(path) == CollapseSlashes(q);
    NameAfterCollapse(q);
  }

  /** `file.getName()` of a normalised path is the name of the original. */
  lemma {:induction false} NameOfFilePath(path: String)
    ensures FileName(FilePath(path)) == FileName(path)
  {
    FilePathIdempotent(path);
    FileNameIsGetName(path);
    FileNameIsGetName(FilePath(path));
  }

  /** Appending one character to a non-empty path: a second `/` in a row is
      dropped, anything else is kept. */
  lemma {:induction false} CollapseSnoc(s: String, c: char)
    requires |s| > 0
    ensures CollapseSlashes(s + [c]) ==
      if c == Slash && s[|s| - 1] == Slash then CollapseSlashes(s) else CollapseSlashes(s) + [c]
  {
    assert (s + [c])[..|s|] == s;
  }

  /** Appending a `/`-free text appends it to the collapsed path. */
  lemma {:induction false} CollapseAppendPlain(s: String, t: String)
    requires |s| > 0 && Slash !in t
    ensures CollapseSlashes(s + t) == CollapseSlashes(s) + t
    decreases |t|
  {
    if |t| > 0 {
      var u, c := t[..|t| - 1], t[|t| - 1];
      assert t == u + [c];
      assert s + t == (s + u) + [c];
      assert c != Slash by { assert t[|t| - 1] in t; }
      CollapseAppendPlain(s, u);
      CollapseSnoc(s + u, c);
    } else {
      assert s + t == s;
    }
  }

  /** Collapsing distributes over concatenation: the two halves collapse on
      their own, and where a `/` ends the first and another starts the second,
      the second's leading `/` is dropped. Together with `CollapseKeepsSingle`
      on single characters this fixes the collapsed text of every path. */
  lemma {:induction false} CollapseConcat(s: String, t: String)
    requires |s| > 0
    ensures CollapseSlashes(s + t) == Glued(s, t)
    decreases |t|
  {
    if |t| == 0 {
      assert s + t == s;
    } else {
      var u, c := t[..|t| - 1], t[|t| - 1];
      assert t == u + [c];
      if |u| == 0 {
        CollapseConcatOne(s, c);
      } else {
        CollapseConcat(s, u);
        CollapseConcatStep(s, u, c);
      }
    }
  }

  /** The right-hand side of `CollapseConcat`: the collapsed halves, without
      the second's leading `/` when a `/` ends the first. */
  function Glued(s: String, t: String): String
    requires |s| > 0
  {
    if |t| > 0 && s[|s| - 1] == Slash && t[0] == Slash
    then CollapseSlashes(s) + CollapseSlashes(t)[1..]
    else CollapseSlashes(s) + CollapseSlashes(t)
  }

  /** `CollapseConcat` for a one-character second half. */
  lemma {:induction false} CollapseConcatOne(s: String, c: char)
    requires |s| > 0
    ensures CollapseSlashes(s + [c]) == Glued(s, [c])
  {
    CollapseSnoc(s, c);
    assert CollapseSlashes([c]) == [c];
  }

  /** One step of `CollapseConcat`: extending the second half by a character. */
  lemma {:induction false} CollapseConcatStep(s: String, u: String, c: char)
    requires |s| > 0 && |u| > 0
    requires CollapseSlashes(s + u) == Glued(s, u)
    ensures CollapseSlashes(s + (u + [c])) == Glued(s, u + [c])
  {
    var su, t := s + u, u + [c];
    assert s + t == su + [c];
    assert su[|su| - 1] == u[|u| - 1];
    assert t[0] == u[0];
    CollapseSnoc(su, c);
    CollapseSnoc(u, c);
    GlueAppend(CollapseSlashes(s), CollapseSlashes(u), c,
      s[|s| - 1] == Slash && u[0] == Slash, c == Slash && u[|u| - 1] == Slash);
  }

  /** The sequence algebra behind `CollapseConcatStep`: dropping or keeping
      one appended character commutes with gluing two texts. */
  lemma {:induction false} GlueAppend(a: String, b: String, c: char, joined: bool, dropped: bool)
    requires |b| > 0
    ensures var x := if joined then a + b[1..] else a + b;
      var b' := if dropped then b else b + [c];
      (if dropped then x else x + [c]) == (if joined then a + b'[1..] else a + b')
  {
    assert (b + [c])[1..] == b[1..] + [c];
  }

  /** `java.io.File` turns `img//a.png` into `img/a.png`, and the copy is
      still named `a.png`. */
  lemma {:induction false} DoubledSlashExample(path: String)
    requires path == "img//a.png"
    ensures FilePath(path) == "img/a.png" && FileName(path) == "a.png"
  {
    assert TrimTrailingSlashes(path) == path;
    var head := path[..5];
    assert path == head + "a.png";
    CollapseDoubledEnd(head);
    CollapseAppendPlain(head, "a.png");
    assert LastIndexOf(path, Slash) == 4;
  }

  /** `img//` collapses to `img/`. */
  lemma {:induction false} CollapseDoubledEnd(head: String)
    requires head == "img//"
    ensures CollapseSlashes(head) == "img/"
  {
    assert head == "img/" + [Slash];
    CollapseKeepsSingle("img/");
    CollapseSnoc("img/", Slash);
  }

  /** `java.io.File` turns `img/` into `img`, and the copy is named `img`. */
  lemma {:induction false} TrailingSlashExample(path: String)
    requires path == "img/"
    ensures FilePath(path) == "img" && FileName(path) == "img"
  {
    assert TrimTrailingSlashes(path) == "img";
    CollapseKeepsSingle("img");
  }

  /** The plain relative reference `img/a.png` is stored as `a.png`. */
  lemma {:induction false} FileNameExample(path: String)
    requires path == "img/a.png"
    ensures FileName(path) == "a.png"
  {
    assert TrimTrailingSlashes(path) == path;
    assert LastIndexOf(path, Slash) == 3;
  }

  /** What one `saveResource(dir, url, page)` call does, short of the
      transfer: the address it hands to `new URL` (re-encoded through `URI`
      before it is opened), the flat file it writes in the working directory,
      the copy it makes inside `dir`, and whether the body is fetched again
      and returned (only when `page` is empty, the root fetch). */
  datatype Plan = Plan(address: String, flatFile: String, storedFile: String, returnsBody: bool)

  /** Proj4.java:101-114, 137-138, 153: the classification picks the address
      and the `java.io.File` written flat; the stored copy is `dir/` plus that
      file's name. */
  function PlanSave(dir: String, url: String, page: String): Plan
  {
    if IsAbsolute(url) then AbsolutePlan(dir, url, page) else RelativePlan(dir, url, page)
  }

  /** An absolute address is handed over as given and written under its name. */
  function AbsolutePlan(dir: String, url: String, page: String): Plan
  {
    var name := AbsoluteName(url);
    Plan(url, FilePath(name), dir + [Slash] + FileName(name), page == [])
  }

  /** A relative address is resolved against the page and written under its
      own (normalised) path; the copy is named after its last component. */
  function RelativePlan(dir: String, url: String, page: String): Plan
  {
    Plan(MakeAbsoluteUrl(url, page), FilePath(url), dir + [Slash] + FileName(url), page == [])
  }

  /** What one `saveResource` call writes and which address it hands over:
      the stored copy lies directly inside `dir` (no sub-directory) and is
      named after the flat file; an absolute address is handed over as given
      and both files are named after the text following its last `/`; a
      relative one is written flat under its own path as `java.io.File`
      normalises it, its copy is named after that path's last component, and
      it is handed over resolved against the page address; the body is
      fetched again and kept only for the root fetch. */
  lemma {:induction false} PlanSaveSpec(dir: String, url: String, page: String)
    ensures var p := PlanSave(dir, url, page);
      && |p.storedFile| > |dir| && p.storedFile[..|dir| + 1] == dir + [Slash]
      && Slash !in p.storedFile[|dir| + 1..]
      && p.storedFile == dir + [Slash] + FileName(p.flatFile)
    ensures var p := PlanSave(dir, url, page);
      IsAbsolute(url) ==>
      && p.address == url
      && var name := p.storedFile[|dir| + 1..];
         && p.flatFile == name
         && |name| < |url| && url[|url| - |name| - 1..] == [Slash] + name
    ensures var p := PlanSave(dir, url, page);
      !IsAbsolute(url) ==>
      && p.flatFile == FilePath(url)
      && p.storedFile == dir + [Slash] + FileName(url)
      && p.address == MakeAbsoluteUrl(url, page)
    ensures PlanSave(dir, url, page).returnsBody <==> page == []
  {
    if IsAbsolute(url) {
      AbsolutePlanSpec(dir, url, page);
    } else {
      RelativePlanSpec(dir, url, page);
    }
  }

  /** `PlanSaveSpec` for an absolute address. */
  lemma {:induction false} AbsolutePlanSpec(dir: String, url: String, page: String)
    requires IsAbsolute(url)
    ensures var p := AbsolutePlan(dir, url, page);
      && p.address == url
      && p.storedFile == dir + [Slash] + FileName(p.flatFile)
      && |p.storedFile| > |dir| && p.storedFile[..|dir| + 1] == dir + [Slash]
      && var name := p.storedFile[|dir| + 1..];
         && p.flatFile == name
         && Slash !in name && |name| < |url| && url[|url| - |name| - 1..] == [Slash] + name
  {
    var name := AbsoluteName(url);
    AbsoluteAddressEndsInName(url);
    NoSlashIsItsOwnFile(name);
    StoredInside(dir, name);
  }

  /** A `/`-free name is its own `java.io.File` path and its own file name. */
  lemma {:induction false} NoSlashIsItsOwnFile(name: String)
    requires Slash !in name
    ensures FilePath(name) == name && FileName(name) == name
  {
    FilePathKeepsNormal(name);
    assert LastIndexOf(name, Slash) == -1;
  }

  /** `PlanSaveSpec` for a relative address. */
  lemma {:induction false} RelativePlanSpec(dir: String, url: String, page: String)
    ensures var p := RelativePlan(dir, url, page);
      && p.flatFile == FilePath(url)
      && p.storedFile == dir + [Slash] + FileName(p.flatFile)
      && p.address == MakeAbsoluteUrl(url, page)
      && |p.storedFile| > |dir| && p.storedFile[..|dir| + 1] == dir + [Slash]
      && Slash !in p.storedFile[|dir| + 1..]
  {
    NameOfFilePath(url);
    StoredInside(dir, FileName(url));
  }

  /** The stored copy has an empty name exactly when the flat file is `""` or
      `/`: an absolute address ending in `/`, or a relative reference made of
      nothing but `/`s. Writing such a flat file fails in Java, so the
      environment's outcome for these plans stands for that failure. */
  lemma {:induction false} EmptyNamePlan(dir: String, url: String, page: String)
    ensures var p := PlanSave(dir, url, page);
      p.storedFile == dir + [Slash] <==> p.flatFile == [] || p.flatFile == [Slash]
    ensures IsAbsolute(url) ==>
      (PlanSave(dir, url, page).flatFile == [] <==> url[|url| - 1] == Slash)
    ensures !IsAbsolute(url) ==>
      (PlanSave(dir, url, page).storedFile == dir + [Slash] <==> forall j :: 0 <= j < |url| ==> url[j] == Slash)
  {
    if IsAbsolute(url) {
      AbsoluteEmptyName(dir, url, page);
    } else {
      RelativeEmptyName(dir, url, page);
    }
  }

  /** `EmptyNamePlan` for an absolute address. */
  lemma {:induction false} AbsoluteEmptyName(dir: String, url: String, page: String)
    requires IsAbsolute(url)
    ensures var p := AbsolutePlan(dir, url, page);
      && (p.flatFile == [] <==> url[|url| - 1] == Slash)
      && (p.storedFile == dir + [Slash] <==> p.flatFile == [] || p.flatFile == [Slash])
  {
    var name := AbsoluteName(url);
    AbsoluteAddressEndsInName(url);
    NoSlashIsItsOwnFile(name);
    if name != [] {
      assert url[|url| - 1] == name[|name| - 1];
      assert name[|name| - 1] in name;
    }
    if (dir + [Slash] + name) == dir + [Slash] {
      assert |name| == 0;
    }
  }

  /** `EmptyNamePlan` for a relative reference. */
  lemma {:induction false} RelativeEmptyName(dir: String, url: String, page: String)
    ensures var p := RelativePlan(dir, url, page);
      && (p.storedFile == dir + [Slash] <==> forall j :: 0 <= j < |url| ==> url[j] == Slash)
      && (p.storedFile == dir + [Slash] <==> p.flatFile == [] || p.flatFile == [Slash])
  {
    var name := FileName(url);
    FileNameSpec(url);
    FileNameIsGetName(url);
    if (dir + [Slash] + name) == dir + [Slash] {
      assert |name| == 0;
      AllSlashesPath(url);
    }
    if FilePath(url) == [Slash] {
      assert LastIndexOf([Slash], Slash) == 0;
    }
  }

  /** A site root such as `http://h/` has an empty name: its flat file is
      `""`, so Java's write of it fails. */
  lemma {:induction false} SiteRootExample(dir: String, url: String)
    requires url == "http://h/"
    ensures IsAbsolute(url)
    ensures PlanSave(dir, url, []).flatFile == [] && PlanSave(dir, url, []).storedFile == dir + [Slash]
  {
    SiteRootIsAbsolute(url);
    DirectoryAddressEmptyName(dir, url, []);
  }

  /** `http://h/` contains the scheme and ends in `/`. */
  lemma {:induction false} SiteRootIsAbsolute(url: String)
    requires url == "http://h/"
    ensures IsAbsolute(url) && url[|url| - 1] == Slash
  {
    assert url[0..7] == Scheme;
    assert OccursAt(url, Scheme, 0);
  }

  /** An absolute address ending in `/` is written flat as `""`, with an empty
      stored name. */
  lemma {:induction false} DirectoryAddressEmptyName(dir: String, url: String, page: String)
    requires IsAbsolute(url) && url[|url| - 1] == Slash
    ensures PlanSave(dir, url, page).flatFile == []
    ensures PlanSave(dir, url, page).storedFile == dir + [Slash]
  {
    EmptyNamePlan(dir, url, page);
  }

  /** A non-empty path of nothing but `/`s is the `java.io.File` path `/`. */
  lemma {:induction false} AllSlashesPath(path: String)
    requires forall j :: 0 <= j < |path| ==> path[j] == Slash
    ensures FilePath(path) == if path == [] then [] else [Slash]
  {
    FileNameSpec(path);
  }

  /** `dir + "/" + name` lies directly inside `dir`. */
  lemma {:induction false} StoredInside(dir: String, name: String)
    ensures (dir + [Slash] + name)[..|dir| + 1] == dir + [Slash]
    ensures (dir + [Slash] + name)[|dir| + 1..] == name
  {
  }

  /** What the network and file system did with one `saveResource` call. */
  datatype Outcome = Fetched(body: String) | Failed

  /** The environment: the outcome of carrying out a plan. */
  type Environment = Plan -> Outcome

  /** Carrying out a plan: throws when the transfer fails; otherwise hands
      back the body when the plan keeps it, and null otherwise. */
  function Perform(plan: Plan, env: Environment): (r: Result<Option<String>>)
    ensures r.Err? <==> env(plan).Failed?
    ensures r.Err? ==> r.fault == FetchFailed
    ensures r.Ok? ==> (r.value.Some? <==> plan.returnsBody)
    ensures r.Ok? && r.value.Some? ==> r.value.value == env(plan).body
  {
    match env(plan)
    case Failed => Err(FetchFailed)
    case Fetched(body) => Ok(if plan.returnsBody then Some(body) else None)
  }

  /** `saveResource(dir, url, page)`: throws when the transfer fails; otherwise
      returns the fetched body for a root fetch (`page` empty) and null for an
      asset fetch. */
  function SaveResource(dir: String, url: String, page: String, env: Environment): (r: Result<Option<String>>)
    ensures r.Err? <==> env(PlanSave(dir, url, page)).Failed?
    ensures r.Ok? ==> (r.value.Some? <==> page == [])
    ensures r.Ok? && r.value.Some? ==> r.value.value == env(PlanSave(dir, url, page)).body
  {
    Perform(PlanSave(dir, url, page), env)
  }

  /** `http://` in the middle of an address still makes it absolute, and its
      name is still what follows the last `/`. */
  lemma {:induction false} AbsoluteAnywhereExample(url: String)
    requires url == "x?u=http://h/c.png"
    ensures IsAbsolute(url) && AbsoluteName(url) == "c.png"
  {
    assert OccursAt(url, Scheme, 4) by {
      assert url[4..11] == Scheme;
    }
    assert url[12] == Slash;
    assert url[13..] == "c.png";
  }
}
