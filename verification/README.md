# Proj4 page-and-asset downloader, modelled in Dafny

`Proj4.java` is a batch downloader. For each address on its command line it
makes a directory named after the address's hash, then fetches the page, then
scans the page line by line for `src="..."` references. Last, it fetches each
reference into the same directory. This project models the deterministic core
of that pipeline as pure Dafny functions over strings (`seq<char>`) and proves
what each step promises:

- `java_strings.dfy` (module `JavaStrings`): the `String` operations the
  program relies on. These are `indexOf`, `lastIndexOf`, ASCII `toLowerCase`
  and `split("\n")` with Java's trailing-empty rule.
- `extract.dfy` (module `Extract`): the reference extractor, `makeSrcName`
  and `getSourceUrls`.
- `fetch.dfy` (module `Fetch`): the string side of `saveResource` and
  `makeAbsoluteURL`. It covers how an address is classified, which address
  is opened, and which files are written, with the path normalisation
  `java.io.File` applies. It also says whether the body is returned.
- `dir_name.dfy` (module `DirName`): the directory name
  `Integer.toHexString(s.hashCode())`.
- `outcomes.dfy` (module `Outcomes`): `Option`/`Result`, and the exceptions
  the model tells apart.
- `driver.dfy` (module `Driver`): `main`. It covers the order of the work for
  each address, the abort at the first failure, and the exit code. The body
  of the per-address `try` is `ProcessInto(dir, url, env)`, stated for any
  directory name `dir`; `ProcessAddress` applies it to the name `mkdir`
  computes, `DirectoryName(url)`.

The network, the file system and `java.net.URL`/`URI` parsing are one
parameter, an `Environment`. It maps a `Plan` (what one `saveResource` call
opens and writes) to `Fetched(body)` or `Failed`. Each `saveResource` call is
recorded as an event whether or not it succeeds, and so is each directory
creation.

One `try` covers the whole per-address body (Proj4.java:52-63). The first
failed save therefore abandons the rest of that address, including any assets
not yet fetched, and `main` moves on to the next address.
`SaveAllStops` and `ProcessIntoSpec` state that behaviour.

## Model

| member | source | states |
|---|---|---|
| JavaStrings.IndexOf | Proj4.java:223-224 | `indexOf(pat, from)` is -1 exactly when `pat` occurs nowhere at or after `from`; otherwise it is an occurrence at or after `from` with none before it |
| JavaStrings.LastIndexOf | Proj4.java:207 | `lastIndexOf('/', length)` is -1 exactly when the character is absent; otherwise that index holds it and nothing after does |
| JavaStrings.Split | Proj4.java:183 | the pieces contain no separator and join back, with the separator between them, to the original text |
| JavaStrings.SplitUnique | Proj4.java:183 | any separator-free pieces that join back to the text are exactly the split of the text (split is the inverse of join) |
| JavaStrings.JavaSplit | Proj4.java:183 | Java's `split("\n")`: the whole text as one piece when there is no newline; otherwise the plain split minus only empty trailing pieces, ending in a non-empty piece |
| JavaStrings.JavaSplitJoin | Proj4.java:183 | Java's split undoes join when no piece has a newline and the last piece is non-empty |
| JavaStrings.ToLower | Proj4.java:222 | `toLowerCase` restricted to ASCII letters: the length is kept and each character is mapped through `LowerChar`, so an index into the lower-cased copy is an index into the original |
| Extract.LowerTokenAt | Proj4.java:222-223 | finding `src="` in the lower-cased copy is the same as finding `src="` in any letter case in the original line |
| Extract.FoundIsFirstToken | Proj4.java:222-223 | the search result is -1 exactly when no token in any case occurs; otherwise it is the first token |
| Extract.StopIsNextQuote | Proj4.java:224 | the second search finds the next quote of the original line, and -1 exactly when no quote follows |
| Extract.MakeSrcName | Proj4.java:219-231 | a capture fails only with the out-of-bounds exception, and a successful capture is shorter than the line or empty |
| Extract.MakeSrcNameSpec | Proj4.java:222-230 | no token gives ""; with a first token at `f`, the capture fails exactly when no quote follows; otherwise it is the original-case text from `f+5` up to the next quote, and contains no quote |
| Extract.TokenStop | Proj4.java:223-228 | with the first token at `f`, the quote search from `f+5` is -1 exactly when no quote follows, and then `substring` throws; otherwise it is the next quote and the capture is the text up to it |
| Extract.CaptureBetween | Proj4.java:223-228 | the converse: given the first token and the next quote after it, the capture is exactly the text between them |
| Extract.TaggedCapture | Proj4.java:219-231 | a line made of a prefix without `s`/`S`, a token in any letter case, a quote-free value and a quote captures exactly that value, whatever follows |
| Extract.KeptPositions | Proj4.java:186 | positions of lines whose capture succeeded and is non-empty, in strictly increasing order, never more than the lines |
| Extract.KeptPositionsComplete | Proj4.java:186 | every line whose capture succeeded and is non-empty is among the kept positions |
| Extract.Collect | Proj4.java:184-189 | the loop throws exactly when some line's capture throws; otherwise its output is, position by position, the captures of the kept lines in line order |
| Extract.GetSourceUrls | Proj4.java:179-190 | extraction can only fail with the out-of-bounds exception of a capture |
| Extract.GetSourceUrlsSpec | Proj4.java:181-189 | fails exactly when some line's capture fails; otherwise at most one reference per line, all non-empty, each the capture of some line, exactly the kept captures in line order |
| Extract.CollectDropsEmptyTail | Proj4.java:184-188 | empty captures at the end of the list add nothing |
| Extract.EmptyLineCapturesNothing | Proj4.java:229-230 | an empty line has no token and captures "" |
| Extract.SplitQuirkInvisible | Proj4.java:182-189 | Java's dropping of trailing empty lines does not change the references: they equal those of the plain newline split |
| Extract.UpperCaseTokenExample | Proj4.java:221-228 | `SRC="` in upper case is found through the lower-cased copy, and the value keeps its original case |
| Extract.NoTokenExample | Proj4.java:225-230 | a line with no token captures "" |
| Extract.TrailingAttributeExample | Proj4.java:223-228 | the capture stops at the first quote after the token, before later attributes |
| Extract.ExtractionExample | Proj4.java:179-190 | lines `<img SRC="a.png">`, `no match here`, `<img src="b.jpg" alt="x">` give exactly `a.png`, `b.jpg` |
| Extract.FirstTokenOnlyExample | Proj4.java:223-228 | a line with two `src="` tokens yields only the first value |
| Extract.UnclosedTokenExample | Proj4.java:224-227 | a token with no closing quote makes the capture throw |
| Fetch.IsAbsolute | Proj4.java:101-103 | an address is absolute exactly when `http://` occurs somewhere in it |
| Fetch.MakeAbsoluteUrl | Proj4.java:207-209 | the resolved text is a prefix of the page address followed by the relative text; the prefix is empty or ends in `/`, and the page has no `/` after it, so a page without `/` leaves the reference unchanged |
| Fetch.AbsoluteName | Proj4.java:111-112 | the name has no `/`, is a suffix of the address, and follows a `/` unless the address has none |
| Fetch.AbsoluteAddressEndsInName | Proj4.java:101-113 | an absolute address always contains a `/`, so it is some text, then `/`, then its name |
| Fetch.CollapseSlashes | Proj4.java:125 | collapsing never lengthens the path and keeps its first and last characters |
| Fetch.CollapseConcat | Proj4.java:125 | collapsing a concatenation collapses each half and drops the second half's leading `/` when a `/` ends the first; with single characters left alone, this fixes the content of every collapsed path |
| Fetch.CollapseLeavesSingles | Proj4.java:125 | collapsing leaves no two `/` in a row |
| Fetch.CollapseKeepsSingle | Proj4.java:125 | a path without a doubled `/` is unchanged by collapsing |
| Fetch.FilePath | Proj4.java:125 | the path `new File(urlString).toString()` writes is empty exactly when the reference is; its content is the trimmed reference with `/` runs collapsed, as `CollapseConcat` pins down |
| Fetch.FilePathIsNormal | Proj4.java:125 | that path has no doubled `/` and ends in `/` only when it is the lone `/` |
| Fetch.FilePathKeepsNormal | Proj4.java:125 | a path already in that normal form is its own `java.io.File` path |
| Fetch.FilePathIdempotent | Proj4.java:125 | normalising a normalised path changes nothing |
| Fetch.FileName | Proj4.java:138 | `file.getName()` contains no `/` |
| Fetch.NameAfterCollapse | Proj4.java:138 | collapsing `/` runs does not change the text after the last `/` |
| Fetch.FileNameIsGetName | Proj4.java:138 | the stored name is `getName` of the normalised path: the text after its last `/` |
| Fetch.NameOfFilePath | Proj4.java:125-138 | the flat file's own name is the name of the reference it came from |
| Fetch.CollapseAppendPlain | Proj4.java:125 | appending `/`-free text to a non-empty path appends it to the collapsed path |
| Fetch.FileNameSpec | Proj4.java:138 | the stored name is empty only for an all-`/` path; otherwise it is the last component of the path once trailing `/`s are trimmed |
| Fetch.FileNameExample | Proj4.java:138 | the plain reference `img/a.png` is stored as `a.png` |
| Fetch.DoubledSlashExample | Proj4.java:125-138 | `img//a.png` is written flat as `img/a.png` and its copy is named `a.png` |
| Fetch.TrailingSlashExample | Proj4.java:125-138 | `img/` is written flat as `img` and its copy is named `img` |
| Fetch.EmptyNamePlan | Proj4.java:106-125 | the stored name is empty exactly when the flat file is `""` or `/`: for an absolute address exactly when it ends in `/`, for a relative one exactly when it is all `/`s |
| Fetch.DirectoryAddressEmptyName | Proj4.java:109-125 | an absolute address ending in `/` is written flat as `""` and its stored name is empty |
| Fetch.SiteRootExample | Proj4.java:109-125 | `http://h/` is absolute and its flat file is `""`, with an empty stored name |
| Fetch.PlanSaveSpec | Proj4.java:101-153 | the stored copy lies directly in the directory and is named `file.getName()` of the flat file; an absolute address is handed to the environment as given, and both files are named after the text after its last `/`; a relative one is written flat under its path as `java.io.File` normalises it, its copy is named after that path's last component, and it is handed over resolved against the page address; the body is kept only for the root fetch |
| Fetch.Perform | Proj4.java:119-166 | carrying out a plan throws exactly when the transfer fails; on success the body comes back exactly when the plan keeps it |
| Fetch.SaveResource | Proj4.java:93-167 | `saveResource` throws exactly when its transfer fails; on success it returns bytes exactly for a root fetch (empty page address), and they are the fetched body |
| Fetch.AbsoluteAnywhereExample | Proj4.java:101-113 | `x?u=http://h/c.png` is absolute although it does not start with the scheme, and its name is `c.png` |
| DirName.Utf16 | Proj4.java:76 | a string's UTF-16 code units are all below 0x10000, at least one per character |
| DirName.Utf16RoundTrip | Proj4.java:76 | the code units lose nothing: reading them back, a high surrogate followed by a low one as one character and any other unit as itself, gives exactly the string's characters |
| DirName.HashCode | Proj4.java:76 | the JDK's `h = 31*h + unit` loop, wrapped to `int`, yields a 32-bit signed value |
| DirName.PolynomialSnoc | Proj4.java:76 | appending a unit multiplies the documented polynomial by 31 and adds the unit |
| DirName.HashCodeIsPolynomial | Proj4.java:76 | the wrapped loop agrees with the documented polynomial `s[0]*31^(n-1)+...+s[n-1]` modulo 2^32 |
| DirName.Hex | Proj4.java:76 | the rendering is one or more lower-case hex digits, with no leading zero, and is `0` exactly for zero |
| DirName.ParseHexOfHex | Proj4.java:76 | reading the hex rendering back gives the number (the rendering loses nothing) |
| DirName.HexLength | Proj4.java:76 | a number below 16^k has at most k hex digits |
| DirName.ToHexString | Proj4.java:76 | `Integer.toHexString(i)` is 1 to 8 lower-case hex digits, with no leading zero, whose value is `i` modulo 2^32 (unsigned) |
| DirName.DirectoryName | Proj4.java:74-79 | the directory name is 1 to 8 lower-case hex digits, with no leading zero |
| DirName.DirectoryNameIsHex | Proj4.java:76 | the directory name is the hex rendering of the address's hash polynomial over its UTF-16 units, reduced modulo 2^32 |
| DirName.DirectoryNameValue | Proj4.java:76 | read back as a number, the directory name is the address's hash polynomial modulo 2^32 |
| DirName.SameDirectoryIffSameHash | Proj4.java:76 | two addresses share a directory exactly when their hashes agree modulo 2^32 |
| DirName.EmptyAddressDirectory | Proj4.java:76 | the empty address gets directory `0` |
| DirName.SingleUnitDirectory | Proj4.java:76 | a one-character address below U+10000 hashes to its code unit, and its directory is that unit in hex |
| DirName.OneLetterDirectory | Proj4.java:76 | the address `a` (hash 97) gets directory `61` |
| Driver.Ordinal | Proj4.java:29 | the exit codes' ordinals are 0 normal, 1 usage error, 2 other error, 3 for the directory code |
| Driver.SaveAll | Proj4.java:57-58 | references are attempted in order, one save each, never more than there are; if the loop did not fail, all were attempted |
| Driver.SaveAllStops | Proj4.java:52-62 | every attempt before the last succeeded; the loop fails exactly when some reference's transfer fails, and then it stops at a failing one |
| Driver.ProcessIntoSpec | Proj4.java:52-59 | with the directory `mkdir` named: the directory first, then the root save; a failed root fetch or a throwing extraction stops there as a failure; otherwise the extracted references are saved in order, and the address fails exactly when one of them does |
| Driver.AssetEvents | Proj4.java:57-62 | after the root save, the events are one save per reference in order, all of them unless a transfer fails, and the address fails exactly when one does |
| Driver.Loop | Proj4.java:51-64 | every address's events occur in argument order whatever earlier addresses did; the code becomes "other error" exactly when some address failed, and is otherwise unchanged |
| Driver.Main | Proj4.java:44-66 | the exit code is 1 (usage error) with no arguments; otherwise 2 (other error) when some address failed and 0 (normal) when none did; 3 never occurs |
| Driver.DirectoryBeforeWrites | Proj4.java:51-58 | for every address, failed predecessors or not, its block of events starts by making its directory and then saving the address itself |
| Driver.ConcatSplit | Proj4.java:51-64 | the events before an address's block are exactly the earlier addresses' events |

## Left out

- Network transfer: the connection, the 1024-byte read loops and the second
  open of a root address (Proj4.java:119-135, 155-163) are left out. They are
  external effects. The `Environment` answers one outcome per `saveResource`
  call, and for a root fetch that outcome's body stands for the bytes of the
  second open.
- File-system effects: writing the flat file, copying it into the directory,
  deleting it, and `directory.mkdir()` (Proj4.java:77, 125-150) are left out.
  They are plumbing. A `Plan` names the files, and the environment decides
  whether writing them succeeds. The environment is one fixed function, so
  the model does not track how earlier saves change the disk (overwrites,
  colliding directories).
- `dir.getAbsolutePath()` (Proj4.java:137) depends on the working directory,
  which is not known. The stored path is the directory name, `/`, and the
  file name.
- Fetch.PlanSaveSpec: the stored path `dir + "/" + name` is not itself passed
  through `java.io.File` normalisation (Proj4.java:139). The two differ only
  when the name is empty. That happens for a relative reference made only of
  `/`s and for any absolute address ending in `/`, such as `http://h/`. Then
  the flat file is `""` or `/` (`EmptyNamePlan`), and Java's flat write at
  Proj4.java:125 throws before the copy is reached. The environment must
  answer `Failed` for such a plan; the model does not force it to.
- `java.io.File` is modelled for a `/`-separated file system. Windows
  separators and drive prefixes are not modelled.
- `new URL`, `new URI(...)` and `toURL` (Proj4.java:110, 115-118, 210) are
  library parsers. Their success or failure is part of the environment's
  outcome. So is the address they rebuild and re-encode: a plan hands the
  environment the address text before that step, and what is actually
  opened is the environment's concern.
- Decoding bytes with the platform charset (Proj4.java:182) is not modelled.
  A page is given as already-decoded text.
- Lower-casing is ASCII-only. Java's full Unicode `toLowerCase` can change a
  string's length, and that is not modelled. Java indexes strings by UTF-16
  unit, not by character. The searches look only for ASCII tokens and cut the
  line at them, so the captured strings are the same either way.
- The `!= ""` and `== ""` tests (Proj4.java:186, 153) compare references,
  not contents. The model uses content: a kept capture is a non-empty one,
  and a root fetch is one whose page address is empty. The two can differ
  only for `src=""`, where JDK versions disagree about whether an empty
  `substring` is the interned literal. They can also differ for an empty
  command-line argument. Such an argument's root fetch cannot form a URL, so
  its assets are never reached.
- Printing to standard error and `System.exit` (Proj4.java:48, 61, 65) are
  left out. `Main` returns the exit code instead.
- `Driver.Loop` is a fold over the reports of all the addresses, built one
  address after another. Each address's report depends only on that address
  and the environment, so this equals the source's sequential loop.
- `MKDIR_ERR` (ordinal 3) is declared but never produced, as in the source.
  `mkdir` cannot throw: `File.mkdir` reports failure by its return value,
  which is ignored.
