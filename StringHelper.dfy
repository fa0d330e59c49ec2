/** `StringHelper` (DrawioIntegation/StringHelper.ts): normalising a typed
    file name into a vault path, and deriving a drawio file name from a
    template's compound extension. */
module StringHelper {
  import opened JsString

  predicate IsSlash(c: char) { c == '/' }

  predicate IsNotBackslash(c: char) { c != '\\' }

  /** Stages one and two of `NormalizePath`: backslashes become slashes, then
      every run of slashes collapses to one. */
  function FixSlashes(path: string): (r: string)
    ensures |r| <= |path|
    ensures All(r, IsNotBackslash)
    ensures NoAdjacent(r, IsSlash)
  {
    var replaced := ReplaceChar(path, '\\', '/');
    assert All(replaced, IsNotBackslash);
    ReplaceRunsKeepsAll(replaced, IsSlash, '/', IsNotBackslash);
    ReplaceRunsNoAdjacentRuns(replaced, IsSlash, '/');
    ReplaceRuns(replaced, IsSlash, '/')
  }

  /** `StringHelper.NormalizePath`: after the slashes are fixed, the result is
      trimmed, and every whitespace run that is left becomes one hyphen. */
  function NormalizePath(path: string): (r: string)
    ensures |r| <= |path|
  {
    ReplaceRuns(Trim(FixSlashes(path)), IsWhitespace, '-')
  }

  lemma NormalizePathNoBackslash(path: string)
    ensures All(NormalizePath(path), IsNotBackslash)
  {
    TrimKeepsAll(FixSlashes(path), IsNotBackslash);
    ReplaceRunsKeepsAll(Trim(FixSlashes(path)), IsWhitespace, '-', IsNotBackslash);
  }

  lemma SlashIsNotWhitespace()
    ensures forall c :: IsSlash(c) ==> !IsWhitespace(c)
  {
  }

  lemma NormalizePathNoDoubleSlash(path: string)
    ensures NoAdjacent(NormalizePath(path), IsSlash)
  {
    var fixed := FixSlashes(path);
    TrimKeepsNoAdjacent(fixed, IsSlash);
    var x := Trim(fixed);
    SlashIsNotWhitespace();
    ReplaceRunsKeepsNoAdjacent(x, IsWhitespace, '-', IsSlash);
  }

  lemma NormalizePathNoWhitespace(path: string)
    ensures NoWhitespace(NormalizePath(path))
  {
    ReplaceRunsOutsideClass(Trim(FixSlashes(path)), IsWhitespace, '-');
  }

  predicate IsNotWhitespace(c: char) { !IsWhitespace(c) }

  /** `NormalizePath` is idempotent. */
  lemma NormalizePathIdempotent(path: string)
    ensures NormalizePath(NormalizePath(path)) == NormalizePath(path)
  {
    var r := NormalizePath(path);
    NormalizePathNoBackslash(path);
    NormalizePathNoDoubleSlash(path);
    NormalizePathNoWhitespace(path);
    FixSlashesIdentity(r);
    TrimIdentity(r);
    WhitespaceRunsIdentity(r);
  }

  lemma FixSlashesIdentity(s: string)
    requires All(s, IsNotBackslash) && NoAdjacent(s, IsSlash)
    ensures FixSlashes(s) == s
  {
    ReplaceCharAbsent(s, '\\', '/');
    ReplaceRunsIdentity(s, IsSlash, '/');
  }

  lemma WhitespaceRunsIdentity(s: string)
    requires NoWhitespace(s)
    ensures ReplaceRuns(s, IsWhitespace, '-') == s
  {
    ReplaceRunsIdentity(s, IsWhitespace, '-');
  }

  /** Fixing slashes commutes with concatenation unless a slash run straddles
      the seam. */
  lemma FixSlashesAppend(a: string, b: string)
    requires a == [] || b == [] || (a[|a| - 1] != '/' && a[|a| - 1] != '\\') || (b[0] != '/' && b[0] != '\\')
    ensures FixSlashes(a + b) == FixSlashes(a) + FixSlashes(b)
  {
    ReplaceCharAppend(a, b, '\\', '/');
    var a', b' := ReplaceChar(a, '\\', '/'), ReplaceChar(b, '\\', '/');
    ReplaceRunsAppend(a', b', IsSlash, '/');
  }

  lemma FixSlashesOfWhitespace(w: string)
    requires All(w, IsWhitespace)
    ensures FixSlashes(w) == w
  {
    FixSlashesIdentity(w);
  }

  lemma FixSlashesNoWhitespace(s: string)
    requires NoWhitespace(s)
    ensures NoWhitespace(FixSlashes(s))
  {
    var s' := ReplaceChar(s, '\\', '/');
    assert All(s', IsNotWhitespace);
    ReplaceRunsKeepsAll(s', IsSlash, '/', IsNotWhitespace);
  }

  lemma FixSlashesAround(u: string, s: string, v: string)
    requires All(u, IsWhitespace) && All(v, IsWhitespace)
    ensures FixSlashes(u + s + v) == u + FixSlashes(s) + v
  {
    assert u != [] ==> IsWhitespace(u[|u| - 1]);
    FixSlashesAppend(u, s);
    assert v != [] ==> IsWhitespace(v[0]);
    FixSlashesAppend(u + s, v);
    FixSlashesOfWhitespace(u);
    FixSlashesOfWhitespace(v);
  }

  /** Whitespace before and after the input is dropped outright: it never turns
      into a hyphen. */
  lemma NormalizePathIgnoresSurroundingWhitespace(u: string, path: string, v: string)
    requires All(u, IsWhitespace) && All(v, IsWhitespace)
    ensures NormalizePath(u + path + v) == NormalizePath(path)
  {
    FixSlashesAround(u, path, v);
    TrimSurrounded(u, FixSlashes(path), v);
  }

  /** Between a piece that ends and a piece that starts with a non-whitespace
      character, a run of whitespace of any length becomes exactly one hyphen,
      and the pieces are normalised independently. */
  lemma NormalizePathHyphenatesInteriorRun(a: string, w: string, b: string)
    requires a != [] && !IsWhitespace(a[|a| - 1])
    requires b != [] && !IsWhitespace(b[0])
    requires w != [] && All(w, IsWhitespace)
    ensures NormalizePath(a + w + b) == NormalizePath(a) + "-" + NormalizePath(b)
  {
    var fa, fb := FixSlashes(a), FixSlashes(b);
    FixSlashesInterior(a, w, b);
    FixSlashesEnds(a);
    FixSlashesEnds(b);
    TrimInterior(fa, w, fb);
    HyphenateInterior(Trim(fa), w, Trim(fb));
  }

  /** A whitespace run between pieces that do not end (resp. start) with
      whitespace becomes one hyphen, and the pieces are rewritten apart. */
  lemma HyphenateInterior(a: string, w: string, b: string)
    requires a == [] || !IsWhitespace(a[|a| - 1])
    requires b == [] || !IsWhitespace(b[0])
    requires w != [] && All(w, IsWhitespace)
    ensures ReplaceRuns(a + w + b, IsWhitespace, '-')
      == ReplaceRuns(a, IsWhitespace, '-') + "-" + ReplaceRuns(b, IsWhitespace, '-')
  {
    ReplaceRunsAppend(a, w, IsWhitespace, '-');
    assert (a + w)[|a + w| - 1] == w[|w| - 1];
    ReplaceRunsAppend(a + w, b, IsWhitespace, '-');
    ReplaceRunsOfRun(w, IsWhitespace, '-');
  }

  /** Fixing slashes keeps a non-empty input non-empty, and a first or last
      character that is not whitespace stays so. */
  lemma FixSlashesEnds(s: string)
    requires s != []
    ensures FixSlashes(s) != []
    ensures !IsWhitespace(s[0]) ==> !IsWhitespace(FixSlashes(s)[0])
    ensures !IsWhitespace(s[|s| - 1]) ==> !IsWhitespace(FixSlashes(s)[|FixSlashes(s)| - 1])
  {
    ReplaceRunsEnds(ReplaceChar(s, '\\', '/'), IsSlash, '/');
  }

  /** For an input without whitespace, `NormalizePath` only fixes slashes, and
      the output is non-empty when the input is. */
  lemma NormalizePathOfNoWhitespace(s: string)
    requires NoWhitespace(s)
    ensures NormalizePath(s) == FixSlashes(s)
    ensures NoWhitespace(FixSlashes(s))
    ensures s != [] ==> FixSlashes(s) != []
  {
    var f := FixSlashes(s);
    FixSlashesNoWhitespace(s);
    ReplaceRunsEnds(ReplaceChar(s, '\\', '/'), IsSlash, '/');
    TrimIdentity(f);
    WhitespaceRunsIdentity(f);
  }

  lemma FixSlashesInterior(a: string, w: string, b: string)
    requires w != [] && All(w, IsWhitespace)
    ensures FixSlashes(a + w + b) == FixSlashes(a) + w + FixSlashes(b)
  {
    FixSlashesAppend(a, w);
    FixSlashesAppend(a + w, b);
    FixSlashesOfWhitespace(w);
  }

  /** The marker `ExtractDrawioFileExtension` looks for; it is seven characters
      long, the length the source subtracts from the path length. */
  const DrawioMarker := ".drawio"

  /** `StringHelper.ExtractDrawioFileExtension`: the text from the last
      `.drawio` to the end, or "" when `.drawio` does not occur or only ends the
      path. The search is case-sensitive and does not look at what follows. */
  function ExtractDrawioFileExtension(path: string): (r: string)
    ensures r == "" <==> !Contains(path, DrawioMarker) || EndsWith(path, DrawioMarker)
    ensures r != "" ==> EndsWith(path, r) && OccursAt(r, DrawioMarker, 0) && |r| > |DrawioMarker|
    ensures r != "" ==> forall j :: 0 < j ==> !OccursAt(r, DrawioMarker, j)
  {
    var lastDotIndex := LastIndexOf(path, DrawioMarker);
    EndsWithMarkerIsLast(path, lastDotIndex);
    if lastDotIndex == -1 || lastDotIndex == |path| - 7 then ""
    else
      SuffixOccurrences(path, lastDotIndex);
      path[lastDotIndex..]
  }

  lemma EndsWithMarkerIsLast(path: string, last: int)
    requires last == LastIndexOf(path, DrawioMarker)
    ensures EndsWith(path, DrawioMarker) <==> last != -1 && last == |path| - 7
  {
    if EndsWith(path, DrawioMarker) {
      assert OccursAt(path, DrawioMarker, |path| - 7);
    }
  }

  lemma SuffixOccurrences(path: string, i: nat)
    requires i <= |path|
    ensures forall j :: 0 <= j ==> (OccursAt(path[i..], DrawioMarker, j) <==> OccursAt(path, DrawioMarker, i + j))
  {
    forall j | 0 <= j
      ensures OccursAt(path[i..], DrawioMarker, j) <==> OccursAt(path, DrawioMarker, i + j)
    {
      if j + 7 <= |path| - i {
        assert path[i..][j..j + 7] == path[i + j..i + j + 7];
      }
    }
  }

  /** `StringHelper.AppendDrawioFileExtension`: the file path followed by the
      compound extension extracted from `extension`, if there is one. */
  function AppendDrawioFileExtension(filePath: string, extension: string): (r: string)
    ensures filePath <= r
    ensures r == filePath <==> !Contains(extension, DrawioMarker) || EndsWith(extension, DrawioMarker)
    ensures r != filePath ==> EndsWith(extension, r[|filePath|..]) && OccursAt(r, DrawioMarker, |filePath|)
    ensures r != filePath ==> forall j :: 0 < j ==> !OccursAt(r[|filePath|..], DrawioMarker, j)
  {
    var ext := ExtractDrawioFileExtension(extension);
    if ext == "" then filePath
    else
      assert (filePath + ext)[|filePath|..] == ext;
      assert (filePath + ext)[|filePath|..|filePath| + 7] == ext[..7];
      filePath + ext
  }

  /** A template whose name ends in exactly `.drawio.png` or `.drawio.svg`
      yields that eleven-character extension. */
  lemma ExtractRenderedSuffix(path: string)
    requires EndsWith(path, ".drawio.png") || EndsWith(path, ".drawio.svg")
    ensures ExtractDrawioFileExtension(path) == path[|path| - 11..]
  {
    var prefix, ext := path[..|path| - 11], path[|path| - 11..];
    assert path == prefix + ext;
    ExtractAfterPrefix(prefix, ext);
  }

  lemma ExtractAfterPrefix(prefix: string, ext: string)
    requires ext == ".drawio.png" || ext == ".drawio.svg"
    ensures ExtractDrawioFileExtension(prefix + ext) == ext
  {
    var s, m := prefix + ext, |prefix|;
    assert s[m..m + 7] == ext[..7] == DrawioMarker;
    assert s[m + 1] == 'd' && s[m + 2] == 'r' && s[m + 3] == 'a' && s[m + 4] == 'w';
    NoMarkerAt(s, m + 4);
    NoMarkerAt(s, m + 3);
    NoMarkerAt(s, m + 2);
    NoMarkerAt(s, m + 1);
    assert LastIndexAtOrBelow(s, DrawioMarker, m) == m;
    assert LastIndexAtOrBelow(s, DrawioMarker, m + 1) == m;
    assert LastIndexAtOrBelow(s, DrawioMarker, m + 2) == m;
    assert LastIndexAtOrBelow(s, DrawioMarker, m + 3) == m;
    assert LastIndexAtOrBelow(s, DrawioMarker, m + 4) == m;
    assert s[m..] == ext;
  }

  lemma NoMarkerAt(s: string, k: nat)
    requires k < |s| && s[k] != '.'
    ensures !OccursAt(s, DrawioMarker, k)
  {
    if k + 7 <= |s| {
      assert s[k..k + 7][0] == s[k];
    }
  }

  /** Between two pieces that do not end (resp. start) with a separator, a
      non-empty run of `/` and `\` becomes one `/`. */
  lemma FixSlashesSeparated(a: string, sep: string, b: string)
    requires a != [] && a[|a| - 1] != '/' && a[|a| - 1] != '\\'
    requires b != [] && b[0] != '/' && b[0] != '\\'
    requires sep != [] && forall i :: 0 <= i < |sep| ==> sep[i] == '/' || sep[i] == '\\'
    ensures FixSlashes(a + sep + b) == FixSlashes(a) + "/" + FixSlashes(b)
  {
    FixSlashesAppend(a, sep);
    FixSlashesAppend(a + sep, b);
    ReplaceRunsOfRun(ReplaceChar(sep, '\\', '/'), IsSlash, '/');
  }

  lemma NormalizePathWord(w: string)
    requires NoWhitespace(w) && All(w, IsNotBackslash) && NoAdjacent(w, IsSlash)
    ensures NormalizePath(w) == w && FixSlashes(w) == w
  {
    FixSlashesIdentity(w);
    NormalizePathOfNoWhitespace(w);
  }

  /** The documentation of `AppendDrawioFileExtension` says a path that already
      carries the extension is returned unchanged; the code appends it
      regardless, so applying it twice appends twice. */
  lemma AppendIgnoresPresentExtension(filePath: string, extension: string)
    requires ExtractDrawioFileExtension(extension) != ""
    requires EndsWith(filePath, ExtractDrawioFileExtension(extension))
    ensures AppendDrawioFileExtension(filePath, extension)
      == filePath + ExtractDrawioFileExtension(extension)
    ensures AppendDrawioFileExtension(filePath, extension) != filePath
  {
  }

  lemma AppendRepeats(filePath: string, extension: string)
    requires ExtractDrawioFileExtension(extension) != ""
    ensures var once := AppendDrawioFileExtension(filePath, extension);
      AppendDrawioFileExtension(once, extension) == once + ExtractDrawioFileExtension(extension)
  {
    var ext := ExtractDrawioFileExtension(extension);
    var once := AppendDrawioFileExtension(filePath, extension);
    assert once[|once| - |ext|..] == ext;
    AppendIgnoresPresentExtension(once, extension);
  }

  /** Cases from DrawioIntegation/StringHelper.test.ts. */
  lemma NormalizePathEmptyExample()
    ensures NormalizePath("") == ""
  {
  }

  /** A path made only of slashes and backslashes, in any mixture, collapses
      to a single slash. */
  lemma NormalizePathOfSlashes(s: string)
    requires s != [] && forall i :: 0 <= i < |s| ==> s[i] == '/' || s[i] == '\\'
    ensures NormalizePath(s) == "/"
  {
    var t := ReplaceChar(s, '\\', '/');
    assert All(t, IsSlash);
    ReplaceRunsOfRun(t, IsSlash, '/');
    assert NoWhitespace(s);
    NormalizePathOfNoWhitespace(s);
  }

  lemma NormalizePathSlashesExample()
    ensures NormalizePath("/////") == "/"
  {
    var s := "/////";
    assert forall i :: 0 <= i < |s| ==> s[i] == '/';
    NormalizePathOfSlashes(s);
  }

  /** The test paths ending in an extension are written as a stem plus the
      extension. As a single literal, the recursive search behind `lastIndexOf`
      would be unrolled over every index of the path; in this form
      `ExtractAfterPrefix` gives the answer for any stem. */
  lemma ExtractExamples()
    ensures ExtractDrawioFileExtension("testfile" + ".drawio.png") == ".drawio.png"
    ensures ExtractDrawioFileExtension("testfile" + ".drawio.svg") == ".drawio.svg"
  {
    ExtractAfterPrefix("testfile", ".drawio.png");
    ExtractAfterPrefix("testfile", ".drawio.svg");
  }

  lemma ExtractWithoutExtensionExamples()
    ensures ExtractDrawioFileExtension("testfile") == ""
    ensures ExtractDrawioFileExtension("testfile.drawio") == ""
  {
    var s := "testfile";
    NoMarkerAt(s, 0);
    NoMarkerAt(s, 1);
    assert !Contains(s, DrawioMarker);
    assert EndsWith("testfile.drawio", DrawioMarker);
  }

  /** Written as stems plus extensions for the reason given above. */
  lemma AppendExamples()
    ensures AppendDrawioFileExtension("", "testfile" + ".drawio.png") == ".drawio.png"
    ensures AppendDrawioFileExtension("test", ".drawio.png") == "test" + ".drawio.png"
    ensures AppendDrawioFileExtension("test", ".drawio.svg") == "test" + ".drawio.svg"
  {
    ExtractAfterPrefix("testfile", ".drawio.png");
    ExtractAfterPrefix("", ".drawio.png");
    ExtractAfterPrefix("", ".drawio.svg");
    assert "" + ".drawio.png" == ".drawio.png";
    assert "" + ".drawio.svg" == ".drawio.svg";
  }
}
