/** The checks that classify vault files as draw.io diagrams by their name
    (DrawioIntegation/FileExt.ts). A host file is reduced to its name, the only
    part of it the checks read. */
module FileExt {
  import opened JsString
  import opened StringHelper

  const PngExport := ".drawio.png"
  const SvgExport := ".drawio.svg"

  /** `isRenderedDrawioFile`: the lower-cased name ends in a png or svg export
      extension, so it has at least that extension's eleven characters. */
  predicate IsRenderedDrawioFile(name: string): (r: bool)
    ensures r ==> |name| >= 11
  {
    var lowerName := ToLowerCase(name);
    EndsWith(lowerName, PngExport) || EndsWith(lowerName, SvgExport)
  }

  /** `isDrawioFile`: the lower-cased name ends in an export extension or in
      `.drawio` itself, so every export is a diagram file, and a diagram file
      has at least `.drawio`'s seven characters. */
  predicate IsDrawioFile(name: string): (r: bool)
    ensures IsRenderedDrawioFile(name) ==> r
    ensures r ==> |name| >= 7
  {
    var lowerName := ToLowerCase(name);
    EndsWith(lowerName, PngExport) || EndsWith(lowerName, SvgExport)
      || EndsWith(lowerName, DrawioMarker)
  }

  /** `a` and `b` spell the same name once ASCII case is ignored. */
  predicate SameIgnoringCase(a: string, b: string) {
    |a| == |b| && forall i :: 0 <= i < |a| ==> ToLowerChar(a[i]) == ToLowerChar(b[i])
  }

  /** Lower-casing commutes with taking a suffix, so a lower-cased name ends in
      `x` exactly when its last `|x|` characters lower-case to `x`. */
  lemma LowerEndsWith(s: string, x: string)
    ensures EndsWith(ToLowerCase(s), x) <==>
      |x| <= |s| && ToLowerCase(s[|s| - |x|..]) == x
  {
    if |x| <= |s| {
      assert ToLowerCase(s)[|s| - |x|..] == ToLowerCase(s[|s| - |x|..]);
    }
  }

  /** Only the last eleven characters of a name decide whether it is an
      export, and only up to case. */
  lemma RenderedBySuffix(name: string)
    ensures IsRenderedDrawioFile(name) <==>
      |name| >= 11
      && (ToLowerCase(name[|name| - 11..]) == PngExport
        || ToLowerCase(name[|name| - 11..]) == SvgExport)
  {
    LowerEndsWith(name, PngExport);
    LowerEndsWith(name, SvgExport);
  }

  /** A name is a diagram file exactly when it is an export, or its last seven
      characters lower-case to `.drawio`. */
  lemma DrawioFileCases(name: string)
    ensures IsDrawioFile(name) <==>
      IsRenderedDrawioFile(name)
      || (|name| >= 7 && ToLowerCase(name[|name| - 7..]) == DrawioMarker)
  {
    LowerEndsWith(name, DrawioMarker);
  }

  /** A diagram file that is not an export ends, up to case, in `.drawio`; an
      export never does, so the two kinds do not overlap. */
  lemma SourceIsNotRendered(name: string)
    requires IsDrawioFile(name) && !IsRenderedDrawioFile(name)
    ensures EndsWith(ToLowerCase(name), DrawioMarker)
  {
  }

  lemma RenderedIsNotSource(name: string)
    requires IsRenderedDrawioFile(name)
    ensures !EndsWith(ToLowerCase(name), DrawioMarker)
  {
    var lowerName := ToLowerCase(name);
    var n := |lowerName|;
    assert lowerName[n - 11..][10] == lowerName[n - 1];
    assert lowerName[n - 7..][6] == lowerName[n - 1];
  }

  /** Both checks ignore ASCII case. */
  lemma CaseInsensitive(a: string, b: string)
    requires SameIgnoringCase(a, b)
    ensures IsRenderedDrawioFile(a) == IsRenderedDrawioFile(b)
    ensures IsDrawioFile(a) == IsDrawioFile(b)
  {
    assert ToLowerCase(a) == ToLowerCase(b);
  }

  lemma EmptyNameIsNeither()
    ensures !IsRenderedDrawioFile("") && !IsDrawioFile("")
  {
  }

  /** Whatever precedes it, a name whose tail lower-cases to an export
      extension is an export and a diagram file. */
  lemma RenderedWithExtension(stem: string, ext: string)
    requires ToLowerCase(ext) == PngExport || ToLowerCase(ext) == SvgExport
    ensures IsRenderedDrawioFile(stem + ext) && IsDrawioFile(stem + ext)
  {
    var name := stem + ext;
    assert name[|name| - |ext|..] == ext;
    RenderedBySuffix(name);
  }

  /** Whatever precedes it, a name whose tail lower-cases to `.drawio` is a
      diagram file and not an export. */
  lemma SourceWithExtension(stem: string, ext: string)
    requires ToLowerCase(ext) == DrawioMarker
    ensures IsDrawioFile(stem + ext) && !IsRenderedDrawioFile(stem + ext)
  {
    var name := stem + ext;
    assert name[|name| - |ext|..] == ext;
    DrawioFileCases(name);
    if IsRenderedDrawioFile(name) {
      RenderedIsNotSource(name);
    }
  }

  /** A name whose last character, up to case, is neither `g` nor `o` is not a
      diagram file. */
  lemma NotDrawioByLastChar(name: string)
    requires name != []
    requires ToLowerChar(name[|name| - 1]) != 'g' && ToLowerChar(name[|name| - 1]) != 'o'
    ensures !IsDrawioFile(name) && !IsRenderedDrawioFile(name)
  {
    var lowerName := ToLowerCase(name);
    var n := |name|;
    if n >= 11 {
      assert lowerName[n - 11..][10] == lowerName[n - 1];
    }
    if n >= 7 {
      assert lowerName[n - 7..][6] == lowerName[n - 1];
    }
  }

  /** A name is not a diagram file when, up to case, the character where an
      export extension would start is not `.` and neither is the character
      where `.drawio` would start. */
  lemma NotDrawioByDots(name: string)
    requires |name| >= 11
    requires ToLowerChar(name[|name| - 11]) != '.' && ToLowerChar(name[|name| - 7]) != '.'
    ensures !IsDrawioFile(name) && !IsRenderedDrawioFile(name)
  {
    var lowerName := ToLowerCase(name);
    var n := |name|;
    assert lowerName[n - 11..][0] == lowerName[n - 11];
    assert lowerName[n - 7..][0] == lowerName[n - 7];
  }

  /** Cases from DrawioIntegation/FileExt.test.ts. Each proof first splits the
      test's name into a stem and an extension, so that the general lemmas
      above apply to it. */
  lemma PngExportExample()
    ensures IsRenderedDrawioFile("diagram.drawio.png")
  {
    assert "diagram.drawio.png" == "diagram" + PngExport;
    RenderedWithExtension("diagram", PngExport);
  }

  lemma SvgExportExample()
    ensures IsRenderedDrawioFile("diagram.drawio.svg")
  {
    assert "diagram.drawio.svg" == "diagram" + SvgExport;
    RenderedWithExtension("diagram", SvgExport);
  }

  lemma MultipleDotsExample()
    ensures IsRenderedDrawioFile("a.b.c.drawio.png") && IsDrawioFile("a.b.c.drawio.png")
  {
    assert "a.b.c.drawio.png" == "a.b.c" + PngExport;
    RenderedWithExtension("a.b.c", PngExport);
  }

  lemma BareExportExample()
    ensures IsRenderedDrawioFile(".drawio.png")
  {
    ExtensionsAreLowerCase();
    assert PngExport[|PngExport| - 11..] == PngExport;
    RenderedBySuffix(PngExport);
  }

  /** Whatever precedes it, a name ending in `.DRAWIO.PNG` is an export. */
  lemma UpperCaseExport(stem: string)
    ensures IsRenderedDrawioFile(stem + ".DRAWIO.PNG")
  {
    var ext := ".DRAWIO.PNG";
    var lower := ToLowerCase(ext);
    assert forall i :: 0 <= i < 11 ==> lower[i] == PngExport[i];
    RenderedWithExtension(stem, ext);
  }

  lemma UpperCaseExportExample()
    ensures IsRenderedDrawioFile("diagram.DRAWIO.PNG")
  {
    assert "diagram.DRAWIO.PNG" == "diagram" + ".DRAWIO.PNG";
    UpperCaseExport("diagram");
  }

  lemma SourceExamples()
    ensures IsDrawioFile("diagram.drawio") && !IsRenderedDrawioFile("diagram.drawio")
  {
    assert "diagram.drawio" == "diagram" + DrawioMarker;
    SourceWithExtension("diagram", DrawioMarker);
  }

  lemma UpperCaseSourceExample()
    ensures IsDrawioFile("diagram.DRAWIO")
  {
    var ext := ".DRAWIO";
    var lower := ToLowerCase(ext);
    assert forall i :: 0 <= i < 7 ==> lower[i] == DrawioMarker[i];
    assert "diagram.DRAWIO" == "diagram" + ext;
    SourceWithExtension("diagram", ext);
  }

  lemma RejectedByLastCharExamples()
    ensures !IsDrawioFile("diagram.drawio.pdf") && !IsRenderedDrawioFile("diagram.drawio.pdf")
    ensures !IsDrawioFile("diagram.drawio.txt")
    ensures !IsDrawioFile("diagram.drawio2")
  {
    NotDrawioByLastChar("diagram.drawio.pdf");
    NotDrawioByLastChar("diagram.drawio.txt");
    NotDrawioByLastChar("diagram.drawio2");
  }

  lemma RejectedMissingDotExample()
    ensures !IsDrawioFile("diagram.drawiopng")
  {
    NotDrawioByDots("diagram.drawiopng");
  }

  lemma RejectedDoubledLetterExample()
    ensures !IsDrawioFile("diagram.drawioo")
  {
    NotDrawioByDots("diagram.drawioo");
  }

  lemma RejectedNumberedExample()
    ensures !IsDrawioFile("diagram.drawio2.png")
  {
    NotDrawioByDots("diagram.drawio2.png");
  }

  /** A name with no lower-case `d` cannot contain `.drawio`. */
  lemma NoMarkerWithoutD(s: string)
    requires forall i :: 0 <= i < |s| ==> s[i] != 'd'
    ensures !Contains(s, DrawioMarker)
  {
    forall i | 0 <= i && i + 7 <= |s|
      ensures !OccursAt(s, DrawioMarker, i)
    {
      assert s[i..i + 7][1] == s[i + 1];
    }
  }

  /** The extensions are spelled in lower case. */
  lemma ExtensionsAreLowerCase()
    ensures ToLowerCase(PngExport) == PngExport
    ensures ToLowerCase(SvgExport) == SvgExport
    ensures ToLowerCase(DrawioMarker) == DrawioMarker
  {
    var png, svg, src := ToLowerCase(PngExport), ToLowerCase(SvgExport), ToLowerCase(DrawioMarker);
    assert forall i :: 0 <= i < 11 ==> png[i] == PngExport[i];
    assert forall i :: 0 <= i < 11 ==> svg[i] == SvgExport[i];
    assert forall i :: 0 <= i < 7 ==> src[i] == DrawioMarker[i];
  }

  /** Naming a new diagram after an export template: the template's export
      extension is appended and the result is recognised as an export. */
  lemma AppendRenderedTemplate(base: string, template: string)
    requires EndsWith(template, PngExport) || EndsWith(template, SvgExport)
    ensures AppendDrawioFileExtension(base, template) == base + template[|template| - 11..]
    ensures IsRenderedDrawioFile(AppendDrawioFileExtension(base, template))
  {
    ExtractRenderedSuffix(template);
    ExtensionsAreLowerCase();
    RenderedWithExtension(base, template[|template| - 11..]);
  }

  /** The two halves of the plugin disagree on case: a template named in upper
      case is recognised as an export, yet no extension is taken from it, since
      the extraction looks for `.drawio` exactly. */
  lemma UpperCaseTemplate(base: string, stem: string)
    requires forall i :: 0 <= i < |stem| ==> stem[i] != 'd'
    ensures IsRenderedDrawioFile(stem + ".DRAWIO.PNG")
    ensures AppendDrawioFileExtension(base, stem + ".DRAWIO.PNG") == base
  {
    UpperCaseExport(stem);
    var ext := ".DRAWIO.PNG";
    assert forall i :: 0 <= i < |ext| ==> ext[i] != 'd';
    var template := stem + ext;
    forall i | 0 <= i < |template|
      ensures template[i] != 'd'
    {
      if i >= |stem| {
        assert template[i] == ext[i - |stem|];
      }
    }
    NoMarkerWithoutD(template);
  }
}
