/** The names the page shows and hands back (app.py): the file name of a
    translated document, built from `os.path.splitext` of the upload's name
    and the language suffix, and the index of the language selected by
    default. */
module Naming {
  import opened Text

  // os.path.splitext (POSIX)
  // ---------------------------------------------------------------------

  /** `s.rfind(c)`: the index of the last `c`, or -1. */
  function RFind(s: string, c: char): (i: int)
    ensures -1 <= i < |s|
    ensures i >= 0 ==> s[i] == c
    ensures forall k :: i < k < |s| ==> s[k] != c
  {
    if s == [] then -1
    else if s[|s| - 1] == c then |s| - 1
    else RFind(s[..|s| - 1], c)
  }

  /** The three properties of `rfind` pin down its result. */
  lemma RFindIs(s: string, c: char, j: int)
    requires -1 <= j < |s|
    requires j >= 0 ==> s[j] == c
    requires forall k :: j < k < |s| ==> s[k] != c
    ensures RFind(s, c) == j
  {
  }

  /** Some character of `p[from..to]` is not a dot. */
  predicate HasNameChar(p: string, from: int, to: int)
    requires 0 <= from && to <= |p|
  {
    exists k :: from <= k < to && p[k] != '.'
  }

  /** `os.path.splitext(p)`: the extension starts at the last dot after the
      last `/`, provided something other than dots precedes that dot within
      the last path component (so `.bashrc` has no extension). */
  function SplitExt(p: string): (r: (string, string))
    ensures r.0 + r.1 == p
    ensures r.1 == [] || (r.1[0] == '.' && '.' !in r.1[1..] && '/' !in r.1)
  {
    var sepIndex := RFind(p, '/');
    var dotIndex := RFind(p, '.');
    if dotIndex > sepIndex && HasNameChar(p, sepIndex + 1, dotIndex) then
      assert forall k :: 0 <= k < |p[dotIndex..]| ==> p[dotIndex..][k] == p[dotIndex + k];
      (p[..dotIndex], p[dotIndex..])
    else
      (p, [])
  }

  /** The extension is found: a stem whose last path component has a
      character other than a dot, then a dot, then dot- and slash-free text
      splits into that stem and the dot with the text. */
  lemma SplitExtFindsExtension(stem: string, ext: string)
    requires '.' !in ext && '/' !in ext
    requires HasNameChar(stem, RFind(stem, '/') + 1, |stem|)
    ensures SplitExt(stem + "." + ext) == (stem, "." + ext)
  {
    var tail := "." + ext;
    var p := stem + tail;
    ExtensionSearch(stem, ext);
    NameCharKept(stem, tail, RFind(stem, '/') + 1);
    SplitExtAt(p, |stem|);
    assert p[..|stem|] == stem;
    assert p[|stem|..] == tail;
    DotRegroup(stem, ext);
  }

  /** The dot and the extension can be joined first. */
  lemma DotRegroup(a: string, b: string)
    ensures a + "." + b == a + ("." + b)
  {
  }

  /** A non-dot character of a string stays in place when text is appended. */
  lemma NameCharKept(stem: string, tail: string, from: int)
    requires 0 <= from && HasNameChar(stem, from, |stem|)
    ensures HasNameChar(stem + tail, from, |stem|)
  {
    var n :| from <= n < |stem| && stem[n] != '.';
    assert (stem + tail)[n] == stem[n];
  }

  /** In `stem + "." + ext` with dot- and slash-free `ext`, the last dot is
      the one added and the last slash is the stem's. */
  lemma ExtensionSearch(stem: string, ext: string)
    requires '.' !in ext && '/' !in ext
    ensures RFind(stem + ("." + ext), '/') == RFind(stem, '/')
    ensures RFind(stem + ("." + ext), '.') == |stem|
  {
    var tail := "." + ext;
    assert tail[1..] == ext;
    assert RFind(tail, '/') == -1 by {
      assert '/' !in tail;
      RFindNone(tail, '/');
    }
    RFindConcat(stem, tail, '/');
    assert RFind(tail, '.') == 0 by {
      RFindIs(tail, '.', 0);
    }
    RFindConcat(stem, tail, '.');
  }

  /** Where the last dot qualifies, `splitext` splits there. */
  lemma SplitExtAt(p: string, d: int)
    requires RFind(p, '.') == d && d > RFind(p, '/')
    requires HasNameChar(p, RFind(p, '/') + 1, d)
    ensures SplitExt(p) == (p[..d], p[d..])
  {
  }

  /** No extension is found when the last path component has no dot. */
  lemma SplitExtNoDot(p: string)
    requires forall k :: RFind(p, '/') < k < |p| ==> p[k] != '.'
    ensures SplitExt(p) == (p, [])
  {
  }

  // The language suffix
  // ---------------------------------------------------------------------

  /** `LANG_SUFFIX_OVERRIDE`: the two Chinese scripts get region codes. */
  const LangSuffixOverride: map<string, string> := map["zh-Hans" := "CN", "zh-Hant" := "TW"]

  /** `LANG_SUFFIX_OVERRIDE.get(code, code.upper())`. */
  function LangSuffix(code: string): (r: string)
    ensures code in LangSuffixOverride ==> r == LangSuffixOverride[code]
    ensures code !in LangSuffixOverride ==> |r| == |code| && forall k :: 0 <= k < |r| ==> r[k] == UpperChar(code[k])
  {
    if code in LangSuffixOverride then LangSuffixOverride[code]
    else
      UpperSpec(code);
      Upper(code)
  }

  /** The download name: `{name}_{suffix}{ext}` around the upload's
      extension. */
  function FinalFilename(original: string, code: string): (r: string)
    ensures var (name, ext) := SplitExt(original);
            |r| == |original| + 1 + |LangSuffix(code)| &&
            r[..|name|] == name && r[|r| - |ext|..] == ext
  {
    var (name, ext) := SplitExt(original);
    name + "_" + LangSuffix(code) + ext
  }

  /** A language code without dots or slashes gives a suffix without them. */
  lemma SuffixPlain(code: string)
    requires '.' !in code && '/' !in code
    ensures '.' !in LangSuffix(code) && '/' !in LangSuffix(code)
  {
    var r := LangSuffix(code);
    if code !in LangSuffixOverride {
      forall k | 0 <= k < |r|
        ensures r[k] != '.' && r[k] != '/'
      {
        assert code[k] != '.' && code[k] != '/';
      }
    } else {
      assert r == "CN" || r == "TW";
    }
  }

  /** The downloaded file keeps the upload's extension: splitting the final
      name gives the upload's stem with the suffix attached, and the same
      extension, whenever the code has no dot or slash in it. */
  lemma FinalFilenameKeepsExtension(original: string, code: string)
    requires '.' !in code && '/' !in code
    ensures SplitExt(FinalFilename(original, code))
              == (SplitExt(original).0 + "_" + LangSuffix(code), SplitExt(original).1)
  {
    var (name, ext) := SplitExt(original);
    var suffix := LangSuffix(code);
    SuffixPlain(code);
    var middle := "_" + suffix;
    assert '.' !in middle && '/' !in middle by {
      assert forall k :: 1 <= k < |middle| ==> middle[k] == suffix[k - 1];
    }
    assert name + "_" + suffix == name + middle;
    assert FinalFilename(original, code) == name + middle + ext;
    if ext == [] {
      assert name + middle + ext == original + middle;
      AppendWithoutExtension(original, middle);
    } else {
      InsertBeforeExtension(original, middle);
    }
  }

  /** Appending dot- and slash-free text to a name without an extension
      adds none. */
  lemma AppendWithoutExtension(p: string, middle: string)
    requires '.' !in middle && '/' !in middle
    requires SplitExt(p).1 == []
    ensures SplitExt(p + middle) == (p + middle, [])
  {
    var f := p + middle;
    var sepIndex := RFind(p, '/');
    var dotIndex := RFind(p, '.');
    assert forall k :: 0 <= k < |p| ==> f[k] == p[k];
    assert forall k :: |p| <= k < |f| ==> f[k] == middle[k - |p|];
    RFindIs(f, '/', sepIndex);
    RFindIs(f, '.', dotIndex);
    assert dotIndex > sepIndex ==> !HasNameChar(p, sepIndex + 1, dotIndex);
    assert dotIndex > sepIndex ==> !HasNameChar(f, sepIndex + 1, dotIndex);
  }

  /** Inserting dot- and slash-free text in front of the extension keeps
      the extension. */
  lemma InsertBeforeExtension(p: string, middle: string)
    requires '.' !in middle && '/' !in middle
    requires SplitExt(p).1 != []
    ensures SplitExt(SplitExt(p).0 + middle + SplitExt(p).1) == (SplitExt(p).0 + middle, SplitExt(p).1)
  {
    var (name, ext) := SplitExt(p);
    var sepIndex := RFind(p, '/');
    var dotIndex := RFind(p, '.');
    assert dotIndex > sepIndex && HasNameChar(p, sepIndex + 1, dotIndex);
    assert name == p[..dotIndex] && ext == p[dotIndex..];
    assert p == name + ext;
    var head := name + middle;
    var f := head + ext;
    InsertedSearch(name, middle, ext);
    var d := |head|;
    var n :| sepIndex + 1 <= n < dotIndex && p[n] != '.';
    assert f[n] == p[n];
    assert HasNameChar(f, sepIndex + 1, d);
    assert f[..d] == head && f[d..] == ext;
  }

  /** In `name + middle + ext`, with an extension `ext` and dot- and
      slash-free `middle`, the last dot starts `ext` and the last slash is
      where it was in `name + ext`. */
  lemma InsertedSearch(name: string, middle: string, ext: string)
    requires '.' !in middle && '/' !in middle && '/' !in ext
    requires ext != [] && ext[0] == '.' && '.' !in ext[1..]
    ensures RFind(name + middle + ext, '.') == |name| + |middle|
    ensures RFind(name + middle + ext, '/') == RFind(name + ext, '/')
  {
    RFindIs(ext, '.', 0);
    RFindNone(middle, '/');
    RFindNone(ext, '/');
    RFindConcat(name, middle, '/');
    RFindConcat(name + middle, ext, '/');
    RFindConcat(name, ext, '/');
    RFindConcat(name + middle, ext, '.');
  }

  /** `rfind` on a string without the character gives -1. */
  lemma RFindNone(s: string, c: char)
    requires c !in s
    ensures RFind(s, c) == -1
  {
  }

  /** `rfind` on a concatenation looks in the second part first. */
  lemma {:induction false} RFindConcat(a: string, b: string, c: char)
    ensures RFind(a + b, c) == if RFind(b, c) >= 0 then |a| + RFind(b, c) else RFind(a, c)
    decreases |b|
  {
    if b == [] {
      assert a + b == a;
    } else if b[|b| - 1] != c {
      assert (a + b)[..|a + b| - 1] == a + b[..|b| - 1];
      RFindConcat(a, b[..|b| - 1], c);
    }
  }

  /** `report.pdf` translated into French downloads as `report_FR.pdf`. */
  lemma FinalFilenameFrench()
    ensures FinalFilename("report.pdf", "fr") == "report_FR.pdf"
  {
    var p := "report.pdf";
    RFindIs(p, '/', -1);
    RFindIs(p, '.', 6);
    assert HasNameChar(p, 0, 6) by { assert p[0] != '.'; }
    assert p[..6] == "report" && p[6..] == ".pdf";
    assert SplitExt(p) == ("report", ".pdf");
    assert Upper("fr") == "FR";
  }

  /** Simplified Chinese uses the region code: `report_CN.pdf`. */
  lemma FinalFilenameSimplifiedChinese()
    ensures FinalFilename("report.pdf", "zh-Hans") == "report_CN.pdf"
  {
    var p := "report.pdf";
    RFindIs(p, '/', -1);
    RFindIs(p, '.', 6);
    assert HasNameChar(p, 0, 6) by { assert p[0] != '.'; }
    assert p[..6] == "report" && p[6..] == ".pdf";
    assert SplitExt(p) == ("report", ".pdf");
  }

  /** A name whose only dot leads it has no extension: `.env` downloads as
      `.env_FR`. */
  lemma FinalFilenameLeadingDot()
    ensures FinalFilename(".env", "fr") == ".env_FR"
  {
    var p := ".env";
    RFindIs(p, '/', -1);
    RFindIs(p, '.', 0);
    assert SplitExt(p) == (".env", "");
    assert Upper("fr") == "FR";
  }

  // The default language
  // ---------------------------------------------------------------------

  /** "Korean" in English or in Korean. */
  const KoreanName: string := "\U{D55C}\U{AD6D}\U{C5B4}"

  /** The label names Korean, in English or in Korean. */
  predicate IsKoreanLabel(caption: string) {
    Contains(caption, "Korean") || Contains(caption, KoreanName)
  }

  /** The search for the default entry of the language box: the index of
      the first Korean label, or 0 when there is none. */
  method DefaultLanguageIndex(labels: seq<string>) returns (index: nat)
    ensures (forall k :: 0 <= k < |labels| ==> !IsKoreanLabel(labels[k])) ==> index == 0
    ensures (exists k :: 0 <= k < |labels| && IsKoreanLabel(labels[k])) ==>
              index < |labels| && IsKoreanLabel(labels[index]) &&
              forall k :: 0 <= k < index ==> !IsKoreanLabel(labels[k])
  {
    index := 0;
    var i := 0;
    while i < |labels|
      invariant 0 <= i <= |labels|
      invariant forall k :: 0 <= k < i ==> !IsKoreanLabel(labels[k])
    {
      if IsKoreanLabel(labels[i]) {
        index := i;
        return;
      }
      i := i + 1;
    }
  }

  /** The language table used when the service's list cannot be fetched:
      display label and language code. */
  const FallbackLanguages: seq<(string, string)> := [
    (KoreanName + " (Korean)", "ko"),
    ("\U{C601}\U{C5B4} (English)", "en"),
    ("\U{C77C}\U{BCF8}\U{C5B4} (Japanese)", "ja"),
    ("\U{C911}\U{AD6D}\U{C5B4} \U{AC04}\U{CCB4} (Chinese Simplified)", "zh-Hans"),
    ("\U{C911}\U{AD6D}\U{C5B4} \U{BC88}\U{CCB4} (Chinese Traditional)", "zh-Hant"),
    ("\U{D504}\U{B791}\U{C2A4}\U{C5B4} (French)", "fr"),
    ("\U{B3C5}\U{C77C}\U{C5B4} (German)", "de"),
    ("\U{C2A4}\U{D398}\U{C778}\U{C5B4} (Spanish)", "es"),
    ("\U{B7EC}\U{C2DC}\U{C544}\U{C5B4} (Russian)", "ru"),
    ("\U{BCA0}\U{D2B8}\U{B0A8}\U{C5B4} (Vietnamese)", "vi")
  ]

  /** With the fallback table Korean is preselected: its first label is
      Korean, so the search stops at index 0. */
  lemma FallbackPreselectsKorean()
    ensures IsKoreanLabel(FallbackLanguages[0].0)
    ensures FallbackLanguages[0].1 == "ko"
  {
    var caption := FallbackLanguages[0].0;
    assert caption[..3] == KoreanName;
    assert OccursAt(caption, KoreanName, 0);
  }
}
