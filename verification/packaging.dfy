/**
 * The downloadable documents: the per-language package, the story and
 * metadata summaries, and the zip bundle (as its ordered list of members).
 * Every document is a string; the final UTF-8 encoding is not modelled.
 */
module Packaging {
  import opened Wrappers
  import Comparison
  import opened Languages

  const Separator := "\n\n---\n\n"
  const TableHeading := "# 中文与目标语言对照校对表\n\n"
  const ScriptHeading := "# 纯目标语言口播稿\n\n"
  const StoryTitle := "# 多语言口播文案总览\n\n"
  const MetadataTitle := "# 多语言元数据总览\n\n"
  const SourceHeading := "## 英文原文 (Source)\n\n"
  const TranslationsHeading := "## 各语言翻译 (Translations)\n\n"
  const PackageSuffix := "_story_package.md"

  // ---------------------------------------------------------------------------
  // Per-language package

  /** `generate_package_content(chinese, target)`: the comparison table under its
      heading, a separator, then the target story verbatim under its heading. */
  function PackageContent(chinese: string, target: string, render: Comparison.Renderer): (r: string)
    ensures |target| + 1 <= |r| && PackageTarget(r, |target|) == target
  {
    var table := Comparison.ComparisonTable(chinese, target, render);
    PackageLayout(table, target);
    TableHeading + table + Separator + ScriptHeading + target + "\n"
  }

  /** The target story read back from a package, given its length. */
  function PackageTarget(package: string, n: nat): string
    requires n + 1 <= |package|
  {
    package[|package| - n - 1..|package| - 1]
  }

  /** The rendered table read back from a package, given its length. */
  function PackageTable(package: string, m: nat): string
    requires |TableHeading| + m <= |package|
  {
    package[|TableHeading|..|TableHeading| + m]
  }

  /** The package is its heading, the rendered table, the separator, the
      script heading and the untrimmed target story, then a final newline:
      each part is read back from it. */
  lemma PackageRoundTrip(chinese: string, target: string, render: Comparison.Renderer)
    ensures var table := Comparison.ComparisonTable(chinese, target, render);
      var r := PackageContent(chinese, target, render);
      |r| == |TableHeading| + |table| + |Separator| + |ScriptHeading| + |target| + 1 &&
      r[..|TableHeading|] == TableHeading &&
      PackageTable(r, |table|) == table &&
      r[|TableHeading| + |table|..|TableHeading| + |table| + |Separator| + |ScriptHeading|] == Separator + ScriptHeading &&
      PackageTarget(r, |target|) == target &&
      r[|r| - 1] == '\n'
  {
    PackageLayout(Comparison.ComparisonTable(chinese, target, render), target);
  }

  /** The layout of a package around any table and target text. */
  lemma PackageLayout(table: string, target: string)
    ensures var r := TableHeading + table + Separator + ScriptHeading + target + "\n";
      |r| == |TableHeading| + |table| + |Separator| + |ScriptHeading| + |target| + 1 &&
      r[..|TableHeading|] == TableHeading &&
      PackageTable(r, |table|) == table &&
      r[|TableHeading| + |table|..|TableHeading| + |table| + |Separator| + |ScriptHeading|] == Separator + ScriptHeading &&
      PackageTarget(r, |target|) == target &&
      r[|r| - 1] == '\n'
  {
    var r := TableHeading + table + Separator + ScriptHeading + target + "\n";
    var h := TableHeading + table;
    assert r == TableHeading + table + (Separator + ScriptHeading) + (target + "\n");
    assert r[..|TableHeading|] == TableHeading;
    assert r[|TableHeading|..|TableHeading| + |table|] == table;
    assert r[|h|..|h| + |Separator + ScriptHeading|] == Separator + ScriptHeading;
    assert r[|r| - |target| - 1..|r| - 1] == (target + "\n")[..|target|];
  }

  // ---------------------------------------------------------------------------
  // Story summary

  /** A `## heading` section followed by its body and a separator. */
  datatype Section = Section(heading: string, body: string)

  /** The text of a section: its heading and its body can be read back from it. */
  function SectionText(s: Section): (t: string)
    ensures |t| == |s.heading| + |s.body| + 5 + |Separator|
    ensures t[3..3 + |s.heading|] == s.heading
    ensures t[5 + |s.heading|..5 + |s.heading| + |s.body|] == s.body
  {
    var t := "## " + s.heading + "\n\n" + s.body + Separator;
    assert t == "## " + s.heading + ("\n\n" + s.body + Separator);
    assert t == ("## " + s.heading + "\n\n") + s.body + Separator;
    t
  }

  /** The sections one after another. */
  function Concat(ss: seq<Section>): (r: string)
    ensures ss != [] ==> |SectionText(ss[0])| <= |r| && r[..|SectionText(ss[0])|] == SectionText(ss[0])
    ensures ss != [] ==> |SectionText(ss[|ss| - 1])| <= |r| &&
                         r[|r| - |SectionText(ss[|ss| - 1])|..] == SectionText(ss[|ss| - 1])
  {
    if ss == [] then ""
    else
      var init := Concat(ss[..|ss| - 1]);
      var r := init + SectionText(ss[|ss| - 1]);
      assert |ss| > 1 ==> ss[..|ss| - 1][0] == ss[0];
      r
  }

  /** The section of the source story. */
  function SourceSection(source: string): (s: Section)
    ensures "## " + s.heading + "\n\n" == SourceHeading
  {
    Section("英文原文 (Source)", source)
  }

  /** The section of one language: `## {name} ({Code})` over its story. */
  function LangSection(l: Lang, story: string): (s: Section)
    ensures s.body == story
    ensures |s.heading| == |l.name| + |l.code| + 3
  {
    Section(l.name + " (" + Capitalize(l.code) + ")", story)
  }

  /** A language heading holds the display name and, in parentheses, the
      capitalized code; it does not depend on the story. */
  lemma HeadingParts(l: Lang, story: string)
    ensures LangSection(l, story).heading == LangSection(l, "").heading
    ensures LangSection(l, story).heading[..|l.name|] == l.name
    ensures LangSection(l, story).heading[|l.name|..|l.name| + 2] == " ("
    ensures LangSection(l, story).heading[|l.name| + 2..|l.name| + 2 + |l.code|] == Capitalize(l.code)
    ensures LangSection(l, story).heading[|l.name| + 2 + |l.code|] == ')'
  {
    var h := LangSection(l, story).heading;
    assert h == l.name + (" (" + Capitalize(l.code) + ")");
    assert h[|l.name|..] == " (" + Capitalize(l.code) + ")";
  }

  /** No two languages of `langs` get the same section heading. */
  predicate DistinctHeadings(langs: seq<Lang>) {
    forall i, j :: 0 <= i < j < |langs| ==> LangSection(langs[i], "").heading != LangSection(langs[j], "").heading
  }

  /** The headings the summary prints for the six languages of `lang_map`. */
  const Headings: seq<string> := [
    "中文 (Chinese)", "英语 (English)", "法语 (French)",
    "德语 (German)", "西班牙语 (Spanish)", "葡萄牙语 (Portuguese)"
  ]

  /** The `k`-th language of `lang_map` is printed under the `k`-th heading,
      whatever its story. */
  lemma LangMapHeading(k: nat, story: string)
    requires k < |LangMap|
    ensures LangSection(LangMap[k], story).heading == Headings[k]
  {
    HeadingParts(LangMap[k], story);
    if k == 0 {
      ChineseHeading();
    } else if k == 1 {
      EnglishHeading();
    } else if k == 2 {
      FrenchHeading();
    } else if k == 3 {
      GermanHeading();
    } else if k == 4 {
      SpanishHeading();
    } else {
      PortugueseHeading();
    }
  }

  lemma ChineseHeading() ensures LangSection(LangMap[0], "").heading == "中文 (Chinese)" { }
  lemma EnglishHeading() ensures LangSection(LangMap[1], "").heading == "英语 (English)" { }
  lemma FrenchHeading() ensures LangSection(LangMap[2], "").heading == "法语 (French)" { }
  lemma GermanHeading() ensures LangSection(LangMap[3], "").heading == "德语 (German)" { }
  lemma SpanishHeading() ensures LangSection(LangMap[4], "").heading == "西班牙语 (Spanish)" { }
  lemma PortugueseHeading() ensures LangSection(LangMap[5], "").heading == "葡萄牙语 (Portuguese)" { }

  /** The six headings of `lang_map` are pairwise different: their first
      characters differ. */
  lemma LangMapHeadingsDistinct()
    ensures DistinctHeadings(LangMap)
  {
    HeadingInitials();
    forall i, j | 0 <= i < j < |LangMap|
      ensures LangSection(LangMap[i], "").heading != LangSection(LangMap[j], "").heading
    {
      LangMapHeading(i, "");
      LangMapHeading(j, "");
      assert Headings[i][0] != Headings[j][0];
    }
  }

  lemma HeadingInitials()
    ensures forall i, j :: 0 <= i < j < |Headings| ==> |Headings[i]| > 0 && |Headings[j]| > 0 && Headings[i][0] != Headings[j][0]
  {
  }

  /** One section per selected language, in selection order. */
  function LangSections(present: seq<Lang>, tr: Translations): (ss: seq<Section>)
    requires forall k :: 0 <= k < |present| ==> present[k].code in tr
    ensures |ss| == |present|
  {
    seq(|present|, k requires 0 <= k < |present| => LangSection(present[k], tr[present[k].code]))
  }

  /** The sections of the story summary: the source first, then every language
      of `lang_map` whose story is non-empty. */
  function StorySections(source: string, tr: Translations): (ss: seq<Section>)
    requires HasAll(LangMap, tr)
    ensures |ss| == 1 + |Present(LangMap, tr)|
    ensures ss[0] == SourceSection(source)
  {
    [SourceSection(source)] + LangSections(Present(LangMap, tr), tr)
  }

  /** `create_summary_story_file(source, translations)`, or the `KeyError` it raises. */
  function StorySummary(source: string, tr: Translations): (r: Result<string, KeyError>)
    ensures r.Ok? <==> HasAll(LangMap, tr)
    ensures r.Err? ==> r.error.key !in tr
  {
    match FirstMissing(LangMap, tr)
    case Some(code) => Err(KeyError(code))
    case None => Ok(StoryTitle + Concat(StorySections(source, tr)))
  }

  /** The document after the loop has visited the first `i` languages of `langs`. */
  function SummaryAfter(langs: seq<Lang>, source: string, tr: Translations, i: nat): string
    requires i <= |langs| && HasAll(langs[..i], tr)
  {
    StoryTitle + Concat([SourceSection(source)] + LangSections(Present(langs[..i], tr), tr))
  }

  /** One iteration appends the language's section when its story is non-empty. */
  lemma SummaryStep(langs: seq<Lang>, source: string, tr: Translations, i: nat)
    requires i < |langs| && HasAll(langs[..i], tr) && langs[i].code in tr
    ensures HasAll(langs[..i + 1], tr)
    ensures SummaryAfter(langs, source, tr, i + 1) ==
              SummaryAfter(langs, source, tr, i) +
              (if tr[langs[i].code] != "" then SectionText(LangSection(langs[i], tr[langs[i].code])) else "")
  {
    PresentSnoc(langs, tr, i);
    if tr[langs[i].code] != "" {
      SectionsSnoc(source, Present(langs[..i], tr), langs[i], tr);
    } else {
      assert Present(langs[..i + 1], tr) == Present(langs[..i], tr);
    }
  }

  /** Selecting one more language appends its section to the document. */
  lemma SectionsSnoc(source: string, present: seq<Lang>, l: Lang, tr: Translations)
    requires forall k :: 0 <= k < |present| ==> present[k].code in tr
    requires l.code in tr
    ensures StoryTitle + Concat([SourceSection(source)] + LangSections(present + [l], tr)) ==
            StoryTitle + Concat([SourceSection(source)] + LangSections(present, tr)) + SectionText(LangSection(l, tr[l.code]))
  {
    var before := [SourceSection(source)] + LangSections(present, tr);
    var section := LangSection(l, tr[l.code]);
    LangSectionsSnoc(present, l, tr);
    assert [SourceSection(source)] + LangSections(present + [l], tr) == before + [section];
    ConcatSnoc(before, section);
  }

  /** `create_summary_story_file`: the document is built by appending sections
      while iterating over `lang_map`. */
  method CreateSummaryStoryFile(source: string, tr: Translations) returns (r: Result<string, KeyError>)
    ensures r == StorySummary(source, tr)
  {
    var content := StoryTitle;
    content := content + SourceHeading;
    content := content + source + Separator;
    SummaryStart(source, tr);
    for i := 0 to |LangMap|
      invariant HasAll(LangMap[..i], tr)
      invariant content == SummaryAfter(LangMap, source, tr, i)
    {
      var lang := LangMap[i];
      if lang.code !in tr {
        FirstMissingAt(LangMap, tr, i);
        return Err(KeyError(lang.code));
      }
      SummaryStep(LangMap, source, tr, i);
      if tr[lang.code] != "" {
        AppendSection(content, lang.name, Capitalize(lang.code), tr[lang.code]);
        content := content + "## " + lang.name + " (" + Capitalize(lang.code) + ")\n\n";
        content := content + tr[lang.code] + Separator;
      }
    }
    SummaryEnd(source, tr);
    return Ok(content);
  }

  /** Before the loop the document holds the title and the source section. */
  lemma SummaryStart(source: string, tr: Translations)
    ensures StoryTitle + SourceHeading + source + Separator == SummaryAfter(LangMap, source, tr, 0)
  {
    assert LangSections(Present(LangMap[..0], tr), tr) == [];
    assert [SourceSection(source)] + [] == [SourceSection(source)];
    SourceOnlyText(source);
  }

  /** The title and the source section alone. */
  lemma SourceOnlyText(source: string)
    ensures StoryTitle + Concat([SourceSection(source)]) == StoryTitle + SourceHeading + source + Separator
  {
    SingleSectionText(StoryTitle, SourceSection(source), SourceHeading);
  }

  /** A title followed by one section whose heading line is `prefix`. */
  lemma SingleSectionText(title: string, x: Section, prefix: string)
    requires "## " + x.heading + "\n\n" == prefix
    ensures title + Concat([x]) == title + prefix + x.body + Separator
  {
    assert Concat([x]) == SectionText(x) by {
      assert [x][..0] == [];
    }
    AppendPieces(title, prefix, x.body, Separator);
  }

  lemma AppendPieces(a: string, b: string, c: string, d: string)
    ensures a + (b + c + d) == a + b + c + d
  {
  }

  /** After the whole loop the document is the summary. */
  lemma SummaryEnd(source: string, tr: Translations)
    requires HasAll(LangMap[..|LangMap|], tr)
    ensures StorySummary(source, tr) == Ok(SummaryAfter(LangMap, source, tr, |LangMap|))
  {
    assert LangMap[..|LangMap|] == LangMap;
  }

  /** Appending a language heading and a body, piece by piece, appends its section. */
  lemma AppendSection(content: string, name: string, code: string, body: string)
    ensures content + "## " + name + " (" + code + ")\n\n" + body + Separator
            == content + SectionText(Section(name + " (" + code + ")", body))
  {
  }

  lemma ConcatSnoc(ss: seq<Section>, s: Section)
    ensures Concat(ss + [s]) == Concat(ss) + SectionText(s)
  {
    assert (ss + [s])[..|ss|] == ss;
  }

  lemma LangSectionsSnoc(present: seq<Lang>, l: Lang, tr: Translations)
    requires forall k :: 0 <= k < |present| ==> present[k].code in tr
    requires l.code in tr
    ensures LangSections(present + [l], tr) == LangSections(present, tr) + [LangSection(l, tr[l.code])]
  {
  }

  /** After the source section, a section under a language's heading exists
      exactly when its story is non-empty, and it then holds that story. */
  lemma SummaryHasSectionIffStory(source: string, tr: Translations, l: Lang)
    requires HasAll(LangMap, tr) && l in LangMap
    ensures (exists k :: 1 <= k < |StorySections(source, tr)| &&
               StorySections(source, tr)[k].heading == LangSection(l, "").heading) <==> tr[l.code] != ""
    ensures tr[l.code] != "" ==> LangSection(l, tr[l.code]) in StorySections(source, tr)
  {
    assert StorySections(source, tr) == [SourceSection(source)] + LangSections(Present(LangMap, tr), tr);
    LangMapHeadingsDistinct();
    LangSectionsIff(LangMap, tr, l);
    ConsHeadings(SourceSection(source), LangSections(Present(LangMap, tr), tr), LangSection(l, "").heading);
  }

  /** Putting one section in front shifts every later section by one place. */
  lemma ConsHeadings(x: Section, ls: seq<Section>, h: string)
    ensures (exists k :: 1 <= k < |[x] + ls| && ([x] + ls)[k].heading == h) <==>
            (exists k :: 0 <= k < |ls| && ls[k].heading == h)
    ensures forall s :: s in ls ==> s in [x] + ls
  {
    if exists k :: 1 <= k < |[x] + ls| && ([x] + ls)[k].heading == h {
      var k :| 1 <= k < |[x] + ls| && ([x] + ls)[k].heading == h;
      assert ls[k - 1] == ([x] + ls)[k];
    }
    if exists k :: 0 <= k < |ls| && ls[k].heading == h {
      var k :| 0 <= k < |ls| && ls[k].heading == h;
      assert ([x] + ls)[k + 1] == ls[k];
    }
  }

  lemma LangSectionsIff(langs: seq<Lang>, tr: Translations, l: Lang)
    requires HasAll(langs, tr) && l in langs && DistinctHeadings(langs)
    ensures (exists k :: 0 <= k < |LangSections(Present(langs, tr), tr)| &&
               LangSections(Present(langs, tr), tr)[k].heading == LangSection(l, "").heading) <==> tr[l.code] != ""
    ensures tr[l.code] != "" ==> LangSection(l, tr[l.code]) in LangSections(Present(langs, tr), tr)
  {
    var ls := LangSections(Present(langs, tr), tr);
    if tr[l.code] != "" {
      SectionOfStory(langs, tr, l);
    }
    if exists k :: 0 <= k < |ls| && ls[k].heading == LangSection(l, "").heading {
      var k :| 0 <= k < |ls| && ls[k].heading == LangSection(l, "").heading;
      StoryOfSection(langs, tr, l, k);
    }
  }

  /** A listed language with a story has its section. */
  lemma SectionOfStory(langs: seq<Lang>, tr: Translations, l: Lang)
    requires HasAll(langs, tr) && l in langs && tr[l.code] != ""
    ensures exists k :: 0 <= k < |LangSections(Present(langs, tr), tr)| &&
              LangSections(Present(langs, tr), tr)[k] == LangSection(l, tr[l.code])
  {
    var p := Present(langs, tr);
    PresentMembers(langs, tr);
    assert l in p;
    var k :| 0 <= k < |p| && p[k] == l;
    assert LangSections(p, tr)[k] == LangSection(l, tr[l.code]);
  }

  /** A selected section under a listed language's heading belongs to that
      language, whose story is therefore non-empty. */
  lemma StoryOfSection(langs: seq<Lang>, tr: Translations, l: Lang, k: nat)
    requires HasAll(langs, tr) && l in langs && DistinctHeadings(langs)
    requires k < |LangSections(Present(langs, tr), tr)|
    requires LangSections(Present(langs, tr), tr)[k].heading == LangSection(l, "").heading
    ensures tr[l.code] != ""
  {
    var p := Present(langs, tr);
    var x := p[k];
    assert LangSections(p, tr)[k] == LangSection(x, tr[x.code]);
    HeadingParts(x, tr[x.code]);
    PresentMembers(langs, tr);
    assert x in p;
    var m :| 0 <= m < |langs| && langs[m] == x;
    var n :| 0 <= n < |langs| && langs[n] == l;
    assert m == n;
  }

  /** Sections of two languages follow the order of `lang_map`. */
  lemma SummaryOrder(source: string, tr: Translations, i: nat, j: nat)
    requires HasAll(LangMap, tr)
    requires i < j < |LangMap| && tr[LangMap[i].code] != "" && tr[LangMap[j].code] != ""
    ensures exists a, b :: 0 < a < b < |StorySections(source, tr)| &&
              StorySections(source, tr)[a] == LangSection(LangMap[i], tr[LangMap[i].code]) &&
              StorySections(source, tr)[b] == LangSection(LangMap[j], tr[LangMap[j].code])
  {
    assert StorySections(source, tr) == [SourceSection(source)] + LangSections(Present(LangMap, tr), tr);
    SectionsOrder(source, LangMap, tr, i, j);
  }

  lemma SectionsOrder(source: string, langs: seq<Lang>, tr: Translations, i: nat, j: nat)
    requires HasAll(langs, tr)
    requires i < j < |langs| && HasStory(tr, langs[i].code) && HasStory(tr, langs[j].code)
    ensures exists a, b :: 0 < a < b < |[SourceSection(source)] + LangSections(Present(langs, tr), tr)| &&
              ([SourceSection(source)] + LangSections(Present(langs, tr), tr))[a] == LangSection(langs[i], tr[langs[i].code]) &&
              ([SourceSection(source)] + LangSections(Present(langs, tr), tr))[b] == LangSection(langs[j], tr[langs[j].code])
  {
    PresentOrder(langs, tr, i, j);
    var p := Present(langs, tr);
    var a, b :| 0 <= a < b < |p| && p[a] == langs[i] && p[b] == langs[j];
    SectionAt(source, p, tr, a);
    SectionAt(source, p, tr, b);
  }

  /** After the source section, the `k`-th section is that of the `k`-th selected language. */
  lemma SectionAt(source: string, present: seq<Lang>, tr: Translations, k: nat)
    requires forall m :: 0 <= m < |present| ==> present[m].code in tr
    requires k < |present|
    ensures |[SourceSection(source)] + LangSections(present, tr)| == |present| + 1
    ensures ([SourceSection(source)] + LangSections(present, tr))[k + 1] == LangSection(present[k], tr[present[k].code])
  {
  }

  /** With every translation empty the summary is the source section alone. */
  lemma SummaryOfSourceOnly(source: string, tr: Translations)
    requires HasAll(LangMap, tr)
    requires forall i :: 0 <= i < |LangMap| ==> tr[LangMap[i].code] == ""
    ensures StorySummary(source, tr) == Ok(StoryTitle + SourceHeading + source + Separator)
  {
    PresentNone(LangMap, tr);
    assert StorySections(source, tr) == [SourceSection(source)];
    assert FirstMissing(LangMap, tr) == None;
    assert StorySummary(source, tr) == Ok(StoryTitle + Concat([SourceSection(source)]));
    SourceOnlyText(source);
  }

  // ---------------------------------------------------------------------------
  // Metadata summary

  /** `create_metadata_summary_file(source_md, translated_md)`. */
  function MetadataSummary(source: string, translated: string): (r: string)
    ensures |r| == |MetadataTitle| + |SourceHeading| + |source| + |Separator| + |TranslationsHeading| + |translated| + 2
    ensures r[..|MetadataTitle| + |SourceHeading|] == MetadataTitle + SourceHeading
  {
    var r := MetadataTitle + SourceHeading + source + "\n\n" + "---\n\n" + TranslationsHeading + translated + "\n\n";
    assert r == (MetadataTitle + SourceHeading) + (source + "\n\n" + "---\n\n" + TranslationsHeading + translated + "\n\n");
    r
  }

  /** The source metadata read back from a summary, given its length. */
  function MetadataSource(summary: string, n: nat): string
    requires |MetadataTitle| + |SourceHeading| + n <= |summary|
  {
    summary[|MetadataTitle| + |SourceHeading|..|MetadataTitle| + |SourceHeading| + n]
  }

  /** The translated metadata read back from a summary, given its length. */
  function MetadataTranslated(summary: string, n: nat): string
    requires n + 2 <= |summary|
  {
    summary[|summary| - n - 2..|summary| - 2]
  }

  /** Both blocks are kept verbatim, between fixed headings that are present
      even when the blocks are empty. */
  lemma MetadataRoundTrip(source: string, translated: string)
    ensures MetadataSource(MetadataSummary(source, translated), |source|) == source
    ensures MetadataTranslated(MetadataSummary(source, translated), |translated|) == translated
    ensures MetadataSummary(source, translated)[|MetadataTitle| + |SourceHeading| + |source|..|MetadataTitle| + |SourceHeading| + |source| + |Separator| + |TranslationsHeading|]
            == Separator + TranslationsHeading
  {
    var r := MetadataSummary(source, translated);
    var h := MetadataTitle + SourceHeading;
    assert r == h + source + (Separator + TranslationsHeading) + (translated + "\n\n");
    assert r[|h|..|h| + |source|] == source;
    assert r[|h| + |source|..|h| + |source| + |Separator + TranslationsHeading|] == Separator + TranslationsHeading;
    assert r[|r| - |translated| - 2..|r| - 2] == (translated + "\n\n")[..|translated|];
  }

  // ---------------------------------------------------------------------------
  // Zip bundle

  /** One archive member: its file name and its content. */
  datatype Entry = Entry(name: string, content: string)

  /** The in-memory archive, as the ordered list of members written so far. */
  class ZipArchive {
    var entries: seq<Entry>

    constructor ()
      ensures entries == []
    {
      entries := [];
    }

    /** `writestr(name, data)`: appends one member. */
    method WriteStr(name: string, data: string)
      modifies this
      ensures entries == old(entries) + [Entry(name, data)]
    {
      entries := entries + [Entry(name, data)];
    }
  }

  /** The member for one language: its package against the Chinese story. */
  function PackageEntry(l: Lang, tr: Translations, render: Comparison.Renderer): (e: Entry)
    requires "chinese" in tr && l.code in tr
    ensures e.name == l.code + PackageSuffix
  {
    Entry(l.code + PackageSuffix, PackageContent(tr["chinese"], tr[l.code], render))
  }

  /** One member per selected language, in selection order. */
  function Entries(present: seq<Lang>, tr: Translations, render: Comparison.Renderer): (es: seq<Entry>)
    requires |present| > 0 ==> "chinese" in tr
    requires forall k :: 0 <= k < |present| ==> present[k].code in tr
    ensures |es| == |present|
    ensures forall k :: 0 <= k < |es| ==> es[k].name == present[k].code + PackageSuffix
  {
    seq(|present|, k requires 0 <= k < |present| => PackageEntry(present[k], tr, render))
  }

  /** The members of `create_full_zip_package(translations)`, or the `KeyError` it raises. */
  function ZipEntries(tr: Translations, render: Comparison.Renderer): (r: Result<seq<Entry>, KeyError>)
    ensures r.Ok? <==> HasAll(LangMap, tr)
    ensures r.Ok? ==> "chinese" in tr
    ensures r.Err? ==> r.error.key !in tr
  {
    match FirstMissing(LangMap, tr)
    case Some(code) => Err(KeyError(code))
    case None =>
      assert LangMap[0].code == "chinese";
      Ok(Entries(Present(LangMap, tr), tr, render))
  }

  /** The members written after the loop has visited the first `i` languages of `langs`. */
  function ZipAfter(langs: seq<Lang>, tr: Translations, render: Comparison.Renderer, i: nat): seq<Entry>
    requires |langs| > 0 && langs[0].code == "chinese"
    requires i <= |langs| && HasAll(langs[..i], tr)
  {
    assert i > 0 ==> langs[..i][0].code == "chinese";
    Entries(Present(langs[..i], tr), tr, render)
  }

  /** One iteration writes the language's member when its story is non-empty. */
  lemma ZipStep(langs: seq<Lang>, tr: Translations, render: Comparison.Renderer, i: nat)
    requires |langs| > 0 && langs[0].code == "chinese"
    requires i < |langs| && HasAll(langs[..i], tr) && langs[i].code in tr
    ensures "chinese" in tr && HasAll(langs[..i + 1], tr)
    ensures ZipAfter(langs, tr, render, i + 1) ==
              ZipAfter(langs, tr, render, i) +
              (if tr[langs[i].code] != "" then [PackageEntry(langs[i], tr, render)] else [])
  {
    assert langs[..i + 1][0].code == "chinese";
    PresentSnoc(langs, tr, i);
    var p := Present(langs[..i], tr);
    if tr[langs[i].code] != "" {
      EntriesSnoc(p, langs[i], tr, render);
    } else {
      assert p + [] == p;
    }
  }

  lemma EntriesSnoc(present: seq<Lang>, l: Lang, tr: Translations, render: Comparison.Renderer)
    requires "chinese" in tr && l.code in tr
    requires forall k :: 0 <= k < |present| ==> present[k].code in tr
    ensures Entries(present + [l], tr, render) == Entries(present, tr, render) + [PackageEntry(l, tr, render)]
  {
    var a := Entries(present + [l], tr, render);
    var b := Entries(present, tr, render) + [PackageEntry(l, tr, render)];
    forall k | 0 <= k < |a| ensures a[k] == b[k] {
      if k < |present| {
        assert (present + [l])[k] == present[k];
      }
    }
  }

  /** `create_full_zip_package`: members are written while iterating over `lang_map`. */
  method CreateFullZipPackage(tr: Translations, render: Comparison.Renderer) returns (r: Result<seq<Entry>, KeyError>)
    ensures r == ZipEntries(tr, render)
  {
    var zip := new ZipArchive();
    assert LangMap[0].code == "chinese";
    for i := 0 to |LangMap|
      invariant HasAll(LangMap[..i], tr)
      invariant zip.entries == ZipAfter(LangMap, tr, render, i)
    {
      var lang := LangMap[i];
      if lang.code !in tr {
        FirstMissingAt(LangMap, tr, i);
        return Err(KeyError(lang.code));
      }
      ZipStep(LangMap, tr, render, i);
      if tr[lang.code] != "" {
        var content := PackageContent(tr["chinese"], tr[lang.code], render);
        zip.WriteStr(lang.code + PackageSuffix, content);
      }
    }
    assert LangMap[..|LangMap|] == LangMap;
    return Ok(zip.entries);
  }

  /** A language has a member, under its own file name and holding its package,
      exactly when its story is non-empty. */
  lemma ZipHasEntryIffStory(tr: Translations, render: Comparison.Renderer, l: Lang)
    requires HasAll(LangMap, tr) && l in LangMap
    ensures ZipEntries(tr, render).Ok?
    ensures (exists k :: 0 <= k < |ZipEntries(tr, render).value| &&
               ZipEntries(tr, render).value[k].name == l.code + PackageSuffix) <==> tr[l.code] != ""
    ensures tr[l.code] != "" ==> PackageEntry(l, tr, render) in ZipEntries(tr, render).value
  {
    assert ZipEntries(tr, render).value == Entries(Present(LangMap, tr), tr, render);
    EntriesIff(LangMap, tr, render, l);
  }

  lemma EntriesIff(langs: seq<Lang>, tr: Translations, render: Comparison.Renderer, l: Lang)
    requires HasAll(langs, tr) && "chinese" in tr && l in langs
    ensures (exists k :: 0 <= k < |Entries(Present(langs, tr), tr, render)| &&
               Entries(Present(langs, tr), tr, render)[k].name == l.code + PackageSuffix) <==> tr[l.code] != ""
    ensures tr[l.code] != "" ==> PackageEntry(l, tr, render) in Entries(Present(langs, tr), tr, render)
  {
    var es := Entries(Present(langs, tr), tr, render);
    if tr[l.code] != "" {
      EntryOfStory(langs, tr, render, l);
    }
    if exists k :: 0 <= k < |es| && es[k].name == l.code + PackageSuffix {
      var k :| 0 <= k < |es| && es[k].name == l.code + PackageSuffix;
      StoryOfEntry(langs, tr, render, l, k);
    }
  }

  /** A listed language with a story has its member, under its own name. */
  lemma EntryOfStory(langs: seq<Lang>, tr: Translations, render: Comparison.Renderer, l: Lang)
    requires HasAll(langs, tr) && "chinese" in tr && l in langs && tr[l.code] != ""
    ensures exists k :: 0 <= k < |Entries(Present(langs, tr), tr, render)| &&
              Entries(Present(langs, tr), tr, render)[k] == PackageEntry(l, tr, render)
  {
    var p := Present(langs, tr);
    PresentMembers(langs, tr);
    assert l in p;
    var k :| 0 <= k < |p| && p[k] == l;
    EntryAt(p, tr, render, k);
  }

  /** A member named after a language holds that language's non-empty story. */
  lemma StoryOfEntry(langs: seq<Lang>, tr: Translations, render: Comparison.Renderer, l: Lang, k: nat)
    requires HasAll(langs, tr) && "chinese" in tr && l.code in tr
    requires k < |Entries(Present(langs, tr), tr, render)|
    requires Entries(Present(langs, tr), tr, render)[k].name == l.code + PackageSuffix
    ensures tr[l.code] != ""
  {
    var p := Present(langs, tr);
    EntryAt(p, tr, render, k);
    NameSuffixInjective(p[k].code, l.code);
    PresentMembers(langs, tr);
    assert p[k] in p;
  }

  /** Every member is the package of a language of `lang_map` with a non-empty
      story, and no two members share a file name. */
  lemma ZipMembersWellFormed(tr: Translations, render: Comparison.Renderer)
    requires HasAll(LangMap, tr)
    ensures ZipEntries(tr, render).Ok?
    ensures forall e :: e in ZipEntries(tr, render).value ==>
              exists l :: l in LangMap && HasStory(tr, l.code) && e == PackageEntry(l, tr, render)
    ensures forall a, b :: 0 <= a < b < |ZipEntries(tr, render).value| ==>
              ZipEntries(tr, render).value[a].name != ZipEntries(tr, render).value[b].name
  {
    assert ZipEntries(tr, render).value == Entries(Present(LangMap, tr), tr, render);
    LangMapDistinct();
    EntriesWellFormed(LangMap, tr, render);
  }

  lemma EntriesWellFormed(langs: seq<Lang>, tr: Translations, render: Comparison.Renderer)
    requires HasAll(langs, tr) && "chinese" in tr && DistinctCodes(langs)
    ensures forall e :: e in Entries(Present(langs, tr), tr, render) ==>
              exists l :: l in langs && HasStory(tr, l.code) && e == PackageEntry(l, tr, render)
    ensures forall a, b :: 0 <= a < b < |Entries(Present(langs, tr), tr, render)| ==>
              Entries(Present(langs, tr), tr, render)[a].name != Entries(Present(langs, tr), tr, render)[b].name
  {
    var p := Present(langs, tr);
    var es := Entries(p, tr, render);
    PresentMembers(langs, tr);
    PresentDistinct(langs, tr);
    forall e | e in es
      ensures exists l :: l in langs && HasStory(tr, l.code) && e == PackageEntry(l, tr, render)
    {
      var k :| 0 <= k < |es| && es[k] == e;
      assert p[k] in p;
      EntryAt(p, tr, render, k);
    }
    forall a, b | 0 <= a < b < |es| ensures es[a].name != es[b].name {
      EntryAt(p, tr, render, a);
      EntryAt(p, tr, render, b);
      if es[a].name == es[b].name {
        NameSuffixInjective(p[a].code, p[b].code);
      }
    }
  }

  lemma EntryAt(present: seq<Lang>, tr: Translations, render: Comparison.Renderer, k: nat)
    requires |present| > 0 ==> "chinese" in tr
    requires forall k :: 0 <= k < |present| ==> present[k].code in tr
    requires k < |present|
    ensures Entries(present, tr, render)[k] == PackageEntry(present[k], tr, render)
    ensures Entries(present, tr, render)[k].name == present[k].code + PackageSuffix
  {
  }

  lemma NameSuffixInjective(c1: string, c2: string)
    requires c1 + PackageSuffix == c2 + PackageSuffix
    ensures c1 == c2
  {
    assert c1 == (c1 + PackageSuffix)[..|c1|];
    assert c2 == (c2 + PackageSuffix)[..|c2|];
  }

  /** With every story empty the archive has no members; it is not an error. */
  lemma ZipOfNoStories(tr: Translations, render: Comparison.Renderer)
    requires HasAll(LangMap, tr)
    requires forall i :: 0 <= i < |LangMap| ==> tr[LangMap[i].code] == ""
    ensures ZipEntries(tr, render) == Ok([])
  {
    PresentNone(LangMap, tr);
  }

  /** Members follow the order of `lang_map`. */
  lemma ZipOrder(tr: Translations, render: Comparison.Renderer, i: nat, j: nat)
    requires HasAll(LangMap, tr)
    requires i < j < |LangMap| && tr[LangMap[i].code] != "" && tr[LangMap[j].code] != ""
    ensures ZipEntries(tr, render).Ok?
    ensures exists a, b :: 0 <= a < b < |ZipEntries(tr, render).value| &&
              ZipEntries(tr, render).value[a] == PackageEntry(LangMap[i], tr, render) &&
              ZipEntries(tr, render).value[b] == PackageEntry(LangMap[j], tr, render)
  {
    assert ZipEntries(tr, render).value == Entries(Present(LangMap, tr), tr, render);
    EntriesOrder(LangMap, tr, render, i, j);
  }

  lemma EntriesOrder(langs: seq<Lang>, tr: Translations, render: Comparison.Renderer, i: nat, j: nat)
    requires HasAll(langs, tr) && "chinese" in tr
    requires i < j < |langs| && HasStory(tr, langs[i].code) && HasStory(tr, langs[j].code)
    ensures exists a, b :: 0 <= a < b < |Entries(Present(langs, tr), tr, render)| &&
              Entries(Present(langs, tr), tr, render)[a] == PackageEntry(langs[i], tr, render) &&
              Entries(Present(langs, tr), tr, render)[b] == PackageEntry(langs[j], tr, render)
  {
    PresentOrder(langs, tr, i, j);
    var p := Present(langs, tr);
    var a, b :| 0 <= a < b < |p| && p[a] == langs[i] && p[b] == langs[j];
    EntryAt(p, tr, render, a);
    EntryAt(p, tr, render, b);
  }
}
