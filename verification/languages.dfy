/**
 * The fixed language table (`lang_map`) that drives both the story summary and
 * the zip bundle, the per-language story store, and the rule that selects the
 * languages whose story is non-empty.
 */
module Languages {
  import opened Wrappers

  /** A language code and its display name. */
  datatype Lang = Lang(code: string, name: string)

  /** `lang_map`, in its iteration order. */
  const LangMap: seq<Lang> := [
    Lang("chinese", "中文"), Lang("english", "英语"), Lang("french", "法语"),
    Lang("german", "德语"), Lang("spanish", "西班牙语"), Lang("portuguese", "葡萄牙语")
  ]

  /** `translations`: language code to its story text. */
  type Translations = map<string, string>

  /** The `KeyError` raised by `translations[code]` for a missing code. */
  datatype KeyError = KeyError(key: string)

  /** Every language of `langs` has an entry. */
  predicate HasAll(langs: seq<Lang>, tr: Translations) {
    forall i :: 0 <= i < |langs| ==> langs[i].code in tr
  }

  /** The language has a story that is non-empty (Python truthiness of a string). */
  predicate HasStory(tr: Translations, code: string) {
    code in tr && tr[code] != ""
  }

  /** The code of the first language of `langs` without an entry, if any:
      the key of the `KeyError` a loop over `langs` raises. */
  function FirstMissing(langs: seq<Lang>, tr: Translations): (r: Option<string>)
    ensures r.None? <==> HasAll(langs, tr)
    ensures r.Some? ==> r.value !in tr
    ensures r.Some? ==> exists i :: 0 <= i < |langs| && langs[i].code == r.value && HasAll(langs[..i], tr)
  {
    if langs == [] then None
    else if langs[0].code !in tr then
      assert HasAll(langs[..0], tr);
      Some(langs[0].code)
    else
      var r := FirstMissing(langs[1..], tr);
      if r.Some? then
        var i :| 0 <= i < |langs[1..]| && langs[1..][i].code == r.value && HasAll(langs[1..][..i], tr);
        assert langs[..i + 1] == [langs[0]] + langs[1..][..i];
        assert HasAll(langs[..i + 1], tr);
        r
      else r
  }

  /** A loop over `langs` stops at the first missing language. */
  lemma {:induction false} FirstMissingAt(langs: seq<Lang>, tr: Translations, i: nat)
    requires i < |langs| && langs[i].code !in tr && HasAll(langs[..i], tr)
    ensures FirstMissing(langs, tr) == Some(langs[i].code)
  {
    if i > 0 {
      assert langs[0] == langs[..i][0];
      assert langs[1..][..i - 1] == langs[..i][1..];
      FirstMissingAt(langs[1..], tr, i - 1);
    }
  }

  /** The languages of `langs` with a non-empty story, in the order of `langs`. */
  function Present(langs: seq<Lang>, tr: Translations): (p: seq<Lang>)
    requires HasAll(langs, tr)
    ensures |p| <= |langs|
    ensures forall k :: 0 <= k < |p| ==> HasStory(tr, p[k].code)
  {
    if langs == [] then []
    else
      var init, last := langs[..|langs| - 1], langs[|langs| - 1];
      assert HasAll(init, tr);
      Present(init, tr) + (if tr[last.code] != "" then [last] else [])
  }

  /** One more step of a loop over `langs`. */
  lemma PresentSnoc(langs: seq<Lang>, tr: Translations, i: nat)
    requires i < |langs| && HasAll(langs[..i], tr) && langs[i].code in tr
    ensures HasAll(langs[..i + 1], tr)
    ensures Present(langs[..i + 1], tr) ==
              Present(langs[..i], tr) + (if tr[langs[i].code] != "" then [langs[i]] else [])
  {
    assert langs[..i + 1][..i] == langs[..i];
  }

  /** A language is selected exactly when it is listed and its story is non-empty. */
  lemma {:induction false} PresentMembers(langs: seq<Lang>, tr: Translations)
    requires HasAll(langs, tr)
    ensures forall l :: l in Present(langs, tr) <==> l in langs && HasStory(tr, l.code)
  {
    if langs != [] {
      var init, last := langs[..|langs| - 1], langs[|langs| - 1];
      assert langs == init + [last];
      PresentMembers(init, tr);
    }
  }

  /** Selection keeps the order of `langs`: two listed languages with stories
      appear in the selection in the same relative order. */
  lemma {:induction false} PresentOrder(langs: seq<Lang>, tr: Translations, i: nat, j: nat)
    requires HasAll(langs, tr)
    requires i < j < |langs| && HasStory(tr, langs[i].code) && HasStory(tr, langs[j].code)
    ensures exists a, b ::
              0 <= a < b < |Present(langs, tr)| && Present(langs, tr)[a] == langs[i] && Present(langs, tr)[b] == langs[j]
  {
    var init, last := langs[..|langs| - 1], langs[|langs| - 1];
    var p := Present(langs, tr);
    assert HasAll(init, tr);
    if j < |langs| - 1 {
      assert init[i] == langs[i] && init[j] == langs[j];
      PresentOrder(init, tr, i, j);
      var a, b :| 0 <= a < b < |Present(init, tr)| &&
        Present(init, tr)[a] == langs[i] && Present(init, tr)[b] == langs[j];
      assert p[a] == langs[i] && p[b] == langs[j];
    } else {
      PresentMembers(init, tr);
      assert langs[i] == init[i];
      var a :| 0 <= a < |Present(init, tr)| && Present(init, tr)[a] == langs[i];
      assert p[a] == langs[i] && p[|Present(init, tr)|] == langs[j];
    }
  }

  /** No two languages of `langs` share a code. */
  predicate DistinctCodes(langs: seq<Lang>) {
    forall i, j :: 0 <= i < j < |langs| ==> langs[i].code != langs[j].code
  }

  /** Selecting from languages with distinct codes gives languages with distinct codes. */
  lemma {:induction false} PresentDistinct(langs: seq<Lang>, tr: Translations)
    requires HasAll(langs, tr) && DistinctCodes(langs)
    ensures DistinctCodes(Present(langs, tr))
  {
    if langs != [] {
      var init, last := langs[..|langs| - 1], langs[|langs| - 1];
      assert HasAll(init, tr);
      assert DistinctCodes(init) by {
        forall i, j | 0 <= i < j < |init| ensures init[i].code != init[j].code {
          assert init[i] == langs[i] && init[j] == langs[j];
        }
      }
      PresentDistinct(init, tr);
      PresentMembers(init, tr);
      var p := Present(init, tr);
      forall x | x in p ensures x.code != last.code {
        var m :| 0 <= m < |init| && init[m] == x;
        assert langs[m] == x;
      }
    }
  }

  /** When every story is empty nothing is selected. */
  lemma {:induction false} PresentNone(langs: seq<Lang>, tr: Translations)
    requires HasAll(langs, tr)
    requires forall i :: 0 <= i < |langs| ==> tr[langs[i].code] == ""
    ensures Present(langs, tr) == []
  {
    if langs != [] {
      PresentNone(langs[..|langs| - 1], tr);
    }
  }

  /** The codes of `lang_map` are pairwise different. */
  lemma LangMapDistinct()
    ensures DistinctCodes(LangMap)
  {
  }

  /** ASCII `str.upper()` / `str.lower()` of one character. */
  function UpperChar(c: char): char {
    if 'a' <= c <= 'z' then (c as int - 32) as char else c
  }

  function LowerChar(c: char): char {
    if 'A' <= c <= 'Z' then (c as int + 32) as char else c
  }

  /** `str.capitalize()` on ASCII text: first character upper case, the rest lower case. */
  function Capitalize(s: string): (r: string)
    ensures |r| == |s|
  {
    if s == [] then [] else [UpperChar(s[0])] + seq(|s| - 1, i requires 0 <= i < |s| - 1 => LowerChar(s[i + 1]))
  }

  /** Capitalizing keeps the letters and changes only their case: the first is
      not lower case and none after it is upper case. */
  lemma CapitalizeLetters(s: string)
    ensures forall i :: 0 <= i < |s| ==> LowerChar(Capitalize(s)[i]) == LowerChar(s[i])
    ensures s != [] ==> !('a' <= Capitalize(s)[0] <= 'z')
    ensures forall i :: 0 < i < |s| ==> !('A' <= Capitalize(s)[i] <= 'Z')
  {
  }

  /** Capitalizing twice is capitalizing once. */
  lemma CapitalizeIdempotent(s: string)
    ensures Capitalize(Capitalize(s)) == Capitalize(s)
  {
    var c := Capitalize(s);
    if s != [] {
      forall i | 0 <= i < |s| ensures Capitalize(c)[i] == c[i] {
        if i > 0 {
          assert c[i] == LowerChar(s[i]);
        }
      }
    }
  }
}
