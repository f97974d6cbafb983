/** The CC-CEDICT reader: one dictionary line `TRAD SIMP [PIN1 YIN1] /gloss 1/gloss 2/`
    is parsed into its four parts, turned into a list of headwords, and the
    characters or syllables of a headword are paired with colours by tone. */
module CcCedict {
  import opened Wrappers
  import opened Strings

  // ---------------------------------------------------------------------------
  // parse_line

  /** The four groups of `line_reg`. */
  datatype Groups = Groups(trad: string, simp: string, pinyin: string, eng: string)

  // `s` matches `^([^ ]+) ([^ ]+) \[([^\]]+)\] /(.+)/$` with groups `g`, stated
  // one group at a time: each group is a non-empty prefix of what is left,
  // free of the character that ends it, and followed by the literal text of
  // the pattern. The glosses may not hold a newline (`.` does not match one)
  // and run up to the final `/`; on a stripped line `$` can only match at the
  // very end.

  predicate LineShape(s: string, g: Groups) {
    && g.trad != [] && ' ' !in g.trad
    && |s| > |g.trad| && s[..|g.trad|] == g.trad && s[|g.trad|] == ' '
    && SimpShape(s[|g.trad| + 1..], g.simp, g.pinyin, g.eng)
  }

  predicate SimpShape(t: string, simp: string, pinyin: string, eng: string) {
    && simp != [] && ' ' !in simp
    && |t| > |simp| + 1 && t[..|simp|] == simp && t[|simp|] == ' ' && t[|simp| + 1] == '['
    && PinyinShape(t[|simp| + 2..], pinyin, eng)
  }

  predicate PinyinShape(t: string, pinyin: string, eng: string) {
    && pinyin != [] && ']' !in pinyin
    && |t| > |pinyin| && t[..|pinyin|] == pinyin && t[|pinyin|] == ']'
    && GlossShape(t[|pinyin| + 1..], eng)
  }

  predicate GlossShape(t: string, eng: string) {
    && eng != [] && '\n' !in eng
    && |t| == |eng| + 3 && t[0] == ' ' && t[1] == '/' && t[2..|t| - 1] == eng && t[|t| - 1] == '/'
  }

  /** The group-by-group shape is exactly the line the pattern describes:
      the four groups, each within its character class, with the pattern's
      literal text between them. */
  lemma LineShapeSpelledOut(s: string, g: Groups)
    ensures LineShape(s, g) <==>
              && g.trad != [] && ' ' !in g.trad
              && g.simp != [] && ' ' !in g.simp
              && g.pinyin != [] && ']' !in g.pinyin
              && g.eng != [] && '\n' !in g.eng
              && s == g.trad + " " + (g.simp + " [" + (g.pinyin + "] /" + (g.eng + "/")))
  {
  }

  /** The match, done as the regular expression engine settles it: each of the
      first three groups ends at the first character it cannot contain (a
      space, a space, `]`), and the glosses run up to the final `/`. */
  function MatchGroups(s: string): (r: Option<Groups>)
    ensures r.Some? ==> LineShape(s, r.value)
  {
    match IndexOf(s, ' ')
    case None => None
    case Some(i) =>
      if i == 0 then None
      else
        match MatchFromSimp(s[i + 1..])
        case None => None
        case Some(g) => Some(g.(trad := s[..i]))
  }

  /** The part of the match after the first space, `SIMP [PINYIN] /ENG/` (the
      `trad` field of the result is left empty). */
  function MatchFromSimp(t: string): (r: Option<Groups>)
    ensures r.Some? ==> SimpShape(t, r.value.simp, r.value.pinyin, r.value.eng)
  {
    match IndexOf(t, ' ')
    case None => None
    case Some(j) =>
      if j == 0 || |t| < j + 2 || t[j + 1] != '[' then None
      else
        match MatchFromPinyin(t[j + 2..])
        case None => None
        case Some(pe) => Some(Groups([], t[..j], pe.0, pe.1))
  }

  /** The part of the match after ` [`, `PINYIN] /ENG/`: pinyin and glosses. */
  function MatchFromPinyin(t: string): (r: Option<(string, string)>)
    ensures r.Some? ==> PinyinShape(t, r.value.0, r.value.1)
  {
    match IndexOf(t, ']')
    case None => None
    case Some(k) =>
      if k == 0 then None
      else
        match MatchGloss(t[k + 1..])
        case None => None
        case Some(eng) => Some((t[..k], eng))
  }

  /** The part of the match after `]`, ` /ENG/`: the glosses. */
  function MatchGloss(t: string): (r: Option<string>)
    ensures r.Some? ==> GlossShape(t, r.value)
  {
    if |t| < 4 || t[0] != ' ' || t[1] != '/' || t[|t| - 1] != '/' || '\n' in t[2..|t| - 1] then None
    else Some(t[2..|t| - 1])
  }

  /** `IndexOf` finds an occurrence that nothing before it matches. */
  lemma IndexAtFirst(t: string, k: nat, c: char)
    requires k < |t| && t[k] == c && c !in t[..k]
    ensures IndexOf(t, c) == Some(k)
  {
  }

  lemma MatchGlossComplete(t: string, eng: string)
    requires GlossShape(t, eng)
    ensures MatchGloss(t) == Some(eng)
  {
  }

  lemma MatchFromPinyinComplete(t: string, pinyin: string, eng: string)
    requires PinyinShape(t, pinyin, eng)
    ensures MatchFromPinyin(t) == Some((pinyin, eng))
  {
    IndexAtFirst(t, |pinyin|, ']');
    MatchGlossComplete(t[|pinyin| + 1..], eng);
  }

  lemma MatchFromSimpComplete(t: string, simp: string, pinyin: string, eng: string)
    requires SimpShape(t, simp, pinyin, eng)
    ensures MatchFromSimp(t) == Some(Groups([], simp, pinyin, eng))
  {
    IndexAtFirst(t, |simp|, ' ');
    MatchFromPinyinComplete(t[|simp| + 2..], pinyin, eng);
  }

  /** The match is complete: whenever the line has the shape, the groups found
      are exactly the ones that make it. */
  lemma MatchGroupsComplete(s: string, g: Groups)
    requires LineShape(s, g)
    ensures MatchGroups(s) == Some(g)
  {
    var i := |g.trad|;
    assert s[..i] == g.trad && ' ' !in s[..i];
    IndexAtFirst(s, i, ' ');
    var t := s[i + 1..];
    assert SimpShape(t, g.simp, g.pinyin, g.eng);
    MatchFromSimpComplete(t, g.simp, g.pinyin, g.eng);
  }

  /** A parsed line: `u:` in the pinyin already rewritten, the glosses split. */
  datatype Parsed = Parsed(trad: string, simp: string, pinyin: string, eng: seq<string>)

  /** `parse_line`: nothing exactly when the stripped line does not have the
      shape of a dictionary line; otherwise its traditional and simplified
      forms, its pinyin with `u:` replaced by `v` (so holding no `u:`), and its
      glosses, never none, which joined with `/` give back the gloss text. */
  function ParseLine(line: string): (r: Option<Parsed>)
    ensures r.None? <==> forall g :: !LineShape(Trim(line), g)
    ensures forall g :: LineShape(Trim(line), g) ==>
              && r.Some?
              && r.value.trad == g.trad && r.value.simp == g.simp
              && r.value.pinyin == Replace(g.pinyin, "u:", "v")
              && Join(r.value.eng, '/') == g.eng
    ensures r.Some? ==>
              && !Contains(r.value.pinyin, "u:")
              && |r.value.eng| >= 1
              && forall i :: 0 <= i < |r.value.eng| ==> '/' !in r.value.eng[i]
  {
    var s := Trim(line);
    match MatchGroups(s)
    case None =>
      assert forall g :: !LineShape(s, g) by {
        forall g | LineShape(s, g)
          ensures false
        {
          MatchGroupsComplete(s, g);
        }
      }
      None
    case Some(g) =>
      assert forall g' :: LineShape(s, g') ==> g' == g by {
        forall g' | LineShape(s, g')
          ensures g' == g
        {
          MatchGroupsComplete(s, g');
        }
      }
      var pinyin := Replace(g.pinyin, "u:", "v");
      NoUColonAfterReplace(g.pinyin);
      Some(Parsed(g.trad, g.simp, pinyin, Split(g.eng, '/')))
  }

  /** No `u` directly followed by `:`. */
  predicate NoUColon(t: string) {
    forall k :: 0 <= k < |t| - 1 ==> !(t[k] == 'u' && t[k + 1] == ':')
  }

  /** Replacing every `u:` by `v` leaves no `u:`: a `u` is kept only when the
      character after it is not `:`, and what follows it in the result is that
      character or the `v` that replaced it. */
  lemma {:induction false} ReplacedHasNoUColon(s: string)
    ensures NoUColon(ReplaceOccurrences(s, "u:", "v"))
    decreases |s|
  {
    var r := ReplaceOccurrences(s, "u:", "v");
    if |s| > 0 {
      if "u:" <= s {
        ReplacedHasNoUColon(s[2..]);
        assert r == "v" + ReplaceOccurrences(s[2..], "u:", "v");
      } else {
        var rest := ReplaceOccurrences(s[1..], "u:", "v");
        ReplacedHasNoUColon(s[1..]);
        assert r == [s[0]] + rest;
        if s[0] == 'u' && |rest| > 0 {
          assert |s| >= 2;
          assert s[..2] == [s[0], s[1]];
          if "u:" <= s[1..] {
            assert rest[0] == 'v';
          } else {
            assert rest[0] == s[1];
          }
        }
      }
    }
  }

  lemma NoUColonAfterReplace(s: string)
    ensures !Contains(Replace(s, "u:", "v"), "u:")
  {
    var r := Replace(s, "u:", "v");
    ReplacedHasNoUColon(s);
    forall i
      ensures !OccursAt(r, "u:", i)
    {
      if 0 <= i && i + 2 <= |r| {
        assert r[i..i + 2] == [r[i], r[i + 1]];
      }
    }
  }

  // ---------------------------------------------------------------------------
  // make_entry

  /** The headword list of `make_entry`: simplified form, traditional form,
      pinyin, then one summary per gloss in gloss order. `summarize` is a
      parameter. */
  function MakeEntryNames(p: Parsed, summarize: string -> string): (names: seq<string>)
    ensures |names| == 3 + |p.eng|
    ensures names[0] == p.simp && names[1] == p.trad && names[2] == p.pinyin
    ensures forall i :: 0 <= i < |p.eng| ==> names[3 + i] == summarize(p.eng[i])
  {
    [p.simp, p.trad, p.pinyin] + seq(|p.eng|, i requires 0 <= i < |p.eng| => summarize(p.eng[i]))
  }

  // ---------------------------------------------------------------------------
  // colorize

  /** The tone colours. */
  const Colors: map<string, string> :=
    map["" := "black", "1" := "red", "2" := "orange", "3" := "green", "4" := "blue", "5" := "black"]

  /** Tone lists for headwords whose characters do not line up with their
      pinyin syllables. */
  const CustomTones: map<string, seq<string>> :=
    map[
      "21三体综合症" := ["4", "1", "1", "3", "1", "2", "4"],
      "21三體綜合症" := ["4", "1", "1", "3", "1", "2", "4"],
      "PO" := ["1", "1"],
      "PO文" := ["1", "1", "2"],
      "TA" := ["1", "1"],
      "美国51区" := ["3", "2", "3", "1", "1"],
      "美國51區" := ["3", "2", "3", "1", "1"]
    ]

  /** What `colorize` is given to colour: a headword, whose characters are its
      units, or a list of pinyin syllables. */
  datatype Syllables = Chars(text: string) | Units(items: seq<string>)

  function UnitsOf(syl: Syllables): (u: seq<string>)
    ensures syl.Chars? ==> |u| == |syl.text| && forall i :: 0 <= i < |u| ==> u[i] == [syl.text[i]]
  {
    match syl
    case Chars(t) => seq(|t|, i requires 0 <= i < |t| => [t[i]])
    case Units(xs) => xs
  }

  /** `CUSTOM_TONES.get(syllables, ...)` on a list raises `TypeError`; a tone with
      no colour raises `KeyError`. */
  datatype ColorizeError = UnhashableList | UnknownTone(tone: string)

  /** The `zip` loop: unit `i` followed by a space, coloured by tone `i`; it
      stops at the first tone without a colour. */
  function ColorRun(units: seq<string>, tones: seq<string>): (r: Result<seq<(string, string)>, ColorizeError>)
    requires |units| == |tones|
    ensures r.Success? <==> forall i :: 0 <= i < |tones| ==> tones[i] in Colors
    ensures r.Success? ==>
              |r.value| == |units| && forall i :: 0 <= i < |units| ==> r.value[i] == (units[i] + " ", Colors[tones[i]])
    ensures r.Failure? ==>
              exists j :: 0 <= j < |tones| && r.error == UnknownTone(tones[j]) && tones[j] !in Colors
                && forall i :: 0 <= i < j ==> tones[i] in Colors
    decreases |units|
  {
    if |units| == 0 then Success([])
    else if tones[0] !in Colors then Failure(UnknownTone(tones[0]))
    else
      match ColorRun(units[1..], tones[1..])
      case Failure(err) =>
        ghost var j :| 0 <= j < |tones| - 1 && err == UnknownTone(tones[1..][j]) && tones[1..][j] !in Colors
                        && forall i :: 0 <= i < j ==> tones[1..][i] in Colors;
        assert tones[j + 1] !in Colors;
        Failure(err)
      case Success(rest) =>
        var r := [(units[0] + " ", Colors[tones[0]])] + rest;
        assert forall i :: 1 <= i < |units| ==> r[i] == rest[i - 1];
        Success(r)
  }

  /** `colorize(hf, syllables, tones)` as a list of (text, colour) pairs. When
      the counts differ, a headword listed in `CUSTOM_TONES` takes its tones
      from there (looking a syllable list up raises instead). If the counts
      still differ every unit is emitted uncoloured; otherwise unit `i` is
      paired with the colour of tone `i`. */
  function Colorize(syl: Syllables, tones: seq<string>): (r: Result<seq<(string, string)>, ColorizeError>)
    ensures syl.Units? && |syl.items| != |tones| ==> r == Failure(UnhashableList)
    ensures r.Failure? && r.error == UnhashableList ==> syl.Units? && |syl.items| != |tones|
    ensures |UnitsOf(syl)| == |tones| ==> r == ColorRun(UnitsOf(syl), tones)
    ensures syl.Chars? && |syl.text| != |tones| && syl.text in CustomTones && |CustomTones[syl.text]| == |syl.text| ==>
              r == ColorRun(UnitsOf(syl), CustomTones[syl.text])
    ensures syl.Chars? && |syl.text| != |tones|
              && !(syl.text in CustomTones && |CustomTones[syl.text]| == |syl.text|) ==>
              && r.Success? && |r.value| == |syl.text|
              && forall i :: 0 <= i < |syl.text| ==> r.value[i] == ([syl.text[i]], "")
  {
    var units := UnitsOf(syl);
    if |units| != |tones| && syl.Units? then Failure(UnhashableList)
    else
      var used := if |units| != |tones| && syl.text in CustomTones then CustomTones[syl.text] else tones;
      if |units| != |used| then
        Success(seq(|units|, i requires 0 <= i < |units| => (units[i], "")))
      else
        ColorRun(units, used)
  }

  /** Every `CUSTOM_TONES` entry has one known tone per character, so a listed
      headword is always coloured tone by tone, whatever tones it arrives with,
      and never with an empty colour. */
  lemma CustomTonesLineUp(text: string, tones: seq<string>)
    requires text in CustomTones && |tones| != |text|
    ensures Colorize(Chars(text), tones).Success?
    ensures var r := Colorize(Chars(text), tones).value;
            |r| == |text| && forall i :: 0 <= i < |r| ==> r[i].1 != ""
  {
    var ts := CustomTones[text];
    assert |ts| == |text| && forall i :: 0 <= i < |ts| ==> ts[i] in Colors && Colors[ts[i]] != "";
  }
}
