/** `Entry`: one dictionary record, a headword with its alternates mapped to a
    definition with its alternates, in one of three definition formats. The
    mutators of the Python class become functions from the old entry to the new. */
module Entries {
  import opened Wrappers
  import opened Strings
  import opened MultiStr
  import HtmlPattern
  import opened TrailingBr

  /** The accepted definition formats: "m" plain text, "h" HTML, "x" XDXF. */
  predicate ValidFormat(f: string) {
    f == "m" || f == "h" || f == "x"
  }

  datatype Entry = Entry(word: Field, defi: Field, defiFormat: string, byteProgress: Option<(int, int)>)

  /** The constructor's exceptions: a `TypeError` for the word or the definition, a `ValueError` for the format. */
  datatype EntryError = InvalidWordType | InvalidDefiType | InvalidFormat(format: string)

  /** The AttributeError `addAlt` raises when the word is held in a tuple. */
  datatype AddAltError = TupleHasNoAppend

  function Word(e: Entry): string {
    Joined(e.word)
  }

  function Words(e: Entry): seq<string> {
    Items(e.word)
  }

  function Defi(e: Entry): string {
    Joined(e.defi)
  }

  function Defis(e: Entry): seq<string> {
    Items(e.defi)
  }

  // ---------------------------------------------------------------------------
  // construction

  /** `Entry(word, defi, defiFormat, byteProgress)`: the word is checked first,
      then the definition, then the format; a one-element list is stored as a scalar. */
  function NewEntry(word: Input, defi: Input, defiFormat: string, byteProgress: Option<(int, int)>)
    : (r: Result<Entry, EntryError>)
    ensures r.Success? <==> !word.OtherInput? && !defi.OtherInput? && ValidFormat(defiFormat)
    ensures word.OtherInput? ==> r == Failure(InvalidWordType)
    ensures !word.OtherInput? && defi.OtherInput? ==> r == Failure(InvalidDefiType)
    ensures !word.OtherInput? && !defi.OtherInput? && !ValidFormat(defiFormat) ==>
              r == Failure(InvalidFormat(defiFormat))
    ensures r.Success? ==>
              && Words(r.value) == InputItems(word)
              && Defis(r.value) == InputItems(defi)
              && (r.value.word.Scalar? <==> |InputItems(word)| == 1)
              && (r.value.defi.Scalar? <==> |InputItems(defi)| == 1)
              && r.value.defiFormat == defiFormat
              && r.value.byteProgress == byteProgress
  {
    if word.OtherInput? then Failure(InvalidWordType)
    else if defi.OtherInput? then Failure(InvalidDefiType)
    else if !ValidFormat(defiFormat) then Failure(InvalidFormat(defiFormat))
    else Success(Entry(FromInput(word).value, FromInput(defi).value, defiFormat, byteProgress))
  }

  /** A one-element word list gives an entry whose list view is that element
      alone and whose scalar view is the element itself. */
  lemma OneElementListCollapses(w: string, defi: Input, defiFormat: string)
    requires !defi.OtherInput? && ValidFormat(defiFormat)
    ensures NewEntry(ListInput([w]), defi, defiFormat, None).Success?
    ensures Words(NewEntry(ListInput([w]), defi, defiFormat, None).value) == [w]
    ensures Word(NewEntry(ListInput([w]), defi, defiFormat, None).value) == w
  {
  }

  // ---------------------------------------------------------------------------
  // format detection

  /** `detectDefiFormat`: a plain-text entry whose lower-cased definition
      contains a tag opening becomes HTML; nothing else changes, and no other
      format is ever touched. */
  function DetectDefiFormat(e: Entry): (r: Entry)
    ensures r.word == e.word && r.defi == e.defi && r.byteProgress == e.byteProgress
    ensures e.defiFormat != "m" ==> r.defiFormat == e.defiFormat
    ensures e.defiFormat == "m" ==>
              (r.defiFormat == "h" <==> HtmlPattern.Matches(AsciiLower(Defi(e))))
    ensures r.defiFormat == e.defiFormat || (e.defiFormat == "m" && r.defiFormat == "h")
  {
    if e.defiFormat != "m" then e
    else if HtmlPattern.Search(AsciiLower(Defi(e))) then e.(defiFormat := "h")
    else e
  }

  /** Detection is case-insensitive: an upper-case link opening makes a plain entry HTML. */
  lemma DetectLinkExample()
    ensures DetectDefiFormat(Entry(Scalar("w"), Scalar("<A HREF=x>"), "m", None)).defiFormat == "h"
  {
    var low := AsciiLower("<A HREF=x>");
    assert low == "<a href=x>";
    assert low[0..] == low;
    assert HtmlPattern.StartsTag(low);
  }

  /** A plain definition without tags stays plain. */
  lemma DetectPlainExample()
    ensures DetectDefiFormat(Entry(Scalar("w"), Scalar("plain text only"), "m", None)).defiFormat == "m"
  {
    var low := AsciiLower("plain text only");
    assert '<' !in low;
    HtmlPattern.NoAngleBracketNoMatch(low);
  }

  // ---------------------------------------------------------------------------
  // alternates and per-element edits

  /** `addAlt`, as the method is evidently meant to behave: the word list gains
      `alt` at its end and is held in a list. */
  function AddAlt(e: Entry, alt: string): (r: Entry)
    ensures Words(r) == Words(e) + [alt]
    ensures r.word.Multi? && !r.word.isTuple
    ensures r.defi == e.defi && r.defiFormat == e.defiFormat && r.byteProgress == e.byteProgress
  {
    e.(word := Multi(Words(e) + [alt], false))
  }

  /** `addAlt` as written: `self.words.append(alt)` raises when the words are
      held in a tuple, which is how `editFuncWord`, `replaceInWord` and `strip`
      leave a word with alternates. */
  function AddAltAsWritten(e: Entry, alt: string): (r: Result<Entry, AddAltError>)
    ensures r.Failure? <==> e.word.Multi? && e.word.isTuple
    ensures r.Success? ==> Words(r.value) == Words(e) + [alt]
  {
    if e.word.Multi? && e.word.isTuple then Failure(TupleHasNoAppend)
    else Success(AddAlt(e, alt))
  }

  /** `editFuncWord`: `fn` applied to each word, in place; the definition is untouched. */
  function EditFuncWord(e: Entry, fn: string -> string): (r: Entry)
    ensures |Words(r)| == |Words(e)| && (r.word.Scalar? <==> e.word.Scalar?)
    ensures forall i :: 0 <= i < |Words(e)| ==> Words(r)[i] == fn(Words(e)[i])
    ensures r.defi == e.defi && r.defiFormat == e.defiFormat && r.byteProgress == e.byteProgress
    ensures r.word.Multi? ==> r.word.isTuple
  {
    e.(word := MapField(e.word, fn))
  }

  /** `editFuncDefi`: `fn` applied to each definition, in place; the word is untouched. */
  function EditFuncDefi(e: Entry, fn: string -> string): (r: Entry)
    ensures |Defis(r)| == |Defis(e)| && (r.defi.Scalar? <==> e.defi.Scalar?)
    ensures forall i :: 0 <= i < |Defis(e)| ==> Defis(r)[i] == fn(Defis(e)[i])
    ensures r.word == e.word && r.defiFormat == e.defiFormat && r.byteProgress == e.byteProgress
    ensures r.defi.Multi? ==> r.defi.isTuple
  {
    e.(defi := MapField(e.defi, fn))
  }

  /** `replaceInWord`: literal replacement in every word. */
  function ReplaceInWord(e: Entry, source: string, target: string): (r: Entry)
    ensures |Words(r)| == |Words(e)| && (r.word.Scalar? <==> e.word.Scalar?)
    ensures forall i :: 0 <= i < |Words(e)| ==> Words(r)[i] == Strings.Replace(Words(e)[i], source, target)
    ensures r.defi == e.defi && r.defiFormat == e.defiFormat
  {
    EditFuncWord(e, s => Strings.Replace(s, source, target))
  }

  /** `replaceInDefi`: literal replacement in every definition. */
  function ReplaceInDefi(e: Entry, source: string, target: string): (r: Entry)
    ensures |Defis(r)| == |Defis(e)| && (r.defi.Scalar? <==> e.defi.Scalar?)
    ensures forall i :: 0 <= i < |Defis(e)| ==> Defis(r)[i] == Strings.Replace(Defis(e)[i], source, target)
    ensures r.word == e.word && r.defiFormat == e.defiFormat
  {
    EditFuncDefi(e, s => Strings.Replace(s, source, target))
  }

  /** `replace`: literal replacement in every word and every definition. */
  function Replace(e: Entry, source: string, target: string): (r: Entry)
    ensures |Words(r)| == |Words(e)| && |Defis(r)| == |Defis(e)|
    ensures forall i :: 0 <= i < |Words(e)| ==> Words(r)[i] == Strings.Replace(Words(e)[i], source, target)
    ensures forall i :: 0 <= i < |Defis(e)| ==> Defis(r)[i] == Strings.Replace(Defis(e)[i], source, target)
    ensures r.defiFormat == e.defiFormat
  {
    ReplaceInDefi(ReplaceInWord(e, source, target), source, target)
  }

  /** Replacing a string by itself leaves both views of every field as they were. */
  lemma ReplaceBySelfKeepsViews(e: Entry, source: string)
    ensures Words(Replace(e, source, source)) == Words(e)
    ensures Defis(Replace(e, source, source)) == Defis(e)
  {
    var r := Replace(e, source, source);
    assert forall i | 0 <= i < |Words(e)| :: Words(r)[i] == Words(e)[i];
    assert forall i | 0 <= i < |Defis(e)| :: Defis(r)[i] == Defis(e)[i];
  }

  // ---------------------------------------------------------------------------
  // strip

  /** `strip`: every word and every definition is trimmed of whitespace, then
      each definition loses its trailing `<BR>`/`<br>` tags. */
  function Strip(e: Entry): (r: Entry)
    ensures |Words(r)| == |Words(e)| && (r.word.Scalar? <==> e.word.Scalar?)
    ensures |Defis(r)| == |Defis(e)| && (r.defi.Scalar? <==> e.defi.Scalar?)
    ensures forall i :: 0 <= i < |Words(e)| ==> Words(r)[i] == Trim(Words(e)[i])
    ensures forall i :: 0 <= i < |Defis(e)| ==> Defis(r)[i] == StripTrailingBr(Trim(Defis(e)[i]))
    ensures forall i :: 0 <= i < |Words(r)| && |Words(r)[i]| > 0 ==>
              !IsSpace(Words(r)[i][0]) && !IsSpace(Words(r)[i][|Words(r)[i]| - 1])
    ensures forall i :: 0 <= i < |Defis(r)| ==> !EndsWithBr(Defis(r)[i])
    ensures r.defiFormat == e.defiFormat && r.byteProgress == e.byteProgress
    ensures r.word.Multi? ==> r.word.isTuple
    ensures r.defi.Multi? ==> r.defi.isTuple
  {
    EditFuncDefi(EditFuncDefi(EditFuncWord(e, Trim), Trim), StripTrailingBr)
  }

  /** Every trailing break tag goes, whichever of the two spellings it uses. */
  lemma StripExample()
    ensures StripTrailingBr("hi<br><BR>") == "hi"
  {
  }

  /** With a word list, `strip` leaves the words in a tuple, so `addAlt` as
      written then raises, while the intended `addAlt` appends. */
  lemma AddAltAfterStripFails(e: Entry, alt: string)
    requires |Words(e)| >= 2
    ensures AddAltAsWritten(Strip(e), alt).Failure?
    ensures Words(AddAlt(Strip(e), alt)) == Words(Strip(e)) + [alt]
  {
  }

  // ---------------------------------------------------------------------------
  // removeEmptyAndDuplicateAltWords

  predicate NoDuplicates(xs: seq<string>) {
    forall i, j :: 0 <= i < j < |xs| ==> xs[i] != xs[j]
  }

  /** Index of the first occurrence of `x` in `xs`. */
  function FirstIndex(xs: seq<string>, x: string): (i: nat)
    requires x in xs
    ensures i < |xs| && xs[i] == x && x !in xs[..i]
  {
    if xs[0] == x then 0
    else
      var i := FirstIndex(xs[1..], x);
      assert xs[..i + 1] == [xs[0]] + xs[1..][..i];
      1 + i
  }

  /** Every element of `r` comes from `xs`, and `r` lists them in the order of their first occurrences in `xs`. */
  predicate InFirstOccurrenceOrder(r: seq<string>, xs: seq<string>) {
    && (forall i :: 0 <= i < |r| ==> r[i] in xs)
    && (forall i, j :: 0 <= i < j < |r| ==> FirstIndex(xs, r[i]) < FirstIndex(xs, r[j]))
  }

  /** `unique_everseen(xs)` started with the strings in `seen` already seen:
      exactly the strings of `xs` not yet seen. */
  function UniqueEverseen(xs: seq<string>, seen: set<string>): (r: seq<string>)
    ensures forall w :: w in r <==> w in xs && w !in seen
    decreases |xs|
  {
    if xs == [] then []
    else
      var x := xs[0];
      var rest := UniqueEverseen(xs[1..], seen + {x});
      if x in seen then rest else [x] + rest
  }

  /** `unique_everseen` yields each string once. */
  lemma {:induction false} UniqueEverseenNoDuplicates(xs: seq<string>, seen: set<string>)
    ensures NoDuplicates(UniqueEverseen(xs, seen))
    decreases |xs|
  {
    if xs != [] {
      UniqueEverseenNoDuplicates(xs[1..], seen + {xs[0]});
    }
  }

  /** `unique_everseen` yields the strings in the order of their first occurrences. */
  lemma {:induction false} UniqueEverseenOrder(xs: seq<string>, seen: set<string>)
    ensures InFirstOccurrenceOrder(UniqueEverseen(xs, seen), xs)
    decreases |xs|
  {
    if xs != [] {
      var x := xs[0];
      var rest := UniqueEverseen(xs[1..], seen + {x});
      UniqueEverseenOrder(xs[1..], seen + {x});
      FirstIndexAfterHead(xs, rest);
      if x !in seen {
        var r := [x] + rest;
        assert forall i :: 1 <= i < |r| ==> r[i] == rest[i - 1];
        assert FirstIndex(xs, x) == 0;
      }
    }
  }

  /** Strings found after the head but different from it sit one place later in `xs` than in its tail. */
  lemma FirstIndexAfterHead(xs: seq<string>, rest: seq<string>)
    requires xs != []
    requires forall i :: 0 <= i < |rest| ==> rest[i] in xs[1..] && rest[i] != xs[0]
    ensures forall i :: 0 <= i < |rest| ==> FirstIndex(xs, rest[i]) == 1 + FirstIndex(xs[1..], rest[i])
  {
  }

  /** The list comprehension `[w for w in words if w]`: it keeps exactly the
      non-empty words, never grows the list, keeps a one-word list with a
      non-empty word and empties one whose word is empty. */
  function NonEmpty(xs: seq<string>): (r: seq<string>)
    ensures forall w :: w in r <==> w in xs && w != ""
    ensures |r| <= |xs|
    ensures |xs| == 1 ==> (r == [] <==> xs[0] == "") && (xs[0] != "" ==> r == xs)
  {
    if xs == [] then []
    else if xs[0] == "" then NonEmpty(xs[1..])
    else [xs[0]] + NonEmpty(xs[1..])
  }

  /** The filter works word by word: filtering a concatenation filters each part
      and keeps them in order. With the one-word case this fixes the result. */
  lemma {:induction false} NonEmptyAppend(xs: seq<string>, ys: seq<string>)
    ensures NonEmpty(xs + ys) == NonEmpty(xs) + NonEmpty(ys)
    decreases |xs|
  {
    if xs != [] {
      assert (xs + ys)[1..] == xs[1..] + ys;
      NonEmptyAppend(xs[1..], ys);
    } else {
      assert xs + ys == ys;
    }
  }

  lemma {:induction false} UnseenAbsentIrrelevant(xs: seq<string>, seen: set<string>, x: string)
    requires x !in xs
    ensures UniqueEverseen(xs, seen) == UniqueEverseen(xs, seen + {x})
    decreases |xs|
  {
    if xs != [] {
      assert seen + {x} + {xs[0]} == seen + {xs[0]} + {x};
      UnseenAbsentIrrelevant(xs[1..], seen + {xs[0]}, x);
    }
  }

  /** Dropping the empty strings first is the same as counting "" as already seen. */
  lemma {:induction false} FilterThenUnique(xs: seq<string>, seen: set<string>)
    requires "" in seen
    ensures UniqueEverseen(NonEmpty(xs), seen) == UniqueEverseen(xs, seen)
    decreases |xs|
  {
    if xs != [] {
      FilterThenUnique(xs[1..], seen + {xs[0]});
      if xs[0] == "" {
        assert seen + {xs[0]} == seen;
      } else {
        assert NonEmpty(xs)[1..] == NonEmpty(xs[1..]);
      }
    }
  }

  /** `removeEmptyAndDuplicateAltWords`: nothing happens to a single word;
      otherwise the word list keeps the first occurrence of each non-empty word,
      in their original order, with no duplicates and no empty strings. */
  function RemoveEmptyAndDuplicateAltWords(e: Entry): (r: Entry)
    ensures |Words(e)| == 1 ==> r == e
    ensures |Words(e)| != 1 ==>
              && r.word.Multi? && !r.word.isTuple
              && (forall w :: w in Words(r) <==> w in Words(e) && w != "")
              && NoDuplicates(Words(r))
              && InFirstOccurrenceOrder(Words(r), Words(e))
    ensures r.defi == e.defi && r.defiFormat == e.defiFormat && r.byteProgress == e.byteProgress
  {
    var words := Words(e);
    if |words| == 1 then e
    else
      var kept := UniqueEverseen(NonEmpty(words), {});
      UnseenAbsentIrrelevant(NonEmpty(words), {}, "");
      assert {} + {""} == {""};
      FilterThenUnique(words, {""});
      UniqueEverseenNoDuplicates(words, {""});
      UniqueEverseenOrder(words, {""});
      e.(word := Multi(kept, false))
  }

  /** Case-sensitive, order-preserving, empties dropped. */
  lemma RemoveDuplicatesExample()
    ensures Words(RemoveEmptyAndDuplicateAltWords(Entry(Multi(["cat", "", "cat", "Cat"], false), Scalar("d"), "m", None)))
            == ["cat", "Cat"]
  {
    var xs := ["cat", "", "cat", "Cat"];
    assert NonEmpty(xs) == ["cat", "cat", "Cat"] by {
      assert xs[1..] == ["", "cat", "Cat"] && xs[1..][1..] == ["cat", "Cat"];
      assert xs[1..][1..][1..] == ["Cat"];
    }
    var ys := ["cat", "cat", "Cat"];
    assert UniqueEverseen(ys, {}) == ["cat", "Cat"] by {
      assert ys[1..] == ["cat", "Cat"] && ys[1..][1..] == ["Cat"];
      assert UniqueEverseen(["Cat"], {"cat"}) == ["Cat"];
    }
  }

  /** Unlike a one-element list, which is stored as a scalar, a list of empty
      words is cleared to no words at all. */
  lemma RemoveCanLeaveNoWords()
    ensures Words(RemoveEmptyAndDuplicateAltWords(Entry(Multi(["", ""], false), Scalar("d"), "m", None))) == []
  {
  }
}
