/** The two kinds of entry behind one interface, and their raw form: the
    `(word, defi)` or `(word, defi, defiFormat)` tuple a glossary keeps
    entries in, optionally compressed. Pickling and zlib compression are an
    invertible wrapper here, and UTF-8 encoding is the identity. */
module RawEntries {
  import opened Wrappers
  import opened Strings
  import opened MultiStr
  import Entries
  import Resources

  /** What an entry reads from its glossary: the default definition format, the
      `enable_alts` preference, whether raw entries are compressed, and the
      staging directory for resources ("" when there is none). */
  datatype Glossary = Glossary(defaultDefiFormat: string, enableAlts: bool, rawEntryCompress: bool, tmpDataDir: string)

  /** The format is left out of a tuple when it is the glossary's default. */
  datatype RawTuple = Pair(word: string, defi: string) | Triple(word: string, defi: string, format: string)

  /** A raw tuple as stored: as is, or compressed. */
  datatype RawEntry = Plain(tuple: RawTuple) | Compressed(tuple: RawTuple)

  datatype AnyEntry = Text(entry: Entries.Entry) | Data(resource: Resources.Resource)

  function Wrap(g: Glossary, t: RawTuple): RawEntry {
    if g.rawEntryCompress then Compressed(t) else Plain(t)
  }

  // ---------------------------------------------------------------------------
  // the common interface

  function Word(a: AnyEntry): string {
    match a
    case Text(e) => Entries.Word(e)
    case Data(r) => Resources.Word(r)
  }

  function Words(a: AnyEntry): seq<string> {
    match a
    case Text(e) => Entries.Words(e)
    case Data(r) => [Resources.Word(r)]
  }

  function Defi(a: AnyEntry): string {
    match a
    case Text(e) => Entries.Defi(e)
    case Data(r) => Resources.Defi(r)
  }

  function Defis(a: AnyEntry): seq<string> {
    match a
    case Text(e) => Entries.Defis(e)
    case Data(r) => [Resources.Defi(r)]
  }

  /** A resource always reports the format "b". */
  function DefiFormat(a: AnyEntry): string {
    match a
    case Text(e) => e.defiFormat
    case Data(_) => "b"
  }

  /** A resource presents itself as one word, its file name, with one
      definition naming the file, in format "b". */
  lemma DataAccessors(r: Resources.Resource)
    ensures Words(Data(r)) == [Word(Data(r))] && Word(Data(r)) == r.fname
    ensures Defis(Data(r)) == [Defi(Data(r))] && Defi(Data(r)) == "File: " + r.fname
    ensures DefiFormat(Data(r)) == "b"
  {
  }

  /** The in-place edits an entry offers. */
  datatype Mutation =
    | DetectFormat
    | AddAltWord(alt: string)
    | EditWords(fn: string -> string)
    | EditDefis(fn: string -> string)
    | StripAll
    | ReplaceInWords(source: string, target: string)
    | ReplaceInDefis(source: string, target: string)
    | ReplaceEverywhere(source: string, target: string)
    | RemoveEmptyAndDuplicateWords

  /** An edit applied to either kind of entry. Every edit of a resource does
      nothing; an edit of a text entry keeps it a text entry, and only format
      detection touches the format, which it keeps among "m", "h" and "x". */
  function Apply(m: Mutation, a: AnyEntry): (r: AnyEntry)
    ensures a.Data? ==> r == a
    ensures a.Text? ==> r.Text? && r.entry.byteProgress == a.entry.byteProgress
    ensures a.Text? && !m.DetectFormat? ==> r.entry.defiFormat == a.entry.defiFormat
    ensures a.Text? && Entries.ValidFormat(a.entry.defiFormat) ==> Entries.ValidFormat(r.entry.defiFormat)
    ensures a.Text? && (m.EditDefis? || m.ReplaceInDefis? || m.DetectFormat?) ==> r.entry.word == a.entry.word
    ensures a.Text? && (m.EditWords? || m.ReplaceInWords? || m.AddAltWord? || m.RemoveEmptyAndDuplicateWords?) ==>
              r.entry.defi == a.entry.defi
  {
    match a
    case Data(_) => a
    case Text(e) =>
      Text(match m
           case DetectFormat => Entries.DetectDefiFormat(e)
           case AddAltWord(alt) => Entries.AddAlt(e, alt)
           case EditWords(fn) => Entries.EditFuncWord(e, fn)
           case EditDefis(fn) => Entries.EditFuncDefi(e, fn)
           case StripAll => Entries.Strip(e)
           case ReplaceInWords(s, t) => Entries.ReplaceInWord(e, s, t)
           case ReplaceInDefis(s, t) => Entries.ReplaceInDefi(e, s, t)
           case ReplaceEverywhere(s, t) => Entries.Replace(e, s, t)
           case RemoveEmptyAndDuplicateWords => Entries.RemoveEmptyAndDuplicateAltWords(e))
  }

  // ---------------------------------------------------------------------------
  // getRaw

  /** `Entry.getRaw(glos)`: the scalar views of word and definition, with the
      format appended only when it is set and differs from the glossary's
      default. */
  function TextGetRaw(g: Glossary, e: Entries.Entry): (raw: RawEntry)
    ensures raw.Compressed? <==> g.rawEntryCompress
    ensures raw.tuple.word == Entries.Word(e) && raw.tuple.defi == Entries.Defi(e)
    ensures raw.tuple.Triple? <==> e.defiFormat != "" && e.defiFormat != g.defaultDefiFormat
    ensures raw.tuple.Triple? ==> raw.tuple.format == e.defiFormat
  {
    var word := Entries.Word(e);
    var defi := Entries.Defi(e);
    if e.defiFormat != "" && e.defiFormat != g.defaultDefiFormat then
      Wrap(g, Triple(word, defi, e.defiFormat))
    else
      Wrap(g, Pair(word, defi))
  }

  /** What `DataEntry.getRaw` leaves behind. */
  datatype DataRaw = DataRaw(raw: RawEntry, resource: Resources.Resource, fs: Resources.FileSystem)

  /** `DataEntry.getRaw(glos)`: a triple tagged "b" holding the file name and,
      when the glossary has a staging directory, the path the resource was
      saved to there (otherwise an empty path). Saving can fail. */
  function DataGetRaw(g: Glossary, r: Resources.Resource, fs: Resources.FileSystem)
    : (d: Result<DataRaw, Resources.IoError>)
    ensures g.tmpDataDir == "" ==> d == Success(DataRaw(Wrap(g, Triple(r.fname, "", "b")), r, fs))
    ensures g.tmpDataDir != "" ==> (d.Success? <==> Resources.Save(r, g.tmpDataDir, fs).Success?)
    ensures g.tmpDataDir != "" && d.Success? ==>
              var s := Resources.Save(r, g.tmpDataDir, fs).value;
              d.value == DataRaw(Wrap(g, Triple(r.fname, s.path, "b")), s.resource, s.fs)
  {
    if g.tmpDataDir != "" then
      match Resources.Save(r, g.tmpDataDir, fs)
      case Success(s) => Success(DataRaw(Wrap(g, Triple(r.fname, s.path, "b")), s.resource, s.fs))
      case Failure(err) => Failure(err)
    else
      Success(DataRaw(Wrap(g, Triple(r.fname, "", "b")), r, fs))
  }

  // ---------------------------------------------------------------------------
  // fromRaw

  /** `Entry.fromRaw(glos, rawEntry, defaultDefiFormat)`. A triple tagged "b"
      becomes a resource read from the path in its second element. Otherwise
      the format is the third element, or the caller's default for a pair;
      with alternates enabled word and definition are split on `|`; and the
      entry is built by the constructor, which refuses a format other than
      "m", "h" or "x". */
  function FromRaw(g: Glossary, raw: RawEntry, defaultDefiFormat: string)
    : (r: Result<AnyEntry, Entries.EntryError>)
    ensures raw.tuple.Triple? && raw.tuple.format == "b" ==>
              r == Success(Data(Resources.FromFile(raw.tuple.word, raw.tuple.defi)))
    ensures !(raw.tuple.Triple? && raw.tuple.format == "b") ==>
              var fmt := if raw.tuple.Triple? then raw.tuple.format else defaultDefiFormat;
              && (r.Success? <==> Entries.ValidFormat(fmt))
              && (r.Failure? ==> r.error == Entries.InvalidFormat(fmt))
              && (r.Success? ==> r.value.Text? && r.value.entry.defiFormat == fmt && r.value.entry.byteProgress == None)
    ensures r.Success? && r.value.Text? && !g.enableAlts ==>
              r.value.entry.word == Scalar(raw.tuple.word) && r.value.entry.defi == Scalar(raw.tuple.defi)
    ensures r.Success? && r.value.Text? && g.enableAlts ==>
              Entries.Words(r.value.entry) == Split(raw.tuple.word, Sep)
              && Entries.Defis(r.value.entry) == Split(raw.tuple.defi, Sep)
  {
    var t := raw.tuple;
    if t.Triple? && t.format == "b" then
      Success(Data(Resources.FromFile(t.word, t.defi)))
    else
      var fmt := if t.Triple? then t.format else defaultDefiFormat;
      var word := if g.enableAlts then ListInput(Split(t.word, Sep)) else StrInput(t.word);
      var defi := if g.enableAlts then ListInput(Split(t.defi, Sep)) else StrInput(t.defi);
      match Entries.NewEntry(word, defi, fmt, None)
      case Success(e) => Success(Text(e))
      case Failure(err) => Failure(err)
  }

  // ---------------------------------------------------------------------------
  // round trips

  /** With alternates disabled, a text entry comes back from its raw form with
      the same scalar views and the same format. The reader's default format
      `d` matters only when the entry's format is the glossary default, which
      the raw form then leaves out; in that case `d` has to be that default. */
  lemma TextRoundTrip(g: Glossary, e: Entries.Entry, d: string)
    requires !g.enableAlts
    requires Entries.ValidFormat(e.defiFormat)
    requires e.defiFormat == g.defaultDefiFormat ==> d == g.defaultDefiFormat
    ensures var r := FromRaw(g, TextGetRaw(g, e), d);
            && r.Success? && r.value.Text?
            && Entries.Word(r.value.entry) == Entries.Word(e)
            && Entries.Defi(r.value.entry) == Entries.Defi(e)
            && r.value.entry.defiFormat == e.defiFormat
  {
  }

  /** With alternates enabled, the list views come back too, provided no word
      or definition contains `|` and neither list is empty. */
  lemma TextRoundTripWithAlts(g: Glossary, e: Entries.Entry, d: string)
    requires g.enableAlts
    requires Entries.ValidFormat(e.defiFormat)
    requires e.defiFormat == g.defaultDefiFormat ==> d == g.defaultDefiFormat
    requires |Entries.Words(e)| >= 1 && |Entries.Defis(e)| >= 1
    requires forall i :: 0 <= i < |Entries.Words(e)| ==> Sep !in Entries.Words(e)[i]
    requires forall i :: 0 <= i < |Entries.Defis(e)| ==> Sep !in Entries.Defis(e)[i]
    ensures var r := FromRaw(g, TextGetRaw(g, e), d);
            && r.Success? && r.value.Text?
            && Entries.Words(r.value.entry) == Entries.Words(e)
            && Entries.Defis(r.value.entry) == Entries.Defis(e)
            && r.value.entry.defiFormat == e.defiFormat
  {
    FieldSplitRoundTrip(e.word);
    FieldSplitRoundTrip(e.defi);
  }

  /** A `|` inside a single word is not preserved: with alternates enabled the
      word comes back as two words. */
  lemma PipeInWordSplits(g: Glossary)
    requires g.enableAlts && g.defaultDefiFormat == "m"
    ensures var r := FromRaw(g, TextGetRaw(g, Entries.Entry(Scalar("a|b"), Scalar("d"), "m", None)), "m");
            r.Success? && r.value.Text? && Entries.Words(r.value.entry) == ["a", "b"]
  {
    assert "a|b" == Join(["a", "b"], Sep);
    SplitJoin(["a", "b"], Sep);
  }

  /** With a staging directory, a resource's raw form reads back the same bytes
      under the same name, from the file it was saved to. */
  lemma DataRoundTripStaged(g: Glossary, r: Resources.Resource, fs: Resources.FileSystem, defaultDefiFormat: string)
    requires g.tmpDataDir != ""
    requires Resources.GetData(r, fs).Success?
    ensures DataGetRaw(g, r, fs).Success?
    ensures var d := DataGetRaw(g, r, fs).value;
            var back := FromRaw(g, d.raw, defaultDefiFormat);
            && back.Success? && back.value.Data?
            && Resources.Word(back.value.resource) == Resources.Word(r)
            && Resources.GetData(back.value.resource, d.fs) == Resources.GetData(r, fs)
  {
  }

  /** Without a staging directory the path in a resource's raw form is empty,
      so reading it back gives an empty in-memory resource: the bytes do not
      survive. */
  lemma DataRoundTripUnstaged(g: Glossary, r: Resources.Resource, fs: Resources.FileSystem, defaultDefiFormat: string)
    requires g.tmpDataDir == ""
    ensures var d := DataGetRaw(g, r, fs).value;
            var back := FromRaw(g, d.raw, defaultDefiFormat);
            && back.Success? && back.value.Data?
            && Resources.Word(back.value.resource) == Resources.Word(r)
            && Resources.GetData(back.value.resource, d.fs) == Success([])
  {
  }

  // ---------------------------------------------------------------------------
  // sort keys

  /** `Entry.defaultSortKey`: `bytes.lower()`, which lower-cases ASCII letters
      only. The key has the word's length, holds no ASCII capital, and differs
      from the word only where the word has an ASCII capital, which becomes
      its small letter; every other character, non-ASCII letters included,
      is kept. */
  function DefaultSortKey(b: string): (k: string)
    ensures |k| == |b|
    ensures forall i :: 0 <= i < |b| ==> !('A' <= k[i] <= 'Z')
    ensures forall i :: 0 <= i < |b| ==>
              if 'A' <= b[i] <= 'Z' then k[i] as int == b[i] as int + 32 else k[i] == b[i]
  {
    AsciiLower(b)
  }

  /** Applying the default key to a key changes nothing. */
  lemma DefaultSortKeyIdempotent(b: string)
    ensures DefaultSortKey(DefaultSortKey(b)) == DefaultSortKey(b)
  {
  }

  /** `getEntrySortKey(key)` applied to an entry: the key of the first word.
      An entry without words has none (`words[0]` raises). */
  function EntrySortKey(key: string -> string, a: AnyEntry): (k: Option<string>)
    ensures k.Some? <==> |Words(a)| > 0
    ensures k.Some? ==> k.value == key(Words(a)[0])
  {
    if |Words(a)| > 0 then Some(key(Words(a)[0])) else None
  }

  /** `getRawEntrySortKey(key)` applied to a raw entry: the key of the first
      element of the decompressed tuple, the joined word. An uncompressed tuple
      has none (decompressing it raises). */
  function RawSortKey(key: string -> string, raw: RawEntry): (k: Option<string>)
    ensures k.Some? <==> raw.Compressed?
    ensures k.Some? ==> k.value == key(raw.tuple.word)
  {
    if raw.Compressed? then Some(key(raw.tuple.word)) else None
  }

  /** For a single word (or a resource), sorting raw entries agrees with sorting the entries. */
  lemma SortKeysAgreeOnSingleWord(key: string -> string, g: Glossary, e: Entries.Entry)
    requires g.rawEntryCompress && e.word.Scalar?
    ensures RawSortKey(key, TextGetRaw(g, e)) == EntrySortKey(key, Text(e))
  {
  }

  /** With alternates the two keys differ under the default key: the entry key
      reads the first word alone, the raw key the whole joined word, which is
      longer. */
  lemma SortKeysDifferWithAlternates(g: Glossary, e: Entries.Entry)
    requires g.rawEntryCompress && |Entries.Words(e)| >= 2
    ensures RawSortKey(DefaultSortKey, TextGetRaw(g, e)) != EntrySortKey(DefaultSortKey, Text(e))
  {
    var xs := Entries.Words(e);
    assert |Escape(xs[0])| >= |xs[0]|;
    assert |EscapeAll(xs)| >= 2;
    assert |Join(EscapeAll(xs), Sep)| > |EscapeAll(xs)[0]|;
    assert |Entries.Word(e)| > |xs[0]|;
  }
}
