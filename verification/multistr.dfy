/** The value held by an entry's `word` or `defi` field: one string, or a
    sequence of strings (the primary value followed by its alternates). */
module MultiStr {
  import opened Wrappers
  import opened Strings

  /** The separator of the scalar view (`Entry.sep`). */
  const Sep: char := '|'

  /** How a field is stored. A sequence is held either in a Python list or, after
      `editFuncWord`/`editFuncDefi` (and so `replace*` and `strip`), in a tuple;
      `isTuple` records which, because a tuple cannot be appended to. */
  datatype Field = Scalar(text: string) | Multi(items: seq<string>, isTuple: bool)

  /** A constructor argument: a string, a list of strings, or a value of any other type. */
  datatype Input = StrInput(text: string) | ListInput(items: seq<string>) | OtherInput

  /** The strings a string or list argument stands for. */
  function InputItems(x: Input): seq<string>
    requires !x.OtherInput?
  {
    if x.StrInput? then [x.text] else x.items
  }

  /** The list view (`words` / `defis`): a scalar is listed as the one-element
      list of its text, a sequence as its elements, none of them escaped. */
  function Items(f: Field): (r: seq<string>)
    ensures f.Scalar? ==> r == [f.text]
    ensures f.Multi? ==> r == f.items
  {
    match f
    case Scalar(t) => [t]
    case Multi(xs, _) => xs
  }

  /** `part.replace("|", "\\|")`. It never shortens the element, and the result
      never starts with `|` (a leading `|` gets its backslash). */
  function Escape(part: string): (r: string)
    ensures |r| >= |part|
    ensures |r| > 0 ==> r[0] != Sep
  {
    Replace(part, [Sep], ['\\', Sep])
  }

  /** Turns every `\|` back into `|`, scanning left to right. Nothing in the
      entry layer applies it; it is the inverse `Escape` has. */
  function Unescape(s: string): string {
    ReplaceOccurrences(s, ['\\', Sep], [Sep])
  }

  function EscapeAll(parts: seq<string>): (r: seq<string>)
    ensures |r| == |parts|
    ensures forall i :: 0 <= i < |parts| ==> r[i] == Escape(parts[i])
  {
    seq(|parts|, i requires 0 <= i < |parts| => Escape(parts[i]))
  }

  /** `Entry._join`: escape every `|` inside an element, then join with `|`.
      When no element holds a `|` the escape changes nothing and the result is
      the plain join. */
  function JoinEscaped(parts: seq<string>): (r: string)
    ensures (forall i :: 0 <= i < |parts| ==> Sep !in parts[i]) ==> r == Join(parts, Sep)
  {
    assert (forall i :: 0 <= i < |parts| ==> Sep !in parts[i]) ==> EscapeAll(parts) == parts by {
      if forall i :: 0 <= i < |parts| ==> Sep !in parts[i] {
        forall i | 0 <= i < |parts|
          ensures EscapeAll(parts)[i] == parts[i]
        {
          EscapePlain(parts[i]);
        }
      }
    }
    Join(EscapeAll(parts), Sep)
  }

  /** The scalar view (`word` / `defi`). A scalar is returned as stored, without
      escaping; a sequence is the escaped join of its list view. When no element
      holds a `|`, both are the plain join of the list view. */
  function Joined(f: Field): (r: string)
    ensures f.Scalar? ==> r == Items(f)[0]
    ensures f.Multi? ==> r == JoinEscaped(Items(f))
    ensures (forall i :: 0 <= i < |Items(f)| ==> Sep !in Items(f)[i]) ==> r == Join(Items(f), Sep)
  {
    match f
    case Scalar(t) => t
    case Multi(xs, _) => JoinEscaped(xs)
  }

  /** The constructor's handling of one argument: anything but a string or a list
      is refused, the list view is exactly the given strings, and a one-element
      list is stored as a scalar. */
  function FromInput(x: Input): (r: Option<Field>)
    ensures r.None? <==> x.OtherInput?
    ensures r.Some? ==> Items(r.value) == InputItems(x)
    ensures r.Some? ==> (r.value.Scalar? <==> |InputItems(x)| == 1)
    ensures r.Some? && r.value.Multi? ==> !r.value.isTuple
  {
    match x
    case StrInput(t) => Some(Scalar(t))
    case ListInput(xs) => if |xs| == 1 then Some(Scalar(xs[0])) else Some(Multi(xs, false))
    case OtherInput => None
  }

  /** `editFunc*`: apply `fn` to every element; a scalar stays a scalar and a
      sequence becomes a tuple of the same length. */
  function MapField(f: Field, fn: string -> string): (r: Field)
    ensures r.Scalar? <==> f.Scalar?
    ensures |Items(r)| == |Items(f)|
    ensures forall i :: 0 <= i < |Items(f)| ==> Items(r)[i] == fn(Items(f)[i])
    ensures r.Multi? ==> r.isTuple
  {
    match f
    case Scalar(t) => Scalar(fn(t))
    case Multi(xs, _) => Multi(seq(|xs|, i requires 0 <= i < |xs| => fn(xs[i])), true)
  }

  /** A one-element list is stored as a scalar whose both views give back that element. */
  lemma ScalarCollapse(w: string)
    ensures FromInput(ListInput([w])).Some?
    ensures FromInput(ListInput([w])).value.Scalar?
    ensures Items(FromInput(ListInput([w])).value) == [w]
    ensures Joined(FromInput(ListInput([w])).value) == w
  {
  }

  lemma NoSeparatorNoOccurrence(s: string, c: char)
    requires c !in s
    ensures !Contains(s, [c])
  {
    forall i
      ensures !OccursAt(s, [c], i)
    {
      if 0 <= i < |s| {
        assert s[i..i + 1] == [s[i]];
      }
    }
  }

  /** Escaping leaves an element without `|` unchanged. */
  lemma EscapePlain(part: string)
    requires Sep !in part
    ensures Escape(part) == part
  {
    NoSeparatorNoOccurrence(part, Sep);
    ReplaceAbsent(part, [Sep], ['\\', Sep]);
  }

  /** `Escape` loses nothing: undoing it gives the element back, so two distinct
      elements never escape alike. Only the join is ambiguous. */
  lemma {:induction false} EscapeRoundTrip(part: string)
    ensures Unescape(Escape(part)) == part
    decreases |part|
  {
    if |part| > 0 {
      var rest := Escape(part[1..]);
      EscapeRoundTrip(part[1..]);
      if part[0] == Sep {
        assert [Sep] <= part;
        assert Escape(part) == ['\\', Sep] + rest;
        assert (['\\', Sep] + rest)[2..] == rest;
      } else {
        assert Escape(part) == [part[0]] + rest;
        if |rest| > 0 {
          assert ([part[0]] + rest)[1] == rest[0] != Sep;
        }
        assert !(['\\', Sep] <= [part[0]] + rest);
        assert ([part[0]] + rest)[1..] == rest;
        assert part == [part[0]] + part[1..];
      }
    }
  }

  /** The escape splits the element at each `|` and joins the pieces with `\|`. */
  lemma EscapeIsSplitJoin(part: string)
    ensures Escape(part) == JoinWith(Split(part, Sep), ['\\', Sep])
  {
    ReplaceCharIsSplitJoin(part, Sep, ['\\', Sep]);
  }

  /** When no element contains `|`, splitting the scalar view on `|` gives back
      the list view: the split that `fromRaw` performs. */
  lemma {:induction false} SplitJoinedRoundTrip(parts: seq<string>)
    requires |parts| >= 1
    requires forall i :: 0 <= i < |parts| ==> Sep !in parts[i]
    ensures Split(JoinEscaped(parts), Sep) == parts
  {
    SplitJoin(parts, Sep);
  }

  /** The same round trip on a stored field, whichever way it is stored. */
  lemma FieldSplitRoundTrip(f: Field)
    requires |Items(f)| >= 1
    requires forall i :: 0 <= i < |Items(f)| ==> Sep !in Items(f)[i]
    ensures Split(Joined(f), Sep) == Items(f)
  {
    match f
    case Scalar(t) =>
      assert Items(f)[0] == t;
      SplitWithoutSeparator(t, Sep);
    case Multi(xs, _) => SplitJoinedRoundTrip(xs);
  }

  /** The escape does not make the join reversible: a `|` inside an element and a
      trailing backslash followed by the separator produce the same scalar view. */
  lemma EscapeIsAmbiguous()
    ensures JoinEscaped(["a|b"]) == JoinEscaped(["a\\", "b"]) == "a\\|b"
  {
    EscapePlain("a\\");
    EscapePlain("b");
    assert EscapeAll(["a\\", "b"]) == ["a\\", "b"];
    var s := "a|b";
    var src, tgt := [Sep], ['\\', Sep];
    assert s[1..] == "|b" && s[1..][1..] == "b";
    assert ReplaceOccurrences("b", src, tgt) == Escape("b") == "b";
    assert ReplaceOccurrences("|b", src, tgt) == tgt + "b";
    assert ReplaceOccurrences(s, src, tgt) == "a" + tgt + "b";
  }

  /** Splitting an escaped join on `|` does not undo the escape: the element
      `a|b` comes back as two elements, the first ending in a backslash. */
  lemma SplitDoesNotUnescape()
    ensures Split(JoinEscaped(["a|b"]), Sep) == ["a\\", "b"]
  {
    EscapeIsAmbiguous();
    assert Sep !in "a\\" && Sep !in "b";
    SplitJoinedRoundTrip(["a\\", "b"]);
  }
}
