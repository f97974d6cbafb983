// `Entry.htmlPattern` is "anything, then one of sixteen tag openings", compiled
// with DOTALL and applied with `match`: it holds exactly when one of the tag
// openings starts at some position of the (lower-cased) definition.
module HtmlPattern {
  import opened Strings

  /** The tag names that must be followed by a space or `>`. */
  const SpacedTags: seq<string> :=
    ["font", "i", "b", "p", "div", "span", "img", "table", "sup", "u", "ul", "ol", "li"]

  /** `SpacedTags[k]` followed by a space or `>` starts `t`. */
  predicate SpacedTagAt(t: string, k: int)
    requires 0 <= k < |SpacedTags|
  {
    var name := SpacedTags[k];
    name <= t && |t| > |name| && (t[|name|] == ' ' || t[|name|] == '>')
  }

  // Whitespace, an optional `/`, whitespace, then `>`, at the start of `t`: the
  // tail of `<br\s*/?\s*>` and `<hr\s*/?\s*>`. Taking the first whitespace run
  // greedily loses no match: a shorter run would leave a whitespace character
  // where `/` or `>` is needed, and the second run would consume it anyway.
  predicate ClosesEmptyTag(t: string) {
    var a := t[LeadingSpaces(t)..];
    if |a| > 0 && a[0] == '/' then
      var b := a[1..][LeadingSpaces(a[1..])..];
      |b| > 0 && b[0] == '>'
    else
      |a| > 0 && a[0] == '>'
  }

  /** What may follow the `<` of a tag opening: one alternative of the pattern
      with its leading `<` taken off. */
  predicate TagBody(t: string) {
    || (exists k :: 0 <= k < |SpacedTags| && SpacedTagAt(t, k))
    || "a href=" <= t
    || ("br" <= t && ClosesEmptyTag(t[2..]))
    || ("hr" <= t && ClosesEmptyTag(t[2..]))
  }

  /** One alternative of the pattern matches at the start of `t`. */
  predicate StartsTag(t: string) {
    |t| > 0 && t[0] == '<' && TagBody(t[1..])
  }

  /** What the compiled pattern's `match` accepts: `.*` (which with DOTALL also
      crosses newlines) followed by a tag opening. */
  ghost predicate Matches(s: string) {
    exists i :: 0 <= i <= |s| && StartsTag(s[i..])
  }

  /** A left-to-right scan for a tag opening; it finds one exactly when the pattern matches. */
  function Search(s: string): (found: bool)
    ensures found <==> Matches(s)
    decreases |s|
  {
    if StartsTag(s) then
      assert s[0..] == s;
      true
    else if s == [] then
      false
    else
      var rest := Search(s[1..]);
      assert forall i :: 1 <= i <= |s| ==> s[i..] == s[1..][i - 1..];
      assert Matches(s[1..]) ==> Matches(s) by {
        if Matches(s[1..]) {
          var i :| 0 <= i <= |s| - 1 && StartsTag(s[1..][i..]);
          assert StartsTag(s[i + 1..]);
        }
      }
      rest
  }

  /** Every alternative begins with `<`, so text without `<` never matches. */
  lemma NoAngleBracketNoMatch(s: string)
    requires '<' !in s
    ensures !Matches(s)
  {
  }
}
