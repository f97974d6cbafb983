/** `Entry._stripTrailingBR`: repeatedly cut a `<BR>` or `<br>` off the end of a definition. */
module TrailingBr {

  /** `<BR>` or `<br>` (only these two spellings) starts at index `i` of `s`. */
  predicate BrTagAt(s: string, i: int) {
    && 0 <= i && i + 4 <= |s|
    && s[i] == '<'
    && ((s[i + 1] == 'B' && s[i + 2] == 'R') || (s[i + 1] == 'b' && s[i + 2] == 'r'))
    && s[i + 3] == '>'
  }

  /** `s.endswith('<BR>') or s.endswith('<br>')`. */
  predicate EndsWithBr(s: string) {
    |s| >= 4 && BrTagAt(s, |s| - 4)
  }

  /** `t` is a run of `<BR>`/`<br>` tags and nothing else. */
  predicate OnlyBrTags(t: string)
    decreases |t|
  {
    t == [] || (EndsWithBr(t) && OnlyBrTags(t[..|t| - 4]))
  }

  /** `_stripTrailingBR`: the result is a prefix of `s` that does not end in a
      `<BR>`/`<br>` tag, and what was cut off is a run of those tags. */
  function StripTrailingBr(s: string): (r: string)
    ensures r <= s
    ensures !EndsWithBr(r)
    ensures OnlyBrTags(s[|r|..])
    decreases |s|
  {
    if EndsWithBr(s) then
      var shorter := s[..|s| - 4];
      var r := StripTrailingBr(shorter);
      assert s[|r|..][..|s| - |r| - 4] == shorter[|r|..];
      r
    else
      assert s[|s|..] == [];
      s
  }

  /** The prefix `_stripTrailingBR` keeps is the only one with those properties. */
  lemma {:induction false} StripTrailingBrUnique(p: string, t: string)
    requires !EndsWithBr(p)
    requires OnlyBrTags(t)
    ensures StripTrailingBr(p + t) == p
    decreases |t|
  {
    var s := p + t;
    if t == [] {
      assert s == p;
    } else {
      var shorter := t[..|t| - 4];
      assert EndsWithBr(t) && OnlyBrTags(shorter);
      var j := |t| - 4;
      assert s[|p| + j] == t[j] && s[|p| + j + 1] == t[j + 1];
      assert s[|p| + j + 2] == t[j + 2] && s[|p| + j + 3] == t[j + 3];
      assert BrTagAt(s, |p| + j);
      assert s[..|s| - 4] == p + shorter;
      StripTrailingBrUnique(p, shorter);
    }
  }
}
