/**
  * The JavaScript string operations the rewriter relies on, on strings of
  * characters: `indexOf`, `includes` and `String.prototype.replace` with a
  * string (not a regular expression) as the search value.
  *
  * `replace` does not insert its replacement argument verbatim: the argument is
  * a template in which `$$`, `$&`, `` $` `` and `$'` stand for a dollar sign, the
  * matched text, the text before the match and the text after it
  * (GetSubstitution in ECMA-262). With a string search value there are no
  * capture groups, so `$1`, `$<` and every other `$` stay literal.
  */
module JsString {
  import opened Wrappers

  type String = seq<char>

  /** `pat` occurs in `s` starting at position `i`. */
  predicate OccursAt(s: String, pat: String, i: nat) {
    i + |pat| <= |s| && forall k :: 0 <= k < |pat| ==> s[i + k] == pat[k]
  }

  /** An occurrence gives each character of the pattern. */
  lemma OccursAtChar(s: String, pat: String, i: nat, k: nat)
    requires OccursAt(s, pat, i) && k < |pat|
    ensures i + k < |s| && s[i + k] == pat[k]
  {
  }

  /** The first occurrence of `pat` in `s` at or after `i`. */
  function IndexOfFrom(s: String, pat: String, i: nat): (r: Option<nat>)
    ensures r.Some? ==>
      i <= r.value && OccursAt(s, pat, r.value) &&
      forall j :: i <= j < r.value ==> !OccursAt(s, pat, j)
    ensures r.None? ==> forall j :: i <= j ==> !OccursAt(s, pat, j)
    decreases |s| - i
  {
    if i + |pat| > |s| then None
    else if s[i..i + |pat|] == pat then Some(i)
    else IndexOfFrom(s, pat, i + 1)
  }

  /** `s.indexOf(pat)`; an empty `pat` is found at 0. */
  function IndexOf(s: String, pat: String): Option<nat> {
    IndexOfFrom(s, pat, 0)
  }

  /** `s.includes(pat)`. */
  predicate Includes(s: String, pat: String) {
    IndexOf(s, pat).Some?
  }

  /** `includes` holds exactly when `pat` occurs somewhere in `s`. */
  lemma IncludesOccurs(s: String, pat: String, i: nat)
    requires OccursAt(s, pat, i)
    ensures Includes(s, pat) && IndexOf(s, pat).value <= i
  {
  }

  /** The first occurrence in a prefix is the first occurrence in the whole string. */
  lemma IndexOfPrefix(s: String, pat: String, len: nat, r: nat)
    requires len <= |s| && IndexOf(s[..len], pat) == Some(r)
    ensures IndexOf(s, pat) == Some(r)
  {
    assert OccursAt(s, pat, r) by {
      assert OccursAt(s[..len], pat, r);
    }
    forall j | 0 <= j < r ensures !OccursAt(s, pat, j) {
      assert !OccursAt(s[..len], pat, j);
    }
    IncludesOccurs(s, pat, r);
  }

  /** GetSubstitution for a search without capture groups. */
  function Expand(template: String, matched: String, before: String, after: String): String
    decreases |template|
  {
    if template == [] then []
    else if template[0] == '$' && |template| >= 2 && template[1] in "$&`'" then
      (if template[1] == '$' then "$"
       else if template[1] == '&' then matched
       else if template[1] == '`' then before
       else after)
      + Expand(template[2..], matched, before, after)
    else [template[0]] + Expand(template[1..], matched, before, after)
  }

  /** A template without a dollar sign is inserted verbatim. */
  lemma {:induction false} ExpandVerbatim(template: String, matched: String, before: String, after: String)
    requires '$' !in template
    ensures Expand(template, matched, before, after) == template
    decreases |template|
  {
    if template != [] {
      assert '$' !in template[1..];
      ExpandVerbatim(template[1..], matched, before, after);
    }
  }

  /** `s.replace(pat, template)`: only the first occurrence of `pat` is replaced. */
  function StrReplace(s: String, pat: String, template: String): String {
    match IndexOf(s, pat)
    case None => s
    case Some(p) =>
      s[..p] + Expand(template, pat, s[..p], s[p + |pat|..]) + s[p + |pat|..]
  }

  /** Replacing a value that does not occur leaves the string as it was. */
  lemma StrReplaceAbsent(s: String, pat: String, template: String)
    requires !Includes(s, pat)
    ensures StrReplace(s, pat, template) == s
  {
  }

  /**
    * With a template free of `$`, `replace` splices the template in at the
    * first occurrence and changes nothing before or after it.
    */
  lemma StrReplaceFirst(s: String, pat: String, template: String, p: nat)
    requires IndexOf(s, pat) == Some(p)
    requires '$' !in template
    ensures p + |pat| <= |s|
    ensures StrReplace(s, pat, template) == s[..p] + template + s[p + |pat|..]
  {
    ExpandVerbatim(template, pat, s[..p], s[p + |pat|..]);
  }

  /** `s` with the `len` characters at position `i` replaced by `replacement`. */
  function Splice(s: String, i: nat, len: nat, replacement: String): String
    requires i + len <= |s|
  {
    s[..i] + replacement + s[i + len..]
  }

  /** A character in neither string is not in their splice. */
  lemma SpliceWithout(s: String, i: nat, len: nat, replacement: String, c: char)
    requires i + len <= |s| && c !in s && c !in replacement
    ensures c !in Splice(s, i, len, replacement)
  {
    assert s == s[..i] + s[i..i + len] + s[i + len..];
  }

  /** A splice keeps what lies before and after the replaced characters. */
  lemma SpliceParts(s: String, i: nat, len: nat, replacement: String)
    requires i + len <= |s|
    ensures var e := Splice(s, i, len, replacement);
      |e| == |s| - len + |replacement| && e[..i] == s[..i] &&
      e[i..i + |replacement|] == replacement && e[i + |replacement|..] == s[i + len..]
  {
  }

  /** Splicing the removed characters back in undoes a splice. */
  lemma SpliceRevert(s: String, i: nat, len: nat, replacement: String)
    requires i + len <= |s|
    ensures var e := Splice(s, i, len, replacement);
      i + |replacement| <= |e| && Splice(e, i, |replacement|, s[i..i + len]) == s
  {
    SpliceParts(s, i, len, replacement);
    assert s == s[..i] + s[i..i + len] + s[i + len..];
  }

  /** An edit of a copy of `found` inside `s` is the same edit of `s`, shifted. */
  lemma SpliceNested(s: String, found: String, q: nat, r: nat, n: nat, t: String)
    requires OccursAt(s, found, q) && r + n <= |found|
    ensures s[..q] + Splice(found, r, n, t) + s[q + |found|..] == Splice(s, q + r, n, t)
  {
    assert s[q..q + |found|] == found;
    assert s[..q + r] == s[..q] + found[..r];
    assert s[q + r + n..] == found[r + n..] + s[q + |found|..];
  }

  /**
    * `s.split(pat)`: the pieces of `s` between the leftmost non-overlapping
    * occurrences of `pat`, found from left to right.
    */
  function Split(s: String, pat: String): (r: seq<String>)
    requires |pat| > 0
    ensures |r| > 0
    decreases |s|
  {
    match IndexOf(s, pat)
    case None => [s]
    case Some(p) => [s[..p]] + Split(s[p + |pat|..], pat)
  }

  /** `parts.join(sep)`. */
  function Join(parts: seq<String>, sep: String): String
    decreases |parts|
  {
    if parts == [] then []
    else if |parts| == 1 then parts[0]
    else parts[0] + sep + Join(parts[1..], sep)
  }

  /** Joining a first piece to a non-empty rest puts the separator between them. */
  lemma JoinCons(x: String, rest: seq<String>, sep: String)
    requires |rest| > 0
    ensures Join([x] + rest, sep) == x + sep + Join(rest, sep)
  {
    assert ([x] + rest)[1..] == rest;
  }

  /** The pieces of `s` around its first occurrence of `pat` at `p`. */
  lemma SplitAt(s: String, pat: String, p: nat)
    requires |pat| > 0 && IndexOf(s, pat) == Some(p)
    ensures p + |pat| <= |s|
    ensures Split(s, pat) == [s[..p]] + Split(s[p + |pat|..], pat)
    ensures s == s[..p] + pat + s[p + |pat|..]
  {
    assert s[p..p + |pat|] == pat;
    assert s == s[..p] + s[p..p + |pat|] + s[p + |pat|..];
  }

  /** Joining the pieces with the separator they were split at gives the text back. */
  lemma {:induction false} SplitJoin(s: String, pat: String)
    requires |pat| > 0
    ensures Join(Split(s, pat), pat) == s
    decreases |s|
  {
    match IndexOf(s, pat)
    case None =>
    case Some(p) =>
      SplitAt(s, pat, p);
      SplitJoin(s[p + |pat|..], pat);
      JoinCons(s[..p], Split(s[p + |pat|..], pat), pat);
  }

  /** No piece holds the separator: every occurrence of it in `s` was split at. */
  lemma {:induction false} SplitPieces(s: String, pat: String)
    requires |pat| > 0
    ensures forall k :: 0 <= k < |Split(s, pat)| ==> !Includes(Split(s, pat)[k], pat)
    decreases |s|
  {
    match IndexOf(s, pat)
    case None =>
    case Some(p) =>
      SplitAt(s, pat, p);
      var rest := s[p + |pat|..];
      SplitPieces(rest, pat);
      forall j | 0 <= j ensures !OccursAt(s[..p], pat, j) {
        if OccursAt(s[..p], pat, j) {
          assert OccursAt(s, pat, j);
        }
      }
      var r := Split(s, pat);
      forall k | 0 <= k < |r| ensures !Includes(r[k], pat) {
        if k > 0 {
          assert r[k] == Split(rest, pat)[k - 1];
        }
      }
  }

  /** A slice of a slice is a slice. */
  lemma SliceOfSlice(s: String, a: nat, b: nat, c: nat, d: nat)
    requires a <= b <= |s| && c <= d <= b - a
    ensures s[a..b][c..d] == s[a + c..a + d]
    ensures s[a..b][..d] == s[a..a + d]
  {
    forall i | 0 <= i < d - c ensures s[a..b][c..d][i] == s[a + c..a + d][i] {
      assert s[a..b][c + i] == s[a + c + i];
    }
    forall i | 0 <= i < d ensures s[a..b][..d][i] == s[a..a + d][i] {
      assert s[a..b][i] == s[a + i];
    }
  }
}
