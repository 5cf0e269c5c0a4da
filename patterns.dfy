/**
  * The fixed regular expressions of the rewriter, each written out as a
  * matcher that reads a text from its first character (a candidate match
  * position), plus the leftmost-match search that `RegExp.prototype.exec`
  * performs.
  *
  * Descriptor fields are interpolated into the patterns unescaped. A `.` in a
  * field is therefore a wildcard for any character but a line terminator; the
  * other metacharacters are read literally here. In the case-insensitive
  * patterns letters are compared after ASCII upper-casing.
  *
  * Every optional or repeated part of these patterns is followed by a
  * character it cannot consume, so at each position there is at most one way
  * to match and backtracking never changes the outcome; each matcher below
  * computes that one way.
  */
module Patterns {
  import opened Wrappers
  import opened JsString

  /** `\w`: ASCII letters, digits and the underscore. */
  predicate IsWordChar(c: char) {
    ('a' <= c <= 'z') || ('A' <= c <= 'Z') || ('0' <= c <= '9') || c == '_'
  }

  /** `\s`: the ECMAScript white space and line terminator characters. */
  predicate IsSpace(c: char) {
    var n := c as int;
    (0x09 <= n <= 0x0D) || n == 0x20 || n == 0xA0 || n == 0x1680 ||
    (0x2000 <= n <= 0x200A) || n == 0x2028 || n == 0x2029 || n == 0x202F ||
    n == 0x205F || n == 0x3000 || n == 0xFEFF
  }

  /** The characters `.` does not match. */
  predicate IsLineTerminator(c: char) {
    c == '\n' || c == '\r' || c as int == 0x2028 || c as int == 0x2029
  }

  /** `('|")`: either quote character. */
  predicate IsQuote(c: char) {
    c == '\'' || c == '"'
  }

  function Upper(c: char): char {
    if 'a' <= c <= 'z' then (c as int - 32) as char else c
  }

  /** One character of an interpolated field, read as a pattern, against one character of the text. */
  predicate CharMatch(p: char, c: char, ignoreCase: bool) {
    if p == '.' then !IsLineTerminator(c)
    else if ignoreCase then Upper(p) == Upper(c)
    else p == c
  }

  /** The field `f`, read as a pattern, matches the text `x` of the same length. */
  predicate FieldMatches(x: String, f: String, ignoreCase: bool) {
    |x| == |f| && forall k :: 0 <= k < |f| ==> CharMatch(f[k], x[k], ignoreCase)
  }

  /** The field `f` matches the text `u` at position `i`. */
  predicate FieldAt(u: String, i: nat, f: String, ignoreCase: bool) {
    i + |f| <= |u| && FieldMatches(u[i..i + |f|], f, ignoreCase)
  }

  /**
    * A field without `.` matched case-sensitively matches exactly itself.
    */
  lemma FieldMatchesLiteral(x: String, f: String)
    requires '.' !in f
    ensures FieldMatches(x, f, false) <==> x == f
  {
    if FieldMatches(x, f, false) {
      forall k | 0 <= k < |f| ensures x[k] == f[k] {
        assert f[k] != '.';
      }
    }
  }

  /** The length of the run of word characters at the start of `x` (`\w+` is greedy). */
  function WordRun(x: String): (n: nat)
    ensures n <= |x|
    ensures forall k :: 0 <= k < n ==> IsWordChar(x[k])
    ensures n < |x| ==> !IsWordChar(x[n])
    decreases |x|
  {
    if x != [] && IsWordChar(x[0]) then 1 + WordRun(x[1..]) else 0
  }

  /** The position after the run of white space that starts at `i` (`\s+` is greedy). */
  function SkipSpaces(u: String, i: nat): (e: nat)
    ensures i <= e && (i <= |u| ==> e <= |u|)
    decreases |u| - i
  {
    if i < |u| && IsSpace(u[i]) then SkipSpaces(u, i + 1) else i
  }

  /** The run skipped is white space and stops at the first character that is not. */
  lemma {:induction false} SkipSpacesBounds(u: String, i: nat)
    ensures forall k :: i <= k < SkipSpaces(u, i) ==> IsSpace(u[k])
    ensures SkipSpaces(u, i) < |u| ==> !IsSpace(u[SkipSpaces(u, i)])
    decreases |u| - i
  {
    if i < |u| && IsSpace(u[i]) {
      SkipSpacesBounds(u, i + 1);
    }
  }

  /** Text made of white space only. */
  predicate AllSpace(x: String) {
    forall k :: 0 <= k < |x| ==> IsSpace(x[k])
  }

  /** The white space skipped makes a capture group that is white space or undefined. */
  lemma SpacesFiller(u: String, i: nat)
    requires i <= |u|
    ensures Filler(Optional(u[i..SkipSpaces(u, i)]))
  {
    SkipSpacesBounds(u, i);
    var g := u[i..SkipSpaces(u, i)];
    assert forall k :: 0 <= k < |g| ==> g[k] == u[i + k];
  }

  /** A single quote character makes a capture group that is a filler. */
  lemma QuoteFiller(u: String, i: nat)
    requires i < |u| && IsQuote(u[i])
    ensures Filler(Some(u[i..i + 1]))
  {
    assert u[i..i + 1][0] == u[i];
  }

  /** An optional group: `undefined` (None) when it took part in the match with nothing. */
  function Optional(g: String): Option<String> {
    if g == [] then None else Some(g)
  }

  /**
    * A match of one of the version-assigning patterns: where it ends, where
    * its version literal starts, and the array `exec` returns (the whole match
    * first, then the capture groups, None for an undefined group).
    */
  datatype Match = Match(end: nat, literal: nat, groups: seq<Option<String>>)

  /** The capture group of the white space that starts at `i`. */
  function Gap(u: String, i: nat): (g: Option<String>)
    requires i <= |u|
    ensures Filler(g)
    ensures g == Optional(u[i..SkipSpaces(u, i)])
  {
    SpacesFiller(u, i);
    Optional(u[i..SkipSpaces(u, i)])
  }

  /** The capture group of the quote character at `i`. */
  function QuoteGroup(u: String, i: nat): (g: Option<String>)
    requires i < |u| && IsQuote(u[i])
    ensures Filler(g) && g == Some(u[i..i + 1])
  {
    QuoteFiller(u, i);
    Some(u[i..i + 1])
  }

  /** A capture group holding only white space or a single quote character, or undefined. */
  predicate Filler(g: Option<String>) {
    g.None? || AllSpace(g.value) || (|g.value| == 1 && IsQuote(g.value[0]))
  }

  /**
    * The shape every version-assigning match has: the text up to `end`
    * is the whole match, the version literal `oldVersion` sits between two quote
    * characters just before `end`, and the capture groups after the first
    * two are white space or quotes.
    */
  predicate VersionMatch(u: String, m: Match, oldVersion: String, ignoreCase: bool) {
    1 <= m.literal && m.literal + |oldVersion| + 1 == m.end <= |u| &&
    IsQuote(u[m.literal - 1]) && IsQuote(u[m.end - 1]) &&
    FieldAt(u, m.literal, oldVersion, ignoreCase) &&
    |m.groups| == 6 && m.groups[0] == Some(u[..m.end]) &&
    Filler(m.groups[2]) && Filler(m.groups[3]) && Filler(m.groups[4]) && Filler(m.groups[5])
  }

  /**
    * `group:name:\${?(\w+)}?` with flags `ig`: a coordinate whose version is a
    * variable reference `$var` or `${var}`; yields the variable name.
    */
  function VarRefAt(u: String, group: String, name: String): (r: Option<String>)
    ensures r.Some? ==> |r.value| > 0 && forall k :: 0 <= k < |r.value| ==> IsWordChar(r.value[k])
  {
    var n := |group| + |name| + 3;
    if !(n <= |u| && FieldAt(u, 0, group, true) && u[|group|] == ':' &&
         FieldAt(u, |group| + 1, name, true) && u[n - 2] == ':' && u[n - 1] == '$') then None
    else if n + 1 < |u| && u[n] == '{' && IsWordChar(u[n + 1]) then
      Some(u[n + 1..n + 1 + WordRun(u[n + 1..])])
    else if n < |u| && IsWordChar(u[n]) then
      Some(u[n..n + WordRun(u[n..])])
    else None
  }

  /**
    * The match of a version-assigning pattern whose version literal starts at
    * `lit`, with its capture groups: the second entry, the two white-space
    * gaps, and the two quotes around the literal.
    */
  function Located(u: String, lit: nat, oldVersion: String, second: Option<String>,
                   gap1: Option<String>, gap2: Option<String>, ignoreCase: bool): (m: Match)
    requires QuotedAt(u, lit, oldVersion, ignoreCase) && Filler(gap1) && Filler(gap2)
    ensures VersionMatch(u, m, oldVersion, ignoreCase)
    ensures m.literal == lit && m.groups[1] == second && m.groups[2] == gap1 && m.groups[3] == gap2
  {
    var end := lit + |oldVersion| + 1;
    Match(end, lit, [Some(u[..end]), second, gap1, gap2, QuoteGroup(u, lit - 1), QuoteGroup(u, end - 1)])
  }

  /** A quoted version literal starts at `lit`, preceded and followed by a quote. */
  predicate QuotedAt(u: String, lit: nat, oldVersion: String, ignoreCase: bool) {
    1 <= lit && lit + |oldVersion| < |u| && IsQuote(u[lit - 1]) &&
    FieldAt(u, lit, oldVersion, ignoreCase) && IsQuote(u[lit + |oldVersion|])
  }

  /**
    * The facts an assignment match rests on: the variable name, white space
    * up to the `=` at `i2`, white space up to the quote at `i3` that opens
    * the literal.
    */
  predicate AssignParts(u: String, variable: String, oldVersion: String, i2: nat, i3: nat) {
    FieldAt(u, 0, variable, true) && i2 == SkipSpaces(u, |variable|) && i2 < |u| && u[i2] == '=' &&
    i3 == SkipSpaces(u, i2 + 1) && QuotedAt(u, i3 + 1, oldVersion, true)
  }

  /**
    * `(var(\s+)?=(\s+)?('|")oldVersion('|"))` with flags `ig`: an assignment of
    * the version to the variable. Group 1 wraps the whole pattern, so the
    * returned array holds the whole match twice.
    */
  function AssignAt(u: String, variable: String, oldVersion: String): (r: Option<Match>)
    ensures r.Some? ==> VersionMatch(u, r.value, oldVersion, true) && r.value.groups[1] == r.value.groups[0]
  {
    var i1 := |variable|;
    var i2 := SkipSpaces(u, i1);
    var i3 := SkipSpaces(u, i2 + 1);
    if !AssignParts(u, variable, oldVersion, i2, i3) then None
    else Some(Located(u, i3 + 1, oldVersion, Some(u[..i3 + |oldVersion| + 2]), Gap(u, i1), Gap(u, i2 + 1), true))
  }

  /** Where the white space after a plugin's group starts: past a `)` only in the call style. */
  function PluginGap(u: String, group: String, callStyle: bool): nat {
    if callStyle && |group| + 1 < |u| && u[|group| + 1] == ')' then |group| + 2 else |group| + 1
  }

  /**
    * The facts a plugin match rests on: the group and its closing quote,
    * white space from `i1` up to `version` at `i2`, white space up to the
    * quote at `i4` that opens the literal.
    */
  predicate PluginParts(u: String, group: String, oldVersion: String, i1: nat, i2: nat, i4: nat) {
    FieldAt(u, 0, group, false) && |group| < i1 && |group| < |u| && IsQuote(u[|group|]) &&
    i2 == SkipSpaces(u, i1) && OccursAt(u, "version", i2) &&
    i4 == SkipSpaces(u, i2 + 7) && QuotedAt(u, i4 + 1, oldVersion, false)
  }

  /** A plugin match whose white space before `version` starts at `i1`. */
  function PluginAfter(u: String, group: String, oldVersion: String, i1: nat): (r: Option<Match>)
    ensures r.Some? ==> VersionMatch(u, r.value, oldVersion, false) && Filler(r.value.groups[1])
  {
    var i2 := SkipSpaces(u, i1);
    var i4 := SkipSpaces(u, i2 + 7);
    if !PluginParts(u, group, oldVersion, i1, i2, i4) then None
    else Some(Located(u, i4 + 1, oldVersion, QuoteGroup(u, |group|), Gap(u, i1), Gap(u, i2 + 7), false))
  }

  /**
    * `group("|')(\s+)?version(\s+)?("|')oldVersion("|')`: a plugin declared
    * with a version. With `callStyle` a `)` may follow the first quote, as in
    * `id("group") version "1.0"`; the pattern in the source does not allow it.
    */
  function PluginAt(u: String, group: String, oldVersion: String, callStyle: bool): (r: Option<Match>)
    ensures r.Some? ==> VersionMatch(u, r.value, oldVersion, false) && Filler(r.value.groups[1])
  {
    PluginAfter(u, group, oldVersion, PluginGap(u, group, callStyle))
  }

  /**
    * The facts a named-argument match rests on: the name, a quote and a
    * comma, white space up to `version:` at `i2`, at least one white-space
    * character up to the quote at `i4` that opens the literal.
    */
  predicate KeywordParts(u: String, name: String, oldVersion: String, i2: nat, i4: nat) {
    FieldAt(u, 0, name, false) && |name| + 1 < |u| && IsQuote(u[|name|]) && u[|name| + 1] == ',' &&
    i2 == SkipSpaces(u, |name| + 2) && OccursAt(u, "version:", i2) &&
    i4 == SkipSpaces(u, i2 + 8) && i2 + 8 < i4 && QuotedAt(u, i4 + 1, oldVersion, false)
  }

  /**
    * `name('|"),(\s+)?version:(\s+)('|")oldVersion('|")`: a dependency declared
    * with named arguments. The white space after `version:` is mandatory.
    */
  function KeywordAt(u: String, name: String, oldVersion: String): (r: Option<Match>)
    ensures r.Some? ==> VersionMatch(u, r.value, oldVersion, false) && Filler(r.value.groups[1])
  {
    var i1 := |name| + 2;
    var i2 := SkipSpaces(u, i1);
    var i4 := SkipSpaces(u, i2 + 8);
    if !KeywordParts(u, name, oldVersion, i2, i4) then None
    else Some(Located(u, i4 + 1, oldVersion, QuoteGroup(u, |name|), Gap(u, i1), Gap(u, i2 + 8), false))
  }

  /** `group:name:oldVersion`, case-sensitive; yields the length of the match. */
  function InlineAt(u: String, group: String, name: String, oldVersion: String): (r: Option<nat>)
    ensures r.Some? ==> r.value == |group| + |name| + |oldVersion| + 2 <= |u|
  {
    var n := |group| + |name| + |oldVersion| + 2;
    if n <= |u| && FieldAt(u, 0, group, false) && u[|group|] == ':' &&
       FieldAt(u, |group| + 1, name, false) && u[|group| + 1 + |name|] == ':' &&
       FieldAt(u, |group| + |name| + 2, oldVersion, false)
    then Some(n) else None
  }

  /** The leftmost position at or after `i` where `at` matches: what `exec` returns. */
  function FindFrom<M>(s: String, at: String -> Option<M>, i: nat): (r: Option<(nat, M)>)
    ensures r.Some? ==>
      i <= r.value.0 <= |s| && at(s[r.value.0..]) == Some(r.value.1) &&
      forall j :: i <= j < r.value.0 ==> at(s[j..]).None?
    ensures r.None? ==> forall j :: i <= j <= |s| ==> at(s[j..]).None?
    decreases |s| + 1 - i
  {
    if i > |s| then None
    else match at(s[i..])
      case Some(m) => Some((i, m))
      case None => FindFrom(s, at, i + 1)
  }

  /** The first variable reference to the dependency. */
  function FindVarRef(s: String, group: String, name: String): (r: Option<(nat, String)>)
    ensures r.Some? ==>
      r.value.0 <= |s| && VarRefAt(s[r.value.0..], group, name) == Some(r.value.1) &&
      forall j :: 0 <= j < r.value.0 ==> VarRefAt(s[j..], group, name).None?
    ensures r.None? ==> forall j :: 0 <= j <= |s| ==> VarRefAt(s[j..], group, name).None?
  {
    FindFrom(s, u => VarRefAt(u, group, name), 0)
  }

  /** The first assignment of the version to the variable. */
  function FindAssign(s: String, variable: String, oldVersion: String): (r: Option<(nat, Match)>)
    ensures r.Some? ==>
      r.value.0 <= |s| && AssignAt(s[r.value.0..], variable, oldVersion) == Some(r.value.1) &&
      forall j :: 0 <= j < r.value.0 ==> AssignAt(s[j..], variable, oldVersion).None?
    ensures r.None? ==> forall j :: 0 <= j <= |s| ==> AssignAt(s[j..], variable, oldVersion).None?
  {
    FindFrom(s, u => AssignAt(u, variable, oldVersion), 0)
  }

  /** The first plugin declaration of the version. */
  function FindPlugin(s: String, group: String, oldVersion: String, callStyle: bool): (r: Option<(nat, Match)>)
    ensures r.Some? ==>
      r.value.0 <= |s| && PluginAt(s[r.value.0..], group, oldVersion, callStyle) == Some(r.value.1) &&
      forall j :: 0 <= j < r.value.0 ==> PluginAt(s[j..], group, oldVersion, callStyle).None?
    ensures r.None? ==> forall j :: 0 <= j <= |s| ==> PluginAt(s[j..], group, oldVersion, callStyle).None?
  {
    FindFrom(s, u => PluginAt(u, group, oldVersion, callStyle), 0)
  }

  /** The first named-argument declaration of the version. */
  function FindKeyword(s: String, name: String, oldVersion: String): (r: Option<(nat, Match)>)
    ensures r.Some? ==>
      r.value.0 <= |s| && KeywordAt(s[r.value.0..], name, oldVersion) == Some(r.value.1) &&
      forall j :: 0 <= j < r.value.0 ==> KeywordAt(s[j..], name, oldVersion).None?
    ensures r.None? ==> forall j :: 0 <= j <= |s| ==> KeywordAt(s[j..], name, oldVersion).None?
  {
    FindFrom(s, u => KeywordAt(u, name, oldVersion), 0)
  }

  /** The leftmost inline coordinate at or after `i`. */
  function FindInlineFrom(s: String, group: String, name: String, oldVersion: String, i: nat): (r: Option<(nat, nat)>)
    ensures r.Some? ==>
      i <= r.value.0 <= |s| && InlineAt(s[r.value.0..], group, name, oldVersion) == Some(r.value.1) &&
      forall j {:trigger InlineAt(s[j..], group, name, oldVersion)} :: i <= j < r.value.0 ==> InlineAt(s[j..], group, name, oldVersion).None?
    ensures r.None? ==> forall j {:trigger InlineAt(s[j..], group, name, oldVersion)} :: i <= j <= |s| ==> InlineAt(s[j..], group, name, oldVersion).None?
    decreases |s| + 1 - i
  {
    if i > |s| then None
    else match InlineAt(s[i..], group, name, oldVersion)
      case Some(n) => Some((i, n))
      case None => FindInlineFrom(s, group, name, oldVersion, i + 1)
  }

  /** The first inline coordinate. */
  function FindInline(s: String, group: String, name: String, oldVersion: String): (r: Option<(nat, nat)>)
    ensures r.Some? ==>
      r.value.0 <= |s| && InlineAt(s[r.value.0..], group, name, oldVersion) == Some(r.value.1) &&
      forall j {:trigger InlineAt(s[j..], group, name, oldVersion)} :: 0 <= j < r.value.0 ==> InlineAt(s[j..], group, name, oldVersion).None?
    ensures r.None? ==> forall j {:trigger InlineAt(s[j..], group, name, oldVersion)} :: 0 <= j <= |s| ==> InlineAt(s[j..], group, name, oldVersion).None?
  {
    FindInlineFrom(s, group, name, oldVersion, 0)
  }
}


/**
  * Facts about the matchers: a match depends only on the text it covers, so
  * the first copy of a matched text in the body is the match itself.
  */
module PatternFacts {
  import opened Wrappers
  import opened JsString
  import opened Patterns

  /** Two texts that agree on their first `n` characters. */
  predicate SamePrefix(u: String, w: String, n: nat) {
    n <= |u| && n <= |w| && u[..n] == w[..n]
  }

  lemma SamePrefixSlice(u: String, w: String, n: nat, a: nat, b: nat)
    requires SamePrefix(u, w, n) && a <= b <= n
    ensures u[a..b] == w[a..b]
  {
    assert u[a..b] == u[..n][a..b];
    assert w[a..b] == w[..n][a..b];
  }

  lemma SamePrefixChar(u: String, w: String, n: nat, k: nat)
    requires SamePrefix(u, w, n) && k < n
    ensures u[k] == w[k]
  {
    assert u[k] == u[..n][k];
    assert w[k] == w[..n][k];
  }

  lemma FieldAtPrefix(u: String, w: String, n: nat, i: nat, f: String, ignoreCase: bool)
    requires SamePrefix(u, w, n) && i + |f| <= n
    ensures FieldAt(u, i, f, ignoreCase) == FieldAt(w, i, f, ignoreCase)
  {
    SamePrefixSlice(u, w, n, i, i + |f|);
  }

  lemma OccursAtPrefix(u: String, w: String, n: nat, pat: String, i: nat)
    requires SamePrefix(u, w, n) && i + |pat| <= n && OccursAt(u, pat, i)
    ensures OccursAt(w, pat, i)
  {
    SamePrefixSlice(u, w, n, i, i + |pat|);
  }

  lemma QuotedAtPrefix(u: String, w: String, n: nat, lit: nat, oldVersion: String, ignoreCase: bool)
    requires SamePrefix(u, w, n) && lit + |oldVersion| < n && QuotedAt(u, lit, oldVersion, ignoreCase)
    ensures QuotedAt(w, lit, oldVersion, ignoreCase)
  {
    SamePrefixChar(u, w, n, lit - 1);
    FieldAtPrefix(u, w, n, lit, oldVersion, ignoreCase);
    SamePrefixChar(u, w, n, lit + |oldVersion|);
  }

  /** A run of white space is decided by the run and the character that ends it. */
  lemma {:induction false} SkipSpacesPrefix(u: String, w: String, n: nat, i: nat)
    requires SamePrefix(u, w, n) && i <= n && SkipSpaces(u, i) < n
    ensures SkipSpaces(w, i) == SkipSpaces(u, i)
    decreases |u| - i
  {
    SamePrefixChar(u, w, n, i);
    if IsSpace(u[i]) {
      SkipSpacesPrefix(u, w, n, i + 1);
    }
  }

  /** The parts hold of any text that starts like the matched text. */
  lemma AssignPartsPrefix(u: String, w: String, variable: String, oldVersion: String, i2: nat, i3: nat)
    requires AssignParts(u, variable, oldVersion, i2, i3) && SamePrefix(u, w, i3 + |oldVersion| + 2)
    ensures AssignParts(w, variable, oldVersion, i2, i3)
  {
    var n := i3 + |oldVersion| + 2;
    FieldAtPrefix(u, w, n, 0, variable, true);
    SkipSpacesPrefix(u, w, n, |variable|);
    SamePrefixChar(u, w, n, i2);
    SkipSpacesPrefix(u, w, n, i2 + 1);
    QuotedAtPrefix(u, w, n, i3 + 1, oldVersion, true);
  }

  /** An assignment match rests on those facts, and they make one. */
  lemma AssignAtParts(u: String, variable: String, oldVersion: String)
    ensures var i2 := SkipSpaces(u, |variable|); var i3 := SkipSpaces(u, i2 + 1);
      AssignAt(u, variable, oldVersion).Some? <==> AssignParts(u, variable, oldVersion, i2, i3)
  {
  }

  /** Where an assignment match ends. */
  lemma AssignAtEnd(u: String, variable: String, oldVersion: String)
    requires AssignAt(u, variable, oldVersion).Some?
    ensures var i2 := SkipSpaces(u, |variable|); var i3 := SkipSpaces(u, i2 + 1);
      AssignAt(u, variable, oldVersion).value.end == i3 + |oldVersion| + 2
  {
  }

  /** Whether an assignment matches depends only on the text the match covers. */
  lemma AssignAtPrefix(u: String, w: String, variable: String, oldVersion: String, n: nat)
    requires AssignAt(u, variable, oldVersion).Some? && n == AssignAt(u, variable, oldVersion).value.end
    requires SamePrefix(u, w, n)
    ensures AssignAt(w, variable, oldVersion).Some?
  {
    AssignAtParts(u, variable, oldVersion);
    AssignAtEnd(u, variable, oldVersion);
    var i2 := SkipSpaces(u, |variable|);
    var i3 := SkipSpaces(u, i2 + 1);
    AssignPartsPrefix(u, w, variable, oldVersion, i2, i3);
    AssignAtParts(w, variable, oldVersion);
  }

  /** The parts hold of any text that starts like the matched text. */
  lemma PluginPartsPrefix(u: String, w: String, group: String, oldVersion: String, i1: nat, i2: nat, i4: nat)
    requires PluginParts(u, group, oldVersion, i1, i2, i4) && SamePrefix(u, w, i4 + |oldVersion| + 2)
    ensures PluginParts(w, group, oldVersion, i1, i2, i4)
  {
    var n := i4 + |oldVersion| + 2;
    var q1 := |group|;
    assert FieldAt(w, 0, group, false) && IsQuote(w[q1]) by {
      FieldAtPrefix(u, w, n, 0, group, false);
      SamePrefixChar(u, w, n, q1);
    }
    SkipSpacesPrefix(u, w, n, i1);
    OccursAtPrefix(u, w, n, "version", i2);
    SkipSpacesPrefix(u, w, n, i2 + 7);
    QuotedAtPrefix(u, w, n, i4 + 1, oldVersion, false);
  }

  /** A plugin match rests on those facts, and they make one. */
  lemma PluginAtParts(u: String, group: String, oldVersion: String, callStyle: bool)
    ensures var i1 := PluginGap(u, group, callStyle); var i2 := SkipSpaces(u, i1); var i4 := SkipSpaces(u, i2 + 7);
      PluginAt(u, group, oldVersion, callStyle).Some? <==> PluginParts(u, group, oldVersion, i1, i2, i4)
  {
  }

  /** Where a plugin match ends. */
  lemma PluginAtEnd(u: String, group: String, oldVersion: String, callStyle: bool)
    requires PluginAt(u, group, oldVersion, callStyle).Some?
    ensures var i1 := PluginGap(u, group, callStyle); var i2 := SkipSpaces(u, i1); var i4 := SkipSpaces(u, i2 + 7);
      PluginAt(u, group, oldVersion, callStyle).value.end == i4 + |oldVersion| + 2
  {
  }

  /** The parts hold of any text that starts like the matched text. */
  lemma KeywordPartsPrefix(u: String, w: String, name: String, oldVersion: String, i2: nat, i4: nat)
    requires KeywordParts(u, name, oldVersion, i2, i4) && SamePrefix(u, w, i4 + |oldVersion| + 2)
    ensures KeywordParts(w, name, oldVersion, i2, i4)
  {
    var n := i4 + |oldVersion| + 2;
    FieldAtPrefix(u, w, n, 0, name, false);
    SamePrefixChar(u, w, n, |name|);
    SamePrefixChar(u, w, n, |name| + 1);
    SkipSpacesPrefix(u, w, n, |name| + 2);
    OccursAtPrefix(u, w, n, "version:", i2);
    SkipSpacesPrefix(u, w, n, i2 + 8);
    QuotedAtPrefix(u, w, n, i4 + 1, oldVersion, false);
  }

  /** Whether a plugin matches depends only on the text the match covers. */
  lemma PluginAtPrefix(u: String, w: String, group: String, oldVersion: String, callStyle: bool, n: nat)
    requires PluginAt(u, group, oldVersion, callStyle).Some? && n == PluginAt(u, group, oldVersion, callStyle).value.end
    requires SamePrefix(u, w, n)
    ensures PluginAt(w, group, oldVersion, callStyle).Some?
  {
    PluginAtParts(u, group, oldVersion, callStyle);
    PluginAtEnd(u, group, oldVersion, callStyle);
    var i1 := PluginGap(u, group, callStyle);
    var i2 := SkipSpaces(u, i1);
    var i4 := SkipSpaces(u, i2 + 7);
    if |group| + 1 < |u| {
      SamePrefixChar(u, w, n, |group| + 1);
    }
    assert PluginGap(w, group, callStyle) == i1;
    PluginPartsPrefix(u, w, group, oldVersion, i1, i2, i4);
    PluginAtParts(w, group, oldVersion, callStyle);
  }

  /** A named-argument match rests on those facts, and they make one. */
  lemma KeywordAtParts(u: String, name: String, oldVersion: String)
    ensures var i2 := SkipSpaces(u, |name| + 2); var i4 := SkipSpaces(u, i2 + 8);
      KeywordAt(u, name, oldVersion).Some? <==> KeywordParts(u, name, oldVersion, i2, i4)
  {
  }

  /** Where a named-argument match ends. */
  lemma KeywordAtEnd(u: String, name: String, oldVersion: String)
    requires KeywordAt(u, name, oldVersion).Some?
    ensures var i2 := SkipSpaces(u, |name| + 2); var i4 := SkipSpaces(u, i2 + 8);
      KeywordAt(u, name, oldVersion).value.end == i4 + |oldVersion| + 2
  {
  }

  /** Whether a named-argument declaration matches depends only on the text the match covers. */
  lemma KeywordAtPrefix(u: String, w: String, name: String, oldVersion: String, n: nat)
    requires KeywordAt(u, name, oldVersion).Some? && n == KeywordAt(u, name, oldVersion).value.end
    requires SamePrefix(u, w, n)
    ensures KeywordAt(w, name, oldVersion).Some?
  {
    KeywordAtParts(u, name, oldVersion);
    KeywordAtEnd(u, name, oldVersion);
    var i2 := SkipSpaces(u, |name| + 2);
    var i4 := SkipSpaces(u, i2 + 8);
    KeywordPartsPrefix(u, w, name, oldVersion, i2, i4);
    KeywordAtParts(w, name, oldVersion);
  }

  /** A text that occurs at `q` and nowhere before is found at `q`. */
  lemma FirstCopy(s: String, whole: String, q: nat)
    requires q + |whole| <= |s| && s[q..][..|whole|] == whole
    requires forall p :: 0 <= p < q ==> !OccursAt(s, whole, p)
    ensures IndexOf(s, whole) == Some(q)
  {
    assert OccursAt(s, whole, q) by {
      forall k | 0 <= k < |whole| ensures s[q + k] == whole[k] {
        assert whole[k] == s[q..][k];
      }
    }
    IncludesOccurs(s, whole, q);
  }

  /** The text of the first assignment match first occurs where it matched. */
  lemma AssignFoundFirst(s: String, variable: String, oldVersion: String, q: nat, m: Match)
    requires q <= |s| && AssignAt(s[q..], variable, oldVersion) == Some(m)
    requires forall j :: 0 <= j < q ==> AssignAt(s[j..], variable, oldVersion).None?
    ensures q + m.end <= |s| && IndexOf(s, s[q..][..m.end]) == Some(q)
  {
    var whole := s[q..][..m.end];
    forall p | 0 <= p < q ensures !OccursAt(s, whole, p) {
      if OccursAt(s, whole, p) {
        assert s[p..][..m.end] == whole == s[q..][..m.end];
        AssignAtPrefix(s[q..], s[p..], variable, oldVersion, m.end);
      }
    }
    FirstCopy(s, whole, q);
  }

  /** The text of the first plugin match first occurs where it matched. */
  lemma PluginFoundFirst(s: String, group: String, oldVersion: String, callStyle: bool, q: nat, m: Match)
    requires q <= |s| && PluginAt(s[q..], group, oldVersion, callStyle) == Some(m)
    requires forall j :: 0 <= j < q ==> PluginAt(s[j..], group, oldVersion, callStyle).None?
    ensures q + m.end <= |s| && IndexOf(s, s[q..][..m.end]) == Some(q)
  {
    var whole := s[q..][..m.end];
    forall p | 0 <= p < q ensures !OccursAt(s, whole, p) {
      if OccursAt(s, whole, p) {
        assert s[p..][..m.end] == whole == s[q..][..m.end];
        PluginAtPrefix(s[q..], s[p..], group, oldVersion, callStyle, m.end);
      }
    }
    FirstCopy(s, whole, q);
  }

  /** The text of the first named-argument match first occurs where it matched. */
  lemma KeywordFoundFirst(s: String, name: String, oldVersion: String, q: nat, m: Match)
    requires q <= |s| && KeywordAt(s[q..], name, oldVersion) == Some(m)
    requires forall j :: 0 <= j < q ==> KeywordAt(s[j..], name, oldVersion).None?
    ensures q + m.end <= |s| && IndexOf(s, s[q..][..m.end]) == Some(q)
  {
    var whole := s[q..][..m.end];
    forall p | 0 <= p < q ensures !OccursAt(s, whole, p) {
      if OccursAt(s, whole, p) {
        assert s[p..][..m.end] == whole == s[q..][..m.end];
        KeywordAtPrefix(s[q..], s[p..], name, oldVersion, m.end);
      }
    }
    FirstCopy(s, whole, q);
  }

  /** A version with neither quote characters nor white space in it, as versions are written. */
  predicate PlainVersion(v: String) {
    |v| > 0 && forall k :: 0 <= k < |v| ==> !IsQuote(v[k]) && !IsSpace(v[k])
  }

  /** White space and quote groups never include a plain version. */
  lemma FillerExcludes(g: Option<String>, v: String)
    requires g.Some? && Filler(g) && PlainVersion(v)
    ensures !Includes(g.value, v)
  {
    var x := g.value;
    forall p | 0 <= p ensures !OccursAt(x, v, p) {
      if p + |v| <= |x| {
        assert !IsQuote(v[0]) && !IsSpace(v[0]);
        assert IsSpace(x[p]) || IsQuote(x[p]);
      }
    }
  }

  /**
    * In a match whose literal sits between two quotes, a plain version occurs
    * nowhere but at the literal, unless it already occurs before the literal.
    */
  lemma LiteralOnlyOccurrence(whole: String, lit: nat, v: String)
    requires 1 <= lit && lit + |v| + 1 == |whole| && IsQuote(whole[lit - 1]) && IsQuote(whole[|whole| - 1])
    requires PlainVersion(v) && !Includes(whole[..lit], v)
    ensures IndexOf(whole, v) == if whole[lit..lit + |v|] == v then Some(lit) else None
  {
    forall p | 0 <= p && p != lit ensures !OccursAt(whole, v, p) {
      if p + |v| <= lit {
        assert !OccursAt(whole[..lit], v, p);
      } else if p < lit {
        assert !IsQuote(v[lit - 1 - p]);
      } else if p + |v| <= |whole| {
        assert !IsQuote(v[|v| - 1]);
      }
    }
    if whole[lit..lit + |v|] == v {
      assert OccursAt(whole, v, lit);
      IncludesOccurs(whole, v, lit);
    }
    if Includes(whole, v) {
      var r := IndexOf(whole, v).value;
      assert r == lit;
      assert whole[lit..lit + |v|] == v;
    }
  }

  /**
    * The optional white-space groups of an assignment are undefined exactly
    * when there is no white space before or after the `=`.
    */
  lemma AssignGaps(u: String, variable: String, oldVersion: String)
    requires AssignAt(u, variable, oldVersion).Some?
    ensures var m := AssignAt(u, variable, oldVersion).value;
      |variable| < |u| && 2 <= m.literal <= |u| &&
      m.groups[0].Some? && m.groups[1].Some? && m.groups[4].Some? && m.groups[5].Some? &&
      (m.groups[2].None? <==> !IsSpace(u[|variable|])) &&
      (m.groups[3].None? <==> !IsSpace(u[m.literal - 2]))
  {
    var i1 := |variable|;
    var i2 := SkipSpaces(u, i1);
    var i3 := SkipSpaces(u, i2 + 1);
    SkipSpacesBounds(u, i1);
    SkipSpacesBounds(u, i2 + 1);
    assert Gap(u, i1).None? <==> i2 == i1;
    assert Gap(u, i2 + 1).None? <==> i3 == i2 + 1;
  }

  /**
    * The optional white-space groups of a plugin declaration are undefined
    * exactly when there is no white space before or after `version`.
    */
  lemma PluginGaps(u: String, group: String, oldVersion: String, callStyle: bool)
    requires PluginAt(u, group, oldVersion, callStyle).Some?
    ensures var m := PluginAt(u, group, oldVersion, callStyle).value; var i1 := PluginGap(u, group, callStyle);
      i1 < |u| && 2 <= m.literal <= |u| &&
      m.groups[0].Some? && m.groups[1].Some? && m.groups[4].Some? && m.groups[5].Some? &&
      (m.groups[2].None? <==> !IsSpace(u[i1])) &&
      (m.groups[3].None? <==> !IsSpace(u[m.literal - 2]))
  {
    var i1 := PluginGap(u, group, callStyle);
    var i2 := SkipSpaces(u, i1);
    var i4 := SkipSpaces(u, i2 + 7);
    SkipSpacesBounds(u, i1);
    SkipSpacesBounds(u, i2 + 7);
    assert u[i2 + 6] == 'n' by {
      assert OccursAt(u, "version", i2);
      assert "version"[6] == 'n';
    }
    assert Gap(u, i1).None? <==> i2 == i1;
    assert Gap(u, i2 + 7).None? <==> i4 == i2 + 7;
  }

  /**
    * The white space after `version:` is mandatory, so of the two white-space
    * groups of a named-argument declaration only the first can be undefined,
    * and it is exactly when no white space follows the comma.
    */
  lemma KeywordGaps(u: String, name: String, oldVersion: String)
    requires KeywordAt(u, name, oldVersion).Some?
    ensures var m := KeywordAt(u, name, oldVersion).value;
      |name| + 2 < |u| &&
      m.groups[0].Some? && m.groups[1].Some? && m.groups[3].Some? && m.groups[4].Some? && m.groups[5].Some? &&
      (m.groups[2].None? <==> !IsSpace(u[|name| + 2]))
  {
    var i1 := |name| + 2;
    var i2 := SkipSpaces(u, i1);
    var i4 := SkipSpaces(u, i2 + 8);
    SkipSpacesBounds(u, i1);
    assert OccursAt(u, "version:", i2);
    assert Gap(u, i1).None? <==> i2 == i1;
    assert Gap(u, i2 + 8).Some?;
  }

  /**
    * Where a `)` follows the group's closing quote, the source's plugin
    * pattern cannot match: it wants `version` or white space there.
    */
  lemma CallStyleMissed(u: String, group: String, oldVersion: String)
    requires |group| + 1 < |u| && u[|group| + 1] == ')'
    ensures PluginAt(u, group, oldVersion, false).None?
  {
    var i1 := |group| + 1;
    assert !IsSpace(u[i1]);
    assert SkipSpaces(u, i1) == i1;
    assert !OccursAt(u, "version", i1) by {
      assert u[i1] != "version"[0];
    }
  }

  /** Without a `)` after the group's closing quote, both plugin patterns read the text alike. */
  lemma CallStyleExtends(u: String, group: String, oldVersion: String)
    requires !(|group| + 1 < |u| && u[|group| + 1] == ')')
    ensures PluginAt(u, group, oldVersion, true) == PluginAt(u, group, oldVersion, false)
  {
    assert PluginGap(u, group, true) == PluginGap(u, group, false);
  }

  /**
    * The corrected plugin pattern matches a call-style declaration
    * `id("group") version "oldVersion"`, which the source's pattern does not
    * match at that position.
    */
  lemma CallStyleMatched(group: String, oldVersion: String, rest: String)
    requires PlainVersion(oldVersion)
    ensures var u := group + "\") version \"" + oldVersion + "\"" + rest;
      PluginAt(u, group, oldVersion, true).Some? && PluginAt(u, group, oldVersion, false).None?
  {
    var mid := "\") version \"";
    var u := group + mid + oldVersion + "\"" + rest;
    var g := |group|;
    var lit := g + 12;
    assert |u| == lit + |oldVersion| + 1 + |rest|;
    assert u[..g] == group;
    assert forall k :: 0 <= k < 12 ==> u[g + k] == mid[k];
    assert forall k :: 0 <= k < |oldVersion| ==> u[lit + k] == oldVersion[k];
    assert u[lit + |oldVersion|] == '"';
    assert u[0..g] == group;
    assert u[lit..lit + |oldVersion|] == oldVersion;
    assert FieldAt(u, 0, group, false);
    assert FieldAt(u, lit, oldVersion, false);
    CallStyleMissed(u, group, oldVersion);
    assert PluginGap(u, group, true) == g + 2;
    assert SkipSpaces(u, g + 3) == g + 3;
    assert SkipSpaces(u, g + 2) == g + 3;
    assert OccursAt(u, "version", g + 3);
    assert SkipSpaces(u, g + 11) == g + 11;
    assert SkipSpaces(u, g + 10) == g + 11;
    assert PluginParts(u, group, oldVersion, g + 2, g + 3, g + 11);
  }
}
