/**
  * What the rewriter does to a build file: the span each form touches, when
  * it throws, where it writes the new version and when the source's
  * behaviour and the corrected one coincide.
  */
module ReplaceVersionFacts {
  import opened Wrappers
  import opened JsString
  import opened Patterns
  import opened PatternFacts
  import opened ReplaceVersion

  /** Defined groups made of white space or one quote are all dropped by the filter. */
  lemma {:induction false} IncludingFillers(groups: seq<Option<String>>, v: String)
    requires PlainVersion(v)
    requires forall k :: 0 <= k < |groups| ==> groups[k].Some? && Filler(groups[k])
    ensures Including(groups, v) == Ok([])
    decreases |groups|
  {
    if groups != [] {
      FillerExcludes(groups[0], v);
      IncludingFillers(groups[1..], v);
    }
  }

  /** From a plugin or named-argument match the filter keeps the whole match, if it includes the version. */
  lemma IncludingQuoted(u: String, m: Match, v: String)
    requires VersionMatch(u, m, v, false) && Filler(m.groups[1]) && None !in m.groups && PlainVersion(v)
    ensures Including(m.groups, v) == Ok(if Includes(u[..m.end], v) then [u[..m.end]] else [])
  {
    var rest := m.groups[1..];
    forall k | 0 <= k < |rest| ensures rest[k].Some? && Filler(rest[k]) {
      assert rest[k] == m.groups[k + 1] && m.groups[k + 1] in m.groups;
    }
    IncludingFillers(rest, v);
    assert m.groups == [m.groups[0]] + rest;
    assert [u[..m.end]] + [] == [u[..m.end]];
  }

  /** From an assignment match the filter keeps the whole match twice, if it includes the version. */
  lemma IncludingAssign(u: String, m: Match, v: String)
    requires VersionMatch(u, m, v, true) && m.groups[1] == m.groups[0] && None !in m.groups && PlainVersion(v)
    ensures Including(m.groups, v) == Ok(if Includes(u[..m.end], v) then [u[..m.end], u[..m.end]] else [])
  {
    var rest := m.groups[2..];
    forall k | 0 <= k < |rest| ensures rest[k].Some? && Filler(rest[k]) {
      assert rest[k] == m.groups[k + 2] && m.groups[k + 2] in m.groups;
    }
    IncludingFillers(rest, v);
    assert m.groups[1..] == [m.groups[1]] + rest;
    assert m.groups == [m.groups[0]] + m.groups[1..];
    assert [u[..m.end]] + ([u[..m.end]] + []) == [u[..m.end], u[..m.end]];
  }

  /**
    * One `forEach` step on a match whose first copy in the body is at `q`
    * and whose first old version is at `r` within it: the old version at
    * `q + r` becomes the new one, and nothing else changes.
    */
  lemma RewriteAt(body: String, found: String, q: nat, r: nat, dep: Dependency)
    requires IndexOf(body, found) == Some(q) && IndexOf(found, dep.oldVersion) == Some(r)
    requires '$' !in found && '$' !in dep.version
    ensures q + r + |dep.oldVersion| <= |body|
    ensures Rewrite(body, found, dep) == Splice(body, q + r, |dep.oldVersion|, dep.version)
  {
    var n := |dep.oldVersion|;
    StrReplaceFirst(found, dep.oldVersion, dep.version, r);
    var edited := Splice(found, r, n, dep.version);
    SpliceWithout(found, r, n, dep.version, '$');
    StrReplaceFirst(body, found, edited, q);
    SpliceNested(body, found, q, r, n, dep.version);
  }

  /** The `forEach` over one entry. */
  lemma RewriteOne(body: String, found: String, dep: Dependency)
    ensures RewriteAll(body, [found], dep) == Rewrite(body, found, dep)
  {
    assert [found][..0] == [];
  }

  /** The `forEach` over the same entry twice. */
  lemma RewriteTwice(body: String, found: String, dep: Dependency)
    ensures RewriteAll(body, [found, found], dep) == Rewrite(Rewrite(body, found, dep), found, dep)
  {
    assert [found, found][..1] == [found];
    RewriteOne(body, found, dep);
  }

  /**
    * The as-written edit of a match at `q` that ends at `q + end`: the first
    * old version inside the matched text, wherever it is in it, becomes the
    * new version.
    */
  function FirstInSpan(body: String, q: nat, end: nat, dep: Dependency): String
    requires q + end <= |body|
  {
    match IndexOf(body[q..q + end], dep.oldVersion)
    case None => body
    case Some(r) => Splice(body, q + r, |dep.oldVersion|, dep.version)
  }

  /** The as-written edit when the old version is not in the match. */
  lemma FirstInSpanAbsent(body: String, q: nat, end: nat, dep: Dependency)
    requires q + end <= |body| && IndexOf(body[q..q + end], dep.oldVersion).None?
    ensures FirstInSpan(body, q, end, dep) == body
  {
  }

  /** The as-written edit when the first old version in the match is at `r`. */
  lemma FirstInSpanAt(body: String, q: nat, end: nat, dep: Dependency, r: nat)
    requires q + end <= |body| && IndexOf(body[q..q + end], dep.oldVersion) == Some(r)
    ensures FirstInSpan(body, q, end, dep) == Splice(body, q + r, |dep.oldVersion|, dep.version)
  {
  }

  /**
    * The `forEach` over the kept entries `found`, once or twice, where the
    * first copy of `found` in the body is at `q` and its first old version
    * is at `r` within it.
    */
  lemma ApplyKept(body: String, q: nat, m: Match, dep: Dependency, found: String, r: nat, twice: bool)
    requires q + m.end <= |body| && m.literal + |dep.oldVersion| < m.end
    requires Including(m.groups, dep.oldVersion) == Ok(if twice then [found, found] else [found])
    requires IndexOf(body, found) == Some(q) && IndexOf(found, dep.oldVersion) == Some(r)
    requires '$' !in found && '$' !in dep.version
    ensures q + r + |dep.oldVersion| <= |body|
    ensures var once := Splice(body, q + r, |dep.oldVersion|, dep.version);
      ApplyMatch(body, q, m, dep, AsWritten) == Ok(if twice then Rewrite(once, found, dep) else once)
  {
    RewriteAt(body, found, q, r, dep);
    if twice {
      RewriteTwice(body, found, dep);
    } else {
      RewriteOne(body, found, dep);
    }
  }

  /** The `forEach` over no kept entry changes nothing. */
  lemma ApplyNone(body: String, q: nat, m: Match, dep: Dependency)
    requires q + m.end <= |body| && m.literal + |dep.oldVersion| < m.end
    requires Including(m.groups, dep.oldVersion) == Ok([])
    ensures ApplyMatch(body, q, m, dep, AsWritten) == Ok(body)
  {
    assert RewriteAll(body, [], dep) == body;
  }

  /** The `forEach` on a plugin or named-argument match: the whole match, if it includes the old version. */
  lemma ApplyQuotedAsWritten(body: String, q: nat, m: Match, dep: Dependency)
    requires q + m.end <= |body| && m.literal + |dep.oldVersion| < m.end
    requires var found := body[q..q + m.end];
      Including(m.groups, dep.oldVersion) == Ok(if Includes(found, dep.oldVersion) then [found] else []) &&
      IndexOf(body, found) == Some(q) && '$' !in found && '$' !in dep.version
    ensures ApplyMatch(body, q, m, dep, AsWritten) == Ok(FirstInSpan(body, q, m.end, dep))
  {
    var found := body[q..q + m.end];
    match IndexOf(found, dep.oldVersion)
    case Some(r) => ApplyQuotedHit(body, q, m, dep, r);
    case None =>
      ApplyNone(body, q, m, dep);
      FirstInSpanAbsent(body, q, m.end, dep);
  }

  /** The case of a match that includes the old version, first at `r`. */
  lemma ApplyQuotedHit(body: String, q: nat, m: Match, dep: Dependency, r: nat)
    requires q + m.end <= |body| && m.literal + |dep.oldVersion| < m.end
    requires var found := body[q..q + m.end];
      Including(m.groups, dep.oldVersion) == Ok([found]) && IndexOf(found, dep.oldVersion) == Some(r) &&
      IndexOf(body, found) == Some(q) && '$' !in found && '$' !in dep.version
    ensures ApplyMatch(body, q, m, dep, AsWritten) == Ok(FirstInSpan(body, q, m.end, dep))
  {
    FirstInSpanAt(body, q, m.end, dep, r);
    ApplyKept(body, q, m, dep, body[q..q + m.end], r, false);
  }

  /**
    * The `forEach` on an assignment match: the whole match twice, so after
    * the first rewrite the next copy of the original assignment text, if the
    * body still has one, is rewritten too.
    */
  lemma ApplyAssignAsWritten(body: String, q: nat, m: Match, dep: Dependency)
    requires q + m.end <= |body| && m.literal + |dep.oldVersion| < m.end
    requires var found := body[q..q + m.end];
      Including(m.groups, dep.oldVersion) == Ok(if Includes(found, dep.oldVersion) then [found, found] else []) &&
      IndexOf(body, found) == Some(q) && '$' !in found && '$' !in dep.version
    ensures var found := body[q..q + m.end];
      ApplyMatch(body, q, m, dep, AsWritten) ==
        Ok(if Includes(found, dep.oldVersion) then Rewrite(FirstInSpan(body, q, m.end, dep), found, dep) else body)
  {
    var found := body[q..q + m.end];
    match IndexOf(found, dep.oldVersion)
    case Some(r) => ApplyAssignHit(body, q, m, dep, r);
    case None => ApplyNone(body, q, m, dep);
  }

  /** The case of an assignment that includes the old version, first at `r`. */
  lemma ApplyAssignHit(body: String, q: nat, m: Match, dep: Dependency, r: nat)
    requires q + m.end <= |body| && m.literal + |dep.oldVersion| < m.end
    requires var found := body[q..q + m.end];
      Including(m.groups, dep.oldVersion) == Ok([found, found]) && IndexOf(found, dep.oldVersion) == Some(r) &&
      IndexOf(body, found) == Some(q) && '$' !in found && '$' !in dep.version
    ensures ApplyMatch(body, q, m, dep, AsWritten) ==
      Ok(Rewrite(FirstInSpan(body, q, m.end, dep), body[q..q + m.end], dep))
  {
    FirstInSpanAt(body, q, m.end, dep, r);
    ApplyKept(body, q, m, dep, body[q..q + m.end], r, true);
  }

  /** Form 1 on a body whose first reference and assignment are known. */
  lemma VariableStageApplies(body: String, dep: Dependency, p: nat, variable: String, q: nat, m: Match, variant: Variant)
    requires FindVarRef(body, dep.group, dep.name) == Some((p, variable))
    requires FindAssign(body, variable, dep.oldVersion) == Some((q, m))
    ensures q + m.end <= |body| && m.literal + |dep.oldVersion| < m.end
    ensures VariableStage(body, dep, variant) == ApplyMatch(body, q, m, dep, variant)
  {
  }

  /** Form 3 on a body whose first plugin match is known. */
  lemma PluginStageApplies(body: String, dep: Dependency, q: nat, m: Match, variant: Variant)
    requires FindPlugin(body, dep.group, dep.oldVersion, variant == Corrected) == Some((q, m))
    ensures q + m.end <= |body| && m.literal + |dep.oldVersion| < m.end
    ensures PluginStage(body, dep, variant) == ApplyMatch(body, q, m, dep, variant)
  {
  }

  /** Form 4 on a body whose first named-argument match is known. */
  lemma KeywordStageApplies(body: String, dep: Dependency, q: nat, m: Match, variant: Variant)
    requires FindKeyword(body, dep.name, dep.oldVersion) == Some((q, m))
    ensures q + m.end <= |body| && m.literal + |dep.oldVersion| < m.end
    ensures KeywordStage(body, dep, variant) == ApplyMatch(body, q, m, dep, variant)
  {
  }

  /** Form 3 as written rewrites the first old version inside the first plugin match. */
  lemma PluginStageAsWritten(body: String, dep: Dependency, q: nat, m: Match)
    requires FindPlugin(body, dep.group, dep.oldVersion, false) == Some((q, m))
    requires None !in m.groups && PlainVersion(dep.oldVersion) && '$' !in dep.version
    requires '$' !in body[q..q + m.end]
    ensures PluginStage(body, dep, AsWritten) == Ok(FirstInSpan(body, q, m.end, dep))
  {
    PluginStageApplies(body, dep, q, m, AsWritten);
    PluginFound(body, dep.group, dep.oldVersion, q, m);
    ApplyQuotedAsWritten(body, q, m, dep);
  }

  /** What the first plugin match gives the rewrite: its groups and its first position. */
  lemma PluginFound(body: String, group: String, v: String, q: nat, m: Match)
    requires FindPlugin(body, group, v, false) == Some((q, m))
    requires None !in m.groups && PlainVersion(v)
    ensures var found := body[q..q + m.end];
      Including(m.groups, v) == Ok(if Includes(found, v) then [found] else []) &&
      IndexOf(body, found) == Some(q)
  {
    PluginFoundFirst(body, group, v, false, q, m);
    assert body[q..][..m.end] == body[q..q + m.end];
    IncludingQuoted(body[q..], m, v);
  }

  /** Form 4 as written rewrites the first old version inside the first named-argument match. */
  lemma KeywordStageAsWritten(body: String, dep: Dependency, q: nat, m: Match)
    requires FindKeyword(body, dep.name, dep.oldVersion) == Some((q, m))
    requires None !in m.groups && PlainVersion(dep.oldVersion) && '$' !in dep.version
    requires '$' !in body[q..q + m.end]
    ensures KeywordStage(body, dep, AsWritten) == Ok(FirstInSpan(body, q, m.end, dep))
  {
    KeywordStageApplies(body, dep, q, m, AsWritten);
    KeywordFound(body, dep.name, dep.oldVersion, q, m);
    ApplyQuotedAsWritten(body, q, m, dep);
  }

  /** What the first named-argument match gives the rewrite: its groups and its first position. */
  lemma KeywordFound(body: String, name: String, v: String, q: nat, m: Match)
    requires FindKeyword(body, name, v) == Some((q, m))
    requires None !in m.groups && PlainVersion(v)
    ensures var found := body[q..q + m.end];
      Including(m.groups, v) == Ok(if Includes(found, v) then [found] else []) &&
      IndexOf(body, found) == Some(q)
  {
    KeywordFoundFirst(body, name, v, q, m);
    assert body[q..][..m.end] == body[q..q + m.end];
    IncludingQuoted(body[q..], m, v);
  }

  /** Form 1 as written rewrites the first old version inside the assignment, then the next copy of it. */
  lemma VariableStageAsWritten(body: String, dep: Dependency, p: nat, variable: String, q: nat, m: Match)
    requires FindVarRef(body, dep.group, dep.name) == Some((p, variable))
    requires FindAssign(body, variable, dep.oldVersion) == Some((q, m))
    requires None !in m.groups && PlainVersion(dep.oldVersion) && '$' !in dep.version
    requires '$' !in body[q..q + m.end]
    ensures var found := body[q..q + m.end];
      VariableStage(body, dep, AsWritten) ==
        Ok(if Includes(found, dep.oldVersion) then Rewrite(FirstInSpan(body, q, m.end, dep), found, dep) else body)
  {
    VariableStageApplies(body, dep, p, variable, q, m, AsWritten);
    AssignFound(body, variable, dep.oldVersion, q, m);
    ApplyAssignAsWritten(body, q, m, dep);
  }

  /** What the first assignment match gives the rewrite: its groups and its first position. */
  lemma AssignFound(body: String, variable: String, v: String, q: nat, m: Match)
    requires FindAssign(body, variable, v) == Some((q, m))
    requires None !in m.groups && PlainVersion(v)
    ensures var found := body[q..q + m.end];
      Including(m.groups, v) == Ok(if Includes(found, v) then [found, found] else []) &&
      IndexOf(body, found) == Some(q)
  {
    AssignFoundFirst(body, variable, v, q, m);
    assert body[q..][..m.end] == body[q..q + m.end];
    IncludingAssign(body[q..], m, v);
  }

  /** The shape of a match that the edits depend on: a quoted version literal at its end. */
  predicate QuotedEnd(body: String, q: nat, end: nat, lit: nat, v: String) {
    q + end <= |body| && 1 <= lit && lit + |v| + 1 == end &&
    IsQuote(body[q + lit - 1]) && IsQuote(body[q + end - 1])
  }

  /** Every version match has that shape. */
  lemma VersionMatchQuotedEnd(body: String, q: nat, m: Match, v: String, ignoreCase: bool)
    requires q <= |body| && VersionMatch(body[q..], m, v, ignoreCase)
    ensures QuotedEnd(body, q, m.end, m.literal, v)
  {
    assert body[q..][m.literal - 1] == body[q + m.literal - 1];
    assert body[q..][m.end - 1] == body[q + m.end - 1];
  }

  /** The corrected edit rewrites the literal when it reads the old version, and otherwise nothing. */
  lemma EditLiteralCases(body: String, q: nat, m: Match, dep: Dependency)
    requires q + m.literal + |dep.oldVersion| <= |body|
    ensures var lit := q + m.literal; var n := |dep.oldVersion|;
      EditLiteral(body, q, m, dep) ==
        if body[lit..lit + n] == dep.oldVersion then Splice(body, lit, n, dep.version) else body
  {
  }

  /**
    * When the old version does not occur in a match before its version
    * literal, its only occurrence in the match can be the literal.
    */
  lemma SpanIndexIsLiteral(body: String, q: nat, m: Match, dep: Dependency)
    requires QuotedEnd(body, q, m.end, m.literal, dep.oldVersion) && PlainVersion(dep.oldVersion)
    requires !Includes(body[q..q + m.literal], dep.oldVersion)
    ensures var lit := q + m.literal; var n := |dep.oldVersion|;
      IndexOf(body[q..q + m.end], dep.oldVersion) ==
        if body[lit..lit + n] == dep.oldVersion then Some(m.literal) else None
  {
    SpanSlices(body, q, m, dep.oldVersion);
    LiteralOnlyOccurrence(body[q..q + m.end], m.literal, dep.oldVersion);
  }

  /** The match seen on its own: the text before the literal, the literal and the two quotes. */
  lemma SpanSlices(body: String, q: nat, m: Match, v: String)
    requires QuotedEnd(body, q, m.end, m.literal, v) && !Includes(body[q..q + m.literal], v)
    ensures var found := body[q..q + m.end]; var lit := m.literal;
      1 <= lit && lit + |v| + 1 == |found| && IsQuote(found[lit - 1]) && IsQuote(found[|found| - 1]) &&
      !Includes(found[..lit], v) && found[lit..lit + |v|] == body[q + lit..q + lit + |v|]
  {
    SliceOfSlice(body, q, q + m.end, 0, m.literal);
    SliceOfSlice(body, q, q + m.end, m.literal, m.literal + |v|);
  }



  /**
    * When the old version does not occur in a match before its version
    * literal, the as-written edit is the intended one: the literal, if it
    * reads the old version, and nothing else.
    */
  lemma FirstInSpanIsLiteral(body: String, q: nat, m: Match, dep: Dependency)
    requires QuotedEnd(body, q, m.end, m.literal, dep.oldVersion) && PlainVersion(dep.oldVersion)
    requires !Includes(body[q..q + m.literal], dep.oldVersion)
    ensures FirstInSpan(body, q, m.end, dep) == EditLiteral(body, q, m, dep)
  {
    SpanIndexIsLiteral(body, q, m, dep);
    if body[q + m.literal..q + m.literal + |dep.oldVersion|] == dep.oldVersion {
      LiteralHit(body, q, m, dep);
    } else {
      LiteralMiss(body, q, m, dep);
    }
  }

  /** The two edits agree when the first old version in the match is its literal. */
  lemma LiteralHit(body: String, q: nat, m: Match, dep: Dependency)
    requires q + m.end <= |body| && m.literal + |dep.oldVersion| <= m.end
    requires body[q + m.literal..q + m.literal + |dep.oldVersion|] == dep.oldVersion
    requires IndexOf(body[q..q + m.end], dep.oldVersion) == Some(m.literal)
    ensures FirstInSpan(body, q, m.end, dep) == EditLiteral(body, q, m, dep)
  {
    EditLiteralCases(body, q, m, dep);
    FirstInSpanAt(body, q, m.end, dep, m.literal);
  }

  /** The two edits agree, changing nothing, when the old version is nowhere in the match. */
  lemma LiteralMiss(body: String, q: nat, m: Match, dep: Dependency)
    requires q + m.end <= |body| && m.literal + |dep.oldVersion| <= m.end
    requires body[q + m.literal..q + m.literal + |dep.oldVersion|] != dep.oldVersion
    requires IndexOf(body[q..q + m.end], dep.oldVersion).None?
    ensures FirstInSpan(body, q, m.end, dep) == EditLiteral(body, q, m, dep)
  {
    FirstInSpanAbsent(body, q, m.end, dep);
  }

  /** A quote-free occurrence in a text ending in a quote ends before that quote. */
  lemma BeforeQuote(prefix: String, v: String, r: nat)
    requires OccursAt(prefix, v, r) && PlainVersion(v)
    requires |prefix| > 0 && IsQuote(prefix[|prefix| - 1])
    ensures r + |v| < |prefix|
  {
    assert prefix[r + |v| - 1] == v[|v| - 1];
  }

  /**
    * When the old version does occur in a match before its version literal,
    * the as-written edit rewrites that earlier occurrence, which lies wholly
    * before the literal, and leaves the literal as it was.
    */
  lemma FirstInSpanMisplaced(body: String, q: nat, m: Match, dep: Dependency, r: nat)
    requires QuotedEnd(body, q, m.end, m.literal, dep.oldVersion) && PlainVersion(dep.oldVersion)
    requires IndexOf(body[q..q + m.literal], dep.oldVersion) == Some(r)
    ensures r + |dep.oldVersion| < m.literal
    ensures FirstInSpan(body, q, m.end, dep) == Splice(body, q + r, |dep.oldVersion|, dep.version)
  {
    var found := body[q..q + m.end];
    var prefix := body[q..q + m.literal];
    assert found[..m.literal] == prefix;
    assert prefix[m.literal - 1] == body[q + m.literal - 1];
    BeforeQuote(prefix, dep.oldVersion, r);
    IndexOfPrefix(found, dep.oldVersion, m.literal, r);
    FirstInSpanAt(body, q, m.end, dep, r);
  }

  /**
    * Form 3: the as-written stage equals the corrected edit at the same
    * match when the literal is the first old version in it, and equals the
    * corrected stage when the corrected pattern finds that same match first.
    */
  lemma PluginStageAgrees(body: String, dep: Dependency, q: nat, m: Match)
    requires FindPlugin(body, dep.group, dep.oldVersion, false) == Some((q, m))
    requires None !in m.groups && PlainVersion(dep.oldVersion) && '$' !in dep.version
    requires '$' !in body[q..q + m.end] && !Includes(body[q..q + m.literal], dep.oldVersion)
    ensures PluginStage(body, dep, AsWritten) == ApplyMatch(body, q, m, dep, Corrected)
    ensures FindPlugin(body, dep.group, dep.oldVersion, true) == Some((q, m)) ==>
      PluginStage(body, dep, AsWritten) == PluginStage(body, dep, Corrected)
  {
    if FindPlugin(body, dep.group, dep.oldVersion, true) == Some((q, m)) {
      PluginStageApplies(body, dep, q, m, Corrected);
    }
    PluginStageAsWritten(body, dep, q, m);
    VersionMatchQuotedEnd(body, q, m, dep.oldVersion, false);
    FirstInSpanIsLiteral(body, q, m, dep);
  }

  /** Form 4: the as-written and the corrected stage agree when the literal is the first old version. */
  lemma KeywordStageAgrees(body: String, dep: Dependency, q: nat, m: Match)
    requires FindKeyword(body, dep.name, dep.oldVersion) == Some((q, m))
    requires None !in m.groups && PlainVersion(dep.oldVersion) && '$' !in dep.version
    requires '$' !in body[q..q + m.end] && !Includes(body[q..q + m.literal], dep.oldVersion)
    ensures KeywordStage(body, dep, AsWritten) == KeywordStage(body, dep, Corrected)
  {
    KeywordStageAsWritten(body, dep, q, m);
    VersionMatchQuotedEnd(body, q, m, dep.oldVersion, false);
    FirstInSpanIsLiteral(body, q, m, dep);
  }

  /**
    * Form 1: the as-written and the corrected stage agree when the literal
    * is the first old version in the assignment and the body, once edited,
    * holds no further copy of the original assignment text.
    */
  lemma VariableStageAgrees(body: String, dep: Dependency, p: nat, variable: String, q: nat, m: Match)
    requires FindVarRef(body, dep.group, dep.name) == Some((p, variable))
    requires FindAssign(body, variable, dep.oldVersion) == Some((q, m))
    requires None !in m.groups && PlainVersion(dep.oldVersion) && '$' !in dep.version
    requires '$' !in body[q..q + m.end] && !Includes(body[q..q + m.literal], dep.oldVersion)
    requires !Includes(EditLiteral(body, q, m, dep), body[q..q + m.end])
    ensures VariableStage(body, dep, AsWritten) == VariableStage(body, dep, Corrected)
  {
    var found := body[q..q + m.end];
    var edited := EditLiteral(body, q, m, dep);
    VersionMatchQuotedEnd(body, q, m, dep.oldVersion, true);
    assert VariableStage(body, dep, Corrected) == Ok(edited);
    FirstInSpanIsLiteral(body, q, m, dep);
    VariableStageAsWritten(body, dep, p, variable, q, m);
    if Includes(found, dep.oldVersion) {
      StrReplaceAbsent(edited, found, StrReplace(found, dep.oldVersion, dep.version));
    } else {
      SpanIndexIsLiteral(body, q, m, dep);
      EditLiteralCases(body, q, m, dep);
    }
  }
}
