/**
  * Where the rewriter as written departs from what its patterns and tests
  * evidently intend, stated on whole stages: the `includes` call that throws
  * on an undefined white-space group, the call-style plugin declaration the
  * pattern passes over, and the old version rewritten inside a name rather
  * than in the literal. Beside each, what the corrected stage does instead.
  */
module ReplaceVersionFindings {
  import opened Wrappers
  import opened JsString
  import opened Patterns
  import opened PatternFacts
  import opened ReplaceVersion
  import opened ReplaceVersionFacts

  /** An `exec` result whose groups other than 2 and 3 are defined holds an undefined one exactly when 2 or 3 is. */
  lemma UndefinedAmongSix(groups: seq<Option<String>>)
    requires |groups| == 6 && groups[0].Some? && groups[1].Some? && groups[4].Some? && groups[5].Some?
    ensures None in groups <==> groups[2].None? || groups[3].None?
  {
    assert groups == [groups[0], groups[1], groups[2], groups[3], groups[4], groups[5]];
  }

  /** The as-written edit of a match throws exactly when one of its groups is undefined; the corrected one never. */
  lemma ApplyThrows(body: String, at: nat, m: Match, dep: Dependency)
    requires at + m.end <= |body| && m.literal + |dep.oldVersion| < m.end
    ensures ApplyMatch(body, at, m, dep, AsWritten).Err? <==> None in m.groups
    ensures ApplyMatch(body, at, m, dep, Corrected).Ok?
  {
  }

  /** The groups of an assignment found at `q`, read off the body. */
  lemma AssignGapsAt(body: String, variable: String, v: String, q: nat, m: Match)
    requires q <= |body| && AssignAt(body[q..], variable, v) == Some(m)
    ensures q + |variable| < |body| && 2 <= m.literal && q + m.literal <= |body|
    ensures None in m.groups <==> !IsSpace(body[q + |variable|]) || !IsSpace(body[q + m.literal - 2])
  {
    var u := body[q..];
    AssignGaps(u, variable, v);
    assert u[|variable|] == body[q + |variable|] && u[m.literal - 2] == body[q + m.literal - 2];
    UndefinedAmongSix(m.groups);
  }

  /** The groups of a plugin match found at `q`, read off the body. */
  lemma PluginGapsAt(body: String, group: String, v: String, q: nat, m: Match)
    requires q <= |body| && PluginAt(body[q..], group, v, false) == Some(m)
    ensures q + |group| + 1 < |body| && 2 <= m.literal && q + m.literal <= |body|
    ensures None in m.groups <==> !IsSpace(body[q + |group| + 1]) || !IsSpace(body[q + m.literal - 2])
  {
    var u := body[q..];
    PluginGaps(u, group, v, false);
    assert PluginGap(u, group, false) == |group| + 1;
    assert u[|group| + 1] == body[q + |group| + 1] && u[m.literal - 2] == body[q + m.literal - 2];
    UndefinedAmongSix(m.groups);
  }

  /** The groups of a named-argument match found at `q`, read off the body. */
  lemma KeywordGapsAt(body: String, name: String, v: String, q: nat, m: Match)
    requires q <= |body| && KeywordAt(body[q..], name, v) == Some(m)
    ensures q + |name| + 2 < |body|
    ensures None in m.groups <==> !IsSpace(body[q + |name| + 2])
  {
    var u := body[q..];
    KeywordGaps(u, name, v);
    assert u[|name| + 2] == body[q + |name| + 2];
    UndefinedAmongSix(m.groups);
  }

  /** A throw in form 1 ends the whole call. */
  lemma VariableThrowEndsCall(body: String, dep: Dependency)
    requires VariableStage(body, dep, AsWritten).Err?
    ensures Replaced(body, dep, AsWritten) == Err(UndefinedGroup)
  {
    var e := VariableStage(body, dep, AsWritten);
    assert e.error == UndefinedGroup;
    assert Replaced(body, dep, AsWritten) == e.PropagateFailure();
  }

  /**
    * Form 1 as written throws exactly when the assignment has no white space
    * before the `=` or none after it, as in `myVar='0.8.1'`, and then the
    * whole call throws; the corrected form does not throw.
    */
  lemma AssignmentThrows(body: String, dep: Dependency, p: nat, variable: String, q: nat, m: Match)
    requires FindVarRef(body, dep.group, dep.name) == Some((p, variable))
    requires FindAssign(body, variable, dep.oldVersion) == Some((q, m))
    ensures q + |variable| < |body| && 2 <= m.literal && q + m.literal <= |body|
    ensures VariableStage(body, dep, AsWritten).Err? <==>
      !IsSpace(body[q + |variable|]) || !IsSpace(body[q + m.literal - 2])
    ensures VariableStage(body, dep, AsWritten).Err? ==> Replaced(body, dep, AsWritten) == Err(UndefinedGroup)
    ensures VariableStage(body, dep, Corrected).Ok?
  {
    if VariableStage(body, dep, AsWritten).Err? {
      VariableThrowEndsCall(body, dep);
    }
    AssignGapsAt(body, variable, dep.oldVersion, q, m);
    VariableStageApplies(body, dep, p, variable, q, m, AsWritten);
    VariableStageApplies(body, dep, p, variable, q, m, Corrected);
    ApplyThrows(body, q, m, dep);
  }

  /**
    * Form 3 as written throws exactly when there is no white space before
    * `version` or none after it, as in `id 'g' version'1.0'`.
    */
  lemma PluginThrows(body: String, dep: Dependency, q: nat, m: Match)
    requires FindPlugin(body, dep.group, dep.oldVersion, false) == Some((q, m))
    ensures q + |dep.group| + 1 < |body| && 2 <= m.literal && q + m.literal <= |body|
    ensures PluginStage(body, dep, AsWritten).Err? <==>
      !IsSpace(body[q + |dep.group| + 1]) || !IsSpace(body[q + m.literal - 2])
  {
    PluginGapsAt(body, dep.group, dep.oldVersion, q, m);
    PluginStageApplies(body, dep, q, m, AsWritten);
    ApplyThrows(body, q, m, dep);
  }

  /**
    * Form 4 as written throws exactly when no white space follows the comma,
    * as in `name',version: '1.0'`; the corrected form does not throw.
    */
  lemma KeywordThrows(body: String, dep: Dependency, q: nat, m: Match)
    requires FindKeyword(body, dep.name, dep.oldVersion) == Some((q, m))
    ensures q + |dep.name| + 2 < |body|
    ensures KeywordStage(body, dep, AsWritten).Err? <==> !IsSpace(body[q + |dep.name| + 2])
    ensures KeywordStage(body, dep, Corrected).Ok?
  {
    KeywordGapsAt(body, dep.name, dep.oldVersion, q, m);
    KeywordStageApplies(body, dep, q, m, AsWritten);
    KeywordStageApplies(body, dep, q, m, Corrected);
    ApplyThrows(body, q, m, dep);
  }

  /**
    * A call-style declaration `id("group") version "old"`: the source's
    * pattern matches nowhere up to and including it, so form 3 as written
    * rewrites a later declaration or nothing, while the corrected form
    * rewrites this one's literal.
    */
  lemma CallStylePassedOver(body: String, dep: Dependency, q: nat, m: Match)
    requires FindPlugin(body, dep.group, dep.oldVersion, true) == Some((q, m))
    requires q + |dep.group| + 1 < |body| && body[q + |dep.group| + 1] == ')'
    ensures forall j :: 0 <= j <= q ==> PluginAt(body[j..], dep.group, dep.oldVersion, false).None?
    ensures FindPlugin(body, dep.group, dep.oldVersion, false).None? ==> PluginStage(body, dep, AsWritten) == Ok(body)
    ensures FindPlugin(body, dep.group, dep.oldVersion, false).Some? ==> FindPlugin(body, dep.group, dep.oldVersion, false).value.0 > q
    ensures PluginStage(body, dep, Corrected) == Ok(EditLiteral(body, q, m, dep))
  {
    forall j | 0 <= j <= q ensures PluginAt(body[j..], dep.group, dep.oldVersion, false).None? {
      SourcePatternMisses(body, dep.group, dep.oldVersion, q, j);
    }
    PluginStageApplies(body, dep, q, m, Corrected);
  }

  /** The source's pattern fails wherever the call-style one failed, and at the call-style declaration. */
  lemma SourcePatternMisses(body: String, group: String, v: String, q: nat, j: nat)
    requires j <= q < |body| && q + |group| + 1 < |body| && body[q + |group| + 1] == ')'
    requires j < q ==> PluginAt(body[j..], group, v, true).None?
    ensures PluginAt(body[j..], group, v, false).None?
  {
    var u := body[j..];
    if |group| + 1 < |u| && u[|group| + 1] == ')' {
      CallStyleMissed(u, group, v);
    } else {
      assert j != q;
      CallStyleExtends(u, group, v);
    }
  }

  /**
    * When the old version occurs in an assignment before its literal, as
    * the `2` in `lib2Version = '2'`, the edit form 1 as written makes first
    * (`VariableStageAsWritten`) rewrites that occurrence and leaves the
    * literal as it was.
    */
  lemma AssignmentMisplaced(body: String, dep: Dependency, variable: String, q: nat, m: Match, r: nat)
    requires q <= |body| && AssignAt(body[q..], variable, dep.oldVersion) == Some(m)
    requires PlainVersion(dep.oldVersion) && q + m.literal <= |body|
    requires IndexOf(body[q..q + m.literal], dep.oldVersion) == Some(r)
    ensures r + |dep.oldVersion| < m.literal
    ensures FirstInSpan(body, q, m.end, dep) == Splice(body, q + r, |dep.oldVersion|, dep.version)
  {
    VersionMatchQuotedEnd(body, q, m, dep.oldVersion, true);
    FirstInSpanMisplaced(body, q, m, dep, r);
  }

  /**
    * The same for a plugin declaration whose group holds the old version:
    * form 3 as written rewrites it there and leaves the literal.
    */
  lemma PluginMisplaced(body: String, dep: Dependency, q: nat, m: Match, r: nat)
    requires FindPlugin(body, dep.group, dep.oldVersion, false) == Some((q, m))
    requires None !in m.groups && PlainVersion(dep.oldVersion) && '$' !in dep.version
    requires '$' !in body[q..q + m.end] && q + m.literal <= |body|
    requires IndexOf(body[q..q + m.literal], dep.oldVersion) == Some(r)
    ensures PluginStage(body, dep, AsWritten) == Ok(FirstInSpan(body, q, m.end, dep))
    ensures r + |dep.oldVersion| < m.literal
    ensures FirstInSpan(body, q, m.end, dep) == Splice(body, q + r, |dep.oldVersion|, dep.version)
  {
    VersionMatchQuotedEnd(body, q, m, dep.oldVersion, false);
    PluginStageAsWritten(body, dep, q, m);
    FirstInSpanMisplaced(body, q, m, dep, r);
  }

  /**
    * Form 1 as written hands the whole assignment to the `forEach` twice
    * (groups 0 and 1), so when the text, once the literal is rewritten,
    * still holds a copy of the original assignment at `q2`, as in
    * `x = '0.8.1' x = '0.8.1'`, that copy is rewritten too; the corrected
    * form rewrites the located literal only.
    */
  lemma AssignmentCopyRewritten(body: String, dep: Dependency, p: nat, variable: String, q: nat, m: Match, q2: nat)
    requires FindVarRef(body, dep.group, dep.name) == Some((p, variable))
    requires FindAssign(body, variable, dep.oldVersion) == Some((q, m))
    requires None !in m.groups && PlainVersion(dep.oldVersion) && '$' !in dep.version
    requires q + m.end <= |body| && m.literal + |dep.oldVersion| < m.end
    requires '$' !in body[q..q + m.end] && !Includes(body[q..q + m.literal], dep.oldVersion)
    requires body[q + m.literal..q + m.literal + |dep.oldVersion|] == dep.oldVersion
    requires IndexOf(EditLiteral(body, q, m, dep), body[q..q + m.end]) == Some(q2)
    ensures q2 + m.literal + |dep.oldVersion| <= |EditLiteral(body, q, m, dep)|
    ensures VariableStage(body, dep, AsWritten) ==
      Ok(Splice(EditLiteral(body, q, m, dep), q2 + m.literal, |dep.oldVersion|, dep.version))
    ensures VariableStage(body, dep, Corrected) == Ok(EditLiteral(body, q, m, dep))
  {
    AssignmentEditedThenCopy(body, dep, p, variable, q, m);
    RewriteAt(EditLiteral(body, q, m, dep), body[q..q + m.end], q2, m.literal, dep);
    VariableStageApplies(body, dep, p, variable, q, m, Corrected);
  }

  /** Form 1 as written on an assignment whose literal is its first old version: the literal, then a copy. */
  lemma AssignmentEditedThenCopy(body: String, dep: Dependency, p: nat, variable: String, q: nat, m: Match)
    requires FindVarRef(body, dep.group, dep.name) == Some((p, variable))
    requires FindAssign(body, variable, dep.oldVersion) == Some((q, m))
    requires None !in m.groups && PlainVersion(dep.oldVersion) && '$' !in dep.version
    requires q + m.end <= |body| && m.literal + |dep.oldVersion| < m.end
    requires '$' !in body[q..q + m.end] && !Includes(body[q..q + m.literal], dep.oldVersion)
    requires body[q + m.literal..q + m.literal + |dep.oldVersion|] == dep.oldVersion
    ensures IndexOf(body[q..q + m.end], dep.oldVersion) == Some(m.literal)
    ensures VariableStage(body, dep, AsWritten) == Ok(Rewrite(EditLiteral(body, q, m, dep), body[q..q + m.end], dep))
  {
    VersionMatchQuotedEnd(body, q, m, dep.oldVersion, true);
    SpanIndexIsLiteral(body, q, m, dep);
    FirstInSpanIsLiteral(body, q, m, dep);
    VariableStageAsWritten(body, dep, p, variable, q, m);
  }

  /** What occurs in a prefix of a span occurs in the span. */
  lemma IncludesWiden(body: String, q: nat, a: nat, b: nat, v: String)
    requires q + a <= q + b <= |body| && Includes(body[q..q + a], v)
    ensures Includes(body[q..q + b], v)
  {
    var r := IndexOf(body[q..q + a], v).value;
    assert OccursAt(body[q..q + a], v, r);
    SliceOfSlice(body, q, q + b, 0, a);
    assert OccursAt(body[q..q + b], v, r);
    IncludesOccurs(body[q..q + b], v, r);
  }
}
