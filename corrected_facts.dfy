/**
  * The corrected rewriter: each form edits the version literal it located
  * and nothing else, the edit is undone by the opposite upgrade, upgrading
  * to the version already there changes nothing, and a text none of the
  * forms matches is returned as it was.
  */
module CorrectedFacts {
  import opened Wrappers
  import opened JsString
  import opened Patterns
  import opened ReplaceVersion
  import opened InlineFacts

  /** The opposite upgrade: from the new version back to the old one. */
  function Reverse(dep: Dependency): (r: Dependency)
    ensures r.oldVersion == dep.version && r.version == dep.oldVersion
    ensures r.group == dep.group && r.name == dep.name
  {
    dep.(oldVersion := dep.version, version := dep.oldVersion)
  }

  /**
    * The corrected edit of a match writes the new version in place of the
    * literal, when the literal reads the old version, and keeps the text
    * before and after it; otherwise it changes nothing.
    */
  lemma EditLiteralEffect(body: String, at: nat, m: Match, dep: Dependency)
    requires at + m.literal + |dep.oldVersion| <= |body|
    ensures var lit := at + m.literal; var n := |dep.oldVersion|; var e := EditLiteral(body, at, m, dep);
      if body[lit..lit + n] == dep.oldVersion then
        |e| == |body| - n + |dep.version| && e[..lit] == body[..lit] &&
        e[lit..lit + |dep.version|] == dep.version && e[lit + |dep.version|..] == body[lit + n..]
      else e == body
  {
    SpliceParts(body, at + m.literal, |dep.oldVersion|, dep.version);
  }

  /** The opposite upgrade at the same literal undoes the corrected edit. */
  lemma EditLiteralReverts(body: String, at: nat, m: Match, dep: Dependency)
    requires at + m.literal + |dep.oldVersion| <= |body|
    requires body[at + m.literal..at + m.literal + |dep.oldVersion|] == dep.oldVersion
    ensures at + m.literal + |dep.version| <= |EditLiteral(body, at, m, dep)|
    ensures EditLiteral(EditLiteral(body, at, m, dep), at, m, Reverse(dep)) == body
  {
    var lit := at + m.literal;
    var back := Reverse(dep);
    var e := Splice(body, lit, |dep.oldVersion|, dep.version);
    assert EditLiteral(body, at, m, dep) == e;
    SpliceParts(body, lit, |dep.oldVersion|, dep.version);
    assert e[lit..lit + |back.oldVersion|] == back.oldVersion;
    assert EditLiteral(e, at, m, back) == Splice(e, lit, |dep.version|, dep.oldVersion);
    SpliceRevert(body, lit, |dep.oldVersion|, dep.version);
  }

  /** Upgrading to the version already there leaves a literal as it is. */
  lemma EditLiteralSameVersion(body: String, at: nat, m: Match, dep: Dependency)
    requires at + m.literal + |dep.oldVersion| <= |body| && dep.version == dep.oldVersion
    ensures EditLiteral(body, at, m, dep) == body
  {
    var lit := at + m.literal;
    if body[lit..lit + |dep.oldVersion|] == dep.oldVersion {
      assert body == body[..lit] + body[lit..lit + |dep.oldVersion|] + body[lit + |dep.oldVersion|..];
    }
  }

  /** Form 1, corrected, upgrading to the version already there, changes nothing. */
  lemma VariableSameVersion(body: String, dep: Dependency)
    requires dep.version == dep.oldVersion
    ensures VariableStage(body, dep, Corrected) == Ok(body)
  {
    var reference := FindVarRef(body, dep.group, dep.name);
    if reference.Some? {
      var definition := FindAssign(body, reference.value.1, dep.oldVersion);
      if definition.Some? {
        EditLiteralSameVersion(body, definition.value.0, definition.value.1, dep);
      }
    }
  }

  /** Form 3, corrected, upgrading to the version already there, changes nothing. */
  lemma PluginSameVersion(body: String, dep: Dependency)
    requires dep.version == dep.oldVersion
    ensures PluginStage(body, dep, Corrected) == Ok(body)
  {
    var plugin := FindPlugin(body, dep.group, dep.oldVersion, true);
    if plugin.Some? {
      EditLiteralSameVersion(body, plugin.value.0, plugin.value.1, dep);
    }
  }

  /** Form 4, corrected, upgrading to the version already there, changes nothing. */
  lemma KeywordSameVersion(body: String, dep: Dependency)
    requires dep.version == dep.oldVersion
    ensures KeywordStage(body, dep, Corrected) == Ok(body)
  {
    var keyword := FindKeyword(body, dep.name, dep.oldVersion);
    if keyword.Some? {
      EditLiteralSameVersion(body, keyword.value.0, keyword.value.1, dep);
    }
  }

  /**
    * The corrected rewriter, upgrading to the version already there with
    * fields read literally and a template without `$`, returns the text as
    * it was.
    */
  lemma ReplaceCorrectedSameVersion(body: String, dep: Dependency)
    requires dep.version == dep.oldVersion && LiteralFields(dep) && '$' !in InlineTemplate(dep)
    ensures ReplaceCorrected(body, dep) == body
  {
    VariableSameVersion(body, dep);
    InlineStageSameVersion(body, dep);
    PluginSameVersion(body, dep);
    KeywordSameVersion(body, dep);
  }

  /** A text in which none of the four forms matches is returned as it was, by either variant. */
  lemma ReplacedUnmatched(body: String, dep: Dependency, variant: Variant)
    requires FindVarRef(body, dep.group, dep.name).None? ||
      FindAssign(body, FindVarRef(body, dep.group, dep.name).value.1, dep.oldVersion).None?
    requires FindInline(body, dep.group, dep.name, dep.oldVersion).None?
    requires FindPlugin(body, dep.group, dep.oldVersion, variant == Corrected).None?
    requires FindKeyword(body, dep.name, dep.oldVersion).None?
    ensures Replaced(body, dep, variant) == Ok(body)
  {
    assert VariableStage(body, dep, variant) == Ok(body);
    assert InlineStage(body, dep) == body;
    assert PluginStage(body, dep, variant) == Ok(body);
  }

  /** The old version matches nowhere in the text, not even with letters compared case-folded. */
  predicate VersionNowhere(body: String, v: String) {
    forall j :: 0 <= j <= |body| ==> !FieldAt(body, j, v, true)
  }

  /** A field matched in a suffix is matched, case-folded, in the whole text. */
  lemma FieldAtShift(body: String, j: nat, i: nat, f: String, ignoreCase: bool)
    requires j <= |body| && FieldAt(body[j..], i, f, ignoreCase)
    ensures FieldAt(body, j + i, f, true)
  {
    assert body[j..][i..i + |f|] == body[j + i..j + i + |f|];
  }

  /** Without the old version in the text, no assignment of it matches. */
  lemma AssignNowhere(body: String, variable: String, v: String)
    requires VersionNowhere(body, v)
    ensures FindAssign(body, variable, v).None?
  {
    forall j | 0 <= j <= |body| ensures AssignAt(body[j..], variable, v).None? {
      if AssignAt(body[j..], variable, v).Some? {
        FieldAtShift(body, j, AssignAt(body[j..], variable, v).value.literal, v, true);
      }
    }
  }

  /** Without the old version in the text, no inline coordinate matches. */
  lemma InlineNowhere(body: String, group: String, name: String, v: String)
    requires VersionNowhere(body, v)
    ensures FindInline(body, group, name, v).None?
  {
    forall j | 0 <= j <= |body| ensures InlineAt(body[j..], group, name, v).None? {
      if InlineAt(body[j..], group, name, v).Some? {
        FieldAtShift(body, j, |group| + |name| + 2, v, false);
      }
    }
  }

  /** Without the old version in the text, no plugin declaration of it matches. */
  lemma PluginNowhere(body: String, group: String, v: String, callStyle: bool)
    requires VersionNowhere(body, v)
    ensures FindPlugin(body, group, v, callStyle).None?
  {
    forall j | 0 <= j <= |body| ensures PluginAt(body[j..], group, v, callStyle).None? {
      if PluginAt(body[j..], group, v, callStyle).Some? {
        FieldAtShift(body, j, PluginAt(body[j..], group, v, callStyle).value.literal, v, false);
      }
    }
  }

  /** Without the old version in the text, no named-argument declaration of it matches. */
  lemma KeywordNowhere(body: String, name: String, v: String)
    requires VersionNowhere(body, v)
    ensures FindKeyword(body, name, v).None?
  {
    forall j | 0 <= j <= |body| ensures KeywordAt(body[j..], name, v).None? {
      if KeywordAt(body[j..], name, v).Some? {
        FieldAtShift(body, j, KeywordAt(body[j..], name, v).value.literal, v, false);
      }
    }
  }

  /**
    * A text in which the old version matches nowhere is returned as it was,
    * by either variant: none of the four patterns can match without it.
    */
  lemma AbsentVersionKept(body: String, dep: Dependency, variant: Variant)
    requires VersionNowhere(body, dep.oldVersion)
    ensures Replaced(body, dep, variant) == Ok(body)
  {
    var v := dep.oldVersion;
    var reference := FindVarRef(body, dep.group, dep.name);
    if reference.Some? {
      AssignNowhere(body, reference.value.1, v);
    }
    InlineNowhere(body, dep.group, dep.name, v);
    PluginNowhere(body, dep.group, v, variant == Corrected);
    KeywordNowhere(body, dep.name, v);
    ReplacedUnmatched(body, dep, variant);
  }

  /** A character of the version that is neither a letter nor `.` and is missing from the text rules out every match. */
  lemma MissingCharNowhere(body: String, v: String, k: nat)
    requires k < |v| && v[k] != '.' && !('a' <= v[k] <= 'z') && !('A' <= v[k] <= 'Z') && v[k] !in body
    ensures VersionNowhere(body, v)
  {
    forall j | 0 <= j <= |body| ensures !FieldAt(body, j, v, true) {
      if j + |v| <= |body| {
        assert body[j..j + |v|][k] == body[j + k];
        assert body[j + k] != v[k];
        assert !CharMatch(v[k], body[j..j + |v|][k], true);
      }
    }
  }

  /**
    * A build file whose assignment already holds the new version: upgrading
    * `0.8.1` to `1.0.0` leaves it as it is, by either variant.
    */
  lemma AlreadyUpdatedKept(variant: Variant)
    ensures var body := "\n        myVar = \"1.0.0\"\n" + "        compile 'de.kevcodez:" + "pubg-api-wrapper:${myVar}'\n";
      Replaced(body, Dependency("de.kevcodez", "pubg-api-wrapper", "0.8.1", "1.0.0"), variant) == Ok(body)
  {
    var body := "\n        myVar = \"1.0.0\"\n" + "        compile 'de.kevcodez:" + "pubg-api-wrapper:${myVar}'\n";
    var v := "0.8.1";
    assert v[2] == '8';
    assert '8' !in "\n        myVar = \"1.0.0\"\n";
    assert '8' !in "        compile 'de.kevcodez:";
    assert '8' !in "pubg-api-wrapper:${myVar}'\n";
    MissingCharNowhere(body, v, 2);
    AbsentVersionKept(body, Dependency("de.kevcodez", "pubg-api-wrapper", v, "1.0.0"), variant);
  }
}
