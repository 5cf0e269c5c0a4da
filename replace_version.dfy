/**
  * `replace(body, dependency)`: rewrites the version of one dependency in the
  * text of a Gradle build file. Four textual forms are tried in order, each on
  * the text the previous one produced:
  *
  *   1. a variable reference `group:name:$var` (or `${var}`), whose assignment
  *      `var = 'old'` is rewritten;
  *   2. every inline coordinate `group:name:old`;
  *   3. a plugin declaration `group' version 'old'`;
  *   4. a named-argument declaration `name', version: 'old'`.
  *
  * Forms 1, 3 and 4 take the array `exec` returns, keep the entries that
  * include the old version, and for each one replace its first copy in the
  * body by itself with its first old version replaced. `Variant.AsWritten`
  * is that behaviour; `Variant.Corrected` edits the located version literal
  * and nothing else, never throws, and also accepts `id("group") version`.
  */
module ReplaceVersion {
  import opened Wrappers
  import opened JsString
  import opened Patterns

  /** The upgrade to carry out: coordinates, the version in the text, the version to write. */
  datatype Dependency = Dependency(group: String, name: String, oldVersion: String, version: String)

  /** What `replace` can throw: `includes` called on an undefined capture group (a TypeError). */
  datatype Error = UndefinedGroup

  /** The rewriter as the source has it, or with its defects corrected. */
  datatype Variant = AsWritten | Corrected

  /**
    * `groups.filter(it => it.includes(oldVersion))`: the entries that include
    * the old version, in order; an undefined entry throws.
    */
  function Including(groups: seq<Option<String>>, oldVersion: String): (r: Result<seq<String>, Error>)
    ensures r.Err? <==> None in groups
    ensures r.Ok? ==> |r.value| <= |groups|
    ensures r.Ok? ==> forall x :: x in r.value <==> Some(x) in groups && Includes(x, oldVersion)
    decreases |groups|
  {
    if groups == [] then Ok([])
    else
      assert groups == [groups[0]] + groups[1..];
      if groups[0].None? then Err(UndefinedGroup)
      else
        var rest :- Including(groups[1..], oldVersion);
        Ok(if Includes(groups[0].value, oldVersion) then [groups[0].value] + rest else rest)
  }

  /**
    * One step of the `forEach`: the first copy of `found` in the body is
    * replaced by `found` with its first old version replaced by the new one.
    */
  function Rewrite(body: String, found: String, dep: Dependency): String {
    StrReplace(body, found, StrReplace(found, dep.oldVersion, dep.version))
  }

  /** The whole `forEach`, over the kept entries in order. */
  function RewriteAll(body: String, matches: seq<String>, dep: Dependency): String
    decreases |matches|
  {
    if matches == [] then body
    else Rewrite(RewriteAll(body, matches[..|matches| - 1], dep), matches[|matches| - 1], dep)
  }

  /**
    * The intended edit of a match found at `at`: its version literal, if it
    * reads exactly the old version, becomes the new version.
    */
  function EditLiteral(body: String, at: nat, m: Match, dep: Dependency): String
    requires at + m.literal + |dep.oldVersion| <= |body|
  {
    var lit := at + m.literal;
    if body[lit..lit + |dep.oldVersion|] == dep.oldVersion then Splice(body, lit, |dep.oldVersion|, dep.version)
    else body
  }

  /** What one of the forms 1, 3 and 4 does with the match `m` found at `at`. */
  function ApplyMatch(body: String, at: nat, m: Match, dep: Dependency, variant: Variant): Result<String, Error>
    requires at + m.end <= |body| && m.literal + |dep.oldVersion| < m.end
  {
    match variant
    case AsWritten =>
      var matches :- Including(m.groups, dep.oldVersion);
      Ok(RewriteAll(body, matches, dep))
    case Corrected => Ok(EditLiteral(body, at, m, dep))
  }

  /** Form 1: the first variable reference, then the first assignment of the old version to it. */
  function VariableStage(body: String, dep: Dependency, variant: Variant): Result<String, Error> {
    match FindVarRef(body, dep.group, dep.name)
    case None => Ok(body)
    case Some((_, variable)) =>
      match FindAssign(body, variable, dep.oldVersion)
      case None => Ok(body)
      case Some((at, m)) => ApplyMatch(body, at, m, dep, variant)
  }

  /** The replacement text of the inline form. */
  function InlineTemplate(dep: Dependency): String {
    dep.group + ":" + dep.name + ":" + dep.version
  }

  /**
    * `s.replace(/group:name:old/g, template)` from position `i` on: the
    * matches from left to right, none overlapping the one before.
    */
  function ReplaceInlineFrom(s: String, i: nat, dep: Dependency): String
    decreases |s| - i
  {
    if i >= |s| then []
    else match InlineAt(s[i..], dep.group, dep.name, dep.oldVersion)
      case Some(n) => Expand(InlineTemplate(dep), s[i..i + n], s[..i], s[i + n..]) + ReplaceInlineFrom(s, i + n, dep)
      case None => [s[i]] + ReplaceInlineFrom(s, i + 1, dep)
  }

  /** Form 2: every inline coordinate, when there is one. */
  function InlineStage(body: String, dep: Dependency): String {
    if FindInline(body, dep.group, dep.name, dep.oldVersion).Some? then ReplaceInlineFrom(body, 0, dep) else body
  }

  /** Form 3: the first plugin declaration; only the corrected variant accepts `id("group")`. */
  function PluginStage(body: String, dep: Dependency, variant: Variant): Result<String, Error> {
    match FindPlugin(body, dep.group, dep.oldVersion, variant == Corrected)
    case None => Ok(body)
    case Some((at, m)) => ApplyMatch(body, at, m, dep, variant)
  }

  /** Form 4: the first named-argument declaration. */
  function KeywordStage(body: String, dep: Dependency, variant: Variant): Result<String, Error> {
    match FindKeyword(body, dep.name, dep.oldVersion)
    case None => Ok(body)
    case Some((at, m)) => ApplyMatch(body, at, m, dep, variant)
  }

  /** `replace(body, dependency)`: the four forms, each on the outcome of the one before. */
  function Replaced(body: String, dep: Dependency, variant: Variant): Result<String, Error> {
    var afterVariable :- VariableStage(body, dep, variant);
    var afterInline := InlineStage(afterVariable, dep);
    var afterPlugin :- PluginStage(afterInline, dep, variant);
    KeywordStage(afterPlugin, dep, variant)
  }

  /** The corrected rewriter never throws. */
  function ReplaceCorrected(body: String, dep: Dependency): (r: String)
    ensures Replaced(body, dep, Corrected) == Ok(r)
  {
    var afterVariable := VariableStage(body, dep, Corrected).value;
    var afterPlugin := PluginStage(InlineStage(afterVariable, dep), dep, Corrected).value;
    KeywordStage(afterPlugin, dep, Corrected).value
  }

  /**
    * `matches.forEach(match => modifiedBody = modifiedBody.replace(match,
    * match.replace(oldVersion, version)))`.
    */
  method ForEachRewrite(body: String, matches: seq<String>, dep: Dependency) returns (modifiedBody: String)
    ensures modifiedBody == RewriteAll(body, matches, dep)
  {
    modifiedBody := body;
    for k := 0 to |matches|
      invariant modifiedBody == RewriteAll(body, matches[..k], dep)
    {
      assert matches[..k + 1][..k] == matches[..k];
      modifiedBody := StrReplace(modifiedBody, matches[k], StrReplace(matches[k], dep.oldVersion, dep.version));
    }
    assert matches[..|matches|] == matches;
  }

  /** One form as written: filter the `exec` result of the match at `at`, then run the `forEach`. */
  method RewriteExec(body: String, at: nat, m: Match, dep: Dependency) returns (r: Result<String, Error>)
    requires at + m.end <= |body| && m.literal + |dep.oldVersion| < m.end
    ensures r == ApplyMatch(body, at, m, dep, AsWritten)
  {
    var matches := Including(m.groups, dep.oldVersion);
    if matches.Err? {
      return Err(matches.error);
    }
    var modifiedBody := ForEachRewrite(body, matches.value, dep);
    return Ok(modifiedBody);
  }

  /** Form 1 as written. */
  method RewriteVariable(body: String, dep: Dependency) returns (r: Result<String, Error>)
    ensures r == VariableStage(body, dep, AsWritten)
  {
    var reference := FindVarRef(body, dep.group, dep.name);
    if reference.None? {
      return Ok(body);
    }
    var definition := FindAssign(body, reference.value.1, dep.oldVersion);
    if definition.None? {
      return Ok(body);
    }
    r := RewriteExec(body, definition.value.0, definition.value.1, dep);
  }

  /** Form 3 as written. */
  method RewritePlugin(body: String, dep: Dependency) returns (r: Result<String, Error>)
    ensures r == PluginStage(body, dep, AsWritten)
  {
    var plugin := FindPlugin(body, dep.group, dep.oldVersion, false);
    if plugin.None? {
      return Ok(body);
    }
    r := RewriteExec(body, plugin.value.0, plugin.value.1, dep);
  }

  /** Form 4 as written. */
  method RewriteKeyword(body: String, dep: Dependency) returns (r: Result<String, Error>)
    ensures r == KeywordStage(body, dep, AsWritten)
  {
    var keyword := FindKeyword(body, dep.name, dep.oldVersion);
    if keyword.None? {
      return Ok(body);
    }
    r := RewriteExec(body, keyword.value.0, keyword.value.1, dep);
  }

  /**
    * The rewriter as written: `modifiedBody` threaded through the four
    * forms; a form that throws ends the call.
    */
  method Replace(body: String, dependency: Dependency) returns (r: Result<String, Error>)
    ensures r == Replaced(body, dependency, AsWritten)
  {
    var modifiedBody := body;
    var outcome := RewriteVariable(modifiedBody, dependency);
    if outcome.Err? {
      return outcome;
    }
    modifiedBody := outcome.value;
    if FindInline(modifiedBody, dependency.group, dependency.name, dependency.oldVersion).Some? {
      modifiedBody := ReplaceInlineFrom(modifiedBody, 0, dependency);
    }
    outcome := RewritePlugin(modifiedBody, dependency);
    if outcome.Err? {
      return outcome;
    }
    modifiedBody := outcome.value;
    outcome := RewriteKeyword(modifiedBody, dependency);
    if outcome.Err? {
      return outcome;
    }
    modifiedBody := outcome.value;
    return Ok(modifiedBody);
  }
}
