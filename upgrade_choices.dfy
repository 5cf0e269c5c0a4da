/**
  * The list of upgrades offered to the user: one choice per outdated
  * dependency (with the version it would move to and the semantic-version
  * class of the move), narrowed by the `--semver` classes, with the Gradle
  * wrapper upgrade put in front when the wrapper is behind.
  */
module UpgradeChoices {
  import opened Wrappers
  import opened JsString

  /** A string-valued report field; `None` is a missing or `null` value. */
  type Field = Option<String>

  /** JavaScript truthiness of such a field: present and not empty. */
  predicate Truthy(v: Field) {
    v.Some? && v.value != ""
  }

  /** The `available` record of a report entry. */
  datatype Available = Available(release: Field, milestone: Field, integration: Field)

  /** One entry of `outdated.dependencies` in a report. */
  datatype Outdated = Outdated(group: String, name: String, version: String, available: Available, projectUrl: Field)

  /** The `gradle` section of a report: `running.version` and `current.version`. */
  datatype GradleSection = GradleSection(running: String, current: String)

  /** The `value` of a dependency choice. */
  datatype ChoiceValue = ChoiceValue(
    group: String, name: String, oldVersion: String, version: Field,
    projectUrl: Field, semverDiff: Field)

  /**
    * A choice of the multi-select prompt. The wrapper choice has the value
    * `"gradle"`; it keeps the two versions its title shows. Titles and their
    * colours are display only and not kept.
    */
  datatype Choice =
    | DependencyChoice(description: Field, value: ChoiceValue)
    | GradleWrapperChoice(running: String, latest: String)

  /**
    * `semver.diff(old, new)` as a parameter: the class of the move
    * (`"major"`, `"minor"`, `"patch"`, ...), or `None` when the versions are
    * equal or cannot be compared (the call throws and the error is caught).
    */
  type SemverDiff = (String, Field) -> Field

  /** `release || milestone || integration`. */
  function CandidateVersion(a: Available): (v: Field)
    ensures Truthy(a.release) ==> v == a.release
    ensures !Truthy(a.release) && Truthy(a.milestone) ==> v == a.milestone
    ensures !Truthy(a.release) && !Truthy(a.milestone) ==> v == a.integration
  {
    if Truthy(a.release) then a.release
    else if Truthy(a.milestone) then a.milestone
    else a.integration
  }

  /** The choice built for one entry. */
  function BuildChoice(it: Outdated, diff: SemverDiff): Choice {
    var newVersion := CandidateVersion(it.available);
    DependencyChoice(it.projectUrl,
      ChoiceValue(it.group, it.name, it.version, newVersion, it.projectUrl, diff(it.version, newVersion)))
  }

  /** The `outdated.map(...)` of all entries. */
  function BuildChoices(outdated: seq<Outdated>, diff: SemverDiff): (r: seq<Choice>)
    ensures |r| == |outdated| && forall i :: 0 <= i < |r| ==> r[i] == BuildChoice(outdated[i], diff)
  {
    seq(|outdated|, i requires 0 <= i < |outdated| => BuildChoice(outdated[i], diff))
  }

  /** Whether a non-empty `--semver` list was given. */
  predicate FilterGiven(semver: Option<seq<String>>) {
    semver.Some? && |semver.value| > 0
  }

  /** The filter's test: no class, or a class in the list. */
  predicate SemverKeeps(c: Choice, classes: seq<String>) {
    c.DependencyChoice? ==> !Truthy(c.value.semverDiff) || c.value.semverDiff.value in classes
  }

  /** `choices.filter(...)` with the test above. */
  function FilterChoices(choices: seq<Choice>, classes: seq<String>): seq<Choice>
    decreases |choices|
  {
    if choices == [] then []
    else
      var r := FilterChoices(choices[..|choices| - 1], classes);
      var c := choices[|choices| - 1];
      if SemverKeeps(c, classes) then r + [c] else r
  }

  /** The semver filter, applied only when a non-empty list was given. */
  function SemverFilter(choices: seq<Choice>, semver: Option<seq<String>>): seq<Choice> {
    if FilterGiven(semver) then FilterChoices(choices, semver.value) else choices
  }

  /** Whether the wrapper choice is offered. */
  predicate WrapperOffered(gradle: Option<GradleSection>, gradleWrapper: bool) {
    gradle.Some? && gradleWrapper && gradle.value.running != gradle.value.current
  }

  /** The choices in the order the model keeps them (the title sort is not modelled). */
  function Choices(outdated: seq<Outdated>, gradle: Option<GradleSection>, gradleWrapper: bool,
                   semver: Option<seq<String>>, diff: SemverDiff): seq<Choice> {
    (if WrapperOffered(gradle, gradleWrapper)
     then [GradleWrapperChoice(gradle.value.running, gradle.value.current)] else [])
    + SemverFilter(BuildChoices(outdated, diff), semver)
  }

  /**
    * `buildUpgradeChoicesForUser`: builds the dependency choices, narrows
    * them by the semver list, and puts the wrapper choice in front. The
    * latest Gradle release is reported whenever the report has a `gradle`
    * section, whether or not the wrapper choice is offered.
    */
  method BuildUpgradeChoicesForUser(outdated: seq<Outdated>, gradle: Option<GradleSection>, gradleWrapper: bool,
                                    semver: Option<seq<String>>, diff: SemverDiff)
    returns (choices: seq<Choice>, latestGradleRelease: Field)
    ensures choices == Choices(outdated, gradle, gradleWrapper, semver, diff)
    ensures latestGradleRelease == if gradle.Some? then Some(gradle.value.current) else None
  {
    choices := BuildChoices(outdated, diff);
    if semver.Some? && |semver.value| > 0 {
      choices := FilterChoices(choices, semver.value);
    }
    latestGradleRelease := None;
    if gradle.Some? {
      var currentGradleRelease := gradle.value.running;
      latestGradleRelease := Some(gradle.value.current);
      if gradleWrapper && currentGradleRelease != latestGradleRelease.value {
        choices := [GradleWrapperChoice(currentGradleRelease, latestGradleRelease.value)] + choices;
      }
    }
  }
}

/** What the choice list holds. */
module UpgradeChoicesFacts {
  import opened Wrappers
  import opened JsString
  import opened UpgradeChoices

  /** The candidate is truthy exactly when one of the three versions is. */
  lemma CandidateTruthy(a: Available)
    ensures Truthy(CandidateVersion(a)) <==> Truthy(a.release) || Truthy(a.milestone) || Truthy(a.integration)
  {
  }

  /** A choice's value carries the entry's coordinates, its candidate version and its semver class. */
  lemma ChoiceCarries(it: Outdated, diff: SemverDiff)
    ensures BuildChoice(it, diff).DependencyChoice?
    ensures BuildChoice(it, diff).description == it.projectUrl
    ensures var v := BuildChoice(it, diff).value;
      v.group == it.group && v.name == it.name && v.oldVersion == it.version &&
      v.version == CandidateVersion(it.available) && v.projectUrl == it.projectUrl &&
      v.semverDiff == diff(it.version, CandidateVersion(it.available))
  {
  }

  /** A choice passes the filter exactly when the filter keeps it. */
  lemma {:induction false} FilterChoicesMembers(choices: seq<Choice>, classes: seq<String>, c: Choice)
    ensures c in FilterChoices(choices, classes) <==> c in choices && SemverKeeps(c, classes)
    decreases |choices|
  {
    if choices != [] {
      var init := choices[..|choices| - 1];
      FilterChoicesMembers(init, classes, c);
      assert choices == init + [choices[|choices| - 1]];
    }
  }

  /** When every choice passes, the filter keeps the list as it is. */
  lemma {:induction false} FilterChoicesAll(choices: seq<Choice>, classes: seq<String>)
    requires forall i :: 0 <= i < |choices| ==> SemverKeeps(choices[i], classes)
    ensures FilterChoices(choices, classes) == choices
    decreases |choices|
  {
    if choices != [] {
      var init := choices[..|choices| - 1];
      FilterChoicesAll(init, classes);
      assert choices == init + [choices[|choices| - 1]];
    }
  }

  /** The filter only drops choices: the list never grows, and keeps its length only when nothing is dropped. */
  lemma {:induction false} FilterChoicesShorter(choices: seq<Choice>, classes: seq<String>)
    ensures |FilterChoices(choices, classes)| <= |choices|
    ensures |FilterChoices(choices, classes)| == |choices| ==> FilterChoices(choices, classes) == choices
    decreases |choices|
  {
    if choices != [] {
      var init := choices[..|choices| - 1];
      FilterChoicesShorter(init, classes);
      assert choices == init + [choices[|choices| - 1]];
    }
  }

  /**
    * A dependency choice is offered exactly when some entry builds it and,
    * with a non-empty semver list, its class is empty or listed.
    */
  lemma DependencyChoiceOffered(outdated: seq<Outdated>, gradle: Option<GradleSection>, gradleWrapper: bool,
                                semver: Option<seq<String>>, diff: SemverDiff, c: Choice)
    requires c.DependencyChoice?
    ensures c in Choices(outdated, gradle, gradleWrapper, semver, diff) <==>
      c in BuildChoices(outdated, diff) &&
      (FilterGiven(semver) ==> !Truthy(c.value.semverDiff) || c.value.semverDiff.value in semver.value)
  {
    if FilterGiven(semver) {
      FilterChoicesMembers(BuildChoices(outdated, diff), semver.value, c);
    }
  }

  /** Without a non-empty semver list, every entry is offered, in report order. */
  lemma UnfilteredChoices(outdated: seq<Outdated>, gradle: Option<GradleSection>, semver: Option<seq<String>>, diff: SemverDiff)
    requires !FilterGiven(semver)
    ensures Choices(outdated, gradle, false, semver, diff) == BuildChoices(outdated, diff)
  {
  }

  /**
    * The wrapper choice is offered exactly when the report has a `gradle`
    * section, the project uses the wrapper and the running version differs
    * from the current one; it is then the first choice, carries those two
    * versions, and is the only wrapper choice.
    */
  lemma WrapperChoiceFirst(outdated: seq<Outdated>, gradle: Option<GradleSection>, gradleWrapper: bool,
                           semver: Option<seq<String>>, diff: SemverDiff)
    ensures var choices := Choices(outdated, gradle, gradleWrapper, semver, diff);
      (exists i :: 0 <= i < |choices| && choices[i].GradleWrapperChoice?) <==> WrapperOffered(gradle, gradleWrapper)
    ensures var choices := Choices(outdated, gradle, gradleWrapper, semver, diff);
      WrapperOffered(gradle, gradleWrapper) ==>
        choices[0] == GradleWrapperChoice(gradle.value.running, gradle.value.current) &&
        forall i :: 1 <= i < |choices| ==> choices[i].DependencyChoice?
  {
    var built := BuildChoices(outdated, diff);
    var deps := SemverFilter(built, semver);
    forall c | c in deps ensures c.DependencyChoice? {
      if FilterGiven(semver) {
        FilterChoicesMembers(built, semver.value, c);
      }
    }
    var choices := Choices(outdated, gradle, gradleWrapper, semver, diff);
    if WrapperOffered(gradle, gradleWrapper) {
      assert choices[0].GradleWrapperChoice?;
      forall i | 1 <= i < |choices| ensures choices[i].DependencyChoice? {
        assert choices[i] == deps[i - 1];
      }
    } else {
      forall i | 0 <= i < |choices| ensures choices[i].DependencyChoice? {
        assert choices[i] in deps;
      }
    }
  }
}
