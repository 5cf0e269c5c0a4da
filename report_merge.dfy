/**
  * Merging the dependency-update reports of all (sub)projects into one:
  * the last `gradle` section wins, and dependency entries are concatenated
  * in file order, an entry being skipped when the very same object is
  * already in the merged list.
  */
module ReportMerge {
  import opened Wrappers
  import opened Seqs
  import opened UpgradeChoices

  /**
    * A parsed entry of `outdated.dependencies`. `ref` stands for the
    * object's identity, which is what `===` compares; `dependency` is its
    * content.
    */
  datatype Entry = Entry(ref: nat, dependency: Outdated)

  /** A parsed report file. */
  datatype Report = Report(gradle: Option<GradleSection>, dependencies: seq<Entry>)

  /** The identity of an entry. */
  function Ref(e: Entry): nat {
    e.ref
  }

  /** The content of an entry. */
  function Content(e: Entry): Outdated {
    e.dependency
  }

  /** The `gradle` section of the last report that has one. */
  function LastGradle(reports: seq<Report>): Option<GradleSection>
    decreases |reports|
  {
    if reports == [] then None
    else if reports[|reports| - 1].gradle.Some? then reports[|reports| - 1].gradle
    else LastGradle(reports[..|reports| - 1])
  }

  /** The entries of all reports, in file order. */
  function AllEntries(reports: seq<Report>): seq<Entry>
    decreases |reports|
  {
    if reports == [] then []
    else AllEntries(reports[..|reports| - 1]) + reports[|reports| - 1].dependencies
  }

  /**
    * The inner `forEach` of `findOutdatedDependencies`: each entry of one
    * report is pushed unless the very same object is already merged. `seen`
    * is what was merged from.
    */
  method MergeDependencies(merged: seq<Entry>, ghost seen: seq<Entry>, dependencies: seq<Entry>)
    returns (result: seq<Entry>)
    requires merged == DedupBy(seen, Ref)
    ensures result == DedupBy(seen + dependencies, Ref)
  {
    result := merged;
    ghost var collected := seen;
    assert dependencies[..0] == [];
    for j := 0 to |dependencies|
      invariant collected == seen + dependencies[..j]
      invariant result == DedupBy(collected, Ref)
    {
      var outdatedDependency := dependencies[j];
      DedupByAppend(collected, outdatedDependency, Ref);
      if Ref(outdatedDependency) !in Keys(result, Ref) {
        result := result + [outdatedDependency];
      }
      collected := collected + [outdatedDependency];
      PrefixStep(seen, dependencies, j);
    }
    assert dependencies[..|dependencies|] == dependencies;
  }

  /**
    * `findOutdatedDependencies` over the parsed reports: the last `gradle`
    * section, and the entries with those already present (by identity)
    * skipped.
    */
  method FindOutdatedDependencies(reports: seq<Report>) returns (gradle: Option<GradleSection>, merged: seq<Entry>)
    ensures gradle == LastGradle(reports)
    ensures merged == DedupBy(AllEntries(reports), Ref)
  {
    gradle := None;
    merged := [];
    for i := 0 to |reports|
      invariant gradle == LastGradle(reports[..i])
      invariant merged == DedupBy(AllEntries(reports[..i]), Ref)
    {
      var jsonReportData := reports[i];
      assert reports[..i + 1][..i] == reports[..i];
      if jsonReportData.gradle.Some? {
        gradle := jsonReportData.gradle;
      }
      merged := MergeDependencies(merged, AllEntries(reports[..i]), jsonReportData.dependencies);
    }
    assert reports[..|reports|] == reports;
  }

  /**
    * The intended merge: every dependency once, by content, in the order
    * the reports first list it.
    */
  function DistinctDependencies(reports: seq<Report>): seq<Outdated> {
    DedupBy(Keys(AllEntries(reports), Content), (d: Outdated) => d)
  }
}

/** What the merged report holds. */
module ReportMergeFacts {
  import opened Wrappers
  import opened Seqs
  import opened UpgradeChoices
  import opened ReportMerge

  /** Reports after the last one with a `gradle` section do not change the result. */
  lemma {:induction false} LastGradleSkips(reports: seq<Report>, n: nat)
    requires n <= |reports|
    requires forall j :: n <= j < |reports| ==> reports[j].gradle.None?
    ensures LastGradle(reports) == LastGradle(reports[..n])
    decreases |reports|
  {
    if n < |reports| {
      LastGradleSkips(reports[..|reports| - 1], n);
      assert reports[..|reports| - 1][..n] == reports[..n];
    } else {
      assert reports[..n] == reports;
    }
  }

  /** The last report with a `gradle` section gives the section. */
  lemma LastGradleWins(reports: seq<Report>, i: nat)
    requires i < |reports| && reports[i].gradle.Some?
    requires forall j :: i < j < |reports| ==> reports[j].gradle.None?
    ensures LastGradle(reports) == reports[i].gradle
  {
    LastGradleSkips(reports, i + 1);
    assert reports[..i + 1][..i] == reports[..i];
  }

  /** There is no section exactly when no report has one. */
  lemma {:induction false} LastGradleNone(reports: seq<Report>)
    ensures LastGradle(reports).None? <==> forall i :: 0 <= i < |reports| ==> reports[i].gradle.None?
    decreases |reports|
  {
    if reports != [] {
      var init := reports[..|reports| - 1];
      LastGradleNone(init);
      assert forall i :: 0 <= i < |init| ==> init[i] == reports[i];
    }
  }

  /** Every object `JSON.parse` returns is new: no identity occurs twice. */
  predicate FreshlyParsed(reports: seq<Report>) {
    DistinctKeys(AllEntries(reports), Ref)
  }

  /** On freshly parsed reports the identity test never fires: every entry is kept. */
  lemma IdentityMergeKeepsAll(reports: seq<Report>)
    requires FreshlyParsed(reports)
    ensures DedupBy(AllEntries(reports), Ref) == AllEntries(reports)
  {
    DedupByKeepsDistinct(AllEntries(reports), Ref);
  }

  /**
    * Two reports listing the same dependency: as written, the merged list
    * holds it twice.
    */
  lemma IdentityMergeKeepsDuplicate(d: Outdated)
    ensures var reports := [Report(None, [Entry(0, d)]), Report(None, [Entry(1, d)])];
      FreshlyParsed(reports) &&
      Keys(DedupBy(AllEntries(reports), Ref), Content) == [d, d]
  {
    var reports := [Report(None, [Entry(0, d)]), Report(None, [Entry(1, d)])];
    var all := [Entry(0, d), Entry(1, d)];
    assert reports[..1][..0] == [];
    assert AllEntries(reports[..1]) == [Entry(0, d)];
    assert AllEntries(reports) == all;
    assert DistinctKeys(all, Ref) by {
      assert Ref(all[0]) == 0 && Ref(all[1]) == 1;
    }
    DedupByKeepsDistinct(all, Ref);
    var contents := Keys(all, Content);
    assert contents[0] == d && contents[1] == d;
    assert contents == [d, d];
  }

  /** The intended merge lists no dependency twice. */
  lemma DistinctDependenciesUnique(reports: seq<Report>)
    ensures var r := DistinctDependencies(reports);
      forall i, j :: 0 <= i < j < |r| ==> r[i] != r[j]
  {
    DedupByDistinct(Keys(AllEntries(reports), Content), (d: Outdated) => d);
  }

  /** The intended merge lists exactly the dependencies some report lists. */
  lemma DistinctDependenciesMembers(reports: seq<Report>, d: Outdated)
    ensures d in DistinctDependencies(reports) <==> exists e :: e in AllEntries(reports) && e.dependency == d
  {
    var all := Keys(AllEntries(reports), Content);
    var id := (d: Outdated) => d;
    DedupByKeys(all, id, d);
    KeysOfIdentity(DistinctDependencies(reports));
    KeysOfIdentity(all);
    if d in all {
      var p :| 0 <= p < |all| && all[p] == d;
      assert AllEntries(reports)[p] in AllEntries(reports);
    }
    if e :| e in AllEntries(reports) && e.dependency == d {
      var p :| 0 <= p < |AllEntries(reports)| && AllEntries(reports)[p] == e;
      assert all[p] == d;
    }
  }

  /** Keys under the identity are the sequence itself. */
  lemma KeysOfIdentity(s: seq<Outdated>)
    ensures Keys(s, (d: Outdated) => d) == s
  {
  }

  /** On duplicate-free reports the intended merge keeps every entry's content, in order. */
  lemma DistinctDependenciesOfDistinct(reports: seq<Report>)
    requires DistinctKeys(AllEntries(reports), Content)
    ensures DistinctDependencies(reports) == Keys(AllEntries(reports), Content)
  {
    var all := Keys(AllEntries(reports), Content);
    DedupByKeepsDistinct(all, (d: Outdated) => d);
  }
}
