/**
  * Writing the selected upgrades back: every build file is read, the
  * substitutions for every selected dependency are collected once across
  * all files, and each file's text then has all of them applied in order.
  */
module WriteBack {
  import opened Wrappers
  import opened JsString
  import opened Seqs
  import opened UpgradeChoices

  /** A substitution `{searchValue, replaceValue}`. */
  datatype Action = Action(searchValue: String, replaceValue: String)

  /** A selection of the prompt: the wrapper choice (`"gradle"`) or a dependency choice's value. */
  datatype Selection = WrapperSelection | DependencySelection(value: ChoiceValue)

  /** What two actions are compared by. */
  function Pair(a: Action): (String, String) {
    (a.searchValue, a.replaceValue)
  }

  /**
    * The substitutions computed for one dependency in the text of one build
    * file, taken as a parameter.
    */
  type ActionsFor = (String, ChoiceValue) -> seq<Action>

  /** `upgrades.filter(it => it !== "gradle")`. */
  function DependencySelections(upgrades: seq<Selection>): seq<ChoiceValue>
    decreases |upgrades|
  {
    if upgrades == [] then []
    else
      var rest := DependencySelections(upgrades[..|upgrades| - 1]);
      match upgrades[|upgrades| - 1]
      case WrapperSelection => rest
      case DependencySelection(value) => rest + [value]
  }

  /** The actions of one file, dependency after dependency. */
  function ActionsOfFile(content: String, deps: seq<ChoiceValue>, actionsFor: ActionsFor): seq<Action>
    decreases |deps|
  {
    if deps == [] then []
    else ActionsOfFile(content, deps[..|deps| - 1], actionsFor) + actionsFor(content, deps[|deps| - 1])
  }

  /** The actions of all files, file after file. */
  function ActionsOfFiles(buildFiles: seq<String>, read: String -> String, deps: seq<ChoiceValue>,
                          actionsFor: ActionsFor): seq<Action>
    decreases |buildFiles|
  {
    if buildFiles == [] then []
    else
      ActionsOfFiles(buildFiles[..|buildFiles| - 1], read, deps, actionsFor)
      + ActionsOfFile(read(buildFiles[|buildFiles| - 1]), deps, actionsFor)
  }

  /** The contents read, by file name. */
  function Contents(buildFiles: seq<String>, read: String -> String): map<String, String> {
    map f | f in buildFiles :: read(f)
  }

  /** One more dependency of a file adds its actions at the end. */
  lemma ActionsOfFileStep(content: String, deps: seq<ChoiceValue>, k: nat, actionsFor: ActionsFor)
    requires k < |deps|
    ensures ActionsOfFile(content, deps[..k + 1], actionsFor) ==
      ActionsOfFile(content, deps[..k], actionsFor) + actionsFor(content, deps[k])
  {
    assert deps[..k + 1][..k] == deps[..k];
  }

  /** One more file adds its actions at the end. */
  lemma ActionsOfFilesStep(buildFiles: seq<String>, read: String -> String, deps: seq<ChoiceValue>,
                           actionsFor: ActionsFor, i: nat)
    requires i < |buildFiles|
    ensures ActionsOfFiles(buildFiles[..i + 1], read, deps, actionsFor) ==
      ActionsOfFiles(buildFiles[..i], read, deps, actionsFor) + ActionsOfFile(read(buildFiles[i]), deps, actionsFor)
  {
    assert buildFiles[..i + 1][..i] == buildFiles[..i];
  }

  /** One more file adds its text under its name. */
  lemma ContentsStep(buildFiles: seq<String>, read: String -> String, i: nat)
    requires i < |buildFiles|
    ensures Contents(buildFiles[..i + 1], read) == Contents(buildFiles[..i], read)[buildFiles[i] := read(buildFiles[i])]
  {
    assert forall f :: f in buildFiles[..i + 1] <==> f in buildFiles[..i] || f == buildFiles[i];
  }

  /**
    * The innermost `forEach`: each action is pushed unless one with the same
    * search and replace values is already listed. `seen` is what was
    * collected from.
    */
  method PushNewActions(all: seq<Action>, ghost seen: seq<Action>, actions: seq<Action>)
    returns (result: seq<Action>)
    requires all == DedupBy(seen, Pair)
    ensures result == DedupBy(seen + actions, Pair)
  {
    result := all;
    ghost var collected := seen;
    assert actions[..0] == [];
    for k := 0 to |actions|
      invariant collected == seen + actions[..k]
      invariant result == DedupBy(collected, Pair)
    {
      var action := actions[k];
      DedupByAppend(collected, action, Pair);
      if Pair(action) !in Keys(result, Pair) {
        result := result + [action];
      }
      collected := collected + [action];
      PrefixStep(seen, actions, k);
    }
    assert actions[..|actions|] == actions;
  }

  /** The dependencies of one build file, each adding its new actions. */
  method CollectFromFile(all: seq<Action>, ghost seen: seq<Action>, content: String,
                         deps: seq<ChoiceValue>, actionsFor: ActionsFor)
    returns (result: seq<Action>)
    requires all == DedupBy(seen, Pair)
    ensures result == DedupBy(seen + ActionsOfFile(content, deps, actionsFor), Pair)
  {
    result := all;
    ghost var collected := seen;
    assert deps[..0] == [];
    for k := 0 to |deps|
      invariant collected == seen + ActionsOfFile(content, deps[..k], actionsFor)
      invariant result == DedupBy(collected, Pair)
    {
      var replaceVersionActions := actionsFor(content, deps[k]);
      result := PushNewActions(result, collected, replaceVersionActions);
      collected := collected + replaceVersionActions;
      ActionsOfFileStep(content, deps, k, actionsFor);
      AppendAssoc(seen, ActionsOfFile(content, deps[..k], actionsFor), replaceVersionActions);
    }
    assert deps[..|deps|] == deps;
  }

  /**
    * The loop over the build files: reads each file, collects the actions
    * of every selected dependency (the wrapper selection excluded) into one
    * list without repeated pairs, and keeps each file's text by name.
    */
  method CollectReplacements(buildFiles: seq<String>, read: String -> String, upgrades: seq<Selection>,
                             actionsFor: ActionsFor)
    returns (allReplacements: seq<Action>, buildFileContentMap: map<String, String>)
    ensures allReplacements == DedupBy(ActionsOfFiles(buildFiles, read, DependencySelections(upgrades), actionsFor), Pair)
    ensures buildFileContentMap == Contents(buildFiles, read)
  {
    var deps := DependencySelections(upgrades);
    allReplacements := [];
    buildFileContentMap := map[];
    for i := 0 to |buildFiles|
      invariant allReplacements == DedupBy(ActionsOfFiles(buildFiles[..i], read, deps, actionsFor), Pair)
      invariant buildFileContentMap == Contents(buildFiles[..i], read)
    {
      var buildFile := buildFiles[i];
      var buildFileAsString := read(buildFile);
      ActionsOfFilesStep(buildFiles, read, deps, actionsFor, i);
      ContentsStep(buildFiles, read, i);
      allReplacements := CollectFromFile(allReplacements, ActionsOfFiles(buildFiles[..i], read, deps, actionsFor),
                                         buildFileAsString, deps, actionsFor);
      buildFileContentMap := buildFileContentMap[buildFile := buildFileAsString];
    }
    assert buildFiles[..|buildFiles|] == buildFiles;
  }

  /** Every action applied in list order, each replacing the first occurrence only. */
  function ApplyReplacements(content: String, actions: seq<Action>): String
    decreases |actions|
  {
    if actions == [] then content
    else
      var last := actions[|actions| - 1];
      StrReplace(ApplyReplacements(content, actions[..|actions| - 1]), last.searchValue, last.replaceValue)
  }

  /** The inner loop of the write-back: `modifiedContent = modifiedContent.replace(...)`. */
  method ApplyAll(content: String, allReplacements: seq<Action>) returns (modifiedContent: String)
    ensures modifiedContent == ApplyReplacements(content, allReplacements)
  {
    modifiedContent := content;
    for k := 0 to |allReplacements|
      invariant modifiedContent == ApplyReplacements(content, allReplacements[..k])
    {
      var replaceAction := allReplacements[k];
      assert allReplacements[..k + 1][..k] == allReplacements[..k];
      modifiedContent := StrReplace(modifiedContent, replaceAction.searchValue, replaceAction.replaceValue);
    }
    assert allReplacements[..|allReplacements|] == allReplacements;
  }

  /**
    * The write-back loop: the text written to each file is its content with
    * every action applied. The result stands for the files written.
    */
  method WriteBuildFiles(buildFileContentMap: map<String, String>, order: seq<String>, allReplacements: seq<Action>)
    returns (written: map<String, String>)
    requires forall f :: f in buildFileContentMap <==> f in order
    ensures written.Keys == buildFileContentMap.Keys
    ensures forall f :: f in written ==> written[f] == ApplyReplacements(buildFileContentMap[f], allReplacements)
  {
    written := map[];
    for i := 0 to |order|
      invariant forall f :: f in written <==> f in order[..i]
      invariant forall f :: f in written ==> written[f] == ApplyReplacements(buildFileContentMap[f], allReplacements)
    {
      var buildFile := order[i];
      assert buildFile in buildFileContentMap;
      var modifiedContent := ApplyAll(buildFileContentMap[buildFile], allReplacements);
      written := written[buildFile := modifiedContent];
      assert forall f :: f in order[..i + 1] <==> f in order[..i] || f == buildFile;
    }
    assert order[..|order|] == order;
  }
}

/** What is collected and what is written. */
module WriteBackFacts {
  import opened Wrappers
  import opened JsString
  import opened Seqs
  import opened UpgradeChoices
  import opened WriteBack

  /** Actions are equal exactly when their pairs are. */
  lemma PairKeys(s: seq<Action>, a: Action)
    ensures Pair(a) in Keys(s, Pair) <==> a in s
  {
    if Pair(a) in Keys(s, Pair) {
      var p :| 0 <= p < |s| && Keys(s, Pair)[p] == Pair(a);
      assert s[p] == a;
    }
    if a in s {
      var p :| 0 <= p < |s| && s[p] == a;
      assert Keys(s, Pair)[p] == Pair(a);
    }
  }

  /** The collected list never holds the same pair twice. */
  lemma CollectedDistinct(actions: seq<Action>)
    ensures var r := DedupBy(actions, Pair);
      forall i, j :: 0 <= i < j < |r| ==> r[i] != r[j]
  {
    DedupByDistinct(actions, Pair);
  }

  /** Every action computed for some file and dependency is collected, and nothing else. */
  lemma CollectedMembers(actions: seq<Action>, a: Action)
    ensures a in DedupBy(actions, Pair) <==> a in actions
  {
    DedupByKeys(actions, Pair, Pair(a));
    PairKeys(actions, a);
    PairKeys(DedupBy(actions, Pair), a);
  }

  /** The wrapper selection yields no dependency to rewrite; every other selection does. */
  lemma {:induction false} WrapperExcluded(upgrades: seq<Selection>, v: ChoiceValue)
    ensures v in DependencySelections(upgrades) <==> DependencySelection(v) in upgrades
    decreases |upgrades|
  {
    if upgrades != [] {
      var init := upgrades[..|upgrades| - 1];
      WrapperExcluded(init, v);
      assert upgrades == init + [upgrades[|upgrades| - 1]];
    }
  }

  /** Selecting only the wrapper upgrade rewrites no dependency. */
  lemma {:induction false} OnlyWrapperSelected(upgrades: seq<Selection>)
    requires forall i :: 0 <= i < |upgrades| ==> upgrades[i] == WrapperSelection
    ensures DependencySelections(upgrades) == []
    decreases |upgrades|
  {
    if upgrades != [] {
      OnlyWrapperSelected(upgrades[..|upgrades| - 1]);
    }
  }

  /** Without dependencies, no file yields an action. */
  lemma {:induction false} NoDependencyNoAction(buildFiles: seq<String>, read: String -> String, actionsFor: ActionsFor)
    ensures ActionsOfFiles(buildFiles, read, [], actionsFor) == []
    decreases |buildFiles|
  {
    if buildFiles != [] {
      NoDependencyNoAction(buildFiles[..|buildFiles| - 1], read, actionsFor);
    }
  }

  /** Applying two lists is applying the first, then the second. */
  lemma {:induction false} ApplyAppend(content: String, xs: seq<Action>, ys: seq<Action>)
    ensures ApplyReplacements(content, xs + ys) == ApplyReplacements(ApplyReplacements(content, xs), ys)
    decreases |ys|
  {
    if ys == [] {
      assert xs + ys == xs;
    } else {
      var init := ys[..|ys| - 1];
      ApplyAppend(content, xs, init);
      assert (xs + ys)[..|xs + ys| - 1] == xs + init;
    }
  }

  /** A text holding no search value is written back unchanged. */
  lemma {:induction false} ApplyAbsent(content: String, actions: seq<Action>)
    requires forall i :: 0 <= i < |actions| ==> !Includes(content, actions[i].searchValue)
    ensures ApplyReplacements(content, actions) == content
    decreases |actions|
  {
    if actions != [] {
      var last := actions[|actions| - 1];
      ApplyAbsent(content, actions[..|actions| - 1]);
      StrReplaceAbsent(content, last.searchValue, last.replaceValue);
    }
  }

  /** A list of one action is one `replace`. */
  lemma ApplySingle(content: String, a: Action)
    ensures ApplyReplacements(content, [a]) == StrReplace(content, a.searchValue, a.replaceValue)
  {
    assert [a][..0] == [];
  }

  /**
    * One action replaces the first occurrence of its search value only
    * (taken verbatim when it holds no `$`).
    */
  lemma ApplyOne(content: String, a: Action, p: nat)
    requires IndexOf(content, a.searchValue) == Some(p) && '$' !in a.replaceValue
    ensures p + |a.searchValue| <= |content|
    ensures ApplyReplacements(content, [a]) == content[..p] + a.replaceValue + content[p + |a.searchValue|..]
  {
    ApplySingle(content, a);
    StrReplaceFirst(content, a.searchValue, a.replaceValue, p);
  }

  /**
    * Why repeated pairs are dropped: an action applied twice rewrites a
    * second occurrence as well.
    */
  lemma RepeatedActionRewritesTwice()
    ensures ApplyReplacements("aa", [Action("a", "b")]) == "ba"
    ensures ApplyReplacements("aa", [Action("a", "b"), Action("a", "b")]) == "bb"
  {
    var a := Action("a", "b");
    assert "aa"[0..1] == "a";
    assert IndexOf("aa", "a") == Some(0);
    ApplyOne("aa", a, 0);
    assert "aa"[..0] + "b" + "aa"[1..] == "ba";
    assert "ba"[0..1] != "a" && "ba"[1..2] == "a";
    assert IndexOf("ba", "a") == Some(1);
    ApplyOne("ba", a, 1);
    assert "ba"[..1] + "b" + "ba"[2..] == "bb";
    ApplyAppend("aa", [a], [a]);
  }

  /** The same action listed twice is the action applied to its own outcome. */
  lemma ApplyTwice(content: String, a: Action)
    ensures ApplyReplacements(content, [a, a]) == ApplyReplacements(ApplyReplacements(content, [a]), [a])
  {
    ApplyAppend(content, [a], [a]);
    assert [a] + [a] == [a, a];
  }

  /** Replacing an occurrence by a different text changes the text. */
  lemma SpliceChanges(s: String, i: nat, pat: String, replacement: String)
    requires OccursAt(s, pat, i) && replacement != pat
    ensures Splice(s, i, |pat|, replacement) != s
  {
    SpliceParts(s, i, |pat|, replacement);
    if |replacement| == |pat| {
      assert s[i..i + |pat|] == pat;
    }
  }

  /**
    * Why repeated pairs are dropped, in general: when the text still holds
    * the search value after the first replace, an action listed twice
    * rewrites that occurrence as well, and the file ends up different from
    * applying the action once.
    */
  lemma RepeatedActionRewritesAgain(content: String, a: Action, p: nat, p2: nat)
    requires IndexOf(content, a.searchValue) == Some(p) && '$' !in a.replaceValue
    requires IndexOf(Splice(content, p, |a.searchValue|, a.replaceValue), a.searchValue) == Some(p2)
    ensures var once := Splice(content, p, |a.searchValue|, a.replaceValue);
      p2 + |a.searchValue| <= |once| &&
      ApplyReplacements(content, [a]) == once &&
      ApplyReplacements(content, [a, a]) == Splice(once, p2, |a.searchValue|, a.replaceValue)
    ensures a.replaceValue != a.searchValue ==> ApplyReplacements(content, [a, a]) != ApplyReplacements(content, [a])
  {
    var once := Splice(content, p, |a.searchValue|, a.replaceValue);
    ApplyOne(content, a, p);
    ApplyOne(once, a, p2);
    ApplyTwice(content, a);
    if a.replaceValue != a.searchValue {
      SpliceChanges(once, p2, a.searchValue, a.replaceValue);
    }
  }
}
