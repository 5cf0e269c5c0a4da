/**
  * The inline form, `body.replace(/group:name:old/g, template)`: what the
  * global replacement leaves alone, what it puts in place of the first
  * coordinate, and that writing back the same version changes nothing.
  */
module InlineFacts {
  import opened Wrappers
  import opened JsString
  import opened Patterns
  import opened ReplaceVersion
  import opened Seqs

  /** Positions without a coordinate are copied as they are. */
  lemma {:induction false} InlineSkip(s: String, i: nat, p: nat, dep: Dependency)
    requires i <= p <= |s|
    requires forall j {:trigger InlineAt(s[j..], dep.group, dep.name, dep.oldVersion)} :: i <= j < p ==> InlineAt(s[j..], dep.group, dep.name, dep.oldVersion).None?
    ensures ReplaceInlineFrom(s, i, dep) == s[i..p] + ReplaceInlineFrom(s, p, dep)
    decreases p - i
  {
    if i < p {
      InlineNoStep(s, i, dep);
      InlineSkip(s, i + 1, p, dep);
      assert s[i..p] == [s[i]] + s[i + 1..p];
    }
  }

  /** Without a coordinate from `i` on, the rest of the text is unchanged. */
  lemma InlineUnmatched(s: String, i: nat, dep: Dependency)
    requires i <= |s|
    requires forall j {:trigger InlineAt(s[j..], dep.group, dep.name, dep.oldVersion)} :: i <= j < |s| ==> InlineAt(s[j..], dep.group, dep.name, dep.oldVersion).None?
    ensures ReplaceInlineFrom(s, i, dep) == s[i..]
  {
    InlineSkip(s, i, |s|, dep);
  }

  /** A coordinate at `i` is replaced by the template, taken verbatim when it holds no `$`. */
  lemma InlineStep(s: String, i: nat, dep: Dependency, n: nat)
    requires i < |s| && InlineAt(s[i..], dep.group, dep.name, dep.oldVersion) == Some(n)
    requires '$' !in InlineTemplate(dep)
    ensures i + n <= |s|
    ensures ReplaceInlineFrom(s, i, dep) == InlineTemplate(dep) + ReplaceInlineFrom(s, i + n, dep)
  {
    ExpandVerbatim(InlineTemplate(dep), s[i..i + n], s[..i], s[i + n..]);
  }

  /**
    * The inline form replaces the first coordinate by the template (taken
    * verbatim when it holds no `$`), keeps the text before it, and goes on
    * after it.
    */
  lemma InlineStageFirst(body: String, dep: Dependency, p: nat, n: nat)
    requires FindInline(body, dep.group, dep.name, dep.oldVersion) == Some((p, n))
    requires '$' !in InlineTemplate(dep)
    ensures p + n <= |body|
    ensures InlineStage(body, dep) == body[..p] + InlineTemplate(dep) + ReplaceInlineFrom(body, p + n, dep)
  {
    InlineSkip(body, 0, p, dep);
    InlineStep(body, p, dep, n);
    assert body[0..p] == body[..p];
  }

  /** The fields of a coordinate, read literally, when they hold no `.`. */
  predicate LiteralFields(dep: Dependency) {
    '.' !in dep.group && '.' !in dep.name && '.' !in dep.oldVersion
  }

  /** Fields without `.` match only the coordinate spelled out. */
  lemma InlineText(u: String, dep: Dependency, n: nat)
    requires LiteralFields(dep)
    requires InlineAt(u, dep.group, dep.name, dep.oldVersion) == Some(n)
    ensures u[..n] == dep.group + ":" + dep.name + ":" + dep.oldVersion
  {
    var g := |dep.group|;
    var k := g + 1 + |dep.name|;
    FieldMatchesLiteral(u[0..g], dep.group);
    FieldMatchesLiteral(u[g + 1..k], dep.name);
    FieldMatchesLiteral(u[k + 1..n], dep.oldVersion);
    assert u[..n] == u[0..g] + [u[g]] + u[g + 1..k] + [u[k]] + u[k + 1..n];
  }

  /** The same, for a coordinate at position `i` of `s`. */
  lemma InlineTextAt(s: String, i: nat, dep: Dependency, n: nat)
    requires LiteralFields(dep) && i <= |s|
    requires InlineAt(s[i..], dep.group, dep.name, dep.oldVersion) == Some(n)
    ensures i + n <= |s| && s[i..i + n] == dep.group + ":" + dep.name + ":" + dep.oldVersion
  {
    InlineText(s[i..], dep, n);
    assert s[i..][..n] == s[i..i + n];
  }

  /**
    * Writing back the version that is already there: with fields read
    * literally and a template without `$`, every coordinate is replaced by
    * itself.
    */
  lemma {:induction false} InlineSameVersion(s: String, i: nat, dep: Dependency)
    requires i <= |s|
    requires dep.version == dep.oldVersion && LiteralFields(dep) && '$' !in InlineTemplate(dep)
    ensures ReplaceInlineFrom(s, i, dep) == s[i..]
    decreases |s| - i
  {
    if i < |s| {
      match InlineAt(s[i..], dep.group, dep.name, dep.oldVersion)
      case Some(n) =>
        InlineSameStep(s, i, dep, n);
        InlineSameVersion(s, i + n, dep);
        assert s[i..] == s[i..i + n] + s[i + n..];
      case None =>
        InlineNoStep(s, i, dep);
        InlineSameVersion(s, i + 1, dep);
        assert s[i..] == [s[i]] + s[i + 1..];
    }
  }

  /** With the same version, a coordinate at `i` is replaced by its own text. */
  lemma InlineSameStep(s: String, i: nat, dep: Dependency, n: nat)
    requires i < |s| && InlineAt(s[i..], dep.group, dep.name, dep.oldVersion) == Some(n)
    requires dep.version == dep.oldVersion && LiteralFields(dep) && '$' !in InlineTemplate(dep)
    ensures i + n <= |s| && ReplaceInlineFrom(s, i, dep) == s[i..i + n] + ReplaceInlineFrom(s, i + n, dep)
  {
    InlineStep(s, i, dep, n);
    InlineTextAt(s, i, dep, n);
  }

  /** A position without a coordinate is copied. */
  lemma InlineNoStep(s: String, i: nat, dep: Dependency)
    requires i < |s| && InlineAt(s[i..], dep.group, dep.name, dep.oldVersion).None?
    ensures ReplaceInlineFrom(s, i, dep) == [s[i]] + ReplaceInlineFrom(s, i + 1, dep)
  {
  }

  /** The inline form leaves a text without the coordinate as it is. */
  lemma InlineStageSameVersion(body: String, dep: Dependency)
    requires dep.version == dep.oldVersion && LiteralFields(dep) && '$' !in InlineTemplate(dep)
    ensures InlineStage(body, dep) == body
  {
    InlineSameVersion(body, 0, dep);
  }

  /** The coordinate the inline form looks for, spelled out. */
  function Coordinate(dep: Dependency): String {
    dep.group + ":" + dep.name + ":" + dep.oldVersion
  }

  /**
    * An independent account of the global replacement: the texts between
    * the coordinates the pattern finds from `i` on, from left to right, each
    * search going on after the coordinate found before.
    */
  function InlineGaps(s: String, i: nat, dep: Dependency): (r: seq<String>)
    requires i <= |s|
    ensures |r| > 0
    decreases |s| - i
  {
    match FindInlineFrom(s, dep.group, dep.name, dep.oldVersion, i)
    case None => [s[i..]]
    case Some((p, n)) => [s[i..p]] + InlineGaps(s, p + n, dep)
  }

  /** Around the first coordinate from `i` on, found at `p`: the text before it, the template, the rest. */
  lemma InlineGapStep(s: String, i: nat, dep: Dependency, p: nat, n: nat)
    requires i <= p < |s| && InlineAt(s[p..], dep.group, dep.name, dep.oldVersion) == Some(n)
    requires forall j {:trigger InlineAt(s[j..], dep.group, dep.name, dep.oldVersion)} :: i <= j < p ==> InlineAt(s[j..], dep.group, dep.name, dep.oldVersion).None?
    requires '$' !in InlineTemplate(dep)
    ensures p + n <= |s|
    ensures ReplaceInlineFrom(s, i, dep) == s[i..p] + InlineTemplate(dep) + ReplaceInlineFrom(s, p + n, dep)
  {
    InlineSkip(s, i, p, dep);
    InlineStep(s, p, dep, n);
    AppendAssoc(s[i..p], InlineTemplate(dep), ReplaceInlineFrom(s, p + n, dep));
  }

  /** Without a coordinate from `i` on, the rest of the text is one gap, copied as it is. */
  lemma InlineFromNone(s: String, i: nat, dep: Dependency)
    requires i <= |s| && FindInlineFrom(s, dep.group, dep.name, dep.oldVersion, i).None?
    ensures ReplaceInlineFrom(s, i, dep) == s[i..] && InlineGaps(s, i, dep) == [s[i..]]
  {
    InlineUnmatched(s, i, dep);
  }

  /** The first coordinate from `i` on, found at `p`, is replaced by the template. */
  lemma InlineFromSome(s: String, i: nat, dep: Dependency, p: nat, n: nat)
    requires i <= |s| && FindInlineFrom(s, dep.group, dep.name, dep.oldVersion, i) == Some((p, n))
    requires '$' !in InlineTemplate(dep)
    ensures i <= p && p + n <= |s| && i < p + n
    ensures ReplaceInlineFrom(s, i, dep) == s[i..p] + InlineTemplate(dep) + ReplaceInlineFrom(s, p + n, dep)
  {
    InlineGapStep(s, i, dep, p, n);
  }

  /** The first gap from `i` on ends at the first coordinate, found at `p`. */
  lemma InlineGapsSome(s: String, i: nat, dep: Dependency, p: nat, n: nat)
    requires i <= |s| && FindInlineFrom(s, dep.group, dep.name, dep.oldVersion, i) == Some((p, n))
    ensures i <= p && p + n <= |s| && i < p + n
    ensures InlineGaps(s, i, dep) == [s[i..p]] + InlineGaps(s, p + n, dep)
  {
  }

  /** The replacement from `i` on is the gaps from `i` on joined by the template. */
  lemma {:induction false} InlineFromGaps(s: String, i: nat, dep: Dependency)
    requires i <= |s| && '$' !in InlineTemplate(dep)
    ensures ReplaceInlineFrom(s, i, dep) == Join(InlineGaps(s, i, dep), InlineTemplate(dep))
    decreases |s| - i
  {
    var found := FindInlineFrom(s, dep.group, dep.name, dep.oldVersion, i);
    if found.None? {
      InlineFromNone(s, i, dep);
    } else {
      var p, n := found.value.0, found.value.1;
      InlineFromSome(s, i, dep, p, n);
      InlineGapsSome(s, i, dep, p, n);
      InlineFromGaps(s, p + n, dep);
      JoinCons(s[i..p], InlineGaps(s, p + n, dep), InlineTemplate(dep));
    }
  }

  /**
    * The inline form replaces every coordinate the pattern finds, from left
    * to right, by the template (taken verbatim when it holds no `$`), and
    * keeps the text between them.
    */
  lemma InlineStageJoin(body: String, dep: Dependency)
    requires '$' !in InlineTemplate(dep)
    ensures InlineStage(body, dep) == Join(InlineGaps(body, 0, dep), InlineTemplate(dep))
  {
    InlineFromGaps(body, 0, dep);
    assert body[0..] == body;
  }

  /** With fields read literally, the pattern matches exactly where the coordinate is spelled out. */
  lemma InlineAtCoordinate(u: String, dep: Dependency)
    requires LiteralFields(dep)
    ensures InlineAt(u, dep.group, dep.name, dep.oldVersion).Some? <==> OccursAt(u, Coordinate(dep), 0)
    ensures InlineAt(u, dep.group, dep.name, dep.oldVersion).Some? ==>
      InlineAt(u, dep.group, dep.name, dep.oldVersion).value == |Coordinate(dep)|
  {
    var c := Coordinate(dep);
    var g := |dep.group|;
    var k := g + 1 + |dep.name|;
    if InlineAt(u, dep.group, dep.name, dep.oldVersion).Some? {
      var n := InlineAt(u, dep.group, dep.name, dep.oldVersion).value;
      InlineText(u, dep, n);
      assert forall j :: 0 <= j < n ==> u[j] == u[..n][j];
    }
    if OccursAt(u, c, 0) {
      assert u[..|c|] == c;
      assert u[0..g] == c[0..g] == dep.group;
      assert u[g + 1..k] == c[g + 1..k] == dep.name;
      assert u[k + 1..|c|] == c[k + 1..] == dep.oldVersion;
      assert u[g] == c[g] && u[k] == c[k];
      FieldMatchesLiteral(u[0..g], dep.group);
      FieldMatchesLiteral(u[g + 1..k], dep.name);
      FieldMatchesLiteral(u[k + 1..|c|], dep.oldVersion);
    }
  }

  /** An occurrence in a suffix is an occurrence in the whole text, shifted. */
  lemma OccursShift(s: String, c: String, i: nat, k: nat)
    requires i <= |s|
    ensures OccursAt(s[i..], c, k) <==> OccursAt(s, c, i + k)
  {
  }

  /** With fields read literally, the pattern matches at `i + j` exactly where the coordinate occurs at `j` in the rest from `i`. */
  lemma CoordinateShift(s: String, i: nat, j: nat, dep: Dependency)
    requires i + j <= |s| && LiteralFields(dep)
    ensures OccursAt(s[i..], Coordinate(dep), j) <==> InlineAt(s[i + j..], dep.group, dep.name, dep.oldVersion).Some?
    ensures InlineAt(s[i + j..], dep.group, dep.name, dep.oldVersion).Some? ==>
      InlineAt(s[i + j..], dep.group, dep.name, dep.oldVersion).value == |Coordinate(dep)|
  {
    InlineAtCoordinate(s[i + j..], dep);
    OccursShift(s, Coordinate(dep), i, j);
    OccursShift(s, Coordinate(dep), i + j, 0);
  }

  /** With fields read literally, no coordinate from `i` on means no occurrence of it in the rest of the text. */
  lemma CoordinateNowhere(s: String, i: nat, dep: Dependency)
    requires i <= |s| && LiteralFields(dep)
    requires forall j {:trigger InlineAt(s[j..], dep.group, dep.name, dep.oldVersion)} :: i <= j <= |s| ==> InlineAt(s[j..], dep.group, dep.name, dep.oldVersion).None?
    ensures IndexOf(s[i..], Coordinate(dep)).None?
  {
    forall j | 0 <= j <= |s| - i ensures !OccursAt(s[i..], Coordinate(dep), j) {
      CoordinateShift(s, i, j, dep);
    }
  }

  /** With fields read literally, the first coordinate from `i` on is the first occurrence of it in the rest of the text. */
  lemma CoordinateFirst(s: String, i: nat, dep: Dependency, p: nat, n: nat)
    requires i <= p <= |s| && LiteralFields(dep)
    requires InlineAt(s[p..], dep.group, dep.name, dep.oldVersion) == Some(n)
    requires forall j {:trigger InlineAt(s[j..], dep.group, dep.name, dep.oldVersion)} :: i <= j < p ==> InlineAt(s[j..], dep.group, dep.name, dep.oldVersion).None?
    ensures n == |Coordinate(dep)| && IndexOf(s[i..], Coordinate(dep)) == Some(p - i)
  {
    forall j | 0 <= j < p - i ensures !OccursAt(s[i..], Coordinate(dep), j) {
      CoordinateShift(s, i, j, dep);
    }
    CoordinateShift(s, i, p - i, dep);
    IncludesOccurs(s[i..], Coordinate(dep), p - i);
  }

  /** Splitting at the first occurrence, at `r`, gives the text before it and the pieces of the text after it. */
  lemma SplitFirst(u: String, c: String, r: nat, before: String, after: String)
    requires |c| > 0 && IndexOf(u, c) == Some(r) && r + |c| <= |u|
    requires before == u[..r] && after == u[r + |c|..]
    ensures Split(u, c) == [before] + Split(after, c)
  {
  }

  /** The slices of the rest from `i` are slices of the whole text. */
  lemma SuffixSlices(s: String, i: nat, p: nat, n: nat)
    requires i <= p && p + n <= |s|
    ensures s[i..][..p - i] == s[i..p] && s[i..][p - i + n..] == s[p + n..]
  {
  }

  /** Splitting the rest from `i` at its first occurrence of `c`, at `p`. */
  lemma SplitSuffix(s: String, i: nat, c: String, p: nat, n: nat)
    requires i <= p <= |s| && n == |c| > 0 && IndexOf(s[i..], c) == Some(p - i)
    ensures p + n <= |s| && Split(s[i..], c) == [s[i..p]] + Split(s[p + n..], c)
  {
    assert OccursAt(s[i..], c, p - i);
    SuffixSlices(s, i, p, n);
    SplitFirst(s[i..], c, p - i, s[i..p], s[p + n..]);
  }

  /** Without a coordinate from `i` on, the rest is one gap and one piece. */
  lemma GapsLiteralNone(s: String, i: nat, dep: Dependency)
    requires i <= |s| && LiteralFields(dep)
    requires FindInlineFrom(s, dep.group, dep.name, dep.oldVersion, i).None?
    ensures InlineGaps(s, i, dep) == Split(s[i..], Coordinate(dep)) == [s[i..]]
  {
    CoordinateNowhere(s, i, dep);
  }

  /**
    * The first coordinate from `i` on ends both the first gap and the first
    * piece, so the gaps and the pieces agree when they agree after it.
    */
  lemma GapsLiteralSome(s: String, i: nat, dep: Dependency, p: nat, n: nat)
    requires i <= |s| && LiteralFields(dep)
    requires FindInlineFrom(s, dep.group, dep.name, dep.oldVersion, i) == Some((p, n))
    requires p + n <= |s| && InlineGaps(s, p + n, dep) == Split(s[p + n..], Coordinate(dep))
    ensures InlineGaps(s, i, dep) == Split(s[i..], Coordinate(dep))
  {
    CoordinateFirst(s, i, dep, p, n);
    InlineGapsSome(s, i, dep, p, n);
    SplitSuffix(s, i, Coordinate(dep), p, n);
  }

  /** With fields read literally, the gaps from `i` on are the pieces of the rest of the text split at the coordinate. */
  lemma {:induction false} InlineGapsLiteral(s: String, i: nat, dep: Dependency)
    requires i <= |s| && LiteralFields(dep)
    ensures InlineGaps(s, i, dep) == Split(s[i..], Coordinate(dep))
    decreases |s| - i
  {
    var found := FindInlineFrom(s, dep.group, dep.name, dep.oldVersion, i);
    if found.None? {
      GapsLiteralNone(s, i, dep);
    } else {
      var p, n := found.value.0, found.value.1;
      InlineGapsLiteral(s, p + n, dep);
      GapsLiteralSome(s, i, dep, p, n);
    }
  }

  /**
    * With fields read literally and a template without `$`, the inline form
    * splits the text at every occurrence of the coordinate and joins the
    * pieces with the new coordinate: joined with the old coordinate they give
    * the text back, and none of them holds it.
    */
  lemma InlineStageSplit(body: String, dep: Dependency)
    requires LiteralFields(dep) && '$' !in InlineTemplate(dep)
    ensures InlineStage(body, dep) == Join(Split(body, Coordinate(dep)), InlineTemplate(dep))
    ensures Join(Split(body, Coordinate(dep)), Coordinate(dep)) == body
    ensures forall k :: 0 <= k < |Split(body, Coordinate(dep))| ==> !Includes(Split(body, Coordinate(dep))[k], Coordinate(dep))
  {
    InlineStageJoin(body, dep);
    InlineGapsLiteral(body, 0, dep);
    assert body[0..] == body;
    SplitJoin(body, Coordinate(dep));
    SplitPieces(body, Coordinate(dep));
  }
}
