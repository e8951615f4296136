/**
 * The coverage model: the six evaluation categories the interviewer tracks,
 * the map a new session starts from, and the test that enough of them have
 * been covered to stop asking questions.
 */
module Coverage {
  import opened Common
  import opened JsonText

  /** The categories tracked per session, in the order they are tallied. */
  const TargetCategories: seq<string> := [
    "communication_clarity",
    "motivation_purpose",
    "self_awareness_reflection",
    "academic_program_fit",
    "leadership_initiative",
    "integrity_professionalism"
  ]

  /** How many categories must be covered before the interview may stop. */
  const SufficientCount: nat := 5

  /** The record every category starts from: not covered, no evidence. */
  const UncoveredEntry: Json := JObject(map["covered" := JBool(false), "evidence_count" := JInt(0)])

  /** No name occurs twice in `cats`. */
  predicate Distinct(cats: seq<string>) {
    forall i, j :: 0 <= i < j < |cats| ==> cats[i] != cats[j]
  }

  /** The names of `cats`, as a set. */
  function NameSet(cats: seq<string>): set<string> {
    set k | k in cats
  }

  /** A list of distinct names has as many names as its set has elements. */
  lemma {:induction false} DistinctNameSetSize(cats: seq<string>)
    requires Distinct(cats)
    ensures |NameSet(cats)| == |cats|
    decreases |cats|
  {
    if cats != [] {
      assert Distinct(cats[1..]) by {
        forall i, j | 0 <= i < j < |cats| - 1 ensures cats[1..][i] != cats[1..][j] {
          assert cats[1..][i] == cats[i + 1] && cats[1..][j] == cats[j + 1];
        }
      }
      DistinctNameSetSize(cats[1..]);
      assert cats[0] !in cats[1..];
      assert NameSet(cats) == {cats[0]} + NameSet(cats[1..]);
    }
  }

  /** `default_coverage`: exactly the target categories, each uncovered with no evidence. */
  function DefaultCoverage(): (c: Json)
    ensures c.JObject?
    ensures forall k :: k in c.fields <==> k in TargetCategories
    ensures forall k :: k in c.fields ==> c.fields[k] == UncoveredEntry
  {
    JObject(map k | k in TargetCategories :: UncoveredEntry)
  }

  /** The target names are six distinct categories (their first letters already differ), so the default map has six entries. */
  lemma DefaultCoverageHasSixEntries()
    ensures Distinct(TargetCategories)
    ensures |DefaultCoverage().fields| == 6
  {
    var cats := TargetCategories;
    var heads := "cmsali";
    assert forall i :: 0 <= i < |cats| ==> |cats[i]| > 0 && cats[i][0] == heads[i];
    forall i, j | 0 <= i < j < |cats| ensures cats[i] != cats[j] {
      assert heads[i] != heads[j];
    }
    DistinctNameSetSize(cats);
    assert DefaultCoverage().fields.Keys == NameSet(cats);
  }

  /** Category `k`'s entry is an object whose `covered` is the boolean `true` (the `is True` test). */
  predicate IsCovered(fields: map<string, Json>, k: string) {
    k in fields && fields[k].JObject? && "covered" in fields[k].fields && fields[k].fields["covered"] == JBool(true)
  }

  /** `.get("covered")` can be asked of category `k`: it is absent (read as `{}`) or an object. */
  predicate Readable(fields: map<string, Json>, k: string) {
    k !in fields || fields[k].JObject?
  }

  /** The names of `cats` whose entry counts as covered. */
  function CoveredIn(fields: map<string, Json>, cats: seq<string>): set<string> {
    set k | k in cats && IsCovered(fields, k)
  }

  /** The target categories whose entry counts as covered. */
  function CoveredCategories(fields: map<string, Json>): set<string> {
    CoveredIn(fields, TargetCategories)
  }

  /** Peeling the first of distinct names off the list removes exactly its own contribution to the covered set. */
  lemma CoveredInCons(fields: map<string, Json>, cats: seq<string>)
    requires cats != [] && Distinct(cats)
    ensures Distinct(cats[1..])
    ensures |CoveredIn(fields, cats)| == (if IsCovered(fields, cats[0]) then 1 else 0) + |CoveredIn(fields, cats[1..])|
  {
    var tail := cats[1..];
    forall i, j | 0 <= i < j < |tail| ensures tail[i] != tail[j] {
      assert tail[i] == cats[i + 1] && tail[j] == cats[j + 1];
    }
    assert cats[0] !in tail;
    var head: set<string> := if IsCovered(fields, cats[0]) then {cats[0]} else {};
    forall k ensures k in CoveredIn(fields, cats) <==> k in CoveredIn(fields, tail) + head {
      assert k in cats <==> k == cats[0] || k in tail by {
        assert cats == [cats[0]] + tail;
      }
    }
    assert CoveredIn(fields, cats) == CoveredIn(fields, tail) + head;
    assert CoveredIn(fields, tail) !! head;
  }

  /**
   * The generator summed in `enough_coverage`: one for each name of `cats`
   * whose entry is covered; `None` when some entry cannot be asked for
   * `covered`, which makes the sum raise.
   */
  function TallyCovered(fields: map<string, Json>, cats: seq<string>): (r: Option<nat>)
    ensures r.None? <==> exists i :: 0 <= i < |cats| && !Readable(fields, cats[i])
    ensures r.Some? && Distinct(cats) ==> r.value == |CoveredIn(fields, cats)|
    decreases |cats|
  {
    if cats == [] then
      assert CoveredIn(fields, cats) == {};
      Some(0)
    else if !Readable(fields, cats[0]) then None
    else
      var rest := TallyCovered(fields, cats[1..]);
      assert forall i :: 1 <= i < |cats| ==> cats[i] == cats[1..][i - 1];
      if rest.None? then None
      else
        var here: nat := if IsCovered(fields, cats[0]) then 1 else 0;
        if Distinct(cats) then
          CoveredInCons(fields, cats);
          Some(here + rest.value)
        else
          Some(here + rest.value)
  }

  /**
   * `enough_coverage`: defined exactly when the coverage is an object whose
   * target entries are all readable (otherwise the call raises); then
   * whether the tally of covered targets reaches `SufficientCount`, which
   * `EnoughCoverageMeaning` states as a count of categories.
   */
  function EnoughCoverage(coverage: Json): (r: Option<bool>)
    ensures r.None? <==> !coverage.JObject? || exists k :: k in TargetCategories && !Readable(coverage.fields, k)
  {
    if !coverage.JObject? then None
    else
      var tally := TallyCovered(coverage.fields, TargetCategories);
      if tally.None? then None else Some(tally.value >= SufficientCount)
  }

  /**
   * When `enough_coverage` answers, it says whether at least
   * `SufficientCount` of the target categories are covered; keys outside the
   * target set and `covered` values other than `true` do not count.
   */
  lemma EnoughCoverageMeaning(coverage: Json)
    requires EnoughCoverage(coverage).Some?
    ensures EnoughCoverage(coverage).value <==> |CoveredCategories(coverage.fields)| >= SufficientCount
  {
    DefaultCoverageHasSixEntries();
  }

  /** A session's starting coverage never ends the interview. */
  lemma DefaultCoverageIsInsufficient()
    ensures EnoughCoverage(DefaultCoverage()) == Some(false)
  {
    var fields := DefaultCoverage().fields;
    assert forall k :: k in TargetCategories ==> Readable(fields, k);
    assert CoveredCategories(fields) == {};
    EnoughCoverageMeaning(DefaultCoverage());
  }
}
