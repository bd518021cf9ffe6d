/** The two goal histories of a trip and how one identified bird advances
    them. Only the last entry of each history is live; every earlier entry is
    history that an upload never touches. */
module GoalLedger {
  import opened Records
  import Catalog

  /** A specific goal's level, and so the rarity tier of its bird, stops at 3. */
  const SpecificLevelCap := 3
  /** A count goal's level stops at 5. */
  const CountLevelCap := 5
  /** A count goal of level L asks for L * 3 birds. */
  const BirdsPerLevel := 3

  function Last<T>(s: seq<T>): T
    requires |s| > 0
  {
    s[|s| - 1]
  }

  /** `s` with its live (last) entry replaced by `x`. */
  function ReplaceLast<T>(s: seq<T>, x: T): (r: seq<T>)
    requires |s| > 0
    ensures |r| == |s| && r[..|s| - 1] == s[..|s| - 1] && Last(r) == x
  {
    s[..|s| - 1] + [x]
  }

  /** Assigning to the last element in place is `ReplaceLast`. */
  lemma UpdateLastIsReplaceLast<T>(s: seq<T>, x: T)
    requires |s| > 0
    ensures s[|s| - 1 := x] == ReplaceLast(s, x)
  {
    forall i | 0 <= i < |s| ensures s[|s| - 1 := x][i] == ReplaceLast(s, x)[i] {
      if i < |s| - 1 {
        assert ReplaceLast(s, x)[i] == ReplaceLast(s, x)[..|s| - 1][i];
      }
    }
  }

  /** One level up, but never past the cap of 3. */
  function NextSpecificLevel(level: int): (r: int)
    ensures r <= level + 1 && r <= SpecificLevelCap
    ensures r == level + 1 || r == SpecificLevelCap
  {
    if level + 1 < SpecificLevelCap then level + 1 else SpecificLevelCap
  }

  /** One level up, but never past the cap of 5. */
  function NextCountLevel(level: int): (r: int)
    ensures r <= level + 1 && r <= CountLevelCap
    ensures r == level + 1 || r == CountLevelCap
  {
    if level + 1 < CountLevelCap then level + 1 else CountLevelCap
  }

  /** The goal pushed after a specific goal succeeds; `status` takes the
      schema default. */
  function NewSpecificGoal(b: Bird, level: int): SpecificGoal {
    SpecificGoal(b.id, b.name, if |b.images| > 0 then Some(b.images[0]) else None, level, InProgress)
  }

  /** The goal pushed after a count goal succeeds; `birdsFound` and `status`
      take the schema defaults. */
  function NewCountGoal(level: int): CountGoal {
    CountGoal(level * BirdsPerLevel, level, 0, InProgress)
  }

  /** The identified bird is the live specific goal's bird. */
  predicate Matches(goals: seq<SpecificGoal>, identified: BirdId) {
    |goals| > 0 && Last(goals).birdId == identified
  }

  /** One upload applied to `birdSpecificGoals`. On a match the live goal
      succeeds and a goal for a bird of the next tier is appended; when that
      tier has no bird the handler throws, which is an error here. */
  function AdvanceSpecific(goals: seq<SpecificGoal>, identified: BirdId, catalog: seq<Bird>, pick: nat)
    : (r: Result<seq<SpecificGoal>, UploadError>)
    ensures !Matches(goals, identified) ==> r == Ok(goals)
    ensures Matches(goals, identified) ==>
      var level := NextSpecificLevel(Last(goals).level);
      (r.Err? <==> forall b :: b in catalog ==> b.rarity != level)
      && (r.Err? ==> r.error == NoBirdAtRarity(level))
    ensures Matches(goals, identified) && r.Ok? ==>
      var n := |goals|;
      |r.value| == n + 1
      && r.value[..n - 1] == goals[..n - 1]
      && r.value[n - 1] == goals[n - 1].(status := Success)
      && r.value[n].level == NextSpecificLevel(goals[n - 1].level)
      && r.value[n].status == InProgress
      && exists b :: b in catalog && b.rarity == r.value[n].level
                     && r.value[n].birdId == b.id && r.value[n].birdName == b.name
                     && r.value[n].image == (if |b.images| > 0 then Some(b.images[0]) else None)
  {
    if !Matches(goals, identified) then Ok(goals)
    else
      var n := |goals|;
      var level := NextSpecificLevel(goals[n - 1].level);
      match Catalog.SampleByRarity(catalog, level, pick)
      case None => Err(NoBirdAtRarity(level))
      case Some(b) => Ok(ReplaceLast(goals, goals[n - 1].(status := Success)) + [NewSpecificGoal(b, level)])
  }

  /** The live count goal reaches its target with this upload. */
  predicate ReachesTarget(c: CountGoal) {
    c.birdsFound + 1 >= c.level * BirdsPerLevel
  }

  /** One upload applied to `birdCountGoals`: every upload counts, whatever
      the bird, and reaching `level * 3` appends the next level's goal. */
  function AdvanceCount(goals: seq<CountGoal>): (r: seq<CountGoal>)
    ensures |goals| == 0 ==> r == goals
    ensures |goals| > 0 ==>
      var n := |goals|;
      var c := goals[n - 1];
      |r| == (if ReachesTarget(c) then n + 1 else n)
      && r[..n - 1] == goals[..n - 1]
      && r[n - 1].birdsFound == c.birdsFound + 1
      && r[n - 1].level == c.level && r[n - 1].count == c.count
      && r[n - 1].status == (if ReachesTarget(c) then Success else c.status)
      && (ReachesTarget(c) ==>
            r[n].level == NextCountLevel(c.level)
            && r[n].count == r[n].level * BirdsPerLevel
            && r[n].birdsFound == 0 && r[n].status == InProgress)
  {
    if |goals| == 0 then goals
    else
      var n := |goals|;
      var c := goals[n - 1].(birdsFound := goals[n - 1].birdsFound + 1);
      if c.birdsFound >= c.level * BirdsPerLevel then
        ReplaceLast(goals, c.(status := Success)) + [NewCountGoal(NextCountLevel(c.level))]
      else
        ReplaceLast(goals, c)
  }

  lemma ReplaceLastTwice<T>(s: seq<T>, x: T, y: T)
    requires |s| > 0
    ensures ReplaceLast(ReplaceLast(s, x), y) == ReplaceLast(s, y)
  {
    assert ReplaceLast(s, x)[..|s| - 1] == s[..|s| - 1];
  }

  /** One upload short of the target: the live goal only counts. */
  lemma CountsBelowTarget(goals: seq<CountGoal>)
    requires |goals| > 0 && !ReachesTarget(Last(goals))
    ensures AdvanceCount(goals) == ReplaceLast(goals, Last(goals).(birdsFound := Last(goals).birdsFound + 1))
  {
  }

  /** The upload that reaches the target closes the live goal and opens the next. */
  lemma CountsToTarget(goals: seq<CountGoal>)
    requires |goals| > 0 && ReachesTarget(Last(goals))
    ensures AdvanceCount(goals) ==
              ReplaceLast(goals, Last(goals).(birdsFound := Last(goals).birdsFound + 1, status := Success))
              + [NewCountGoal(NextCountLevel(Last(goals).level))]
  {
  }

  /** No entry's count of found birds ever goes down. */
  lemma AdvanceCountNeverLowersCounts(goals: seq<CountGoal>, i: nat)
    requires i < |goals|
    ensures i < |AdvanceCount(goals)| && goals[i].birdsFound <= AdvanceCount(goals)[i].birdsFound
  {
    var r := AdvanceCount(goals);
    var n := |goals|;
    if i < n - 1 {
      assert r[i] == r[..n - 1][i];
    }
  }

  // ---------------------------------------------------------------------
  // Invariants of the goal histories

  /** Every specific goal's level lies in 1..3. */
  ghost predicate SpecificLevelsCapped(goals: seq<SpecificGoal>) {
    forall i :: 0 <= i < |goals| ==> 1 <= goals[i].level <= SpecificLevelCap
  }

  /** Every count goal's level lies in 1..5. */
  ghost predicate CountLevelsCapped(goals: seq<CountGoal>) {
    forall i :: 0 <= i < |goals| ==> 1 <= goals[i].level <= CountLevelCap
  }

  /** The specific-goal levels stay within their cap, whatever else the
      history holds. */
  lemma AdvanceSpecificKeepsCaps(goals: seq<SpecificGoal>, identified: BirdId, catalog: seq<Bird>, pick: nat)
    requires SpecificLevelsCapped(goals)
    ensures AdvanceSpecific(goals, identified, catalog, pick).Ok? ==>
              SpecificLevelsCapped(AdvanceSpecific(goals, identified, catalog, pick).value)
  {
    var r := AdvanceSpecific(goals, identified, catalog, pick);
    if Matches(goals, identified) && r.Ok? {
      var n := |goals|;
      forall i | 0 <= i < |r.value| ensures 1 <= r.value[i].level <= SpecificLevelCap {
        if i < n - 1 {
          assert r.value[i] == r.value[..n - 1][i];
        }
      }
    }
  }

  /** The count-goal levels stay within their cap, whatever else the
      history holds. */
  lemma AdvanceCountKeepsCaps(goals: seq<CountGoal>)
    requires CountLevelsCapped(goals)
    ensures CountLevelsCapped(AdvanceCount(goals))
  {
    var r := AdvanceCount(goals);
    var n := |goals|;
    if n > 0 {
      forall i | 0 <= i < |r| ensures 1 <= r[i].level <= CountLevelCap {
        if i < n - 1 {
          assert r[i] == r[..n - 1][i];
        }
      }
    }
  }

  /** Levels within 1..3; every entry before the live one has succeeded. */
  ghost predicate SpecificGoalsValid(goals: seq<SpecificGoal>) {
    && (forall i :: 0 <= i < |goals| ==> 1 <= goals[i].level <= SpecificLevelCap)
    && (forall i :: 0 <= i < |goals| - 1 ==> goals[i].status == Success)
  }

  /** Levels within 1..5 with target `level * 3`; every earlier entry has
      succeeded with exactly its target found; the live entry is in progress
      and short of its target. */
  ghost predicate CountGoalsValid(goals: seq<CountGoal>) {
    && (forall i :: 0 <= i < |goals| ==>
          1 <= goals[i].level <= CountLevelCap && goals[i].count == goals[i].level * BirdsPerLevel)
    && (forall i :: 0 <= i < |goals| - 1 ==>
          goals[i].status == Success && goals[i].birdsFound == goals[i].count)
    && (|goals| > 0 ==> Last(goals).status == InProgress && 0 <= Last(goals).birdsFound < Last(goals).count)
  }

  lemma AdvanceSpecificKeepsValid(goals: seq<SpecificGoal>, identified: BirdId, catalog: seq<Bird>, pick: nat)
    requires SpecificGoalsValid(goals)
    ensures AdvanceSpecific(goals, identified, catalog, pick).Ok? ==>
              SpecificGoalsValid(AdvanceSpecific(goals, identified, catalog, pick).value)
  {
    var r := AdvanceSpecific(goals, identified, catalog, pick);
    if Matches(goals, identified) && r.Ok? {
      var n := |goals|;
      forall i | 0 <= i < |r.value| ensures 1 <= r.value[i].level <= SpecificLevelCap {
        if i < n - 1 {
          assert r.value[i] == r.value[..n - 1][i];
        }
      }
      forall i | 0 <= i < |r.value| - 1 ensures r.value[i].status == Success {
        if i < n - 1 {
          assert r.value[i] == r.value[..n - 1][i];
        }
      }
    }
  }

  lemma AdvanceCountKeepsValid(goals: seq<CountGoal>)
    requires CountGoalsValid(goals)
    ensures CountGoalsValid(AdvanceCount(goals))
  {
    var r := AdvanceCount(goals);
    var n := |goals|;
    if n > 0 {
      forall i | 0 <= i < n - 1 ensures r[i] == goals[i] {
        assert r[i] == r[..n - 1][i];
      }
    }
  }

  // ---------------------------------------------------------------------
  // Counting sightings over many uploads

  /** All birds counted in a count-goal history. */
  function TotalFound(goals: seq<CountGoal>): int {
    if goals == [] then 0 else TotalFound(goals[..|goals| - 1]) + Last(goals).birdsFound
  }

  /** The count-goal history after `k` successive uploads. */
  function CountAfter(goals: seq<CountGoal>, k: nat): seq<CountGoal> {
    if k == 0 then goals else AdvanceCount(CountAfter(goals, k - 1))
  }

  lemma TotalFoundSnoc(goals: seq<CountGoal>, c: CountGoal)
    ensures TotalFound(goals + [c]) == TotalFound(goals) + c.birdsFound
  {
    var s := goals + [c];
    assert s[..|s| - 1] == goals;
  }

  lemma TotalFoundReplaceLast(goals: seq<CountGoal>, c: CountGoal)
    requires |goals| > 0
    ensures TotalFound(ReplaceLast(goals, c)) == TotalFound(goals) - Last(goals).birdsFound + c.birdsFound
  {
    var r := ReplaceLast(goals, c);
    assert r[..|r| - 1] == goals[..|goals| - 1];
  }

  /** Each upload adds exactly one sighting to the count history, whether or
      not it levels up: nothing counted is ever lost. */
  lemma AdvanceCountAddsOne(goals: seq<CountGoal>)
    requires |goals| > 0
    ensures TotalFound(AdvanceCount(goals)) == TotalFound(goals) + 1
  {
    var g := Last(goals);
    if ReachesTarget(g) {
      var done := g.(birdsFound := g.birdsFound + 1, status := Success);
      CountsToTarget(goals);
      TotalFoundSnoc(ReplaceLast(goals, done), NewCountGoal(NextCountLevel(g.level)));
      TotalFoundReplaceLast(goals, done);
    } else {
      CountsBelowTarget(goals);
      TotalFoundReplaceLast(goals, g.(birdsFound := g.birdsFound + 1));
    }
  }

  /** `k` serialized uploads add exactly `k` sightings. */
  lemma {:induction false} UploadsAddUp(goals: seq<CountGoal>, k: nat)
    requires |goals| > 0
    ensures |CountAfter(goals, k)| >= |goals|
    ensures TotalFound(CountAfter(goals, k)) == TotalFound(goals) + k
  {
    if k > 0 {
      UploadsAddUp(goals, k - 1);
      AdvanceCountAddsOne(CountAfter(goals, k - 1));
    }
  }

  /** Until its target is reached the live count goal only counts up. */
  lemma {:induction false} CountingUpToTarget(goals: seq<CountGoal>, k: nat)
    requires |goals| > 0 && Last(goals).count == Last(goals).level * BirdsPerLevel
    requires Last(goals).birdsFound + k < Last(goals).count
    ensures CountAfter(goals, k) == ReplaceLast(goals, Last(goals).(birdsFound := Last(goals).birdsFound + k))
  {
    if k > 0 {
      var g := Last(goals);
      var before := ReplaceLast(goals, g.(birdsFound := g.birdsFound + k - 1));
      CountingUpToTarget(goals, k - 1);
      assert CountAfter(goals, k) == AdvanceCount(before);
      CountsBelowTarget(before);
      ReplaceLastTwice(goals, g.(birdsFound := g.birdsFound + k - 1), g.(birdsFound := g.birdsFound + k));
    }
  }

  /** A live count goal succeeds on exactly the upload that brings it to its
      target, `k` uploads after a point where `k` birds were still missing,
      and the next level's goal follows it. */
  lemma TargetReached(goals: seq<CountGoal>, k: nat)
    requires |goals| > 0 && Last(goals).count == Last(goals).level * BirdsPerLevel
    requires 0 < k && Last(goals).birdsFound + k == Last(goals).count
    ensures CountAfter(goals, k) ==
              ReplaceLast(goals, Last(goals).(birdsFound := Last(goals).count, status := Success))
              + [NewCountGoal(NextCountLevel(Last(goals).level))]
  {
    var g := Last(goals);
    var almost := g.(birdsFound := g.birdsFound + (k - 1));
    var done := g.(birdsFound := g.count, status := Success);
    CountingUpToTarget(goals, k - 1);
    assert CountAfter(goals, k - 1) == ReplaceLast(goals, almost);
    assert CountAfter(goals, k) == AdvanceCount(ReplaceLast(goals, almost));
    CountsToTarget(ReplaceLast(goals, almost));
    assert almost.(birdsFound := almost.birdsFound + 1, status := Success) == done;
    ReplaceLastTwice(goals, almost, done);
  }
}
