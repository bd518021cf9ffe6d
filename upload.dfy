/** The `/upload` handler: it checks the file and the user's active trip,
    advances the trip's goals for the identified bird, records the image on
    the trip and adds the bird to the user's collection.

    `Ingest` states the whole step on values; `Upload` performs it on the
    `Trip` and `User` objects and is proved to agree with `Ingest`. */
module Upload {
  import opened Records
  import FileFilter
  import GoalLedger
  import Collection
  import Catalog

  /** The uploaded file as the handler sees it, already stored under `key`. */
  datatype UploadedFile = UploadedFile(mimetype: string, key: string)

  /** What the request carries: the file (if any), the parsed location and
      the raw timestamp field. */
  datatype Request = Request(file: Option<UploadedFile>, location: Option<string>, timestamp: Option<string>)

  /** What the handler takes from outside the program: the identified bird,
      the random draw of a bird of the new tier, the id given to the
      new Image document, and the current time. */
  datatype Draw = Draw(identified: BirdId, tierPick: nat, imageId: ImageId, now: string)

  /** The part of a trip the handler reads and writes. */
  datatype TripState = TripState(
    isEdugaming: bool,
    specificGoals: seq<SpecificGoal>,
    countGoals: seq<CountGoal>,
    images: seq<ImageId>)

  /** The answer to one request, with the trip and the user's birds afterwards. */
  datatype Outcome = Outcome(result: Result<ImageRecord, UploadError>, trip: Option<TripState>, myBirds: seq<BirdId>)

  /** The image's timestamp: the request's, or the current time when the
      field is missing or empty. */
  function RecordedTimestamp(requested: Option<string>, now: string): (t: string)
    ensures t == now || (requested.Some? && t == requested.value)
    ensures requested.Some? && requested.value != "" ==> t == requested.value
    ensures t == now <== requested.None? || requested.value == ""
    ensures t != "" <== now != ""
  {
    if requested.Some? && requested.value != "" then requested.value else now
  }

  predicate FileAccepted(req: Request) {
    req.file.Some? && FileFilter.AcceptsFile(req.file.value.mimetype)
  }

  /** One upload on values. A refusal leaves the trip and the user's birds as
      they were; success advances both goal histories, appends the image to
      the trip and adds the bird to the user's collection. */
  function Ingest(req: Request, userId: UserId, active: Option<TripState>, myBirds: seq<BirdId>,
                  catalog: seq<Bird>, draw: Draw): (o: Outcome)
    ensures o.result.Err? ==> o.trip == active && o.myBirds == myBirds
    ensures o.result == Err(NoFileUploaded) <==> req.file.None?
    ensures o.result == Err(NotAnImage) <==> req.file.Some? && !FileFilter.AcceptsFile(req.file.value.mimetype)
    ensures o.result == Err(NoActiveTrip) <==> FileAccepted(req) && active.None?
    ensures o.result == Err(EdugamingDisabled) <==>
              FileAccepted(req) && active.Some? && !active.value.isEdugaming
    ensures (o.result.Err? && o.result.error.NoBirdAtRarity?) <==>
              FileAccepted(req) && active.Some? && active.value.isEdugaming
              && GoalLedger.Matches(active.value.specificGoals, draw.identified)
              && forall b :: b in catalog ==>
                   b.rarity != GoalLedger.NextSpecificLevel(GoalLedger.Last(active.value.specificGoals).level)
    ensures o.result.Err? && o.result.error.NoBirdAtRarity? ==>
              o.result.error.rarity == GoalLedger.NextSpecificLevel(GoalLedger.Last(active.value.specificGoals).level)
    ensures o.result.Ok? <==>
              FileAccepted(req) && active.Some? && active.value.isEdugaming
              && GoalLedger.AdvanceSpecific(active.value.specificGoals, draw.identified, catalog, draw.tierPick).Ok?
    ensures o.result.Ok? ==>
              && o.trip.Some? && o.trip.value.isEdugaming
              && o.trip.value.specificGoals ==
                   GoalLedger.AdvanceSpecific(active.value.specificGoals, draw.identified, catalog, draw.tierPick).value
              && o.trip.value.countGoals == GoalLedger.AdvanceCount(active.value.countGoals)
              && o.trip.value.images == active.value.images + [draw.imageId]
              && o.myBirds == Collection.AddIfAbsent(myBirds, draw.identified)
    ensures o.result.Ok? ==>
              var image := o.result.value;
              image.id == draw.imageId && image.birdId == draw.identified && image.userId == userId
              && image.s3Key == req.file.value.key && image.location == req.location
              && image.timestamp == RecordedTimestamp(req.timestamp, draw.now)
  {
    if req.file.None? then Outcome(Err(NoFileUploaded), active, myBirds)
    else if !FileFilter.AcceptsFile(req.file.value.mimetype) then Outcome(Err(NotAnImage), active, myBirds)
    else if active.None? then Outcome(Err(NoActiveTrip), active, myBirds)
    else if !active.value.isEdugaming then Outcome(Err(EdugamingDisabled), active, myBirds)
    else
      var trip := active.value;
      match GoalLedger.AdvanceSpecific(trip.specificGoals, draw.identified, catalog, draw.tierPick)
      case Err(e) => Outcome(Err(e), active, myBirds)
      case Ok(specific) =>
        var image := ImageRecord(draw.imageId, req.file.value.key, userId, req.location,
                                 RecordedTimestamp(req.timestamp, draw.now), draw.identified);
        var trip' := trip.(specificGoals := specific,
                           countGoals := GoalLedger.AdvanceCount(trip.countGoals),
                           images := trip.images + [draw.imageId]);
        Outcome(Ok(image), Some(trip'), Collection.AddIfAbsent(myBirds, draw.identified))
  }

  // ---------------------------------------------------------------------
  // Properties of one upload

  /** Goal levels stay within their caps and the histories stay well formed. */
  lemma UploadKeepsGoalsValid(req: Request, userId: UserId, trip: TripState, myBirds: seq<BirdId>,
                              catalog: seq<Bird>, draw: Draw)
    requires GoalLedger.SpecificGoalsValid(trip.specificGoals)
    requires GoalLedger.CountGoalsValid(trip.countGoals)
    ensures var o := Ingest(req, userId, Some(trip), myBirds, catalog, draw);
            o.trip.Some?
            && GoalLedger.SpecificGoalsValid(o.trip.value.specificGoals)
            && GoalLedger.CountGoalsValid(o.trip.value.countGoals)
  {
    GoalLedger.AdvanceSpecificKeepsValid(trip.specificGoals, draw.identified, catalog, draw.tierPick);
    GoalLedger.AdvanceCountKeepsValid(trip.countGoals);
  }

  /** Goal levels stay within their caps (3 and 5) on any trip whose levels
      start within them, however the trip's histories were built. */
  lemma UploadKeepsLevelCaps(req: Request, userId: UserId, trip: TripState, myBirds: seq<BirdId>,
                             catalog: seq<Bird>, draw: Draw)
    requires GoalLedger.SpecificLevelsCapped(trip.specificGoals)
    requires GoalLedger.CountLevelsCapped(trip.countGoals)
    ensures var o := Ingest(req, userId, Some(trip), myBirds, catalog, draw);
            o.trip.Some?
            && GoalLedger.SpecificLevelsCapped(o.trip.value.specificGoals)
            && GoalLedger.CountLevelsCapped(o.trip.value.countGoals)
  {
    GoalLedger.AdvanceSpecificKeepsCaps(trip.specificGoals, draw.identified, catalog, draw.tierPick);
    GoalLedger.AdvanceCountKeepsCaps(trip.countGoals);
  }

  /** A trip outside the history invariant (its live count goal already past
      its target) still keeps its level caps through an accepted upload. */
  lemma OverfullCountGoalLevelsUp()
    ensures !GoalLedger.CountGoalsValid([CountGoal(3, 1, 5, InProgress)])
    ensures GoalLedger.AdvanceCount([CountGoal(3, 1, 5, InProgress)])
              == [CountGoal(3, 1, 6, Success), CountGoal(6, 2, 0, InProgress)]
  {
    var goals := [CountGoal(3, 1, 5, InProgress)];
    GoalLedger.CountsToTarget(goals);
    assert GoalLedger.ReplaceLast(goals, CountGoal(3, 1, 6, Success)) == [CountGoal(3, 1, 6, Success)];
  }

  /** Every accepted upload counts exactly one more bird on the trip,
      whatever the species. */
  lemma UploadCountsEveryBird(req: Request, userId: UserId, trip: TripState, myBirds: seq<BirdId>,
                              catalog: seq<Bird>, draw: Draw)
    requires |trip.countGoals| > 0
    ensures var o := Ingest(req, userId, Some(trip), myBirds, catalog, draw);
            o.result.Ok? ==>
              GoalLedger.TotalFound(o.trip.value.countGoals) == GoalLedger.TotalFound(trip.countGoals) + 1
  {
    GoalLedger.AdvanceCountAddsOne(trip.countGoals);
  }

  /** The user's collection never holds a bird twice, and after an accepted
      upload it holds the identified bird exactly once. */
  lemma UploadKeepsMyBirdsDistinct(req: Request, userId: UserId, active: Option<TripState>, myBirds: seq<BirdId>,
                                   catalog: seq<Bird>, draw: Draw)
    requires Collection.NoDuplicates(myBirds)
    ensures var o := Ingest(req, userId, active, myBirds, catalog, draw);
            Collection.NoDuplicates(o.myBirds)
            && (o.result.Ok? ==> multiset(o.myBirds)[draw.identified] == 1)
  {
    Collection.AddIfAbsentKeepsDistinct(myBirds, draw.identified);
    Collection.AddIfAbsentOccursOnce(myBirds, draw.identified);
  }

  // The worked example of one upload: the trip's specific goal asks for
  // the wren (bird 7, rarity 1), its count goal has 2 of 3 birds, and the
  // wren is identified. Both goals succeed; the next specific goal is the
  // only rarity-2 bird, and the next count goal asks for 6 birds.

  const WrenGoal := SpecificGoal(7, "Wren", None, 1, InProgress)
  const Robin := Bird(8, "Robin", 2, ["robin.jpg"])
  const ExampleCatalog := [Bird(7, "Wren", 1, []), Robin]
  const RobinGoal := SpecificGoal(8, "Robin", Some("robin.jpg"), 2, InProgress)

  lemma WrenSpecificGoal()
    ensures GoalLedger.AdvanceSpecific([WrenGoal], 7, ExampleCatalog, 0) == Ok([WrenGoal.(status := Success), RobinGoal])
  {
    assert Catalog.BirdsAtRarity(ExampleCatalog, 2) == [Robin] by {
      assert ExampleCatalog[1..] == [Robin];
      assert ExampleCatalog[1..][1..] == [];
    }
    assert Catalog.SampleByRarity(ExampleCatalog, 2, 0) == Some(Robin);
    assert GoalLedger.NewSpecificGoal(Robin, 2) == RobinGoal;
    assert GoalLedger.ReplaceLast([WrenGoal], WrenGoal.(status := Success)) == [WrenGoal.(status := Success)] by {
      assert [WrenGoal][..0] == [];
    }
    assert [WrenGoal.(status := Success)] + [RobinGoal] == [WrenGoal.(status := Success), RobinGoal];
  }

  lemma WrenCountGoal()
    ensures GoalLedger.AdvanceCount([CountGoal(3, 1, 2, InProgress)])
              == [CountGoal(3, 1, 3, Success), CountGoal(6, 2, 0, InProgress)]
  {
    assert [CountGoal(3, 1, 2, InProgress)][..0] == [];
  }

  lemma WrenScenario()
    ensures
      var trip := TripState(true, [WrenGoal], [CountGoal(3, 1, 2, InProgress)], []);
      var req := Request(Some(UploadedFile("image/jpeg", "k")), None, None);
      var o := Ingest(req, 1, Some(trip), [], ExampleCatalog, Draw(7, 0, 42, "t"));
      o.result.Ok?
      && o.trip.value.specificGoals == [WrenGoal.(status := Success), RobinGoal]
      && o.trip.value.countGoals == [CountGoal(3, 1, 3, Success), CountGoal(6, 2, 0, InProgress)]
      && o.trip.value.images == [42]
      && o.myBirds == [7]
  {
    WrenSpecificGoal();
    WrenCountGoal();
    assert FileFilter.AcceptsFile("image/jpeg") by {
      assert FileFilter.ImagePrefix <= "image/jpeg";
    }
  }

  // ---------------------------------------------------------------------
  // The stored documents

  /** A Trip document. The handler never changes who owns a trip, whether it
      is active or whether edugaming is on, so those are constants here. */
  class Trip {
    const userId: UserId
    const isActive: bool
    const isEdugaming: bool
    var specificGoals: seq<SpecificGoal>
    var countGoals: seq<CountGoal>
    var images: seq<ImageId>

    constructor (userId: UserId, isActive: bool, isEdugaming: bool,
                 specificGoals: seq<SpecificGoal>, countGoals: seq<CountGoal>)
      ensures this.userId == userId && this.isActive == isActive
      ensures State() == TripState(isEdugaming, specificGoals, countGoals, [])
    {
      this.userId := userId;
      this.isActive := isActive;
      this.isEdugaming := isEdugaming;
      this.specificGoals := specificGoals;
      this.countGoals := countGoals;
      this.images := [];
    }

    function State(): TripState
      reads this
    {
      TripState(isEdugaming, specificGoals, countGoals, images)
    }

    /** On a match the live goal is marked `success` and the next goal
        appended. The tier is sampled before anything is written: when it is
        empty the handler fails before the trip is saved. */
    method AdvanceSpecificGoal(identified: BirdId, catalog: seq<Bird>, pick: nat) returns (err: Option<UploadError>)
      modifies this
      ensures match GoalLedger.AdvanceSpecific(old(specificGoals), identified, catalog, pick)
              case Ok(goals) => err == None && specificGoals == goals
              case Err(e) => err == Some(e) && specificGoals == old(specificGoals)
      ensures countGoals == old(countGoals) && images == old(images)
    {
      var n := |specificGoals|;
      if n > 0 && specificGoals[n - 1].birdId == identified {
        var live := specificGoals[n - 1];
        var newLevel := GoalLedger.NextSpecificLevel(live.level);
        var bird := Catalog.SampleByRarity(catalog, newLevel, pick);
        if bird.None? {
          return Some(NoBirdAtRarity(newLevel));
        }
        GoalLedger.UpdateLastIsReplaceLast(specificGoals, live.(status := Success));
        specificGoals := specificGoals[n - 1 := live.(status := Success)];
        specificGoals := specificGoals + [GoalLedger.NewSpecificGoal(bird.value, newLevel)];
      }
      return None;
    }

    /** The live count goal counts one more bird and, on reaching
        `level * 3`, is marked `success` and followed by the next level's. */
    method AdvanceCountGoal()
      modifies this
      ensures countGoals == GoalLedger.AdvanceCount(old(countGoals))
      ensures specificGoals == old(specificGoals) && images == old(images)
    {
      var n := |countGoals|;
      if n > 0 {
        ghost var before := countGoals;
        var live := countGoals[n - 1];
        live := live.(birdsFound := live.birdsFound + 1);
        GoalLedger.UpdateLastIsReplaceLast(countGoals, live);
        countGoals := countGoals[n - 1 := live];
        if live.birdsFound >= live.level * GoalLedger.BirdsPerLevel {
          GoalLedger.UpdateLastIsReplaceLast(countGoals, live.(status := Success));
          GoalLedger.ReplaceLastTwice(before, live, live.(status := Success));
          countGoals := countGoals[n - 1 := live.(status := Success)];
          countGoals := countGoals + [GoalLedger.NewCountGoal(GoalLedger.NextCountLevel(live.level))];
        }
      }
    }

    /** The new image's id is appended to the trip's images. */
    method AddImage(id: ImageId)
      modifies this
      ensures images == old(images) + [id]
      ensures specificGoals == old(specificGoals) && countGoals == old(countGoals)
    {
      images := images + [id];
    }
  }

  /** A User document. */
  class User {
    const id: UserId
    var myBirds: seq<BirdId>

    constructor (id: UserId, myBirds: seq<BirdId>)
      ensures this.id == id && this.myBirds == myBirds
    {
      this.id := id;
      this.myBirds := myBirds;
    }

    /** The bird joins the user's collection unless it is already there. */
    method AddBird(bird: BirdId)
      modifies this
      ensures myBirds == Collection.AddIfAbsent(old(myBirds), bird)
    {
      if bird !in myBirds {
        myBirds := myBirds + [bird];
      }
    }
  }

  /** The user's active trip: the first trip owned by the user whose active
      flag is set, or null. */
  function FindActiveTrip(trips: seq<Trip>, userId: UserId): (t: Trip?)
    ensures t == null <==> forall i :: 0 <= i < |trips| ==> !(trips[i].userId == userId && trips[i].isActive)
    ensures t != null ==> t in trips && t.userId == userId && t.isActive
  {
    if trips == [] then null
    else if trips[0].userId == userId && trips[0].isActive then trips[0]
    else FindActiveTrip(trips[1..], userId)
  }

  /** The upload handler on the stored documents. Only the user's active
      trip and the user change, exactly as `Ingest` says. */
  method Upload(req: Request, trips: seq<Trip>, user: User, catalog: seq<Bird>, draw: Draw)
    returns (r: Result<ImageRecord, UploadError>)
    modifies trips, user
    ensures var t := FindActiveTrip(trips, user.id);
            var o := Ingest(req, user.id, if t == null then None else Some(old(t.State())),
                            old(user.myBirds), catalog, draw);
            r == o.result && user.myBirds == o.myBirds
            && (t != null ==> t.State() == o.trip.value)
    ensures forall t :: t in trips && t != FindActiveTrip(trips, user.id) ==> t.State() == old(t.State())
  {
    if req.file.None? {
      return Err(NoFileUploaded);
    }
    var file := req.file.value;
    if !FileFilter.AcceptsFile(file.mimetype) {
      return Err(NotAnImage);
    }
    var trip := FindActiveTrip(trips, user.id);
    if trip == null {
      return Err(NoActiveTrip);
    }
    if !trip.isEdugaming {
      return Err(EdugamingDisabled);
    }
    var err := trip.AdvanceSpecificGoal(draw.identified, catalog, draw.tierPick);
    if err.Some? {
      return Err(err.value);
    }
    trip.AdvanceCountGoal();
    var image := ImageRecord(draw.imageId, file.key, user.id, req.location,
                             RecordedTimestamp(req.timestamp, draw.now), draw.identified);
    trip.AddImage(draw.imageId);
    user.AddBird(draw.identified);
    return Ok(image);
  }
}
