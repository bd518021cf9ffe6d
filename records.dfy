/** Records shared by the upload handler: identifiers, the Bird collection's
    documents, the two kinds of trip goal, the Image document and the errors
    the handler answers with. */
module Records {

  /** Mongo ObjectIds are compared by value only, so plain numbers stand for them. */
  type UserId = nat
  type BirdId = nat
  type ImageId = nat

  datatype Option<+T> = None | Some(value: T)

  datatype Result<+T, +E> = Ok(value: T) | Err(error: E)

  /** The `status` field of a goal. */
  datatype Status = InProgress | Success

  /** A document of the Bird collection: its rarity tier and its images. */
  datatype Bird = Bird(id: BirdId, name: string, rarity: int, images: seq<string>)

  /** An entry of a trip's `birdSpecificGoals`: find this particular bird.
      `image` is the bird's first image, absent when the bird document has
      no images. */
  datatype SpecificGoal = SpecificGoal(
    birdId: BirdId,
    birdName: string,
    image: Option<string>,
    level: int,
    status: Status)

  /** An entry of a trip's `birdCountGoals`: find `count` birds of any kind. */
  datatype CountGoal = CountGoal(count: int, level: int, birdsFound: int, status: Status)

  /** The Image document created for one successful upload. `location` is the
      already parsed request location, kept opaque. */
  datatype ImageRecord = ImageRecord(
    id: ImageId,
    s3Key: string,
    userId: UserId,
    location: Option<string>,
    timestamp: string,
    birdId: BirdId)

  /** The ways an upload is refused. */
  datatype UploadError =
    | NoFileUploaded               // the request carried no file (HTTP 400)
    | NotAnImage                   // the upload's file filter refused the mimetype
    | NoActiveTrip                 // the user has no active trip (HTTP 400)
    | EdugamingDisabled            // the active trip has edugaming off (HTTP 403)
    | NoBirdAtRarity(rarity: int)  // no bird of the new goal's tier exists (HTTP 500)
}
