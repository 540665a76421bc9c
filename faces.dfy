/** The values that flow through the face-ranking program: what the vision
    service answers, the per-face record the program builds from it, and what
    the program finally prints. */
module Faces {

  /** Java's `int`, the type of a protobuf `int32` vertex coordinate. */
  const INT_MIN: int := -0x8000_0000
  const INT_MAX: int := 0x7fff_ffff
  type Int32 = n: int | INT_MIN <= n <= INT_MAX

  /** One corner of a bounding polygon, in image pixel coordinates. */
  datatype Vertex = Vertex(x: Int32, y: Int32)

  /** A face annotation as the vision service returns it. The likelihoods are
      the ordinals of the service's likelihood enum, as returned by
      `get…LikelihoodValue()`. Anger and surprise are delivered too but the
      program does not keep them. */
  datatype Annotation = Annotation(
    sorrowLikelihood: int,
    joyLikelihood: int,
    angerLikelihood: int,
    surpriseLikelihood: int,
    boundingPoly: seq<Vertex>)

  /** One per-image response: either an error message or a list of faces. */
  datatype Response = Response(error: Option<string>, faceAnnotations: seq<Annotation>)

  /** The per-face JSON object the program builds ("Sorrow", "Joy",
      "Vertices") and later extends in place with "MidPoint". */
  datatype Person = Person(sorrow: int, joy: int, vertices: seq<Vertex>, midPoint: Option<Vertex>)

  datatype Option<T> = None | Some(value: T)

  datatype Result<T> = Success(value: T) | Failure(error: string)

  /** What a run of the program ends with: a line of text, the printed list
      of ranked records, or an uncaught exception. */
  datatype Outcome = Message(text: string) | FaceList(ranked: seq<Person>) | Crash

  const NO_FACES: string := "No Faces Detected!"
  const ERROR_PREFIX: string := "Error: "
}
