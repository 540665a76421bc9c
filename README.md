# Face ranking: a Dafny model

The program sends one image to a face-detection service. It turns every
detected face into a record (sorrow likelihood, joy likelihood, bounding
polygon vertices) and adds a midpoint to each record. It then ranks the
records with two stable `Collections.sort` passes and prints either the
ranked list or `No Faces Detected!`. If a response reports an error, it
prints `Error: <message>` and stops. This project models everything `main`
does after the service has answered, and proves what that code promises.

Modules, one per stage of `main`:

- `Faces` (faces.dfy): the values involved. `Annotation` and `Response` are
  what the service returns. `Person` is the per-face JSON object the program
  builds, whose `midPoint` is absent until enrichment adds it in place.
  `Outcome` is what the run ends with: a line of text, the printed list, or
  an uncaught exception (`Crash`). Vertex coordinates are Java `int`s.
- `Geometry` (geometry.dfy): the midpoint. The corner sum wraps like a 32-bit
  Java `int` sum. `/ 2` truncates toward zero, as Java does (Dafny's own `/`
  is Euclidean).
- `Ordering` (ordering.dfy): the two comparators, a functional stable
  insertion sort `StableSort`, and the theory of the ranking. A stable sort
  is a permutation, puts the records in order, and keeps each group of tied
  records (`Ties`) in input order. Any arrangement with these properties is
  equal to `StableSort` (`SortIsDetermined`). So the two passes equal one
  stable sort by the composite order "joy ascending, then sorrow descending",
  and ranking is idempotent.
- `Sorting` (sorting.dfy): `Collections.sort` as an in-place stable insertion
  sort on an `array`, proved equal to `StableSort`.
- `Pipeline` (pipeline.dfy): the flattening loops, the midpoint loop, the
  copy into the list, the two sorts and the summary. The method `Process`
  runs them step by step and is proved equal to the function `Run`. Lemmas
  about `Run` state the observable behaviour.

The service responses are the input of `Process`. The client creation, file
reading and the network call are not modelled.

Behaviour of the code worth noting:

- Polygons may have any number of vertices. The loop at src/Main.java:66-71
  copies all of them, and enrichment needs indices 0 and 2 to exist. With an
  empty polygon `get(0)` (src/Main.java:84) throws; with one or two vertices
  `get(2)` (src/Main.java:85) does. Either way the
  `IndexOutOfBoundsException` is uncaught, and the model ends the run in
  `Crash`.
- `Collections.sort` is documented as stable, so each pass is a stable sort.
- Records collected from earlier responses are discarded when a later
  response reports an error: the program prints only the error.

## Model

| member | source | states |
|---|---|---|
| Geometry.Wrap32 | src/Main.java:87-88 | the corner sum is reduced modulo 2^32 into the `int` range, and is unchanged when it fits |
| Geometry.Half | src/Main.java:87-88 | Java `/ 2`: the remainder is 0 or 1 for a non-negative sum and 0 or -1 for a negative one (truncation toward zero) |
| Geometry.MidCoord | src/Main.java:87-88 | a midpoint coordinate is the 32-bit wrapped corner sum halved toward zero: twice it equals the wrapped sum, or is one closer to zero |
| Geometry.MidPointOf | src/Main.java:84-88 | when neither corner sum overflows, the midpoint lies inside the box spanned by vertices 0 and 2 |
| Geometry.AddMidPoint | src/Main.java:83-89 | adding "MidPoint" leaves Sorrow, Joy and Vertices unchanged; the midpoint's x and y are computed from vertex 0 and vertex 2 only |
| Geometry.MidCoordIsAverage | src/Main.java:87-88 | without overflow, a midpoint coordinate is the corners' average rounded toward zero and lies between the two corners |
| Geometry.MidCoordWrapsOnOverflow | src/Main.java:87-88 | corners whose sum exceeds `INT_MAX` always give a negative midpoint, as the wrapped Java sum does |
| Geometry.MidCoordWrapsOnUnderflow | src/Main.java:87-88 | corners whose sum is below `INT_MIN` always give a non-negative midpoint |
| Geometry.MidPointUsesCornersOnly | src/Main.java:84-88 | two polygons that agree on vertices 0 and 2 have the same midpoint: vertices 1 and 3 have no effect |
| Geometry.MidPointOfSquare | src/Main.java:84-88 | corners (0,0) and (10,10) give midpoint (5,5), whatever vertices 1 and 3 are |
| Ordering.CompareSorrow | src/Main.java:100-107 | the first comparator is negative exactly when `p` has the greater sorrow, positive exactly when it has the smaller, and otherwise 0 |
| Ordering.CompareJoy | src/Main.java:113-120 | the second comparator is negative exactly when `p` has the smaller joy, positive exactly when it has the greater, and otherwise 0 |
| Ordering.StableSort | src/Main.java:98-122 | one `Collections.sort` pass; it has no contract of its own. `SortPermutes`, `SortSorted` and `SortKeepsTies` state what it is, and `SortIsDetermined` that it is the only such result |
| Ordering.Rank | src/Main.java:98-122 | both passes; it has no contract of its own. `RankIsCompositeSort` and `RankIdempotent` state what it is |
| Ordering.CompareAntisymmetric | src/Main.java:98-122 | both comparators (and the composite one) are consistent: `compare(p, q) == -compare(q, p)` |
| Ordering.CompareTransitive | src/Main.java:98-122 | both comparators are transitive, as `Collections.sort` requires |
| Ordering.CompositeTie | src/Main.java:98-122 | two records tie in the composite order exactly when they tie on both joy and sorrow |
| Ordering.InsertKeepsTies | src/Main.java:98-122 | inserting a record never moves it past a record it ties with |
| Ordering.SortPermutes | src/Main.java:98-122 | a sort pass is a permutation: no record is lost, duplicated or altered |
| Ordering.SortSorted | src/Main.java:98-122 | a sort pass puts the list in the comparator's order |
| Ordering.SortKeepsTies | src/Main.java:98-122 | a sort pass is stable: every group of tied records keeps its input order |
| Ordering.SortedTiesUnique | src/Main.java:98-122 | two lists that are both in order and whose tied groups agree are equal |
| Ordering.SortIsDetermined | src/Main.java:98-122 | any in-order, stable rearrangement of a list is the stable sort of it, so the choice of stable algorithm does not matter |
| Ordering.SortOfSorted | src/Main.java:98-122 | sorting a list already in order leaves it unchanged |
| Ordering.CompositeTiesSplit | src/Main.java:98-122 | the records tied with `x` in the composite order are its sorrow-ties among its joy-ties, and equally its joy-ties among its sorrow-ties |
| Ordering.TiesSorted | src/Main.java:98-122 | a tied group taken out of a sorted list is itself sorted |
| Ordering.CompositeSorted | src/Main.java:111-122 | a list sorted by joy, with each equal-joy group sorted by sorrow, is in the composite order |
| Ordering.FirstPassOrder | src/Main.java:98-109 | after the first pass, sorrow is non-increasing along the list |
| Ordering.RankOrder | src/Main.java:111-122 | after the second pass joy is non-decreasing, and among equal joy sorrow is non-increasing |
| Ordering.RankSorted | src/Main.java:98-122 | after both passes the list is in the composite order |
| Ordering.RankKeepsTies | src/Main.java:98-122 | records equal on both joy and sorrow keep their input order through both passes |
| Ordering.RankIsCompositeSort | src/Main.java:98-122 | the two passes produce exactly one stable sort by the composite comparator |
| Ordering.RankPermutes | src/Main.java:98-122 | ranking neither loses, duplicates nor alters a record |
| Ordering.RankIdempotent | src/Main.java:98-122 | ranking an already ranked list returns the same list |
| Ordering.RankExample | src/Main.java:98-122 | joy/sorrow (1,5), (1,3), (0,1) rank as (0,1), (1,5), (1,3) |
| Sorting.SortInPlace | src/Main.java:98-122 | `Collections.sort` sorts the array in place; its new contents are the stable sort of the old contents |
| Sorting.InsertAt | src/Main.java:98-122 | one insertion step: the sorted prefix with the next record inserted stably; the rest of the array is untouched |
| Pipeline.FirstError | src/Main.java:46-50 | there is no error to report exactly when no response has one |
| Pipeline.FirstErrorIsEarliest | src/Main.java:46-50 | the reported error is that of the earliest response with an error, and every response before it has none |
| Pipeline.FirstErrorOfPrefix | src/Main.java:46-50 | the loop can stop at the first error it meets: later responses do not change which error is reported |
| Pipeline.ToPerson | src/Main.java:58-72 | a face's record carries its sorrow and joy likelihoods and its polygon, drops anger and surprise, and has no midpoint yet |
| Pipeline.Records | src/Main.java:53-73 | one record per annotation of a response, in annotation order, carrying the annotation's sorrow, joy and polygon |
| Pipeline.CollectedLayout | src/Main.java:53-74 | the flattened list has one record per face annotation; the k-th face of response i sits after all faces of earlier responses and is that face's record |
| Pipeline.CopyVertices | src/Main.java:66-71 | a record's vertices are the polygon's vertices in their original order |
| Pipeline.Flatten | src/Main.java:44-75 | the flattening loops end with the first error when a response has one, and otherwise with every record of every response in order |
| Pipeline.FirstShort | src/Main.java:83-85 | the index of the first record whose polygon has fewer than 3 vertices (all earlier ones have at least 3), or the length when there is none |
| Pipeline.WithMidPoints | src/Main.java:80-91 | every record with its midpoint added, in the same positions |
| Pipeline.AddMidPoints | src/Main.java:80-91 | enrichment succeeds exactly when every polygon has at least 3 vertices; records before the first short one get their midpoint and the rest are untouched |
| Pipeline.CopyToList | src/Main.java:92-96 | the new list holds the enriched records in the same order |
| Pipeline.Summarize | src/Main.java:124-128 | the output is `No Faces Detected!` exactly when the list is empty, otherwise the list itself |
| Pipeline.Run | src/Main.java:44-128 | a list is printed or the run throws only when no response reports an error, and a printed list is never empty; `RunStopsAtFirstError`, `RunNoFaces`, `RunCrashes` and `RunRanks` state the rest |
| Pipeline.Process | src/Main.java:44-128 | the step-by-step program yields exactly the outcome `Run` describes |
| Pipeline.RunStopsAtFirstError | src/Main.java:46-50 | when a response reports an error, the output is `Error: ` and the first such message, with no enrichment, ranking or list |
| Pipeline.RunNoFaces | src/Main.java:124-128 | `No Faces Detected!` is printed exactly when no response has an error and there are no face annotations |
| Pipeline.RunCrashes | src/Main.java:83-85 | the run throws exactly when no response has an error and some face polygon has fewer than 3 vertices |
| Pipeline.RunRanks | src/Main.java:80-128 | a printed list is non-empty, holds exactly the enriched faces, each with a midpoint, and is in the composite order: the stable composite sort of the faces |

## Left out

- Creating the `ImageAnnotatorClient`, building the request and calling `batchAnnotateImages` (src/Main.java:19, 29-41): a network call into a vendor SDK. The responses are the input of `Process`.
- Reading `args[0]` and the image file (src/Main.java:22-27): file I/O, and a missing argument or unreadable file only crashes the program.
- The Gson representation and the exact text of `System.out.println(list)`, including the trailing newline of each line (src/Main.java:48, 58-73, 125-127): library serialisation. Output is the abstract `Outcome`; the error and no-faces lines are modelled as their text without the newline.
- The vision service's own protobuf fields other than the two likelihoods and the polygon. Anger and surprise are carried in `Annotation` and dropped, as the code drops them.
- The float conversion in the comparators (`getAsFloat`, src/Main.java:101-116): the likelihoods are small integer enum ordinals, which a float represents exactly, so the model compares them as integers.
- The `isJsonNull` guard (src/Main.java:81): every element of the array is a non-null object built by the flattening loop.
- The identity of the JSON objects: in the source, enrichment mutates objects shared by `unhappiness` and `list`. The model updates records as values in a sequence. Nothing reads `unhappiness` after the copy, so no difference is observable.
- Sorting.SortInPlace: implemented as an insertion sort, not the merge-based sort Java uses. `Ordering.SortIsDetermined` shows that every stable sort yields the same list, so only the number of comparisons differs.
