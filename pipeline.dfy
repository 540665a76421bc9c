/** The body of `Main.main` once the vision service has answered: flatten
    the responses into per-face records, add each record's midpoint, copy
    the records into a list, sort it twice and print it. */
module Pipeline {
  import opened Faces
  import opened Geometry
  import opened Ordering
  import opened Sorting

  // ---------------------------------------------------------------------
  // Flattening

  /** The message of the first response that reports an error, if any. */
  function FirstError(responses: seq<Response>): (r: Option<string>)
    ensures r.None? <==> forall k :: 0 <= k < |responses| ==> responses[k].error.None?
  {
    if responses == [] then None
    else match FirstError(responses[..|responses| - 1])
      case Some(m) => Some(m)
      case None => responses[|responses| - 1].error
  }

  /** The record built for one face annotation: its sorrow and joy
      likelihoods and its polygon's vertices, without a midpoint yet. */
  function ToPerson(a: Annotation): (r: Person)
    ensures r.sorrow == a.sorrowLikelihood && r.joy == a.joyLikelihood
    ensures r.vertices == a.boundingPoly && r.midPoint.None?
  {
    Person(a.sorrowLikelihood, a.joyLikelihood, a.boundingPoly, None)
  }

  function Records(annotations: seq<Annotation>): (r: seq<Person>)
    ensures |r| == |annotations|
    ensures forall k :: 0 <= k < |r| ==> r[k] == ToPerson(annotations[k])
  {
    if annotations == [] then []
    else Records(annotations[..|annotations| - 1]) + [ToPerson(annotations[|annotations| - 1])]
  }

  /** All records of all responses, response by response, face by face. */
  function Collected(responses: seq<Response>): seq<Person>
  {
    if responses == [] then []
    else Collected(responses[..|responses| - 1]) + Records(responses[|responses| - 1].faceAnnotations)
  }

  /** The number of face annotations in the responses. */
  function FaceCount(responses: seq<Response>): nat
  {
    if responses == [] then 0
    else FaceCount(responses[..|responses| - 1]) + |responses[|responses| - 1].faceAnnotations|
  }

  /** What the flattening loop ends with: the first error, or every record. */
  function Flattened(responses: seq<Response>): Result<seq<Person>>
  {
    match FirstError(responses)
    case Some(m) => Failure(m)
    case None => Success(Collected(responses))
  }

  /** `FirstError` finds the error of the earliest failed response. */
  lemma {:induction false} FirstErrorIsEarliest(responses: seq<Response>)
    ensures FirstError(responses).Some? ==>
      exists k :: 0 <= k < |responses| && responses[k].error == FirstError(responses)
        && forall j :: 0 <= j < k ==> responses[j].error.None?
  {
    if responses != [] {
      var init := responses[..|responses| - 1];
      FirstErrorIsEarliest(init);
      if FirstError(init).Some? {
        var k :| 0 <= k < |init| && init[k].error == FirstError(init)
          && forall j :: 0 <= j < k ==> init[j].error.None?;
        assert responses[k] == init[k];
        assert forall j :: 0 <= j < k ==> responses[j] == init[j];
      } else {
        assert forall j :: 0 <= j < |init| ==> responses[j] == init[j];
      }
    }
  }

  /** An error found in a prefix is the error of the whole sequence. */
  lemma {:induction false} FirstErrorOfPrefix(responses: seq<Response>, n: nat)
    requires n <= |responses|
    requires FirstError(responses[..n]).Some?
    ensures FirstError(responses) == FirstError(responses[..n])
  {
    if n < |responses| {
      var init := responses[..|responses| - 1];
      assert init[..n] == responses[..n];
      FirstErrorOfPrefix(init, n);
    } else {
      assert responses[..n] == responses;
    }
  }

  /** One record per face annotation: the records come response by
      response, and within a response in annotation order. */
  lemma {:induction false} CollectedLayout(responses: seq<Response>, i: nat, k: nat)
    requires i < |responses| && k < |responses[i].faceAnnotations|
    ensures |Collected(responses)| == FaceCount(responses)
    ensures FaceCount(responses[..i]) + k < |Collected(responses)|
    ensures Collected(responses)[FaceCount(responses[..i]) + k] == ToPerson(responses[i].faceAnnotations[k])
  {
    var init := responses[..|responses| - 1];
    CollectedCount(init);
    if i == |responses| - 1 {
      assert responses[..i] == init;
    } else {
      CollectedLayout(init, i, k);
      assert init[..i] == responses[..i];
      assert init[i] == responses[i];
      FaceCountOfPrefix(responses, i);
    }
  }

  lemma {:induction false} CollectedCount(responses: seq<Response>)
    ensures |Collected(responses)| == FaceCount(responses)
  {
    if responses != [] {
      CollectedCount(responses[..|responses| - 1]);
    }
  }

  lemma {:induction false} FaceCountOfPrefix(responses: seq<Response>, i: nat)
    requires i < |responses|
    ensures FaceCount(responses[..i]) + |responses[i].faceAnnotations| <= FaceCount(responses)
  {
    var init := responses[..|responses| - 1];
    if i < |responses| - 1 {
      assert init[..i] == responses[..i] && init[i] == responses[i];
      FaceCountOfPrefix(init, i);
    } else {
      assert responses[..i] == init;
    }
  }

  /** The inner loop of the flattening: copies a polygon's vertices one by
      one, keeping their order. */
  method CopyVertices(poly: seq<Vertex>) returns (vertices: seq<Vertex>)
    ensures vertices == poly
  {
    vertices := [];
    for n := 0 to |poly|
      invariant vertices == poly[..n]
    {
      vertices := vertices + [Vertex(poly[n].x, poly[n].y)];
    }
  }

  /** The flattening loop: stops at the first response that reports an
      error; otherwise appends one record per face annotation. */
  method Flatten(responses: seq<Response>) returns (r: Result<seq<Person>>)
    ensures r == Flattened(responses)
  {
    var unhappiness: seq<Person> := [];
    for i := 0 to |responses|
      invariant FirstError(responses[..i]) == None
      invariant unhappiness == Collected(responses[..i])
    {
      assert responses[..i + 1][..i] == responses[..i];
      var res := responses[i];
      if res.error.Some? {
        FirstErrorOfPrefix(responses, i + 1);
        return Failure(res.error.value);
      }
      ghost var before := unhappiness;
      var annotations := res.faceAnnotations;
      for n := 0 to |annotations|
        invariant unhappiness == before + Records(annotations[..n])
      {
        assert annotations[..n + 1][..n] == annotations[..n];
        var annotation := annotations[n];
        var vertices := CopyVertices(annotation.boundingPoly);
        var person := Person(annotation.sorrowLikelihood, annotation.joyLikelihood, vertices, None);
        unhappiness := unhappiness + [person];
      }
      assert annotations[..|annotations|] == annotations;
    }
    assert responses[..|responses|] == responses;
    return Success(unhappiness);
  }

  // ---------------------------------------------------------------------
  // Enrichment

  /** The index of the first record with fewer than three vertices, where
      enrichment throws (`get(0)` on an empty polygon, `get(2)` on one with
      one or two vertices); `|s|` when there is none. */
  function FirstShort(s: seq<Person>): (n: nat)
    ensures n <= |s|
    ensures forall k :: 0 <= k < n ==> |s[k].vertices| >= 3
    ensures n < |s| ==> |s[n].vertices| < 3
  {
    if s == [] then 0
    else if |s[0].vertices| < 3 then 0
    else 1 + FirstShort(s[1..])
  }

  /** Every record with its midpoint added. */
  function WithMidPoints(s: seq<Person>): (r: seq<Person>)
    requires forall k :: 0 <= k < |s| ==> |s[k].vertices| >= 3
    ensures |r| == |s|
    ensures forall k :: 0 <= k < |s| ==> r[k] == AddMidPoint(s[k])
  {
    if s == [] then [] else [AddMidPoint(s[0])] + WithMidPoints(s[1..])
  }

  /** The enrichment loop. It adds "MidPoint" to each record in turn and
      stops (`ok` false) at the first record whose polygon has fewer than
      three vertices, where Java throws; records before that one have
      their midpoint, the others are as they were. */
  method AddMidPoints(people: seq<Person>) returns (enriched: seq<Person>, ok: bool)
    ensures ok <==> forall k :: 0 <= k < |people| ==> |people[k].vertices| >= 3
    ensures |enriched| == |people|
    ensures forall k :: 0 <= k < |people| ==>
      enriched[k] == if k < FirstShort(people) then AddMidPoint(people[k]) else people[k]
    ensures ok ==> enriched == WithMidPoints(people)
  {
    enriched := people;
    var i := 0;
    while i < |enriched|
      invariant i <= FirstShort(people)
      invariant |enriched| == |people|
      invariant forall k :: 0 <= k < |people| ==>
        enriched[k] == if k < i then AddMidPoint(people[k]) else people[k]
    {
      var vertTemp := enriched[i].vertices;
      if |vertTemp| < 3 {
        return enriched, false;
      }
      enriched := enriched[i := AddMidPoint(enriched[i])];
      i := i + 1;
    }
    ok := true;
  }

  // ---------------------------------------------------------------------
  // Copying, ranking and the summary

  /** Copies the enriched records into a fresh list in the same order. */
  method CopyToList(unhappiness: seq<Person>) returns (list: array<Person>)
    ensures fresh(list)
    ensures list[..] == unhappiness
  {
    list := new Person[|unhappiness|](k requires 0 <= k < |unhappiness| => unhappiness[k]);
  }

  /** What is printed for the ranked list: a fixed message when it is
      empty, the list itself otherwise. */
  function Summarize(list: seq<Person>): (out: Outcome)
    ensures out == Message(NO_FACES) <==> list == []
    ensures list != [] ==> out.FaceList? && out.ranked == list
  {
    if list != [] then FaceList(list) else Message(NO_FACES)
  }

  /** The whole run after the vision call, as a function of the responses. */
  function Run(responses: seq<Response>): (r: Outcome)
    ensures r.Crash? || r.FaceList? ==> FirstError(responses).None?
    ensures r.FaceList? ==> r.ranked != []
  {
    match Flattened(responses)
    case Failure(m) => Message(ERROR_PREFIX + m)
    case Success(faces) =>
      if FirstShort(faces) < |faces| then Crash
      else Summarize(Rank(WithMidPoints(faces)))
  }

  /** The program after the vision call, step by step as `main` does it. */
  method Process(responses: seq<Response>) returns (out: Outcome)
    ensures out == Run(responses)
  {
    var flat := Flatten(responses);
    if flat.Failure? {
      return Message(ERROR_PREFIX + flat.error);
    }
    var unhappiness, ok := AddMidPoints(flat.value);
    if !ok {
      return Crash;
    }
    var list := CopyToList(unhappiness);
    SortInPlace(list, SorrowDescending);
    SortInPlace(list, JoyAscending);
    out := Summarize(list[..]);
  }

  // ---------------------------------------------------------------------
  // Properties of a run

  /** When a response reports an error, the output is `Error: ` followed by
      the message of the first such response, and nothing else happens. */
  lemma RunStopsAtFirstError(responses: seq<Response>, k: nat)
    requires k < |responses| && responses[k].error.Some?
    requires forall j :: 0 <= j < k ==> responses[j].error.None?
    ensures Run(responses) == Message(ERROR_PREFIX + responses[k].error.value)
  {
    FirstErrorIsEarliest(responses);
    var i :| 0 <= i < |responses| && responses[i].error == FirstError(responses)
      && forall j :: 0 <= j < i ==> responses[j].error.None?;
    assert i == k;
  }

  /** `No Faces Detected!` is printed exactly when no response reports an
      error and there is no face annotation at all. */
  lemma RunNoFaces(responses: seq<Response>)
    ensures Run(responses) == Message(NO_FACES)
        <==> (forall k :: 0 <= k < |responses| ==> responses[k].error.None?) && FaceCount(responses) == 0
  {
    FirstErrorIsEarliest(responses);
    CollectedCount(responses);
    if FirstError(responses).Some? {
      var m := FirstError(responses).value;
      assert (ERROR_PREFIX + m)[0] == 'E';
      assert Message(ERROR_PREFIX + m) != Message(NO_FACES);
    } else if FaceCount(responses) > 0 {
      var faces := Collected(responses);
      if FirstShort(faces) == |faces| {
        RankPermutes(WithMidPoints(faces));
      }
    }
  }

  /** The program throws exactly when no response reports an error and some
      face polygon has fewer than three vertices. */
  lemma RunCrashes(responses: seq<Response>)
    ensures Run(responses) == Crash
        <==> (FirstError(responses).None?
              && exists k :: 0 <= k < |Collected(responses)| && |Collected(responses)[k].vertices| < 3)
  {
    if FirstError(responses).None? {
      var faces := Collected(responses);
      var n := FirstShort(faces);
      assert Flattened(responses) == Success(faces);
      if n < |faces| {
        assert |faces[n].vertices| < 3;
        assert Run(responses) == Crash;
        assert exists k :: 0 <= k < |Collected(responses)| && |Collected(responses)[k].vertices| < 3;
      }
    }
  }

  /** A printed list holds every face of the responses, each with its
      midpoint, in the composite order (joy ascending, then sorrow
      descending), with exact ties in the order of the responses. */
  lemma RunRanks(responses: seq<Response>)
    requires Run(responses).FaceList?
    ensures FirstError(responses).None?
    ensures forall k :: 0 <= k < |Collected(responses)| ==> |Collected(responses)[k].vertices| >= 3
    ensures Run(responses).ranked != []
    ensures Run(responses).ranked == StableSort(JoyThenSorrow, WithMidPoints(Collected(responses)))
    ensures multiset(Run(responses).ranked) == multiset(WithMidPoints(Collected(responses)))
    ensures Sorted(JoyThenSorrow, Run(responses).ranked)
    ensures forall k :: 0 <= k < |Run(responses).ranked| ==> Run(responses).ranked[k].midPoint.Some?
  {
    var faces := Collected(responses);
    var enriched := WithMidPoints(faces);
    var ranked := Rank(enriched);
    RankIsCompositeSort(enriched);
    RankPermutes(enriched);
    RankSorted(enriched);
    forall k | 0 <= k < |ranked| ensures ranked[k].midPoint.Some? {
      assert ranked[k] in multiset(enriched);
      var m :| 0 <= m < |enriched| && enriched[m] == ranked[k];
    }
  }
}
