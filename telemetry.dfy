/** The submission endpoint: validate the reported scan types, stamp the
    submission with the server time and write it, in one Create call, to the
    index of the current year. */
module Telemetry {
  import opened Wrappers
  import opened ScanTypes
  import YearLayout
  import opened ElasticSearch

  /** A reading of the server clock, in calendar terms. */
  datatype Instant = Instant(year: int, month: int, day: int, hour: int, minute: int, second: int, nanosecond: int)

  /** What a client submits. */
  datatype TelemetryData = TelemetryData(version: string, installedScanTypes: seq<string>)

  /** What is stored: the submission plus the server timestamp. */
  datatype TelemetryDataDocument = TelemetryDataDocument(timestamp: Instant, version: string, installedScanTypes: seq<string>)

  /** The request body after JSON binding: the parsed submission, or the
      binder's error text. */
  datatype Request = Bound(data: TelemetryData) | BindError(message: string)

  /** The HTTP status and plain-text body written back. */
  datatype Response = Response(status: int, body: string)

  /** One request as the outside world sees it: the write it makes, if any,
      and the response it sends. */
  datatype Exchange = Exchange(write: Option<CreateCall<TelemetryDataDocument>>, response: Response)

  const StatusOK := 200
  const StatusBadRequest := 400
  const StatusInternalServerError := 500

  const IndexPrefix := "telemetry-"
  const OkBody := "ok"
  const StoreFailureBody := "elasticsearch connection failed"
  const InvalidScanTypePrefix := "Invalid ScanType '"

  /** The body of a 400 answer for an unofficial scan type. */
  function InvalidScanTypeMessage(scanType: string): (body: string)
    ensures |body| == |InvalidScanTypePrefix| + |scanType| + 1
    ensures body[..|InvalidScanTypePrefix|] == InvalidScanTypePrefix
    ensures body[|InvalidScanTypePrefix|..|body| - 1] == scanType
    ensures body[|body| - 1] == '\''
  {
    InvalidScanTypePrefix + scanType + "'"
  }

  /** The destination index for a write made at the given time. */
  function IndexName(clock: Instant): (name: string)
    ensures |name| >= |IndexPrefix| + 4
    ensures name[..|IndexPrefix|] == IndexPrefix
    ensures YearLayout.ParseYear(name[|IndexPrefix|..]) == clock.year
  {
    var year := YearLayout.FormatYear(clock.year);
    YearLayout.FormatYearRoundTrip(clock.year);
    assert (IndexPrefix + year)[|IndexPrefix|..] == year;
    IndexPrefix + year
  }

  /** The document written for an accepted submission. */
  function Document(data: TelemetryData, timestampClock: Instant): TelemetryDataDocument {
    TelemetryDataDocument(timestampClock, data.version, data.installedScanTypes)
  }

  /** What one request does, given the two clock readings the handler takes
      (one for the timestamp, one for the index name) and the store's reply. */
  function Persist(request: Request, timestampClock: Instant, indexClock: Instant, reply: Option<Error>): Exchange {
    match request
    case BindError(message) => Exchange(None, Response(StatusBadRequest, message))
    case Bound(data) =>
      match Validate(data.installedScanTypes)
      case Rejected(scanType) => Exchange(None, Response(StatusBadRequest, InvalidScanTypeMessage(scanType)))
      case Accepted =>
        var call := CreateCall(IndexName(indexClock), Document(data, timestampClock));
        if reply.Some? then Exchange(Some(call), Response(StatusInternalServerError, StoreFailureBody))
        else Exchange(Some(call), Response(StatusOK, OkBody))
  }

  /** Every document the store holds lists official scan types only. */
  ghost predicate OnlyOfficialWrites(service: RecordingService<TelemetryDataDocument>)
    reads service
  {
    forall i :: 0 <= i < |service.calls| ==> AllOfficial(service.calls[i].document.installedScanTypes)
  }

  /** The handler for a submission, writing through the injected store. It
      keeps the store free of unofficial scan types. */
  method PersistTelemetryData(service: RecordingService<TelemetryDataDocument>, request: Request,
                              timestampClock: Instant, indexClock: Instant) returns (response: Response)
    modifies service
    ensures service.calls == old(service.calls) + Persist(request, timestampClock, indexClock, service.reply).write.ToSeq()
    ensures response == Persist(request, timestampClock, indexClock, service.reply).response
    ensures old(OnlyOfficialWrites(service)) ==> OnlyOfficialWrites(service)
  {
    if request.BindError? {
      return Response(StatusBadRequest, request.message);
    }
    var data := request.data;

    var verdict := CheckScanTypes(data.installedScanTypes);
    if verdict.Rejected? {
      return Response(StatusBadRequest, InvalidScanTypeMessage(verdict.scanType));
    }

    var document := Document(data, timestampClock);
    var indexName := IndexName(indexClock);
    ValidateAcceptsIffAllOfficial(data.installedScanTypes);
    var err := service.Create(indexName, document);
    if err.Some? {
      return Response(StatusInternalServerError, StoreFailureBody);
    }
    return Response(StatusOK, OkBody);
  }

  /** A request whose body does not bind is answered 400 with the binder's
      text and writes nothing. */
  lemma BindErrorWritesNothing(message: string, timestampClock: Instant, indexClock: Instant, reply: Option<Error>)
    ensures Persist(BindError(message), timestampClock, indexClock, reply)
         == Exchange(None, Response(StatusBadRequest, message))
  {
  }

  /** A parsed submission is written exactly when all its scan types are official. */
  lemma WritesIffAllOfficial(data: TelemetryData, timestampClock: Instant, indexClock: Instant, reply: Option<Error>)
    ensures Persist(Bound(data), timestampClock, indexClock, reply).write.Some? <==> AllOfficial(data.installedScanTypes)
  {
    ValidateAcceptsIffAllOfficial(data.installedScanTypes);
  }

  /** A submission with an unofficial scan type is answered 400 naming the
      first such scan type, and nothing is written. */
  lemma RejectionNamesFirstOffenderAndWritesNothing(data: TelemetryData, k: int,
                                                   timestampClock: Instant, indexClock: Instant, reply: Option<Error>)
    requires FirstOffenderAt(data.installedScanTypes, k)
    ensures Persist(Bound(data), timestampClock, indexClock, reply)
         == Exchange(None, Response(StatusBadRequest, InvalidScanTypeMessage(data.installedScanTypes[k])))
  {
    FirstOffenderIsReported(data.installedScanTypes, k);
  }

  /** An accepted submission is written once, to the index of the index clock's
      year, as a document with the version and scan types copied verbatim and
      the timestamp clock's reading. */
  lemma AcceptedSubmissionIsWrittenVerbatim(data: TelemetryData, timestampClock: Instant, indexClock: Instant, reply: Option<Error>)
    requires AllOfficial(data.installedScanTypes)
    ensures var w := Persist(Bound(data), timestampClock, indexClock, reply).write;
      && w.Some?
      && w.value.index == IndexName(indexClock)
      && w.value.document.timestamp == timestampClock
      && w.value.document.version == data.version
      && w.value.document.installedScanTypes == data.installedScanTypes
  {
    ValidateAcceptsIffAllOfficial(data.installedScanTypes);
  }

  /** For an accepted submission the store's answer alone decides the response:
      200 "ok" on success, 500 with a fixed body on any error. */
  lemma AcceptedResponseFollowsStore(data: TelemetryData, timestampClock: Instant, indexClock: Instant, reply: Option<Error>)
    requires AllOfficial(data.installedScanTypes)
    ensures Persist(Bound(data), timestampClock, indexClock, reply).response
         == if reply.None? then Response(StatusOK, OkBody) else Response(StatusInternalServerError, StoreFailureBody)
  {
    ValidateAcceptsIffAllOfficial(data.installedScanTypes);
  }

  /** The three statuses, each with the exact condition that produces it. */
  lemma StatusMapping(request: Request, timestampClock: Instant, indexClock: Instant, reply: Option<Error>)
    ensures var status := Persist(request, timestampClock, indexClock, reply).response.status;
      && (status == StatusOK <==> request.Bound? && AllOfficial(request.data.installedScanTypes) && reply.None?)
      && (status == StatusInternalServerError <==> request.Bound? && AllOfficial(request.data.installedScanTypes) && reply.Some?)
      && (status == StatusBadRequest <==> request.BindError? || !AllOfficial(request.data.installedScanTypes))
  {
    if request.Bound? {
      ValidateAcceptsIffAllOfficial(request.data.installedScanTypes);
    }
  }

  /** The store's error text never reaches the client: any two errors give the
      same exchange. */
  lemma StoreErrorTextIsHidden(request: Request, timestampClock: Instant, indexClock: Instant, e1: Error, e2: Error)
    ensures Persist(request, timestampClock, indexClock, Some(e1)) == Persist(request, timestampClock, indexClock, Some(e2))
  {
  }

  /** The index name depends on the index clock's year and on nothing else:
      two written submissions share an index exactly when their index clocks
      read the same year, whatever their contents and timestamps. */
  lemma IndexDependsOnlyOnYear(d1: TelemetryData, t1: Instant, i1: Instant, r1: Option<Error>,
                               d2: TelemetryData, t2: Instant, i2: Instant, r2: Option<Error>)
    requires AllOfficial(d1.installedScanTypes) && AllOfficial(d2.installedScanTypes)
    ensures Persist(Bound(d1), t1, i1, r1).write.Some? && Persist(Bound(d2), t2, i2, r2).write.Some?
    ensures Persist(Bound(d1), t1, i1, r1).write.value.index == Persist(Bound(d2), t2, i2, r2).write.value.index
        <==> i1.year == i2.year
  {
    ValidateAcceptsIffAllOfficial(d1.installedScanTypes);
    ValidateAcceptsIffAllOfficial(d2.installedScanTypes);
    IndexNameIdentifiesYear(i1, i2);
  }

  /** Index names of different years differ. */
  lemma IndexNameIdentifiesYear(a: Instant, b: Instant)
    ensures IndexName(a) == IndexName(b) <==> a.year == b.year
  {
    if IndexName(a) == IndexName(b) {
      assert IndexName(a)[|IndexPrefix|..] == IndexName(b)[|IndexPrefix|..];
    }
  }

  /** Between the years 1000 and 9999 the index is "telemetry-" and four digits. */
  lemma IndexNameOfFourDigitYear(clock: Instant)
    requires 1000 <= clock.year <= 9999
    ensures |IndexName(clock)| == |IndexPrefix| + 4
    ensures YearLayout.AllDigits(IndexName(clock)[|IndexPrefix|..])
    ensures YearLayout.ParseDecimal(IndexName(clock)[|IndexPrefix|..]) == clock.year
  {
    YearLayout.FourDigitYear(clock.year);
    assert IndexName(clock)[|IndexPrefix|..] == YearLayout.FormatYear(clock.year);
  }

  /** Nothing written ever lists an unofficial scan type. */
  lemma PersistedScanTypesAreOfficial(request: Request, timestampClock: Instant, indexClock: Instant, reply: Option<Error>)
    requires Persist(request, timestampClock, indexClock, reply).write.Some?
    ensures AllOfficial(Persist(request, timestampClock, indexClock, reply).write.value.document.installedScanTypes)
  {
    ValidateAcceptsIffAllOfficial(request.data.installedScanTypes);
  }

  /** Different invalid scan types give different 400 bodies. */
  lemma InvalidScanTypeMessageInjective(a: string, b: string)
    ensures InvalidScanTypeMessage(a) == InvalidScanTypeMessage(b) <==> a == b
  {
    if InvalidScanTypeMessage(a) == InvalidScanTypeMessage(b) {
      var m := InvalidScanTypeMessage(a);
      assert a == m[|InvalidScanTypePrefix|..|m| - 1];
    }
  }

  /** Good data, working store: 200 "ok" and one write holding both scan types. */
  lemma GoodDataIsStored(timestampClock: Instant, indexClock: Instant)
    ensures Persist(Bound(TelemetryData("v2.0.42", ["nmap", "sslyze"])), timestampClock, indexClock, None)
         == Exchange(Some(CreateCall(IndexName(indexClock), TelemetryDataDocument(timestampClock, "v2.0.42", ["nmap", "sslyze"]))),
                     Response(200, "ok"))
  {
    assert Validate(["nmap", "sslyze"]) == Accepted by {
      assert ["nmap", "sslyze"][1..] == ["sslyze"];
    }
  }

  /** An unknown scan type: 400 naming it, nothing written. */
  lemma UnknownScanTypeIsRejected(timestampClock: Instant, indexClock: Instant, reply: Option<Error>)
    ensures Persist(Bound(TelemetryData("v2.0.42", ["fooooobarrrrrrrrr"])), timestampClock, indexClock, reply)
         == Exchange(None, Response(400, "Invalid ScanType 'fooooobarrrrrrrrr'"))
  {
    var name := "fooooobarrrrrrrrr";
    UnknownScanTypeIsNotOfficial();
    assert Validate([name]) == Rejected(name);
    assert InvalidScanTypeMessage(name) == "Invalid ScanType 'fooooobarrrrrrrrr'";
  }

  lemma UnknownScanTypeIsNotOfficial()
    ensures !IsOfficial("fooooobarrrrrrrrr")
  {
    var name := "fooooobarrrrrrrrr";
    assert |name| == 17 && name[0] == 'f';
    assert name != "zap-advanced-scan" by { assert "zap-advanced-scan"[0] == 'z'; }
    assert name != "zap-baseline-scan" by { assert "zap-baseline-scan"[0] == 'z'; }
  }

  /** Good data, failing store: 500 with the fixed body. */
  lemma StoreFailureIsReported(timestampClock: Instant, indexClock: Instant)
    ensures Persist(Bound(TelemetryData("v2.0.42", ["nmap", "sslyze"])), timestampClock, indexClock,
                    Some(Error("Elasticsearch request failed with status code: '401'"))).response
         == Response(500, "elasticsearch connection failed")
  {
    assert ["nmap", "sslyze"][1..] == ["sslyze"];
  }

  /** A client that reports only "other" is accepted. */
  lemma OtherOnlyIsStored(timestampClock: Instant, indexClock: Instant)
    ensures Persist(Bound(TelemetryData("v1.0.0", ["other"])), timestampClock, indexClock, None).response
         == Response(200, "ok")
  {
    OnlyOtherIsAccepted(["other"]);
  }

  /** What a caller can conclude from the handler's contract, with a store that
      succeeds and then with one that fails. */
  method ClientOfHandler(clock: Instant) {
    var good := TelemetryData("v2.0.42", ["nmap", "sslyze"]);
    var bad := TelemetryData("v2.0.42", ["fooooobarrrrrrrrr"]);

    var working := new RecordingService<TelemetryDataDocument>(None);
    var response := PersistTelemetryData(working, Bound(bad), clock, clock);
    UnknownScanTypeIsRejected(clock, clock, None);
    assert response.status == 400 && working.calls == [];

    response := PersistTelemetryData(working, Bound(good), clock, clock);
    GoodDataIsStored(clock, clock);
    assert response == Response(200, "ok");
    assert working.calls == [CreateCall(IndexName(clock), TelemetryDataDocument(clock, "v2.0.42", ["nmap", "sslyze"]))];

    var failing := new RecordingService<TelemetryDataDocument>(Some(Error("Elasticsearch request failed with status code: '401'")));
    response := PersistTelemetryData(failing, Bound(good), clock, clock);
    StoreFailureIsReported(clock, clock);
    assert response.status == 500 && |failing.calls| == 1;
  }
}
