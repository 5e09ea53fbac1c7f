/** The job manager of the extractor service: it refuses a new extraction
    while one is recorded as running, resolves the extractor by name, queues
    the run as a background task and reports which extractor is active.

    Python keeps two places for the active name: the class attribute, which
    the getter reads, and an instance attribute, which the run assigns (an
    assignment through `self` always creates one). A read through `self` sees
    the instance attribute once it exists and the class attribute before. */
module ExtractorManagers {
  import opened Wrappers
  import opened Extractors
  import opened Jobs

  datatype StartError =
    | Refused(exception: HttpException)
    | FactoryError(error: ExtractorError)

  /** `extractor.__name__` of the class the factory returns. */
  function ExtractorClassName(kind: ExtractorKind): ClassName
  {
    match kind
    case BestFramesExtractor => "BestFramesExtractor"
    case TopImagesExtractor => "TopImagesExtractor"
  }

  /** The refusal of `_check_is_already_extracting`. */
  function AlreadyExtractingDetail(name: string): Detail
  {
    AlreadyRunning(ExtractorJob, name, true)
  }

  /** Different extractors have different class names, and none is empty. */
  lemma ClassNamesDistinct(a: ExtractorKind, b: ExtractorKind)
    ensures ExtractorClassName(a) == ExtractorClassName(b) <==> a == b
    ensures Truthy(Some(ExtractorClassName(a)))
  {
  }

  /** `ExtractorManager` as written. */
  class ExtractorManager {
    /** The class attribute `__active_extractor`; no method assigns it. */
    var classSlot: Option<string>
    /** The instance attribute of the same name: `None` until the first run
        assigns it, then the value last assigned. */
    var instanceSlot: Option<Option<string>>
    /** The runs queued on the background tasks, oldest first. */
    var pending: seq<ExtractorKind>

    constructor()
      ensures classSlot == None && instanceSlot == None && pending == []
    {
      classSlot := None;
      instanceSlot := None;
      pending := [];
    }

    /** What `self.__active_extractor` reads. */
    function Seen(): (r: Option<string>)
      reads this
      ensures instanceSlot.None? ==> r == classSlot
      ensures instanceSlot.Some? ==> r == instanceSlot.value
    {
      if instanceSlot.Some? then instanceSlot.value else classSlot
    }

    /** `get_active_extractor`: the class attribute, whatever the instance holds. */
    function GetActiveExtractor(): (r: Option<string>)
      reads this
      ensures r == classSlot
      ensures instanceSlot.None? ==> r == Seen()
    {
      classSlot
    }

    /** `_check_is_already_extracting`: a 409 naming the active extractor when
        the name `self` sees is truthy, nothing otherwise. */
    method CheckIsAlreadyExtracting() returns (err: Option<StartError>)
      ensures err.Some? <==> Truthy(Seen())
      ensures Truthy(Seen()) ==> err == Some(Refused(HttpException(Conflict, AlreadyExtractingDetail(Seen().value))))
    {
      var active := Seen();
      if active.Some? && active.value != "" {
        return Some(Refused(HttpException(Conflict, AlreadyExtractingDetail(active.value))));
      }
      return None;
    }

    /** `start_extractor`: the check comes first, then the factory; only a
        known name queues a run. The reply names the extractor as requested,
        and no active name is recorded here. */
    method StartExtractor(name: string) returns (r: Result<string, StartError>)
      modifies this
      ensures classSlot == old(classSlot) && instanceSlot == old(instanceSlot)
      ensures old(Truthy(Seen())) ==>
                r == Err(Refused(HttpException(Conflict, AlreadyExtractingDetail(old(Seen()).value)))) && pending == old(pending)
      ensures !old(Truthy(Seen())) && GetExtractor(name).Err? ==>
                r == Err(FactoryError(GetExtractor(name).error)) && pending == old(pending)
      ensures !old(Truthy(Seen())) && GetExtractor(name).Ok? ==>
                r == Ok(StartedMessage(name)) && pending == old(pending) + [GetExtractor(name).value]
    {
      var busy := CheckIsAlreadyExtracting();
      if busy.Some? {
        return Err(busy.value);
      }
      var kind := GetExtractor(name);
      if kind.Err? {
        return Err(FactoryError(kind.error));
      }
      pending := pending + [kind.value];
      r := Ok(StartedMessage(name));
    }

    /** `__run_extractor`: the instance attribute holds the class name while
        the extraction runs and `None` afterwards, also when the extraction
        raises; the error propagates. Returns what the check and the getter
        see during the extraction. */
    method RunExtractor(kind: ExtractorKind, processError: Option<ExtractorError>)
      returns (checkSees: Option<string>, getterSees: Option<string>, err: Option<ExtractorError>)
      modifies this
      ensures checkSees == Some(ExtractorClassName(kind)) && getterSees == old(classSlot)
      ensures err == processError
      ensures instanceSlot == Some(None) && classSlot == old(classSlot) && pending == old(pending)
    {
      instanceSlot := Some(Some(ExtractorClassName(kind)));
      checkSees := Seen();
      getterSees := GetActiveExtractor();
      instanceSlot := Some(None);
      err := processError;
    }

    /** The background runner takes the oldest queued run. */
    method RunNext(processError: Option<ExtractorError>)
      returns (checkSees: Option<string>, getterSees: Option<string>, err: Option<ExtractorError>)
      requires pending != []
      modifies this
      ensures checkSees == Some(ExtractorClassName(old(pending)[0])) && getterSees == old(classSlot)
      ensures err == processError
      ensures instanceSlot == Some(None) && classSlot == old(classSlot) && pending == old(pending)[1..]
    {
      var kind := pending[0];
      pending := pending[1..];
      checkSees, getterSees, err := RunExtractor(kind, processError);
    }
  }

  /** As written, the getter reports no extractor while one is running. */
  method GetterMissesRun(name: string) returns (getterSees: Option<string>)
    requires GetExtractor(name).Ok?
    ensures getterSees == None
  {
    var m := new ExtractorManager();
    var started := m.StartExtractor(name);
    var checkSees, err;
    checkSees, getterSees, err := m.RunNext(None);
  }

  /** As written, a second start before the first run begins is admitted, so
      two runs are queued at once. */
  method SecondStartAdmitted(name: string) returns (first: Result<string, StartError>, second: Result<string, StartError>, queued: nat)
    requires GetExtractor(name).Ok?
    ensures first.Ok? && second.Ok? && queued == 2
  {
    var m := new ExtractorManager();
    first := m.StartExtractor(name);
    second := m.StartExtractor(name);
    queued := |m.pending|;
  }

  /** The manager as evidently intended: one class-level slot that the start
      claims, the run holds and clears, and both the check and the getter read. */
  class SharedExtractorManager {
    var active: Option<string>
    var pending: seq<ExtractorKind>

    /** At most one run is queued or running, and a queued run is recorded
        as active. */
    predicate Valid()
      reads this
    {
      |pending| <= 1 && (pending != [] ==> Truthy(active))
    }

    constructor()
      ensures active == None && pending == [] && Valid()
    {
      active := None;
      pending := [];
    }

    function GetActiveExtractor(): Option<string>
      reads this
    {
      active
    }

    method StartExtractor(name: string) returns (r: Result<string, StartError>)
      requires Valid()
      modifies this
      ensures Valid()
      ensures old(Truthy(active)) ==>
                r == Err(Refused(HttpException(Conflict, AlreadyExtractingDetail(old(active).value)))) &&
                pending == old(pending) && active == old(active)
      ensures !old(Truthy(active)) && GetExtractor(name).Err? ==>
                r == Err(FactoryError(GetExtractor(name).error)) && pending == old(pending) && active == old(active)
      ensures !old(Truthy(active)) && GetExtractor(name).Ok? ==>
                r == Ok(StartedMessage(name)) && pending == [GetExtractor(name).value] &&
                active == Some(ExtractorClassName(GetExtractor(name).value))
    {
      if active.Some? && active.value != "" {
        return Err(Refused(HttpException(Conflict, AlreadyExtractingDetail(active.value))));
      }
      var kind := GetExtractor(name);
      if kind.Err? {
        return Err(FactoryError(kind.error));
      }
      pending := pending + [kind.value];
      active := Some(ExtractorClassName(kind.value));
      r := Ok(StartedMessage(name));
    }

    method RunNext(processError: Option<ExtractorError>) returns (getterSees: Option<string>, err: Option<ExtractorError>)
      requires Valid() && pending != []
      modifies this
      ensures Valid()
      ensures getterSees == Some(ExtractorClassName(old(pending)[0]))
      ensures err == processError && active == None && pending == []
    {
      var kind := pending[0];
      pending := pending[1..];
      active := Some(ExtractorClassName(kind));
      getterSees := GetActiveExtractor();
      active := None;
      err := processError;
    }
  }

  /** With the shared slot the getter reports the running extractor. */
  method SharedGetterSeesRun(name: string) returns (getterSees: Option<string>)
    requires GetExtractor(name).Ok?
    ensures getterSees == Some(ExtractorClassName(GetExtractor(name).value))
  {
    ghost var kind := GetExtractor(name).value;
    var m := new SharedExtractorManager();
    var started := m.StartExtractor(name);
    assert m.pending == [kind];
    var err;
    getterSees, err := m.RunNext(None);
  }

  /** With the shared slot a second start before the run is refused with 409. */
  method SharedSecondStartRefused(name: string) returns (first: Result<string, StartError>, second: Result<string, StartError>)
    requires GetExtractor(name).Ok?
    ensures first == Ok(StartedMessage(name))
    ensures second == Err(Refused(HttpException(Conflict, AlreadyExtractingDetail(ExtractorClassName(GetExtractor(name).value)))))
  {
    ghost var kind := GetExtractor(name).value;
    var m := new SharedExtractorManager();
    first := m.StartExtractor(name);
    assert m.active == Some(ExtractorClassName(kind)) && Truthy(m.active);
    second := m.StartExtractor(name);
  }
}
