/** The job managers of the two evaluator services. Each refuses a start
    while an evaluator is recorded as active, hands the run to a background
    worker, records the evaluator's class name as active and clears it when
    the run ends, whether the run returns or raises. */
module EvaluatorsManagers {
  import opened Wrappers
  import opened Jobs

  /** The folders a frames evaluation reads from and writes to. */
  datatype RequestData = RequestData(inputFolder: string, outputFolder: string)

  /** A background run: which evaluator class, on which folders. */
  datatype Job = Job(evaluator: ClassName, request: RequestData)

  /** How a background run ends: the evaluator's constructor or its
      `process` may raise; the error is what the worker reports. */
  datatype RunOutcome = Completed | RaisedInConstructor(error: string) | RaisedInProcess(error: string)

  /** What a background run does, in order. */
  datatype RunEffect = Constructed(outputFolder: string) | Processed(inputFolder: string)

  /** The refusal of `check_is_already_evaluating`; the evaluators service
      ends it with a period, the frames evaluators service does not. */
  function AlreadyEvaluatingDetail(name: string, closingPeriod: bool): Detail
  {
    AlreadyRunning(EvaluatorJob, name, closingPeriod)
  }

  /** The effects of a run that ends with `outcome`. */
  function RunEffects(request: RequestData, outcome: RunOutcome): (r: seq<RunEffect>)
    ensures outcome.RaisedInConstructor? <==> |r| == 1
    ensures r != [] && r[0] == Constructed(request.outputFolder)
    ensures |r| == 2 ==> r[1] == Processed(request.inputFolder)
  {
    if outcome.RaisedInConstructor? then [Constructed(request.outputFolder)]
    else [Constructed(request.outputFolder), Processed(request.inputFolder)]
  }

  /** `EvaluatorsManager` of the frames evaluators service: one instance,
      the active name in the instance field `active_evaluator`. */
  class FramesEvaluatorsManager {
    var active: Option<string>
    /** Workers started and not yet finished, oldest first. */
    var running: seq<Job>
    /** What the finished workers did, in order. */
    var effects: seq<RunEffect>

    /** A worker is running exactly when an evaluator is recorded as
        active, and there is at most one. */
    predicate Valid()
      reads this
    {
      |running| <= 1 && (running != [] <==> active.Some?) &&
      (active.Some? ==> active.value == running[0].evaluator)
    }

    constructor()
      ensures active == None && running == [] && effects == [] && Valid()
    {
      active := None;
      running := [];
      effects := [];
    }

    /** `check_is_already_evaluating`: a 409 naming the active evaluator
        exactly when the active name is truthy. */
    method CheckIsAlreadyEvaluating() returns (err: Option<HttpException>)
      ensures err.Some? <==> Truthy(active)
      ensures Truthy(active) ==> err == Some(HttpException(Conflict, AlreadyEvaluatingDetail(active.value, false)))
    {
      if active.Some? && active.value != "" {
        return Some(HttpException(Conflict, AlreadyEvaluatingDetail(active.value, false)));
      }
      return None;
    }

    /** `start_evaluation_process`: refused while busy, with nothing started;
        otherwise a worker is started and the class name becomes active and
        is named in the reply. */
    method StartEvaluationProcess(evaluator: ClassName, request: RequestData) returns (r: Result<string, HttpException>)
      requires Valid()
      modifies this
      ensures Valid() && effects == old(effects)
      ensures old(Truthy(active)) ==>
                r == Err(HttpException(Conflict, AlreadyEvaluatingDetail(old(active).value, false))) &&
                active == old(active) && running == old(running)
      ensures !old(Truthy(active)) ==>
                r == Ok(StartedMessage(evaluator)) && active == Some(evaluator) &&
                running == [Job(evaluator, request)]
    {
      var busy := CheckIsAlreadyEvaluating();
      if busy.Some? {
        return Err(busy.value);
      }
      running := running + [Job(evaluator, request)];
      active := Some(evaluator);
      r := Ok(StartedMessage(active.value));
    }

    /** `__background_process` of the running worker: construct the evaluator
        on the output folder, process the input folder, and clear the active
        name in every case. */
    method BackgroundProcess(outcome: RunOutcome) returns (err: Option<string>)
      requires Valid() && running != []
      modifies this
      ensures Valid() && active == None && running == []
      ensures effects == old(effects) + RunEffects(old(running)[0].request, outcome)
      ensures outcome.Completed? <==> err.None?
      ensures outcome.RaisedInConstructor? ==> err == Some(outcome.error)
      ensures outcome.RaisedInProcess? ==> err == Some(outcome.error)
    {
      var job := running[0];
      effects := effects + [Constructed(job.request.outputFolder)];
      if outcome.RaisedInConstructor? {
        err := Some(outcome.error);
      } else {
        effects := effects + [Processed(job.request.inputFolder)];
        err := if outcome.RaisedInProcess? then Some(outcome.error) else None;
      }
      running := [];
      active := None;
    }
  }

  /** A start accepted, then a start while it runs is refused, then after
      the run ends a start is accepted again. */
  method FramesStartRunStart(a: ClassName, b: ClassName, request: RequestData)
    returns (first: Result<string, HttpException>, whileRunning: Result<string, HttpException>, afterRun: Result<string, HttpException>)
    ensures first == Ok(StartedMessage(a))
    ensures whileRunning == Err(HttpException(Conflict, AlreadyEvaluatingDetail(a, false)))
    ensures afterRun == Ok(StartedMessage(b))
  {
    var m := new FramesEvaluatorsManager();
    first := m.StartEvaluationProcess(a, request);
    whileRunning := m.StartEvaluationProcess(b, request);
    var err := m.BackgroundProcess(RaisedInProcess("failed"));
    afterRun := m.StartEvaluationProcess(b, request);
  }

  datatype EvaluatorStartError =
    | Refused(exception: HttpException)
    | UnknownEvaluator(name: string)
    | NameError(name: string)  // Python's NameError for an undefined global

  /** A background task of the evaluators service: the evaluator class and
      the configuration passed along with it. */
  datatype Task<C> = Task(evaluator: ClassName, config: C)

  /** `EvaluatorsManager` of the evaluators service: everything is
      class-level, so one object stands for the class and every caller
      shares its active slot. The factory is a parameter from names to
      evaluator classes. */
  class EvaluatorsManager<C> {
    var active: Option<string>
    var tasks: seq<Task<C>>

    predicate Valid()
      reads this
    {
      |tasks| <= 1 && (tasks != [] <==> active.Some?) &&
      (active.Some? ==> active.value == tasks[0].evaluator)
    }

    constructor()
      ensures active == None && tasks == [] && Valid()
    {
      active := None;
      tasks := [];
    }

    /** `check_is_already_evaluating` */
    method CheckIsAlreadyEvaluating() returns (err: Option<HttpException>)
      ensures err.Some? <==> Truthy(active)
      ensures Truthy(active) ==> err == Some(HttpException(Conflict, AlreadyEvaluatingDetail(active.value, true)))
    {
      if active.Some? && active.value != "" {
        return Some(HttpException(Conflict, AlreadyEvaluatingDetail(active.value, true)));
      }
      return None;
    }

    /** `start_evaluator` as written: once the check passes, the name
        `EvaluatorFactory` is looked up, and the module defines and imports
        no such name. */
    method StartEvaluatorAsWritten(name: string, config: C) returns (r: Result<string, EvaluatorStartError>)
      requires Valid()
      modifies this
      ensures Valid() && active == old(active) && tasks == old(tasks)
      ensures old(Truthy(active)) ==>
                r == Err(Refused(HttpException(Conflict, AlreadyEvaluatingDetail(old(active).value, true))))
      ensures !old(Truthy(active)) ==> r == Err(NameError("EvaluatorFactory"))
    {
      var busy := CheckIsAlreadyEvaluating();
      if busy.Some? {
        return Err(Refused(busy.value));
      }
      r := Err(NameError("EvaluatorFactory"));
    }

    /** `start_evaluator` with the factory it evidently means: refused while
        busy; otherwise the factory resolves the name, the run is queued and
        the class name becomes active and is named in the reply. */
    method StartEvaluator(name: string, config: C, factory: string -> Option<ClassName>) returns (r: Result<string, EvaluatorStartError>)
      requires Valid()
      modifies this
      ensures Valid()
      ensures old(Truthy(active)) ==>
                r == Err(Refused(HttpException(Conflict, AlreadyEvaluatingDetail(old(active).value, true)))) &&
                active == old(active) && tasks == old(tasks)
      ensures !old(Truthy(active)) && factory(name).None? ==>
                r == Err(UnknownEvaluator(name)) && active == old(active) && tasks == old(tasks)
      ensures !old(Truthy(active)) && factory(name).Some? ==>
                r == Ok(StartedMessage(factory(name).value)) && active == Some(factory(name).value) &&
                tasks == [Task(factory(name).value, config)]
    {
      var busy := CheckIsAlreadyEvaluating();
      if busy.Some? {
        return Err(Refused(busy.value));
      }
      var evaluator := factory(name);
      if evaluator.None? {
        return Err(UnknownEvaluator(name));
      }
      tasks := tasks + [Task(evaluator.value, config)];
      active := Some(evaluator.value);
      r := Ok(StartedMessage(active.value));
    }

    /** `__run_evaluator` on the queued task: the active slot is cleared
        whether `process` returns or raises, and its error propagates. */
    method RunEvaluator(processError: Option<string>) returns (err: Option<string>)
      requires Valid() && tasks != []
      modifies this
      ensures Valid() && active == None && tasks == [] && err == processError
    {
      tasks := [];
      active := None;
      err := processError;
    }
  }

  /** As written, no evaluator can ever be started: an idle manager answers
      every name with `NameError`. */
  method EvaluatorNeverStarts<C>(name: string, config: C) returns (r: Result<string, EvaluatorStartError>)
    ensures r == Err(NameError("EvaluatorFactory"))
  {
    var m := new EvaluatorsManager<C>();
    r := m.StartEvaluatorAsWritten(name, config);
  }

  /** With the factory, an idle manager starts a known evaluator and then
      refuses a second start with the period-terminated 409 detail. */
  method EvaluatorStartsOnce<C>(name: string, config: C, factory: string -> Option<ClassName>)
    returns (first: Result<string, EvaluatorStartError>, second: Result<string, EvaluatorStartError>)
    requires factory(name).Some?
    ensures first == Ok(StartedMessage(factory(name).value))
    ensures second == Err(Refused(HttpException(Conflict, AlreadyEvaluatingDetail(factory(name).value, true))))
  {
    var m := new EvaluatorsManager<C>();
    first := m.StartEvaluator(name, config, factory);
    second := m.StartEvaluator(name, config, factory);
  }
}
