/** What the three job managers share: the HTTP error a refused start raises,
    the reply to an accepted start, and Python's truth test on the optional
    name of the active job. */
module Jobs {
  import opened Wrappers

  /** HTTP 409 Conflict. */
  const Conflict := 409

  /** FastAPI's `HTTPException(status_code, detail)`; the detail is kept
      structured and `DetailText` renders it. */
  datatype HttpException = HttpException(statusCode: int, detail: Detail)

  datatype JobNoun = ExtractorJob | EvaluatorJob

  /** The refusal of a second job: which kind of job, the active name, and
      whether the text ends with a period (the frames evaluators service
      leaves it out). */
  datatype Detail = AlreadyRunning(noun: JobNoun, name: string, closingPeriod: bool)

  function DetailText(d: Detail): string
  {
    var (title, lower) := if d.noun == ExtractorJob then ("Extractor", "extractor") else ("Evaluator", "evaluator");
    title + " '" + d.name + "' is already running. You can run only one " + lower + " at the same time. "
    + "Wait until the " + lower + " is done before run next process" + (if d.closingPeriod then "." else "")
  }

  /** A Python class name: an identifier, never empty. */
  type ClassName = s: string | s != [] witness "E"

  /** `f"'{name}' started."` */
  function StartedMessage(name: string): string
  {
    "'" + name + "' started."
  }

  /** Python truthiness of an optional name: `None` and `""` are false. */
  predicate Truthy(name: Option<string>)
  {
    name.Some? && name.value != ""
  }
}
