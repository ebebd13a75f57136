/** The record type of the taxonomy: one `Process` per category, process
    group, process, activity or task, as a JSON-LD flavoured record. */
module ProcessTypes {
  import opened Seqs

  /** The fixed value of `@context` on every process. */
  const ContextIri: string := "https://process.org.ai"
  /** The fixed value of `@type` on every process. */
  const ProcessTypeIri: string := "https://process.org.ai/Process"

  /** The base JSON-LD record: each reserved key may be missing. */
  datatype Schema = Schema(atContext: Option<string>, atType: Option<string>, atId: Option<string>)

  /** The five levels of the classification, from the top of the tree down. */
  datatype ProcessLevel = Category | ProcessGroup | Process | Activity | Task

  /** The string a level is written as in the JSON document. */
  function LevelName(level: ProcessLevel): string {
    match level
    case Category => "Category"
    case ProcessGroup => "ProcessGroup"
    case Process => "Process"
    case Activity => "Activity"
    case Task => "Task"
  }

  /** Reads a level back from its string: any other string is not a level. */
  function ParseLevel(s: string): (r: Option<ProcessLevel>)
    ensures r.Some? ==> LevelName(r.value) == s
  {
    if s == "Category" then Some(Category)
    else if s == "ProcessGroup" then Some(ProcessGroup)
    else if s == "Process" then Some(Process)
    else if s == "Activity" then Some(Activity)
    else if s == "Task" then Some(Task)
    else None
  }

  /** Every level is written as a string that reads back as that level, so
      the five strings are distinct. */
  lemma ParseLevelName(level: ProcessLevel)
    ensures ParseLevel(LevelName(level)) == Some(level)
  {
    match level
    case Category =>
    case ProcessGroup =>
      assert "ProcessGroup" != "Category";
    case Process =>
      assert "Process" != "Category" && "Process" != "ProcessGroup";
    case Activity =>
      assert "Activity" != "Category" && "Activity" != "ProcessGroup" && "Activity" != "Process";
    case Task =>
      assert "Task" != "Category" && "Task" != "ProcessGroup" && "Task" != "Process" && "Task" != "Activity";
  }

  /** One process record. `@context`, `@type` and `@id` are `atContext`,
      `atType` and `atId`; `object` is `obj`. The `parent` and `children`
      references are advisory: no query follows them. */
  datatype ProcessRecord = ProcessRecord(
    atContext: string,
    atType: string,
    atId: string,
    name: string,
    description: Option<string>,
    code: string,
    hierarchyId: string,
    level: ProcessLevel,
    verb: string,
    obj: string,
    parent: Option<string>,
    children: Option<seq<string>>,
    metricsAvailable: bool)

  /** The literal types of `@context` and `@type`. */
  predicate WellFormed(p: ProcessRecord) {
    p.atContext == ContextIri && p.atType == ProcessTypeIri
  }

  /** A process seen as its base record: the three optional keys are all present. */
  function AsSchema(p: ProcessRecord): (s: Schema)
    ensures s.atContext.Some? && s.atType.Some? && s.atId.Some?
    ensures s.atId == Some(p.atId)
  {
    Schema(Some(p.atContext), Some(p.atType), Some(p.atId))
  }

  /** A base record that a process narrows: the reserved keys hold the fixed literals. */
  predicate NarrowsToProcess(s: Schema) {
    s.atContext == Some(ContextIri) && s.atType == Some(ProcessTypeIri) && s.atId.Some?
  }

  /** A process is well formed exactly when its base record has the narrowed values. */
  lemma WellFormedIffNarrowed(p: ProcessRecord)
    ensures WellFormed(p) <==> NarrowsToProcess(AsSchema(p))
  {
  }
}
