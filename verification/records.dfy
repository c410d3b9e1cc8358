/** The record store: one row per dataset, with the two count columns derived once
    at load time, the per-row token lists a detail panel shows, and the per-task and
    per-modality aggregates the sidebar is built from. */
module Records {
  import opened Wrappers
  import opened Text
  import opened CommaLists

  /** One row of the dataset table as read from the file; a missing cell is `None`. */
  datatype DatasetRecord = DatasetRecord(
    datasetId: string,
    task: Option<string>,
    area: Option<string>,
    modalities: Option<string>,
    associatedTasks: Option<string>,
    benchmarkUrls: Option<string>,
    yearPublished: Option<int>,
    license: Option<string>,
    languages: Option<string>,
    description: Option<string>)

  /** A loaded row: the record plus the `benchmark_cnt` and `associated_task_cnt`
      columns. */
  datatype Row = Row(rec: DatasetRecord, benchmarkCnt: nat, associatedTaskCnt: nat)

  /** The trimmed tokens of a comma-separated cell; a missing cell has none. */
  function FieldTokens(field: Option<string>): (r: seq<string>)
    ensures TokenCount(field) == |r|
    ensures forall t :: t in r ==> t != [] && IsTrimmed(t) && Comma !in t
  {
    match field
    case None => []
    case Some(s) => TokenCountIsTokenLength(s); Tokens(s)
  }

  /** The derived columns of one record: each count is the number of tokens the
      detail panel lists for the same cell. */
  function Derive(r: DatasetRecord): (row: Row)
    ensures row.rec == r
    ensures row.benchmarkCnt == |FieldTokens(r.benchmarkUrls)|
    ensures row.associatedTaskCnt == |FieldTokens(r.associatedTasks)|
  {
    Row(r, TokenCount(r.benchmarkUrls), TokenCount(r.associatedTasks))
  }

  /** The loaded table: the file's rows in file order, each with its derived counts. */
  function Load(raw: seq<DatasetRecord>): (t: seq<Row>)
    ensures |t| == |raw|
    ensures forall i :: 0 <= i < |raw| ==> t[i].rec == raw[i]
    ensures forall i :: 0 <= i < |raw| ==>
      t[i].benchmarkCnt == |FieldTokens(raw[i].benchmarkUrls)| &&
      t[i].associatedTaskCnt == |FieldTokens(raw[i].associatedTasks)|
  {
    seq(|raw|, i requires 0 <= i < |raw| => Derive(raw[i]))
  }

  /** Every row of a table carries the counts its own cells give. */
  predicate CountsConsistent(t: seq<Row>) {
    forall i :: 0 <= i < |t| ==> t[i] == Derive(t[i].rec)
  }

  lemma LoadIsConsistent(raw: seq<DatasetRecord>)
    ensures CountsConsistent(Load(raw))
  {
  }

  // ---------------------------------------------------------------------------
  // aggregates

  /** The column `df['task']`, row by row. */
  function TaskColumn(rows: seq<Row>): (r: seq<Option<string>>)
    ensures |r| == |rows|
    ensures forall i :: 0 <= i < |rows| ==> r[i] == rows[i].rec.task
  {
    seq(|rows|, i requires 0 <= i < |rows| => rows[i].rec.task)
  }

  /** `value_counts()` for one task: the number of occurrences of the task in the
      task column, so positive exactly when some row carries it. */
  function TaskCount(rows: seq<Row>, task: string): (n: nat)
    ensures n == multiset(TaskColumn(rows))[Some(task)]
    ensures n <= |rows|
    ensures n > 0 <==> exists i :: 0 <= i < |rows| && rows[i].rec.task == Some(task)
  {
    if |rows| == 0 then 0
    else
      var rest := TaskCount(rows[1..], task);
      assert Some(task) in TaskColumn(rows) <==>
        exists i :: 0 <= i < |rows| && rows[i].rec.task == Some(task);
      assert multiset(TaskColumn(rows)) == multiset([rows[0].rec.task]) + multiset(TaskColumn(rows[1..])) by {
        assert TaskColumn(rows) == [rows[0].rec.task] + TaskColumn(rows[1..]);
      }
      (if rows[0].rec.task == Some(task) then 1 else 0) + rest
  }

  /** One step of the count: the first row, then the rest. */
  lemma TaskCountCons(rows: seq<Row>, task: string)
    requires |rows| > 0
    ensures TaskCount(rows, task) ==
      (if rows[0].rec.task == Some(task) then 1 else 0) + TaskCount(rows[1..], task)
  {
  }

  /** The list `all_modalities`: the modality tokens of every row, row by row. */
  function AllModalityTokens(rows: seq<Row>): (r: seq<string>)
    ensures forall t :: t in r <==> exists i :: 0 <= i < |rows| && t in FieldTokens(rows[i].rec.modalities)
  {
    if |rows| == 0 then []
    else
      var rest := AllModalityTokens(rows[1..]);
      assert forall i :: 1 <= i < |rows| ==> rows[i] == rows[1..][i - 1];
      FieldTokens(rows[0].rec.modalities) + rest
  }

  /** The modality options of the sidebar: `sorted(set(all_modalities))`. Each
      option is a trimmed, non-empty token some row lists, every such token is an
      option, and the options are strictly increasing. */
  function ModalityOptions(rows: seq<Row>): (r: seq<string>)
    ensures StrictlySorted(r)
    ensures forall t :: t in r <==> exists i :: 0 <= i < |rows| && t in FieldTokens(rows[i].rec.modalities)
    ensures forall t :: t in r ==> t != [] && IsTrimmed(t)
  {
    SortedDistinct(AllModalityTokens(rows))
  }

  /** `df['area'].dropna()`: the areas of the rows that have one, row by row. */
  function AreaValues(rows: seq<Row>): (r: seq<string>)
    ensures forall a :: a in r <==> exists i :: 0 <= i < |rows| && rows[i].rec.area == Some(a)
  {
    if |rows| == 0 then []
    else
      var rest := AreaValues(rows[1..]);
      assert forall i :: 1 <= i < |rows| ==> rows[i] == rows[1..][i - 1];
      (match rows[0].rec.area case Some(a) => [a] case None => []) + rest
  }
}
