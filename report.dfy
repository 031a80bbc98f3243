/**
 * The records `exportToCSV` writes: a fixed header and one five-field record
 * per test result. Numeric fields are kept as integers; their decimal
 * formatting and the CSV quoting belong to the writer.
 */
module Report {
  import opened Aggregation

  datatype Field = Num(n: int) | Text(s: string)

  const Header: seq<Field> := [
    Text("Usuarios"),
    Text("Nivel de Aislamiento"),
    Text("Reservas Exitosas"),
    Text("Reservas Fallidas"),
    Text("Tiempo Promedio (ms)")
  ]

  const NanosPerMilli: int := 1_000_000

  /** `Duration.Milliseconds()`: whole milliseconds, truncated toward zero. */
  function Milliseconds(d: int): (ms: int)
    ensures d >= 0 ==> 0 <= ms && ms * NanosPerMilli <= d < (ms + 1) * NanosPerMilli
    ensures d < 0 ==> ms <= 0 && (ms - 1) * NanosPerMilli < d <= ms * NanosPerMilli
  {
    QuoTrunc(d, NanosPerMilli)
  }

  /** The record written for one test result, in header order. */
  function Record(r: TestResult): seq<Field> {
    [Num(r.numUsuarios), Text(r.isolationName), Num(r.successCount), Num(r.failureCount),
     Num(Milliseconds(r.avgDuration))]
  }

  /** The header, then one record per result, in order. */
  method ExportRows(results: seq<TestResult>) returns (rows: seq<seq<Field>>)
    ensures |rows| == |results| + 1 && rows[0] == Header
    ensures forall i :: 0 <= i < |results| ==> rows[i + 1] == Record(results[i])
    ensures forall i :: 0 <= i < |rows| ==> |rows[i]| == |Header| == 5
  {
    rows := [Header];
    for i := 0 to |results|
      invariant |rows| == i + 1 && rows[0] == Header
      invariant forall j :: 0 <= j < i ==> rows[j + 1] == Record(results[j])
      invariant forall j :: 0 <= j < |rows| ==> |rows[j]| == 5
    {
      rows := rows + [Record(results[i])];
    }
  }
}
