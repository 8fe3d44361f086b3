/** The eleven-column issue row shared by the table, the API path and the line parser. */
module Schema {

  /** The column names, in table order. */
  const ColumnNames: seq<string> :=
    ["Key", "Summary", "Assignee", "Reporter", "P", "Status", "Resolution", "Created", "Updated", "Due", "Labels"]

  /** One issue row: a value for each of the eleven columns. */
  datatype Record = Record(
    key: string, summary: string, assignee: string, reporter: string, p: string, status: string,
    resolution: string, created: string, updated: string, due: string, labels: string)
  {
    /** The row as the dictionary the source builds: exactly the eleven column names as keys. */
    function ToMap(): (m: map<string, string>)
      ensures m.Keys == set c | c in ColumnNames
      ensures m["Key"] == key && m["Labels"] == labels && m["Created"] == created
    {
      map["Key" := key, "Summary" := summary, "Assignee" := assignee, "Reporter" := reporter,
          "P" := p, "Status" := status, "Resolution" := resolution, "Created" := created,
          "Updated" := updated, "Due" := due, "Labels" := labels]
    }
  }

  /** Every column empty. */
  const BlankRecord := Record("", "", "", "", "", "", "", "", "", "", "")
}
