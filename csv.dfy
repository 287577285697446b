/**
 * The tabular sink: a `csv.DictWriter` over a fixed list of field names,
 * reduced to the sequence of lines (each a list of cell values) it has
 * written. Quoting and escaping are the writer's concern and are not modelled.
 */
module Csv {

  /**
   * The positional values a dictionary row is written as: one per field
   * name, in header order, with the empty string for a missing key.
   */
  function DictToList(row: map<string, string>, fieldNames: seq<string>): (values: seq<string>)
    ensures |values| == |fieldNames|
  {
    seq(|fieldNames|, i requires 0 <= i < |fieldNames| =>
      if fieldNames[i] in row then row[fieldNames[i]] else "")
  }

  class DictWriter {
    const fieldNames: seq<string>
    var lines: seq<seq<string>>

    constructor (fieldNames: seq<string>)
      ensures this.fieldNames == fieldNames && lines == []
    {
      this.fieldNames := fieldNames;
      lines := [];
    }

    /** `writeheader()`: the field names become the next line. */
    method WriteHeader()
      modifies this
      ensures lines == old(lines) + [fieldNames]
    {
      lines := lines + [fieldNames];
    }

    /**
     * `writerow(row)`: a row with a key outside the field names is refused
     * (the writer raises) and nothing is written; otherwise its values are
     * appended in header order.
     */
    method WriteRow(row: map<string, string>) returns (ok: bool)
      modifies this
      ensures ok <==> forall k :: k in row ==> k in fieldNames
      ensures lines == if ok then old(lines) + [DictToList(row, fieldNames)] else old(lines)
    {
      ok := forall k :: k in row ==> k in fieldNames;
      if ok {
        lines := lines + [DictToList(row, fieldNames)];
      }
    }
  }
}
