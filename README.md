# pcap2csv, modelled in Dafny

`pcap_to_csv` turns a packet capture into a CSV table. Each packet is a list
of protocol layers, and each layer declares its own field names, so packets
differ in shape. The converter reads the capture twice:

1. The first pass walks every packet, every layer and every declared field
   name. It forms the qualified name `layer_name.field_name` and collects
   these names into a set. It also counts the packets.
2. The set, in sorted order, becomes the CSV header. The second pass then
   writes one row per packet. For each column it splits the name at the
   first dot into a layer name and a field name. It looks up a layer of that
   name (the model takes the first; which one pyshark returns is not
   modelled), then that field. The cell holds the field's value, or the
   empty string when the layer or the field is missing.

The model has one module per concern:

- `Wrappers`: the `Option` type that replaces the reflective lookups.
- `Text`: `Qualify`, plus Python's `str.split(".")` and `".".join(...)`
  (`Split`, `Join`), and the two halves of a column name (`LayerPart`,
  `FieldPart`).
- `Ordering`: Python's string order by code point (`Below`), and `Sorted`, the
  sorted listing of a set.
- `Capture`: packets as decoded data (`Layer`, `Packet`), the layer lookup
  (`FindLayer`), the cell value (`Cell`), and the specification of the first
  pass (`PacketFields`, `SchemaOf`).
- `Csv`: the `DictWriter` sink. It receives the header once and then rows,
  and keeps the lines it has written.
- `Pcap2Csv`: the two passes as imperative methods with loops. It also holds
  the whole conversion and lemmas about its output.

The capture is a parameter: a `seq<Packet>`, read once by each pass. A
`Layer` holds its name, the list of field names it declares, and a partial
map of the values that can be read. A declared name with no readable value
still gets a column. Its cell is empty when its layer is the one the second
pass reads: a dot-free name, and the first layer of that name
(`Pcap2Csv.DeclaredFieldFlattens`).

Splitting at the first dot recovers a layer and field exactly when the layer
name has no dot. `Text.SplitJoinRoundTrip` proves the "if" half. For the
"only if" half, `Text.DottedLayerNotRecovered` shows that for a layer whose
name has a dot, the column is looked up under that name's text before its
first dot, which is a different name. `Capture.DottedLayerNameIsMisread`
illustrates this: the value the layer `a.b` holds is not found. The model
follows the code here.

Two points about what the code does, which the model follows:

- The first pass never reads field values. A declared field whose value
  cannot be read still gets a column; it is not skipped. Its cell is empty
  when its layer is the one the second pass reads (a dot-free name, the first
  layer of that name; see `Pcap2Csv.DeclaredFieldFlattens`). Otherwise the
  cell comes from whichever layer the second pass reads.
- When a packet has several layers of the same name, schema discovery
  collects the field names of all of them, but the second pass reads values
  from one layer only. The model takes the first layer of that name; which
  one pyshark returns is not modelled.

## Model

| member | source | states |
|---|---|---|
| `Pcap2Csv.DiscoverSchema` | pcap2csv.py:17-37 | The first pass's nested loops leave the set equal to `SchemaOf(capture)`. A name is in the set iff some packet has a layer that declares a field with that qualified name. The counter equals the number of packets. |
| `Capture.SchemaIsUnion` | pcap2csv.py:22-37 | The schema is exactly the union of `layer_name.field_name` over all packets, layers and declared names. Every such name is in it, and nothing else is. With `SchemaGrows`, this is the contract of `Capture.SchemaOf`, and of `Capture.Elems`, the set a packet's list adds by `master_fields.update` (line 37). Neither has a contract of its own. |
| `Capture.PacketFieldsDeclared` | pcap2csv.py:23-29 | The list built for one packet contains exactly the qualified names its layers declare. This lemma is the contract of `Capture.PacketFields`, and of `Capture.LayerFields`, the list for one layer (lines 26-29). Neither has a contract of its own. |
| `Capture.SchemaGrows` | pcap2csv.py:17-37 | The schema after the first i packets is contained in the schema after the first j packets, for i <= j. It only grows. |
| `Ordering.Sorted` | pcap2csv.py:44 | The header is strictly increasing in code-point order, so it has no duplicates. It has exactly the schema's elements and the schema's size. |
| `Ordering.SortedUnique` | pcap2csv.py:44 | Any strictly increasing list with the schema's elements is the sorted header. The column order does not depend on the order the set is visited in. |
| `Ordering.LeastExists` | pcap2csv.py:44 | A non-empty set of strings has an element that comes before all the others. This is the step the sort rests on. |
| `Ordering.Below` | pcap2csv.py:44 | Python's `<` on `str`, the comparison `sorted` uses. It has no contract of its own. `BelowIsPythonOrder` characterises it, and the four `Below*` order lemmas show it is a strict total order. |
| `Ordering.BelowIsPythonOrder` | pcap2csv.py:44 | One string comes before another iff it is a proper prefix of the other, or the two agree up to a position where the first has the smaller code point. This is Python's string comparison. |
| `Ordering.BelowTotal` | pcap2csv.py:44 | Of two distinct strings, one comes first in Python's string order. |
| `Ordering.BelowTransitive` | pcap2csv.py:44 | Python's string order is transitive. |
| `Ordering.BelowAsymmetric` | pcap2csv.py:44 | Python's string order never puts two strings each before the other. |
| `Ordering.BelowIrreflexive` | pcap2csv.py:44 | No string comes before itself. |
| `Text.Split` | pcap2csv.py:54-55 | `str.split(".")` always returns at least one piece, and no piece contains a dot. A string without a dot splits into itself alone. |
| `Text.JoinSplit` | pcap2csv.py:54-55 | Joining the pieces of a split with dots gives back the original string. |
| `Text.SplitQualified` | pcap2csv.py:54-55 | A qualified name whose layer name has no dot splits into that layer name followed by the pieces of the field name. |
| `Text.SplitJoinRoundTrip` | pcap2csv.py:28-55 | For a layer name without a dot, the layer part of `layer.field` is the layer name, and the re-joined rest is the field name. This holds even when the field name has dots. |
| `Text.SplitJoin` | pcap2csv.py:54-55 | Splitting the dot-joined text of one or more dot-free pieces gives back those pieces. With `JoinSplit`, this specifies `Text.Join`, which has no contract of its own. |
| `Text.Qualify` | pcap2csv.py:28 | The qualified name is one character longer than the layer name and field name together, and that character, at the layer name's length, is the dot. |
| `Text.FirstPiece` | pcap2csv.py:54 | The first piece of `str.split(".")` is the prefix of the string up to its first dot, or the whole string when it has none. |
| `Text.LayerPart` | pcap2csv.py:54 | The layer part is the prefix of the column up to its first dot, or the whole column when there is none. It has no dot. |
| `Text.FieldPart` | pcap2csv.py:55 | A column with a dot is its layer part, a dot, then its field part. A column without a dot has an empty field part. |
| `Capture.Cell` | pcap2csv.py:53-61 | When layer l is the first layer named by the column's layer part, the cell is that layer's value for the field part, or empty when the layer lacks the field. A non-empty cell always comes from such a layer, so a packet without a layer of that name gets an empty cell. `CellOfQualified` states the same for a qualified column. |
| `Text.DottedLayerNotRecovered` | pcap2csv.py:28-54 | For a layer name with a dot, the layer part of `layer.field` is the layer name's own text before its first dot, so it is never the layer name. |
| `Text.QualifyInjective` | pcap2csv.py:28 | With dot-free layer names, two equal qualified names come from the same layer name and field name. |
| `Capture.FindLayer` | pcap2csv.py:57-58 | The lookup returns None iff no layer has the name. Otherwise it returns the first layer with that name. |
| `Capture.CellOfQualified` | pcap2csv.py:53-61 | For a dot-free layer name, the cell of that layer's column holds the field's value from the first layer of that name. It is empty when there is no such layer or the layer lacks the field. |
| `Capture.DottedLayerNameIsMisread` | pcap2csv.py:28-55 | A layer named `a.b` with field `c` has column `a.b.c`. That column's cell is empty even though the value exists. |
| `Pcap2Csv.BuildRow` | pcap2csv.py:52-61 | The row dictionary has exactly the header's columns as keys. Each value is the column's cell for the packet. |
| `Pcap2Csv.DictRowIsRowOf` | pcap2csv.py:52-62 | The row dictionary is written as the packet's cells in header order. |
| `Pcap2Csv.RowOf` | pcap2csv.py:52-62 | A packet's row has one value per header column. What each value is comes from `BuildRow` and `DictRowIsRowOf`, which show the row holds the packet's cells in header order. |
| `Pcap2Csv.Rows` | pcap2csv.py:50-62 | The output has one row per packet. `RowsAppend` states that the rows come in capture order. |
| `Csv.DictToList` | pcap2csv.py:62 | The written line has one value per field name. Its only contract is that length. `DictRowIsRowOf` proves its contents for the rows the converter writes. |
| `Pcap2Csv.RowsAppend` | pcap2csv.py:50-62 | Handling one more packet adds exactly that packet's row at the end of the output. |
| `Pcap2Csv.WritePackets` | pcap2csv.py:50-62 | The second pass appends one row per packet, in capture order, to the writer's existing lines. |
| `Pcap2Csv.PcapToCsv` | pcap2csv.py:8-67 | The header is the sorted schema, written once. Exactly one row per counted packet follows it. Every line has one value per column. |
| `Pcap2Csv.DeclaredFieldFlattens` | pcap2csv.py:22-61 | Every field a packet declares gets a header column. When the layer name has no dot and is the first of its name, the packet's cell there is the field's value, or empty if the value cannot be read. |
| `Pcap2Csv.TwoPacketExample` | pcap2csv.py:17-62 | Packet A has `ip` with `src` and an unreadable `ttl`. Packet B has `ip.src` and `tcp.port`. The header is `ip.src, ip.ttl, tcp.port`, and the rows are `10.0.0.1,,` and `10.0.0.2,,80`. |
| `Pcap2Csv.ExampleRows` | pcap2csv.py:50-62 | The example's rows hold for any two distinct dot-free layer names, any two distinct field names in the first layer, and any values. |
| `Csv.DictWriter.constructor` | pcap2csv.py:47 | `csv.DictWriter(csvfile, fieldnames=field_names)`: a writer with exactly those field names and no lines written yet. |
| `Csv.DictWriter.WriteHeader` | pcap2csv.py:47-48 | The field names become the next line written. |
| `Csv.DictWriter.WriteRow` | pcap2csv.py:62 | A row with a key outside the field names is refused and nothing is written. Otherwise its values are appended in header order, with missing keys written as empty. |

## Left out

- Decoding the capture file (`pyshark.FileCapture`) and reading it a second time: the capture is a `seq<Packet>` given as a parameter, and both passes read the same sequence.
- `os.path.getsize` and opening the output file: I/O.
- CSV quoting, escaping and the text encoding of lines: the sink keeps each line as a list of cell strings.
- The progress estimates: the running sum `int(packet.length) * 1.2`, the percentages and the `% 5000` / `% 500` reporting cadence. They are floating point and display only, and they do not affect the output.
- `print` messages: presentation only.
- The `try/except AttributeError` around forming a qualified name. In the model, forming the name cannot fail: every declared field name gets a column, and a value that cannot be read is simply absent from the layer's value map.
- `Capture.FindLayer`: pyshark's own layer lookup is not part of this model. The model matches the name exactly and takes the first layer of that name. Any case-insensitivity in the library is not captured, and neither is which of several same-named layers the library returns.
- Attribute access on a layer (`hasattr`/`getattr`) becomes membership in and lookup of the layer's value map. The library's own attribute-name handling is not captured.
- Command-line parsing and the `__main__` entry point: outside the converter.
