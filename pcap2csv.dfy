/**
 * `pcap_to_csv`: a first pass over the capture collects every qualified field
 * name, the sorted names become the CSV header, and a second pass writes one
 * row per packet with a value (or the empty string) for every column.
 */
module Pcap2Csv {
  import opened Text
  import opened Ordering
  import opened Capture
  import opened Csv
  import opened Wrappers

  /** The values written for one packet, one per column. */
  function RowOf(packet: Packet, columns: seq<string>): (row: seq<string>)
    ensures |row| == |columns|
  {
    seq(|columns|, j requires 0 <= j < |columns| => Cell(packet, columns[j]))
  }

  /** The rows written for a capture, one per packet, in capture order. */
  function Rows(capture: seq<Packet>, columns: seq<string>): (rows: seq<seq<string>>)
    ensures |rows| == |capture|
  {
    seq(|capture|, i requires 0 <= i < |capture| => RowOf(capture[i], columns))
  }

  /**
   * The first pass: for each packet, the qualified names of all its layers'
   * declared fields are collected into a list and added to the set; the
   * packets are counted.
   */
  method DiscoverSchema(capture: seq<Packet>) returns (masterFields: set<string>, totalPackets: nat)
    ensures masterFields == SchemaOf(capture)
    ensures forall x :: x in masterFields <==> exists i :: 0 <= i < |capture| && Declares(capture[i], x)
    ensures totalPackets == |capture|
  {
    masterFields := {};
    totalPackets := 0;
    var i := 0;
    while i < |capture|
      invariant 0 <= i <= |capture|
      invariant totalPackets == i
      invariant masterFields == SchemaOf(capture[..i])
    {
      var packet := capture[i];
      var fields: seq<string> := [];
      var l := 0;
      while l < |packet|
        invariant 0 <= l <= |packet|
        invariant fields == PacketFields(packet[..l])
      {
        var layer := packet[l];
        var k := 0;
        while k < |layer.fieldNames|
          invariant 0 <= k <= |layer.fieldNames|
          invariant fields == PacketFields(packet[..l]) + LayerFields(layer)[..k]
        {
          fields := fields + [Qualify(layer.name, layer.fieldNames[k])];
          k := k + 1;
        }
        assert LayerFields(layer)[..k] == LayerFields(layer);
        assert packet[..l + 1][..l] == packet[..l];
        l := l + 1;
      }
      assert packet[..l] == packet;
      totalPackets := totalPackets + 1;
      masterFields := masterFields + Elems(fields);
      assert capture[..i + 1][..i] == capture[..i];
      i := i + 1;
    }
    assert capture[..i] == capture;
    forall x ensures x in masterFields <==> exists i :: 0 <= i < |capture| && Declares(capture[i], x) {
      SchemaIsUnion(capture, x);
    }
  }

  /**
   * The dictionary row for one packet: every column is a key, and its value
   * is the one the column's layer and field give, or the empty string.
   */
  method BuildRow(packet: Packet, fieldNames: seq<string>) returns (row: map<string, string>)
    ensures row.Keys == Elems(fieldNames)
    ensures forall c :: c in row ==> row[c] == Cell(packet, c)
  {
    row := map[];
    var j := 0;
    while j < |fieldNames|
      invariant 0 <= j <= |fieldNames|
      invariant row.Keys == Elems(fieldNames[..j])
      invariant forall c :: c in row ==> row[c] == Cell(packet, c)
    {
      var field := fieldNames[j];
      var parts := Split(field);
      var layerName := parts[0];
      var f := Join(parts[1..]);
      var val := "";
      var found := FindLayer(packet, layerName);
      if found.Some? {
        var layer := found.value;
        if f in layer.values {
          val := layer.values[f];
        }
      }
      row := row[field := val];
      assert fieldNames[..j + 1] == fieldNames[..j] + [field];
      j := j + 1;
    }
    assert fieldNames[..j] == fieldNames;
  }

  /** The second pass: one row per packet, appended to the writer in order. */
  method WritePackets(capture: seq<Packet>, writer: DictWriter)
    modifies writer
    ensures writer.lines == old(writer.lines) + Rows(capture, writer.fieldNames)
  {
    var i := 0;
    while i < |capture|
      invariant 0 <= i <= |capture|
      invariant writer.lines == old(writer.lines) + Rows(capture[..i], writer.fieldNames)
    {
      var row := BuildRow(capture[i], writer.fieldNames);
      var ok := writer.WriteRow(row);
      assert ok;
      DictRowIsRowOf(capture[i], row, writer.fieldNames);
      RowsAppend(capture, i, writer.fieldNames);
      i := i + 1;
    }
    assert capture[..i] == capture;
  }

  /** The dictionary row `BuildRow` makes is written as the packet's row. */
  lemma DictRowIsRowOf(packet: Packet, row: map<string, string>, columns: seq<string>)
    requires row.Keys == Elems(columns)
    requires forall c :: c in row ==> row[c] == Cell(packet, c)
    ensures DictToList(row, columns) == RowOf(packet, columns)
  {
    var d, r := DictToList(row, columns), RowOf(packet, columns);
    forall j | 0 <= j < |columns| ensures d[j] == r[j] {
      assert columns[j] in row;
    }
  }

  lemma RowsAppend(capture: seq<Packet>, i: nat, columns: seq<string>)
    requires i < |capture|
    ensures Rows(capture[..i + 1], columns) == Rows(capture[..i], columns) + [RowOf(capture[i], columns)]
  {
    var r1, r0 := Rows(capture[..i + 1], columns), Rows(capture[..i], columns);
    assert |r1| == |r0| + 1;
    forall j | 0 <= j < i ensures r1[j] == r0[j] {
      assert capture[..i + 1][j] == capture[..i][j];
    }
  }

  /**
   * The whole conversion: the header is the sorted schema, written once,
   * followed by exactly one row per packet counted in the first pass, each
   * with one value per column.
   */
  method PcapToCsv(capture: seq<Packet>) returns (writer: DictWriter, totalPackets: nat)
    ensures writer.fieldNames == Sorted(SchemaOf(capture))
    ensures writer.lines == [writer.fieldNames] + Rows(capture, writer.fieldNames)
    ensures |writer.lines| == totalPackets + 1
    ensures forall i :: 0 <= i < |writer.lines| ==> |writer.lines[i]| == |writer.fieldNames|
  {
    var masterFields;
    masterFields, totalPackets := DiscoverSchema(capture);
    var fieldNames := Sorted(masterFields);
    writer := new DictWriter(fieldNames);
    writer.WriteHeader();
    WritePackets(capture, writer);
    ghost var rows := Rows(capture, fieldNames);
    assert writer.lines == [fieldNames] + rows;
    forall i | 0 <= i < |writer.lines| ensures |writer.lines[i]| == |fieldNames| {
      if i > 0 { assert writer.lines[i] == rows[i - 1]; }
    }
  }

  /**
   * A field a packet declares gets a column, and in that packet's row that
   * column holds the field's value taken from the first layer of that name,
   * or the empty string when that value cannot be read.
   */
  lemma DeclaredFieldFlattens(capture: seq<Packet>, i: nat, l: nat, k: nat)
    requires i < |capture| && l < |capture[i]| && k < |capture[i][l].fieldNames|
    requires Sep !in capture[i][l].name
    requires forall m :: 0 <= m < l ==> capture[i][m].name != capture[i][l].name
    ensures Qualify(capture[i][l].name, capture[i][l].fieldNames[k]) in Sorted(SchemaOf(capture))
    ensures Cell(capture[i], Qualify(capture[i][l].name, capture[i][l].fieldNames[k]))
            == if capture[i][l].fieldNames[k] in capture[i][l].values
               then capture[i][l].values[capture[i][l].fieldNames[k]] else ""
  {
    var packet := capture[i];
    var layer := packet[l];
    var name := layer.fieldNames[k];
    var column := Qualify(layer.name, name);
    assert Declares(packet, column);
    SchemaIsUnion(capture, column);
    CellOfQualified(packet, layer.name, name);
    var found := FindLayer(packet, layer.name);
    var m :| 0 <= m < |packet| && packet[m] == found.value && packet[m].name == layer.name
             && forall n :: 0 <= n < m ==> packet[n].name != layer.name;
    assert m == l;
  }

  /**
   * Two packets, the second with an extra layer and the first with a declared
   * field whose value cannot be read: the header is the three qualified names
   * in sorted order, and every value a packet lacks is the empty string.
   */
  lemma TwoPacketExample(a: Packet, b: Packet)
    requires a == [Layer("ip", ["src", "ttl"], map["src" := "10.0.0.1"])]
    requires b == [Layer("ip", ["src"], map["src" := "10.0.0.2"]), Layer("tcp", ["port"], map["port" := "80"])]
    ensures Sorted(SchemaOf([a, b])) == ["ip.src", "ip.ttl", "tcp.port"]
    ensures Rows([a, b], Sorted(SchemaOf([a, b]))) == [["10.0.0.1", "", ""], ["10.0.0.2", "", "80"]]
  {
    var header := [Qualify("ip", "src"), Qualify("ip", "ttl"), Qualify("tcp", "port")];
    ExampleSchema(a, b, header);
    ExampleHeaderSorted(a, b, header);
    ExampleRows("ip", "tcp", "src", "ttl", "port", "10.0.0.1", "10.0.0.2", "80");
    assert Rows([a, b], header) == [["10.0.0.1", "", ""], ["10.0.0.2", "", "80"]];
  }

  /**
   * The rows of the example, for any dot-free, distinct layer names and any
   * field names and values of that shape.
   */
  lemma ExampleRows(ip: string, tcp: string, src: string, ttl: string, port: string,
                    v1: string, v2: string, v3: string)
    requires Sep !in ip && Sep !in tcp && ip != tcp && src != ttl
    ensures Rows([[Layer(ip, [src, ttl], map[src := v1])],
                  [Layer(ip, [src], map[src := v2]), Layer(tcp, [port], map[port := v3])]],
                 [Qualify(ip, src), Qualify(ip, ttl), Qualify(tcp, port)])
            == [[v1, "", ""], [v2, "", v3]]
  {
    var a := [Layer(ip, [src, ttl], map[src := v1])];
    var b := [Layer(ip, [src], map[src := v2]), Layer(tcp, [port], map[port := v3])];
    var header := [Qualify(ip, src), Qualify(ip, ttl), Qualify(tcp, port)];
    ExampleFirstRow(ip, tcp, src, ttl, port, v1);
    ExampleSecondRow(ip, tcp, src, ttl, port, v2, v3);
    assert Rows([a, b], header) == [RowOf(a, header), RowOf(b, header)];
  }

  lemma ExampleFirstRow(ip: string, tcp: string, src: string, ttl: string, port: string, v1: string)
    requires Sep !in ip && Sep !in tcp && ip != tcp && src != ttl
    ensures RowOf([Layer(ip, [src, ttl], map[src := v1])],
                  [Qualify(ip, src), Qualify(ip, ttl), Qualify(tcp, port)]) == [v1, "", ""]
  {
    var a := [Layer(ip, [src, ttl], map[src := v1])];
    var header := [Qualify(ip, src), Qualify(ip, ttl), Qualify(tcp, port)];
    CellOfFirstNamed(a, 0, ip, src);
    CellOfFirstNamed(a, 0, ip, ttl);
    CellOfMissingLayer(a, tcp, port);
    RowOfThree(a, header, v1, "", "");
  }

  lemma ExampleSecondRow(ip: string, tcp: string, src: string, ttl: string, port: string,
                         v2: string, v3: string)
    requires Sep !in ip && Sep !in tcp && ip != tcp && src != ttl
    ensures RowOf([Layer(ip, [src], map[src := v2]), Layer(tcp, [port], map[port := v3])],
                  [Qualify(ip, src), Qualify(ip, ttl), Qualify(tcp, port)]) == [v2, "", v3]
  {
    var b := [Layer(ip, [src], map[src := v2]), Layer(tcp, [port], map[port := v3])];
    var header := [Qualify(ip, src), Qualify(ip, ttl), Qualify(tcp, port)];
    CellOfFirstNamed(b, 0, ip, src);
    CellOfFirstNamed(b, 0, ip, ttl);
    CellOfFirstNamed(b, 1, tcp, port);
    RowOfThree(b, header, v2, "", v3);
  }

  /** A three-column row given cell by cell. */
  lemma RowOfThree(p: Packet, header: seq<string>, x: string, y: string, z: string)
    requires |header| == 3
    requires Cell(p, header[0]) == x && Cell(p, header[1]) == y && Cell(p, header[2]) == z
    ensures RowOf(p, header) == [x, y, z]
  {
    ThreeOf(RowOf(p, header), x, y, z);
  }

  lemma ThreeOf(r: seq<string>, x: string, y: string, z: string)
    requires |r| == 3 && r[0] == x && r[1] == y && r[2] == z
    ensures r == [x, y, z]
  {
  }

  /** The cell of a column of layer `l`, the first of its name. */
  lemma CellOfFirstNamed(p: Packet, l: nat, layerName: string, fieldName: string)
    requires Sep !in layerName && FirstNamed(p, l, layerName)
    ensures Cell(p, Qualify(layerName, fieldName)) ==
              if fieldName in p[l].values then p[l].values[fieldName] else ""
  {
    SplitJoinRoundTrip(layerName, fieldName);
  }

  /** The cell of a column whose layer the packet does not have. */
  lemma CellOfMissingLayer(p: Packet, layerName: string, fieldName: string)
    requires Sep !in layerName && NoneNamed(p, layerName)
    ensures Cell(p, Qualify(layerName, fieldName)) == ""
  {
    SplitJoinRoundTrip(layerName, fieldName);
  }

  lemma ExampleSchema(a: Packet, b: Packet, header: seq<string>)
    requires a == [Layer("ip", ["src", "ttl"], map["src" := "10.0.0.1"])]
    requires b == [Layer("ip", ["src"], map["src" := "10.0.0.2"]), Layer("tcp", ["port"], map["port" := "80"])]
    requires header == [Qualify("ip", "src"), Qualify("ip", "ttl"), Qualify("tcp", "port")]
    ensures SchemaOf([a, b]) == Elems(header)
  {
    assert PacketFields(a) == [header[0], header[1]] by { assert a[..0] == []; }
    assert PacketFields(b) == [header[0], header[2]] by { assert b[..1][..0] == []; }
    var capture := [a, b];
    assert capture[..1] == [a] && capture[..1][..0] == [];
    assert SchemaOf([a]) == SchemaOf([]) + Elems(PacketFields(a));
    assert SchemaOf(capture) == SchemaOf([a]) + Elems(PacketFields(b));
  }

  lemma ExampleHeaderSorted(a: Packet, b: Packet, header: seq<string>)
    requires SchemaOf([a, b]) == Elems(header)
    requires header == [Qualify("ip", "src"), Qualify("ip", "ttl"), Qualify("tcp", "port")]
    ensures Sorted(SchemaOf([a, b])) == header
    ensures header == ["ip.src", "ip.ttl", "tcp.port"]
  {
    assert Qualify("ip", "src") == "ip.src" && Qualify("ip", "ttl") == "ip.ttl";
    assert Qualify("tcp", "port") == "tcp.port";
    assert Below("ip.src", "ip.ttl");
    assert Below("ip.ttl", "tcp.port");
    assert Below("ip.src", "tcp.port");
    SortedUnique(SchemaOf([a, b]), header);
  }
}
