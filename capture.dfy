/**
 * The decoded capture as the converter sees it: a packet is a sequence of
 * layers; a layer has a name, the list of field names it declares, and a
 * partial map giving the value of each field that can be read.
 */
module Capture {
  import opened Wrappers
  import opened Text

  /**
   * `name` is `layer.layer_name`, `fieldNames` is `layer.field_names`, and
   * `values` holds the attributes `getattr(layer, f)` can return; a declared
   * name missing from `values` is a field whose value cannot be read.
   */
  datatype Layer = Layer(name: string, fieldNames: seq<string>, values: map<string, string>)

  type Packet = seq<Layer>

  /** Layer `l` of the packet is the first one called `name`. */
  ghost predicate FirstNamed(packet: Packet, l: int, name: string)
  {
    0 <= l < |packet| && packet[l].name == name && forall k :: 0 <= k < l ==> packet[k].name != name
  }

  /** No layer of the packet is called `name`. */
  ghost predicate NoneNamed(packet: Packet, name: string)
  {
    forall l :: 0 <= l < |packet| ==> packet[l].name != name
  }

  /**
   * `layer in packet` followed by `getattr(packet, layer)`: the first layer
   * of the packet with the given name, if any.
   */
  function FindLayer(packet: Packet, name: string): (r: Option<Layer>)
    ensures r.None? <==> forall l :: 0 <= l < |packet| ==> packet[l].name != name
    ensures r.Some? ==> exists l :: 0 <= l < |packet| && packet[l] == r.value && packet[l].name == name
                                    && forall k :: 0 <= k < l ==> packet[k].name != name
  {
    if packet == [] then None
    else if packet[0].name == name then Some(packet[0])
    else
      var r := FindLayer(packet[1..], name);
      assert forall l :: 1 <= l < |packet| ==> packet[l] == packet[1..][l - 1];
      r
  }

  /**
   * The value the second pass puts in `column` for `packet`: the field's value
   * when the packet has a layer named by the part before the first dot and
   * that layer has the field named by the rest, otherwise the empty string.
   */
  function Cell(packet: Packet, column: string): (val: string)
    ensures forall l :: FirstNamed(packet, l, LayerPart(column)) ==>
              val == if FieldPart(column) in packet[l].values then packet[l].values[FieldPart(column)] else ""
    ensures val != "" ==> exists l :: FirstNamed(packet, l, LayerPart(column)) && FieldPart(column) in packet[l].values
  {
    match FindLayer(packet, LayerPart(column))
    case None => ""
    case Some(layer) =>
      if FieldPart(column) in layer.values then layer.values[FieldPart(column)] else ""
  }

  /** The qualified names one layer declares, in declaration order. */
  function LayerFields(layer: Layer): seq<string>
  {
    seq(|layer.fieldNames|, k requires 0 <= k < |layer.fieldNames| => Qualify(layer.name, layer.fieldNames[k]))
  }

  /** The list `fields` the first pass builds for one packet. */
  function PacketFields(packet: Packet): seq<string>
  {
    if packet == [] then []
    else PacketFields(packet[..|packet| - 1]) + LayerFields(packet[|packet| - 1])
  }

  /** `set(xs)`: the distinct elements of a list. */
  function Elems(xs: seq<string>): set<string>
  {
    set x | x in xs
  }

  /** The schema after the first pass has seen `capture`. */
  function SchemaOf(capture: seq<Packet>): set<string>
  {
    if capture == [] then {}
    else SchemaOf(capture[..|capture| - 1]) + Elems(PacketFields(capture[|capture| - 1]))
  }

  /** Some layer of `packet` declares a field whose qualified name is `x`. */
  ghost predicate Declares(packet: Packet, x: string)
  {
    exists l, k :: 0 <= l < |packet| && 0 <= k < |packet[l].fieldNames|
                   && x == Qualify(packet[l].name, packet[l].fieldNames[k])
  }

  /** The per-packet list holds exactly the qualified names the packet declares. */
  lemma {:induction false} PacketFieldsDeclared(packet: Packet, x: string)
    ensures x in PacketFields(packet) <==> Declares(packet, x)
    decreases |packet|
  {
    if packet != [] {
      var n := |packet| - 1;
      var init := packet[..n];
      PacketFieldsDeclared(init, x);
      assert forall l :: 0 <= l < n ==> init[l] == packet[l];
      if x in LayerFields(packet[n]) {
        var k :| 0 <= k < |LayerFields(packet[n])| && LayerFields(packet[n])[k] == x;
        assert Declares(packet, x) by { assert x == Qualify(packet[n].name, packet[n].fieldNames[k]); }
      }
      if Declares(packet, x) {
        var l, k :| 0 <= l < |packet| && 0 <= k < |packet[l].fieldNames|
                    && x == Qualify(packet[l].name, packet[l].fieldNames[k]);
        if l < n {
          assert Declares(init, x) by { assert init[l] == packet[l]; }
        } else {
          assert LayerFields(packet[n])[k] == x;
        }
      }
    }
  }

  /**
   * The schema is exactly the union, over every packet, layer and declared
   * field name, of the qualified names: each one is in it and nothing else.
   */
  lemma {:induction false} SchemaIsUnion(capture: seq<Packet>, x: string)
    ensures x in SchemaOf(capture) <==> exists i :: 0 <= i < |capture| && Declares(capture[i], x)
    decreases |capture|
  {
    if capture != [] {
      var n := |capture| - 1;
      var init := capture[..n];
      SchemaIsUnion(init, x);
      PacketFieldsDeclared(capture[n], x);
      assert forall i :: 0 <= i < n ==> init[i] == capture[i];
      if x in SchemaOf(init) {
        var i :| 0 <= i < n && Declares(init[i], x);
        assert Declares(capture[i], x);
      }
      if exists i :: 0 <= i < |capture| && Declares(capture[i], x) {
        var i :| 0 <= i < |capture| && Declares(capture[i], x);
        if i < n { assert Declares(init[i], x); }
      }
    }
  }

  /** The schema only grows as packets are scanned. */
  lemma {:induction false} SchemaGrows(capture: seq<Packet>, i: nat, j: nat)
    requires i <= j <= |capture|
    ensures SchemaOf(capture[..i]) <= SchemaOf(capture[..j])
    decreases j - i
  {
    if i < j {
      SchemaGrows(capture, i, j - 1);
      assert capture[..j][..j - 1] == capture[..j - 1];
    }
  }

  /**
   * A column built from a dot-free layer name and a field name flattens to
   * that field's value in the first layer of that name, or to the empty
   * string when the packet has no such layer or that layer lacks the field.
   */
  lemma CellOfQualified(packet: Packet, layerName: string, fieldName: string)
    requires Sep !in layerName
    ensures Cell(packet, Qualify(layerName, fieldName)) ==
              match FindLayer(packet, layerName)
              case None => ""
              case Some(layer) => if fieldName in layer.values then layer.values[fieldName] else ""
  {
    SplitJoinRoundTrip(layerName, fieldName);
  }

  /**
   * A layer name with a dot is misread by the split at the first dot: the
   * column `a.b.c` of layer `a.b`, field `c`, stays empty although the value
   * is there.
   */
  lemma DottedLayerNameIsMisread()
    ensures Cell([Layer("a.b", ["c"], map["c" := "v"])], Qualify("a.b", "c")) == ""
  {
    var column := Qualify("a.b", "c");
    SplitQualified("a", "b.c");
    assert column == Qualify("a", "b.c");
  }
}
