/**
 * Qualified field names: a layer name and a field name joined by a dot,
 * and the split-at-dots / join-with-dots pair used to take a column name
 * apart again in the second pass.
 */
module Text {

  /** The separator between a layer name and a field name. */
  const Sep: char := '.'

  /** `layer_name + "." + field_name`. */
  function Qualify(layerName: string, fieldName: string): (q: string)
    ensures |q| == |layerName| + 1 + |fieldName|
    ensures q[|layerName|] == Sep
  {
    layerName + [Sep] + fieldName
  }

  /**
   * `s.split(".")`: the maximal dot-free pieces of `s`, empty pieces
   * included, so a string with n dots has n + 1 pieces.
   */
  function Split(s: string): (parts: seq<string>)
    ensures |parts| >= 1
    ensures forall i :: 0 <= i < |parts| ==> Sep !in parts[i]
    ensures Sep !in s ==> parts == [s]
    decreases |s|
  {
    if s == [] then [""]
    else
      var rest := Split(s[1..]);
      if s[0] == Sep then [""] + rest
      else
        assert s == [s[0]] + s[1..];
        [[s[0]] + rest[0]] + rest[1..]
  }

  /** `".".join(parts)`. */
  function Join(parts: seq<string>): string
  {
    if |parts| == 0 then ""
    else if |parts| == 1 then parts[0]
    else parts[0] + [Sep] + Join(parts[1..])
  }

  /** `field.split(".")[0]`: the layer part of a column name, the text before its first dot. */
  function LayerPart(column: string): (layer: string)
    ensures Sep !in layer
    ensures |layer| <= |column| && layer == column[..|layer|]
    ensures |layer| < |column| ==> column[|layer|] == Sep
  {
    FirstPiece(column);
    Split(column)[0]
  }

  /**
   * `".".join(field.split(".")[1:])`: the field part of a column name, the
   * text after its first dot, or the empty string when it has none.
   */
  function FieldPart(column: string): (field: string)
    ensures Sep in column ==> column == Qualify(LayerPart(column), field)
    ensures Sep !in column ==> field == ""
  {
    JoinSplit(column);
    JoinFirst(Split(column));
    Join(Split(column)[1..])
  }

  /** Joining two or more pieces puts the first one, then a dot, before the join of the rest. */
  lemma JoinFirst(parts: seq<string>)
    ensures |parts| > 1 ==> Join(parts) == parts[0] + [Sep] + Join(parts[1..])
  {
  }

  /** Joining the pieces of a split gives back the original string. */
  lemma {:induction false} JoinSplit(s: string)
    ensures Join(Split(s)) == s
    decreases |s|
  {
    if s != [] {
      var rest := Split(s[1..]);
      var parts := Split(s);
      JoinSplit(s[1..]);
      assert s == [s[0]] + s[1..];
      if s[0] == Sep {
        assert parts[0] == "" && parts[1..] == rest;
        assert Join(parts) == "" + [Sep] + Join(rest);
      } else if |rest| == 1 {
        assert parts == [[s[0]] + rest[0]];
      } else {
        assert parts[0] == [s[0]] + rest[0] && parts[1..] == rest[1..];
        assert Join(parts) == [s[0]] + rest[0] + [Sep] + Join(rest[1..]);
        assert Join(rest) == rest[0] + [Sep] + Join(rest[1..]);
      }
    }
  }

  /** The first piece of a split is the text before the first dot. */
  lemma {:induction false} FirstPiece(s: string)
    ensures |Split(s)[0]| <= |s| && Split(s)[0] == s[..|Split(s)[0]|]
    ensures |Split(s)[0]| < |s| ==> s[|Split(s)[0]|] == Sep
    decreases |s|
  {
    if s != [] && s[0] != Sep {
      FirstPiece(s[1..]);
      var p := Split(s[1..])[0];
      assert Split(s)[0] == [s[0]] + p;
      assert s == [s[0]] + s[1..];
    }
  }

  /**
   * Splitting the join of a non-empty list of dot-free pieces gives back
   * exactly those pieces.
   */
  lemma {:induction false} SplitJoin(parts: seq<string>)
    requires |parts| >= 1
    requires forall i :: 0 <= i < |parts| ==> Sep !in parts[i]
    ensures Split(Join(parts)) == parts
    decreases |parts|
  {
    if |parts| > 1 {
      SplitJoin(parts[1..]);
      SplitQualified(parts[0], Join(parts[1..]));
      assert Join(parts) == Qualify(parts[0], Join(parts[1..]));
      assert [parts[0]] + parts[1..] == parts;
    }
  }

  /** A dot-free prefix followed by a dot splits off as the first piece. */
  lemma {:induction false} SplitQualified(layerName: string, fieldName: string)
    requires Sep !in layerName
    ensures Split(Qualify(layerName, fieldName)) == [layerName] + Split(fieldName)
    decreases |layerName|
  {
    var q := Qualify(layerName, fieldName);
    if layerName == [] {
      assert q[1..] == fieldName;
    } else {
      assert q[1..] == Qualify(layerName[1..], fieldName);
      SplitQualified(layerName[1..], fieldName);
      assert [layerName[0]] + layerName[1..] == layerName;
    }
  }

  /**
   * Splitting a qualified name recovers exactly the layer name and the field
   * name it was built from, provided the layer name has no dot; the field
   * name may contain dots.
   */
  lemma SplitJoinRoundTrip(layerName: string, fieldName: string)
    requires Sep !in layerName
    ensures LayerPart(Qualify(layerName, fieldName)) == layerName
    ensures FieldPart(Qualify(layerName, fieldName)) == fieldName
  {
    var q := Qualify(layerName, fieldName);
    SplitQualified(layerName, fieldName);
    assert Split(q)[1..] == Split(fieldName);
    JoinSplit(fieldName);
  }

  /**
   * A layer name with a dot is not recovered: the layer part of
   * `layer.field` is the layer name's own text before its first dot, a
   * proper prefix of the layer name.
   */
  lemma DottedLayerNotRecovered(layerName: string, fieldName: string)
    requires Sep in layerName
    ensures LayerPart(Qualify(layerName, fieldName)) == LayerPart(layerName)
    ensures LayerPart(Qualify(layerName, fieldName)) != layerName
  {
    var q := Qualify(layerName, fieldName);
    var p, r := LayerPart(q), LayerPart(layerName);
    assert |r| < |layerName| && layerName[|r|] == Sep;
    assert q[..|layerName|] == layerName;
    assert q[|r|] == Sep && q[..|r|] == r;
  }

  /**
   * With dot-free layer names, distinct (layer, field) pairs give distinct
   * qualified names.
   */
  lemma QualifyInjective(l1: string, f1: string, l2: string, f2: string)
    requires Sep !in l1 && Sep !in l2
    requires Qualify(l1, f1) == Qualify(l2, f2)
    ensures l1 == l2 && f1 == f2
  {
    SplitJoinRoundTrip(l1, f1);
    SplitJoinRoundTrip(l2, f2);
  }
}
