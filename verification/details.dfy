/** The details panel: the field/value table of the current item
    (script.js lines 142-158). */
module Details {
  import opened Options
  import opened Seqs
  import opened Catalog

  datatype Row = Row(name: string, value: string)

  /** The nine fields in display order: (label, data-* key). */
  const Fields: seq<(string, string)> := [
    ("Camera", "camera"), ("Lens", "lens"),
    ("Focal length", "focal"), ("Shutter speed", "shutter"),
    ("Aperture", "aperture"), ("ISO", "iso"),
    ("Dimensions", "dimensions"), ("File size", "filesize"),
    ("Format", "format")]

  /** The single row shown when the item has no details at all. */
  const Placeholder: Row := Row("Info", "No details provided.")

  /** A field's row, or None when the item leaves that field empty. */
  function FieldRow(el: ImgNode): ((string, string)) -> Option<Row>
  {
    (fld: (string, string)) => if Data(el, fld.1) != "" then Some(Row(fld.0, Data(el, fld.1))) else None
  }

  /** The rows the panel shows for `el`, the fields taken from `fields`. */
  function Table(el: ImgNode, fields: seq<(string, string)>): seq<Row>
  {
    var present := FilterMap(fields, FieldRow(el));
    if |present| > 0 then present else [Placeholder]
  }

  /** The rows the panel shows for `el`. */
  function Rows(el: ImgNode): seq<Row>
  {
    Table(el, Fields)
  }

  /** The panel is never empty, holds at most one row per field unless it is
      the placeholder, and shows no row with an empty value. */
  lemma TableShape(el: ImgNode, fields: seq<(string, string)>)
    ensures var rows := Table(el, fields);
      && 1 <= |rows|
      && (|rows| <= |fields| || rows == [Placeholder])
      && forall k :: 0 <= k < |rows| ==> rows[k].value != ""
  {
    FilterMapLength(fields, FieldRow(el));
    KeptImages(fields, FieldRow(el));
  }

  /** The item's panel has between one and nine rows, none with an empty value. */
  lemma RowsShape(el: ImgNode)
    ensures 1 <= |Rows(el)| <= |Fields|
    ensures forall k :: 0 <= k < |Rows(el)| ==> Rows(el)[k].value != ""
  {
    TableShape(el, Fields);
  }

  /** No two fields share a label, and none uses the placeholder's label. */
  lemma LabelsDistinct()
    ensures forall a, b :: 0 <= a < |Fields| && 0 <= b < |Fields| && a != b ==>
              Fields[a].0 != Fields[b].0
    ensures forall a :: 0 <= a < |Fields| ==> Fields[a].0 != Placeholder.name
  {
  }

  /** For any list of fields, the table holds exactly the non-empty fields, in
      list order, each with the item's value; with no such field it is the one
      placeholder row. */
  lemma TableIsThePresentFields(el: ImgNode, fields: seq<(string, string)>)
    ensures var rows, ps := Table(el, fields), Kept(fields, FieldRow(el));
      && (|ps| == 0 ==> rows == [Placeholder])
      && (|ps| > 0 ==>
            && |rows| == |ps|
            && StrictlyIncreasing(ps)
            && forall k :: 0 <= k < |rows| ==>
                 ps[k] < |fields| && rows[k] == Row(fields[ps[k]].0, Data(el, fields[ps[k]].1))
                 && rows[k].value != "")
      && (forall j :: 0 <= j < |fields| ==> (Data(el, fields[j].1) != "" <==> j in ps))
  {
    var f := FieldRow(el);
    KeptShape(fields, f);
    KeptImages(fields, f);
    KeptIsAccepted(fields, f);
  }

  /** The details table holds exactly the item's non-empty fields, in the order
      Camera, Lens, Focal length, Shutter speed, Aperture, ISO, Dimensions,
      File size, Format; with none it is the single placeholder row. */
  lemma RowsAreThePresentFields(el: ImgNode)
    ensures var rows, ps := Rows(el), Kept(Fields, FieldRow(el));
      && (|ps| == 0 ==> rows == [Placeholder])
      && (|ps| > 0 ==>
            && |rows| == |ps|
            && StrictlyIncreasing(ps)
            && forall k :: 0 <= k < |rows| ==>
                 ps[k] < |Fields| && rows[k] == Row(Fields[ps[k]].0, Data(el, Fields[ps[k]].1))
                 && rows[k].value != "")
      && (forall j :: 0 <= j < |Fields| ==> (Data(el, Fields[j].1) != "" <==> j in ps))
  {
    TableIsThePresentFields(el, Fields);
  }

  /** In any table, a field's row appears exactly when the item gives the
      field a value. */
  lemma TableRowIff(el: ImgNode, fields: seq<(string, string)>, j: nat)
    requires j < |fields|
    ensures Row(fields[j].0, Data(el, fields[j].1)) in Table(el, fields)
            <==> Data(el, fields[j].1) != ""
  {
    TableIsThePresentFields(el, fields);
    var rows, ps := Table(el, fields), Kept(fields, FieldRow(el));
    if Data(el, fields[j].1) != "" {
      var k :| 0 <= k < |ps| && ps[k] == j;
      assert rows[k] == Row(fields[j].0, Data(el, fields[j].1));
    }
  }

  /** A field appears in the details table exactly when the item gives it a value. */
  lemma RowPresentIff(el: ImgNode, j: nat)
    requires j < |Fields|
    ensures Row(Fields[j].0, Data(el, Fields[j].1)) in Rows(el) <==> Data(el, Fields[j].1) != ""
  {
    TableRowIff(el, Fields, j);
  }

  /** With no field given the table is the single placeholder row. */
  lemma NoFieldsGivesPlaceholder(el: ImgNode)
    requires forall j :: 0 <= j < |Fields| ==> Data(el, Fields[j].1) == ""
    ensures Rows(el) == [Placeholder]
  {
    EmptyTableIsPlaceholder(el, Fields);
  }

  lemma EmptyTableIsPlaceholder(el: ImgNode, fields: seq<(string, string)>)
    requires forall j :: 0 <= j < |fields| ==> Data(el, fields[j].1) == ""
    ensures Table(el, fields) == [Placeholder]
  {
    TableIsThePresentFields(el, fields);
    var ps := Kept(fields, FieldRow(el));
    if |ps| > 0 {
      assert ps[0] in ps;
    }
  }

  /** An image with camera, ISO and format only shows those three rows, in
      that order. */
  lemma ThreeFieldsGiveThreeRows(el: ImgNode, camera: string, iso: string, format: string)
    requires camera != "" && iso != "" && format != ""
    requires el.dataset == map["camera" := camera, "iso" := iso, "format" := format]
    ensures Rows(el) == [Row("Camera", camera), Row("ISO", iso), Row("Format", format)]
  {
  }
}
