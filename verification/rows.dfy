/** The pure part of `write_entities_to_csv`: a header row `class,text`,
    then one row per entity, in order, with the class tokens joined by a
    single comma. Writing the rows to a file is not modelled. */
module Rows {
  import opened Strings
  import opened Extractor

  datatype Row = Row(classField: string, textField: string)

  const Header: Row := Row("class", "text")

  /** The row of one entity: `','.join(entity['class'])` and its text. */
  function RowOf(e: Entity): Row {
    Row(Join(e.classes, ','), e.text)
  }

  /** The header, then one row per entity in order. */
  method BuildRows(es: seq<Entity>) returns (rows: seq<Row>)
    ensures |rows| == |es| + 1
    ensures rows[0] == Header
    ensures forall k :: 0 <= k < |es| ==>
              rows[k + 1].classField == Join(es[k].classes, ',') && rows[k + 1].textField == es[k].text
  {
    rows := [Header];
    var i := 0;
    while i < |es|
      invariant 0 <= i <= |es|
      invariant |rows| == i + 1 && rows[0] == Header
      invariant forall k :: 0 <= k < i ==> rows[k + 1] == RowOf(es[k])
    {
      rows := rows + [RowOf(es[i])];
      i := i + 1;
    }
  }

  /** An entity can be read back from its row when it has at least one
      class token and no token contains a comma. */
  function EntityOfRow(r: Row): Entity {
    Entity(Split(r.classField, ','), r.textField)
  }

  predicate CommaFree(e: Entity) {
    forall k :: 0 <= k < |e.classes| ==> ',' !in e.classes[k]
  }

  /** The row keeps the entity whole: splitting the class field at commas
      gives the tokens back. */
  lemma RowRoundTrip(e: Entity)
    requires |e.classes| >= 1 && CommaFree(e)
    ensures EntityOfRow(RowOf(e)) == e
  {
    SplitJoin(e.classes, ',');
  }

  /** A two-token label becomes one comma-joined field. */
  lemma LabelFidelity(text: string)
    ensures RowOf(Entity(["PERSON", "FIRST"], text)).classField == "PERSON,FIRST"
  {
  }
}
