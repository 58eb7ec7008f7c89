/**
  Resolution of a configured column reference against the data set's linked
  entities (`getFieldName`). A reference `relationship.column` names a column
  of a joined table; the data set exposes each join under a runtime alias, and
  the reference has to be rewritten to `alias.column`.
 */
module FieldNames {
  import opened Options
  import opened Text

  /** One joined table of the data set: its logical name and the alias it is exposed under. */
  datatype LinkedEntity = LinkedEntity(name: string, alias: string)

  /** `linked.find(e => e.name === name)?.alias || ""`: the alias of the first entity
      with that name, or "" when there is none. */
  function FindAlias(linked: seq<LinkedEntity>, name: string): (alias: string)
    ensures (forall i :: 0 <= i < |linked| ==> linked[i].name != name) ==> alias == ""
    ensures forall i :: 0 <= i < |linked| && linked[i].name == name
                        && (forall j :: 0 <= j < i ==> linked[j].name != name)
                        ==> alias == linked[i].alias
  {
    if |linked| == 0 then ""
    else if linked[0].name == name then linked[0].alias
    else FindAlias(linked[1..], name)
  }

  /** `getFieldName(dataSet, fieldName)`; `linking` is None where the data set has no
      linking information (a canvas collection). */
  function GetFieldName(linking: Option<seq<LinkedEntity>>, fieldName: string): (name: string)
    ensures '.' !in fieldName || linking.None? ==> name == fieldName
    ensures '.' in fieldName && linking.Some? ==> '.' in name
  {
    if '.' !in fieldName || linking.None? then fieldName
    else
      var parts := Split(fieldName, '.');
      var alias := FindAlias(linking.value, ToLower(parts[0]));
      JoinCons(alias, parts[1..], '.');
      assert ([alias] + parts[1..])[0] == alias;
      assert (alias + ['.'] + Join(parts[1..], '.'))[|alias|] == '.';
      Join([alias] + parts[1..], '.')
  }

  /** The relationship segment of a reference: everything before its first '.'. */
  function Relationship(fieldName: string): string
    requires '.' in fieldName
  {
    fieldName[..IndexOf(fieldName, '.')]
  }

  /** Without a '.' or without linking information the reference is returned unchanged;
      otherwise everything from the first '.' on is kept and the relationship segment is
      replaced by the alias of the first linked entity named like its lower-cased form,
      or by "" when no entity is. */
  lemma {:induction false} GetFieldNameRewritesRelationship(linking: Option<seq<LinkedEntity>>, fieldName: string)
    ensures '.' !in fieldName || linking.None? ==> GetFieldName(linking, fieldName) == fieldName
    ensures '.' in fieldName && linking.Some? ==>
      GetFieldName(linking, fieldName)
        == FindAlias(linking.value, ToLower(Relationship(fieldName))) + fieldName[IndexOf(fieldName, '.')..]
  {
    if '.' in fieldName && linking.Some? {
      var k := IndexOf(fieldName, '.');
      var parts := Split(fieldName, '.');
      var alias := FindAlias(linking.value, ToLower(parts[0]));
      var rest := Split(fieldName[k + 1..], '.');
      assert parts == [fieldName[..k]] + rest;
      assert parts[1..] == rest;
      JoinCons(alias, rest, '.');
      JoinSplit(fieldName[k + 1..], '.');
      assert fieldName[k..] == ['.'] + fieldName[k + 1..];
    }
  }

  /** When the alias itself has no '.', the rewritten reference has the same segments after
      the first one, and the alias as its first segment. */
  lemma {:induction false} GetFieldNameSegments(linked: seq<LinkedEntity>, fieldName: string)
    requires '.' in fieldName
    requires '.' !in FindAlias(linked, ToLower(Relationship(fieldName)))
    ensures Split(GetFieldName(Some(linked), fieldName), '.')
            == [FindAlias(linked, ToLower(Relationship(fieldName)))] + Split(fieldName, '.')[1..]
  {
    var parts := Split(fieldName, '.');
    var alias := FindAlias(linked, ToLower(parts[0]));
    var k := IndexOf(fieldName, '.');
    assert parts == [fieldName[..k]] + Split(fieldName[k + 1..], '.');
    SplitJoin([alias] + parts[1..], '.');
  }
}
