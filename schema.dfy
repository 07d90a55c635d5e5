/**
 The schema indexes of the store: each definition indexes one vertex label
 on a list of property keys.
 */
module Schema {

  datatype IndexDefinition = IndexDefinition(labelName: string, propertyKeys: seq<string>)

  /** The definition indexes `vertexLabel` on exactly the single property `propertyName`. */
  predicate Covers(def: IndexDefinition, vertexLabel: string, propertyName: string) {
    def.labelName == vertexLabel && def.propertyKeys == [propertyName]
  }

  /** Some definition indexes `vertexLabel` on exactly the single property `propertyName`. */
  predicate HasIndex(defs: seq<IndexDefinition>, vertexLabel: string, propertyName: string) {
    exists i :: 0 <= i < |defs| && Covers(defs[i], vertexLabel, propertyName)
  }

  /**
   The schema after creating the index on (`vertexLabel`, `propertyName`) only if
   none exists yet.
   */
  function WithIndex(defs: seq<IndexDefinition>, vertexLabel: string, propertyName: string): (r: seq<IndexDefinition>)
    ensures HasIndex(r, vertexLabel, propertyName)
    ensures defs <= r && |r| <= |defs| + 1
    ensures HasIndex(defs, vertexLabel, propertyName) ==> r == defs
    ensures forall l, q :: HasIndex(defs, l, q) ==> HasIndex(r, l, q)
  {
    if HasIndex(defs, vertexLabel, propertyName) then defs
    else
      var r := defs + [IndexDefinition(vertexLabel, [propertyName])];
      assert Covers(r[|defs|], vertexLabel, propertyName);
      assert forall i :: 0 <= i < |defs| ==> r[i] == defs[i];
      r
  }
}
