/**
 * The module of array-returning indices: each function takes the image and the channel names and
 * returns a small dictionary of named scalars. Only the names of the entries are modelled; the
 * values are random numbers or a sum over the pixels.
 */
module ArrayIndexes {
  import MatrixIndexes
  import PyModule

  /** One module-level `def`: its name and the keys of the dictionary it returns, in order. */
  datatype Definition = Definition(name: string, keys: seq<string>)

  /** The definitions in source order. */
  const Definitions: seq<Definition> := [
    Definition("random_array", ["first_random_value", "second_random_value"]),
    Definition("summation", ["summation"])
  ]

  /**
   * `getattr(module, name)` of the index module: an index function, another attribute (a value of
   * the type named), or nothing. Besides its `def`s the module binds the same names as the
   * matrix-returning one: those the import system sets, and `np`.
   */
  datatype Attribute = IndexFunction(def: Definition) | NotAnIndex(typeName: string) | Absent

  function Lookup(name: string): (r: Attribute)
    ensures r.IndexFunction? <==> exists i :: 0 <= i < |Definitions| && Definitions[i].name == name
    ensures r.IndexFunction? ==> r.def in Definitions && r.def.name == name
    ensures r.NotAnIndex? <==> PyModule.AttributeType(name).Some?
    ensures r.NotAnIndex? ==> r.typeName == PyModule.AttributeType(name).value
  {
    PyModule.AttributeNameShape(name);
    if name == Definitions[0].name then IndexFunction(Definitions[0])
    else if name == Definitions[1].name then IndexFunction(Definitions[1])
    else
      match PyModule.AttributeType(name)
      case Some(t) => NotAnIndex(t)
      case None => Absent
  }

  /** `hasattr(module, name)`. */
  predicate HasAttr(name: string) {
    !Lookup(name).Absent?
  }

  /** `random_array` yields two entries and `summation` one, under these names. */
  lemma ArrayKeys()
    ensures Lookup("random_array").IndexFunction? && Lookup("random_array").def.keys == ["first_random_value", "second_random_value"]
    ensures Lookup("summation").IndexFunction? && Lookup("summation").def.keys == ["summation"]
  {
  }

  /**
   * No name is an index of both modules; the names both modules bind are exactly the attributes
   * that are not indices, bound to values of the same type in each.
   */
  lemma SharedAttributes(name: string)
    ensures !(Lookup(name).IndexFunction? && MatrixIndexes.Lookup(name).IndexFunction?)
    ensures Lookup(name).NotAnIndex? <==> MatrixIndexes.Lookup(name).NotAnIndex?
    ensures Lookup(name).NotAnIndex? ==> Lookup(name).typeName == MatrixIndexes.Lookup(name).typeName
    ensures HasAttr(name) && MatrixIndexes.HasAttr(name) <==> PyModule.AttributeType(name).Some?
  {
    PyModule.AttributeNameShape(name);
    if Lookup(name).IndexFunction? {
      DefinitionsNotMatrixIndexes();
      assert name == Definitions[0].name || name == Definitions[1].name;
    }
  }

  /** Neither `def` here shares its name with one of the matrix-returning module. */
  lemma DefinitionsNotMatrixIndexes()
    ensures forall i :: 0 <= i < |MatrixIndexes.Definitions| ==>
              MatrixIndexes.Definitions[i].name != Definitions[0].name &&
              MatrixIndexes.Definitions[i].name != Definitions[1].name
  {
    assert Definitions[0].name[0] == 'r' && |Definitions[0].name| == 12;
    assert Definitions[1].name[0] == 's';
    assert forall i :: 0 <= i < |MatrixIndexes.Definitions| ==>
             MatrixIndexes.Definitions[i].name[0] != 's' &&
             (MatrixIndexes.Definitions[i].name[0] != 'r' || |MatrixIndexes.Definitions[i].name| == 13);
  }
}
