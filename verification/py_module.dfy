/**
 * What Python binds in the namespace of a module loaded from a source file, besides the module's
 * own definitions: the attributes the import system sets, and the module's imports.
 */
module PyModule {
  import opened Wrappers

  /**
   * The names an index module binds besides its `def`s, with the type of each value: those the
   * import system sets on a module loaded from a source file (both index modules open with a
   * docstring), and the `np` import.
   */
  const ModuleAttributes: seq<(string, string)> := [
    (Dunder("name"), "str"), (Dunder("doc"), "str"), (Dunder("package"), "str"), (Dunder("loader"), "SourceFileLoader"),
    (Dunder("spec"), "ModuleSpec"), (Dunder("file"), "str"), (Dunder("cached"), "str"), (Dunder("builtins"), "dict"),
    ("np", "module")
  ]

  /** A "dunder" name: `__n__`. */
  function Dunder(n: string): (r: string)
    ensures |r| == |n| + 4 && r[0] == '_' && r[1] == '_'
  {
    "__" + n + "__"
  }

  /** The type of the value bound to `name` in `attrs`, if `attrs` binds it; the first binding counts. */
  function TypeIn(attrs: seq<(string, string)>, name: string): (r: Option<string>)
    ensures r.None? <==> forall i :: 0 <= i < |attrs| ==> attrs[i].0 != name
    ensures r.Some? ==> (name, r.value) in attrs
  {
    if |attrs| == 0 then None
    else if attrs[0].0 == name then Some(attrs[0].1)
    else TypeIn(attrs[1..], name)
  }

  /** The type of a module attribute that is not an index, if the module binds `name` to one. */
  function AttributeType(name: string): (r: Option<string>)
    ensures r.None? <==> forall i :: 0 <= i < |ModuleAttributes| ==> ModuleAttributes[i].0 != name
    ensures r.Some? ==> (name, r.value) in ModuleAttributes
  {
    TypeIn(ModuleAttributes, name)
  }

  /** The names the import system sets start with `_`; the only import is `np`. */
  predicate AttributeName(n: string) {
    |n| > 0 && (n[0] == '_' || n == "np")
  }

  /** Every attribute the table lists has such a name. */
  lemma AttributeNames()
    ensures forall i :: 0 <= i < |ModuleAttributes| ==> AttributeName(ModuleAttributes[i].0)
  {
    forall i | 0 <= i < |ModuleAttributes|
      ensures AttributeName(ModuleAttributes[i].0)
    {
      if i < 8 {
        assert ModuleAttributes[i].0[0] == '_';
      }
    }
  }

  /** A name found in a table of such names is one itself. */
  lemma {:induction false} TypeInNames(attrs: seq<(string, string)>, name: string)
    requires forall i :: 0 <= i < |attrs| ==> AttributeName(attrs[i].0)
    ensures TypeIn(attrs, name).Some? ==> AttributeName(name)
  {
    if |attrs| > 0 && attrs[0].0 != name {
      TypeInNames(attrs[1..], name);
    }
  }

  /** The module's other attributes are dunder names, and the import `np`. */
  lemma AttributeNameShape(name: string)
    ensures AttributeType(name).Some? ==> |name| > 0 && (name[0] == '_' || name == "np")
  {
    AttributeNames();
    TypeInNames(ModuleAttributes, name);
  }

  /** The docstring: every module has `__doc__`, a `str` here. */
  lemma DocString()
    ensures AttributeType("__doc__") == Some("str")
  {
    assert Dunder("name") != "__doc__" by {
      assert |Dunder("name")| != |"__doc__"|;
    }
    assert Dunder("doc") == "__doc__";
  }
}
