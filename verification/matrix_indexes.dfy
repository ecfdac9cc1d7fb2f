/**
 * The module of matrix-returning vegetation indices. Each function looks up the channel names
 * it needs with `channels.index`; if one is missing it returns NaN ("not applicable"), otherwise
 * it computes a rows × columns matrix from the image bands at the positions found. Only the
 * applicability rule and the shape are modelled, not the arithmetic.
 */
module MatrixIndexes {
  import opened Wrappers
  import opened Errors
  import opened Strings
  import Misc
  import PyModule

  /**
   * One module-level `def`: its name, the channel names it looks up (in lookup order), and the
   * order in which the formula first reads those bands, as positions into `required`.
   */
  datatype Definition = Definition(name: string, required: seq<string>, readOrder: seq<nat>)

  /** The image the index is applied to: rows × columns × bands. */
  datatype Image = Image(rows: nat, cols: nat, bands: nat)

  /** NaN for "not applicable", or a rows × columns matrix. */
  datatype Applied = NotApplicable | Matrix(rows: nat, cols: nat)

  const Ndvi := Definition("NDVI", ["red", "nir"], [1, 0])
  const Gli := Definition("GLI", ["red", "green", "blue"], [1, 0, 2])
  const GndviFirst := Definition("GNDVI", ["540:570", "nir"], [1, 0])
  const GndviSecond := Definition("GNDVI", ["800", "670"], [0, 1])
  const Ndre := Definition("NDRE", ["rededge", "nir"], [1, 0])
  const Ngrdi := Definition("NGRDI", ["green", "red"], [0, 1])
  const VariGreen := Definition("VARIgreen", ["459:490", "545:565", "620:680"], [1, 2, 0])
  const Vari700 := Definition("VARI700", ["470:490", "660:680", "700"], [2, 1, 0])
  const VariRedEdge := Definition("VARIrededge", ["700:710", "620:680"], [0, 1])
  const RandomMatrix := Definition("random_matrix", [], [])

  /** The definitions in source order. `GNDVI` is defined twice. */
  const Definitions: seq<Definition> :=
    [Ndvi, Gli, GndviFirst, GndviSecond, Ndre, Ngrdi, VariGreen, Vari700, VariRedEdge, RandomMatrix]

  /** No `def` shares its name with one of the other attributes: those start with `_` or are `np`. */
  lemma AttributesAreNotDefinitions(name: string)
    ensures PyModule.AttributeType(name).Some? ==> forall i :: 0 <= i < |Definitions| ==> Definitions[i].name != name
  {
    PyModule.AttributeNameShape(name);
    assert forall i :: 0 <= i < |Definitions| ==> Definitions[i].name[0] != '_' && |Definitions[i].name| != 2;
  }

  /** The definition a name is bound to once the module has run: the last one with that name. */
  function Bound(defs: seq<Definition>, name: string): (r: Option<Definition>)
    ensures r.None? <==> forall i :: 0 <= i < |defs| ==> defs[i].name != name
    ensures r.Some? ==> r.value.name == name && r.value in defs
  {
    if |defs| == 0 then None
    else if defs[|defs| - 1].name == name then Some(defs[|defs| - 1])
    else Bound(defs[..|defs| - 1], name)
  }

  /** A name is bound to the definition at position `k` when no later definition has that name. */
  lemma {:induction false} BoundLast(defs: seq<Definition>, name: string, k: nat)
    requires k < |defs| && defs[k].name == name
    requires forall i :: k < i < |defs| ==> defs[i].name != name
    ensures Bound(defs, name) == Some(defs[k])
  {
    if k < |defs| - 1 {
      BoundLast(defs[..|defs| - 1], name, k);
    }
  }

  /**
   * `getattr(module, name)` of the index module: an index function, another attribute (a value of
   * the type named), or nothing.
   */
  datatype Attribute = IndexFunction(def: Definition) | NotAnIndex(typeName: string) | Absent

  function Lookup(name: string): (r: Attribute)
    ensures r.IndexFunction? <==> exists i :: 0 <= i < |Definitions| && Definitions[i].name == name
    ensures r.IndexFunction? ==> r.def in Definitions && r.def.name == name
    ensures r.NotAnIndex? <==> PyModule.AttributeType(name).Some?
    ensures r.NotAnIndex? ==> r.typeName == PyModule.AttributeType(name).value
  {
    match Bound(Definitions, name)
    case Some(d) =>
      AttributesAreNotDefinitions(name);
      IndexFunction(d)
    case None =>
      match PyModule.AttributeType(name)
      case Some(t) => NotAnIndex(t)
      case None => Absent
  }

  /** `hasattr(module, name)`. */
  predicate HasAttr(name: string) {
    !Lookup(name).Absent?
  }

  /** The definition `GNDVI` ends up bound to is the second one: it needs `800` and `670`, and no longer `540:570`. */
  lemma GndviIsRedefined()
    ensures Lookup("GNDVI") == IndexFunction(GndviSecond)
    ensures "540:570" !in Lookup("GNDVI").def.required
  {
    BoundLast(Definitions, "GNDVI", 3);
  }

  /** The band positions found by `channels.index`, one per required name. */
  function Positions(required: seq<string>, channels: seq<string>): (r: seq<int>)
    ensures |r| == |required|
    ensures forall i :: 0 <= i < |required| ==> r[i] == IndexOf(channels, required[i])
  {
    seq(|required|, i requires 0 <= i < |required| => IndexOf(channels, required[i]))
  }

  /** Position, in reading order, of the first band the formula reads beyond the image, or -1. */
  function FirstOutOfBounds(readOrder: seq<nat>, positions: seq<int>, bands: nat): (r: int)
    requires forall i :: 0 <= i < |readOrder| ==> readOrder[i] < |positions|
    ensures -1 <= r < |readOrder|
    ensures r >= 0 ==> positions[readOrder[r]] >= bands
    ensures forall j :: 0 <= j < |readOrder| && (r < 0 || j < r) ==> positions[readOrder[j]] < bands
  {
    if |readOrder| == 0 then -1
    else if positions[readOrder[0]] >= bands then 0
    else
      var r := FirstOutOfBounds(readOrder[1..], positions, bands);
      if r < 0 then -1 else r + 1
  }

  /** Every required name is read by the formula, and only those. */
  predicate WellFormed(d: Definition) {
    && (forall i :: 0 <= i < |d.readOrder| ==> d.readOrder[i] < |d.required|)
    && (forall j :: 0 <= j < |d.required| ==> j in d.readOrder)
  }

  /** Calling an index function on an image whose bands are named by `channels`. */
  function Apply(d: Definition, img: Image, channels: seq<string>): (r: Result<Applied, Error>)
    requires WellFormed(d)
    ensures r == Success(NotApplicable) <==> exists i :: 0 <= i < |d.required| && d.required[i] !in channels
    ensures r.Success? && r.value.Matrix? ==> r.value == Matrix(img.rows, img.cols)
    ensures r.Failure? ==>
              r.error.IndexError? && exists i :: 0 <= i < |d.required| && IndexOf(channels, d.required[i]) >= img.bands
  {
    if FirstNotIn(d.required, channels) >= 0 then Success(NotApplicable)
    else
      var positions := Positions(d.required, channels);
      var bad := FirstOutOfBounds(d.readOrder, positions, img.bands);
      if bad >= 0 then
        Failure(IndexError("index " + Misc.IntToString(positions[d.readOrder[bad]]) +
                           " is out of bounds for axis 2 with size " + Misc.IntToString(img.bands)))
      else
        Success(Matrix(img.rows, img.cols))
  }

  /** Every definition of the module reads exactly the channels it looks up. */
  lemma DefinitionsWellFormed()
    ensures forall i :: 0 <= i < |Definitions| ==> WellFormed(Definitions[i])
  {
  }

  /**
   * An index whose channels are all present among the first bands of the image yields a matrix
   * with the image's rows and columns; this is the only way to get a matrix.
   */
  lemma ApplyShape(d: Definition, img: Image, channels: seq<string>)
    requires WellFormed(d)
    ensures Apply(d, img, channels) == Success(Matrix(img.rows, img.cols)) <==>
              forall i :: 0 <= i < |d.required| ==> 0 <= IndexOf(channels, d.required[i]) < img.bands
  {
    var positions := Positions(d.required, channels);
    if forall i :: 0 <= i < |d.required| ==> 0 <= IndexOf(channels, d.required[i]) < img.bands {
      assert FirstNotIn(d.required, channels) < 0;
      assert FirstOutOfBounds(d.readOrder, positions, img.bands) < 0;
    }
    if Apply(d, img, channels) == Success(Matrix(img.rows, img.cols)) {
      forall i | 0 <= i < |d.required|
        ensures 0 <= IndexOf(channels, d.required[i]) < img.bands
      {
        assert i in d.readOrder;
        var j :| 0 <= j < |d.readOrder| && d.readOrder[j] == i;
        assert positions[d.readOrder[j]] < img.bands;
      }
    }
  }

  /** Calling the function a name is bound to. */
  function Call(name: string, img: Image, channels: seq<string>): Result<Applied, Error>
    requires Lookup(name).IndexFunction?
  {
    DefinitionsWellFormed();
    Apply(Lookup(name).def, img, channels)
  }

  /** A two-channel index is not applicable exactly when one of its two channels is missing. */
  lemma TwoChannelApplicability(d: Definition, img: Image, channels: seq<string>)
    requires WellFormed(d) && |d.required| == 2
    ensures Apply(d, img, channels) == Success(NotApplicable) <==>
              d.required[0] !in channels || d.required[1] !in channels
  {
  }

  /** `NDVI` is bound to its only definition, the first. */
  lemma NdviIsFirst()
    ensures Lookup("NDVI") == IndexFunction(Ndvi)
  {
    assert forall i :: 0 < i < |Definitions| ==> |Definitions[i].name| != 4 || Definitions[i].name[2] != 'V';
    BoundLast(Definitions, "NDVI", 0);
  }

  /** `NDVI` is not applicable exactly when `red` or `nir` is missing from the channel list. */
  lemma NdviApplicability(img: Image, channels: seq<string>)
    ensures Lookup("NDVI") == IndexFunction(Ndvi) && WellFormed(Ndvi)
    ensures Call("NDVI", img, channels) == Success(NotApplicable) <==> "red" !in channels || "nir" !in channels
  {
    NdviIsFirst();
    DefinitionsWellFormed();
    assert Definitions[0] == Ndvi;
    TwoChannelApplicability(Ndvi, img, channels);
  }

  /** `GLI` needs `red`, `green` and `blue`. */
  lemma GliChannels()
    ensures Lookup("GLI") == IndexFunction(Gli) && Gli.required == ["red", "green", "blue"]
  {
    assert forall i :: 1 < i < |Definitions| ==> |Definitions[i].name| != 3;
    BoundLast(Definitions, "GLI", 1);
  }

  /** `VARIgreen` needs `459:490`, `545:565` and `620:680`. */
  lemma VariGreenChannels()
    ensures Lookup("VARIgreen") == IndexFunction(VariGreen) && VariGreen.required == ["459:490", "545:565", "620:680"]
  {
    assert forall i :: 6 < i < |Definitions| ==> |Definitions[i].name| != 9;
    BoundLast(Definitions, "VARIgreen", 6);
  }

  /** Lookup is exact: a channel named `RED` does not stand in for `red`. */
  lemma LookupIsCaseSensitive(img: Image)
    ensures Apply(Ndvi, img, ["RED", "NIR"]) == Success(NotApplicable)
  {
    assert "red" !in ["RED", "NIR"];
  }

  /**
   * When a name occurs twice among the channels, the band of its first occurrence is read: with
   * `red` at positions 0 and 2 of a two-band image, NDVI still yields a matrix.
   */
  lemma LookupUsesFirstOccurrence(img: Image)
    requires img.bands == 2
    ensures Apply(Ndvi, img, ["red", "nir", "red"]) == Success(Matrix(img.rows, img.cols))
  {
    assert IndexOf(["red", "nir", "red"], "red") == 0;
    assert IndexOf(["red", "nir", "red"], "nir") == 1;
    ApplyShape(Ndvi, img, ["red", "nir", "red"]);
  }

  /** `random_matrix` ignores the channels and always yields a rows × columns matrix. */
  lemma RandomMatrixAlwaysApplies(img: Image, channels: seq<string>)
    ensures Lookup("random_matrix").IndexFunction?
    ensures Apply(Lookup("random_matrix").def, img, channels) == Success(Matrix(img.rows, img.cols))
  {
    assert Lookup("random_matrix").def == RandomMatrix;
  }

  /** The repository's test: NDVI on a 2 × 3 image with bands `red` and `nir` gives a 2 × 3 matrix. */
  lemma NdviOnTestImage()
    ensures Apply(Ndvi, Image(2, 3, 2), ["red", "nir"]) == Success(Matrix(2, 3))
  {
    ApplyShape(Ndvi, Image(2, 3, 2), ["red", "nir"]);
  }
}
