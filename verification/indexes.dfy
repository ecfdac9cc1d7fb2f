/**
 * The `indexes` task: one result row per region of interest that lies inside the image, holding
 * the dataset's description and, for each requested index, the columns that index contributes.
 * Pixel values and statistics are not modelled: a statistic is a number, or NaN when the index
 * does not apply to the image's channels.
 */
module Indexes {
  import opened Wrappers
  import opened Errors
  import opened Strings
  import opened Dicts
  import Misc
  import Paths
  import MatrixIndexes
  import ArrayIndexes
  import PyModule

  /** The requested index names: the `indexes` setting without its spaces, split at commas. */
  function IndexNames(setting: string): (r: seq<string>)
    ensures |r| == Count(setting, ',') + 1
    ensures forall i :: 0 <= i < |r| ==> ' ' !in r[i] && ',' !in r[i]
    ensures Join(r, ",") == Remove(setting, ' ')
  {
    Split(Remove(setting, ' '), ',')
  }

  /**
   * Unlike the channel list, the index names keep their letter case: lower-casing the setting
   * first would give exactly the channel parser's result.
   */
  lemma IndexNamesKeepCase(setting: string)
    ensures IndexNames(Lower(setting)) == Misc.ParseChannels(setting)
  {
  }

  lemma {:induction false} RemoveSpacesAfterCommas(names: seq<string>)
    requires forall i :: 0 <= i < |names| ==> ' ' !in names[i]
    ensures Remove(Join(names, ", "), ' ') == Join(names, ",")
  {
    if |names| == 1 {
      RemoveAbsent(names[0], ' ');
    } else if |names| > 1 {
      RemoveSpacesAfterCommas(names[1..]);
      RemoveAppend(names[0] + ", ", Join(names[1..], ", "), ' ');
      RemoveAppend(names[0], ", ", ' ');
      RemoveAbsent(names[0], ' ');
      assert Remove(", ", ' ') == ",";
    }
  }

  /** Writing the names separated by `", "` and parsing the setting gives the names back. */
  lemma IndexNamesRoundTrip(names: seq<string>)
    requires |names| > 0
    requires forall i :: 0 <= i < |names| ==> ' ' !in names[i] && ',' !in names[i]
    ensures IndexNames(Join(names, ", ")) == names
  {
    RemoveSpacesAfterCommas(names);
    SplitJoin(names, ',');
  }

  /** The setting `NDVI, GLI` asks for `NDVI` and `GLI`, spelled as written. */
  lemma IndexNamesExample()
    ensures IndexNames("NDVI, GLI") == ["NDVI", "GLI"]
  {
    assert ["NDVI", "GLI"][1..] == ["GLI"];
    assert Join(["NDVI", "GLI"], ", ") == "NDVI, GLI";
    IndexNamesRoundTrip(["NDVI", "GLI"]);
  }

  /** The step this task's `parse_config` adds: a missing `threshold` becomes `None`. */
  function ParseConfig(res: Dict<Misc.ConfigValue>): (r: Dict<Misc.ConfigValue>)
    requires res.Valid()
    ensures r.Valid()
    ensures "threshold" in r.values
    ensures "threshold" in res.values ==> r == res
    ensures "threshold" !in res.values ==> r.keys == res.keys + ["threshold"] && r.values["threshold"] == Misc.NoneValue
    ensures forall k :: k != "threshold" ==> (k in r.values <==> k in res.values)
    ensures forall k :: k != "threshold" && k in res.values ==> r.values[k] == res.values[k]
  {
    if "threshold" !in res.values then Put(res, "threshold", Misc.NoneValue) else res
  }

  lemma ParseConfigIdempotent(res: Dict<Misc.ConfigValue>)
    requires res.Valid()
    ensures ParseConfig(ParseConfig(res)) == ParseConfig(res)
  {
  }

  lemma ThresholdIsText()
    ensures "threshold" !in Misc.FlagKeys && "threshold" != "cores"
  {
  }

  /**
   * Applied to what the shared `parse_config` returns, the threshold is the text of the last
   * key spelling `threshold` in any letter case, or `None` when there is none.
   */
  lemma ThresholdIsTextOrNone(config: Dict<string>)
    requires config.Valid() && PutEach(Empty(), Misc.Items(config)).Success?
    ensures var res := ParseConfig(PutEach(Empty(), Misc.Items(config)).value);
            res.values["threshold"].Str? || res.values["threshold"].NoneValue?
  {
    var items := Misc.Items(config);
    var res: Dict<Misc.ConfigValue> := PutEach(Empty(), items).value;
    if "threshold" in res.values {
      ThresholdIsText();
      Misc.TextKeyItems(config, "threshold");
      PutEachKeepsProperty(Empty(), items, "threshold", (v: Misc.ConfigValue) => v.Str?);
    }
  }

  /**
   * A region's identifier as the shapefile column gives it: text, or a value of another type (an
   * `int` from a numeric column, say), named by its type.
   */
  datatype Id = TextId(s: string) | OtherId(typeName: string)

  /**
   * One cell of a result row. The geometry-index field holds `[i]`, the one-element list of the
   * region's identifier; every other cell is a scalar.
   */
  datatype Cell = Text(s: string) | IdList(id: Id) | Setting(v: Misc.ConfigValue) | PixelCount(n: nat) | Number | NaN

  /** What the task reads from the dataset: type, title, files, channel names and the geometry-index field. */
  datatype Survey = Survey(dtype: string, title: string, ortho: string, shapes: string, channels: seq<string>, field: string)

  /**
   * The raster extracted for one region: its shape, the number of unmasked pixels, and how many
   * remain once the threshold filter has been applied.
   */
  datatype Raster = Raster(image: MatrixIndexes.Image, pixels: nat, pixelsAfterFilter: nat)

  /** A region of interest: its identifier and its raster, or `None` when it lies outside the image. */
  datatype Roi = Roi(id: Id, raster: Option<Raster>)

  /** The keys of the row's dictionary literal before the geometry-index field, in order. */
  const DescriptionKeys: seq<string> := ["type", "dataset", "ortho_file", "shapes_file", "channels"]

  /** The keys after it: the literal's last two, then the count taken after filtering. */
  const CountKeys: seq<string> := ["threshold", "pixels", "pixels_after_threshold"]

  /** The first five entries of the row's dictionary literal: the dataset's description. */
  function Description(s: Survey): (d: Dict<Cell>)
    ensures d.Valid() && d.keys == DescriptionKeys
    ensures forall k :: k in d.values ==> d.values[k].Text?
  {
    Dict(DescriptionKeys, map["type" := Text(s.dtype), "dataset" := Text(s.title), "ortho_file" := Text(s.ortho),
                              "shapes_file" := Text(s.shapes), "channels" := Text(Join(s.channels, " "))])
  }

  lemma KeyListsDisjoint()
    ensures forall k :: k in DescriptionKeys ==> k !in CountKeys
  {
  }

  /** The literal up to the geometry-index field, which holds the region's identifier. */
  function WithField(s: Survey, id: Id): (d: Dict<Cell>)
    ensures d.Valid()
  {
    Put(Description(s), s.field, IdList(id))
  }

  /** The literal's last two entries. */
  function PutSettings(d: Dict<Cell>, threshold: Cell, pixels: Cell): (r: Dict<Cell>)
    requires d.Valid()
    ensures r.Valid()
    ensures |r.keys| >= |d.keys| && r.keys[..|d.keys|] == d.keys
    ensures r.values == d.values["threshold" := threshold]["pixels" := pixels]
  {
    var d2 := Put(d, "threshold", threshold);
    PutKeepsPrefix(d2, "pixels", pixels, d.keys);
    Put(d2, "pixels", pixels)
  }

  /** The literal's last two entries, then the count taken after filtering. */
  function PutCounts(d: Dict<Cell>, threshold: Cell, pixels: Cell, after: Cell): (r: Dict<Cell>)
    requires d.Valid()
    ensures r.Valid()
    ensures r.values == d.values["threshold" := threshold]["pixels" := pixels]["pixels_after_threshold" := after]
  {
    Put(PutSettings(d, threshold, pixels), "pixels_after_threshold", after)
  }

  /** The counts are assigned after the entries they follow, which keep their places. */
  lemma PutCountsKeepsPrefix(d: Dict<Cell>, threshold: Cell, pixels: Cell, after: Cell)
    requires d.Valid()
    ensures var r := PutCounts(d, threshold, pixels, after);
            |r.keys| >= |d.keys| && r.keys[..|d.keys|] == d.keys
  {
    PutKeepsPrefix(PutSettings(d, threshold, pixels), "pixels_after_threshold", after, d.keys);
  }

  /** The count after filtering: without a threshold nothing is filtered. */
  function AfterFilter(rb: Raster, threshold: Misc.ConfigValue): nat {
    if threshold.NoneValue? then rb.pixels else rb.pixelsAfterFilter
  }

  /** The row before any index is added: the description, the field, the threshold and the two counts. */
  function BaseRow(s: Survey, id: Id, rb: Raster, threshold: Misc.ConfigValue): (d: Dict<Cell>)
    ensures d.Valid()
  {
    PutCounts(WithField(s, id), Setting(threshold), PixelCount(rb.pixels), PixelCount(AfterFilter(rb, threshold)))
  }

  /**
   * The row starts with the description columns in order, then the geometry-index field unless it
   * repeats one of them.
   */
  lemma BaseRowOrder(s: Survey, id: Id, rb: Raster, threshold: Misc.ConfigValue)
    ensures var d := BaseRow(s, id, rb, threshold);
            var head := if s.field in DescriptionKeys then DescriptionKeys else DescriptionKeys + [s.field];
            |d.keys| >= |head| && d.keys[..|head|] == head
  {
    var d1 := WithField(s, id);
    PutCountsKeepsPrefix(d1, Setting(threshold), PixelCount(rb.pixels), PixelCount(AfterFilter(rb, threshold)));
  }

  /** The row's columns are the description, the field, the threshold and the two counts. */
  lemma BaseRowColumns(s: Survey, id: Id, rb: Raster, threshold: Misc.ConfigValue)
    ensures forall k :: k in BaseRow(s, id, rb, threshold).values <==> k in DescriptionKeys || k == s.field || k in CountKeys
  {
  }

  /** The field holds the region's identifier unless a later column of the same name overwrites it. */
  lemma BaseRowField(s: Survey, id: Id, rb: Raster, threshold: Misc.ConfigValue)
    requires s.field !in CountKeys
    ensures BaseRow(s, id, rb, threshold).values[s.field] == IdList(id)
  {
  }

  /** The description columns keep the dataset's values unless the field overwrites them. */
  lemma BaseRowDescription(s: Survey, id: Id, rb: Raster, threshold: Misc.ConfigValue, k: string)
    requires k in DescriptionKeys && k != s.field
    ensures BaseRow(s, id, rb, threshold).values[k] == Description(s).values[k]
  {
    KeyListsDisjoint();
  }

  /** The counts hold the pixel counts, which agree when there is no threshold. */
  lemma BaseRowCounts(s: Survey, id: Id, rb: Raster, threshold: Misc.ConfigValue)
    ensures var d := BaseRow(s, id, rb, threshold);
            && d.values["threshold"] == Setting(threshold)
            && d.values["pixels"] == PixelCount(rb.pixels)
            && (threshold.NoneValue? ==> d.values["pixels_after_threshold"] == PixelCount(rb.pixels))
  {
    CountsHeld(WithField(s, id).values, Setting(threshold), PixelCount(rb.pixels), PixelCount(AfterFilter(rb, threshold)));
  }

  /** Each count column holds what was last assigned to it. */
  lemma CountsHeld(m: map<string, Cell>, threshold: Cell, pixels: Cell, after: Cell)
    ensures var r := m["threshold" := threshold]["pixels" := pixels]["pixels_after_threshold" := after];
            r["threshold"] == threshold && r["pixels"] == pixels && r["pixels_after_threshold"] == after
  {
    CountKeysDistinct();
  }

  lemma CountKeysMembers(k: string)
    ensures k in CountKeys <==> k == "threshold" || k == "pixels" || k == "pixels_after_threshold"
  {
  }

  lemma CountKeysDistinct()
    ensures "threshold" != "pixels" && "threshold" != "pixels_after_threshold" && "pixels" != "pixels_after_threshold"
  {
    assert |"pixels"| != |"threshold"|;
    assert "pixels_after_threshold"[0] == 'p';
  }

  /** The `channels` column gives the channel names back when split at whitespace. */
  lemma ChannelsColumnRoundTrip(s: Survey)
    requires forall i :: 0 <= i < |s.channels| ==> |s.channels[i]| > 0 && NoSpace(s.channels[i])
    ensures Description(s).values["channels"].Text? && Words(Description(s).values["channels"].s) == s.channels
  {
    WordsJoin(s.channels);
  }

  /** The five statistic columns of a matrix-returning index. */
  function StatKeys(name: string): seq<string> {
    [name + "_mean", name + "_median", name + "_std", name + "_max", name + "_min"]
  }

  /** What calling an attribute that is not a function raises: a string, a dictionary, a module. */
  function NotCallable(typeName: string): Error {
    TypeError("'" + typeName + "' object is not callable")
  }

  /** The statistics of an index's result: numbers for a matrix, NaN when the index does not apply. */
  function StatCell(a: MatrixIndexes.Applied): Cell {
    if a.Matrix? then Number else NaN
  }

  /**
   * What one pass of the loop over the index names does to the row: raise, or add the statistic
   * columns (all holding `cell`) and then the array columns (holding numbers).
   */
  datatype Effect = Raises(error: Error) | Adds(stats: seq<string>, cell: Cell, arrays: seq<string>)

  /** The columns an effect adds. */
  function Columns(e: Effect): seq<string> {
    if e.Adds? then e.stats + e.arrays else []
  }

  /**
   * The loop body for one name: `hasattr(mri, name)` and the call come first, then
   * `hasattr(ari, name)` and the call; calling an attribute that is not an index (the docstring,
   * the `np` module, ...) raises `TypeError`.
   */
  function EffectOf(name: string, channels: seq<string>, image: MatrixIndexes.Image): (e: Effect)
    ensures e.Raises? <==>
              || MatrixIndexes.Lookup(name).NotAnIndex?
              || (MatrixIndexes.Lookup(name).IndexFunction? && MatrixIndexes.Call(name, image, channels).Failure?)
    ensures e.Raises? && MatrixIndexes.Lookup(name).IndexFunction? ==>
              e.error == MatrixIndexes.Call(name, image, channels).error && e.error.IndexError?
    ensures e.Raises? && !MatrixIndexes.Lookup(name).IndexFunction? ==>
              PyModule.AttributeType(name).Some? && e.error == NotCallable(PyModule.AttributeType(name).value)
    ensures e.Adds? ==> e.stats == if MatrixIndexes.Lookup(name).IndexFunction? then StatKeys(name) else []
    ensures e.Adds? ==> e.arrays == if ArrayIndexes.Lookup(name).IndexFunction? then ArrayIndexes.Lookup(name).def.keys else []
    ensures e.Adds? && MatrixIndexes.Lookup(name).IndexFunction? ==>
              var def := MatrixIndexes.Lookup(name).def;
              (e.cell == NaN <==> exists i :: 0 <= i < |def.required| && def.required[i] !in channels) &&
              (e.cell == NaN || e.cell == Number)
    ensures e.Adds? ==> e.cell == NaN || e.cell == Number
  {
    ArrayIndexes.SharedAttributes(name);
    MatrixIndexes.DefinitionsWellFormed();
    var matrix: Result<(seq<string>, Cell), Error> :=
      match MatrixIndexes.Lookup(name)
      case IndexFunction(_) =>
        (match MatrixIndexes.Call(name, image, channels)
         case Failure(err) => Failure(err)
         case Success(a) => Success((StatKeys(name), StatCell(a))))
      case NotAnIndex(t) => Failure(NotCallable(t))
      case Absent => Success(([], Number));
    if matrix.Failure? then Raises(matrix.error)
    else match ArrayIndexes.Lookup(name)
      case IndexFunction(def) => Adds(matrix.value.0, matrix.value.1, def.keys)
      case NotAnIndex(t) => Raises(NotCallable(t))
      case Absent => Adds(matrix.value.0, matrix.value.1, [])
  }

  /** A name neither module defines adds no column and raises nothing. */
  lemma UnknownNameHasNoEffect(name: string, channels: seq<string>, image: MatrixIndexes.Image)
    requires !MatrixIndexes.HasAttr(name) && !ArrayIndexes.HasAttr(name)
    ensures EffectOf(name, channels, image).Adds? && Columns(EffectOf(name, channels, image)) == []
  {
  }

  /** A matrix index adds exactly its five statistic columns, or raises `IndexError`. */
  lemma MatrixIndexColumns(name: string, channels: seq<string>, image: MatrixIndexes.Image)
    requires MatrixIndexes.Lookup(name).IndexFunction?
    ensures EffectOf(name, channels, image).Adds? ==> Columns(EffectOf(name, channels, image)) == StatKeys(name)
    ensures EffectOf(name, channels, image).Raises? ==> EffectOf(name, channels, image).error.IndexError?
  {
    ArrayIndexes.SharedAttributes(name);
  }

  /**
   * A name the modules bind to something other than an index (`__doc__`, `__name__`, `np`, ...)
   * passes `hasattr`, and calling it raises `TypeError` naming the value's type.
   */
  lemma AttributeNameRaises(name: string, channels: seq<string>, image: MatrixIndexes.Image)
    requires PyModule.AttributeType(name).Some?
    ensures EffectOf(name, channels, image) == Raises(NotCallable(PyModule.AttributeType(name).value))
  {
  }

  /** Asking for the index `__doc__` calls the module's docstring. */
  lemma DocStringRaises(channels: seq<string>, image: MatrixIndexes.Image)
    ensures EffectOf("__doc__", channels, image) == Raises(NotCallable("str"))
  {
    PyModule.DocString();
    AttributeNameRaises("__doc__", channels, image);
  }

  /** Applying an effect to a row. */
  function Step(d: Dict<Cell>, e: Effect): (r: Result<Dict<Cell>, Error>)
    requires d.Valid()
    ensures r.Success? ==> r.value.Valid() && |r.value.keys| >= |d.keys| && r.value.keys[..|d.keys|] == d.keys
  {
    match e
    case Raises(err) => Failure(err)
    case Adds(stats, cell, arrays) =>
      var m := PutAll(d, stats, cell);
      var r := PutAll(m, arrays, Number);
      PrefixOfPrefix(r.keys, m.keys, d.keys);
      Success(r)
  }

  /**
   * A step fails exactly on a raising effect; otherwise the array columns hold numbers, the other
   * statistic columns the effect's cell, and every other column keeps its value.
   */
  lemma StepValues(d: Dict<Cell>, e: Effect)
    requires d.Valid() && e.Adds?
    ensures Step(d, e).Success?
    ensures forall k :: k in Step(d, e).value.values <==> k in d.values || k in Columns(e)
  {
    var m := PutAll(d, e.stats, e.cell);
    PutAllValues(d, e.stats, e.cell);
    PutAllValues(m, e.arrays, Number);
    assert Step(d, e).value == PutAll(m, e.arrays, Number);
  }

  /**
   * After a step an array column holds a number, another statistic column the effect's cell, and
   * every other column its old value.
   */
  lemma StepValueAt(d: Dict<Cell>, e: Effect, k: string)
    requires d.Valid() && e.Adds? && (k in d.values || k in Columns(e))
    ensures Step(d, e).Success? && k in Step(d, e).value.values
    ensures Step(d, e).value.values[k] ==
              if k in e.arrays then Number else if k in e.stats then e.cell else d.values[k]
  {
    var m := PutAll(d, e.stats, e.cell);
    PutAllValues(d, e.stats, e.cell);
    PutAllValues(m, e.arrays, Number);
    assert Step(d, e).value == PutAll(m, e.arrays, Number);
  }

  /** The loop over the index names, as the effects of the names in order; the first error ends it. */
  function AddIndexes(d: Dict<Cell>, effects: seq<Effect>): (r: Result<Dict<Cell>, Error>)
    requires d.Valid()
    ensures r.Success? ==> r.value.Valid() && |r.value.keys| >= |d.keys| && r.value.keys[..|d.keys|] == d.keys
  {
    if |effects| == 0 then Success(d)
    else
      var m :- AddIndexes(d, effects[..|effects| - 1]);
      var r := Step(m, effects[|effects| - 1]);
      if r.Success? then
        PrefixOfPrefix(r.value.keys, m.keys, d.keys);
        r
      else r
  }

  /** Position of the first raising effect, or -1. */
  function FirstRaise(effects: seq<Effect>): (r: int)
    ensures -1 <= r < |effects|
    ensures r >= 0 ==> effects[r].Raises?
    ensures forall j :: 0 <= j < |effects| && (r < 0 || j < r) ==> effects[j].Adds?
  {
    if |effects| == 0 then -1
    else
      var k := FirstRaise(effects[..|effects| - 1]);
      if k >= 0 then k
      else if effects[|effects| - 1].Raises? then |effects| - 1
      else -1
  }

  /** The loop fails exactly when some name raises, and then with the first such error. */
  lemma {:induction false} AddIndexesFailure(d: Dict<Cell>, effects: seq<Effect>)
    requires d.Valid()
    ensures AddIndexes(d, effects).Failure? <==> FirstRaise(effects) >= 0
    ensures AddIndexes(d, effects).Failure? ==> AddIndexes(d, effects).error == effects[FirstRaise(effects)].error
  {
    if |effects| > 0 {
      var init := effects[..|effects| - 1];
      AddIndexesFailure(d, init);
      var m := AddIndexes(d, init);
      if m.Success? && effects[|effects| - 1].Adds? {
        StepValues(m.value, effects[|effects| - 1]);
      }
    }
  }

  /** The columns the effects add together, in order (with repeats). */
  function AllColumns(effects: seq<Effect>): seq<string> {
    if |effects| == 0 then [] else AllColumns(effects[..|effects| - 1]) + Columns(effects[|effects| - 1])
  }

  /**
   * After a successful loop the row's columns are its starting columns plus every column of every
   * name; the starting columns no name adds keep their values.
   */
  lemma {:induction false} AddIndexesColumns(d: Dict<Cell>, effects: seq<Effect>)
    requires d.Valid() && AddIndexes(d, effects).Success?
    ensures forall k :: k in AddIndexes(d, effects).value.values <==> k in d.values || k in AllColumns(effects)
    ensures forall k :: k in d.values && k !in AllColumns(effects) ==> AddIndexes(d, effects).value.values[k] == d.values[k]
  {
    if |effects| > 0 {
      var init := effects[..|effects| - 1];
      AddIndexesColumns(d, init);
      var m := AddIndexes(d, init).value;
      var e := effects[|effects| - 1];
      StepValues(m, e);
      forall k | k in d.values && k !in AllColumns(effects)
        ensures AddIndexes(d, effects).value.values[k] == d.values[k]
      {
        StepValueAt(m, e, k);
      }
    }
  }

  /** A column is among the effects' columns exactly when one of the effects adds it. */
  lemma {:induction false} AllColumnsMembers(effects: seq<Effect>, k: string)
    ensures k in AllColumns(effects) <==> exists i :: 0 <= i < |effects| && k in Columns(effects[i])
  {
    if |effects| > 0 {
      var init := effects[..|effects| - 1];
      AllColumnsMembers(init, k);
      assert forall i :: 0 <= i < |init| ==> init[i] == effects[i];
    }
  }

  /** The effects of the requested names, in order. */
  function Effects(names: seq<string>, channels: seq<string>, image: MatrixIndexes.Image): (r: seq<Effect>)
    ensures |r| == |names|
    ensures forall i :: 0 <= i < |names| ==> r[i] == EffectOf(names[i], channels, image)
  {
    seq(|names|, i requires 0 <= i < |names| => EffectOf(names[i], channels, image))
  }

  /** Appending a name neither module defines changes nothing. */
  lemma UnknownNameIgnored(d: Dict<Cell>, names: seq<string>, name: string, channels: seq<string>, image: MatrixIndexes.Image)
    requires d.Valid() && !MatrixIndexes.HasAttr(name) && !ArrayIndexes.HasAttr(name)
    ensures AddIndexes(d, Effects(names + [name], channels, image)) == AddIndexes(d, Effects(names, channels, image))
  {
    var all := Effects(names + [name], channels, image);
    assert all[..|names|] == Effects(names, channels, image);
    UnknownNameHasNoEffect(name, channels, image);
    var m := AddIndexes(d, Effects(names, channels, image));
    if m.Success? {
      assert PutAll(m.value, [], NaN) == m.value;
    }
  }

  /** The row of one region inside the image. */
  function Row(s: Survey, id: Id, rb: Raster, threshold: Misc.ConfigValue, names: seq<string>): (r: Result<Dict<Cell>, Error>)
    ensures r.Success? ==> r.value.Valid()
  {
    AddIndexes(BaseRow(s, id, rb, threshold), Effects(names, s.channels, rb.image))
  }

  /**
   * Building a row fails exactly when one of the names raises, with the first such error; a
   * successful row starts with the fixed columns in order, and holds the five statistic columns of
   * every matrix index requested.
   */
  lemma RowColumns(s: Survey, id: Id, rb: Raster, threshold: Misc.ConfigValue, names: seq<string>, i: nat, j: nat)
    requires i < |names| && j < 5 && MatrixIndexes.Lookup(names[i]).IndexFunction?
    ensures var effects := Effects(names, s.channels, rb.image);
            Row(s, id, rb, threshold, names).Failure? <==> FirstRaise(effects) >= 0
    ensures Row(s, id, rb, threshold, names).Success? ==>
              var row := Row(s, id, rb, threshold, names).value;
              var base := BaseRow(s, id, rb, threshold);
              && |row.keys| >= |base.keys| && row.keys[..|base.keys|] == base.keys
              && StatKeys(names[i])[j] in row.values
  {
    var d := BaseRow(s, id, rb, threshold);
    var effects := Effects(names, s.channels, rb.image);
    AddIndexesFailure(d, effects);
    if Row(s, id, rb, threshold, names).Success? {
      AddIndexesColumns(d, effects);
      MatrixIndexColumns(names[i], s.channels, rb.image);
      assert StatKeys(names[i])[j] in Columns(effects[i]);
      AllColumnsMembers(effects, StatKeys(names[i])[j]);
    }
  }

  /** The line printed for a region outside the image. */
  function OutsideLine(field: string, id: string): string {
    "Warning: ROI marked with " + field + "=" + id + " is outside the image borders. Ignored."
  }

  /** The regions inside the image, in order. */
  function Inside(rois: seq<Roi>): (r: seq<Roi>)
    ensures |r| <= |rois|
    ensures forall i :: 0 <= i < |r| ==> r[i].raster.Some?
  {
    if |rois| == 0 then []
    else Inside(rois[..|rois| - 1]) + (if rois[|rois| - 1].raster.Some? then [rois[|rois| - 1]] else [])
  }

  /** What `'...' + field + '=' + i` raises when the identifier is not text. */
  function ConcatError(typeName: string): Error {
    TypeError("can only concatenate str (not \"" + typeName + "\") to str")
  }

  /** One warning line per region outside the image that has a text identifier, in order. */
  function Warnings(field: string, rois: seq<Roi>): (r: seq<string>)
    ensures |r| + |Inside(rois)| <= |rois|
  {
    if |rois| == 0 then []
    else
      var roi := rois[|rois| - 1];
      Warnings(field, rois[..|rois| - 1]) +
      (if roi.raster.None? && roi.id.TextId? then [OutsideLine(field, roi.id.s)] else [])
  }

  /** Every region outside the image has a text identifier, so its warning can be printed. */
  predicate OutsideNamed(rois: seq<Roi>) {
    forall i :: 0 <= i < |rois| && rois[i].raster.None? ==> rois[i].id.TextId?
  }

  /** What the loop over the regions has printed, and the rows built or the error raised. */
  datatype Progress = Progress(printed: seq<string>, rows: Result<seq<Dict<Cell>>, Error>)

  /** The loop over the regions, with `build` making the row of a region inside the image. */
  function Rows(field: string, rois: seq<Roi>, build: (Id, Raster) -> Result<Dict<Cell>, Error>): Progress {
    if |rois| == 0 then Progress([], Success([]))
    else
      var p := Rows(field, rois[..|rois| - 1], build);
      var roi := rois[|rois| - 1];
      if p.rows.Failure? then p
      else match roi.raster
        case None =>
          (match roi.id
           case TextId(t) => Progress(p.printed + [OutsideLine(field, t)], p.rows)
           case OtherId(t) => Progress(p.printed, Failure(ConcatError(t))))
        case Some(rb) =>
          match build(roi.id, rb)
          case Failure(e) => Progress(p.printed, Failure(e))
          case Success(row) => Progress(p.printed, Success(p.rows.value + [row]))
  }

  /**
   * A completed loop prints one warning per region outside the image and builds exactly one row
   * per region inside it, in order, each the row of that region.
   */
  lemma {:induction false} RowsOfInside(field: string, rois: seq<Roi>, build: (Id, Raster) -> Result<Dict<Cell>, Error>)
    requires Rows(field, rois, build).rows.Success?
    ensures Rows(field, rois, build).printed == Warnings(field, rois)
    ensures |Rows(field, rois, build).rows.value| == |Inside(rois)|
    ensures forall i :: 0 <= i < |Inside(rois)| ==>
              build(Inside(rois)[i].id, Inside(rois)[i].raster.value) == Success(Rows(field, rois, build).rows.value[i])
  {
    if |rois| > 0 {
      var init := rois[..|rois| - 1];
      var roi := rois[|rois| - 1];
      var p := Rows(field, init, build);
      var r := Rows(field, rois, build);
      assert p.rows.Success?;
      RowsOfInside(field, init, build);
      if roi.raster.Some? {
        assert Inside(rois) == Inside(init) + [roi];
        match build(roi.id, roi.raster.value)
        case Success(row) =>
          assert r == Progress(p.printed, Success(p.rows.value + [row]));
      } else {
        assert Inside(rois) == Inside(init);
        assert roi.id.TextId? && r.rows == p.rows;
      }
    }
  }

  /**
   * Regions outside the image with text identifiers contribute no row: only the regions inside
   * decide the rows.
   */
  lemma {:induction false} OutsideRegionsIgnored(field: string, rois: seq<Roi>, build: (Id, Raster) -> Result<Dict<Cell>, Error>)
    requires OutsideNamed(rois)
    ensures Rows(field, rois, build).rows == Rows(field, Inside(rois), build).rows
  {
    if |rois| > 0 {
      var init := rois[..|rois| - 1];
      OutsideRegionsIgnored(field, init, build);
      var inside := Inside(rois);
      if rois[|rois| - 1].raster.Some? {
        assert inside[..|inside| - 1] == Inside(init);
      } else {
        assert inside == Inside(init);
      }
    }
  }

  /**
   * The row builder of the task: the threshold is looked up in the settings each time a row is
   * built, so a missing one raises only once a region inside the image is reached.
   */
  function Build(s: Survey, threshold: Option<Misc.ConfigValue>, names: seq<string>, id: Id, rb: Raster): Result<Dict<Cell>, Error> {
    match threshold
    case None => Failure(KeyError("threshold"))
    case Some(t) =>
      var row := Row(s, id, rb, t, names);
      if row.Failure? then row else Frame(row.value)
  }

  /** `d2r.misc.thresholded_filter`: the helper module defines no such function. */
  const NoThresholdedFilter: Error := AttributeError("module 'd2r.misc' has no attribute 'thresholded_filter'")

  /**
   * The row builder as written: once a threshold is set, the call to the missing filter raises
   * before any index is computed.
   */
  function BuildAsWritten(s: Survey, threshold: Option<Misc.ConfigValue>, names: seq<string>, id: Id, rb: Raster): (r: Result<Dict<Cell>, Error>)
    ensures threshold.Some? && !threshold.value.NoneValue? ==> r == Failure(NoThresholdedFilter)
  {
    match threshold
    case None => Failure(KeyError("threshold"))
    case Some(t) => if t.NoneValue? then Build(s, threshold, names, id, rb) else Failure(NoThresholdedFilter)
  }

  /**
   * The builder as written and the corrected one agree exactly when no threshold is set; with one
   * set, only the corrected builder can produce a row.
   */
  lemma BuildAsWrittenDiffers(s: Survey, threshold: Option<Misc.ConfigValue>, names: seq<string>, id: Id, rb: Raster)
    ensures threshold.None? || threshold.value.NoneValue? ==>
              BuildAsWritten(s, threshold, names, id, rb) == Build(s, threshold, names, id, rb)
    ensures threshold.Some? && !threshold.value.NoneValue? ==>
              && BuildAsWritten(s, threshold, names, id, rb).Failure?
              && (Build(s, threshold, names, id, rb).Failure? ==> Build(s, threshold, names, id, rb).error != NoThresholdedFilter)
  {
    if threshold.Some? && !threshold.value.NoneValue? && Row(s, id, rb, threshold.value, names).Failure? {
      RowErrors(s, threshold.value, names, id, rb);
    }
  }

  /** A row fails only with a name's `IndexError` or `TypeError`. */
  lemma RowErrors(s: Survey, threshold: Misc.ConfigValue, names: seq<string>, id: Id, rb: Raster)
    requires Row(s, id, rb, threshold, names).Failure?
    ensures Row(s, id, rb, threshold, names).error.IndexError? || Row(s, id, rb, threshold, names).error.TypeError?
  {
    var effects := Effects(names, s.channels, rb.image);
    AddIndexesFailure(BaseRow(s, id, rb, threshold), effects);
    var e := effects[FirstRaise(effects)];
    assert e == EffectOf(names[FirstRaise(effects)], s.channels, rb.image);
  }

  /** What `pd.DataFrame.from_dict` raises on a dictionary of scalars only. */
  const AllScalars: Error := ValueError("If using all scalar values, you must pass an index")

  /** Some column holds a list, which gives the frame its one row. */
  predicate HasListColumn(d: Dict<Cell>) {
    exists k :: k in d.values && IsList(d.values[k])
  }

  predicate IsList(c: Cell) {
    c.IdList?
  }

  /** `pd.DataFrame.from_dict(d)`: a one-row frame, unless every value is a scalar. */
  function Frame(d: Dict<Cell>): (r: Result<Dict<Cell>, Error>)
    ensures r.Success? <==> HasListColumn(d)
    ensures r.Success? ==> r.value == d
    ensures r.Failure? ==> r.error == AllScalars
  {
    if HasListColumn(d) then Success(d) else Failure(AllScalars)
  }

  /**
   * The only list in a base row is the region's identifier under the field, and it survives
   * unless a count column of the same name overwrites it.
   */
  lemma BaseRowLists(s: Survey, id: Id, rb: Raster, threshold: Misc.ConfigValue)
    ensures var d := BaseRow(s, id, rb, threshold);
            forall k :: k in d.values && d.values[k].IdList? <==> k == s.field && s.field !in CountKeys
  {
    var d := BaseRow(s, id, rb, threshold);
    BaseRowColumns(s, id, rb, threshold);
    forall k | k in d.values
      ensures d.values[k].IdList? <==> k == s.field && s.field !in CountKeys
    {
      CountKeysMembers(k);
      if k in CountKeys {
        BaseRowCounts(s, id, rb, threshold);
      } else if k == s.field {
        BaseRowField(s, id, rb, threshold);
      } else {
        BaseRowDescription(s, id, rb, threshold, k);
        assert d.values[k].Text?;
      }
    }
  }

  /** A row that was built is the row of the region, with the threshold that was set. */
  lemma BuiltRow(s: Survey, threshold: Option<Misc.ConfigValue>, names: seq<string>, id: Id, rb: Raster)
    requires Build(s, threshold, names, id, rb).Success?
    ensures threshold.Some? && Row(s, id, rb, threshold.value, names) == Build(s, threshold, names, id, rb)
  {
    var row := Row(s, id, rb, threshold.value, names);
    assert row.Success?;
    assert Frame(row.value) == Success(row.value);
  }

  /**
   * Every list left after the loop over the index names was already in the row, under a column
   * no name adds: the names only add scalars.
   */
  lemma {:induction false} AddIndexesLists(d: Dict<Cell>, effects: seq<Effect>)
    requires d.Valid() && AddIndexes(d, effects).Success?
    requires forall i :: 0 <= i < |effects| && effects[i].Adds? ==> !effects[i].cell.IdList?
    ensures var r := AddIndexes(d, effects).value;
            forall k :: k in r.values && r.values[k].IdList? ==>
              k in d.values && d.values[k].IdList? && k !in AllColumns(effects)
  {
    if |effects| > 0 {
      var init := effects[..|effects| - 1];
      AddIndexesLists(d, init);
      var m := AddIndexes(d, init).value;
      var e := effects[|effects| - 1];
      var r := AddIndexes(d, effects).value;
      StepValues(m, e);
      forall k | k in r.values && r.values[k].IdList?
        ensures k in d.values && d.values[k].IdList? && k !in AllColumns(effects)
      {
        StepValueAt(m, e, k);
      }
    }
  }

  /**
   * A row keeps a list exactly when the field is neither a count column nor a column of a
   * requested index: otherwise a scalar overwrites the field's list.
   */
  lemma RowLists(s: Survey, threshold: Misc.ConfigValue, names: seq<string>, id: Id, rb: Raster)
    requires Row(s, id, rb, threshold, names).Success?
    ensures HasListColumn(Row(s, id, rb, threshold, names).value) <==>
              s.field !in CountKeys && s.field !in AllColumns(Effects(names, s.channels, rb.image))
  {
    var effects := Effects(names, s.channels, rb.image);
    if s.field !in CountKeys && s.field !in AllColumns(effects) {
      RowKeepsField(s, threshold, names, id, rb);
    } else {
      RowWithoutLists(s, threshold, names, id, rb);
    }
  }

  lemma RowKeepsField(s: Survey, threshold: Misc.ConfigValue, names: seq<string>, id: Id, rb: Raster)
    requires Row(s, id, rb, threshold, names).Success?
    requires s.field !in CountKeys && s.field !in AllColumns(Effects(names, s.channels, rb.image))
    ensures var r := Row(s, id, rb, threshold, names).value;
            s.field in r.values && IsList(r.values[s.field])
  {
    var d := BaseRow(s, id, rb, threshold);
    BaseRowField(s, id, rb, threshold);
    AddIndexesColumns(d, Effects(names, s.channels, rb.image));
  }

  lemma RowWithoutLists(s: Survey, threshold: Misc.ConfigValue, names: seq<string>, id: Id, rb: Raster)
    requires Row(s, id, rb, threshold, names).Success?
    requires s.field in CountKeys || s.field in AllColumns(Effects(names, s.channels, rb.image))
    ensures !HasListColumn(Row(s, id, rb, threshold, names).value)
  {
    var d := BaseRow(s, id, rb, threshold);
    var effects := Effects(names, s.channels, rb.image);
    BaseRowLists(s, id, rb, threshold);
    EffectsAddScalars(names, s.channels, rb.image);
    AddIndexesLists(d, effects);
  }

  /** The names add numbers and NaNs only. */
  lemma EffectsAddScalars(names: seq<string>, channels: seq<string>, image: MatrixIndexes.Image)
    ensures var effects := Effects(names, channels, image);
            forall i :: 0 <= i < |effects| && effects[i].Adds? ==> !effects[i].cell.IdList?
  {
  }

  /**
   * Building the row of a region completes exactly when the field is neither a count column nor a
   * column of a requested index; otherwise the field's list is overwritten by a scalar and pandas
   * refuses the all-scalar dictionary.
   */
  lemma BuildFrame(s: Survey, threshold: Misc.ConfigValue, names: seq<string>, id: Id, rb: Raster)
    requires Row(s, id, rb, threshold, names).Success?
    ensures var effects := Effects(names, s.channels, rb.image);
            Build(s, Some(threshold), names, id, rb) ==
              if s.field !in CountKeys && s.field !in AllColumns(effects) then Row(s, id, rb, threshold, names)
              else Failure(AllScalars)
  {
    var row := Row(s, id, rb, threshold, names).value;
    assert Build(s, Some(threshold), names, id, rb) == Frame(row);
    RowLists(s, threshold, names, id, rb);
  }

  /** Indexing a field called `pixels` leaves no list in the row, so no region's row is built. */
  lemma PixelsFieldFails(s: Survey, threshold: Misc.ConfigValue, names: seq<string>, id: Id, rb: Raster)
    requires s.field == "pixels" && Row(s, id, rb, threshold, names).Success?
    ensures Build(s, Some(threshold), names, id, rb) == Failure(AllScalars)
  {
    BuildFrame(s, threshold, names, id, rb);
  }

  /** `os.path.join(outfolder, 'indexes_' + title + '_' + core + '.csv')`. */
  function OutputFile(outfolder: string, title: string, ortho: string): (r: string)
    ensures var name := "indexes_" + title + "_" + Misc.GetFileCoreNameExt(ortho).0 + ".csv";
            |r| >= |name| && r[|r| - |name|..] == name
    ensures outfolder != "" ==> StartsWith(r, outfolder)
  {
    var name := "indexes_" + title + "_" + Misc.GetFileCoreNameExt(ortho).0 + ".csv";
    assert name[..1] == "i";
    Paths.Join(outfolder, name)
  }

  datatype Saved = Skipped | Written(file: string, rows: seq<Dict<Cell>>)

  /** The lines the task prints, and how it ends. */
  datatype Outcome = Outcome(printed: seq<string>, result: Result<Saved, Error>)

  function SkipLine(file: string): string {
    "skipping. Output file already exists: " + file
  }

  /** `df.to_csv` when no row was built: `df` is still `None`. */
  const NoTable: Error := AttributeError("'NoneType' object has no attribute 'to_csv'")

  /**
   * The task on one dataset, with the parsed settings. `fileExists` stands for the file-system
   * test on the output file.
   */
  function Run(config: Dict<Misc.ConfigValue>, s: Survey, rois: seq<Roi>, fileExists: bool): (r: Outcome)
    requires config.Valid()
  {
    if "outfolder" !in config.values then Outcome([], Failure(KeyError("outfolder")))
    else match config.values["outfolder"]
      case Str(folder) => AfterOutputPath(config, s, rois, fileExists, OutputFile(folder, s.title, s.ortho))
      case other =>
        Outcome([], Failure(TypeError("expected str, bytes or os.PathLike object, not " + Misc.TypeName(other))))
  }

  /** The run once the output path is known: the skip test, the index names, the loop and the write. */
  function AfterOutputPath(config: Dict<Misc.ConfigValue>, s: Survey, rois: seq<Roi>, fileExists: bool, file: string): Outcome
    requires config.Valid()
  {
    if fileExists && "skip_if_already_done" !in config.values then
      Outcome([], Failure(KeyError("skip_if_already_done")))
    else if fileExists && Misc.Truthy(config.values["skip_if_already_done"]) then
      Outcome([SkipLine(file)], Success(Skipped))
    else if "indexes" !in config.values then Outcome([], Failure(KeyError("indexes")))
    else match config.values["indexes"]
      case Str(setting) => Finish(Rows(s.field, rois, Builder(s, Get(config, "threshold"), IndexNames(setting))), file)
      case other =>
        Outcome([], Failure(AttributeError("'" + Misc.TypeName(other) + "' object has no attribute 'replace'")))
  }

  /** The row builder handed to the loop. */
  function Builder(s: Survey, threshold: Option<Misc.ConfigValue>, names: seq<string>): (Id, Raster) -> Result<Dict<Cell>, Error> {
    (id, rb) => Build(s, threshold, names, id, rb)
  }

  /** `df.to_csv(outfile)`: the error the loop raised, the missing table, or the rows written. */
  function Finish(p: Progress, file: string): Outcome {
    if p.rows.Failure? then Outcome(p.printed, Failure(p.rows.error))
    else if |p.rows.value| == 0 then Outcome(p.printed, Failure(NoTable))
    else Outcome(p.printed, Success(Written(file, p.rows.value)))
  }

  /** A run that writes its table got past the settings and ended with the loop over the regions. */
  lemma RunReachedLoop(config: Dict<Misc.ConfigValue>, s: Survey, rois: seq<Roi>, fileExists: bool)
    requires config.Valid() && Run(config, s, rois, fileExists).result.Success?
    requires Run(config, s, rois, fileExists).result.value.Written?
    ensures "outfolder" in config.values && config.values["outfolder"].Str?
    ensures "indexes" in config.values && config.values["indexes"].Str?
    ensures Run(config, s, rois, fileExists) ==
              Finish(Rows(s.field, rois, Builder(s, Get(config, "threshold"), IndexNames(config.values["indexes"].s))),
                     OutputFile(config.values["outfolder"].s, s.title, s.ortho))
  {
    assert "outfolder" in config.values && config.values["outfolder"].Str?;
    RunPastOutputPath(config, s, rois, fileExists);
    var file := OutputFile(config.values["outfolder"].s, s.title, s.ortho);
    AfterOutputPathReachedLoop(config, s, rois, fileExists, file);
  }

  /** With a text output folder the run goes on with the output path joined from it. */
  lemma RunPastOutputPath(config: Dict<Misc.ConfigValue>, s: Survey, rois: seq<Roi>, fileExists: bool)
    requires config.Valid()
    requires "outfolder" in config.values && config.values["outfolder"].Str?
    ensures Run(config, s, rois, fileExists) ==
              AfterOutputPath(config, s, rois, fileExists, OutputFile(config.values["outfolder"].s, s.title, s.ortho))
  {
  }

  /** When the output file does not exist yet, text index names lead straight to the loop. */
  lemma NewFileReachesLoop(config: Dict<Misc.ConfigValue>, s: Survey, rois: seq<Roi>, file: string)
    requires config.Valid()
    requires "indexes" in config.values && config.values["indexes"].Str?
    ensures AfterOutputPath(config, s, rois, false, file) ==
              Finish(Rows(s.field, rois, Builder(s, Get(config, "threshold"), IndexNames(config.values["indexes"].s))), file)
  {
  }

  /** Past the output path, a run that writes its table read its index names as text and ran the loop. */
  lemma AfterOutputPathReachedLoop(config: Dict<Misc.ConfigValue>, s: Survey, rois: seq<Roi>, fileExists: bool, file: string)
    requires config.Valid()
    requires AfterOutputPath(config, s, rois, fileExists, file).result.Success?
    requires AfterOutputPath(config, s, rois, fileExists, file).result.value.Written?
    ensures "indexes" in config.values && config.values["indexes"].Str?
    ensures AfterOutputPath(config, s, rois, fileExists, file) ==
              Finish(Rows(s.field, rois, Builder(s, Get(config, "threshold"), IndexNames(config.values["indexes"].s))), file)
  {
    assert !(fileExists && "skip_if_already_done" !in config.values);
    assert !(fileExists && Misc.Truthy(config.values["skip_if_already_done"]));
  }

  /**
   * A completed run writes one row per region inside the image, and there is at least one, to the
   * output file; the threshold setting was present.
   */
  lemma RunWritesInsideRows(config: Dict<Misc.ConfigValue>, s: Survey, rois: seq<Roi>, fileExists: bool)
    requires config.Valid() && Run(config, s, rois, fileExists).result.Success?
    requires Run(config, s, rois, fileExists).result.value.Written?
    ensures "outfolder" in config.values && config.values["outfolder"].Str?
    ensures "threshold" in config.values
    ensures var w := Run(config, s, rois, fileExists).result.value;
            && w.file == OutputFile(config.values["outfolder"].s, s.title, s.ortho)
            && |w.rows| == |Inside(rois)| > 0
  {
    RunReachedLoop(config, s, rois, fileExists);
    var threshold := Get(config, "threshold");
    var names := IndexNames(config.values["indexes"].s);
    var build := Builder(s, threshold, names);
    RowsOfInside(s.field, rois, build);
    var inside := Inside(rois);
    assert build(inside[0].id, inside[0].raster.value) == Build(s, threshold, names, inside[0].id, inside[0].raster.value);
  }

  /**
   * The `i`-th row written is the row of the `i`-th region inside the image, with the configured
   * index names and threshold.
   */
  lemma RunWritesRowOfRegion(config: Dict<Misc.ConfigValue>, s: Survey, rois: seq<Roi>, fileExists: bool, i: nat)
    requires config.Valid() && Run(config, s, rois, fileExists).result.Success?
    requires Run(config, s, rois, fileExists).result.value.Written?
    ensures "indexes" in config.values && config.values["indexes"].Str? && "threshold" in config.values
    ensures var w := Run(config, s, rois, fileExists).result.value;
            i < |Inside(rois)| ==>
              && i < |w.rows|
              && Row(s, Inside(rois)[i].id, Inside(rois)[i].raster.value, config.values["threshold"],
                     IndexNames(config.values["indexes"].s)) == Success(w.rows[i])
  {
    RunWritesInsideRows(config, s, rois, fileExists);
    RunReachedLoop(config, s, rois, fileExists);
    var threshold := Get(config, "threshold");
    var names := IndexNames(config.values["indexes"].s);
    var build := Builder(s, threshold, names);
    RowsOfInside(s.field, rois, build);
    var inside := Inside(rois);
    if i < |inside| {
      assert build(inside[i].id, inside[i].raster.value) == Build(s, threshold, names, inside[i].id, inside[i].raster.value);
      BuiltRow(s, threshold, names, inside[i].id, inside[i].raster.value);
    }
  }

  /**
   * When every region lies outside the image, each with a text identifier, the run prints one
   * warning per region and then fails on `df.to_csv`, because no table was ever built.
   */
  lemma RunWithoutInsideRegionFails(config: Dict<Misc.ConfigValue>, s: Survey, rois: seq<Roi>)
    requires config.Valid()
    requires "outfolder" in config.values && config.values["outfolder"].Str?
    requires "indexes" in config.values && config.values["indexes"].Str?
    requires forall i :: 0 <= i < |rois| ==> rois[i].raster.None? && rois[i].id.TextId?
    ensures Run(config, s, rois, false) == Outcome(Warnings(s.field, rois), Failure(NoTable))
  {
    var file := OutputFile(config.values["outfolder"].s, s.title, s.ortho);
    var build := Builder(s, Get(config, "threshold"), IndexNames(config.values["indexes"].s));
    RunPastOutputPath(config, s, rois, false);
    NewFileReachesLoop(config, s, rois, file);
    FinishWithoutInside(s.field, rois, build, file);
  }

  /** With no region inside the image the loop ends with its warnings and no table to write. */
  lemma FinishWithoutInside(field: string, rois: seq<Roi>, build: (Id, Raster) -> Result<Dict<Cell>, Error>, file: string)
    requires forall i :: 0 <= i < |rois| ==> rois[i].raster.None? && rois[i].id.TextId?
    ensures Finish(Rows(field, rois, build), file) == Outcome(Warnings(field, rois), Failure(NoTable))
  {
    OutsideTextRows(field, rois, build);
  }

  /** Regions outside the image with text identifiers only print their warnings. */
  lemma {:induction false} OutsideTextRows(field: string, rois: seq<Roi>, build: (Id, Raster) -> Result<Dict<Cell>, Error>)
    requires forall i :: 0 <= i < |rois| ==> rois[i].raster.None? && rois[i].id.TextId?
    ensures Rows(field, rois, build) == Progress(Warnings(field, rois), Success([]))
  {
    if |rois| > 0 {
      OutsideTextRows(field, rois[..|rois| - 1], build);
    }
  }

  /**
   * The first region outside the image whose identifier is not text ends the loop: building its
   * warning line raises `TypeError`, whatever comes after it.
   */
  lemma {:induction false} OtherIdOutsideAborts(field: string, rois: seq<Roi>, build: (Id, Raster) -> Result<Dict<Cell>, Error>, i: nat)
    requires i < |rois| && rois[i].raster.None? && rois[i].id.OtherId?
    requires forall j :: 0 <= j < i ==> rois[j].raster.None? && rois[j].id.TextId?
    ensures Rows(field, rois, build) == Progress(Warnings(field, rois[..i]), Failure(ConcatError(rois[i].id.typeName)))
  {
    var init := rois[..|rois| - 1];
    if i == |rois| - 1 {
      OutsideTextRows(field, init, build);
    } else {
      OtherIdOutsideAborts(field, init, build, i);
      assert init[..i] == rois[..i];
    }
  }

  /**
   * A run whose first region lies outside the image and has a numeric identifier prints nothing
   * and fails with `TypeError`.
   */
  lemma RunWithNumericIdOutsideFails(config: Dict<Misc.ConfigValue>, s: Survey, rois: seq<Roi>)
    requires config.Valid()
    requires "outfolder" in config.values && config.values["outfolder"].Str?
    requires "indexes" in config.values && config.values["indexes"].Str?
    requires |rois| > 0 && rois[0].raster.None? && rois[0].id == OtherId("int")
    ensures Run(config, s, rois, false) == Outcome([], Failure(ConcatError("int")))
  {
    var build := Builder(s, Get(config, "threshold"), IndexNames(config.values["indexes"].s));
    OtherIdOutsideAborts(s.field, rois, build, 0);
  }
}
