/**
 * The `ROIs` task: for each region of interest it builds an output-file stem and a selector
 * from the geometry-index columns of the current row, then saves the region as TIFF and/or PNG.
 */
module Rois {
  import opened Wrappers
  import opened Errors
  import opened Strings
  import opened Dicts
  import Misc

  /** `key=value` for each key, in order; every key must be present. */
  function Pairs(keys: seq<string>, row: map<string, string>): (r: seq<string>)
    requires forall i :: 0 <= i < |keys| ==> keys[i] in row
    ensures |r| == |keys|
  {
    if |keys| == 0 then []
    else
      var last := keys[|keys| - 1];
      Pairs(keys[..|keys| - 1], row) + [last + "=" + row[last]]
  }

  lemma {:induction false} PairAt(keys: seq<string>, row: map<string, string>, i: nat)
    requires forall i :: 0 <= i < |keys| ==> keys[i] in row
    requires i < |keys|
    ensures Pairs(keys, row)[i] == keys[i] + "=" + row[keys[i]]
  {
    if i < |keys| - 1 {
      PairAt(keys[..|keys| - 1], row, i);
    }
  }

  /** Position of the first geometry-index key the row lacks, or -1 when it has them all. */
  function FirstMissing(geoid: seq<string>, row: map<string, string>): (r: int)
    ensures -1 <= r < |geoid|
    ensures r >= 0 ==> geoid[r] !in row
    ensures forall j :: 0 <= j < |geoid| && (r < 0 || j < r) ==> geoid[j] in row
  {
    if |geoid| == 0 then -1
    else
      var k := FirstMissing(geoid[..|geoid| - 1], row);
      if k >= 0 then k
      else if geoid[|geoid| - 1] !in row then |geoid| - 1
      else -1
  }

  /**
   * The output-file stem: `ROI`, then `_key=value` for each geometry-index key in order. A key
   * the row lacks raises `KeyError`, the first one in key order.
   */
  method BuildStem(geoid: seq<string>, row: map<string, string>) returns (r: Result<string, Error>)
    ensures r.Failure? <==> FirstMissing(geoid, row) >= 0
    ensures r.Failure? ==> r.error == KeyError(geoid[FirstMissing(geoid, row)])
    ensures r.Success? ==> r.value == Join(["ROI"] + Pairs(geoid, row), "_")
  {
    var outfile := "ROI";
    var i := 0;
    while i < |geoid|
      invariant 0 <= i <= |geoid|
      invariant forall j :: 0 <= j < i ==> geoid[j] in row
      invariant outfile == Join(["ROI"] + Pairs(geoid[..i], row), "_")
    {
      var key := geoid[i];
      if key !in row {
        return Failure(KeyError(key));
      }
      assert geoid[..i + 1][..i] == geoid[..i];
      JoinSnoc(["ROI"] + Pairs(geoid[..i], row), key + "=" + row[key], "_");
      assert ["ROI"] + Pairs(geoid[..i + 1], row) == (["ROI"] + Pairs(geoid[..i], row)) + [key + "=" + row[key]];
      outfile := outfile + "_" + key + "=" + row[key];
      i := i + 1;
    }
    assert geoid[..i] == geoid;
    return Success(outfile);
  }

  /** With no geometry-index key the stem is just `ROI`. */
  lemma StemOfNoKeys(row: map<string, string>)
    ensures Join(["ROI"] + Pairs([], row), "_") == "ROI"
  {
  }

  /**
   * When no key or value contains `_` or `=`, the stem can be read back: splitting it on `_`
   * gives `ROI` and one piece per key, and each piece splits on `=` into the key and its value.
   */
  lemma StemRoundTrip(geoid: seq<string>, row: map<string, string>)
    requires forall i :: 0 <= i < |geoid| ==> geoid[i] in row
    requires forall i :: 0 <= i < |geoid| ==> '_' !in geoid[i] && '=' !in geoid[i]
    requires forall i :: 0 <= i < |geoid| ==> '_' !in row[geoid[i]] && '=' !in row[geoid[i]]
    ensures Split(Join(["ROI"] + Pairs(geoid, row), "_"), '_') == ["ROI"] + Pairs(geoid, row)
    ensures forall i :: 0 <= i < |geoid| ==> Split(Pairs(geoid, row)[i], '=') == [geoid[i], row[geoid[i]]]
  {
    var ps := Pairs(geoid, row);
    forall i | 0 <= i < |geoid|
      ensures '_' !in ps[i] && Split(ps[i], '=') == [geoid[i], row[geoid[i]]]
    {
      PairAt(geoid, row, i);
      var k, v := geoid[i], row[geoid[i]];
      assert forall ch :: ch in k + "=" + v ==> ch in k || ch == '=' || ch in v;
      assert Join([k, v], "=") == k + "=" + v;
      SplitJoin([k, v], '=');
    }
    var xs := ["ROI"] + ps;
    assert forall i :: 1 <= i < |xs| ==> xs[i] == ps[i - 1];
    SplitJoin(xs, '_');
  }

  /** The assignments of the selector comprehension `{key: row[key] for key in geoid}`. */
  function SelectorItems(geoid: seq<string>, row: map<string, string>): (items: seq<(string, Result<string, Error>)>)
    ensures |items| == |geoid|
    ensures forall i :: 0 <= i < |geoid| ==>
              items[i] == (geoid[i], if geoid[i] in row then Success(row[geoid[i]]) else Failure(KeyError(geoid[i])))
  {
    seq(|geoid|, i requires 0 <= i < |geoid| =>
      (geoid[i], if geoid[i] in row then Success(row[geoid[i]]) else Failure(KeyError(geoid[i]))))
  }

  /** The selector: the geometry-index keys mapped to the current row's values. */
  function Selector(geoid: seq<string>, row: map<string, string>): (r: Result<Dict<string>, Error>)
    ensures r.Success? ==> r.value.Valid()
  {
    PutEach(Empty(), SelectorItems(geoid, row))
  }

  /** The selector fails exactly where the stem does, with the same error. */
  lemma SelectorFailure(geoid: seq<string>, row: map<string, string>)
    ensures Selector(geoid, row).Failure? <==> FirstMissing(geoid, row) >= 0
    ensures Selector(geoid, row).Failure? ==> Selector(geoid, row).error == KeyError(geoid[FirstMissing(geoid, row)])
  {
    var items := SelectorItems(geoid, row);
    PutEachFailure(Empty(), items);
    var m := FirstMissing(geoid, row);
    var f := FirstFailure(items);
    assert m == f by {
      if m >= 0 { assert items[m].1.Failure?; }
      if f >= 0 { assert geoid[f] !in row; }
    }
  }

  /** A built selector has exactly the geometry-index keys. */
  lemma SelectorKeys(geoid: seq<string>, row: map<string, string>)
    requires Selector(geoid, row).Success?
    ensures forall k :: k in Selector(geoid, row).value.values <==> k in geoid
  {
    KeysExactly(Empty(), SelectorItems(geoid, row), geoid);
  }

  /** In a built selector every key maps to the row's value. */
  lemma SelectorValues(geoid: seq<string>, row: map<string, string>)
    requires Selector(geoid, row).Success?
    ensures forall k :: k in Selector(geoid, row).value.values ==> k in row && Selector(geoid, row).value.values[k] == row[k]
  {
    var items := SelectorItems(geoid, row);
    var sel := Selector(geoid, row).value;
    forall k | k in sel.values
      ensures k in row && sel.values[k] == row[k]
    {
      PutEachKeepsProperty(Empty(), items, k, (v: string) => k in row && v == row[k]);
    }
  }

  /** The text after "Empty ROI, selected by ": the selector's `key=value` pairs joined by commas. */
  function EmptyRoiMessage(selector: Dict<string>): (r: string)
    requires selector.Valid()
    ensures selector.keys == [] ==> r == ""
  {
    Join(Pairs(selector.keys, selector.values), ",")
  }

  /** When no key or value contains a comma, splitting the message on commas gives back the pairs in selector order. */
  lemma EmptyRoiMessageRoundTrip(selector: Dict<string>)
    requires selector.Valid() && |selector.keys| > 0
    requires forall k :: k in selector.values ==> ',' !in k && ',' !in selector.values[k]
    ensures Split(EmptyRoiMessage(selector), ',') == Pairs(selector.keys, selector.values)
    ensures forall i :: 0 <= i < |selector.keys| ==>
              Split(EmptyRoiMessage(selector), ',')[i] == selector.keys[i] + "=" + selector.values[selector.keys[i]]
  {
    var ps := Pairs(selector.keys, selector.values);
    forall i | 0 <= i < |ps|
      ensures ',' !in ps[i] && ps[i] == selector.keys[i] + "=" + selector.values[selector.keys[i]]
    {
      PairAt(selector.keys, selector.values, i);
      var k := selector.keys[i];
      var v := selector.values[k];
      assert forall ch :: ch in k + "=" + v ==> ch in k || ch == '=' || ch in v;
    }
    SplitJoin(ps, ',');
  }

  /** The settings this task reads as booleans. */
  const BoolKeys: seq<string> := ["tif", "png", "png_stretch_to_0-255"]

  /**
   * `misc.parse_boolean(value)` on a parsed setting: text is parsed, while any other value has
   * no `lower` method and raises `AttributeError`.
   */
  function ToBool(v: Misc.ConfigValue): (r: Result<Misc.ConfigValue, Error>)
    ensures v.Str? ==> (r.Success? <==> Misc.ParseBoolean(v.s).Success?)
    ensures v.Str? && r.Success? ==> r.value == Misc.Bool(Misc.ParseBoolean(v.s).value)
    ensures v.Str? && r.Failure? ==> r.error == Misc.ParseBoolean(v.s).error
    ensures !v.Str? ==> r.Failure? && r.error.AttributeError?
  {
    match v
    case Str(s) =>
      var b :- Misc.ParseBoolean(s);
      Success(Misc.Bool(b))
    case Bool(_) => Failure(AttributeError("'bool' object has no attribute 'lower'"))
    case Int(_) => Failure(AttributeError("'int' object has no attribute 'lower'"))
    case NoneValue => Failure(AttributeError("'NoneType' object has no attribute 'lower'"))
  }

  /** What the loop stores under `key`: the converted value for the boolean settings, the same value otherwise. */
  function Reassigned(key: string, v: Misc.ConfigValue): Result<Misc.ConfigValue, Error> {
    if key in BoolKeys then ToBool(v) else Success(v)
  }

  /**
   * The loop over the settings. The source assigns only the three boolean settings; giving every
   * other key its own value back changes nothing, so each key is listed.
   */
  function ParseItems(res: Dict<Misc.ConfigValue>): (items: seq<(string, Result<Misc.ConfigValue, Error>)>)
    requires res.Valid()
    ensures |items| == |res.keys|
    ensures forall i :: 0 <= i < |items| ==> items[i] == (res.keys[i], Reassigned(res.keys[i], res.values[res.keys[i]]))
  {
    seq(|res.keys|, i requires 0 <= i < |res.keys| => (res.keys[i], Reassigned(res.keys[i], res.values[res.keys[i]])))
  }

  /** The step `parse_config` of this task adds to the shared parsing. */
  function ParseConfig(res: Dict<Misc.ConfigValue>): (r: Result<Dict<Misc.ConfigValue>, Error>)
    requires res.Valid()
    ensures r.Success? ==> r.value.Valid()
  {
    PutEach(res, ParseItems(res))
  }

  /**
   * The step keeps every key in its place and converts exactly the three boolean settings;
   * it fails when one of them does not hold a boolean word, with the first such error in key order.
   */
  lemma ParseConfigMeaning(res: Dict<Misc.ConfigValue>)
    requires res.Valid()
    ensures ParseConfig(res).Failure? <==>
              exists i :: 0 <= i < |res.keys| && res.keys[i] in BoolKeys && ToBool(res.values[res.keys[i]]).Failure?
    ensures ParseConfig(res).Failure? ==>
              var i := FirstFailure(ParseItems(res));
              0 <= i < |res.keys| && res.keys[i] in BoolKeys && ParseConfig(res).error == ToBool(res.values[res.keys[i]]).error
    ensures ParseConfig(res).Success? ==> ParseConfig(res).value.keys == res.keys
  {
    var items := ParseItems(res);
    PutEachFailure(res, items);
    if ParseConfig(res).Success? {
      PutEachExistingKeys(res, items);
    }
  }

  /** After the step a boolean setting holds the parsed boolean, and every other setting is unchanged. */
  lemma ParseConfigValue(res: Dict<Misc.ConfigValue>, k: string)
    requires res.Valid() && ParseConfig(res).Success? && k in res.values
    ensures k in ParseConfig(res).value.values
    ensures k in BoolKeys ==> ToBool(res.values[k]).Success? && ParseConfig(res).value.values[k] == ToBool(res.values[k]).value
    ensures k !in BoolKeys ==> ParseConfig(res).value.values[k] == res.values[k]
  {
    var items := ParseItems(res);
    var i :| 0 <= i < |res.keys| && res.keys[i] == k;
    forall j | i < j < |items|
      ensures items[j].0 != items[i].0
    {
      assert items[j].0 == res.keys[j];
    }
    PutEachLastWins(res, items, i);
    assert items[i].1 == Reassigned(k, res.values[k]);
  }

  /** None of the boolean settings of this task is a flag or `cores` for the shared `parse_config`. */
  lemma BoolKeysAreText()
    ensures forall k :: k in BoolKeys ==> k !in Misc.FlagKeys && k != "cores"
  {
  }

  /**
   * Applied to what the shared `parse_config` returns, the step can only fail with `ValueError`:
   * the boolean settings are never flags or `cores`, so they still hold text.
   */
  lemma ParseConfigAfterShared(config: Dict<string>)
    requires config.Valid() && PutEach(Empty(), Misc.Items(config)).Success?
    ensures var res := PutEach(Empty(), Misc.Items(config)).value;
            ParseConfig(res).Failure? ==> ParseConfig(res).error.ValueError?
  {
    var items := Misc.Items(config);
    var res: Dict<Misc.ConfigValue> := PutEach(Empty(), items).value;
    BoolKeysAreText();
    forall k | k in BoolKeys && k in res.values
      ensures res.values[k].Str?
    {
      forall i | 0 <= i < |items| && items[i].0 == k && items[i].1.Success?
        ensures items[i].1.value.Str?
      {
        Misc.ItemIsText(config, i);
      }
      PutEachKeepsProperty(Empty(), items, k, (v: Misc.ConfigValue) => v.Str?);
    }
    ParseConfigMeaning(res);
  }

  /** A raster as far as saving it is concerned: rows × columns × bands. */
  datatype Raster = Raster(rows: nat, cols: nat, bands: nat)

  datatype Saved = Skipped | Written(file: string, rows: nat, cols: nat, bands: nat) | LeftEmpty

  /** The lines a save prints, and how it ends. */
  datatype Outcome = Outcome(printed: seq<string>, result: Result<Saved, Error>)

  function SkipLine(file: string): string {
    "skipping, output file already exists: " + file
  }

  function EmptyRoiLine(selector: Dict<string>): string
    requires selector.Valid()
  {
    "Empty ROI, selected by " + EmptyRoiMessage(selector)
  }

  const NoShape: Error := AttributeError("'NoneType' object has no attribute 'shape'")
  const NotSubscriptable: Error := TypeError("'NoneType' object is not subscriptable")

  /** Reading `self.config['skip_if_already_done']` when the setting is missing. */
  const SkipUnset: Error := KeyError("skip_if_already_done")

  /**
   * `os.path.isfile(outfile_current) and self.config['skip_if_already_done']`: `fileExists` stands
   * for the file-system test and `skip` for the setting, `None` when it is missing. The setting is
   * read only when the file exists.
   */
  predicate SkipFails(fileExists: bool, skip: Option<Misc.ConfigValue>) {
    fileExists && skip.None?
  }

  predicate Skips(fileExists: bool, skip: Option<Misc.ConfigValue>) {
    fileExists && skip.Some? && Misc.Truthy(skip.value)
  }

  /** The save goes on past the skip test. */
  predicate Proceeds(fileExists: bool, skip: Option<Misc.ConfigValue>) {
    !fileExists || (skip.Some? && !Misc.Truthy(skip.value))
  }

  /** Exactly one of the three ways out of the skip test is taken. */
  lemma SkipTestCases(fileExists: bool, skip: Option<Misc.ConfigValue>)
    ensures SkipFails(fileExists, skip) || Skips(fileExists, skip) || Proceeds(fileExists, skip)
    ensures !(SkipFails(fileExists, skip) && Skips(fileExists, skip))
    ensures !(SkipFails(fileExists, skip) && Proceeds(fileExists, skip))
    ensures !(Skips(fileExists, skip) && Proceeds(fileExists, skip))
  {
  }

  /**
   * `_save_tif` as written. `extracted` stands for what the raster extraction returned. The
   * statement after the empty-ROI message is `next`, which only evaluates the built-in function
   * and does not leave the method, so a missing raster reaches `rb.shape`.
   */
  function SaveTifAsWritten(outfile: string, selector: Dict<string>, fileExists: bool, skip: Option<Misc.ConfigValue>,
                            extracted: Option<Raster>): (o: Outcome)
    requires selector.Valid()
    ensures o.result.Failure? <==> SkipFails(fileExists, skip) || (extracted.None? && Proceeds(fileExists, skip))
    ensures SkipFails(fileExists, skip) ==> o == Outcome([], Failure(SkipUnset))
    ensures extracted.None? && Proceeds(fileExists, skip) ==> o == Outcome([EmptyRoiLine(selector)], Failure(NoShape))
  {
    var file := outfile + ".tif";
    if fileExists && skip.None? then Outcome([], Failure(SkipUnset))
    else if fileExists && Misc.Truthy(skip.value) then Outcome([SkipLine(file)], Success(Skipped))
    else
      match extracted
      case None => Outcome([EmptyRoiLine(selector)], Failure(NoShape))
      case Some(rb) => Outcome([], Success(Written(file, rb.rows, rb.cols, rb.bands)))
  }

  /**
   * `_save_tif` as evidently intended: an empty region is reported and nothing is written. Only
   * the missing setting still fails.
   */
  function SaveTif(outfile: string, selector: Dict<string>, fileExists: bool, skip: Option<Misc.ConfigValue>,
                   extracted: Option<Raster>): (o: Outcome)
    requires selector.Valid()
    ensures o.result.Failure? <==> SkipFails(fileExists, skip)
    ensures o.result.Failure? ==> o == Outcome([], Failure(SkipUnset))
    ensures o.result.Success? ==> (o.result.value.Skipped? <==> Skips(fileExists, skip))
    ensures o.result.Success? ==> (o.result.value.LeftEmpty? <==> extracted.None? && Proceeds(fileExists, skip))
    ensures o.result.Success? && o.result.value.Skipped? ==> o.printed == [SkipLine(outfile + ".tif")]
    ensures o.result.Success? && o.result.value.LeftEmpty? ==> o.printed == [EmptyRoiLine(selector)]
    ensures o.result.Success? && o.result.value.Written? ==>
              o.result.value.file == outfile + ".tif" && extracted.Some? &&
              extracted.value == Raster(o.result.value.rows, o.result.value.cols, o.result.value.bands)
  {
    var file := outfile + ".tif";
    if fileExists && skip.None? then Outcome([], Failure(SkipUnset))
    else if fileExists && Misc.Truthy(skip.value) then Outcome([SkipLine(file)], Success(Skipped))
    else
      match extracted
      case None => Outcome([EmptyRoiLine(selector)], Success(LeftEmpty))
      case Some(rb) => Outcome([], Success(Written(file, rb.rows, rb.cols, rb.bands)))
  }

  /** The two versions part only on an empty region that is not skipped, and there they print the same line. */
  lemma SaveTifDiffersOnlyOnEmptyRoi(outfile: string, selector: Dict<string>, fileExists: bool, skip: Option<Misc.ConfigValue>,
                                     extracted: Option<Raster>)
    requires selector.Valid()
    ensures var fixed := SaveTif(outfile, selector, fileExists, skip, extracted);
            var written := SaveTifAsWritten(outfile, selector, fileExists, skip, extracted);
            && fixed.printed == written.printed
            && (fixed == written <==> !(extracted.None? && Proceeds(fileExists, skip)))
  {
  }

  /** A region outside the image, with no earlier output file, stops the whole task with `AttributeError`. */
  lemma SaveTifEmptyRoiCrashes()
    ensures var sel := Dict(["plot"], map["plot" := "7"]);
            SaveTifAsWritten("out/ROI_plot=7", sel, false, None, None) ==
              Outcome(["Empty ROI, selected by plot=7"], Failure(NoShape))
  {
    var sel := Dict(["plot"], map["plot" := "7"]);
    assert sel.keys[..0] == [];
    assert Pairs(sel.keys, sel.values) == Pairs([], sel.values) + ["plot" + "=" + "7"];
    assert "plot" + "=" + "7" == "plot=7";
    assert Pairs(sel.keys, sel.values) == ["plot=7"];
    assert Join(["plot=7"], ",") == "plot=7";
    assert EmptyRoiLine(sel) == "Empty ROI, selected by " + "plot=7" == "Empty ROI, selected by plot=7";
  }

  /**
   * The positions of the visible channels among all channels, each by `channels.index`; the first
   * visible channel that is absent raises `ValueError`.
   */
  function VisibleIndices(channels: seq<string>, visible: seq<string>): (r: Result<seq<nat>, Error>)
    ensures r.Success? <==> FirstNotIn(visible, channels) < 0
    ensures r.Success? ==> |r.value| == |visible|
    ensures r.Success? ==> forall i :: 0 <= i < |visible| ==> r.value[i] == IndexOf(channels, visible[i])
    ensures r.Failure? ==> r.error == ValueError(Repr(visible[FirstNotIn(visible, channels)]) + " is not in list")
  {
    if |visible| == 0 then Success([])
    else
      var k := IndexOf(channels, visible[0]);
      if k < 0 then Failure(ValueError(Repr(visible[0]) + " is not in list"))
      else
        var rest :- VisibleIndices(channels, visible[1..]);
        Success([k as nat] + rest)
  }

  /** Position of the first selected band beyond the raster's bands, or -1 when all are in range. */
  function FirstOutOfRange(selected: seq<nat>, bands: nat): (r: int)
    ensures -1 <= r < |selected|
    ensures r >= 0 ==> selected[r] >= bands
    ensures forall j :: 0 <= j < |selected| && (r < 0 || j < r) ==> selected[j] < bands
  {
    if |selected| == 0 then -1
    else if selected[0] >= bands then 0
    else
      var r := FirstOutOfRange(selected[1..], bands);
      if r < 0 then -1 else r + 1
  }

  /** `rb_visible.mask[:,:,0]` when no channel is visible: the selection has no band 0. */
  const NoVisibleBand: Error := IndexError("index 0 is out of bounds for axis 2 with size 0")

  /**
   * What Pillow's `Image.fromarray` raises on an 8-bit array of shape (h, w, `bands`) it has no
   * mode for: the modes `LA`, `RGB` and `RGBA` take 2, 3 and 4 bands.
   */
  function NoImageMode(bands: nat): Error {
    TypeError("Cannot handle this data type: (1, 1, " + Misc.IntToString(bands) + "), |u1")
  }

  /**
   * The visible bands of the raster, with an alpha band added, as the PNG stores them. The alpha
   * band is taken from the mask of the first visible band, and the image needs a mode for the
   * number of bands.
   */
  function PngOf(file: string, rb: Raster, selected: seq<nat>): (o: Outcome)
    ensures o.printed == []
    ensures o.result.Success? <==> FirstOutOfRange(selected, rb.bands) < 0 && 1 <= |selected| <= 3
    ensures o.result.Success? ==> o.result.value == Written(file, rb.rows, rb.cols, |selected| + 1)
    ensures FirstOutOfRange(selected, rb.bands) >= 0 ==> o.result.Failure? && o.result.error.IndexError?
    ensures FirstOutOfRange(selected, rb.bands) < 0 && |selected| == 0 ==> o.result == Failure(NoVisibleBand)
    ensures FirstOutOfRange(selected, rb.bands) < 0 && |selected| > 3 ==> o.result == Failure(NoImageMode(|selected| + 1))
  {
    var bad := FirstOutOfRange(selected, rb.bands);
    if bad >= 0 then
      Outcome([], Failure(IndexError("index " + Misc.IntToString(selected[bad]) +
                                     " is out of bounds for axis 2 with size " + Misc.IntToString(rb.bands))))
    else if |selected| == 0 then Outcome([], Failure(NoVisibleBand))
    else if |selected| + 1 > 4 then Outcome([], Failure(NoImageMode(|selected| + 1)))
    else Outcome([], Success(Written(file, rb.rows, rb.cols, |selected| + 1)))
  }

  /** Reading `self.config['png_stretch_to_0-255']` when the setting is missing. */
  const StretchUnset: Error := KeyError("png_stretch_to_0-255")

  /**
   * Past the skip test `_save_png` reads the stretch setting to pass it to the raster extraction;
   * `stretch` is that setting, `None` when it is missing. Its value only rescales the pixels.
   */
  predicate StretchFails(fileExists: bool, skip: Option<Misc.ConfigValue>, stretch: Option<Misc.ConfigValue>) {
    Proceeds(fileExists, skip) && stretch.None?
  }

  /** The PNG save reaches the raster extraction. */
  predicate Extracts(fileExists: bool, skip: Option<Misc.ConfigValue>, stretch: Option<Misc.ConfigValue>) {
    Proceeds(fileExists, skip) && stretch.Some?
  }

  /**
   * `_save_png` as written. As in `_save_tif`, `next` does not leave the method: a missing raster
   * is reported, then the visible channels are looked up, and indexing the missing raster raises
   * `TypeError`, unless a visible channel is absent, which raises `ValueError` first.
   */
  function SavePngAsWritten(outfile: string, selector: Dict<string>, fileExists: bool, skip: Option<Misc.ConfigValue>,
                            stretch: Option<Misc.ConfigValue>, extracted: Option<Raster>,
                            channels: seq<string>, visible: seq<string>): (o: Outcome)
    requires selector.Valid()
    ensures SkipFails(fileExists, skip) ==> o == Outcome([], Failure(SkipUnset))
    ensures StretchFails(fileExists, skip, stretch) ==> o == Outcome([], Failure(StretchUnset))
    ensures extracted.None? && Extracts(fileExists, skip, stretch) ==>
              o.printed == [EmptyRoiLine(selector)] && o.result.Failure?
    ensures extracted.None? && Extracts(fileExists, skip, stretch) ==>
              (o.result.error == NotSubscriptable <==> FirstNotIn(visible, channels) < 0)
  {
    var file := outfile + ".png";
    if fileExists && skip.None? then Outcome([], Failure(SkipUnset))
    else if fileExists && Misc.Truthy(skip.value) then Outcome([SkipLine(file)], Success(Skipped))
    else if stretch.None? then Outcome([], Failure(StretchUnset))
    else
      var printed := if extracted.None? then [EmptyRoiLine(selector)] else [];
      match VisibleIndices(channels, visible)
      case Failure(e) => Outcome(printed, Failure(e))
      case Success(selected) =>
        match extracted
        case None => Outcome(printed, Failure(NotSubscriptable))
        case Some(rb) => PngOf(file, rb, selected)
  }

  /**
   * `_save_png` as evidently intended: an empty region is reported and nothing is written. A PNG
   * is written exactly when there are one to three visible channels, all of them present and
   * within the raster's bands.
   */
  function SavePng(outfile: string, selector: Dict<string>, fileExists: bool, skip: Option<Misc.ConfigValue>,
                   stretch: Option<Misc.ConfigValue>, extracted: Option<Raster>,
                   channels: seq<string>, visible: seq<string>): (o: Outcome)
    requires selector.Valid()
    ensures SkipFails(fileExists, skip) ==> o == Outcome([], Failure(SkipUnset))
    ensures StretchFails(fileExists, skip, stretch) ==> o == Outcome([], Failure(StretchUnset))
    ensures o.result.Success? && o.result.value.Skipped? <==> Skips(fileExists, skip)
    ensures o.result.Success? && o.result.value.Skipped? ==> o.printed == [SkipLine(outfile + ".png")]
    ensures o.result.Success? && o.result.value.LeftEmpty? <==> extracted.None? && Extracts(fileExists, skip, stretch)
    ensures o.result.Success? && o.result.value.LeftEmpty? ==> o.printed == [EmptyRoiLine(selector)]
    ensures o.result.Success? && o.result.value.Written? ==>
              && o.result.value.file == outfile + ".png"
              && extracted.Some? && o.result.value.rows == extracted.value.rows && o.result.value.cols == extracted.value.cols
              && o.result.value.bands == |visible| + 1
              && 1 <= |visible| <= 3
              && FirstNotIn(visible, channels) < 0
    ensures extracted.Some? && Extracts(fileExists, skip, stretch) ==>
              (o.result.Success? <==>
                 && VisibleIndices(channels, visible).Success?
                 && 1 <= |visible| <= 3
                 && FirstOutOfRange(VisibleIndices(channels, visible).value, extracted.value.bands) < 0)
    ensures extracted.Some? && Extracts(fileExists, skip, stretch) && FirstNotIn(visible, channels) >= 0 ==>
              o == Outcome([], Failure(ValueError(Repr(visible[FirstNotIn(visible, channels)]) + " is not in list")))
    ensures extracted.Some? && Extracts(fileExists, skip, stretch) && FirstNotIn(visible, channels) < 0 && |visible| == 0 ==>
              o == Outcome([], Failure(NoVisibleBand))
  {
    var file := outfile + ".png";
    if fileExists && skip.None? then Outcome([], Failure(SkipUnset))
    else if fileExists && Misc.Truthy(skip.value) then Outcome([SkipLine(file)], Success(Skipped))
    else if stretch.None? then Outcome([], Failure(StretchUnset))
    else
      match extracted
      case None => Outcome([EmptyRoiLine(selector)], Success(LeftEmpty))
      case Some(rb) =>
        match VisibleIndices(channels, visible)
        case Failure(e) => Outcome([], Failure(e))
        case Success(selected) => PngOf(file, rb, selected)
  }

  /** The two versions agree except on an empty region that reaches the extraction, where only the corrected one succeeds. */
  lemma SavePngDiffersOnlyOnEmptyRoi(outfile: string, selector: Dict<string>, fileExists: bool, skip: Option<Misc.ConfigValue>,
                                     stretch: Option<Misc.ConfigValue>, extracted: Option<Raster>,
                                     channels: seq<string>, visible: seq<string>)
    requires selector.Valid()
    ensures var fixed := SavePng(outfile, selector, fileExists, skip, stretch, extracted, channels, visible);
            var written := SavePngAsWritten(outfile, selector, fileExists, skip, stretch, extracted, channels, visible);
            && (!(extracted.None? && Extracts(fileExists, skip, stretch)) ==> fixed == written)
            && (extracted.None? && Extracts(fileExists, skip, stretch) ==>
                  fixed.printed == written.printed && fixed.result.Success? && written.result.Failure?)
  {
  }

  /** The same region saved as PNG stops the task with `TypeError` once the visible channels are found. */
  lemma SavePngEmptyRoiCrashes()
    ensures var sel := Dict(["plot"], map["plot" := "7"]);
            var rgb := ["red", "green", "blue"];
            SavePngAsWritten("out/ROI_plot=7", sel, false, None, Some(Misc.Bool(false)), None, rgb, rgb) ==
              Outcome(["Empty ROI, selected by plot=7"], Failure(NotSubscriptable))
  {
    var sel := Dict(["plot"], map["plot" := "7"]);
    assert sel.keys[..0] == [];
    assert Pairs(sel.keys, sel.values) == Pairs([], sel.values) + ["plot" + "=" + "7"];
    assert "plot" + "=" + "7" == "plot=7";
    assert Join(["plot=7"], ",") == "plot=7";
    assert EmptyRoiLine(sel) == "Empty ROI, selected by " + "plot=7" == "Empty ROI, selected by plot=7";
    var rgb := ["red", "green", "blue"];
    assert FirstNotIn(rgb, rgb) < 0;
    assert Extracts(false, None, Some(Misc.Bool(false)));
    var o := SavePngAsWritten("out/ROI_plot=7", sel, false, None, Some(Misc.Bool(false)), None, rgb, rgb);
    assert o.printed == [EmptyRoiLine(sel)] && o.result == Failure(NotSubscriptable);
  }

  /**
   * A section without `png_stretch_to_0-255` stops the PNG save before anything is extracted or
   * printed, even for a region outside the image, in both versions.
   */
  lemma SavePngWithoutStretchFails(outfile: string, selector: Dict<string>, extracted: Option<Raster>,
                                   channels: seq<string>, visible: seq<string>)
    requires selector.Valid()
    ensures SavePngAsWritten(outfile, selector, false, None, None, extracted, channels, visible) ==
              Outcome([], Failure(StretchUnset))
    ensures SavePng(outfile, selector, false, None, None, extracted, channels, visible) ==
              Outcome([], Failure(StretchUnset))
  {
  }

  /** Four visible bands and the alpha band make five, for which Pillow has no mode. */
  lemma PngOfFourVisibleFails(file: string, rows: nat, cols: nat)
    ensures PngOf(file, Raster(rows, cols, 4), [0, 1, 2, 3]).result == Failure(NoImageMode(5))
  {
    assert FirstOutOfRange([0, 1, 2, 3], 4) < 0;
  }
}
