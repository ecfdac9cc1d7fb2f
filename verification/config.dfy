/**
 * Reading the configuration: each section name is `OPERATION qualifier [qualifier]`, and the
 * section becomes a dataset, an analysis or a render according to the operation word.
 * Also the two value parsers the configuration module defines: booleans and channel lists.
 */
module Config {
  import opened Wrappers
  import opened Errors
  import opened Strings
  import opened Dicts
  import opened Datasets

  /** One section as the configuration reader delivers it: its name and its key/value body. */
  datatype Section = Section(name: string, body: Dict<string>)

  datatype Operation = Data | Analysis | Render

  /** The base `Analysis` and `Render` objects only keep their title and configuration. */
  datatype Component = Component(title: string, config: Dict<string>)

  datatype Entry = DataEntry(dataset: Dataset) | AnalysisEntry(analysis: Component) | RenderEntry(render: Component)

  datatype Parsed = Parsed(datasets: seq<Dataset>, analyses: seq<Component>, renders: seq<Component>)

  /** The operation words are matched exactly, upper case only. */
  function OperationOf(word: string): (r: Option<Operation>)
    ensures r == Some(Data) <==> word == "DATA"
    ensures r == Some(Analysis) <==> word == "ANALYSIS"
    ensures r == Some(Render) <==> word == "RENDER"
  {
    if word == "DATA" then Some(Data)
    else if word == "ANALYSIS" then Some(Analysis)
    else if word == "RENDER" then Some(Render)
    else None
  }

  /**
   * A section name splits on whitespace into the operation word and one or two qualifiers;
   * the title is the qualifiers joined by single spaces.
   */
  function ParseSectionName(name: string): (r: Result<(Operation, string), Error>)
    ensures var pieces := Words(name);
            && (|pieces| < 2 || |pieces| > 3 ==> r == Failure(ValueError("Bad section name: " + name)))
            && (2 <= |pieces| <= 3 && OperationOf(pieces[0]).None? ==>
                  r == Failure(ValueError("Bad section name: " + pieces[0])))
            && (2 <= |pieces| <= 3 && OperationOf(pieces[0]).Some? ==>
                  && r.Success?
                  && r.value.0 == OperationOf(pieces[0]).value
                  && Words(r.value.1) == pieces[1..]
                  && r.value.1 == Join(Words(r.value.1), " "))
  {
    var pieces := Words(name);
    if |pieces| < 2 || |pieces| > 3 then
      Failure(ValueError("Bad section name: " + name))
    else
      var title := Join(pieces[1..], " ");
      WordsJoin(pieces[1..]);
      match OperationOf(pieces[0])
      case None => Failure(ValueError("Bad section name: " + pieces[0]))
      case Some(op) => Success((op, title))
  }

  /** A title has one or two words, no whitespace at either end and single spaces between. */
  lemma TitleShape(name: string)
    requires ParseSectionName(name).Success?
    ensures var title := ParseSectionName(name).value.1;
            && 1 <= |Words(title)| <= 2
            && |title| > 0 && !IsSpace(title[0]) && !IsSpace(title[|title| - 1])
            && forall i :: 0 <= i < |title| && IsSpace(title[i]) ==> title[i] == ' '
  {
    var ws := Words(name)[1..];
    JoinShape(ws);
  }

  lemma {:induction false} JoinShape(ws: seq<string>)
    requires |ws| > 0
    requires forall i :: 0 <= i < |ws| ==> |ws[i]| > 0 && NoSpace(ws[i])
    ensures var s := Join(ws, " ");
            && |s| > 0 && !IsSpace(s[0]) && !IsSpace(s[|s| - 1])
            && forall i :: 0 <= i < |s| && IsSpace(s[i]) ==> s[i] == ' '
  {
    if |ws| > 1 {
      JoinShape(ws[1..]);
      var s := Join(ws, " ");
      var t := Join(ws[1..], " ");
      assert s == ws[0] + " " + t;
      forall i | 0 <= i < |s| && IsSpace(s[i])
        ensures s[i] == ' '
      {
        if i > |ws[0]| {
          assert s[i] == t[i - |ws[0]| - 1];
        }
      }
    }
  }

  /** What one section becomes: a dataset, an analysis or a render; the first error raised otherwise. */
  function ParseSection(s: Section): (r: Result<Entry, Error>)
    requires s.body.Valid()
    ensures ParseSectionName(s.name).Failure? ==> r == Failure(ParseSectionName(s.name).error)
    ensures r.Success? ==> ParseSectionName(s.name).Success?
    ensures r.Success? ==>
              var (op, title) := ParseSectionName(s.name).value;
              match r.value
              case DataEntry(d) => op == Data && d.name == title
              case AnalysisEntry(a) => op == Analysis && a == Component(title, s.body)
              case RenderEntry(c) => op == Render && c == Component(title, s.body)
    ensures ParseSectionName(s.name).Success? && ParseSectionName(s.name).value.0 == Data ==>
              var made := Make(ParseSectionName(s.name).value.1, s.body);
              && (made.Failure? ==> r == Failure(made.error))
              && (made.Success? ==> r == Success(DataEntry(made.value)))
  {
    var (op, title) :- ParseSectionName(s.name);
    match op
    case Data =>
      var d :- Make(title, s.body);
      Success(DataEntry(d))
    case Analysis => Success(AnalysisEntry(Component(title, s.body)))
    case Render => Success(RenderEntry(Component(title, s.body)))
  }

  /** What each section parses to, in section order. */
  function ParseAll(sections: seq<Section>): (rs: seq<Result<Entry, Error>>)
    requires forall i :: 0 <= i < |sections| ==> sections[i].body.Valid()
    ensures |rs| == |sections|
    ensures forall i :: 0 <= i < |sections| ==> rs[i] == ParseSection(sections[i])
  {
    seq(|sections|, i requires 0 <= i < |sections| => ParseSection(sections[i]))
  }

  /** Filing one parsed entry into the list its operation selects. */
  function Add(p: Parsed, e: Entry): (q: Parsed)
    ensures |q.datasets| + |q.analyses| + |q.renders| == |p.datasets| + |p.analyses| + |p.renders| + 1
  {
    match e
    case DataEntry(d) => p.(datasets := p.datasets + [d])
    case AnalysisEntry(a) => p.(analyses := p.analyses + [a])
    case RenderEntry(c) => p.(renders := p.renders + [c])
  }

  /** The loop of `read_config` as a fold over the parsed sections: the state after visiting them all. */
  ghost function Collect(rs: seq<Result<Entry, Error>>): Result<Parsed, Error> {
    if |rs| == 0 then Success(Parsed([], [], []))
    else
      match Collect(rs[..|rs| - 1])
      case Failure(e) => Failure(e)
      case Success(p) =>
        match rs[|rs| - 1]
        case Failure(e) => Failure(e)
        case Success(entry) => Success(Add(p, entry))
  }

  /** Index of the first section that fails to parse, or -1 when every one parses. */
  ghost function FailingIndex(rs: seq<Result<Entry, Error>>): (r: int)
    ensures -1 <= r < |rs|
    ensures r >= 0 ==> rs[r].Failure?
    ensures forall j :: 0 <= j < |rs| && (r < 0 || j < r) ==> rs[j].Success?
  {
    if |rs| == 0 then -1
    else
      var k := FailingIndex(rs[..|rs| - 1]);
      if k >= 0 then k
      else if rs[|rs| - 1].Failure? then |rs| - 1
      else -1
  }

  /** The datasets, in section order, of the DATA sections. */
  ghost function DatasetsOf(rs: seq<Result<Entry, Error>>): seq<Dataset> {
    if |rs| == 0 then []
    else DatasetsOf(rs[..|rs| - 1]) + match rs[|rs| - 1] case Success(DataEntry(d)) => [d] case _ => []
  }

  ghost function AnalysesOf(rs: seq<Result<Entry, Error>>): seq<Component> {
    if |rs| == 0 then []
    else AnalysesOf(rs[..|rs| - 1]) + match rs[|rs| - 1] case Success(AnalysisEntry(a)) => [a] case _ => []
  }

  ghost function RendersOf(rs: seq<Result<Entry, Error>>): seq<Component> {
    if |rs| == 0 then []
    else RendersOf(rs[..|rs| - 1]) + match rs[|rs| - 1] case Success(RenderEntry(c)) => [c] case _ => []
  }

  /** Once a prefix has failed, every longer prefix fails with the same error. */
  lemma {:induction false} CollectFailurePersists(rs: seq<Result<Entry, Error>>, n: nat)
    requires n <= |rs| && Collect(rs[..n]).Failure?
    ensures Collect(rs) == Collect(rs[..n])
    decreases |rs| - n
  {
    if n < |rs| {
      assert rs[..n + 1][..n] == rs[..n];
      CollectFailurePersists(rs, n + 1);
    } else {
      assert rs[..n] == rs;
    }
  }

  /**
   * The fold fails exactly when some section fails, with the error of the first failing one;
   * otherwise it sorts every section into exactly one of the three lists, keeping section order.
   */
  lemma {:induction false} CollectSorts(rs: seq<Result<Entry, Error>>)
    ensures Collect(rs).Failure? <==> FailingIndex(rs) >= 0
    ensures Collect(rs).Failure? ==> Collect(rs).error == rs[FailingIndex(rs)].error
    ensures Collect(rs).Success? ==>
              var p := Collect(rs).value;
              && p.datasets == DatasetsOf(rs)
              && p.analyses == AnalysesOf(rs)
              && p.renders == RendersOf(rs)
              && |p.datasets| + |p.analyses| + |p.renders| == |rs|
  {
    if |rs| > 0 {
      CollectSorts(rs[..|rs| - 1]);
    }
  }

  /**
   * `read_config` after the file has been read: the sections are visited in order, the first
   * bad one aborts the whole read with its error, and otherwise every section lands in exactly
   * one of the three lists, in section order.
   */
  method ReadConfig(sections: seq<Section>) returns (r: Result<Parsed, Error>)
    requires forall i :: 0 <= i < |sections| ==> sections[i].body.Valid()
    ensures var rs := ParseAll(sections);
            && (r.Failure? <==> FailingIndex(rs) >= 0)
            && (r.Failure? ==> r.error == ParseSection(sections[FailingIndex(rs)]).error)
    ensures var rs := ParseAll(sections);
            r.Success? ==>
              && r.value.datasets == DatasetsOf(rs)
              && r.value.analyses == AnalysesOf(rs)
              && r.value.renders == RendersOf(rs)
              && |r.value.datasets| + |r.value.analyses| + |r.value.renders| == |sections|
  {
    r := ReadSections(sections);
    CollectSorts(ParseAll(sections));
  }

  /** The loop of `read_config`: it computes the fold over the parsed sections. */
  method ReadSections(sections: seq<Section>) returns (r: Result<Parsed, Error>)
    requires forall i :: 0 <= i < |sections| ==> sections[i].body.Valid()
    ensures r == Collect(ParseAll(sections))
  {
    ghost var rs := ParseAll(sections);
    var parsed := Parsed([], [], []);
    var i := 0;
    while i < |sections|
      invariant 0 <= i <= |sections|
      invariant Collect(rs[..i]) == Success(parsed)
    {
      assert rs[..i + 1][..i] == rs[..i];
      var entry := ParseSection(sections[i]);
      assert entry == rs[i];
      if entry.Failure? {
        CollectFailurePersists(rs, i + 1);
        return Failure(entry.error);
      }
      parsed := Add(parsed, entry.value);
      i := i + 1;
    }
    assert rs[..i] == rs;
    return Success(parsed);
  }

  /** Visiting more sections only appends: each list follows the section order. */
  lemma {:induction false} DatasetsOfAppend(a: seq<Result<Entry, Error>>, b: seq<Result<Entry, Error>>)
    ensures DatasetsOf(a + b) == DatasetsOf(a) + DatasetsOf(b)
    decreases |b|
  {
    if |b| == 0 {
      assert a + b == a;
    } else {
      var b' := b[..|b| - 1];
      assert (a + b)[..|a + b| - 1] == a + b';
      DatasetsOfAppend(a, b');
    }
  }

  /**
   * A dataset built from a DATA section: its series is the first qualifier and its progressive
   * number the second one, if any; neither is ever empty.
   */
  lemma SectionDatasetNaming(s: Section)
    requires s.body.Valid()
    requires ParseSection(s).Success? && ParseSection(s).value.DataEntry?
    ensures var d := ParseSection(s).value.dataset;
            var pieces := Words(s.name);
            && d.series == pieces[1] && |d.series| > 0
            && d.prog == (if |pieces| == 3 then Some(pieces[2]) else None)
  {
    var pieces := Words(s.name);
    var ws := pieces[1..];
    forall i | 0 <= i < |ws|
      ensures ' ' !in ws[i]
    {
      assert NoSpace(ws[i]);
    }
    SplitJoin(ws, ' ');
  }

  const TrueWords: seq<string> := ["true", "1", "yes", "y", "on"]
  const FalseWords: seq<string> := ["false", "0", "no", "n", "off"]

  /** `parse_boolean` of the configuration module, case-insensitive. */
  function ParseBoolean(value: string): (r: Result<bool, Error>)
    ensures r == Success(true) <==> Lower(value) in TrueWords
    ensures r == Success(false) <==> Lower(value) in FalseWords
    ensures r.Failure? ==> r.error == ValueError("Cannot convert " + Lower(value) + " to a boolean.")
  {
    var v := Lower(value);
    if v in TrueWords then Success(true)
    else if v in FalseWords then Success(false)
    else Failure(ValueError("Cannot convert " + v + " to a boolean."))
  }

  /** Lower-casing the argument first changes nothing, not even the error message. */
  lemma ParseBooleanIgnoresCase(value: string)
    ensures ParseBoolean(value) == ParseBoolean(Lower(value))
  {
    LowerIdempotent(value);
  }

  /**
   * `parse_channels`: lower-case, drop every space, split on commas. The pieces carry no space
   * and no upper-case letter, there is one more piece than there are commas, and joining them
   * back with commas gives the cleaned text.
   */
  function ParseChannels(value: string): (r: seq<string>)
    ensures forall i :: 0 <= i < |r| ==> ' ' !in r[i] && NoUpper(r[i])
    ensures |r| == Count(value, ',') + 1
    ensures Join(r, ",") == Remove(Lower(value), ' ')
  {
    var cleaned := Remove(Lower(value), ' ');
    CountLower(value, ',');
    var r := Split(cleaned, ',');
    assert forall i, ch :: 0 <= i < |r| && ch in r[i] ==> ch in Lower(value);
    assert forall ch :: ch in Lower(value) ==> !IsAsciiUpper(ch);
    assert forall i, j :: 0 <= i < |r| && 0 <= j < |r[i]| ==> r[i][j] in r[i];
    r
  }
}
