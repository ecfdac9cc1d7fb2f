/**
 * The helpers every task shares: the file-name split, the task-level boolean parser, the
 * channel parser, Python's `int()` on text, and `parse_config`, which lower-cases the keys of
 * a task section and types the few settings every task understands.
 */
module Misc {
  import opened Wrappers
  import opened Errors
  import opened Strings
  import opened Dicts
  import Paths
  import Config

  /** The values a parsed task configuration can hold. */
  datatype ConfigValue = Str(s: string) | Bool(b: bool) | Int(i: int) | NoneValue

  /** The name Python gives the type of a value, as it appears in error messages. */
  function TypeName(v: ConfigValue): string {
    match v
    case Str(_) => "str"
    case Bool(_) => "bool"
    case Int(_) => "int"
    case NoneValue => "NoneType"
  }

  /** Python truthiness: the empty text, `False`, `0` and `None` are false. */
  predicate Truthy(v: ConfigValue) {
    match v
    case Str(s) => s != ""
    case Bool(b) => b
    case Int(i) => i != 0
    case NoneValue => false
  }

  /** `get_file_corename_ext`: the final path component split into core name and extension. */
  function GetFileCoreNameExt(filename: string): (r: (string, string))
    ensures r.0 + r.1 == Paths.Basename(filename)
    ensures '/' !in r.0 && '/' !in r.1
    ensures r.1 == "" || (r.1[0] == '.' && '.' !in r.1[1..])
    ensures r.1 != "" <==> Paths.HasExtension(Paths.Basename(filename))
  {
    var core := Paths.Basename(filename);
    var r := Paths.SplitExt(core);
    PrefixHasNo(core, r.0, r.1, '/');
    r
  }

  /** A character absent from a string is absent from both parts of any split of it. */
  lemma PrefixHasNo(s: string, a: string, b: string, c: char)
    requires a + b == s && c !in s
    ensures c !in a && c !in b
  {
    forall i | 0 <= i < |a|
      ensures a[i] != c
    {
      assert a[i] == s[i];
    }
    forall i | 0 <= i < |b|
      ensures b[i] != c
    {
      assert b[i] == s[|a| + i];
    }
  }

  const TrueWords: seq<string> := ["yes", "true", "on"]
  const FalseWords: seq<string> := ["no", "false", "off"]

  /** `parse_boolean` of the task helpers: fewer words than the configuration module accepts. */
  function ParseBoolean(val: string): (r: Result<bool, Error>)
    ensures r == Success(true) <==> Lower(val) in TrueWords
    ensures r == Success(false) <==> Lower(val) in FalseWords
    ensures r.Failure? ==> r.error == ValueError("Found value not parsable as boolean: " + val)
  {
    if Lower(val) in TrueWords then Success(true)
    else if Lower(val) in FalseWords then Success(false)
    else Failure(ValueError("Found value not parsable as boolean: " + val))
  }

  /** Whatever this parser accepts, the configuration module's parser accepts with the same result. */
  lemma ParseBooleanAgrees(val: string)
    requires ParseBoolean(val).Success?
    ensures Config.ParseBoolean(val) == ParseBoolean(val)
  {
  }

  /** The two parsers disagree exactly on the words `1`, `0`, `y` and `n`, which only the configuration module takes. */
  lemma ParseBooleanDiffers(val: string)
    ensures ParseBoolean(val).Failure? && Config.ParseBoolean(val).Success? <==> Lower(val) in ["1", "0", "y", "n"]
    ensures ParseBoolean(val).Success? ==> Config.ParseBoolean(val).Success?
  {
  }

  /** Letter case does not change whether a value parses, nor what it parses to; only the error text keeps the original. */
  lemma ParseBooleanCase(val: string)
    ensures ParseBoolean(Lower(val)).Success? <==> ParseBoolean(val).Success?
    ensures ParseBoolean(val).Success? ==> ParseBoolean(Lower(val)) == ParseBoolean(val)
  {
    LowerIdempotent(val);
  }

  /** `parse_channels` of the task helpers: the same text processing as the configuration module's. */
  function ParseChannels(value: string): (r: seq<string>)
    ensures r == Config.ParseChannels(value)
  {
    Split(Remove(Lower(value), ' '), ',')
  }

  predicate IsDigit(c: char) {
    '0' <= c <= '9'
  }

  predicate AllDigits(s: string) {
    forall i :: 0 <= i < |s| ==> IsDigit(s[i])
  }

  /** The value of a string of decimal digits, most significant first. */
  function DigitsValue(s: string): nat
    requires AllDigits(s)
  {
    if |s| == 0 then 0 else DigitsValue(s[..|s| - 1]) * 10 + (s[|s| - 1] as int - '0' as int)
  }

  /** `s.lstrip()`: drop leading whitespace. */
  function TrimStart(s: string): (r: string)
    ensures |r| <= |s| && r == s[|s| - |r|..]
    ensures |r| == 0 || !IsSpace(r[0])
    ensures forall i :: 0 <= i < |s| - |r| ==> IsSpace(s[i])
  {
    if |s| > 0 && IsSpace(s[0]) then TrimStart(s[1..]) else s
  }

  /** `s.rstrip()`: drop trailing whitespace. */
  function TrimEnd(s: string): (r: string)
    ensures |r| <= |s| && r == s[..|r|]
    ensures |r| == 0 || !IsSpace(r[|r| - 1])
    ensures forall i :: |r| <= i < |s| ==> IsSpace(s[i])
  {
    if |s| > 0 && IsSpace(s[|s| - 1]) then TrimEnd(s[..|s| - 1]) else s
  }

  /** Text `int()` accepts once surrounding whitespace is stripped: an optional sign, then one or more digits. */
  predicate IsIntLiteral(t: string) {
    var digits := if |t| > 0 && (t[0] == '+' || t[0] == '-') then t[1..] else t;
    |digits| > 0 && AllDigits(digits)
  }

  /** The longest `repr` the `int()` message shows in full: it formats the input with `%.200R`. */
  const ReprLimit: nat := 200

  /** `%.200R`: the `repr` of `s`, cut after its first 200 characters. */
  function ShortRepr(s: string): (r: string)
    ensures |r| <= ReprLimit && |r| <= |Repr(s)| && r == Repr(s)[..|r|]
    ensures r == Repr(s) <==> |Repr(s)| <= ReprLimit
  {
    var full := Repr(s);
    if |full| <= ReprLimit then full else full[..ReprLimit]
  }

  const NotAnIntPrefix := "invalid literal for int() with base 10: "

  /** What `int(s)` raises for text that is not an integer: the message shows `repr(s)`, cut to 200 characters. */
  function NotAnInt(s: string): Error {
    ValueError(NotAnIntPrefix + ShortRepr(s))
  }

  /**
   * A `repr` of at most 200 characters is quoted in full. A longer one is cut, and the message
   * loses the closing quote and the end of the input; every input of 199 characters or more is
   * cut, since `repr` adds two quotes.
   */
  lemma NotAnIntMessage(s: string)
    ensures |Repr(s)| <= ReprLimit ==> NotAnInt(s).msg == NotAnIntPrefix + Repr(s)
    ensures |Repr(s)| > ReprLimit ==>
              && NotAnInt(s).msg == NotAnIntPrefix + Repr(s)[..ReprLimit]
              && |NotAnInt(s).msg| < |NotAnIntPrefix + Repr(s)|
    ensures |s| >= 199 ==> |Repr(s)| > ReprLimit
  {
  }

  /** The number an integer literal with no surrounding whitespace spells, if it is one. */
  function LiteralValue(t: string): (r: Option<int>)
    ensures r.Some? <==> IsIntLiteral(t)
  {
    var negative := |t| > 0 && t[0] == '-';
    var digits := if |t| > 0 && (t[0] == '+' || t[0] == '-') then t[1..] else t;
    if |digits| > 0 && AllDigits(digits) then
      var magnitude: int := DigitsValue(digits);
      Some(if negative then -magnitude else magnitude)
    else
      None
  }

  /** `int(s)` for a string, in base 10. */
  function ParseInt(s: string): (r: Result<int, Error>)
    ensures r.Success? <==> IsIntLiteral(TrimEnd(TrimStart(s)))
    ensures r.Failure? ==> r.error == NotAnInt(s)
  {
    match LiteralValue(TrimEnd(TrimStart(s)))
    case Some(n) => Success(n)
    case None => Failure(NotAnInt(s))
  }

  /** Text that is not an integer raises with its `repr` in the message: in single quotes... */
  lemma ParseIntErrorSingleQuotes()
    ensures ParseInt("a") == Failure(NotAnInt("a")) && Repr("a") == "'a'"
  {
    var s := "a";
    assert ParseInt(s).Failure? by {
      assert TrimStart(s) == s by {
        assert !IsSpace(s[0]);
      }
      assert TrimEnd(s) == s;
      assert !IsDigit(s[0]);
      assert !IsIntLiteral(s);
    }
    ReprExamples();
  }

  /** `int("a")` says `invalid literal for int() with base 10: 'a'`. */
  lemma SingleQuotedMessage()
    ensures NotAnInt("a") == ValueError("invalid literal for int() with base 10: 'a'")
  {
    ReprSingleQuoted();
    QuotedMessage("a", "'a'");
  }

  /** ...or in double quotes around a text holding `'` and no `"`. */
  lemma ParseIntErrorDoubleQuotes()
    ensures ParseInt("it's") == Failure(NotAnInt("it's")) && Repr("it's") == "\"it's\""
  {
    var s := "it's";
    assert ParseInt(s).Failure? by {
      assert TrimStart(s) == s by {
        assert !IsSpace(s[0]);
      }
      assert TrimEnd(s) == s by {
        assert !IsSpace(s[3]);
      }
      assert !IsDigit(s[0]);
      assert !IsIntLiteral(s);
    }
    ReprExamples();
  }

  /** `int("it's")` says `invalid literal for int() with base 10: "it's"`. */
  lemma DoubleQuotedMessage()
    ensures NotAnInt("it's") == ValueError("invalid literal for int() with base 10: \"it's\"")
  {
    ReprDoubleQuoted();
    QuotedMessage("it's", "\"it's\"");
  }

  /** The message of a short `repr`, written out. */
  lemma QuotedMessage(s: string, q: string)
    requires Repr(s) == q && |q| <= ReprLimit
    ensures NotAnInt(s) == ValueError("invalid literal for int() with base 10: " + q)
  {
    NotAnIntMessage(s);
  }

  /** `str(n)` for a natural number. */
  function NatToString(n: nat): (r: string)
    ensures |r| > 0 && AllDigits(r)
  {
    if n < 10 then ['0' + n as char]
    else NatToString(n / 10) + ['0' + (n % 10) as char]
  }

  /** `str(n)` for any integer. */
  function IntToString(n: int): string {
    if n < 0 then "-" + NatToString(-n) else NatToString(n)
  }

  lemma {:induction false} NatToStringValue(n: nat)
    ensures DigitsValue(NatToString(n)) == n
  {
    var r := NatToString(n);
    if n >= 10 {
      NatToStringValue(n / 10);
      assert r[..|r| - 1] == NatToString(n / 10);
    }
  }

  /** `int(str(n)) == n`. */
  lemma ParseIntRoundTrip(n: int)
    ensures ParseInt(IntToString(n)) == Success(n)
  {
    var s := IntToString(n);
    var m := NatToString(if n < 0 then -n else n);
    NatToStringValue(if n < 0 then -n else n);
    assert IsDigit(m[0]) && IsDigit(m[|m| - 1]);
    if n < 0 {
      assert s[|s| - 1] == m[|m| - 1];
      NegativeLiteralValue(m);
    } else {
      DigitsLiteralValue(m);
    }
    NothingToTrim(s);
  }

  /** A run of digits spells the number they denote. */
  lemma DigitsLiteralValue(m: string)
    requires |m| > 0 && AllDigits(m)
    ensures LiteralValue(m) == Some(DigitsValue(m) as int)
  {
    assert IsDigit(m[0]);
  }

  /** A minus sign followed by digits spells the negated number. */
  lemma NegativeLiteralValue(m: string)
    requires |m| > 0 && AllDigits(m)
    ensures LiteralValue("-" + m) == Some(-(DigitsValue(m) as int))
  {
    assert ("-" + m)[1..] == m;
  }

  lemma NothingToTrim(s: string)
    requires |s| > 0 && !IsSpace(s[0]) && !IsSpace(s[|s| - 1])
    ensures TrimEnd(TrimStart(s)) == s
  {
    assert TrimStart(s) == s;
  }

  /** The keys every task reads as booleans. */
  const FlagKeys: seq<string> := ["skip", "skip_if_already_done", "verbose"]

  /** One setting as `parse_config` stores it, keyed by the lower-case form of its key. */
  function ConvertSetting(key: string, value: string): (r: Result<ConfigValue, Error>)
    ensures Lower(key) in FlagKeys ==>
              (r.Success? <==> ParseBoolean(value).Success?) &&
              (r.Success? ==> r.value == Bool(ParseBoolean(value).value)) &&
              (r.Failure? ==> r.error == ParseBoolean(value).error)
    ensures Lower(key) == "cores" ==>
              (r.Success? <==> ParseInt(value).Success?) &&
              (r.Success? ==> r.value == Int(ParseInt(value).value)) &&
              (r.Failure? ==> r.error == ParseInt(value).error)
    ensures Lower(key) !in FlagKeys && Lower(key) != "cores" ==> r == Success(Str(value))
  {
    var k := Lower(key);
    if k in FlagKeys then
      var b :- ParseBoolean(value);
      Success(Bool(b))
    else if k == "cores" then
      var n :- ParseInt(value);
      Success(Int(n))
    else
      Success(Str(value))
  }

  /** The assignments `parse_config` performs, one per section key, in key order. */
  function Items(config: Dict<string>): (items: seq<(string, Result<ConfigValue, Error>)>)
    requires config.Valid()
    ensures |items| == |config.keys|
    ensures forall i :: 0 <= i < |items| ==>
              items[i] == (Lower(config.keys[i]), ConvertSetting(config.keys[i], config.values[config.keys[i]]))
  {
    seq(|config.keys|, i requires 0 <= i < |config.keys| =>
      (Lower(config.keys[i]), ConvertSetting(config.keys[i], config.values[config.keys[i]])))
  }

  /** A setting whose lower-case key is neither a flag nor `cores` is stored as its text. */
  lemma ItemIsText(config: Dict<string>, i: nat)
    requires config.Valid() && i < |config.keys|
    requires Lower(config.keys[i]) !in FlagKeys && Lower(config.keys[i]) != "cores"
    ensures Items(config)[i] == (Lower(config.keys[i]), Success(Str(config.values[config.keys[i]])))
  {
  }

  /** Every item assigning to a key that is neither a flag nor `cores` carries text. */
  lemma TextKeyItems(config: Dict<string>, key: string)
    requires config.Valid() && key !in FlagKeys && key != "cores"
    ensures forall i :: 0 <= i < |Items(config)| && Items(config)[i].0 == key && Items(config)[i].1.Success? ==>
              Items(config)[i].1.value.Str?
  {
    forall i | 0 <= i < |Items(config)| && Items(config)[i].0 == key && Items(config)[i].1.Success?
      ensures Items(config)[i].1.value.Str?
    {
      ItemIsText(config, i);
    }
  }

  /** `parse_config` fails exactly when some setting does not convert, with the first such error. */
  lemma ParseConfigFailure(config: Dict<string>)
    requires config.Valid()
    ensures var r := PutEach(Empty(), Items(config));
            && (r.Failure? <==> exists i :: 0 <= i < |config.keys| && Items(config)[i].1.Failure?)
            && (r.Failure? ==> r.error == Items(config)[FirstFailure(Items(config))].1.error)
  {
    PutEachFailure(Empty(), Items(config));
  }

  /** After `parse_config` every lower-cased section key is present. */
  lemma ParseConfigHasEveryKey(config: Dict<string>)
    requires config.Valid() && PutEach(Empty(), Items(config)).Success?
    ensures forall i :: 0 <= i < |config.keys| ==> Lower(config.keys[i]) in PutEach(Empty(), Items(config)).value.values
  {
    var items := Items(config);
    PutEachKeys(Empty(), items);
    KeysOfMembers(items);
    assert forall i :: 0 <= i < |config.keys| ==> items[i].0 == Lower(config.keys[i]);
  }

  /** After `parse_config` every key is the lower-case form of some section key. */
  lemma ParseConfigOnlyLowerKeys(config: Dict<string>)
    requires config.Valid() && PutEach(Empty(), Items(config)).Success?
    ensures forall k :: k in PutEach(Empty(), Items(config)).value.values ==>
              NoUpper(k) && exists i :: 0 <= i < |config.keys| && Lower(config.keys[i]) == k
  {
    KeysFrom(Empty(), Items(config), Lower, config.keys);
  }

  /** A stored value is the converted value of the last section key with that lower-case form. */
  lemma ParseConfigLastWins(config: Dict<string>, i: nat)
    requires config.Valid() && PutEach(Empty(), Items(config)).Success?
    requires i < |config.keys|
    requires forall j :: i < j < |config.keys| ==> Lower(config.keys[j]) != Lower(config.keys[i])
    ensures ConvertSetting(config.keys[i], config.values[config.keys[i]]).Success?
    ensures Lower(config.keys[i]) in PutEach(Empty(), Items(config)).value.values
    ensures PutEach(Empty(), Items(config)).value.values[Lower(config.keys[i])]
              == ConvertSetting(config.keys[i], config.values[config.keys[i]]).value
  {
    var items := Items(config);
    forall j | i < j < |items|
      ensures items[j].0 != items[i].0
    {
    }
    PutEachLastWins(Empty(), items, i);
  }

  /** `parse_config` as the loop the source runs: one assignment per section key, in key order. */
  method ParseConfig(config: Dict<string>) returns (r: Result<Dict<ConfigValue>, Error>)
    requires config.Valid()
    ensures r == PutEach(Empty(), Items(config))
  {
    var res: Dict<ConfigValue> := Empty();
    var i := 0;
    while i < |config.keys|
      invariant 0 <= i <= |config.keys|
      invariant res.Valid()
      invariant PutEach(Empty(), Items(config)[..i]) == Success(res)
    {
      var key := config.keys[i];
      var converted := ConvertSetting(key, config.values[key]);
      ParseConfigStep(config, i, res);
      if converted.Failure? {
        return Failure(converted.error);
      }
      res := Put(res, Lower(key), converted.value);
      i := i + 1;
    }
    assert Items(config)[..i] == Items(config);
    return Success(res);
  }

  /** One turn of the `parse_config` loop: the setting's error ends it, otherwise it is stored. */
  lemma ParseConfigStep(config: Dict<string>, i: nat, res: Dict<ConfigValue>)
    requires config.Valid() && res.Valid() && i < |config.keys|
    requires PutEach(Empty(), Items(config)[..i]) == Success(res)
    ensures var key := config.keys[i];
            var converted := ConvertSetting(key, config.values[key]);
            && (converted.Failure? ==> PutEach(Empty(), Items(config)) == Failure(converted.error))
            && (converted.Success? ==> PutEach(Empty(), Items(config)[..i + 1]) == Success(Put(res, Lower(key), converted.value)))
  {
    var items := Items(config);
    PutEachStep(Empty(), items, i);
    if items[i].1.Failure? {
      PutEachFailurePersists(Empty(), items, i + 1);
    }
  }
}
