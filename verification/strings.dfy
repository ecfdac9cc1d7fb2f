/**
 * The Python `str` operations the configuration code relies on, over `seq<char>`:
 * `lower()`, `split()` (runs of whitespace), `split(c)` (one separator character),
 * `sep.join(xs)`, `replace(c, "")`, `startswith` and `rfind`.
 */
module Strings {

  predicate IsAsciiUpper(c: char) {
    'A' <= c <= 'Z'
  }

  /** `c.lower()` for ASCII letters; every other character is left as it is. */
  function LowerChar(c: char): (r: char)
    ensures !IsAsciiUpper(r)
    ensures IsAsciiUpper(c) ==> 'a' <= r <= 'z' && r as int - c as int == 'a' as int - 'A' as int
    ensures !IsAsciiUpper(c) ==> r == c
  {
    if IsAsciiUpper(c) then (c as int - 'A' as int + 'a' as int) as char else c
  }

  function Lower(s: string): (r: string)
    ensures |r| == |s|
    ensures forall i :: 0 <= i < |s| ==> r[i] == LowerChar(s[i])
  {
    seq(|s|, i requires 0 <= i < |s| => LowerChar(s[i]))
  }

  predicate NoUpper(s: string) {
    forall i :: 0 <= i < |s| ==> !IsAsciiUpper(s[i])
  }

  lemma LowerIdempotent(s: string)
    ensures Lower(Lower(s)) == Lower(s)
  {
  }

  lemma LowerAppend(a: string, b: string)
    ensures Lower(a + b) == Lower(a) + Lower(b)
  {
  }

  /** The characters for which Python's `str.isspace()` holds; `str.split()` breaks on runs of them. */
  predicate IsSpace(c: char) {
    || c == ' '
    || '\t' <= c <= '\r'
    || '\U{1c}' <= c <= '\U{1f}'
    || c == '\U{85}' || c == '\U{a0}' || c == '\U{1680}'
    || '\U{2000}' <= c <= '\U{200a}'
    || c == '\U{2028}' || c == '\U{2029}' || c == '\U{202f}' || c == '\U{205f}' || c == '\U{3000}'
  }

  predicate NoSpace(s: string) {
    forall i :: 0 <= i < |s| ==> !IsSpace(s[i])
  }

  predicate StartsWith(s: string, prefix: string) {
    |prefix| <= |s| && s[..|prefix|] == prefix
  }

  /** Number of occurrences of `c` in `s`. */
  function Count(s: string, c: char): nat {
    if |s| == 0 then 0 else (if s[0] == c then 1 else 0) + Count(s[1..], c)
  }

  lemma CountAppend(a: string, b: string, c: char)
    ensures Count(a + b, c) == Count(a, c) + Count(b, c)
  {
    if |a| > 0 {
      assert (a + b)[1..] == a[1..] + b;
      CountAppend(a[1..], b, c);
    } else {
      assert a + b == b;
    }
  }

  lemma CountAbsent(s: string, c: char)
    ensures Count(s, c) == 0 <==> c !in s
  {
    if |s| > 0 {
      CountAbsent(s[1..], c);
      assert c in s <==> s[0] == c || c in s[1..];
    }
  }

  /** Lower-casing neither creates nor removes a character that is not a letter. */
  lemma {:induction false} CountLower(s: string, c: char)
    requires !IsAsciiUpper(c) && !('a' <= c <= 'z')
    ensures Count(Lower(s), c) == Count(s, c)
  {
    if |s| > 0 {
      assert Lower(s)[1..] == Lower(s[1..]);
      CountLower(s[1..], c);
    }
  }

  /** `sep.join(xs)`. */
  function Join(xs: seq<string>, sep: string): string {
    if |xs| == 0 then ""
    else if |xs| == 1 then xs[0]
    else xs[0] + sep + Join(xs[1..], sep)
  }

  lemma JoinHead(a: string, x: string, ys: seq<string>, sep: string)
    ensures Join([a + x] + ys, sep) == a + Join([x] + ys, sep)
  {
    assert ([a + x] + ys)[1..] == ys;
    assert ([x] + ys)[1..] == ys;
  }

  lemma JoinPrepend(x: string, ys: seq<string>, sep: string)
    requires |ys| > 0
    ensures Join([x] + ys, sep) == x + sep + Join(ys, sep)
  {
    assert ([x] + ys)[1..] == ys;
  }

  lemma {:induction false} JoinSnoc(xs: seq<string>, y: string, sep: string)
    requires |xs| > 0
    ensures Join(xs + [y], sep) == Join(xs, sep) + sep + y
  {
    if |xs| > 1 {
      assert (xs + [y])[1..] == xs[1..] + [y];
      JoinSnoc(xs[1..], y, sep);
    } else {
      assert (xs + [y])[1..] == [y];
    }
  }

  /** `s.split(c)` for a one-character separator: always at least one piece, possibly empty ones. */
  function Split(s: string, c: char): (r: seq<string>)
    ensures |r| == Count(s, c) + 1
    ensures forall i :: 0 <= i < |r| ==> c !in r[i]
    ensures forall i, ch :: 0 <= i < |r| && ch in r[i] ==> ch in s
    ensures Join(r, [c]) == s
    decreases |s|
  {
    if |s| == 0 then [""]
    else
      var rest := Split(s[1..], c);
      assert forall ch :: ch in s[1..] ==> ch in s;
      if s[0] == c then
        JoinPrepend("", rest, [c]);
        assert forall i :: 1 <= i < |rest| + 1 ==> ([""] + rest)[i] == rest[i - 1];
        [""] + rest
      else
        JoinHead([s[0]], rest[0], rest[1..], [c]);
        assert [rest[0]] + rest[1..] == rest;
        [[s[0]] + rest[0]] + rest[1..]
  }

  lemma SplitNoSeparator(s: string, c: char)
    requires c !in s
    ensures Split(s, c) == [s]
  {
    CountAbsent(s, c);
  }

  lemma {:induction false} SplitAfterPiece(x: string, t: string, c: char)
    requires c !in x
    ensures Split(x + [c] + t, c) == [x] + Split(t, c)
    decreases |x|
  {
    if |x| == 0 {
      assert x + [c] + t == [c] + t;
      assert ([c] + t)[1..] == t;
    } else {
      assert (x + [c] + t)[1..] == x[1..] + [c] + t;
      SplitAfterPiece(x[1..], t, c);
      assert [x[0]] + x[1..] == x;
    }
  }

  /** Splitting undoes joining, as long as no piece contains the separator. */
  lemma {:induction false} SplitJoin(xs: seq<string>, c: char)
    requires |xs| > 0
    requires forall i :: 0 <= i < |xs| ==> c !in xs[i]
    ensures Split(Join(xs, [c]), c) == xs
  {
    if |xs| == 1 {
      SplitNoSeparator(xs[0], c);
    } else {
      SplitJoin(xs[1..], c);
      SplitAfterPiece(xs[0], Join(xs[1..], [c]), c);
      assert [xs[0]] + xs[1..] == xs;
    }
  }

  /** `s.replace(c, "")`. */
  function Remove(s: string, c: char): (r: string)
    ensures c !in r
    ensures forall ch :: ch in r ==> ch in s
    ensures forall d :: d != c ==> Count(r, d) == Count(s, d)
  {
    if |s| == 0 then ""
    else if s[0] == c then Remove(s[1..], c)
    else [s[0]] + Remove(s[1..], c)
  }

  lemma {:induction false} RemoveAppend(a: string, b: string, c: char)
    ensures Remove(a + b, c) == Remove(a, c) + Remove(b, c)
  {
    if |a| > 0 {
      assert (a + b)[1..] == a[1..] + b;
      RemoveAppend(a[1..], b, c);
    } else {
      assert a + b == b;
    }
  }

  lemma {:induction false} RemoveAbsent(s: string, c: char)
    requires c !in s
    ensures Remove(s, c) == s
  {
    if |s| > 0 {
      RemoveAbsent(s[1..], c);
      assert [s[0]] + s[1..] == s;
    }
  }

  /** Length of the leading run of non-whitespace characters. */
  function WordLength(s: string): (n: nat)
    ensures n <= |s|
    ensures forall i :: 0 <= i < n ==> !IsSpace(s[i])
    ensures n == |s| || IsSpace(s[n])
  {
    if |s| == 0 || IsSpace(s[0]) then 0 else 1 + WordLength(s[1..])
  }

  /** `s.split()` with no argument: the maximal runs of non-whitespace characters. */
  function Words(s: string): (r: seq<string>)
    ensures forall i :: 0 <= i < |r| ==> |r[i]| > 0 && NoSpace(r[i])
    decreases |s|
  {
    if |s| == 0 then []
    else if IsSpace(s[0]) then Words(s[1..])
    else
      var n := WordLength(s);
      [s[..n]] + Words(s[n..])
  }

  lemma {:induction false} WordLengthOfWord(w: string, rest: string)
    requires NoSpace(w)
    requires |rest| == 0 || IsSpace(rest[0])
    ensures WordLength(w + rest) == |w|
    decreases |w|
  {
    if |w| == 0 {
      assert w + rest == rest;
    } else {
      assert (w + rest)[1..] == w[1..] + rest;
      WordLengthOfWord(w[1..], rest);
    }
  }

  lemma WordsAfterWord(w: string, rest: string)
    requires |w| > 0 && NoSpace(w)
    requires |rest| == 0 || IsSpace(rest[0])
    ensures Words(w + rest) == [w] + Words(rest)
  {
    WordLengthOfWord(w, rest);
    assert (w + rest)[..|w|] == w;
    assert (w + rest)[|w|..] == rest;
  }

  /** Whitespace-splitting a single-space join gives back the words. */
  lemma {:induction false} WordsJoin(ws: seq<string>)
    requires forall i :: 0 <= i < |ws| ==> |ws[i]| > 0 && NoSpace(ws[i])
    ensures Words(Join(ws, " ")) == ws
  {
    if |ws| == 0 {
    } else if |ws| == 1 {
      WordsAfterWord(ws[0], "");
      assert ws[0] + "" == ws[0];
    } else {
      var tail := Join(ws[1..], " ");
      assert Join(ws, " ") == ws[0] + (" " + tail);
      WordsJoin(ws[1..]);
      assert Words(" " + tail) == Words(tail) by {
        assert (" " + tail)[1..] == tail;
      }
      WordsAfterWord(ws[0], " " + tail);
      assert [ws[0]] + ws[1..] == ws;
    }
  }

  /** A string of whitespace only has no words. */
  lemma {:induction false} WordsOfSpace(s: string)
    requires forall i :: 0 <= i < |s| ==> IsSpace(s[i])
    ensures Words(s) == []
    decreases |s|
  {
    if |s| > 0 {
      WordsOfSpace(s[1..]);
    }
  }

  /** A non-empty string without whitespace is one word. */
  lemma WordsOfWord(w: string)
    requires |w| > 0 && NoSpace(w)
    ensures Words(w) == [w]
  {
    WordsAfterWord(w, "");
    assert w + "" == w;
  }

  /** A run of non-whitespace that stops inside `a` stops at the same place once more text follows. */
  lemma {:induction false} WordLengthExtend(a: string, t: string)
    requires WordLength(a) < |a|
    ensures WordLength(a + t) == WordLength(a)
    decreases |a|
  {
    if !IsSpace(a[0]) {
      assert (a + t)[1..] == a[1..] + t;
      WordLengthExtend(a[1..], t);
    }
  }

  /** Whitespace separates words: the words on either side of one whitespace character, in order. */
  lemma {:induction false} WordsSplitAtSpace(a: string, sp: char, b: string)
    requires IsSpace(sp)
    ensures Words(a + [sp] + b) == Words(a) + Words(b)
    decreases |a|
  {
    var s := a + [sp] + b;
    if |a| == 0 {
      assert s == [sp] + b;
      assert s[1..] == b;
    } else if IsSpace(a[0]) {
      assert s[1..] == a[1..] + [sp] + b;
      WordsSplitAtSpace(a[1..], sp, b);
    } else {
      var n := WordLength(a);
      if n < |a| {
        WordLengthExtend(a, [sp] + b);
        assert s == a + ([sp] + b);
        assert s[..n] == a[..n];
        assert s[n..] == a[n..] + [sp] + b;
        WordsSplitAtSpace(a[n..], sp, b);
      } else {
        WordsAfterWord(a, [sp] + b);
        assert s == a + ([sp] + b);
        assert ([sp] + b)[1..] == b;
        WordsOfWord(a);
      }
    }
  }

  /** Position of the first of `names` missing from `pool`, or -1 when every one is present. */
  function FirstNotIn(names: seq<string>, pool: seq<string>): (r: int)
    ensures -1 <= r < |names|
    ensures r >= 0 ==> names[r] !in pool
    ensures forall j :: 0 <= j < |names| && (r < 0 || j < r) ==> names[j] in pool
  {
    if |names| == 0 then -1
    else if names[0] !in pool then 0
    else
      var r := FirstNotIn(names[1..], pool);
      if r < 0 then -1 else r + 1
  }

  /** `xs.index(x)` on a list: the first position holding `x`, or -1 where Python raises `ValueError`. */
  function IndexOf(xs: seq<string>, x: string): (r: int)
    ensures -1 <= r < |xs|
    ensures r < 0 <==> x !in xs
    ensures r >= 0 ==> xs[r] == x && forall j :: 0 <= j < r ==> xs[j] != x
  {
    if |xs| == 0 then -1
    else if xs[0] == x then 0
    else
      var r := IndexOf(xs[1..], x);
      if r < 0 then -1 else r + 1
  }

  /** Index of the last `c` in `s`, or -1: Python's `s.rfind(c)`. */
  function LastIndexOf(s: string, c: char): (r: int)
    ensures -1 <= r < |s|
    ensures r >= 0 ==> s[r] == c
    ensures forall j :: r < j < |s| ==> s[j] != c
  {
    if |s| == 0 then -1
    else if s[|s| - 1] == c then |s| - 1
    else LastIndexOf(s[..|s| - 1], c)
  }

  /** The quote `repr` puts around a string: double quotes only when it holds `'` and no `"`. */
  function QuoteFor(s: string): (q: char)
    ensures q == '"' <==> '\'' in s && '"' !in s
    ensures q == '"' || q == '\''
  {
    if '\'' in s && '"' !in s then '"' else '\''
  }

  /** A lower-case hexadecimal digit. */
  function HexDigit(n: nat): (c: char)
    requires n < 16
    ensures IsHexDigit(c) && HexValue(c) == n
  {
    if n < 10 then ('0' as int + n) as char else ('a' as int + n - 10) as char
  }

  predicate IsHexDigit(c: char) {
    '0' <= c <= '9' || 'a' <= c <= 'f'
  }

  function HexValue(c: char): (n: nat)
    requires IsHexDigit(c)
    ensures n < 16
  {
    if c <= '9' then c as int - '0' as int else c as int - 'a' as int + 10
  }

  /**
   * How `repr` writes one character of a string it quotes with `q`: the quote and the backslash
   * get a backslash, tab, newline and carriage return their letters, other ASCII control
   * characters `\x` and two hexadecimal digits, and everything else stays.
   */
  function EscapeChar(c: char, q: char): (r: string)
    ensures |r| > 0
  {
    if c == q || c == '\\' then ['\\', c]
    else if c == '\t' then "\\t"
    else if c == '\n' then "\\n"
    else if c == '\r' then "\\r"
    else if c < ' ' || c == '\U{7F}' then ['\\', 'x', HexDigit(c as int / 16), HexDigit(c as int % 16)]
    else [c]
  }

  function Escape(s: string, q: char): (r: string)
    ensures |r| >= |s|
  {
    if |s| == 0 then "" else EscapeChar(s[0], q) + Escape(s[1..], q)
  }

  /** `repr(s)` of a string: the escaped text between the chosen quotes. */
  function Repr(s: string): (r: string)
    ensures |r| >= |s| + 2
    ensures r[0] == QuoteFor(s) && r[|r| - 1] == QuoteFor(s)
  {
    var q := QuoteFor(s);
    [q] + Escape(s, q) + [q]
  }

  /** Reading back the text between the quotes of a `repr`: each escape gives its character. */
  function Unescape(t: string): string
    decreases |t|
  {
    if |t| == 0 then ""
    else if t[0] != '\\' || |t| == 1 then [t[0]] + Unescape(t[1..])
    else if t[1] == 't' then "\t" + Unescape(t[2..])
    else if t[1] == 'n' then "\n" + Unescape(t[2..])
    else if t[1] == 'r' then "\r" + Unescape(t[2..])
    else if t[1] == 'x' && |t| >= 4 && IsHexDigit(t[2]) && IsHexDigit(t[3]) then
      [(HexValue(t[2]) * 16 + HexValue(t[3])) as char] + Unescape(t[4..])
    else [t[1]] + Unescape(t[2..])
  }

  lemma UnescapeChar(c: char, q: char, rest: string)
    requires q == '"' || q == '\''
    ensures Unescape(EscapeChar(c, q) + rest) == [c] + Unescape(rest)
  {
    var t := EscapeChar(c, q) + rest;
    if c == q || c == '\\' || c == '\t' || c == '\n' || c == '\r' {
      assert t[2..] == rest;
    } else if c < ' ' || c == '\U{7F}' {
      assert t[4..] == rest;
      assert (c as int / 16) * 16 + c as int % 16 == c as int;
    } else {
      assert t[1..] == rest;
    }
  }

  /** Reading back the body of a `repr` gives the string. */
  lemma {:induction false} UnescapeEscape(s: string, q: char)
    requires q == '"' || q == '\''
    ensures Unescape(Escape(s, q)) == s
    decreases |s|
  {
    if |s| > 0 {
      UnescapeChar(s[0], q, Escape(s[1..], q));
      UnescapeEscape(s[1..], q);
      assert [s[0]] + s[1..] == s;
    }
  }

  /** `repr` loses nothing: the string is read back from between the quotes. */
  lemma ReprRoundTrip(s: string)
    ensures Unescape(Repr(s)[1..|Repr(s)| - 1]) == s
  {
    var q := QuoteFor(s);
    assert Repr(s)[1..|Repr(s)| - 1] == Escape(s, q);
    UnescapeEscape(s, q);
  }

  /** A string with nothing to escape is shown between single quotes as it is. */
  lemma {:induction false} ReprPlain(s: string)
    requires forall i :: 0 <= i < |s| ==> s[i] != '\'' && s[i] != '\\' && ' ' <= s[i] && s[i] != '\U{7F}'
    ensures Repr(s) == "'" + s + "'"
  {
    EscapePlain(s);
  }

  lemma {:induction false} EscapePlain(s: string)
    requires forall i :: 0 <= i < |s| ==> s[i] != '\'' && s[i] != '\\' && ' ' <= s[i] && s[i] != '\U{7F}'
    ensures Escape(s, '\'') == s
    decreases |s|
  {
    if |s| > 0 {
      EscapePlain(s[1..]);
      assert [s[0]] + s[1..] == s;
    }
  }

  /** `repr` quotes in single quotes, and in double quotes a text holding `'` and no `"`. */
  lemma ReprExamples()
    ensures Repr("a") == "'a'"
    ensures Repr("it's") == "\"it's\""
  {
    ReprSingleQuoted();
    ReprDoubleQuoted();
  }

  lemma ReprSingleQuoted()
    ensures Repr("a") == "'a'"
  {
    ReprPlain("a");
    assert Repr("a") == "'" + "a" + "'";
  }

  lemma ReprDoubleQuoted()
    ensures Repr("it's") == "\"it's\""
  {
    var s := "it's";
    assert QuoteFor(s) == '"' by {
      assert s[2] == '\'';
    }
    EscapeKeepsApostrophe(s);
    assert Repr(s) == "\"" + s + "\"";
  }

  /** Inside double quotes the text `it's` needs no escape. */
  lemma EscapeKeepsApostrophe(s: string)
    requires s == "it's"
    ensures Escape(s, '"') == s
  {
    assert Escape(s[4..], '"') == "";
    assert Escape(s[3..], '"') == "s" by {
      assert s[3..] == [s[3]] + s[4..];
    }
    assert Escape(s[2..], '"') == "'s";
    assert Escape(s[1..], '"') == "t's";
    assert s[0..] == s;
  }
}
