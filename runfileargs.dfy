/**
  `process_run_file(arguments)` of run_file_args.py: when the `run_file` setting is not
  empty, every line of that file that the line pattern matches overrides one setting.
  The raw value is stripped of surrounding whitespace, unescaped with the five-entry
  table, stripped of one outer pair of matching quotes, and coerced to the type of the
  setting's current value (a new setting becomes a string).

  The settings are a map from name to value; the file system is a map from path to
  the lines `readlines()` returns; Python's `int()` and `float()` are parameters.
 */
module RunFileArgs {
  import opened Common
  import opened Replace
  import opened RunFileLine

  /** The types a setting has: `str`, `int`, `float`, `bool` and `list` (the positional `input`). */
  datatype Value =
    | Str(s: string)
    | Int(i: int)
    | Float(f: real)
    | Bool(b: bool)
    | List(items: seq<string>)

  /** Python's `int()` and `float()` on a string: None where they raise `ValueError`. */
  datatype Parsers = Parsers(parseInt: string -> Option<int>, parseFloat: string -> Option<real>)

  /** The unescaping dictionary `d`, in its insertion order. */
  const UnescapeTable: Table := [("\\!", "!"), ("\\#", "#"), ("\\\\", "\\"), ("\\'", "'"), ("\\\"", "\"")]

  // ---------------------------------------------------------------------------
  // Unescaping
  // ---------------------------------------------------------------------------

  /** The keys of the unescaping table, in order. */
  lemma UnescapeKeysListed()
    ensures Keys(UnescapeTable) == ["\\!", "\\#", "\\\\", "\\'", "\\\""]
  {
    var t := UnescapeTable;
    assert Keys(t[4..]) == ["\\\""] by {
      assert t[4..][1..] == [];
    }
    assert Keys(t[3..]) == ["\\'", "\\\""] by {
      assert t[3..][1..] == t[4..];
    }
    assert Keys(t[2..]) == ["\\\\", "\\'", "\\\""] by {
      assert t[2..][1..] == t[3..];
    }
    assert Keys(t[1..]) == ["\\#", "\\\\", "\\'", "\\\""] by {
      assert t[1..][1..] == t[2..];
    }
  }

  /** The keys of the unescaping table are two-character escapes. */
  lemma UnescapeKeys()
    ensures forall k :: k in Keys(UnescapeTable) ==> |k| == 2 && k[0] == '\\'
  {
    UnescapeKeysListed();
  }

  /** Each escape is two characters and stands for one. */
  lemma UnescapeShortening()
    ensures Shortening(UnescapeTable)
  {
    forall i | 0 <= i < |UnescapeTable|
      ensures UnescapeTable[i].0 != [] && |UnescapeTable[i].1| <= |UnescapeTable[i].0|
    {
      assert |UnescapeTable[i].0| == 2 && |UnescapeTable[i].1| == 1;
    }
  }

  /** Each escape is replaced by the character it escapes. */
  lemma UnescapeLookup(c: char)
    requires IsEscapable(c)
    ensures Lookup(UnescapeTable, ['\\', c]) == Some([c])
  {
    var t := UnescapeTable;
    var k := ['\\', c];
    assert t[0].0 == k <==> c == '!';
    assert t[1..][0].0 == k <==> c == '#';
    assert t[2..][0].0 == k <==> c == '\\';
    assert t[3..][0].0 == k <==> c == '\'';
    assert t[1..][1..] == t[2..] && t[2..][1..] == t[3..] && t[3..][1..] == t[4..];
  }

  /** A table whose keys are backslash escapes, mapping each escapable character's escape to the character. */
  predicate DecodesEscapes(t: Table) {
    && t != []
    && (forall k :: k in Keys(t) ==> |k| == 2 && k[0] == '\\')
    && (forall c :: IsEscapable(c) ==> Lookup(t, ['\\', c]) == Some([c]))
  }

  lemma {:induction false} UnescapeEscapeWith(s: string, t: Table)
    requires DecodesEscapes(t)
    ensures ReplaceMultiple(Escape(s), t) == Ok(s)
    decreases |s|
  {
    if s == [] {
      assert "" !in Keys(t);
      ReplaceAtEnd(t);
    } else {
      var e, rest := Escape(s), Escape(s[1..]);
      UnescapeEscapeWith(s[1..], t);
      if IsEscapable(s[0]) {
        var k := ['\\', s[0]];
        assert e == k + rest && e[|k|..] == rest;
        assert Lookup(t, k) == Some([s[0]]);
        ReplaceAtLongestKey(e, t, k);
      } else {
        assert e == [s[0]] + rest && e[1..] == rest;
        forall k | k in Keys(t)
          ensures !(k <= e)
        {
          assert k[0] != e[0];
        }
        ReplaceWithoutKey(e, t);
      }
      assert s == [s[0]] + s[1..];
    }
  }

  /** Unescaping inverts escaping: the five escapes decode to exactly the characters they stand for. */
  lemma UnescapeEscape(s: string)
    ensures ReplaceMultiple(Escape(s), UnescapeTable) == Ok(s)
  {
    UnescapeKeys();
    forall c | IsEscapable(c)
      ensures Lookup(UnescapeTable, ['\\', c]) == Some([c])
    {
      UnescapeLookup(c);
    }
    UnescapeEscapeWith(s, UnescapeTable);
  }

  /** One step of unescaping: an escape of `c`, or a `c` that is not a backslash, decodes to `c`. */
  lemma UnescapeStep(s: string, rest: string, c: char, t: Table)
    requires DecodesEscapes(t)
    requires (IsEscapable(c) && s == ['\\', c] + rest) || (c != '\\' && s == [c] + rest)
    ensures ReplaceMultiple(s, t) == Prepend([c], ReplaceMultiple(rest, t))
  {
    if IsEscapable(c) && s == ['\\', c] + rest {
      var k := ['\\', c];
      SliceAfter(s, 0, k, rest);
      assert Lookup(t, k) == Some([c]);
      ReplaceAtLongestKey(s, t, k);
    } else {
      SliceAfter(s, 0, [c], rest);
      forall k | k in Keys(t)
        ensures !(k <= s)
      {
        assert k[0] != s[0];
      }
      ReplaceWithoutKey(s, t);
    }
  }

  lemma ConsAppend(y: string, z: string)
    requires y != []
    ensures [y[0]] + (y[1..] + z) == y + z
  {
    assert y == [y[0]] + y[1..];
  }

  /** A closing quote alone unescapes to itself. */
  lemma UnescapeClosingQuote(q: char, t: Table)
    requires DecodesEscapes(t) && IsQuote(q)
    ensures ReplaceMultiple([q], t) == Ok([q])
  {
    assert [q] == [q] + [];
    UnescapeStep([q], [], q, t);
    assert "" !in Keys(t);
    ReplaceAtEnd(t);
  }

  /** The first character of a quoted body unescapes to itself, in front of the rest. */
  lemma UnescapeQuotedFirst(q: char, y: string, t: Table)
    requires DecodesEscapes(t) && IsQuote(q) && y != []
    ensures ReplaceMultiple(QuotedEscape(q, y) + [q], t) == Prepend([y[0]], ReplaceMultiple(QuotedEscape(q, y[1..]) + [q], t))
  {
    var c := y[0];
    var h := if c == q || c == '\\' then ['\\', c] else [c];
    assert QuotedEscape(q, y) == h + QuotedEscape(q, y[1..]);
    Assoc3(h, QuotedEscape(q, y[1..]), [q]);
    UnescapeStep(QuotedEscape(q, y) + [q], QuotedEscape(q, y[1..]) + [q], c, t);
  }

  /** Unescaping the body of a run quoted by `q`, with its closing quote, gives back the body's text. */
  lemma {:induction false} UnescapeQuotedWith(q: char, y: string, t: Table)
    requires DecodesEscapes(t) && IsQuote(q)
    ensures ReplaceMultiple(QuotedEscape(q, y) + [q], t) == Ok(y + [q])
    decreases |y|
  {
    if y == [] {
      UnescapeClosingQuote(q, t);
      assert QuotedEscape(q, y) == [];
      assert QuotedEscape(q, y) + [q] == [q];
    } else {
      UnescapeQuotedFirst(q, y, t);
      UnescapeQuotedWith(q, y[1..], t);
      ConsAppend(y, [q]);
    }
  }

  /** Unescaping a whole quoted run gives the run with its body's text between the quotes. */
  lemma UnescapeQuoted(q: char, y: string)
    requires IsQuote(q)
    ensures ReplaceMultiple([q] + QuotedEscape(q, y) + [q], UnescapeTable) == Ok([q] + y + [q])
  {
    UnescapeKeys();
    forall c | IsEscapable(c)
      ensures Lookup(UnescapeTable, ['\\', c]) == Some([c])
    {
      UnescapeLookup(c);
    }
    UnescapeQuotedWith(q, y, UnescapeTable);
    var s := [q] + QuotedEscape(q, y) + [q];
    Assoc3([q], QuotedEscape(q, y), [q]);
    SliceAfter(s, 0, [q], QuotedEscape(q, y) + [q]);
    forall k | k in Keys(UnescapeTable)
      ensures !(k <= s)
    {
      assert k[0] != s[0];
    }
    ReplaceWithoutKey(s, UnescapeTable);
    Assoc3([q], y, [q]);
  }

  // ---------------------------------------------------------------------------
  // From the raw value to the field's string
  // ---------------------------------------------------------------------------

  function StripStart(s: string): (r: string)
    ensures |r| <= |s| && (r == [] || !IsSpace(r[0]))
  {
    if s != [] && IsSpace(s[0]) then StripStart(s[1..]) else s
  }

  function StripEnd(s: string): (r: string)
    ensures |r| <= |s| && (r == [] || !IsSpace(r[|r| - 1]))
    ensures r != [] ==> r[0] == s[0]
  {
    if s != [] && IsSpace(s[|s| - 1]) then StripEnd(s[..|s| - 1]) else s
  }

  /** `str.strip()`: the whitespace at both ends removed. */
  function Strip(s: string): (r: string)
    ensures |r| <= |s|
    ensures r == [] || (!IsSpace(r[0]) && !IsSpace(r[|r| - 1]))
  {
    StripEnd(StripStart(s))
  }

  /** The two quote tests of the source: the value begins and ends with the same quote character. */
  predicate Quoted(s: string) {
    |s| >= 1 && IsQuote(s[0]) && s[|s| - 1] == s[0]
  }

  /** `s[1:-1]` when quoted: one outer pair removed (and a lone quote becomes empty). */
  function StripQuotes(s: string): (r: string)
    ensures !Quoted(s) ==> r == s
    ensures Quoted(s) && |s| >= 2 ==> s == [s[0]] + r + [s[0]]
    ensures Quoted(s) && |s| == 1 ==> r == []
  {
    if !Quoted(s) then s else if |s| == 1 then [] else s[1..|s| - 1]
  }

  /** The string a matched raw value stands for: stripped, unescaped, then unquoted. */
  function FieldValue(raw: string): (v: string)
    ensures |v| <= |raw|
  {
    UnescapeShortening();
    ReplaceShortens(Strip(raw), UnescapeTable);
    StripQuotes(ReplaceMultiple(Strip(raw), UnescapeTable).value)
  }

  /** `strip` removes whitespace only, and only from the ends. */
  lemma {:induction false} StripShape(s: string)
    ensures var r := Strip(s);
            exists i, j :: 0 <= i <= j <= |s| && r == s[i..j] &&
                 (forall m :: 0 <= m < i ==> IsSpace(s[m])) && (forall m :: j <= m < |s| ==> IsSpace(s[m]))
  {
    var i := StripStartIndex(s);
    var t := s[i..];
    var j := StripEndIndex(t);
    assert Strip(s) == t[..j] == s[i..i + j];
    forall m | i + j <= m < |s|
      ensures IsSpace(s[m])
    {
      assert s[m] == t[m - i];
    }
  }

  /** `StripStart(s)` is `s[i..]` with `s[..i]` all whitespace. */
  lemma {:induction false} StripStartIndex(s: string) returns (i: nat)
    ensures i <= |s| && StripStart(s) == s[i..]
    ensures forall m :: 0 <= m < i ==> IsSpace(s[m])
    ensures i == |s| || !IsSpace(s[i])
    decreases |s|
  {
    if s != [] && IsSpace(s[0]) {
      var i' := StripStartIndex(s[1..]);
      i := i' + 1;
      assert s[1..][i'..] == s[i..];
      forall m | 0 <= m < i
        ensures IsSpace(s[m])
      {
        if m > 0 {
          assert s[m] == s[1..][m - 1];
        }
      }
    } else {
      i := 0;
    }
  }

  /** `StripEnd(s)` is `s[..j]` with `s[j..]` all whitespace. */
  lemma {:induction false} StripEndIndex(s: string) returns (j: nat)
    ensures j <= |s| && StripEnd(s) == s[..j]
    ensures forall m :: j <= m < |s| ==> IsSpace(s[m])
    ensures j == 0 || !IsSpace(s[j - 1])
    decreases |s|
  {
    if s != [] && IsSpace(s[|s| - 1]) {
      var p := s[..|s| - 1];
      j := StripEndIndex(p);
      assert p[..j] == s[..j];
      forall m | j <= m < |s|
        ensures IsSpace(s[m])
      {
        if m < |s| - 1 {
          assert s[m] == p[m];
        }
      }
    } else {
      j := |s|;
    }
  }

  /** A string without whitespace at its ends is left as it is. */
  lemma StripKeeps(s: string)
    requires s == [] || (!IsSpace(s[0]) && !IsSpace(s[|s| - 1]))
    ensures Strip(s) == s
  {
  }

  /** Whitespace after a string without whitespace at its ends is stripped, and nothing else. */
  lemma StripTrailing(x: string, W: string)
    requires x != [] && !IsSpace(x[0]) && !IsSpace(x[|x| - 1])
    requires forall m :: 0 <= m < |W| ==> IsSpace(W[m])
    ensures Strip(x + W) == x
  {
    assert StripStart(x + W) == x + W;
    StripEndSpaces(x, W);
  }

  lemma {:induction false} StripEndSpaces(x: string, W: string)
    requires x != [] && !IsSpace(x[|x| - 1])
    requires forall m :: 0 <= m < |W| ==> IsSpace(W[m])
    ensures StripEnd(x + W) == x
    decreases |W|
  {
    if W == [] {
      assert x + W == x;
    } else {
      var W' := W[..|W| - 1];
      assert (x + W)[..|x + W| - 1] == x + W';
      StripEndSpaces(x, W');
    }
  }

  /** Exactly one outer pair of matching quotes is removed, whatever is inside. */
  lemma StripOnePair(q: char, x: string)
    requires IsQuote(q)
    ensures StripQuotes([q] + x + [q]) == x
  {
    var s := [q] + x + [q];
    assert s[1..|s| - 1] == x;
  }

  /**
    A value without whitespace at its ends, written with the escape sequences, reads back
    as that value, stripped of one outer pair of quotes if it has one: quotes are removed
    after unescaping, so even escaped outer quotes go.
   */
  lemma FieldValueOfEscaped(v: string)
    requires v == [] || (!IsSpace(v[0]) && !IsSpace(v[|v| - 1]))
    ensures FieldValue(Escape(v)) == StripQuotes(v)
  {
    EscapedStripKeeps(v);
    UnescapeEscape(v);
    FieldValueVia(Escape(v), Escape(v), v);
  }

  /** Escaped outer quotes are removed too: the unescaping comes before the quote test. */
  lemma EscapedQuotesStillStripped(q: char, x: string)
    requires IsQuote(q)
    ensures FieldValue(Escape([q] + x + [q])) == x
  {
    FieldValueOfEscaped([q] + x + [q]);
    StripOnePair(q, x);
  }

  /**
    A line `k = v`, with `v` written with the escapes, trailing whitespace `W`, and then
    then what ends a value: it assigns the key `k` the value `v`, stripped of
    one outer pair of quotes if it has one.
   */
  lemma EscapedLineReadsBack(L: string, k: string, v: string, W: string, T: string)
    requires EscapedAssignment(L, k, v, W, T) && !IsSpace(v[|v| - 1])
    ensures MatchLine(L).Some? && MatchLine(L).value.key == k
    ensures FieldValue(MatchLine(L).value.raw) == StripQuotes(v)
  {
    EscapedLine(L, k, v, W, T);
    EscapedRawReadsBack(v, W);
  }

  /** The raw value of such a line: the escaped form of `v` and the whitespace after it. */
  lemma EscapedRawReadsBack(v: string, W: string)
    requires v != [] && !IsSpace(v[0]) && !IsSpace(v[|v| - 1])
    requires forall m :: 0 <= m < |W| ==> IsSpace(W[m])
    ensures FieldValue(Escape(v) + W) == StripQuotes(v)
  {
    EscapedStrips(v, W);
    StrippedReadsBack(Escape(v) + W, v);
  }

  /** The escaped form of such a value, and whitespace after it, strips to the escaped form. */
  lemma EscapedStrips(v: string, W: string)
    requires v != [] && !IsSpace(v[0]) && !IsSpace(v[|v| - 1])
    requires forall m :: 0 <= m < |W| ==> IsSpace(W[m])
    ensures Strip(Escape(v) + W) == Escape(v)
  {
    EscapeNoEndSpace(v);
    StripTrailing(Escape(v), W);
  }

  /** A raw value that strips to the escaped form of `v`. */
  lemma StrippedReadsBack(raw: string, v: string)
    requires Strip(raw) == Escape(v)
    ensures FieldValue(raw) == StripQuotes(v)
  {
    UnescapeEscape(v);
    FieldValueVia(raw, Escape(v), v);
  }

  /** A value without whitespace at its ends still has none once escaped. */
  lemma EscapedStripKeeps(v: string)
    requires v == [] || (!IsSpace(v[0]) && !IsSpace(v[|v| - 1]))
    ensures Strip(Escape(v)) == Escape(v)
  {
    if v != [] {
      EscapeNoEndSpace(v);
    }
    StripKeeps(Escape(v));
  }

  lemma EscapeNoEndSpace(v: string)
    requires v != [] && !IsSpace(v[0]) && !IsSpace(v[|v| - 1])
    ensures var e := Escape(v); e != [] && !IsSpace(e[0]) && !IsSpace(e[|e| - 1])
  {
    EscapeEnds(v);
  }

  /**
    A line `k = "y"`, with the quotes and backslashes of `y` escaped, trailing whitespace `W`,
    and then what ends a value: it assigns the key `k` exactly `y`.
   */
  lemma QuotedLineReadsBack(L: string, k: string, q: char, y: string, W: string, T: string)
    requires QuotedAssignment(L, k, q, y, W, T)
    ensures MatchLine(L).Some? && MatchLine(L).value.key == k
    ensures FieldValue(MatchLine(L).value.raw) == y
  {
    QuotedLine(L, k, q, y, W, T);
    QuotedRawReadsBack(q, y, W);
  }

  /** The raw value of such a line: the quoted run and the whitespace after it. */
  lemma QuotedRawReadsBack(q: char, y: string, W: string)
    requires IsQuote(q)
    requires forall m :: 0 <= m < |W| ==> IsSpace(W[m])
    ensures FieldValue([q] + QuotedEscape(q, y) + [q] + W) == y
  {
    var x := [q] + QuotedEscape(q, y) + [q];
    QuotedStrips(q, y, W);
    UnescapeQuoted(q, y);
    FieldValueVia(x + W, x, [q] + y + [q]);
    StripOnePair(q, y);
  }

  /** A quoted run, and whitespace after it, strips to the quoted run. */
  lemma QuotedStrips(q: char, y: string, W: string)
    requires IsQuote(q)
    requires forall m :: 0 <= m < |W| ==> IsSpace(W[m])
    ensures Strip([q] + QuotedEscape(q, y) + [q] + W) == [q] + QuotedEscape(q, y) + [q]
  {
    var x := [q] + QuotedEscape(q, y) + [q];
    assert x[0] == q && x[|x| - 1] == q;
    StripTrailing(x, W);
  }

  /** `k = "a # b"` and the line's newline: the field gets `a # b`; the strings come in through parameters. */
  lemma QuotedHashField(L: string, k: string, q: char, y: string, W: string)
    requires k == "k" && q == '"' && y == "a # b" && W == "\n" && L == k + " = " + [q] + y + [q] + W
    ensures MatchLine(L).Some? && FieldValue(MatchLine(L).value.raw) == y
  {
    QuotedHashKept(L, k, q, y, W);
    PlainQuotedReadsBack(q, y, W);
  }

  /** A quoted run whose body holds neither its quote nor a backslash reads back as the body. */
  lemma PlainQuotedReadsBack(q: char, y: string, W: string)
    requires IsQuote(q) && q !in y && '\\' !in y
    requires forall m :: 0 <= m < |W| ==> IsSpace(W[m])
    ensures FieldValue([q] + y + [q] + W) == y
  {
    QuotedEscapePlain(q, y);
    QuotedRawReadsBack(q, y, W);
  }

  /** `FieldValue` in its three steps, for a raw value that strips and unescapes to known strings. */
  lemma FieldValueVia(raw: string, e: string, v: string)
    requires Strip(raw) == e && ReplaceMultiple(e, UnescapeTable) == Ok(v)
    ensures FieldValue(raw) == StripQuotes(v)
  {
  }

  // ---------------------------------------------------------------------------
  // Coercion and applying lines
  // ---------------------------------------------------------------------------

  predicate SameType(a: Value, b: Value) {
    match a
    case Str(_) => b.Str?
    case Int(_) => b.Int?
    case Float(_) => b.Float?
    case Bool(_) => b.Bool?
    case List(_) => b.List?
  }

  /**
    `t(s)` for `t` the type of the field's current value (`str` for a new field),
    except that a `bool` field becomes true exactly for `true`, `yes` and `1`.
   */
  function Coerce(current: Option<Value>, s: string, parsers: Parsers): (r: Result<Value>)
    ensures current.None? ==> r == Ok(Str(s))
    ensures r.Ok? && current.Some? ==> SameType(current.value, r.value)
    ensures current.Some? && current.value.Bool? ==> r == Ok(Bool(s == "true" || s == "yes" || s == "1"))
    ensures current.Some? && current.value.Str? ==> r == Ok(Str(s))
    ensures current.Some? && current.value.Int? ==> (r.Ok? <==> parsers.parseInt(s).Some?)
    ensures current.Some? && current.value.Int? && r.Ok? ==> r.value == Int(parsers.parseInt(s).value)
    ensures current.Some? && current.value.Float? ==> (r.Ok? <==> parsers.parseFloat(s).Some?)
    ensures current.Some? && current.value.Float? && r.Ok? ==> r.value == Float(parsers.parseFloat(s).value)
    ensures r.Err? ==> r.error.ValueError?
    ensures current.Some? && current.value.List? ==>
              r.Ok? && |r.value.items| == |s| && forall i :: 0 <= i < |s| ==> r.value.items[i] == [s[i]]
  {
    match current
    case None => Ok(Str(s))
    case Some(v) =>
      match v
      case Str(_) => Ok(Str(s))
      case Bool(_) => Ok(Bool(s in ["true", "yes", "1"]))
      case Int(_) =>
        (match parsers.parseInt(s)
         case None => Err(ValueError("invalid literal for int()"))
         case Some(n) => Ok(Int(n)))
      case Float(_) =>
        (match parsers.parseFloat(s)
         case None => Err(ValueError("could not convert string to float"))
         case Some(f) => Ok(Float(f)))
      case List(_) => Ok(List(seq(|s|, i requires 0 <= i < |s| => [s[i]])))
  }

  /** The effect of one line of the run file on the settings. */
  function ApplyLine(fields: map<string, Value>, line: string, parsers: Parsers): (r: Result<map<string, Value>>)
    ensures MatchLine(line).None? ==> r == Ok(fields)
    ensures r.Err? ==> r.error.ValueError?
    ensures r.Ok? ==> fields.Keys <= r.value.Keys
  {
    match MatchLine(line)
    case None => Ok(fields)
    case Some(a) =>
      var current := if a.key in fields then Some(fields[a.key]) else None;
      match Coerce(current, FieldValue(a.raw), parsers)
      case Err(e) => Err(e)
      case Ok(v) => Ok(fields[a.key := v])
  }

  /**
    A matching line that applies sets the field its key names to the coerced value, and
    leaves every other field as it was.
   */
  lemma ApplyLineFrame(fields: map<string, Value>, line: string, parsers: Parsers)
    requires MatchLine(line).Some? && ApplyLine(fields, line, parsers).Ok?
    ensures var a, r := MatchLine(line).value, ApplyLine(fields, line, parsers).value;
            && r.Keys == fields.Keys + {a.key}
            && r[a.key] == Coerce(if a.key in fields then Some(fields[a.key]) else None, FieldValue(a.raw), parsers).value
            && forall k :: k in fields && k != a.key ==> r[k] == fields[k]
  {
    var a := MatchLine(line).value;
    var current := if a.key in fields then Some(fields[a.key]) else None;
    var c := Coerce(current, FieldValue(a.raw), parsers);
    assert ApplyLine(fields, line, parsers) == Ok(fields[a.key := c.value]);
    UpdateFrame(fields, a.key, c.value);
  }

  lemma UpdateFrame(fields: map<string, Value>, key: string, v: Value)
    ensures fields[key := v].Keys == fields.Keys + {key} && fields[key := v][key] == v
    ensures forall k :: k in fields && k != key ==> fields[key := v][k] == fields[k]
  {
  }

  /**
    A line `k = v` with the escapes, over a field `k` that is a string or is new: the
    field becomes `v`, stripped of one outer pair of quotes if it has one.
   */
  lemma EscapedLineAssigns(fields: map<string, Value>, parsers: Parsers, L: string, k: string, v: string, W: string, T: string)
    requires EscapedAssignment(L, k, v, W, T) && !IsSpace(v[|v| - 1])
    requires k !in fields || fields[k].Str?
    ensures ApplyLine(fields, L, parsers) == Ok(fields[k := Str(StripQuotes(v))])
  {
    EscapedLineReadsBack(L, k, v, W, T);
  }

  /** A line `k = "y"` over a field `k` that is a string or is new: the field becomes exactly `y`. */
  lemma QuotedLineAssigns(fields: map<string, Value>, parsers: Parsers, L: string, k: string, q: char, y: string, W: string, T: string)
    requires QuotedAssignment(L, k, q, y, W, T)
    requires k !in fields || fields[k].Str?
    ensures ApplyLine(fields, L, parsers) == Ok(fields[k := Str(y)])
  {
    QuotedLineReadsBack(L, k, q, y, W, T);
  }

  /** An existing field keeps its type; a new field is the value as a string; a failure is a coercion's `ValueError`. */
  lemma ApplyLineTypes(fields: map<string, Value>, line: string, parsers: Parsers)
    requires MatchLine(line).Some?
    ensures var a, r := MatchLine(line).value, ApplyLine(fields, line, parsers);
            && (r.Ok? && a.key in fields ==> a.key in r.value && SameType(fields[a.key], r.value[a.key]))
            && (a.key !in fields ==> r == Ok(fields[a.key := Str(FieldValue(a.raw))]))
            && (r.Err? ==> r.error.ValueError?)
  {
    var a := MatchLine(line).value;
    var current := if a.key in fields then Some(fields[a.key]) else None;
    var c := Coerce(current, FieldValue(a.raw), parsers);
    assert ApplyLine(fields, line, parsers) == if c.Err? then Err(c.error) else Ok(fields[a.key := c.value]);
  }

  /** The settings after a run of lines, and the error that stopped it, if any. */
  datatype Overlay = Overlay(fields: map<string, Value>, error: Option<Error>)

  /** The lines applied in order; the first failing coercion stops the run, the lines before it remain applied. */
  function ApplyLines(fields: map<string, Value>, lines: seq<string>, parsers: Parsers): (o: Overlay)
    ensures o.error.Some? ==> o.error.value.ValueError?
    ensures fields.Keys <= o.fields.Keys
    decreases |lines|
  {
    if lines == [] then Overlay(fields, None)
    else
      match ApplyLine(fields, lines[0], parsers)
      case Err(e) => Overlay(fields, Some(e))
      case Ok(f) => ApplyLines(f, lines[1..], parsers)
  }

  /** Applying the lines from index `i` on is applying line `i` and then the rest. */
  lemma ApplyLinesStep(fields: map<string, Value>, lines: seq<string>, i: nat, parsers: Parsers)
    requires i < |lines|
    ensures ApplyLines(fields, lines[i..], parsers) ==
            match ApplyLine(fields, lines[i], parsers)
            case Err(e) => Overlay(fields, Some(e))
            case Ok(f) => ApplyLines(f, lines[i + 1..], parsers)
  {
    assert lines[i..][0] == lines[i] && lines[i..][1..] == lines[i + 1..];
  }

  /** A matching line fails with its coercion's error, or sets its key to the coerced value. */
  lemma ApplyLineUnfold(fields: map<string, Value>, line: string, parsers: Parsers)
    requires MatchLine(line).Some?
    ensures var a := MatchLine(line).value;
            var c := Coerce(if a.key in fields then Some(fields[a.key]) else None, FieldValue(a.raw), parsers);
            ApplyLine(fields, line, parsers) == if c.Err? then Err(c.error) else Ok(fields[a.key := c.value])
  {
  }

  /** The settings object, updated in place by `setattr`. */
  class Namespace {
    var fields: map<string, Value>

    constructor (fields: map<string, Value>)
      ensures this.fields == fields
    {
      this.fields := fields;
    }

    /** `setattr(arguments, key, v)`. */
    method SetAttr(key: string, v: Value)
      modifies this
      ensures fields == old(fields)[key := v]
    {
      fields := fields[key := v];
    }
  }

  /**
    `process_run_file(arguments)`: `files` maps each existing file to its lines. Returns
    the exception raised, if any: the failed assertion on a missing run file, or the
    `ValueError` of a failing coercion, after which the earlier lines stay applied.
   */
  method ProcessRunFile(args: Namespace, files: map<string, seq<string>>, parsers: Parsers) returns (error: Option<Error>)
    requires "run_file" in args.fields && args.fields["run_file"].Str?
    modifies args
    ensures old(args.fields)["run_file"].s == "" ==> error.None? && args.fields == old(args.fields)
    ensures old(args.fields)["run_file"].s != "" && old(args.fields)["run_file"].s !in files ==>
              error == Some(AssertionError("Run file not found.")) && args.fields == old(args.fields)
    ensures old(args.fields)["run_file"].s != "" && old(args.fields)["run_file"].s in files ==>
              Overlay(args.fields, error) == ApplyLines(old(args.fields), files[old(args.fields)["run_file"].s], parsers)
  {
    var path := args.fields["run_file"].s;
    if path == "" {
      return None;
    }
    if path !in files {
      return Some(AssertionError("Run file not found."));
    }
    var lines := files[path];
    ghost var result := ApplyLines(args.fields, lines, parsers);
    var i := 0;
    while i < |lines|
      invariant 0 <= i <= |lines|
      invariant ApplyLines(args.fields, lines[i..], parsers) == result
    {
      ApplyLinesStep(args.fields, lines, i, parsers);
      var m := MatchLine(lines[i]);
      if m.Some? {
        var key := m.value.key;
        var t := if key in args.fields then Some(args.fields[key]) else None;
        var v := Coerce(t, FieldValue(m.value.raw), parsers);
        ApplyLineUnfold(args.fields, lines[i], parsers);
        if v.Err? {
          return Some(v.error);
        }
        args.SetAttr(key, v.value);
      }
      i := i + 1;
    }
    return None;
  }

  /** Lines the pattern does not match (comments, lines without `=`) leave the settings untouched. */
  lemma {:induction false} IgnoredLinesChangeNothing(fields: map<string, Value>, lines: seq<string>, parsers: Parsers)
    requires forall i :: 0 <= i < |lines| ==> MatchLine(lines[i]).None?
    ensures ApplyLines(fields, lines, parsers) == Overlay(fields, None)
    decreases |lines|
  {
    if lines != [] {
      IgnoredLinesChangeNothing(fields, lines[1..], parsers);
    }
  }

  /** The key a line assigns, if it matches. */
  predicate Assigns(line: string, key: string) {
    MatchLine(line).Some? && MatchLine(line).value.key == key
  }

  /** A setting no line assigns keeps its value (and stays absent if it was). */
  lemma {:induction false} UntouchedFieldKept(fields: map<string, Value>, lines: seq<string>, parsers: Parsers, key: string)
    requires forall i :: 0 <= i < |lines| ==> !Assigns(lines[i], key)
    ensures key in ApplyLines(fields, lines, parsers).fields <==> key in fields
    ensures key in fields ==> ApplyLines(fields, lines, parsers).fields[key] == fields[key]
    decreases |lines|
  {
    if lines != [] {
      var r := ApplyLine(fields, lines[0], parsers);
      if r.Ok? {
        if MatchLine(lines[0]).Some? {
          ApplyLineFrame(fields, lines[0], parsers);
        }
        UntouchedFieldKept(r.value, lines[1..], parsers, key);
      }
    }
  }

  /** The value `3`, as it appears in `increment = 3` with its line terminator, reads as `3`. */
  lemma ThreeReadsAsThree(raw: string)
    requires raw == "3\n"
    ensures FieldValue(raw) == "3"
  {
    var v := "3";
    assert raw == v + "\n";
    StripTrailing(v, "\n");
    assert Escape(v) == v by {
      assert v[1..] == [];
    }
    UnescapeEscape(v);
    FieldValueVia(raw, v, v);
  }

  /** The line `increment = 3` sets an int setting `increment` to 3. */
  lemma IncrementApplies(fields: map<string, Value>, line: string, parsers: Parsers)
    requires "increment" in fields && fields["increment"].Int?
    requires line == "increment = 3\n"
    requires parsers.parseInt("3") == Some(3)
    ensures ApplyLine(fields, line, parsers) == Ok(fields["increment" := Int(3)])
  {
    IncrementLine(line);
    ThreeReadsAsThree("3\n");
    var r := Coerce(Some(fields["increment"]), "3", parsers);
    assert r == Ok(Int(3));
  }

  /** Neither a comment line nor a line without `=` matches. */
  lemma CommentAndMalformedIgnored(lines: seq<string>)
    requires lines == ["# comment\n", "bad!line"]
    ensures forall i :: 0 <= i < |lines| ==> MatchLine(lines[i]).None?
  {
    assert SkipSpace(lines[0], 0) == 0;
    CommentNoMatch(lines[0]);
    NoEqualsNoMatch(lines[1]);
  }

  /**
    A run file `increment = 3`, `# comment`, `bad!line` over a setting `increment` that
    is an int: `increment` becomes 3, the comment and the malformed line are ignored.
   */
  lemma RunFileScenario(fields: map<string, Value>, lines: seq<string>, parsers: Parsers)
    requires "increment" in fields && fields["increment"].Int?
    requires lines == ["increment = 3\n", "# comment\n", "bad!line"]
    requires parsers.parseInt("3") == Some(3)
    ensures ApplyLines(fields, lines, parsers) == Overlay(fields["increment" := Int(3)], None)
  {
    var f := fields["increment" := Int(3)];
    IncrementApplies(fields, lines[0], parsers);
    CommentAndMalformedIgnored(lines[1..]);
    IgnoredLinesChangeNothing(f, lines[1..], parsers);
  }
}
