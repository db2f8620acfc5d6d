/**
  The line pattern of `process_run_file` (run_file_args.py, line 20), written as a
  deterministic scanner. A line is matched from its start:

    optional whitespace, a key of characters other than whitespace, `!` and `#`,
    optional whitespace, `=` or `==`, optional whitespace, then the value: a greedy
    series of runs, each followed by optional whitespace. A run is either unquoted, a
    non-empty series of the escapes \" \' \! \# \\ and of characters other than
    \ ! # " ' and whitespace; or quoted, a quote, then \q (q that same quote), \\ and
    characters other than " ' \, then the same quote.

  The key takes part in backtracking: the regular expression gives characters back from
  the key until `=` can follow, so the key is the LONGEST prefix of the key run after
  which optional whitespace and `=` follow. The value never needs backtracking: nothing
  follows it in the pattern, so it is the greedy scan. Whitespace is Python's `\s` on
  `str`, the characters `str.isspace` accepts.
 */
module RunFileLine {
  import opened Common

  predicate IsSpace(c: char) {
    ('\t' <= c <= '\r') || ('\U{1C}' <= c <= ' ') || c == '\U{85}' || c == '\U{A0}' || c == '\U{1680}' ||
    ('\U{2000}' <= c <= '\U{200A}') || c == '\U{2028}' || c == '\U{2029}' || c == '\U{202F}' ||
    c == '\U{205F}' || c == '\U{3000}'
  }

  /** `[^\s!#]`: a character of a key. */
  predicate IsKeyChar(c: char) {
    !IsSpace(c) && c != '!' && c != '#'
  }

  predicate IsQuote(c: char) {
    c == '"' || c == '\''
  }

  /** The characters that have an escape sequence: " ' ! # \ */
  predicate IsEscapable(c: char) {
    IsQuote(c) || c == '!' || c == '#' || c == '\\'
  }

  /** `[^\\!#"'\s]`: a character that stands for itself in an unquoted run. */
  predicate IsPlain(c: char) {
    !IsSpace(c) && !IsEscapable(c)
  }

  /** The documented way to write a literal value: a backslash before each of ! # \ ' " */
  function Escape(s: string): string {
    if s == [] then [] else (if IsEscapable(s[0]) then ['\\', s[0]] else [s[0]]) + Escape(s[1..])
  }

  /** The way to write `y` in a run quoted by `q`: a backslash before each `q` and each backslash. */
  function QuotedEscape(q: char, y: string): string {
    if y == [] then [] else (if y[0] == q || y[0] == '\\' then ['\\', y[0]] else [y[0]]) + QuotedEscape(q, y[1..])
  }

  /** `\s*` from index `i`: the first index at or after `i` that is not whitespace. */
  function SkipSpace(L: string, i: nat): (j: nat)
    requires i <= |L|
    ensures i <= j <= |L|
    ensures forall m :: i <= m < j ==> IsSpace(L[m])
    ensures j == |L| || !IsSpace(L[j])
    decreases |L| - i
  {
    if i < |L| && IsSpace(L[i]) then SkipSpace(L, i + 1) else i
  }

  /** `[^\s!#]*` from index `i`, taken greedily. */
  function KeyRunEnd(L: string, i: nat): (j: nat)
    requires i <= |L|
    ensures i <= j <= |L|
    ensures forall m :: i <= m < j ==> IsKeyChar(L[m])
    ensures j == |L| || !IsKeyChar(L[j])
    decreases |L| - i
  {
    if i < |L| && IsKeyChar(L[i]) then KeyRunEnd(L, i + 1) else i
  }

  /** `\s*=` matches at index `e`. */
  predicate EqualsFollows(L: string, e: nat)
    requires e <= |L|
  {
    SkipSpace(L, e) < |L| && L[SkipSpace(L, e)] == '='
  }

  /** The backtracking of the key: the largest end in `p0..e` after which `\s*=` matches. */
  function KeyEnd(L: string, p0: nat, e: nat): (r: Option<nat>)
    requires p0 <= e <= |L|
    ensures r.Some? ==> p0 <= r.value <= e && EqualsFollows(L, r.value)
    ensures r.Some? ==> forall j :: r.value < j <= e ==> !EqualsFollows(L, j)
    ensures r.None? ==> forall j :: p0 <= j <= e ==> !EqualsFollows(L, j)
    decreases e
  {
    if EqualsFollows(L, e) then Some(e) else if e == p0 then None else KeyEnd(L, p0, e - 1)
  }

  /** The length of the unquoted-run element at `i`: 2 for an escape, 1 for a plain character, 0 for none. */
  function TokenLen(L: string, i: nat): (n: nat)
    requires i <= |L|
    ensures i + n <= |L| && n <= 2
  {
    if i + 1 < |L| && L[i] == '\\' && IsEscapable(L[i + 1]) then 2
    else if i < |L| && IsPlain(L[i]) then 1
    else 0
  }

  /** The end of the (possibly empty) series of unquoted-run elements from `i`. */
  function UnquotedEnd(L: string, i: nat): (j: nat)
    requires i <= |L|
    ensures i <= j <= |L| && TokenLen(L, j) == 0
    ensures forall m :: i <= m < j ==> !IsSpace(L[m])
    decreases |L| - i
  {
    if TokenLen(L, i) == 0 then i else UnquotedEnd(L, i + TokenLen(L, i))
  }

  /** The end of the body of a run quoted by `q`, from `i`: the first index no body element starts at. */
  function QuotedEnd(L: string, i: nat, q: char): (j: nat)
    requires i <= |L|
    ensures i <= j <= |L|
    ensures !(j + 1 < |L| && L[j] == '\\' && (L[j + 1] == q || L[j + 1] == '\\'))
    ensures !(j < |L| && !IsQuote(L[j]) && L[j] != '\\')
    decreases |L| - i
  {
    if i + 1 < |L| && L[i] == '\\' && (L[i + 1] == q || L[i + 1] == '\\') then QuotedEnd(L, i + 2, q)
    else if i < |L| && !IsQuote(L[i]) && L[i] != '\\' then QuotedEnd(L, i + 1, q)
    else i
  }

  /** One run of the value at `i`, with its trailing whitespace: where it ends, or None when no run starts there. */
  function RunEnd(L: string, i: nat): (r: Option<nat>)
    requires i <= |L|
    ensures r.Some? ==> i < r.value <= |L|
    ensures r.Some? ==> (i < |L| && (IsQuote(L[i]) || L[i] == '\\' || IsPlain(L[i])))
    ensures r.Some? ==> r.value == |L| || !IsSpace(L[r.value])
  {
    var u := UnquotedEnd(L, i);
    if u > i then Some(SkipSpace(L, u))
    else if i < |L| && IsQuote(L[i]) then
      var b := QuotedEnd(L, i + 1, L[i]);
      if b < |L| && L[b] == L[i] then Some(SkipSpace(L, b + 1)) else None
    else None
  }

  /** The value: runs taken greedily from `i`, until none starts. */
  function ValueEnd(L: string, i: nat): (j: nat)
    requires i <= |L|
    ensures i <= j <= |L| && RunEnd(L, j).None?
    ensures j > i ==> j == |L| || !IsSpace(L[j])
    decreases |L| - i
  {
    match RunEnd(L, i)
    case None => i
    case Some(j) => ValueEnd(L, j)
  }

  /** What a matching line yields: `m.group(1)` and `m.group(2)`. */
  datatype Assignment = Assignment(key: string, raw: string)

  /**
    Where the key of a line ends: the largest end within the key run after which `\s*=`
    follows, or None when there is none and the line does not match.
   */
  function KeyMatch(L: string): (r: Option<nat>)
    ensures r.Some? <==> exists e :: SkipSpace(L, 0) <= e <= KeyRunEnd(L, SkipSpace(L, 0)) && EqualsFollows(L, e)
    ensures r.Some? ==> SkipSpace(L, 0) <= r.value <= KeyRunEnd(L, SkipSpace(L, 0)) && EqualsFollows(L, r.value)
    ensures r.Some? ==> forall j :: r.value < j <= KeyRunEnd(L, SkipSpace(L, 0)) ==> !EqualsFollows(L, j)
  {
    KeyEnd(L, SkipSpace(L, 0), KeyRunEnd(L, SkipSpace(L, 0)))
  }

  /** Where the value starts, after the key ending at `e`: past `\s*`, `=`, an optional second `=` and `\s*`. */
  function ValueStart(L: string, e: nat): (v: nat)
    requires e <= |L| && EqualsFollows(L, e)
    ensures SkipSpace(L, e) < v <= |L|
    ensures v == |L| || !IsSpace(L[v])
    ensures var eq := SkipSpace(L, e); eq + 1 < |L| && L[eq + 1] == '=' ==> v >= eq + 2
    ensures var eq := SkipSpace(L, e); forall m :: eq < m < v ==> IsSpace(L[m]) || (m == eq + 1 && L[m] == '=')
  {
    var eq := SkipSpace(L, e);
    SkipSpace(L, if eq + 1 < |L| && L[eq + 1] == '=' then eq + 2 else eq + 1)
  }

  /** `re_obj.match(l)`: the key and the raw value of a line, or None when the line does not match. */
  function MatchLine(L: string): (r: Option<Assignment>)
    ensures r.Some? <==> KeyMatch(L).Some?
    ensures r.Some? ==> r.value.key == L[SkipSpace(L, 0)..KeyMatch(L).value]
    ensures r.Some? ==> forall c :: c in r.value.key ==> IsKeyChar(c)
  {
    var p0 := SkipSpace(L, 0);
    match KeyMatch(L)
    case None => None
    case Some(e) =>
      var v0 := ValueStart(L, e);
      Some(Assignment(L[p0..e], L[v0..ValueEnd(L, v0)]))
  }

  // ---------------------------------------------------------------------------
  // Properties
  // ---------------------------------------------------------------------------

  /** A line without `=` does not match. */
  lemma NoEqualsNoMatch(L: string)
    requires '=' !in L
    ensures MatchLine(L).None?
  {
  }

  /** A line whose first non-blank character is `#` or `!` (a comment) does not match. */
  lemma CommentNoMatch(L: string)
    requires SkipSpace(L, 0) < |L| && (L[SkipSpace(L, 0)] == '#' || L[SkipSpace(L, 0)] == '!')
    ensures MatchLine(L).None?
  {
    var p0 := SkipSpace(L, 0);
    assert KeyRunEnd(L, p0) == p0;
    assert SkipSpace(L, p0) == p0;
  }

  /** `a==b`: the key gives back its last two characters, so the key is `a=` and the value `b`. */
  lemma DoubleEqualsInKey(L: string)
    requires L == "a==b"
    ensures MatchLine(L) == Some(Assignment("a=", "b"))
  {
    assert SkipSpace(L, 0) == 0;
    assert KeyMatch(L) == Some(2) by {
      assert KeyRunEnd(L, 3) == 4 && KeyRunEnd(L, 0) == 4;
      assert !EqualsFollows(L, 4) && !EqualsFollows(L, 3) && EqualsFollows(L, 2);
    }
    assert ValueStart(L, 2) == 3 by {
      assert SkipSpace(L, 2) == 2 && L[3] != '=' && SkipSpace(L, 3) == 3;
    }
    assert ValueEnd(L, 3) == 4 by {
      assert TokenLen(L, 3) == 1 && UnquotedEnd(L, 4) == 4 && UnquotedEnd(L, 3) == 4;
      assert RunEnd(L, 3) == Some(4) && RunEnd(L, 4).None?;
    }
    assert L[0..2] == "a=" && L[3..4] == "b";
  }

  /** `a == b`: the key is `a`, the separator `==`, the value `b`. */
  lemma SpacedDoubleEquals(L: string)
    requires L == "a == b"
    ensures MatchLine(L) == Some(Assignment("a", "b"))
  {
    assert SkipSpace(L, 0) == 0;
    assert KeyMatch(L) == Some(1) by {
      assert KeyRunEnd(L, 1) == 1 && KeyRunEnd(L, 0) == 1;
      assert SkipSpace(L, 2) == 2 && SkipSpace(L, 1) == 2;
    }
    assert ValueStart(L, 1) == 5 by {
      assert SkipSpace(L, 1) == 2 && L[3] == '=';
      assert SkipSpace(L, 5) == 5 && SkipSpace(L, 4) == 5;
    }
    assert ValueEnd(L, 5) == 6 by {
      assert TokenLen(L, 5) == 1 && UnquotedEnd(L, 6) == 6 && UnquotedEnd(L, 5) == 6;
      assert RunEnd(L, 5) == Some(6) && RunEnd(L, 6).None?;
    }
    assert L[0..1] == "a" && L[5..6] == "b";
  }

  /** The key of `increment = 3`: the whole key run, since `=` follows it after a blank. */
  lemma IncrementKey(L: string)
    requires L == "increment = 3\n"
    ensures SkipSpace(L, 0) == 0 && KeyMatch(L) == Some(9)
  {
    assert SkipSpace(L, 0) == 0;
    assert KeyRunEnd(L, 9) == 9;
    assert KeyRunEnd(L, 0) == 9;
    assert SkipSpace(L, 10) == 10 && SkipSpace(L, 9) == 10;
  }

  /** The value of `increment = 3`: the run `3` and the trailing newline. */
  lemma IncrementValue(L: string)
    requires L == "increment = 3\n"
    ensures EqualsFollows(L, 9) && ValueStart(L, 9) == 12 && ValueEnd(L, 12) == 14
  {
    assert SkipSpace(L, 10) == 10 && SkipSpace(L, 9) == 10 && L[11] != '=';
    assert SkipSpace(L, 12) == 12 && SkipSpace(L, 11) == 12;
    assert SkipSpace(L, 14) == 14 && SkipSpace(L, 13) == 14;
    assert TokenLen(L, 12) == 1 && UnquotedEnd(L, 13) == 13 && UnquotedEnd(L, 12) == 13;
    assert RunEnd(L, 12) == Some(14) && RunEnd(L, 14).None?;
  }

  /** `increment = 3` with its line terminator: the raw value keeps the trailing newline. */
  lemma IncrementLine(L: string)
    requires L == "increment = 3\n"
    ensures MatchLine(L) == Some(Assignment("increment", "3\n"))
  {
    IncrementKey(L);
    IncrementValue(L);
    assert L[0..9] == "increment" && L[12..14] == "3\n";
  }

  // ---------------------------------------------------------------------------
  // Lines whose value is written with the escapes
  // ---------------------------------------------------------------------------

  /**
    A run quoted by `q` over `z` (the rest of the line) that is never closed: its body
    meets the other quote or the end of the line before any `q` or backslash.
   */
  predicate NeverClosed(q: char, z: string)
    decreases |z|
  {
    z == [] || (z[0] != q && z[0] != '\\' && (IsQuote(z[0]) || NeverClosed(q, z[1..])))
  }

  /**
    What ends a value when it follows a run: the end of the line, an unescaped `!` or `#`,
    a backslash that starts none of the five escapes, or a quote that is never closed.
   */
  predicate EndsValue(T: string) {
    || T == [] || T[0] == '!' || T[0] == '#'
    || (T[0] == '\\' && (|T| == 1 || !IsEscapable(T[1])))
    || (IsQuote(T[0]) && NeverClosed(T[0], T[1..]))
  }

  /**
    What ends the unquoted part of a run after a word and whitespace: the end of the line, or
    one of ! # \ ' " that does not start an escape.
   */
  predicate EndsWord(T: string) {
    T == [] || (IsEscapable(T[0]) && !(T[0] == '\\' && |T| > 1 && IsEscapable(T[1])))
  }

  /** The body of a run quoted by `q` over a rest of the line that never closes it stops short of a closing `q`. */
  lemma {:induction false} NeverClosedStops(L: string, j: nat, q: char)
    requires j <= |L| && NeverClosed(q, L[j..])
    ensures var b := QuotedEnd(L, j, q); !(b < |L| && L[b] == q)
    decreases |L| - j
  {
    if j < |L| {
      assert L[j] == L[j..][0];
      if !IsQuote(L[j]) {
        assert L[j..][1..] == L[j + 1..];
        NeverClosedStops(L, j + 1, q);
      }
    }
  }

  lemma EndsValueNotSpace(T: string)
    requires EndsValue(T)
    ensures T == [] || !IsSpace(T[0])
  {
  }

  /** No run starts where what ends a value begins. */
  lemma EndsValueStops(L: string, p: nat, T: string)
    requires p <= |L| && L[p..] == T && EndsValue(T)
    ensures RunEnd(L, p).None? && ValueEnd(L, p) == p
  {
    if T != [] {
      assert L[p] == T[0];
      if |T| > 1 {
        assert L[p + 1] == T[1];
      }
      if IsQuote(T[0]) {
        assert L[p + 1..] == T[1..];
        NeverClosedStops(L, p + 1, T[0]);
      }
    }
    assert TokenLen(L, p) == 0;
  }

  /** The escaped form of a non-empty value starts with a backslash or the value's first character, and ends with its last. */
  lemma {:induction false} EscapeEnds(v: string)
    requires v != []
    ensures Escape(v) != [] && (Escape(v)[0] == '\\' || Escape(v)[0] == v[0])
    ensures Escape(v)[|Escape(v)| - 1] == v[|v| - 1]
    decreases |v|
  {
    if v[1..] != [] {
      EscapeEnds(v[1..]);
    }
  }

  /** Escaping works character by character. */
  lemma {:induction false} EscapeAppend(a: string, b: string)
    ensures Escape(a + b) == Escape(a) + Escape(b)
    decreases |a|
  {
    if a != [] {
      var h := if IsEscapable(a[0]) then ['\\', a[0]] else [a[0]];
      assert (a + b)[0] == a[0] && (a + b)[1..] == a[1..] + b;
      EscapeAppend(a[1..], b);
      calc {
        Escape(a + b);
        h + Escape(a[1..] + b);
        h + (Escape(a[1..]) + Escape(b));
        (h + Escape(a[1..])) + Escape(b);
      }
    } else {
      assert a + b == b;
    }
  }

  /** Whitespace and characters that stand for themselves are written as they are. */
  lemma {:induction false} EscapeUnescapable(s: string)
    requires forall m :: 0 <= m < |s| ==> !IsEscapable(s[m])
    ensures Escape(s) == s
    decreases |s|
  {
    if s != [] {
      EscapeUnescapable(s[1..]);
    }
  }

  /** The end of the run of non-whitespace characters of `v` from `i`. */
  function WordEnd(v: string, i: nat): (j: nat)
    requires i <= |v|
    ensures i <= j <= |v|
    ensures forall m :: i <= m < j ==> !IsSpace(v[m])
    ensures j == |v| || IsSpace(v[j])
    decreases |v| - i
  {
    if i < |v| && !IsSpace(v[i]) then WordEnd(v, i + 1) else i
  }

  /** `\s*` over a stretch of whitespace stops where it ends. */
  lemma {:induction false} SkipSpaces(L: string, i: nat, s: string, rest: string)
    requires i <= |L| && L[i..] == s + rest
    requires forall m :: 0 <= m < |s| ==> IsSpace(s[m])
    requires rest == [] || !IsSpace(rest[0])
    ensures SkipSpace(L, i) == i + |s|
    decreases |s|
  {
    if s == [] {
      assert i < |L| ==> L[i] == rest[0];
    } else {
      assert L[i] == s[0];
      assert L[i + 1..] == s[1..] + rest;
      SkipSpaces(L, i + 1, s[1..], rest);
    }
  }

  /** The key run over a stretch of key characters stops where it ends. */
  lemma {:induction false} KeyRunOver(L: string, i: nat, j: nat)
    requires i <= j <= |L|
    requires forall m :: i <= m < j ==> IsKeyChar(L[m])
    requires j == |L| || !IsKeyChar(L[j])
    ensures KeyRunEnd(L, i) == j
    decreases j - i
  {
    if i < j {
      KeyRunOver(L, i + 1, j);
    }
  }

  /**
    An unquoted run over the escaped form of a word without whitespace takes in exactly
    that escaped form, when whitespace or what ends a word (`EndsWord`) follows it.
   */
  lemma {:induction false} UnquotedEndEscaped(L: string, i: nat, u: string, rest: string)
    requires i <= |L| && L[i..] == Escape(u) + rest
    requires forall m :: 0 <= m < |u| ==> !IsSpace(u[m])
    requires rest == [] || IsSpace(rest[0]) || EndsWord(rest)
    ensures UnquotedEnd(L, i) == i + |Escape(u)|
    decreases |u|
  {
    if u == [] {
      assert i < |L| ==> L[i] == rest[0];
      assert TokenLen(L, i) == 0;
    } else {
      var c := u[0];
      var h := if IsEscapable(c) then ['\\', c] else [c];
      var tail := Escape(u[1..]) + rest;
      assert L[i..] == h + tail by {
        Assoc3(h, Escape(u[1..]), rest);
      }
      TokenStep(L, i, c, tail);
      assert UnquotedEnd(L, i) == UnquotedEnd(L, i + |h|);
      UnquotedEndEscaped(L, i + |h|, u[1..], rest);
      assert |Escape(u)| == |h| + |Escape(u[1..])|;
    }
  }

  /** The unquoted-run element at `i` is the escaped form of the character `c`. */
  lemma TokenStep(L: string, i: nat, c: char, tail: string)
    requires !IsSpace(c)
    requires i <= |L| && L[i..] == (if IsEscapable(c) then ['\\', c] else [c]) + tail
    ensures var n := if IsEscapable(c) then 2 else 1;
            TokenLen(L, i) == n && i + n <= |L| && L[i + n..] == tail
  {
    var h := if IsEscapable(c) then ['\\', c] else [c];
    assert L[i] == h[0];
    if IsEscapable(c) {
      assert L[i + 1] == c;
    }
    SliceAfter(L, i, h, tail);
  }

  lemma Assoc3(a: string, b: string, c: string)
    ensures a + b + c == a + (b + c)
  {
  }

  lemma Assoc4(a: string, b: string, c: string, d: string)
    ensures a + b + c + d == a + (b + c + d)
  {
  }

  lemma QuotedShape(L: string, k: string, q: char, e: string, W: string, T: string)
    requires L == k + " = " + [q] + e + [q] + W + T
    ensures L == k + " = " + ([q] + e + [q] + W + T)
  {
  }

  lemma Regroup(q: char, e: string, W: string, T: string)
    ensures [q] + (e + ([q] + (W + T))) == ([q] + e + [q] + W) + T
  {
    Assoc3([q], W, T);
    Assoc3(e, [q], W + T);
    Assoc4([q], e, [q] + W, T);
  }

  /** What follows a prefix `a` of `L[i..]`. */
  lemma SliceAfter(L: string, i: nat, a: string, b: string)
    requires i <= |L| && L[i..] == a + b
    ensures i + |a| <= |L| && L[i + |a|..] == b
  {
    assert L[i + |a|..] == L[i..][|a|..];
  }

  /** What precedes a suffix `b` of `L[i..]`. */
  lemma SliceBefore(L: string, i: nat, a: string, b: string)
    requires i <= |L| && L[i..] == a + b
    ensures i <= |L| - |b| && L[i..|L| - |b|] == a
  {
    assert L[i..|L| - |b|] == L[i..][..|a|];
  }

  /** The escaped form of `v` cut at `w`. */
  lemma EscapeSplit(v: string, w: nat)
    requires w <= |v|
    ensures Escape(v) == Escape(v[..w]) + Escape(v[w..])
  {
    assert v == v[..w] + v[w..];
    EscapeAppend(v[..w], v[w..]);
  }

  /** After a word of `v` comes whitespace, or `W` then `T`: nothing that continues an unquoted run. */
  lemma AfterWord(r: string, W: string, T: string)
    requires r == [] || IsSpace(r[0])
    requires forall m :: 0 <= m < |W| ==> IsSpace(W[m])
    requires EndsWord(T)
    ensures var rest := Escape(r) + W + T;
            rest == [] || IsSpace(rest[0]) || EndsWord(rest)
  {
    var rest := Escape(r) + W + T;
    if r != [] {
      assert rest[0] == Escape(r)[0] == r[0];
    } else if W != [] {
      assert rest[0] == W[0];
    } else {
      assert rest == T;
    }
  }

  /** The unquoted part of the first run: the escaped form of the first word of `v`. */
  lemma WordStep(L: string, i: nat, v: string, W: string, T: string) returns (w: nat, p: nat)
    requires i <= |L| && L[i..] == Escape(v) + W + T
    requires v != [] && !IsSpace(v[0])
    requires forall m :: 0 <= m < |W| ==> IsSpace(W[m])
    requires EndsWord(T)
    ensures 1 <= w <= |v| && (w == |v| || IsSpace(v[w]))
    ensures i < p <= |L| && UnquotedEnd(L, i) == p
    ensures L[p..] == Escape(v[w..]) + W + T
  {
    w := WordEnd(v, 0);
    var u, r := v[..w], v[w..];
    var rest := Escape(r) + W + T;
    EscapeSplit(v, w);
    Assoc4(Escape(u), Escape(r), W, T);
    assert L[i..] == Escape(u) + rest;
    AfterWord(r, W, T);
    UnquotedEndEscaped(L, i, u, rest);
    EscapeEnds(u);
    SliceAfter(L, i, Escape(u), rest);
    p := i + |Escape(u)|;
  }

  /** The trailing whitespace of a run: `\s*` over the spaces of `r`, or over `W` too at the end. */
  lemma SpaceStep(L: string, p: nat, r: string, W: string, T: string) returns (m: nat, q: nat)
    requires p <= |L| && L[p..] == Escape(r) + W + T
    requires forall j :: 0 <= j < |W| ==> IsSpace(W[j])
    requires EndsWord(T)
    ensures m <= |r| && SkipSpace(L, p) == q <= |L|
    ensures m < |r| ==> L[q..] == Escape(r[m..]) + W + T
    ensures m == |r| ==> q == |L| - |T|
    ensures m < |r| ==> !IsSpace(r[m])
  {
    m := SkipSpace(r, 0);
    var s, r' := r[..m], r[m..];
    EscapeSplit(r, m);
    EscapeUnescapable(s);
    if r' != [] {
      SpacesThenRun(L, p, s, r', W, T);
      q := p + |s|;
    } else {
      SpacesThenRest(L, p, s, W, T);
      q := p + |s + W|;
    }
  }

  /** `\s*` over the whitespace `s`, up to the rest `r'` of the value. */
  lemma SpacesThenRun(L: string, p: nat, s: string, r': string, W: string, T: string)
    requires p <= |L| && L[p..] == Escape(s) + Escape(r') + W + T && Escape(s) == s
    requires forall j :: 0 <= j < |s| ==> IsSpace(s[j])
    requires r' != [] && !IsSpace(r'[0])
    ensures SkipSpace(L, p) == p + |s| <= |L|
    ensures L[p + |s|..] == Escape(r') + W + T
  {
    EscapeEnds(r');
    var rest := Escape(r') + W + T;
    Assoc4(s, Escape(r'), W, T);
    SkipSpaces(L, p, s, rest);
    SliceAfter(L, p, s, rest);
  }

  /** `\s*` over the whitespace `s + W`, up to `T`. */
  lemma SpacesThenRest(L: string, p: nat, s: string, W: string, T: string)
    requires p <= |L| && L[p..] == Escape(s) + W + T && Escape(s) == s
    requires forall j :: 0 <= j < |s| ==> IsSpace(s[j])
    requires forall j :: 0 <= j < |W| ==> IsSpace(W[j])
    requires EndsWord(T)
    ensures SkipSpace(L, p) == p + |s + W| == |L| - |T|
    ensures L[p + |s + W|..] == T
  {
    assert L[p..] == (s + W) + T;
    assert forall j :: 0 <= j < |s + W| ==> IsSpace((s + W)[j]);
    SkipSpaces(L, p, s + W, T);
    SliceAfter(L, p, s + W, T);
  }

  /** The first run of the value: its first word and the whitespace after it. */
  lemma FirstRun(L: string, i: nat, v: string, W: string, T: string) returns (n: nat, q: nat)
    requires i <= |L| && L[i..] == Escape(v) + W + T
    requires v != [] && !IsSpace(v[0])
    requires forall m :: 0 <= m < |W| ==> IsSpace(W[m])
    requires EndsWord(T)
    ensures 1 <= n <= |v| && q <= |L| && RunEnd(L, i) == Some(q)
    ensures n < |v| ==> L[q..] == Escape(v[n..]) + W + T
    ensures n == |v| ==> q == |L| - |T|
    ensures n < |v| ==> !IsSpace(v[n])
  {
    var w, p := WordStep(L, i, v, W, T);
    var m;
    m, q := SpaceStep(L, p, v[w..], W, T);
    n := w + m;
    assert v[w..][m..] == v[n..];
  }

  /**
    The value over the escaped form of `v`, followed by whitespace `W` and then what ends a
    value (`EndsValue`): the value is the escaped form and `W`, and stops right there.
   */
  lemma {:induction false} ValueEndEscaped(L: string, i: nat, v: string, W: string, T: string)
    requires i <= |L| && L[i..] == Escape(v) + W + T
    requires v != [] && !IsSpace(v[0])
    requires forall m :: 0 <= m < |W| ==> IsSpace(W[m])
    requires EndsValue(T)
    ensures ValueEnd(L, i) == |L| - |T|
    decreases |v|
  {
    assert EndsWord(T);
    var n, q := FirstRun(L, i, v, W, T);
    if n < |v| {
      ValueEndEscaped(L, q, v[n..], W, T);
    } else {
      SliceAfter(L, i, Escape(v) + W, T);
      EndsValueStops(L, q, T);
    }
  }

  /** The key and separator of `k = x`, with `x` not starting with whitespace. */
  lemma KeyPart(L: string, k: string, x: string)
    requires L == k + " = " + x
    requires k != [] && forall m :: 0 <= m < |k| ==> IsKeyChar(k[m])
    requires x != [] && !IsSpace(x[0])
    ensures KeyMatch(L) == Some(|k|) && SkipSpace(L, 0) == 0
    ensures EqualsFollows(L, |k|) && ValueStart(L, |k|) == |k| + 3
    ensures L[0..|k|] == k && L[|k| + 3..] == x
  {
    var n := |k|;
    assert L[0] == k[0] && L[n] == ' ' && L[n + 1] == '=' && L[n + 2] == ' ' && L[n + 3] == x[0];
    assert SkipSpace(L, 0) == 0;
    KeyRunOver(L, 0, n);
    assert SkipSpace(L, n + 1) == n + 1;
    assert SkipSpace(L, n + 3) == n + 3;
    assert L[0..n] == k && L[n + 3..] == x;
  }

  /**
    `L` is `k = v` with a key `k`, the value `v` written with the escapes and not starting
    with whitespace, then whitespace `W`, then what ends a value (`EndsValue`).
   */
  predicate EscapedAssignment(L: string, k: string, v: string, W: string, T: string) {
    && L == k + " = " + Escape(v) + W + T
    && k != [] && (forall m :: 0 <= m < |k| ==> IsKeyChar(k[m]))
    && v != [] && !IsSpace(v[0])
    && (forall m :: 0 <= m < |W| ==> IsSpace(W[m]))
    && EndsValue(T)
  }

  /**
    A line `k = v`, with `v` written with the escapes and followed by whitespace `W` and
    then what ends a value: the key is `k`, whatever it holds, and the raw value is the
    escaped form of `v` with `W`. An unescaped `!` or `#`, a backslash before a character it
    cannot escape, or a quote that is never closed ends the value.
   */
  lemma EscapedLine(L: string, k: string, v: string, W: string, T: string)
    requires EscapedAssignment(L, k, v, W, T)
    ensures MatchLine(L) == Some(Assignment(k, Escape(v) + W))
  {
    var n := |k|;
    var x := Escape(v) + W + T;
    assert x != [] && !IsSpace(x[0]) by {
      EscapeEnds(v);
    }
    assert L == k + " = " + x by {
      Assoc4(k + " = ", Escape(v), W, T);
    }
    KeyPart(L, k, x);
    ValueEndEscaped(L, n + 3, v, W, T);
    SliceBefore(L, n + 3, Escape(v) + W, T);
    MatchLineParts(L, 0, n, n + 3, |L| - |T|);
  }

  /** `MatchLine` from where the key starts and ends and where the value starts and ends. */
  lemma MatchLineParts(L: string, p0: nat, e: nat, v0: nat, j: nat)
    requires SkipSpace(L, 0) == p0 && KeyMatch(L) == Some(e)
    requires e <= |L| && EqualsFollows(L, e) && ValueStart(L, e) == v0 && ValueEnd(L, v0) == j
    ensures MatchLine(L) == Some(Assignment(L[p0..e], L[v0..j]))
  {
  }

  /** `k = p # c`, for `p` of characters standing for themselves: the value stops at the comment sign. */
  lemma CommentEndsValue(L: string, k: string, p: string, c: string)
    requires L == k + " = " + p + " # " + c
    requires k != [] && forall m :: 0 <= m < |k| ==> IsKeyChar(k[m])
    requires p != [] && forall m :: 0 <= m < |p| ==> IsPlain(p[m])
    ensures MatchLine(L) == Some(Assignment(k, p + " "))
  {
    EscapeUnescapable(p);
    assert L == k + " = " + Escape(p) + " " + ("# " + c);
    EscapedLine(L, k, p, " ", "# " + c);
  }

  // Lines whose value is one quoted run

  /** In a run quoted by `q` over `QuotedEscape(q, y)` for a `y` holding no other quote, the body ends right before a `q`. */
  lemma {:induction false} QuotedEndEscaped(L: string, j: nat, q: char, y: string, rest: string)
    requires IsQuote(q) && j <= |L| && L[j..] == QuotedEscape(q, y) + rest
    requires forall m :: 0 <= m < |y| ==> !IsQuote(y[m]) || y[m] == q
    requires rest != [] && rest[0] == q
    ensures QuotedEnd(L, j, q) == j + |QuotedEscape(q, y)|
    decreases |y|
  {
    if y == [] {
      assert L[j] == q;
    } else {
      var c := y[0];
      var h := if c == q || c == '\\' then ['\\', c] else [c];
      var tail := QuotedEscape(q, y[1..]) + rest;
      assert QuotedEscape(q, y) == h + QuotedEscape(q, y[1..]);
      assert L[j..] == h + tail by {
        Assoc3(h, QuotedEscape(q, y[1..]), rest);
      }
      QuotedStep(L, j, q, c, tail);
      QuotedEndEscaped(L, j + |h|, q, y[1..], rest);
    }
  }

  /** The body element at `j` of a run quoted by `q` is the quoted-run form of the character `c`. */
  lemma QuotedStep(L: string, j: nat, q: char, c: char, tail: string)
    requires IsQuote(q) && (!IsQuote(c) || c == q)
    requires j <= |L| && L[j..] == (if c == q || c == '\\' then ['\\', c] else [c]) + tail
    ensures var n := if c == q || c == '\\' then 2 else 1;
            j + n <= |L| && QuotedEnd(L, j, q) == QuotedEnd(L, j + n, q) && L[j + n..] == tail
  {
    var h := if c == q || c == '\\' then ['\\', c] else [c];
    assert L[j] == h[0];
    if |h| == 2 {
      assert L[j + 1] == c;
    }
    SliceAfter(L, j, h, tail);
  }

  /** A quoted run at `i` whose body ends at `b`, right before the same quote. */
  lemma QuotedRunEnd(L: string, i: nat, b: nat, j: nat)
    requires i < |L| && IsQuote(L[i]) && b < |L| && QuotedEnd(L, i + 1, L[i]) == b && L[b] == L[i]
    requires SkipSpace(L, b + 1) == j
    ensures RunEnd(L, i) == Some(j)
  {
    assert TokenLen(L, i) == 0;
  }

  /** Where the body of a run quoted by `q` over `QuotedEscape(q, y)` ends, and what follows its closing quote. */
  lemma QuotedBody(L: string, i: nat, q: char, y: string, rest: string) returns (b: nat)
    requires IsQuote(q) && i <= |L| && L[i..] == [q] + (QuotedEscape(q, y) + ([q] + rest))
    requires forall m :: 0 <= m < |y| ==> !IsQuote(y[m]) || y[m] == q
    ensures b == i + 1 + |QuotedEscape(q, y)| && b < |L|
    ensures L[i] == q && L[b] == q && QuotedEnd(L, i + 1, q) == b && L[b + 1..] == rest
  {
    var e := QuotedEscape(q, y);
    b := i + 1 + |e|;
    SliceAfter(L, i, [q], e + ([q] + rest));
    SliceAfter(L, i + 1, e, [q] + rest);
    QuotedEndEscaped(L, i + 1, q, y, [q] + rest);
    SliceAfter(L, b, [q], rest);
  }

  /** A quoted run at `i` whose body ends at `b`, then its closing quote and the whitespace up to what ends a value: the whole value. */
  lemma QuotedValue(L: string, i: nat, b: nat, T: string)
    requires i < |L| && IsQuote(L[i]) && b < |L| && QuotedEnd(L, i + 1, L[i]) == b && L[b] == L[i]
    requires |T| <= |L| && SkipSpace(L, b + 1) == |L| - |T| && L[|L| - |T|..] == T && EndsValue(T)
    ensures ValueEnd(L, i) == |L| - |T|
  {
    QuotedRunEnd(L, i, b, |L| - |T|);
    EndsValueStops(L, |L| - |T|, T);
  }

  /** The value over a run quoted by `q` over `QuotedEscape(q, y)`, whitespace `W`, and then what ends a value. */
  lemma QuotedValueEnd(L: string, i: nat, q: char, y: string, W: string, T: string)
    requires IsQuote(q) && i <= |L| && L[i..] == [q] + QuotedEscape(q, y) + [q] + W + T
    requires forall m :: 0 <= m < |y| ==> !IsQuote(y[m]) || y[m] == q
    requires forall m :: 0 <= m < |W| ==> IsSpace(W[m])
    requires EndsValue(T)
    ensures ValueEnd(L, i) == |L| - |T|
  {
    assert L[i..] == [q] + (QuotedEscape(q, y) + ([q] + (W + T))) by {
      Regroup(q, QuotedEscape(q, y), W, T);
    }
    var b := QuotedBody(L, i, q, y, W + T);
    assert SkipSpace(L, b + 1) == |L| - |T| && L[|L| - |T|..] == T by {
      EndsValueNotSpace(T);
      SkipSpaces(L, b + 1, W, T);
      SliceAfter(L, b + 1, W, T);
    }
    QuotedValue(L, i, b, T);
  }

  /** The conditions under which `L` assigns to `k` the quoted run of `QuotedEscape(q, y)`. */
  predicate QuotedAssignment(L: string, k: string, q: char, y: string, W: string, T: string) {
    && IsQuote(q)
    && L == k + " = " + [q] + QuotedEscape(q, y) + [q] + W + T
    && k != [] && (forall m :: 0 <= m < |k| ==> IsKeyChar(k[m]))
    && (forall m :: 0 <= m < |y| ==> !IsQuote(y[m]) || y[m] == q)
    && (forall m :: 0 <= m < |W| ==> IsSpace(W[m]))
    && EndsValue(T)
  }

  /**
   * `k = "y"` with the quotes and backslashes of `y` escaped: the raw value is the whole quoted
   * run with its trailing whitespace, whatever `y` holds besides (`#`, `!`, spaces).
   */
  lemma QuotedLine(L: string, k: string, q: char, y: string, W: string, T: string)
    requires QuotedAssignment(L, k, q, y, W, T)
    ensures MatchLine(L) == Some(Assignment(k, [q] + QuotedEscape(q, y) + [q] + W))
  {
    var n := |k|;
    var e := QuotedEscape(q, y);
    var x := [q] + e + [q] + W + T;
    QuotedShape(L, k, q, e, W, T);
    KeyPart(L, k, x);
    QuotedValueEnd(L, n + 3, q, y, W, T);
    SliceBefore(L, n + 3, [q] + e + [q] + W, T);
    MatchLineParts(L, 0, n, n + 3, |L| - |T|);
  }

  /** `k = T` where `T` opens with what ends a value (a comment sign, a stray backslash, a quote never closed): the raw value is empty. */
  lemma EmptyValueLine(L: string, k: string, T: string)
    requires L == k + " = " + T
    requires k != [] && forall m :: 0 <= m < |k| ==> IsKeyChar(k[m])
    requires T != [] && EndsValue(T)
    ensures MatchLine(L) == Some(Assignment(k, []))
  {
    KeyPart(L, k, T);
    EndsValueStops(L, |k| + 3, T);
    assert L[|k| + 3..|k| + 3] == [];
    MatchLineParts(L, 0, |k|, |k| + 3, |k| + 3);
  }

  /** `QuotedEscape` leaves alone a string without `q` and without backslashes. */
  lemma {:induction false} QuotedEscapePlain(q: char, y: string)
    requires q !in y && '\\' !in y
    ensures QuotedEscape(q, y) == y
    decreases |y|
  {
    if y != [] {
      QuotedEscapePlain(q, y[1..]);
    }
  }

  // Examples; the strings come in through parameters

  /** `p = C:\dir`: a backslash before a character it cannot escape ends the value, whose raw text is `C:`. */
  lemma StrayBackslashEndsValue(L: string, k: string, v: string, T: string)
    requires k == "p" && v == "C:" && T == "\\dir" && L == k + " = " + v + T
    ensures MatchLine(L) == Some(Assignment(k, v))
  {
    EscapeUnescapable(v);
    assert L == k + " = " + Escape(v) + [] + T;
    assert v + [] == v;
    EscapedLine(L, k, v, [], T);
  }

  /** `k = it's`: a bare quote that is never closed ends the value, whose raw text is `it`. */
  lemma BareQuoteEndsValue(L: string, k: string, v: string, T: string)
    requires k == "k" && v == "it" && T == "'s" && L == k + " = " + v + T
    ensures MatchLine(L) == Some(Assignment(k, v))
  {
    EscapeUnescapable(v);
    assert NeverClosed(T[0], T[1..]);
    assert L == k + " = " + Escape(v) + [] + T;
    assert v + [] == v;
    EscapedLine(L, k, v, [], T);
  }

  /** `k = "it's"`: the inner `'` of a run quoted by `"` is not allowed, the run never closes and the raw value is empty. */
  lemma UnclosedQuoteEmpty(L: string, k: string, T: string)
    requires k == "k" && T == "\"it's\"" && L == k + " = " + T
    ensures MatchLine(L) == Some(Assignment(k, []))
  {
    assert T[1..] == "it's\"";
    assert NeverClosed(T[0], T[1..]);
    EmptyValueLine(L, k, T);
  }

  /** `k = "a # b"` and the line's newline: a `#` inside quotes does not end the value. */
  lemma QuotedHashKept(L: string, k: string, q: char, y: string, W: string)
    requires k == "k" && q == '"' && y == "a # b" && W == "\n" && L == k + " = " + [q] + y + [q] + W
    ensures MatchLine(L) == Some(Assignment(k, [q] + y + [q] + W))
  {
    QuotedEscapePlain(q, y);
    assert L == k + " = " + [q] + QuotedEscape(q, y) + [q] + W + [];
    QuotedLine(L, k, q, y, W, []);
  }
}
