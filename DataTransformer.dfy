/**
 * Key-case conversion for API payloads: snake_case to camelCase and back,
 * applied to the keys of a JSON-like tree, and the fixed field-name table
 * used to map backend names to frontend names.  Case mapping covers ASCII
 * letters only.
 */
module DataTransformer {
  import opened Wrappers
  import opened PyData

  // ---------------------------------------------------------------------
  // snake_case to camelCase.

  /** `s.split('_')`: the pieces between underscores, empty ones included. */
  function SplitUnderscores(s: string): (parts: seq<string>)
    ensures |parts| >= 1
    ensures forall i :: 0 <= i < |parts| ==> '_' !in parts[i]
    ensures JoinUnderscores(parts) == s
    decreases |s|
  {
    if s == [] then [[]]
    else
      var rest := SplitUnderscores(s[1..]);
      if s[0] == '_' then
        assert s == "_" + s[1..];
        [[]] + rest
      else
        var parts := [[s[0]] + rest[0]] + rest[1..];
        assert JoinUnderscores(parts) == s by {
          if |rest| > 1 {
            assert JoinUnderscores(rest) == rest[0] + "_" + JoinUnderscores(rest[1..]);
          }
        }
        parts
  }

  /** `'_'.join(parts)`. */
  function JoinUnderscores(parts: seq<string>): string
    requires |parts| >= 1
  {
    if |parts| == 1 then parts[0] else parts[0] + "_" + JoinUnderscores(parts[1..])
  }

  /** `str.capitalize()`: the first letter upper, the rest lower. */
  function Capitalize(w: string): (r: string)
    ensures |r| == |w|
    ensures w != [] ==> r[0] == Upper(w[0]) && r[1..] == LowerAll(w[1..])
  {
    if w == [] then [] else [Upper(w[0])] + LowerAll(w[1..])
  }

  /** `''.join(x.capitalize() for x in parts)`. */
  function CapitalizeAll(parts: seq<string>): string
  {
    if parts == [] then [] else Capitalize(parts[0]) + CapitalizeAll(parts[1..])
  }

  /** `to_camel_case`: the first piece as it is, every later piece capitalised. */
  function ToCamelCase(s: string): (r: string)
    ensures var parts := SplitUnderscores(s); r == parts[0] + CapitalizeAll(parts[1..])
  {
    var parts := SplitUnderscores(s);
    parts[0] + CapitalizeAll(parts[1..])
  }

  /** No underscore survives capitalisation of underscore-free pieces. */
  lemma {:induction false} CapitalizeAllNoUnderscore(parts: seq<string>)
    requires forall i :: 0 <= i < |parts| ==> '_' !in parts[i]
    ensures '_' !in CapitalizeAll(parts)
  {
    if parts != [] {
      CapitalizeAllNoUnderscore(parts[1..]);
      var c := Capitalize(parts[0]);
      assert forall i :: 0 <= i < |c| ==> c[i] != '_' by {
        forall i | 0 <= i < |c| ensures c[i] != '_' {
          assert parts[0][i] != '_';
          if i > 0 {
            assert c[i] == c[1..][i - 1] == Lower(parts[0][i]);
          }
        }
      }
    }
  }

  /** `to_camel_case` never leaves an underscore, and keeps the first piece verbatim. */
  lemma CamelCaseShape(s: string)
    ensures '_' !in ToCamelCase(s)
    ensures var first := SplitUnderscores(s)[0]; |first| <= |ToCamelCase(s)| && ToCamelCase(s)[..|first|] == first
    ensures '_' !in s ==> ToCamelCase(s) == s
  {
    var parts := SplitUnderscores(s);
    CapitalizeAllNoUnderscore(parts[1..]);
    if '_' !in s {
      SplitNoUnderscore(s);
    }
  }

  /** A string without underscores is one piece. */
  lemma {:induction false} SplitNoUnderscore(s: string)
    requires '_' !in s
    ensures SplitUnderscores(s) == [s]
    decreases |s|
  {
    if s != [] {
      assert '_' !in s[1..];
      SplitNoUnderscore(s[1..]);
      assert [s[0]] + s[1..] == s;
    }
  }

  /** Splitting a piece followed by an underscore: the piece comes off first. */
  lemma {:induction false} SplitAfterPiece(w: string, rest: string)
    requires '_' !in w
    ensures SplitUnderscores(w + "_" + rest) == [w] + SplitUnderscores(rest)
    decreases |w|
  {
    if w == [] {
      assert w + "_" + rest == "_" + rest;
      assert ("_" + rest)[1..] == rest;
    } else {
      assert (w + "_" + rest)[1..] == w[1..] + "_" + rest;
      assert '_' !in w[1..];
      SplitAfterPiece(w[1..], rest);
      assert [w[0]] + w[1..] == w;
    }
  }

  /** Splitting undoes joining, for pieces without underscores. */
  lemma {:induction false} SplitJoin(parts: seq<string>)
    requires |parts| >= 1 && forall i :: 0 <= i < |parts| ==> '_' !in parts[i]
    ensures SplitUnderscores(JoinUnderscores(parts)) == parts
    decreases |parts|
  {
    if |parts| == 1 {
      SplitNoUnderscore(parts[0]);
    } else {
      SplitJoin(parts[1..]);
      SplitAfterPiece(parts[0], JoinUnderscores(parts[1..]));
      assert [parts[0]] + parts[1..] == parts;
    }
  }

  // ---------------------------------------------------------------------
  // camelCase to snake_case: two regular-expression passes, then lower case.

  /** The length of the run of lower-case letters `[a-z]+` that starts `s`. */
  function LowerRun(s: string): (n: nat)
    ensures n <= |s|
  {
    if s == [] || !IsLower(s[0]) then 0 else 1 + LowerRun(s[1..])
  }

  /**
   * `re.sub('(.)([A-Z][a-z]+)', r'\1_\2', s)`: scanning left to right, a
   * character other than a newline followed by an upper-case letter and a
   * run of lower-case letters gets an underscore after it; the scan resumes
   * after the run.
   */
  function SnakePass1(s: string): string
    decreases |s|
  {
    if |s| >= 3 && s[0] != '\n' && IsUpper(s[1]) && IsLower(s[2]) then
      var n := 2 + LowerRun(s[2..]);
      [s[0], '_'] + (s[1..n] + SnakePass1(s[n..]))
    else if s == [] then []
    else [s[0]] + SnakePass1(s[1..])
  }

  /**
   * `re.sub('([a-z0-9])([A-Z])', r'\1_\2', s)`: a lower-case letter or digit
   * followed by an upper-case letter gets an underscore between them; the
   * scan resumes after the pair.
   */
  function SnakePass2(s: string): string
    decreases |s|
  {
    if |s| >= 2 && (IsLower(s[0]) || IsDigit(s[0])) && IsUpper(s[1]) then
      [s[0], '_', s[1]] + SnakePass2(s[2..])
    else if s == [] then []
    else [s[0]] + SnakePass2(s[1..])
  }

  /** `to_snake_case`: the two passes, then `.lower()`; no upper-case letter is left. */
  function ToSnakeCase(s: string): (r: string)
    ensures forall i :: 0 <= i < |r| ==> !IsUpper(r[i])
  {
    LowerAll(SnakePass2(SnakePass1(s)))
  }

  predicate LowerWord(w: string)
  {
    forall i :: 0 <= i < |w| ==> IsLower(w[i])
  }

  /** Words after the first of a camelCase key: lower-case letters, at least two of them. */
  predicate TailWords(ws: seq<string>)
  {
    forall i :: 0 <= i < |ws| ==> |ws[i]| >= 2 && LowerWord(ws[i])
  }

  /** The words a camelCase key is made of. */
  predicate CamelWords(ws: seq<string>)
  {
    |ws| >= 1 && ws[0] != [] && LowerWord(ws[0]) && TailWords(ws[1..])
  }

  /** A capitalised word: an upper-case letter, then at least one lower-case one. */
  predicate Capitalized(c: string)
  {
    |c| >= 2 && IsUpper(c[0]) && LowerWord(c[1..])
  }

  /** Later words capitalised, each with an underscore before it, or only every other one. */
  function Separated(ws: seq<string>, sep: bool): string
  {
    if ws == [] then []
    else if sep then ['_'] + (Capitalize(ws[0]) + Separated(ws[1..], false))
    else Capitalize(ws[0]) + Separated(ws[1..], true)
  }

  function FullySeparated(ws: seq<string>): string
  {
    if ws == [] then [] else ['_'] + (Capitalize(ws[0]) + FullySeparated(ws[1..]))
  }

  lemma ConsChunk(c: string, x: string)
    requires c != []
    ensures [c[0]] + (c[1..] + x) == c + x
  {
    assert c == [c[0]] + c[1..];
  }

  /** Capitalising the first of some tail words gives a capitalised word, followed by a non-letter or nothing. */
  lemma TailWordsShape(ws: seq<string>)
    requires ws != [] && TailWords(ws)
    ensures Capitalized(Capitalize(ws[0])) && TailWords(ws[1..])
    ensures CapitalizeAll(ws[1..]) == [] || !IsLower(CapitalizeAll(ws[1..])[0])
  {
    CapitalizeLowerWord(ws[0]);
    if ws[1..] != [] {
      CapitalizeLowerWord(ws[1..][0]);
    }
  }

  /** Capitalising a lower-case word only raises its first letter. */
  lemma CapitalizeLowerWord(w: string)
    requires w != [] && LowerWord(w)
    ensures IsUpper(Capitalize(w)[0]) && Capitalize(w) == [Upper(w[0])] + w[1..]
    ensures |w| >= 2 ==> Capitalized(Capitalize(w))
  {
    assert LowerAll(w[1..]) == w[1..];
    assert Capitalize(w)[1..] == w[1..];
  }

  /** A lower-case run followed by a non-letter, or by nothing, is measured exactly. */
  lemma {:induction false} LowerRunOf(m: string, rest: string)
    requires LowerWord(m) && (rest == [] || !IsLower(rest[0]))
    ensures LowerRun(m + rest) == |m|
    decreases |m|
  {
    if m != [] {
      assert (m + rest)[1..] == m[1..] + rest;
      LowerRunOf(m[1..], rest);
    } else {
      assert m + rest == rest;
    }
  }

  /** One step of the first pass where nothing matches: the character is copied. */
  lemma Pass1Skip(x: char, t: string)
    requires t == [] || !IsUpper(t[0])
    ensures SnakePass1([x] + t) == [x] + SnakePass1(t)
  {
    assert ([x] + t)[1..] == t;
  }

  /** One step of the first pass where the pattern matches a capitalised word. */
  /** The first pass at a cut: the character, an underscore, the capitalised run, then the rest. */
  lemma Pass1At(s: string, n: nat)
    requires |s| >= 3 && s[0] != '\n' && IsUpper(s[1]) && IsLower(s[2])
    requires n == 2 + LowerRun(s[2..])
    ensures SnakePass1(s) == [s[0], '_'] + (s[1..n] + SnakePass1(s[n..]))
  {
  }

  lemma Pass1Cut(x: char, c: string, rest: string)
    requires x != '\n' && Capitalized(c) && (rest == [] || !IsLower(rest[0]))
    ensures SnakePass1([x] + (c + rest)) == [x] + (['_'] + (c + SnakePass1(rest)))
  {
    var s := [x] + (c + rest);
    CutPieces(x, c, rest);
    LowerRunOf(c[1..], rest);
    Pass1At(s, 1 + |c|);
    ConsTwo(x, '_', c + SnakePass1(rest));
  }

  lemma ConsTwo(x: char, y: char, t: string)
    ensures [x, y] + t == [x] + ([y] + t)
  {
  }

  lemma CutPieces(x: char, c: string, rest: string)
    requires |c| >= 2
    ensures var s := [x] + (c + rest);
      && |s| >= 3 && s[0] == x && s[1] == c[0] && s[2] == c[1]
      && s[2..] == c[1..] + rest && s[1..1 + |c|] == c && s[1 + |c|..] == rest
  {
    var s := [x] + (c + rest);
    assert s[2..] == c[1..] + rest;
    assert s[1..1 + |c|] == c;
    assert s[1 + |c|..] == rest;
  }

  lemma {:induction false} Pass1Lower(s: string)
    requires LowerWord(s)
    ensures SnakePass1(s) == s
    decreases |s|
  {
    if s != [] {
      Pass1Skip(s[0], s[1..]);
      Pass1Lower(s[1..]);
      ConsChunk(s, []);
      assert s[1..] + [] == s[1..] && s + [] == s;
    }
  }

  /** The first pass puts an underscore between a lower-case word and a capitalised one. */
  lemma {:induction false} Pass1Word(l: string, c: string, rest: string)
    requires l != [] && LowerWord(l) && Capitalized(c) && (rest == [] || !IsLower(rest[0]))
    ensures SnakePass1(l + (c + rest)) == l + (['_'] + (c + SnakePass1(rest)))
    decreases |l|
  {
    if |l| == 1 {
      assert l == [l[0]];
      Pass1Cut(l[0], c, rest);
    } else {
      var t := l[1..] + (c + rest);
      ConsChunk(l, c + rest);
      assert t[0] == l[1];
      Pass1Skip(l[0], t);
      Pass1Word(l[1..], c, rest);
      ConsChunk(l, ['_'] + (c + SnakePass1(rest)));
    }
  }

  /** The first pass on a lower-case prefix and capitalised words separates every other word, starting with the first. */
  lemma {:induction false} Pass1Prefixed(l: string, ws: seq<string>)
    requires l != [] && LowerWord(l) && TailWords(ws)
    ensures SnakePass1(l + CapitalizeAll(ws)) == l + Separated(ws, true)
    decreases |ws|, 1
  {
    if ws == [] {
      Pass1Lower(l);
      assert l + [] == l;
    } else {
      TailWordsShape(ws);
      Pass1Word(l, Capitalize(ws[0]), CapitalizeAll(ws[1..]));
      Pass1Capitalized(ws[1..]);
    }
  }

  /** The first pass on capitalised words alone separates every other word, starting with the second. */
  lemma {:induction false} Pass1Capitalized(ws: seq<string>)
    requires TailWords(ws)
    ensures SnakePass1(CapitalizeAll(ws)) == Separated(ws, false)
    decreases |ws|, 0
  {
    if ws != [] {
      var c, rest := Capitalize(ws[0]), CapitalizeAll(ws[1..]);
      TailWordsShape(ws);
      ConsChunk(c, rest);
      Pass1Skip(c[0], c[1..] + rest);
      Pass1Prefixed(c[1..], ws[1..]);
      ConsChunk(c, Separated(ws[1..], true));
    }
  }

  /** One step of the second pass where nothing matches. */
  lemma Pass2Skip(x: char, t: string)
    requires !(IsLower(x) || IsDigit(x)) || t == [] || !IsUpper(t[0])
    ensures SnakePass2([x] + t) == [x] + SnakePass2(t)
  {
    assert ([x] + t)[1..] == t;
  }

  /** The second pass copies text without upper-case letters that is not followed by one. */
  lemma {:induction false} Pass2Copies(p: string, rest: string)
    requires forall i :: 0 <= i < |p| ==> !IsUpper(p[i])
    requires rest == [] || !IsUpper(rest[0])
    ensures SnakePass2(p + rest) == p + SnakePass2(rest)
    decreases |p|
  {
    if p == [] {
      assert p + rest == rest;
      assert p + SnakePass2(rest) == SnakePass2(rest);
    } else {
      var t := p[1..] + rest;
      ConsChunk(p, rest);
      assert t != [] ==> t[0] == (if |p| > 1 then p[1] else rest[0]);
      Pass2Skip(p[0], t);
      Pass2Copies(p[1..], rest);
      ConsChunk(p, SnakePass2(rest));
    }
  }

  /** A capitalised word is copied by the second pass. */
  lemma Pass2Chunk(c: string, tail: string, f: string)
    requires Capitalized(c) && SnakePass2(c[1..] + tail) == c[1..] + f
    ensures SnakePass2(c + tail) == c + f
  {
    ConsChunk(c, tail);
    Pass2Skip(c[0], c[1..] + tail);
    ConsChunk(c, f);
  }

  /** One step of the second pass where the pattern matches: a letter, then a capitalised word. */
  lemma Pass2Cut(x: char, c: string, tail: string, f: string)
    requires IsLower(x) && Capitalized(c) && SnakePass2(c[1..] + tail) == c[1..] + f
    ensures SnakePass2([x] + (c + tail)) == [x] + (['_'] + (c + f))
  {
    var s := [x] + (c + tail);
    assert s[1] == c[0];
    assert s[2..] == c[1..] + tail;
    assert [x, '_', c[0]] + (c[1..] + f) == [x] + (['_'] + (c + f)) by {
      ConsChunk(c, f);
    }
  }

  /** The second pass separates a lower-case word from a capitalised word right after it. */
  lemma Pass2Boundary(l: string, c: string, tail: string, f: string)
    requires l != [] && LowerWord(l) && Capitalized(c) && SnakePass2(c[1..] + tail) == c[1..] + f
    ensures SnakePass2(l + (c + tail)) == l + (['_'] + (c + f))
  {
    var init, x := l[..|l| - 1], l[|l| - 1];
    assert l == init + [x];
    Pass2Copies(init, [x] + (c + tail));
    Pass2Cut(x, c, tail, f);
    SnocChunk(init, x, c + tail);
    SnocChunk(init, x, ['_'] + (c + f));
  }

  lemma SnocChunk(init: string, x: char, y: string)
    ensures (init + [x]) + y == init + ([x] + y)
  {
  }

  /** The second pass adds the underscores the first pass left out. */
  lemma {:induction false} Pass2Separates(l: string, ws: seq<string>, sep: bool)
    requires l != [] && LowerWord(l) && TailWords(ws)
    ensures SnakePass2(l + Separated(ws, sep)) == l + FullySeparated(ws)
    decreases |ws|
  {
    if ws == [] {
      Pass2Copies(l, []);
    } else {
      var c, tail, f := Capitalize(ws[0]), Separated(ws[1..], !sep), FullySeparated(ws[1..]);
      TailWordsShape(ws);
      Pass2Separates(c[1..], ws[1..], !sep);
      if sep {
        Pass2Copies(l, ['_'] + (c + tail));
        Pass2Skip('_', c + tail);
        Pass2Chunk(c, tail, f);
      } else {
        Pass2Boundary(l, c, tail, f);
      }
    }
  }

  lemma LowerAllAppend(a: string, b: string)
    ensures LowerAll(a + b) == LowerAll(a) + LowerAll(b)
  {
  }

  lemma LowerAllLowerWord(w: string)
    requires LowerWord(w)
    ensures LowerAll(w) == w
  {
  }

  /** Lower-casing a capitalised word gives the lower-cased word. */
  lemma LowerCapitalize(w: string)
    ensures LowerAll(Capitalize(w)) == LowerAll(w)
  {
    if w != [] {
      assert Lower(Upper(w[0])) == Lower(w[0]);
      var a := LowerAll(Capitalize(w));
      assert forall i :: 1 <= i < |a| ==> a[i] == Capitalize(w)[1..][i - 1];
    }
  }

  /** Lower-casing keeps a lower-case word and an underscore in front of the rest. */
  lemma LowerUnderscored(l: string, z: string)
    requires LowerWord(l)
    ensures LowerAll(l + (['_'] + z)) == (l + "_") + LowerAll(z)
  {
    LowerAllAppend(l, ['_'] + z);
    LowerAllAppend(['_'], z);
    LowerAllLowerWord(l);
    assert LowerAll(['_']) == ['_'];
  }

  /** Lower-casing the fully separated form joins the words with underscores. */
  lemma {:induction false} LowerSeparated(l: string, ws: seq<string>)
    requires LowerWord(l) && TailWords(ws)
    ensures LowerAll(l + FullySeparated(ws)) == JoinUnderscores([l] + ws)
    decreases |ws|
  {
    if ws == [] {
      LowerAllLowerWord(l);
      assert l + [] == l;
      assert [l] + ws == [l];
    } else {
      var w, f := ws[0], FullySeparated(ws[1..]);
      assert TailWords(ws[1..]);
      LowerUnderscored(l, Capitalize(w) + f);
      LowerAllAppend(Capitalize(w), f);
      LowerCapitalize(w);
      LowerAllAppend(w, f);
      LowerSeparated(w, ws[1..]);
      assert [w] + ws[1..] == ws;
      assert ([l] + ws)[1..] == ws;
    }
  }

  /**
   * `to_snake_case` undoes `to_camel_case` on keys made of lower-case words,
   * every word after the first at least two letters long, and the other way
   * round: "filtered_outside_temperature" and "filteredOutsideTemperature"
   * are one instance.
   */
  lemma CaseRoundTrip(ws: seq<string>)
    requires CamelWords(ws)
    ensures ToCamelCase(JoinUnderscores(ws)) == ws[0] + CapitalizeAll(ws[1..])
    ensures ToSnakeCase(ws[0] + CapitalizeAll(ws[1..])) == JoinUnderscores(ws)
  {
    assert forall i :: 0 <= i < |ws| ==> '_' !in ws[i] by {
      forall i | 0 <= i < |ws| ensures '_' !in ws[i] {
        assert LowerWord(ws[i]) by {
          if i > 0 {
            assert ws[i] == ws[1..][i - 1];
          }
        }
      }
    }
    SplitJoin(ws);
    Pass1Prefixed(ws[0], ws[1..]);
    Pass2Separates(ws[0], ws[1..], true);
    LowerSeparated(ws[0], ws[1..]);
    assert [ws[0]] + ws[1..] == ws;
  }

  lemma TwoWords(a: string, b: string)
    requires a != [] && LowerWord(a) && |b| >= 2 && LowerWord(b)
    ensures CamelWords([a, b]) && [a, b][0] == a && [a, b][1..] == [b]
    ensures CapitalizeAll([b]) == Capitalize(b)
    ensures JoinUnderscores([a, b]) == a + ("_" + b)
  {
    assert [a, b][1..] == [b];
    assert Capitalize(b) + [] == Capitalize(b);
  }

  /** Two lower-case words and their camelCase and snake_case spellings. */
  lemma TwoWordKey(a: string, b: string)
    requires a != [] && LowerWord(a) && |b| >= 2 && LowerWord(b)
    ensures ToCamelCase(a + ("_" + b)) == a + Capitalize(b)
    ensures ToSnakeCase(a + Capitalize(b)) == a + ("_" + b)
  {
    TwoWords(a, b);
    CaseRoundTrip([a, b]);
  }

  lemma OperationModeLetters()
    ensures LowerWord("operation") && LowerWord("mode")
    ensures "operation_mode" == "operation" + ("_" + "mode")
    ensures Capitalize("mode") == "Mode" && "operationMode" == "operation" + "Mode"
  {
    CapitalizeLowerWord("mode");
  }

  /** `operation_mode` and `operationMode` convert into each other. */
  lemma OperationModeKey()
    ensures ToCamelCase("operation_mode") == "operationMode" && ToSnakeCase("operationMode") == "operation_mode"
  {
    OperationModeLetters();
    TwoWordKey("operation", "mode");
  }

  lemma ThreeWords(a: string, b: string, c: string)
    requires a != [] && LowerWord(a) && |b| >= 2 && LowerWord(b) && |c| >= 2 && LowerWord(c)
    ensures CamelWords([a, b, c]) && [a, b, c][0] == a && [a, b, c][1..] == [b, c]
    ensures JoinUnderscores([a, b, c]) == a + ("_" + (b + ("_" + c)))
  {
    assert [a, b, c][1..] == [b, c];
    assert [b, c][1..] == [c];
    assert JoinUnderscores([b, c]) == b + "_" + c;
  }

  lemma CapitalizeTwo(b: string, c: string)
    ensures CapitalizeAll([b, c]) == Capitalize(b) + Capitalize(c)
  {
    assert [b, c][1..] == [c];
    assert [c][1..] == [];
    assert CapitalizeAll([c]) == Capitalize(c) + [] == Capitalize(c);
  }

  /** Three lower-case words and their camelCase and snake_case spellings. */
  lemma ThreeWordKey(a: string, b: string, c: string)
    requires a != [] && LowerWord(a) && |b| >= 2 && LowerWord(b) && |c| >= 2 && LowerWord(c)
    ensures ToCamelCase(a + ("_" + (b + ("_" + c)))) == a + (Capitalize(b) + Capitalize(c))
    ensures ToSnakeCase(a + (Capitalize(b) + Capitalize(c))) == a + ("_" + (b + ("_" + c)))
  {
    ThreeWords(a, b, c);
    CapitalizeTwo(b, c);
    CaseRoundTrip([a, b, c]);
  }

  lemma OutsideLetters()
    ensures LowerWord("outside") && Capitalize("outside") == "Outside"
  {
    CapitalizeLowerWord("outside");
  }

  lemma TemperatureLetters()
    ensures LowerWord("temperature") && Capitalize("temperature") == "Temperature"
  {
    CapitalizeLowerWord("temperature");
  }

  lemma OutsideTemperatureLetters()
    ensures "outside_temperature" == "outside" + ("_" + "temperature")
    ensures "outsideTemperature" == "outside" + "Temperature"
  {
  }

  lemma FilteredOutsideTemperatureLetters()
    ensures LowerWord("filtered")
    ensures "filtered_outside_temperature" == "filtered" + ("_" + ("outside" + ("_" + "temperature")))
    ensures "filteredOutsideTemperature" == "filtered" + ("Outside" + "Temperature")
  {
  }

  lemma RelativeHumidityLetters()
    ensures LowerWord("relative") && LowerWord("humidity")
    ensures Capitalize("humidity") == "Humidity"
    ensures "relative_humidity" == "relative" + ("_" + "humidity")
    ensures "relativeHumidity" == "relative" + "Humidity"
  {
    CapitalizeLowerWord("humidity");
  }

  /** `outside_temperature` and `outsideTemperature` convert into each other. */
  lemma OutsideTemperatureKey()
    ensures ToCamelCase("outside_temperature") == "outsideTemperature"
    ensures ToSnakeCase("outsideTemperature") == "outside_temperature"
  {
    OutsideLetters();
    TemperatureLetters();
    OutsideTemperatureLetters();
    TwoWordKey("outside", "temperature");
  }

  /** `filtered_outside_temperature` and `filteredOutsideTemperature` convert into each other. */
  lemma FilteredOutsideTemperatureKey()
    ensures ToCamelCase("filtered_outside_temperature") == "filteredOutsideTemperature"
    ensures ToSnakeCase("filteredOutsideTemperature") == "filtered_outside_temperature"
  {
    OutsideLetters();
    TemperatureLetters();
    FilteredOutsideTemperatureLetters();
    ThreeWordKey("filtered", "outside", "temperature");
  }

  /** `relative_humidity` and `relativeHumidity` convert into each other. */
  lemma RelativeHumidityKey()
    ensures ToCamelCase("relative_humidity") == "relativeHumidity"
    ensures ToSnakeCase("relativeHumidity") == "relative_humidity"
  {
    RelativeHumidityLetters();
    TwoWordKey("relative", "humidity");
  }

  lemma NestedDataLetters()
    ensures LowerWord("nested") && LowerWord("data")
    ensures Capitalize("data") == "Data"
    ensures "nested_data" == "nested" + ("_" + "data")
    ensures "nestedData" == "nested" + "Data"
  {
    CapitalizeLowerWord("data");
  }

  /** `nested_data` and `nestedData` convert into each other. */
  lemma NestedDataKey()
    ensures ToCamelCase("nested_data") == "nestedData"
    ensures ToSnakeCase("nestedData") == "nested_data"
  {
    NestedDataLetters();
    TwoWordKey("nested", "data");
  }

  // ---------------------------------------------------------------------
  // Renaming the keys of a JSON-like tree.

  /** The renaming a transformer applies to every key. */
  datatype KeyStyle = CamelCase | SnakeCase | FieldMapping(reverse: bool)

  function RenameKey(style: KeyStyle, key: string): string
  {
    match style
    case CamelCase => ToCamelCase(key)
    case SnakeCase => ToSnakeCase(key)
    case FieldMapping(reverse) => MapField(reverse, key)
  }

  /** The key function a style stands for. */
  function KeyFunction(style: KeyStyle): string -> string
  {
    k => RenameKey(style, k)
  }

  /**
   * `transform_dict_to_camel_case`, `transform_dict_to_snake_case` and
   * `apply_field_mappings`: a dict gets its keys renamed, level by level;
   * any other value is returned as it is.
   */
  function RenameKeys(rename: string -> string, v: Value): (r: Value)
    ensures !v.VDict? ==> r == v
    ensures v.VDict? ==> r.VDict? && DistinctKeys(r.entries)
    decreases v, 2, 0
  {
    if v.VDict? then VDict(RenameEntries(rename, v.entries, |v.entries|)) else v
  }

  /** The result dict once the loop has stored the first `n` entries, each under its renamed key. */
  function RenameEntries(rename: string -> string, e: seq<(string, Value)>, n: nat): (r: seq<(string, Value)>)
    requires n <= |e|
    ensures DistinctKeys(r) && |r| <= n
    decreases VDict(e), 1, n
  {
    if n == 0 then []
    else
      assert e[n - 1] in e;
      Put(RenameEntries(rename, e, n - 1), rename(e[n - 1].0), RenameValue(rename, e[n - 1].1))
  }

  /** A value stored under a renamed key: a dict is renamed in turn, a list item by item. */
  function RenameValue(rename: string -> string, v: Value): (r: Value)
    ensures !v.VDict? && !v.VList? ==> r == v
    ensures v.VList? ==> r.VList? && |r.items| == |v.items|
    decreases v, 3, 0
  {
    match v
    case VDict(_) => RenameKeys(rename, v)
    case VList(items) => VList(seq(|items|, i requires 0 <= i < |items| => RenameItem(rename, items[i])))
    case _ => v
  }

  /** A list item: a dict is renamed, anything else, a nested list included, is kept. */
  function RenameItem(rename: string -> string, item: Value): (r: Value)
    ensures !item.VDict? ==> r == item
    decreases item, 2, 1
  {
    if item.VDict? then RenameKeys(rename, item) else item
  }

  /** The loop of the dict transformers, filling a fresh result dict entry by entry. */
  method TransformDict(style: KeyStyle, data: Value) returns (r: Value)
    ensures r == RenameKeys(KeyFunction(style), data)
    decreases data, 2, 0
  {
    if !data.VDict? {
      return data;
    }
    var e := data.entries;
    var result: seq<(string, Value)> := [];
    for i := 0 to |e|
      invariant result == RenameEntries(KeyFunction(style), e, i)
    {
      assert e[i] in e;
      var value := TransformValue(style, e[i].1);
      result := Put(result, RenameKey(style, e[i].0), value);
    }
    r := VDict(result);
  }

  /** The value branch of the loop body: recursion into dicts and the list comprehension. */
  method TransformValue(style: KeyStyle, v: Value) returns (r: Value)
    ensures r == RenameValue(KeyFunction(style), v)
    decreases v, 3, 0
  {
    match v {
      case VDict(_) =>
        r := TransformDict(style, v);
      case VList(items) =>
        var out: seq<Value> := [];
        for i := 0 to |items|
          invariant |out| == i && forall j :: 0 <= j < i ==> out[j] == RenameItem(KeyFunction(style), items[j])
        {
          var item := items[i];
          if item.VDict? {
            item := TransformDict(style, item);
          }
          out := out + [item];
        }
        r := VList(out);
      case _ =>
        r := v;
    }
  }

  /** `transform_api_response`: a dict is transformed, a list element by element, anything else kept. */
  function TransformApiResponse(v: Value, toCamel: bool): (r: Value)
    ensures !v.VDict? && !v.VList? ==> r == v
    ensures v.VList? ==> r.VList? && |r.items| == |v.items|
    ensures v.VDict? && toCamel ==> r == RenameKeys(KeyFunction(CamelCase), v)
    ensures v.VDict? && !toCamel ==> r == RenameKeys(KeyFunction(SnakeCase), v)
  {
    match v
    case VDict(_) => RenameKeys(KeyFunction(if toCamel then CamelCase else SnakeCase), v)
    case VList(items) => VList(seq(|items|, i requires 0 <= i < |items| => TransformApiResponse(items[i], toCamel)))
    case _ => v
  }

  // ---------------------------------------------------------------------
  // The fixed field-name table.

  /** `FIELD_MAPPINGS`: ten backend names to frontend names, and seven back. */
  const FieldMappings: map<string, string> := map[
    "operation_mode" := "operationMode",
    "operation_state" := "operationState",
    "outside_temperature" := "outsideTemperature",
    "filtered_outside_temperature" := "filteredOutsideTemperature",
    "relative_humidity" := "relativeHumidity",
    "zone_id" := "zoneId",
    "base_id" := "baseId",
    "setpoint" := "setpoint",
    "temperature" := "temperature",
    "state" := "state",
    "operationMode" := "operation_mode",
    "operationState" := "operation_state",
    "outsideTemperature" := "outside_temperature",
    "filteredOutsideTemperature" := "filtered_outside_temperature",
    "relativeHumidity" := "relative_humidity",
    "zoneId" := "zone_id",
    "baseId" := "base_id"
  ]

  /** Every name maps to a name that maps back to it. */
  predicate Involution(m: map<string, string>)
  {
    forall k :: k in m ==> m[k] in m && m[m[k]] == k
  }

  predicate InjectiveValues(m: map<string, string>)
  {
    forall j, k :: j in m && k in m && m[j] == m[k] ==> j == k
  }

  /** `{v: k for k, v in m.items()}`, for a table whose values are distinct. */
  function ReverseOf(m: map<string, string>): (r: map<string, string>)
    requires InjectiveValues(m)
    ensures forall k :: k in m ==> m[k] in r && r[m[k]] == k
    ensures forall v :: v in r ==> r[v] in m && m[r[v]] == v
  {
    map k | k in m :: m[k] := k
  }

  lemma FieldMappingsInvolution()
    ensures Involution(FieldMappings)
  {
    forall k | k in FieldMappings
      ensures FieldMappings[k] in FieldMappings && FieldMappings[FieldMappings[k]] == k
    {
      if k == "operation_mode" || k == "operation_state" || k == "outside_temperature" || k == "filtered_outside_temperature" || k == "relative_humidity" || k == "zone_id" || k == "base_id" || k == "setpoint" || k == "temperature" || k == "state" {
        BackendNameMapsBack(k);
      } else {
        FrontendNameMapsBack(k);
      }
    }
  }

  lemma BackendNameMapsBack(k: string)
    requires k == "operation_mode" || k == "operation_state" || k == "outside_temperature" || k == "filtered_outside_temperature" || k == "relative_humidity" || k == "zone_id" || k == "base_id" || k == "setpoint" || k == "temperature" || k == "state"
    ensures k in FieldMappings && FieldMappings[k] in FieldMappings && FieldMappings[FieldMappings[k]] == k
  {
    if k == "operation_mode" { assert FieldMappings[k] == "operationMode"; assert FieldMappings["operationMode"] == k; }
    if k == "operation_state" { assert FieldMappings[k] == "operationState"; assert FieldMappings["operationState"] == k; }
    if k == "outside_temperature" { assert FieldMappings[k] == "outsideTemperature"; assert FieldMappings["outsideTemperature"] == k; }
    if k == "filtered_outside_temperature" { assert FieldMappings[k] == "filteredOutsideTemperature"; assert FieldMappings["filteredOutsideTemperature"] == k; }
    if k == "relative_humidity" { assert FieldMappings[k] == "relativeHumidity"; assert FieldMappings["relativeHumidity"] == k; }
    if k == "zone_id" { assert FieldMappings[k] == "zoneId"; assert FieldMappings["zoneId"] == k; }
    if k == "base_id" { assert FieldMappings[k] == "baseId"; assert FieldMappings["baseId"] == k; }
    if k == "setpoint" { assert FieldMappings[k] == "setpoint"; assert FieldMappings["setpoint"] == k; }
    if k == "temperature" { assert FieldMappings[k] == "temperature"; assert FieldMappings["temperature"] == k; }
    if k == "state" { assert FieldMappings[k] == "state"; assert FieldMappings["state"] == k; }
  }

  lemma FrontendNameMapsBack(k: string)
    requires k == "operationMode" || k == "operationState" || k == "outsideTemperature" || k == "filteredOutsideTemperature" || k == "relativeHumidity" || k == "zoneId" || k == "baseId"
    ensures k in FieldMappings && FieldMappings[k] in FieldMappings && FieldMappings[FieldMappings[k]] == k
  {
    if k == "operationMode" { assert FieldMappings[k] == "operation_mode"; assert FieldMappings["operation_mode"] == k; }
    if k == "operationState" { assert FieldMappings[k] == "operation_state"; assert FieldMappings["operation_state"] == k; }
    if k == "outsideTemperature" { assert FieldMappings[k] == "outside_temperature"; assert FieldMappings["outside_temperature"] == k; }
    if k == "filteredOutsideTemperature" { assert FieldMappings[k] == "filtered_outside_temperature"; assert FieldMappings["filtered_outside_temperature"] == k; }
    if k == "relativeHumidity" { assert FieldMappings[k] == "relative_humidity"; assert FieldMappings["relative_humidity"] == k; }
    if k == "zoneId" { assert FieldMappings[k] == "zone_id"; assert FieldMappings["zone_id"] == k; }
    if k == "baseId" { assert FieldMappings[k] == "base_id"; assert FieldMappings["base_id"] == k; }
  }

  lemma InvolutionInjective(m: map<string, string>)
    requires Involution(m)
    ensures InjectiveValues(m)
  {
    forall j, k | j in m && k in m && m[j] == m[k]
      ensures j == k
    {
      assert m[m[j]] == j && m[m[k]] == k;
    }
  }

  /** The reverse of an involution is the table itself. */
  lemma InvolutionReverse(m: map<string, string>)
    requires Involution(m)
    ensures InjectiveValues(m) && ReverseOf(m) == m
  {
    InvolutionInjective(m);
    var r := ReverseOf(m);
    forall k | k in m
      ensures k in r && r[k] == m[k]
    {
      var j := m[k];
      assert j in m && m[j] == k;
    }
    assert r.Keys == m.Keys;
  }

  /** The table `apply_field_mappings` looks names up in: the reverse one when `reverse` is set. */
  function Mappings(reverse: bool): map<string, string>
  {
    if reverse then
      FieldMappingsInvolution();
      InvolutionInjective(FieldMappings);
      ReverseOf(FieldMappings)
    else FieldMappings
  }

  /** The reverse table built on the fly is `FIELD_MAPPINGS` itself. */
  lemma ReverseIsForward()
    ensures Mappings(true) == Mappings(false) == FieldMappings
  {
    FieldMappingsInvolution();
    InvolutionReverse(FieldMappings);
  }

  /** `mappings.get(key, key)`. */
  function MapField(reverse: bool, key: string): string
  {
    var m := Mappings(reverse);
    if key in m then m[key] else key
  }

  /** Names outside the table keep their name; table names are swapped, and swapping back restores them. */
  lemma MapFieldProperties(reverse: bool, k: string)
    ensures k !in FieldMappings ==> MapField(reverse, k) == k
    ensures k in FieldMappings ==> MapField(reverse, k) == FieldMappings[k]
    ensures MapField(!reverse, MapField(reverse, k)) == k && MapField(reverse, MapField(reverse, k)) == k
  {
    ReverseIsForward();
    FieldMappingsInvolution();
  }

  // ---------------------------------------------------------------------
}
