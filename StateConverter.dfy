/**
 * Conversion between operation modes and states (integers) and their
 * readable names.  A name is first normalised: surrounding whitespace is
 * dropped, letters are lowered, '-' and '_' become spaces and runs of
 * whitespace shrink to one space.
 *
 * The three tables the converters read (`MODE_MAPPING`, `STATE_MAPPING`,
 * `ZONE_STATE_MAPPING` and their reverses) are parameters here: the
 * constants module of the gateway does not define them.
 */
module StateConverter {
  import opened Wrappers
  import opened PyData
  import Const

  // ---------------------------------------------------------------------
  // Key normalisation.

  /** The characters `str.split()` and `str.strip()` treat as whitespace. */
  predicate IsSpace(c: char)
  {
    c == ' ' || ('\t' <= c <= '\r') || ('\U{1C}' <= c <= '\U{1F}') || c == '\U{85}' || c == '\U{A0}' ||
    c == '\U{1680}' || ('\U{2000}' <= c <= '\U{200A}') || c == '\U{2028}' || c == '\U{2029}' ||
    c == '\U{202F}' || c == '\U{205F}' || c == '\U{3000}'
  }

  /** `lower()` on one character, then '-' and '_' to a space. */
  function Fold(c: char): (d: char)
    ensures IsSpace(d) ==> d == c || d == ' '
    ensures 'A' <= c <= 'Z' ==> 'a' <= d <= 'z'
  {
    if c == '-' || c == '_' then ' ' else Lower(c)
  }

  /** Folding a folded character changes nothing. */
  lemma FoldIdempotent(c: char)
    ensures Fold(Fold(c)) == Fold(c)
  {
  }

  function FoldAll(s: string): (r: string)
    ensures |r| == |s| && forall i :: 0 <= i < |s| ==> r[i] == Fold(s[i])
  {
    seq(|s|, i requires 0 <= i < |s| => Fold(s[i]))
  }

  /** `str.strip()`. */
  function StripLeft(s: string): (r: string)
    ensures |r| <= |s| && r == s[|s| - |r|..]
    ensures r != [] ==> !IsSpace(r[0])
  {
    if s != [] && IsSpace(s[0]) then StripLeft(s[1..]) else s
  }

  function StripRight(s: string): (r: string)
    ensures |r| <= |s| && r == s[..|r|]
    ensures r != [] ==> !IsSpace(r[|r| - 1])
  {
    if s != [] && IsSpace(s[|s| - 1]) then StripRight(s[..|s| - 1]) else s
  }

  function Strip(s: string): string
  {
    StripRight(StripLeft(s))
  }

  /** The length of the leading run of non-whitespace. */
  function WordLength(s: string): (n: nat)
    ensures n <= |s|
    ensures forall i :: 0 <= i < n ==> !IsSpace(s[i])
    ensures n < |s| ==> IsSpace(s[n])
  {
    if s == [] || IsSpace(s[0]) then 0 else 1 + WordLength(s[1..])
  }

  /** A word: non-empty, without whitespace. */
  predicate IsWord(w: string)
  {
    w != [] && forall i :: 0 <= i < |w| ==> !IsSpace(w[i])
  }

  /** `str.split()`: the maximal runs of non-whitespace, in order. */
  function SplitWords(s: string): (ws: seq<string>)
    ensures forall k :: 0 <= k < |ws| ==> IsWord(ws[k])
    decreases |s|
  {
    if s == [] then []
    else if IsSpace(s[0]) then SplitWords(s[1..])
    else
      var n := WordLength(s);
      [s[..n]] + SplitWords(s[n..])
  }

  /** `' '.join(ws)`. */
  function JoinWords(ws: seq<string>): string
  {
    if ws == [] then ""
    else if |ws| == 1 then ws[0]
    else ws[0] + " " + JoinWords(ws[1..])
  }

  /** `_normalize_key`. */
  function NormalizeKey(s: string): string
  {
    JoinWords(SplitWords(FoldAll(Strip(s))))
  }

  /** A word followed by a space and more splits into that word and the rest. */
  lemma SplitAfterWord(w: string, rest: string)
    requires IsWord(w)
    ensures SplitWords(w + " " + rest) == [w] + SplitWords(rest)
  {
    var s := w + " " + rest;
    WordLengthOfWord(w, " " + rest);
    assert s[..|w|] == w;
    assert s[|w|..] == " " + rest;
    assert (" " + rest)[1..] == rest;
  }

  lemma {:induction false} WordLengthOfWord(w: string, rest: string)
    requires IsWord(w) && rest != [] && IsSpace(rest[0])
    ensures WordLength(w + rest) == |w|
    decreases |w|
  {
    if |w| > 1 {
      assert (w + rest)[1..] == w[1..] + rest;
      WordLengthOfWord(w[1..], rest);
    } else {
      assert (w + rest)[1..] == rest;
    }
  }

  /** A single word splits into itself. */
  lemma SplitWord(w: string)
    requires IsWord(w)
    ensures SplitWords(w) == [w]
  {
    WordLengthAll(w);
    assert w[..|w|] == w;
    assert w[|w|..] == [];
  }

  lemma {:induction false} WordLengthAll(w: string)
    requires forall i :: 0 <= i < |w| ==> !IsSpace(w[i])
    ensures WordLength(w) == |w|
    decreases |w|
  {
    if w != [] {
      WordLengthAll(w[1..]);
    }
  }

  /** Words joined by single spaces split back into the same words. */
  lemma {:induction false} SplitJoin(ws: seq<string>)
    requires forall k :: 0 <= k < |ws| ==> IsWord(ws[k])
    ensures SplitWords(JoinWords(ws)) == ws
    decreases |ws|
  {
    if |ws| == 1 {
      SplitWord(ws[0]);
    } else if |ws| > 1 {
      SplitAfterWord(ws[0], JoinWords(ws[1..]));
      SplitJoin(ws[1..]);
      assert ws == [ws[0]] + ws[1..];
    }
  }

  /** Every character of a split word comes from the string split. */
  lemma {:induction false} SplitWordsChars(s: string, P: char -> bool)
    requires forall i :: 0 <= i < |s| ==> P(s[i])
    ensures forall k, i :: 0 <= k < |SplitWords(s)| && 0 <= i < |SplitWords(s)[k]| ==> P(SplitWords(s)[k][i])
    decreases |s|
  {
    if s != [] {
      if IsSpace(s[0]) {
        SplitWordsChars(s[1..], P);
      } else {
        var n := WordLength(s);
        SplitWordsChars(s[n..], P);
        assert SplitWords(s) == [s[..n]] + SplitWords(s[n..]);
      }
    }
  }

  /** Every character of the joined string is a space or a character of a word. */
  lemma {:induction false} JoinWordsChars(ws: seq<string>, P: char -> bool)
    requires P(' ')
    requires forall k, i :: 0 <= k < |ws| && 0 <= i < |ws[k]| ==> P(ws[k][i])
    ensures forall i :: 0 <= i < |JoinWords(ws)| ==> P(JoinWords(ws)[i])
    decreases |ws|
  {
    if |ws| > 1 {
      JoinWordsChars(ws[1..], P);
      var j := JoinWords(ws);
      assert j == ws[0] + " " + JoinWords(ws[1..]);
      forall i | 0 <= i < |j| ensures P(j[i]) {
        if i < |ws[0]| {
          assert j[i] == ws[0][i];
        } else if i == |ws[0]| {
          assert j[i] == ' ';
        } else {
          assert j[i] == JoinWords(ws[1..])[i - |ws[0]| - 1];
        }
      }
    } else if |ws| == 1 {
      assert JoinWords(ws) == ws[0];
    }
  }

  /** Joined words neither begin nor end with whitespace. */
  lemma JoinWordsEnds(ws: seq<string>)
    requires ws != [] && forall k :: 0 <= k < |ws| ==> IsWord(ws[k])
    ensures JoinWords(ws) != [] && !IsSpace(JoinWords(ws)[0]) && !IsSpace(JoinWords(ws)[|JoinWords(ws)| - 1])
  {
    assert IsWord(ws[|ws| - 1]);
    JoinWordsLast(ws);
  }

  lemma {:induction false} JoinWordsLast(ws: seq<string>)
    requires ws != [] && forall k :: 0 <= k < |ws| ==> IsWord(ws[k])
    requires IsWord(ws[|ws| - 1])
    ensures |JoinWords(ws)| >= |ws[0]| && JoinWords(ws)[..|ws[0]|] == ws[0]
    ensures |JoinWords(ws)| >= |ws[|ws| - 1]| && JoinWords(ws)[|JoinWords(ws)| - 1] == ws[|ws| - 1][|ws[|ws| - 1]| - 1]
    decreases |ws|
  {
    if |ws| > 1 {
      assert IsWord(ws[1..][|ws[1..]| - 1]);
      JoinWordsLast(ws[1..]);
      var j := JoinWords(ws);
      var t := JoinWords(ws[1..]);
      assert j == ws[0] + " " + t;
      assert j[..|ws[0]|] == ws[0];
      assert j[|j| - 1] == t[|t| - 1];
    }
  }

  /** Stripping a string that begins and ends with non-whitespace changes nothing. */
  lemma StripNoSpaceEnds(s: string)
    requires s != [] && !IsSpace(s[0]) && !IsSpace(s[|s| - 1])
    ensures Strip(s) == s
  {
  }

  /** `_normalize_key` is idempotent. */
  lemma NormalizeIdempotent(s: string)
    ensures NormalizeKey(NormalizeKey(s)) == NormalizeKey(s)
  {
    var ws := SplitWords(FoldAll(Strip(s)));
    var n := JoinWords(ws);
    var fixed := (c: char) => Fold(c) == c;
    forall c: char ensures Fold(Fold(c)) == Fold(c) { FoldIdempotent(c); }
    SplitWordsChars(FoldAll(Strip(s)), fixed);
    JoinWordsChars(ws, fixed);
    if ws == [] {
      assert n == "";
    } else {
      JoinWordsEnds(ws);
      StripNoSpaceEnds(n);
      assert FoldAll(n) == n;
      SplitJoin(ws);
    }
  }

  /** The result of normalisation is a run of words separated by single spaces, with no capital, '-' or '_'. */
  lemma NormalizedShape(s: string)
    ensures var n := NormalizeKey(s);
      (forall i :: 0 <= i < |n| ==> Fold(n[i]) == n[i]) &&
      (forall i :: 0 <= i < |n| && IsSpace(n[i]) ==> n[i] == ' ') &&
      (n != [] ==> !IsSpace(n[0]) && !IsSpace(n[|n| - 1]))
  {
    var ws := SplitWords(FoldAll(Strip(s)));
    var fixed := (c: char) => Fold(c) == c;
    forall c: char ensures Fold(Fold(c)) == Fold(c) { FoldIdempotent(c); }
    SplitWordsChars(FoldAll(Strip(s)), fixed);
    JoinWordsChars(ws, fixed);
    var spaceIsBlank := (c: char) => IsSpace(c) ==> c == ' ';
    JoinWordsChars(ws, spaceIsBlank);
    if ws != [] {
      JoinWordsEnds(ws);
    }
  }

  /** A string that strips and folds to two words with one space between normalises to those. */
  lemma NormalizeTwoWords(s: string, w1: string, w2: string)
    requires IsWord(w1) && IsWord(w2)
    requires FoldAll(Strip(s)) == w1 + " " + w2
    ensures NormalizeKey(s) == w1 + " " + w2
  {
    SplitAfterWord(w1, w2);
    SplitWord(w2);
    assert SplitWords(FoldAll(Strip(s))) == [w1, w2];
    assert JoinWords([w1, w2]) == w1 + " " + JoinWords([w2]);
  }

  /** Folding a string of lowercase letters and separators: letters stay, separators become spaces. */
  lemma FoldLetters(s: string, t: string)
    requires |s| == |t|
    requires forall i :: 0 <= i < |s| ==> (IsLower(s[i]) && t[i] == s[i]) || ((s[i] == '_' || s[i] == ' ' || s[i] == '-') && t[i] == ' ')
    ensures FoldAll(s) == t
  {
  }

  /** A string that neither starts nor ends with whitespace strips to itself. */
  lemma StripNoSpaces(s: string)
    requires s != [] && !IsSpace(s[0]) && !IsSpace(s[|s| - 1])
    ensures Strip(s) == s
  {
    assert StripLeft(s) == s;
  }

  predicate Lowercase(w: string)
  {
    forall i :: 0 <= i < |w| ==> IsLower(w[i])
  }

  lemma LowercaseWord(w: string)
    requires w != [] && Lowercase(w)
    ensures IsWord(w)
  {
    assert forall i :: 0 <= i < |w| ==> IsLower(w[i]);
  }

  /**
   * Two lower-case words with a space, an underscore or a hyphen between
   * them normalise to the words with a space between them.
   */
  lemma NormalizeLowerPair(w1: string, w2: string, sep: char)
    requires w1 != [] && w2 != [] && Lowercase(w1) && Lowercase(w2)
    requires sep == ' ' || sep == '_' || sep == '-'
    ensures NormalizeKey(w1 + [sep] + w2) == w1 + " " + w2
  {
    var s := w1 + [sep] + w2;
    var t := w1 + " " + w2;
    assert IsLower(s[0]) && IsLower(s[|s| - 1]);
    StripNoSpaces(s);
    forall i | 0 <= i < |s|
      ensures (IsLower(s[i]) && t[i] == s[i]) || ((s[i] == '_' || s[i] == ' ' || s[i] == '-') && t[i] == ' ')
    {
      if i < |w1| {
        assert s[i] == w1[i] && t[i] == w1[i];
      } else if i > |w1| {
        assert s[i] == w2[i - |w1| - 1] && t[i] == w2[i - |w1| - 1];
      }
    }
    FoldLetters(s, t);
    LowercaseWord(w1);
    LowercaseWord(w2);
    NormalizeTwoWords(s, w1, w2);
  }

  /** "manual heating" is a normal name. */
  lemma ManualHeatingNormal()
    ensures NormalizeKey("manual heating") == "manual heating"
  {
    assert Lowercase("manual") && Lowercase("heating");
    assert "manual" + [' '] + "heating" == "manual heating";
    NormalizeLowerPair("manual", "heating", ' ');
  }

  /** "manual_heating" normalises to "manual heating". */
  lemma ManualHeatingUnderscore()
    ensures NormalizeKey("manual_heating") == "manual heating"
  {
    assert Lowercase("manual") && Lowercase("heating");
    assert "manual" + ['_'] + "heating" == "manual_heating";
    assert "manual" + " " + "heating" == "manual heating";
    NormalizeLowerPair("manual", "heating", '_');
  }

  // ---------------------------------------------------------------------
  // Table lookups.

  /** Which converter: operation mode, operation state or zone state. */
  datatype Kind = Mode | State | ZoneState

  /** The ValueError each converter raises. */
  datatype ConversionError =
    | NotAnInteger(kind: Kind)
    | NotStringOrInteger(kind: Kind)
    | UnknownCode(kind: Kind, code: int)
    | UnknownName(kind: Kind, name: string)

  /** `mode_to_name`, `state_to_name`, `zone_state_to_name` over the table `names`. */
  function CodeToName(kind: Kind, names: map<int, string>, v: Value): (r: Result<string, ConversionError>)
    ensures !IsInt(v) ==> r == Failure(NotAnInteger(kind))
    ensures IsInt(v) && AsInt(v) !in names ==> r == Failure(UnknownCode(kind, AsInt(v)))
    ensures IsInt(v) && AsInt(v) in names ==> r == Success(names[AsInt(v)])
  {
    if !IsInt(v) then Failure(NotAnInteger(kind))
    else if AsInt(v) in names then Success(names[AsInt(v)])
    else Failure(UnknownCode(kind, AsInt(v)))
  }

  /**
   * `name_to_mode`, `name_to_state`, `name_to_zone_state` over the reverse
   * table `codes`: an integer (a bool counts as one) passes through
   * unchanged, a string is normalised and looked up.
   */
  function NameToCode(kind: Kind, codes: map<string, int>, v: Value): (r: Result<int, ConversionError>)
    ensures IsInt(v) ==> r == Success(AsInt(v))
    ensures !IsInt(v) && !v.VStr? ==> r == Failure(NotStringOrInteger(kind))
    ensures v.VStr? && NormalizeKey(v.s) !in codes ==> r == Failure(UnknownName(kind, v.s))
    ensures v.VStr? && NormalizeKey(v.s) in codes ==> r == Success(codes[NormalizeKey(v.s)])
  {
    if IsInt(v) then Success(AsInt(v))
    else if !v.VStr? then Failure(NotStringOrInteger(kind))
    else
      var key := NormalizeKey(v.s);
      if key in codes then Success(codes[key]) else Failure(UnknownName(kind, v.s))
  }

  /** The names of a table are already in normal form. */
  predicate NormalNames(codes: map<string, int>)
  {
    forall n {:trigger NormalizeKey(n)} :: n in codes ==> NormalizeKey(n) == n
  }

  /** Name to code and back: the names of a table round-trip. */
  lemma CodeNameRoundTrip(kind: Kind, names: map<int, string>, codes: map<string, int>, m: int)
    requires Const.InverseMaps(names, codes) && NormalNames(codes)
    requires m in names
    ensures CodeToName(kind, names, VInt(m)).Success?
    ensures NameToCode(kind, codes, VStr(CodeToName(kind, names, VInt(m)).value)) == Success(m)
  {
    var name := names[m];
    assert CodeToName(kind, names, VInt(m)) == Success(name);
    assert name in codes && codes[name] == m;
    assert NormalizeKey(name) == name;
    assert NameToCode(kind, codes, VStr(name)) == Success(codes[name]);
  }

  /** And the other way round: every known name comes back from its code. */
  lemma NameCodeRoundTrip(kind: Kind, names: map<int, string>, codes: map<string, int>, n: string)
    requires Const.InverseMaps(names, codes)
    requires NormalizeKey(n) in codes
    ensures NameToCode(kind, codes, VStr(n)).Success?
    ensures CodeToName(kind, names, VInt(NameToCode(kind, codes, VStr(n)).value)) == Success(NormalizeKey(n))
  {
    var key := NormalizeKey(n);
    assert NameToCode(kind, codes, VStr(n)) == Success(codes[key]);
    assert codes[key] in names && names[codes[key]] == key;
  }

  /** Any spelling that normalises to a known name converts like that name. */
  lemma SpellingsAgree(kind: Kind, codes: map<string, int>, a: string, b: string)
    requires NormalizeKey(a) == NormalizeKey(b)
    ensures NameToCode(kind, codes, VStr(a)).Success? ==> NameToCode(kind, codes, VStr(b)) == NameToCode(kind, codes, VStr(a))
  {
  }

  /** "manual_heating" and "manual heating" give the same mode whatever the table. */
  lemma ManualHeatingModes(codes: map<string, int>)
    ensures NameToCode(Mode, codes, VStr("manual_heating")) == NameToCode(Mode, codes, VStr("manual heating"))
      || (NameToCode(Mode, codes, VStr("manual_heating")).Failure? && NameToCode(Mode, codes, VStr("manual heating")).Failure?)
  {
    ManualHeatingNormal();
    ManualHeatingUnderscore();
  }

  /** The global mode table of the constants module meets the round-trip conditions. */
  lemma GlobalModeTableQualifies()
    ensures Const.InverseMaps(Const.GlobalOpModeMapping, Const.GlobalOpModeMappingReverse)
    ensures NameToCode(Mode, Const.GlobalOpModeMappingReverse, VStr("AUTO")) == Success(1)
    ensures CodeToName(Mode, Const.GlobalOpModeMapping, VInt(1)) == Success("auto")
  {
    Const.ModeMappingReverseIsInverse();
    AutoNormalizes();
    var v := VInt(1);
    assert IsInt(v) && AsInt(v) == 1;
  }

  lemma AutoFolds()
    ensures FoldAll("AUTO") == "auto"
  {
    assert Fold('A') == 'a' && Fold('U') == 'u' && Fold('T') == 't' && Fold('O') == 'o';
  }

  lemma AutoNormalizes()
    ensures NormalizeKey("AUTO") == "auto"
  {
    assert Lowercase("auto");
    LowercaseWord("auto");
    SplitWord("auto");
    StripNoSpaces("AUTO");
    AutoFolds();
  }
}
