/**
 * The secret redactor: which files count as text (`is_text_file`) and the
 * string rewrite `redact_string`, which runs two fixed regular expressions
 * one after the other, each as a left-to-right replace-all (`re.sub`).
 *
 *   KEY=value:  (?i)\b(api[-_ ]?key|secret|token|password)\s*=\s*(['"])[^'"\n]+(['"])
 *               replaced by  \1=\2<REDACTED>\3
 *   KEY: value: (?i)\b(api[-_ ]?key|secret|token|password)\s*[:]\s*['"]?[^'"\n]+
 *               replaced by  \1: <REDACTED>
 *
 * Each expression is written out as a scanner that follows the regular
 * expression engine's choices, and is proved against a description of the
 * text it accepts.
 */
module Redact {
  import opened Wrappers
  import opened Text
  import opened Paths

  /** The extensions of files the redactor rewrites. */
  const TextExts: set<string> := {
    ".py", ".json", ".yml", ".yaml", ".toml", ".ini", ".env", ".html", ".htm",
    ".md", ".txt", ".js", ".ts", ".css", ".scss", ".tsx", ".jsx"
  }

  /** `is_text_file`: the lower-cased suffix is listed, or the name is a dotfile without suffix. */
  predicate IsTextFile(name: string)
  {
    Lower(Suffix(name)) in TextExts || (StartsWith(name, ".") && Suffix(name) == "")
  }

  /**
   * A file with a suffix is text exactly when its suffix, in any case, is
   * listed; a file without one exactly when its name starts with a dot.
   */
  lemma TextFileRule(name: string)
    ensures Suffix(name) != "" ==> (IsTextFile(name) <==> Lower(Suffix(name)) in TextExts)
    ensures Suffix(name) == "" ==> (IsTextFile(name) <==> StartsWith(name, "."))
  {
    assert Lower("") == "";
  }

  lemma TextFileExamples()
    ensures IsTextFile("A.PY") && IsTextFile(".env")
  {
    SuffixAt("A.PY", 1);
    assert "A.PY"[1..] == ".PY";
    assert Lower(".PY") == ".py";
    NoSuffixAfterLeadingDot(".env");
    assert StartsWith(".env", ".");
  }

  lemma NonTextFileExamples()
    ensures !IsTextFile("Makefile") && !IsTextFile("x.png")
  {
    NoSuffixAfterLeadingDot("Makefile");
    assert !StartsWith("Makefile", ".") by {
      assert "Makefile"[..1][0] == 'M';
    }
    SuffixAt("x.png", 1);
    assert "x.png"[1..] == ".png";
    assert Lower(".png") == ".png";
  }

  // ---------------------------------------------------------------------
  // Character classes

  /** `\w` on ASCII text. */
  predicate IsWordChar(c: char)
  {
    'a' <= c <= 'z' || 'A' <= c <= 'Z' || '0' <= c <= '9' || c == '_'
  }

  /** `\b` in front of a word character: the text starts here or a non-word character comes before. */
  predicate AtWordStart(s: string, i: int)
    requires 0 <= i <= |s|
  {
    i == 0 || !IsWordChar(s[i - 1])
  }

  predicate IsQuote(c: char)
  {
    c == '\'' || c == '"'
  }

  /** `[^'"\n]`. */
  predicate IsValueChar(c: char)
  {
    !IsQuote(c) && c != '\n'
  }

  /** `[-_ ]`. */
  predicate IsKeySeparator(c: char)
  {
    c == '-' || c == '_' || c == ' '
  }

  predicate AllSpace(s: string, a: int, b: int)
    requires 0 <= a <= b <= |s|
  {
    forall t :: a <= t < b ==> IsSpace(s[t])
  }

  predicate AllValue(s: string, a: int, b: int)
    requires 0 <= a <= b <= |s|
  {
    forall t :: a <= t < b ==> IsValueChar(s[t])
  }

  // ---------------------------------------------------------------------
  // The key group (api[-_ ]?key|secret|token|password), ignoring case

  /** The key words, lower-cased: what the key group accepts. */
  predicate IsKey(w: string)
  {
    Lower(w) in {"apikey", "api-key", "api_key", "api key", "secret", "token", "password"}
  }

  /** The character at `t` is the letter `c`, in either case. */
  predicate LetterAt(s: string, t: int, c: char)
    requires 0 <= t
  {
    t < |s| && LowerChar(s[t]) == c
  }

  /**
   * Where the key group ends when it matches at `i`, trying the
   * alternatives in their order, and in `api[-_ ]?key` the separator before
   * no separator. The key words differ in their first or their fourth
   * character, so at most one of them fits.
   */
  function KeyEnd(s: string, i: int): (r: Option<int>)
    requires 0 <= i <= |s|
    ensures r.Some? ==> i < r.value <= |s|
  {
    if LetterAt(s, i, 'a') && LetterAt(s, i + 1, 'p') && LetterAt(s, i + 2, 'i') then
      if i + 3 < |s| && IsKeySeparator(s[i + 3]) &&
         LetterAt(s, i + 4, 'k') && LetterAt(s, i + 5, 'e') && LetterAt(s, i + 6, 'y') then Some(i + 7)
      else if LetterAt(s, i + 3, 'k') && LetterAt(s, i + 4, 'e') && LetterAt(s, i + 5, 'y') then Some(i + 6)
      else None
    else if LetterAt(s, i, 's') && LetterAt(s, i + 1, 'e') && LetterAt(s, i + 2, 'c') &&
            LetterAt(s, i + 3, 'r') && LetterAt(s, i + 4, 'e') && LetterAt(s, i + 5, 't') then Some(i + 6)
    else if LetterAt(s, i, 't') && LetterAt(s, i + 1, 'o') && LetterAt(s, i + 2, 'k') &&
            LetterAt(s, i + 3, 'e') && LetterAt(s, i + 4, 'n') then Some(i + 5)
    else if LetterAt(s, i, 'p') && LetterAt(s, i + 1, 'a') && LetterAt(s, i + 2, 's') && LetterAt(s, i + 3, 's') &&
            LetterAt(s, i + 4, 'w') && LetterAt(s, i + 5, 'o') && LetterAt(s, i + 6, 'r') && LetterAt(s, i + 7, 'd')
    then Some(i + 8)
    else None
  }

  /** What `KeyEnd` finds is one of the key words. */
  lemma KeyEndSound(s: string, i: int)
    requires 0 <= i <= |s| && KeyEnd(s, i).Some?
    ensures IsKey(s[i..KeyEnd(s, i).value])
  {
    var k := KeyEnd(s, i).value;
    var w := Lower(s[i..k]);
    assert forall t :: 0 <= t < k - i ==> w[t] == LowerChar(s[i + t]);
    if k - i == 7 {
      var sep := LowerChar(s[i + 3]);
      assert w == ['a', 'p', 'i', sep, 'k', 'e', 'y'];
      assert sep == '-' || sep == '_' || sep == ' ';
    } else if k - i == 6 && LowerChar(s[i]) == 'a' {
      assert w == "apikey";
    } else if k - i == 6 {
      assert w == "secret";
    } else if k - i == 5 {
      assert w == "token";
    } else {
      assert w == "password";
    }
  }

  /** Whatever key word the text holds at `i`, `KeyEnd` finds it: the key group matches in one way only. */
  lemma KeyEndComplete(s: string, i: int, k: int)
    requires 0 <= i <= k <= |s| && IsKey(s[i..k])
    ensures KeyEnd(s, i) == Some(k)
  {
    var w := Lower(s[i..k]);
    if w in {"api-key", "api_key", "api key", "apikey"} {
      KeyEndApi(s, i, k);
    } else if w in {"secret", "token"} {
      KeyEndSecretToken(s, i, k);
    } else {
      KeyEndPassword(s, i, k);
    }
  }

  /** The letter at `t` of a lower-cased key word is the letter of the text there, in either case. */
  lemma LetterOfKey(s: string, i: int, k: int, t: int, c: char)
    requires 0 <= i <= k <= |s| && 0 <= t < k - i && Lower(s[i..k])[t] == c
    ensures LetterAt(s, i + t, c)
  {
    assert s[i..k][t] == s[i + t];
  }

  lemma KeyEndApi(s: string, i: int, k: int)
    requires 0 <= i <= k <= |s| && Lower(s[i..k]) in {"api-key", "api_key", "api key", "apikey"}
    ensures KeyEnd(s, i) == Some(k)
  {
    var w := Lower(s[i..k]);
    if w == "api-key" {
      LetterOfKey(s, i, k, 0, 'a');
      LetterOfKey(s, i, k, 1, 'p');
      LetterOfKey(s, i, k, 2, 'i');
      LetterOfKey(s, i, k, 3, '-');
      LetterOfKey(s, i, k, 4, 'k');
      LetterOfKey(s, i, k, 5, 'e');
      LetterOfKey(s, i, k, 6, 'y');
    } else if w == "api_key" {
      LetterOfKey(s, i, k, 0, 'a');
      LetterOfKey(s, i, k, 1, 'p');
      LetterOfKey(s, i, k, 2, 'i');
      LetterOfKey(s, i, k, 3, '_');
      LetterOfKey(s, i, k, 4, 'k');
      LetterOfKey(s, i, k, 5, 'e');
      LetterOfKey(s, i, k, 6, 'y');
    } else if w == "api key" {
      LetterOfKey(s, i, k, 0, 'a');
      LetterOfKey(s, i, k, 1, 'p');
      LetterOfKey(s, i, k, 2, 'i');
      LetterOfKey(s, i, k, 3, ' ');
      LetterOfKey(s, i, k, 4, 'k');
      LetterOfKey(s, i, k, 5, 'e');
      LetterOfKey(s, i, k, 6, 'y');
    } else {
      LetterOfKey(s, i, k, 0, 'a');
      LetterOfKey(s, i, k, 1, 'p');
      LetterOfKey(s, i, k, 2, 'i');
      LetterOfKey(s, i, k, 3, 'k');
      LetterOfKey(s, i, k, 4, 'e');
      LetterOfKey(s, i, k, 5, 'y');
      assert !IsKeySeparator(s[i + 3]);
    }
  }

  lemma KeyEndSecretToken(s: string, i: int, k: int)
    requires 0 <= i <= k <= |s| && Lower(s[i..k]) in {"secret", "token"}
    ensures KeyEnd(s, i) == Some(k)
  {
    var w := Lower(s[i..k]);
    if w == "secret" {
      LetterOfKey(s, i, k, 0, 's');
      LetterOfKey(s, i, k, 1, 'e');
      LetterOfKey(s, i, k, 2, 'c');
      LetterOfKey(s, i, k, 3, 'r');
      LetterOfKey(s, i, k, 4, 'e');
      LetterOfKey(s, i, k, 5, 't');
    } else {
      LetterOfKey(s, i, k, 0, 't');
      LetterOfKey(s, i, k, 1, 'o');
      LetterOfKey(s, i, k, 2, 'k');
      LetterOfKey(s, i, k, 3, 'e');
      LetterOfKey(s, i, k, 4, 'n');
    }
  }

  lemma KeyEndPassword(s: string, i: int, k: int)
    requires 0 <= i <= k <= |s| && Lower(s[i..k]) == "password"
    ensures KeyEnd(s, i) == Some(k)
  {
    LetterOfKey(s, i, k, 0, 'p');
    LetterOfKey(s, i, k, 1, 'a');
    LetterOfKey(s, i, k, 2, 's');
    LetterOfKey(s, i, k, 3, 's');
    LetterOfKey(s, i, k, 4, 'w');
    LetterOfKey(s, i, k, 5, 'o');
    LetterOfKey(s, i, k, 6, 'r');
    LetterOfKey(s, i, k, 7, 'd');
  }

  /** No key word holds a `:`, an `=` or a quote. */
  lemma KeyCharacters(w: string, t: int)
    requires IsKey(w) && 0 <= t < |w|
    ensures w[t] != ':' && w[t] != '=' && !IsQuote(w[t])
  {
    assert Lower(w)[t] == LowerChar(w[t]);
  }

  // ---------------------------------------------------------------------
  // Runs of whitespace and of value characters (greedy `\s*` and `[^'"\n]+`)

  /** Where the run of whitespace (`\s`, Python's notion of whitespace) from `j` ends. */
  function SpaceEnd(s: string, j: int): (r: int)
    requires 0 <= j <= |s|
    ensures j <= r <= |s| && AllSpace(s, j, r) && (r == |s| || !IsSpace(s[r]))
    decreases |s| - j
  {
    if j < |s| && IsSpace(s[j]) then SpaceEnd(s, j + 1) else j
  }

  /** Where the run of value characters from `j` ends: at the first quote, line break or the end. */
  function ValueEnd(s: string, j: int): (r: int)
    requires 0 <= j <= |s|
    ensures j <= r <= |s| && AllValue(s, j, r) && (r == |s| || !IsValueChar(s[r]))
    decreases |s| - j
  {
    if j < |s| && IsValueChar(s[j]) then ValueEnd(s, j + 1) else j
  }

  // ---------------------------------------------------------------------
  // The `KEY = "value"` expression

  /** A match of the first expression: where the key ends, the `=`, and the two quotes. */
  datatype Assign = Assign(keyEnd: int, eq: int, open: int, close: int)

  /**
   * The text from `i` to just after `m.close` is a match of
   * `\b(key)\s*=\s*(['"])[^'"\n]+(['"])`, with its parts where `m` says.
   */
  predicate AssignShape(s: string, i: int, m: Assign)
  {
    0 <= i < m.keyEnd <= m.eq < m.open && m.open + 1 < m.close < |s| &&
    AtWordStart(s, i) && IsKey(s[i..m.keyEnd]) &&
    AllSpace(s, m.keyEnd, m.eq) && s[m.eq] == '=' &&
    AllSpace(s, m.eq + 1, m.open) && IsQuote(s[m.open]) &&
    AllValue(s, m.open + 1, m.close) && IsQuote(s[m.close])
  }

  /** The first expression tried at `i`: every part is greedy and none can give back, so it is a straight scan. */
  function MatchAssign(s: string, i: int): (r: Option<Assign>)
    requires 0 <= i <= |s|
    ensures r.Some? ==> i < r.value.keyEnd < r.value.open < r.value.close < |s|
  {
    if !AtWordStart(s, i) then None
    else match KeyEnd(s, i)
      case None => None
      case Some(k) =>
        var a := SpaceEnd(s, k);
        if a == |s| || s[a] != '=' then None
        else
          var b := SpaceEnd(s, a + 1);
          if b == |s| || !IsQuote(s[b]) then None
          else
            var c := ValueEnd(s, b + 1);
            if c == b + 1 || c == |s| || !IsQuote(s[c]) then None
            else Some(Assign(k, a, b, c))
  }

  /** What `MatchAssign` finds is a match. */
  lemma MatchAssignSound(s: string, i: int)
    requires 0 <= i <= |s|
    ensures MatchAssign(s, i).Some? ==> AssignShape(s, i, MatchAssign(s, i).value)
  {
    if KeyEnd(s, i).Some? {
      KeyEndSound(s, i);
    }
  }

  /** The first expression matches at `i` in exactly one way, and `MatchAssign` finds it. */
  lemma MatchAssignComplete(s: string, i: int, m: Assign)
    requires AssignShape(s, i, m)
    ensures MatchAssign(s, i) == Some(m)
  {
    KeyEndComplete(s, i, m.keyEnd);
    assert SpaceEnd(s, m.keyEnd) == m.eq;
    assert SpaceEnd(s, m.eq + 1) == m.open;
    assert ValueEnd(s, m.open + 1) == m.close;
  }

  // ---------------------------------------------------------------------
  // The `KEY: value` expression

  /**
   * A match of the second expression: where the key ends, the `:`, where
   * the whitespace after it stops, where the value starts (one past an
   * opening quote when the optional quote is taken) and where it ends.
   */
  datatype Colon = Colon(keyEnd: int, colon: int, spaceEnd: int, valueStart: int, end: int)

  /** The text from `i` to `m.end` is a match of `\b(key)\s*[:]\s*['"]?[^'"\n]+`, split as `m` says. */
  predicate ColonShape(s: string, i: int, m: Colon)
  {
    0 <= i < m.keyEnd <= m.colon < |s| &&
    AtWordStart(s, i) && IsKey(s[i..m.keyEnd]) &&
    AllSpace(s, m.keyEnd, m.colon) && s[m.colon] == ':' &&
    ValueShape(s, m)
  }

  /** The part of a match behind the `:`: `\s*['"]?[^'"\n]+`, split as `m` says. */
  predicate ValueShape(s: string, m: Colon)
  {
    0 <= m.colon < m.spaceEnd <= m.valueStart < m.end <= |s| &&
    AllSpace(s, m.colon + 1, m.spaceEnd) &&
    (m.valueStart == m.spaceEnd || (m.valueStart == m.spaceEnd + 1 && IsQuote(s[m.spaceEnd]))) &&
    AllValue(s, m.valueStart, m.end)
  }

  /**
   * The order in which the engine tries the ways to match: more whitespace
   * before fewer, the optional quote taken before left out, a longer value
   * before a shorter one. `RanksBelow(x, y)`: `x` is not tried before `y`.
   */
  predicate RanksBelow(x: Colon, y: Colon)
  {
    x.spaceEnd < y.spaceEnd ||
    (x.spaceEnd == y.spaceEnd && (x.valueStart < y.valueStart || (x.valueStart == y.valueStart && x.end <= y.end)))
  }

  /**
   * The engine's search after the `:` at `a`: the whitespace run stops at
   * `t`; take the optional quote and a value behind it if there is one,
   * else a value right at `t`, else give back one whitespace character.
   */
  function Backtrack(s: string, k: int, a: int, t: int): (r: Option<Colon>)
    requires 0 <= k <= a < t <= |s| && AllSpace(s, a + 1, t)
    ensures r.Some? ==> r.value.keyEnd == k && r.value.colon == a && a < r.value.end <= |s|
    decreases t
  {
    if t + 1 < |s| && IsQuote(s[t]) && IsValueChar(s[t + 1]) then Some(Colon(k, a, t, t + 1, ValueEnd(s, t + 1)))
    else if t < |s| && IsValueChar(s[t]) then Some(Colon(k, a, t, t, ValueEnd(s, t)))
    else if t > a + 1 then Backtrack(s, k, a, t - 1)
    else None
  }

  /** What the search finds is a way to match behind the `:` at `a`, giving back no more than the whitespace up to `t`. */
  lemma {:induction false} BacktrackSound(s: string, k: int, a: int, t: int)
    requires 0 <= k <= a < t <= |s| && AllSpace(s, a + 1, t)
    ensures var r := Backtrack(s, k, a, t);
      r.Some? ==> r.value.keyEnd == k && r.value.colon == a && r.value.spaceEnd <= t && ValueShape(s, r.value)
    decreases t
  {
    if t + 1 < |s| && IsQuote(s[t]) && IsValueChar(s[t + 1]) {
    } else if t < |s| && IsValueChar(s[t]) {
    } else if t > a + 1 {
      BacktrackSound(s, k, a, t - 1);
    }
  }

  /** The second expression tried at `i`: the first way to match in the engine's order, if any. */
  function MatchColon(s: string, i: int): (r: Option<Colon>)
    requires 0 <= i <= |s|
    ensures r.Some? ==> i < r.value.keyEnd < r.value.end <= |s|
  {
    if !AtWordStart(s, i) then None
    else match KeyEnd(s, i)
      case None => None
      case Some(k) =>
        var a := SpaceEnd(s, k);
        if a == |s| || s[a] != ':' then None
        else Backtrack(s, k, a, SpaceEnd(s, a + 1))
  }

  /** What `MatchColon` finds is a match. */
  lemma MatchColonSound(s: string, i: int)
    requires 0 <= i <= |s|
    ensures MatchColon(s, i).Some? ==> ColonShape(s, i, MatchColon(s, i).value)
  {
    if AtWordStart(s, i) && KeyEnd(s, i).Some? {
      var k := KeyEnd(s, i).value;
      KeyEndSound(s, i);
      var a := SpaceEnd(s, k);
      if a < |s| && s[a] == ':' {
        BacktrackSound(s, k, a, SpaceEnd(s, a + 1));
      }
    }
  }

  /** The search from `t` down finds a match, and none it skips is tried before the one it finds. */
  lemma {:induction false} BacktrackFirst(s: string, m: Colon, t: int)
    requires 0 <= m.keyEnd <= m.colon && ValueShape(s, m) && m.spaceEnd <= t <= |s| && AllSpace(s, m.colon + 1, t)
    ensures Backtrack(s, m.keyEnd, m.colon, t).Some? && RanksBelow(m, Backtrack(s, m.keyEnd, m.colon, t).value)
    decreases t
  {
    if t + 1 < |s| && IsQuote(s[t]) && IsValueChar(s[t + 1]) {
    } else if t < |s| && IsValueChar(s[t]) {
    } else if m.spaceEnd < t {
      BacktrackFirst(s, m, t - 1);
    }
  }

  /**
   * Whenever the second expression can match at `i`, `MatchColon` finds a
   * match, and it is the one the engine tries first.
   */
  lemma MatchColonFirst(s: string, i: int, m: Colon)
    requires ColonShape(s, i, m)
    ensures MatchColon(s, i).Some? && RanksBelow(m, MatchColon(s, i).value)
  {
    ColonPrefix(s, i, m);
    MatchColonSearch(s, i, m);
  }

  lemma MatchColonSearch(s: string, i: int, m: Colon)
    requires 0 <= i < m.keyEnd <= m.colon < |s| && AtWordStart(s, i) && KeyEnd(s, i) == Some(m.keyEnd)
    requires SpaceEnd(s, m.keyEnd) == m.colon && s[m.colon] == ':'
    requires ValueShape(s, m) && m.spaceEnd <= SpaceEnd(s, m.colon + 1)
    ensures MatchColon(s, i).Some? && RanksBelow(m, MatchColon(s, i).value)
  {
    MatchColonAfterColon(s, i, m.keyEnd, m.colon);
    BacktrackFromSpaceEnd(s, m);
  }

  /** The search started where the whitespace after the `:` ends finds `m` or a way tried before it. */
  lemma BacktrackFromSpaceEnd(s: string, m: Colon)
    requires 0 <= m.keyEnd <= m.colon < |s| && ValueShape(s, m) && m.spaceEnd <= SpaceEnd(s, m.colon + 1)
    ensures Backtrack(s, m.keyEnd, m.colon, SpaceEnd(s, m.colon + 1)).Some?
    ensures RanksBelow(m, Backtrack(s, m.keyEnd, m.colon, SpaceEnd(s, m.colon + 1)).value)
  {
    BacktrackFirst(s, m, SpaceEnd(s, m.colon + 1));
  }

  /** In any match of the second expression the key and the `:` are where the scan finds them. */
  lemma ColonPrefix(s: string, i: int, m: Colon)
    requires ColonShape(s, i, m)
    ensures KeyEnd(s, i) == Some(m.keyEnd) && SpaceEnd(s, m.keyEnd) == m.colon
    ensures m.spaceEnd <= SpaceEnd(s, m.colon + 1)
  {
    KeyEndComplete(s, i, m.keyEnd);
  }

  /** Once the key and the `:` are found, the second expression is the search behind the `:`. */
  lemma MatchColonAfterColon(s: string, i: int, k: int, a: int)
    requires 0 <= i < k <= a < |s| && AtWordStart(s, i) && KeyEnd(s, i) == Some(k)
    requires SpaceEnd(s, k) == a && s[a] == ':'
    ensures MatchColon(s, i) == Backtrack(s, k, a, SpaceEnd(s, a + 1))
  {
  }

  // ---------------------------------------------------------------------
  // Replace-all, left to right, and `redact_string`

  /** What a secret value is replaced with. */
  const Redacted := "<REDACTED>"

  /** `re.sub` with the first expression and `\1=\2<REDACTED>\3`, from position `i` on. */
  function SubAssign(s: string, i: int): string
    requires 0 <= i <= |s|
    decreases |s| - i
  {
    if i == |s| then []
    else match MatchAssign(s, i)
      case Some(m) => s[i..m.keyEnd] + "=" + [s[m.open]] + Redacted + [s[m.close]] + SubAssign(s, m.close + 1)
      case None => [s[i]] + SubAssign(s, i + 1)
  }

  /** `re.sub` with the second expression and `\1: <REDACTED>`, from position `i` on. */
  function SubColon(s: string, i: int): string
    requires 0 <= i <= |s|
    decreases |s| - i
  {
    if i == |s| then []
    else match MatchColon(s, i)
      case Some(m) => s[i..m.keyEnd] + ": " + Redacted + SubColon(s, m.end)
      case None => [s[i]] + SubColon(s, i + 1)
  }

  /** `redact_string`: the second substitution over the result of the first. */
  function RedactString(s: string): string
  {
    var out := SubAssign(s, 0);
    SubColon(out, 0)
  }

  /** Where the expression does not match, the character is copied. */
  lemma SubAssignCopies(s: string, i: int)
    requires 0 <= i < |s| && MatchAssign(s, i).None?
    ensures SubAssign(s, i) == [s[i]] + SubAssign(s, i + 1)
  {
  }

  /** `SubAssign` from any position, the empty string outside `0..|s|`. */
  function SubAssignFrom(s: string, i: int): string
  {
    if 0 <= i <= |s| then SubAssign(s, i) else []
  }

  /** `SubColon` from any position, the empty string outside `0..|s|`. */
  function SubColonFrom(s: string, i: int): string
  {
    if 0 <= i <= |s| then SubColon(s, i) else []
  }

  /**
    * A substitution `f` that copies every character of `i..j` copies the
    * whole stretch in front of what it makes of the rest.
    */
  lemma {:induction false} CopyRun(f: (string, int) -> string, s: string, i: int, j: int)
    requires 0 <= i <= j <= |s|
    requires forall t :: i <= t < j ==> f(s, t) == [s[t]] + f(s, t + 1)
    ensures f(s, i) == s[i..j] + f(s, j)
    decreases j - i
  {
    if i < j {
      CopyRun(f, s, i + 1, j);
      assert s[i..j] == [s[i]] + s[i + 1..j];
    }
  }

  /** The first expression matches nowhere in `i..j`. */
  predicate NoAssignIn(s: string, i: int, j: int)
    requires 0 <= i <= j <= |s|
  {
    forall t :: i <= t < j ==> MatchAssign(s, t).None?
  }

  /** Text where the first expression matches nowhere is copied as it is. */
  lemma SubAssignSkip(s: string, i: int, j: int)
    requires 0 <= i <= j <= |s| && NoAssignIn(s, i, j)
    ensures SubAssign(s, i) == s[i..j] + SubAssign(s, j)
  {
    forall t | i <= t < j
      ensures SubAssignFrom(s, t) == [s[t]] + SubAssignFrom(s, t + 1)
    {
      SubAssignCopies(s, t);
    }
    CopyRun(SubAssignFrom, s, i, j);
  }

  /** Where the expression does not match, the character is copied. */
  lemma SubColonCopies(s: string, i: int)
    requires 0 <= i < |s| && MatchColon(s, i).None?
    ensures SubColon(s, i) == [s[i]] + SubColon(s, i + 1)
  {
  }

  /** The second expression matches nowhere in `i..j`. */
  predicate NoColonIn(s: string, i: int, j: int)
    requires 0 <= i <= j <= |s|
  {
    forall t :: i <= t < j ==> MatchColon(s, t).None?
  }

  /** Text where the second expression matches nowhere is copied as it is. */
  lemma SubColonSkip(s: string, i: int, j: int)
    requires 0 <= i <= j <= |s| && NoColonIn(s, i, j)
    ensures SubColon(s, i) == s[i..j] + SubColon(s, j)
  {
    forall t | i <= t < j
      ensures SubColonFrom(s, t) == [s[t]] + SubColonFrom(s, t + 1)
    {
      SubColonCopies(s, t);
    }
    CopyRun(SubColonFrom, s, i, j);
  }

  /** Without a quote character the first substitution changes nothing. */
  lemma NoQuoteKeepsAssign(s: string)
    requires forall t :: 0 <= t < |s| ==> !IsQuote(s[t])
    ensures SubAssign(s, 0) == s
  {
    forall t | 0 <= t < |s|
      ensures MatchAssign(s, t).None?
    {
      MatchAssignSound(s, t);
    }
    SubAssignSkip(s, 0, |s|);
  }

  /** Without a `:` the second substitution changes nothing. */
  lemma NoColonKeepsColon(s: string)
    requires forall t :: 0 <= t < |s| ==> s[t] != ':'
    ensures SubColon(s, 0) == s
  {
    forall t | 0 <= t < |s|
      ensures MatchColon(s, t).None?
    {
      MatchColonSound(s, t);
    }
    SubColonSkip(s, 0, |s|);
  }

  /** Without an `=` the first substitution changes nothing. */
  lemma NoEqualsKeepsAssign(s: string)
    requires forall t :: 0 <= t < |s| ==> s[t] != '='
    ensures SubAssign(s, 0) == s
  {
    forall t | 0 <= t < |s|
      ensures MatchAssign(s, t).None?
    {
      MatchAssignSound(s, t);
    }
    SubAssignSkip(s, 0, |s|);
  }

  /** Text that holds none of the key words right after a word boundary comes back unchanged. */
  lemma RedactKeepsKeylessText(s: string)
    requires forall t, k :: 0 <= t <= k <= |s| && AtWordStart(s, t) ==> !IsKey(s[t..k])
    ensures RedactString(s) == s
  {
    forall t | 0 <= t < |s|
      ensures MatchAssign(s, t).None? && MatchColon(s, t).None?
    {
      MatchAssignSound(s, t);
      MatchColonSound(s, t);
    }
    SubAssignSkip(s, 0, |s|);
    SubColonSkip(s, 0, |s|);
    assert s[0..|s|] == s;
    assert SubAssign(s, 0) == s;
    assert SubColon(s, 0) == s;
  }

  /** Every character of `w` is whitespace. */
  predicate Spaces(w: string)
  {
    forall t :: 0 <= t < |w| ==> IsSpace(w[t])
  }

  /** Every character of `w` is a value character. */
  predicate Values(w: string)
  {
    forall t :: 0 <= t < |w| ==> IsValueChar(w[t])
  }

  /** Where the first expression matches, its text is replaced and the scan goes on after it. */
  lemma SubAssignReplaces(s: string, i: int)
    requires 0 <= i < |s| && MatchAssign(s, i).Some?
    ensures var m := MatchAssign(s, i).value;
      SubAssign(s, i) == s[i..m.keyEnd] + "=" + [s[m.open]] + Redacted + [s[m.close]] + SubAssign(s, m.close + 1)
  {
  }

  /** Where the second expression matches, its text is replaced and the scan goes on after it. */
  lemma SubColonReplaces(s: string, i: int)
    requires 0 <= i < |s| && MatchColon(s, i).Some?
    ensures var m := MatchColon(s, i).value;
      SubColon(s, i) == s[i..m.keyEnd] + ": " + Redacted + SubColon(s, m.end)
  {
  }

  /** The parts of a line `KEY = 'value'` make a match of the first expression spanning the line. */
  lemma AssignLineShape(s: string, key: string, sp1: string, sp2: string, q1: char, v: string, q2: char)
    requires s == key + sp1 + "=" + sp2 + [q1] + v + [q2]
    requires IsKey(key) && Spaces(sp1) && Spaces(sp2) && IsQuote(q1) && IsQuote(q2) && v != [] && Values(v)
    ensures key != [] && AssignShape(s, 0, Assign(|key|, |key| + |sp1|, |key| + |sp1| + 1 + |sp2|, |s| - 1))
  {
    var eq := |key| + |sp1|;
    var open := eq + 1 + |sp2|;
    assert s[..|key|] == key;
    assert forall t :: |key| <= t < eq ==> s[t] == sp1[t - |key|];
    assert forall t :: eq + 1 <= t < open ==> s[t] == sp2[t - eq - 1];
    assert forall t :: open + 1 <= t < |s| - 1 ==> s[t] == v[t - open - 1];
    assert s[eq] == '=' && s[open] == q1 && s[|s| - 1] == q2;
  }

  /** The masked form of a key holds no `:`. */
  lemma MaskedHasNoColon(key: string, q1: char, q2: char)
    requires IsKey(key) && IsQuote(q1) && IsQuote(q2)
    ensures var out := key + "=" + [q1] + Redacted + [q2];
      forall t :: 0 <= t < |out| ==> out[t] != ':'
  {
    var tail := "=" + [q1] + Redacted + [q2];
    assert tail == ['=', q1, '<', 'R', 'E', 'D', 'A', 'C', 'T', 'E', 'D', '>', q2];
    var out := key + "=" + [q1] + Redacted + [q2];
    assert out == key + tail;
    forall t | 0 <= t < |out|
      ensures out[t] != ':'
    {
      if t < |key| {
        KeyCharacters(key, t);
      } else {
        var u := t - |key|;
        assert out[t] == tail[u];
        assert u == 0 || u == 1 || u == 2 || u == 3 || u == 4 || u == 5 || u == 6 || u == 7 || u == 8 ||
               u == 9 || u == 10 || u == 11 || u == 12;
      }
    }
  }

  /**
   * A line `KEY = 'value'` (any whitespace around `=`, either quote on each
   * side, a value without quotes or line breaks) becomes `KEY='<REDACTED>'`:
   * the key keeps its letters, the whitespace goes, both quotes stay.
   */
  lemma AssignLineRedacted(s: string, key: string, sp1: string, sp2: string, q1: char, v: string, q2: char)
    requires s == key + sp1 + "=" + sp2 + [q1] + v + [q2]
    requires IsKey(key) && Spaces(sp1) && Spaces(sp2) && IsQuote(q1) && IsQuote(q2) && v != [] && Values(v)
    ensures RedactString(s) == key + "=" + [q1] + Redacted + [q2]
  {
    AssignLineShape(s, key, sp1, sp2, q1, v, q2);
    var m := Assign(|key|, |key| + |sp1|, |key| + |sp1| + 1 + |sp2|, |s| - 1);
    MatchAssignComplete(s, 0, m);
    SubAssignReplaces(s, 0);
    assert s[0..|key|] == key;
    var out := key + "=" + [q1] + Redacted + [q2];
    assert SubAssign(s, 0) == out;
    MaskedHasNoColon(key, q1, q2);
    NoColonKeepsColon(out);
  }

  /** The parts of a line `KEY: value` make a match of the second expression spanning the line. */
  lemma ColonLineShape(s: string, key: string, sp1: string, sp2: string, v: string)
    requires s == key + sp1 + ":" + sp2 + v
    requires IsKey(key) && Spaces(sp1) && Spaces(sp2) && v != [] && Values(v)
    ensures var r := |key| + |sp1| + 1 + |sp2|;
      key != [] && ColonShape(s, 0, Colon(|key|, |key| + |sp1|, r, r, |s|)) && s[r] == v[0]
  {
    var colon := |key| + |sp1|;
    var r := colon + 1 + |sp2|;
    assert s[..|key|] == key;
    assert forall t :: |key| <= t < colon ==> s[t] == sp1[t - |key|];
    assert forall t :: colon + 1 <= t < r ==> s[t] == sp2[t - colon - 1];
    assert forall t :: r <= t < |s| ==> s[t] == v[t - r];
    assert s[colon] == ':';
  }

  /** A line `KEY: value` holds no quote, so the first substitution leaves it alone. */
  lemma ColonLineKeepsAssign(s: string, key: string, sp1: string, sp2: string, v: string)
    requires s == key + sp1 + ":" + sp2 + v
    requires IsKey(key) && Spaces(sp1) && Spaces(sp2) && Values(v)
    ensures SubAssign(s, 0) == s
  {
    forall t | 0 <= t < |s|
      ensures !IsQuote(s[t])
    {
      if t < |key| {
        KeyCharacters(key, t);
        assert s[t] == key[t];
      } else if t < |key| + |sp1| {
        assert s[t] == sp1[t - |key|];
      } else if |key| + |sp1| < t < |key| + |sp1| + 1 + |sp2| {
        assert s[t] == sp2[t - |key| - |sp1| - 1];
      } else if t > |key| + |sp1| {
        assert s[t] == v[t - |key| - |sp1| - 1 - |sp2|];
      }
    }
    NoQuoteKeepsAssign(s);
  }

  /**
   * A line `KEY: value` (any whitespace around `:`, a value that starts
   * with neither whitespace nor a quote and holds no quote or line break)
   * becomes `KEY: <REDACTED>`.
   */
  lemma ColonLineRedacted(s: string, key: string, sp1: string, sp2: string, v: string)
    requires s == key + sp1 + ":" + sp2 + v
    requires IsKey(key) && Spaces(sp1) && Spaces(sp2) && v != [] && Values(v) && !IsSpace(v[0])
    ensures RedactString(s) == key + ": " + Redacted
  {
    ColonLineKeepsAssign(s, key, sp1, sp2, v);
    ColonLineMatch(s, key, sp1, sp2, v);
    SubColonReplaces(s, 0);
    assert s[0..|key|] == key;
  }

  lemma ColonLineMatch(s: string, key: string, sp1: string, sp2: string, v: string)
    requires s == key + sp1 + ":" + sp2 + v
    requires IsKey(key) && Spaces(sp1) && Spaces(sp2) && v != [] && Values(v) && !IsSpace(v[0])
    ensures MatchColon(s, 0).Some? && MatchColon(s, 0).value.keyEnd == |key| && MatchColon(s, 0).value.end == |s|
  {
    ColonLineShape(s, key, sp1, sp2, v);
    var r := |key| + |sp1| + 1 + |sp2|;
    var m := Colon(|key|, |key| + |sp1|, r, r, |s|);
    MatchColonFirst(s, 0, m);
    MatchColonSound(s, 0);
    var found := MatchColon(s, 0).value;
    KeyEndComplete(s, 0, found.keyEnd);
    KeyEndComplete(s, 0, |key|);
    assert found.spaceEnd == r;
  }

  /** Text where neither expression matches anywhere comes back unchanged. */
  lemma RedactKeepsUnmatched(s: string)
    requires NoAssignIn(s, 0, |s|) && NoColonIn(s, 0, |s|)
    ensures RedactString(s) == s
  {
    SubAssignSkip(s, 0, |s|);
    SubColonSkip(s, 0, |s|);
    assert s[0..|s|] == s;
    assert SubAssign(s, 0) == s;
    assert SubColon(s, 0) == s;
  }

  // ---------------------------------------------------------------------
  // Lines neither expression touches, and what the backtracking leaves

  /** `\b`: a key word that continues a longer word (`mysecret`) is matched by neither expression. */
  lemma KeyInsideWordNoMatch(s: string, t: int)
    requires 0 < t <= |s| && IsWordChar(s[t - 1])
    ensures MatchAssign(s, t).None? && MatchColon(s, t).None?
  {
  }

  /** A key word followed directly by a quote, as in the JSON pair `"password": "x"`, is matched by neither expression. */
  lemma KeyThenQuoteNoMatch(s: string, t: int, k: int)
    requires 0 <= t < k < |s| && IsKey(s[t..k]) && IsQuote(s[k])
    ensures MatchAssign(s, t).None? && MatchColon(s, t).None?
  {
    KeyEndComplete(s, t, k);
  }

  /** A run of whitespace stops at the first character that is not whitespace. */
  lemma SpaceEndStops(s: string, a: int, b: int)
    requires 0 <= a <= b < |s| && AllSpace(s, a, b) && !IsSpace(s[b])
    ensures SpaceEnd(s, a) == b
  {
  }

  /**
   * The scan of a line that holds a key word up to `k`, whitespace up to
   * the `:` at `a`, and whitespace up to `r`, where something else starts.
   */
  lemma ColonScan(s: string, k: int, a: int, r: int)
    requires 0 < k <= a < r < |s| && IsKey(s[0..k]) && AllSpace(s, k, a) && s[a] == ':'
    requires AllSpace(s, a + 1, r) && !IsSpace(s[r])
    ensures KeyEnd(s, 0) == Some(k) && SpaceEnd(s, k) == a && SpaceEnd(s, a + 1) == r
  {
    KeyEndComplete(s, 0, k);
    SpaceEndStops(s, k, a);
    SpaceEndStops(s, a + 1, r);
  }

  /** The key word, the whitespace and the `:` of such a line hold no `=` and no quote. */
  lemma ColonPartsPlain(s: string, k: int, a: int, r: int)
    requires 0 < k <= a < r <= |s| && IsKey(s[0..k]) && AllSpace(s, k, a) && s[a] == ':' && AllSpace(s, a + 1, r)
    ensures forall t :: 0 <= t < r ==> s[t] != '=' && !IsQuote(s[t])
  {
    forall t | 0 <= t < k
      ensures s[t] != '=' && !IsQuote(s[t])
    {
      KeyCharacters(s[0..k], t);
    }
  }

  /** No key word starts with a quote. */
  lemma QuoteStartsNoMatch(s: string, i: int)
    requires 0 <= i < |s| && IsQuote(s[i])
    ensures MatchColon(s, i).None?
  {
    assert KeyEnd(s, i).None?;
  }

  lemma QuotesCopied(s: string, i: int)
    requires 0 <= i <= |s| && forall t :: i <= t < |s| ==> IsQuote(s[t])
    ensures SubColon(s, i) == s[i..]
  {
    forall t | i <= t < |s|
      ensures MatchColon(s, t).None?
    {
      QuoteStartsNoMatch(s, t);
    }
    SubColonSkip(s, i, |s|);
  }

  /**
   * A quoted value after `:`: the optional quote is taken, the value stops
   * in front of the closing quote, and that quote stays behind the mask, so
   * `password: "x"` becomes `password: <REDACTED>"`. The line holds a key
   * word up to `k`, whitespace, the `:` at `a`, whitespace, a quote at `r`,
   * a value, and a quote that ends it.
   */
  lemma ColonLineQuoted(s: string, k: int, a: int, r: int)
    requires 0 < k <= a < r && r + 1 < |s| - 1
    requires IsKey(s[0..k]) && AllSpace(s, k, a) && s[a] == ':' && AllSpace(s, a + 1, r)
    requires IsQuote(s[r]) && AllValue(s, r + 1, |s| - 1) && IsQuote(s[|s| - 1])
    ensures RedactString(s) == s[0..k] + ": " + Redacted + [s[|s| - 1]]
  {
    QuotedLineNoAssign(s, k, a, r);
    QuotedColonMatch(s, k, a, r);
    RedactOneColonMatch(s, s[0..k], |s| - 1);
    assert s[|s| - 1..] == [s[|s| - 1]];
  }

  /**
   * Such a line holds two quotes, at `r` and at the end, and no `=` behind
   * the `:`, so the first expression finds no match in it.
   */
  lemma QuotedLineNoAssign(s: string, k: int, a: int, r: int)
    requires 0 < k <= a < r && r + 1 < |s| - 1
    requires IsKey(s[0..k]) && AllSpace(s, k, a) && s[a] == ':' && AllSpace(s, a + 1, r)
    requires IsQuote(s[r]) && AllValue(s, r + 1, |s| - 1) && IsQuote(s[|s| - 1])
    ensures SubAssign(s, 0) == s
  {
    ColonPartsPlain(s, k, a, r);
    assert forall u :: 0 <= u < |s| && IsQuote(s[u]) ==> u == r || u == |s| - 1;
    forall t | 0 <= t < |s|
      ensures MatchAssign(s, t).None?
    {
      QuotedLineNoAssignAt(s, r, t);
    }
    SubAssignSkip(s, 0, |s|);
    assert s[0..|s|] == s;
  }

  lemma QuotedLineNoAssignAt(s: string, r: int, t: int)
    requires 0 <= r < |s| - 1 && 0 <= t < |s|
    requires forall u :: 0 <= u < r ==> s[u] != '='
    requires forall u :: 0 <= u < |s| && IsQuote(s[u]) ==> u == r || u == |s| - 1
    ensures MatchAssign(s, t).None?
  {
    // A match needs two quotes with a character between them and an `=` before the first.
    MatchAssignSound(s, t);
  }

  lemma QuotedColonMatch(s: string, k: int, a: int, r: int)
    requires 0 < k <= a < r && r + 1 < |s| - 1
    requires IsKey(s[0..k]) && AllSpace(s, k, a) && s[a] == ':' && AllSpace(s, a + 1, r)
    requires IsQuote(s[r]) && AllValue(s, r + 1, |s| - 1) && IsQuote(s[|s| - 1])
    ensures MatchColon(s, 0) == Some(Colon(k, a, r, r + 1, |s| - 1))
  {
    ColonScan(s, k, a, r);
    QuotedValueMatch(s, k, a, r);
  }

  /** After `:` and its whitespace, an opening quote and a value up to a quote that ends the text. */
  lemma QuotedValueMatch(s: string, k: int, a: int, r: int)
    requires 0 < k <= a < r && r + 1 < |s| - 1
    requires KeyEnd(s, 0) == Some(k) && SpaceEnd(s, k) == a && s[a] == ':' && SpaceEnd(s, a + 1) == r
    requires IsQuote(s[r]) && AllValue(s, r + 1, |s| - 1) && IsQuote(s[|s| - 1])
    ensures MatchColon(s, 0) == Some(Colon(k, a, r, r + 1, |s| - 1))
  {
    assert ValueEnd(s, r + 1) == |s| - 1;
  }

  /**
   * A text that the first substitution leaves alone, where the second
   * expression matches once at the start up to `e` and only quotes follow.
   */
  lemma RedactOneColonMatch(s: string, key: string, e: int)
    requires 0 < |key| < e <= |s| && s[0..|key|] == key && SubAssign(s, 0) == s
    requires MatchColon(s, 0).Some? && MatchColon(s, 0).value.keyEnd == |key| && MatchColon(s, 0).value.end == e
    requires forall t :: e <= t < |s| ==> IsQuote(s[t])
    ensures RedactString(s) == key + ": " + Redacted + s[e..]
  {
    SubColonReplaces(s, 0);
    QuotesCopied(s, e);
  }

  /**
   * An empty quoted value after `:` and whitespace: nothing fits behind the
   * opening quote, so the engine gives back the last whitespace character
   * and takes it as the value; both quotes stay behind the mask, so
   * `password: ""` becomes `password: <REDACTED>""`. The line holds a key
   * word up to `k`, whitespace, the `:` at `a`, whitespace up to `r` that
   * does not end in a line break, and two quotes.
   */
  lemma ColonLineEmptyQuoted(s: string, k: int, a: int, r: int)
    requires 0 < k <= a && a + 1 < r && r + 2 == |s|
    requires IsKey(s[0..k]) && AllSpace(s, k, a) && s[a] == ':' && AllSpace(s, a + 1, r) && s[r - 1] != '\n'
    requires IsQuote(s[r]) && IsQuote(s[r + 1])
    ensures RedactString(s) == s[0..k] + ": " + Redacted + [s[r], s[r + 1]]
  {
    EmptyQuotedNoAssign(s, k, a, r);
    EmptyQuotedMatch(s, k, a, r);
    RedactOneColonMatch(s, s[0..k], r);
    assert s[r..] == [s[r], s[r + 1]];
  }

  lemma EmptyQuotedNoAssign(s: string, k: int, a: int, r: int)
    requires 0 < k <= a && a + 1 < r && r + 2 == |s|
    requires IsKey(s[0..k]) && AllSpace(s, k, a) && s[a] == ':' && AllSpace(s, a + 1, r)
    requires IsQuote(s[r]) && IsQuote(s[r + 1])
    ensures SubAssign(s, 0) == s
  {
    ColonPartsPlain(s, k, a, r);
    assert forall t :: 0 <= t < |s| && IsQuote(s[t]) ==> t == r || t == r + 1;
    forall t | 0 <= t < |s|
      ensures MatchAssign(s, t).None?
    {
      QuotedLineNoAssignAt(s, r, t);
    }
    SubAssignSkip(s, 0, |s|);
    assert s[0..|s|] == s;
  }

  lemma EmptyQuotedMatch(s: string, k: int, a: int, r: int)
    requires 0 < k <= a && a + 1 < r && r + 2 == |s|
    requires IsKey(s[0..k]) && AllSpace(s, k, a) && s[a] == ':' && AllSpace(s, a + 1, r) && s[r - 1] != '\n'
    requires IsQuote(s[r]) && IsQuote(s[r + 1])
    ensures MatchColon(s, 0) == Some(Colon(k, a, r - 1, r - 1, r))
  {
    ColonScan(s, k, a, r);
    GivenBackSpaceMatch(s, k, a, r);
  }

  /** After `:` and whitespace ending in a character other than a line break, two quotes end the text. */
  lemma GivenBackSpaceMatch(s: string, k: int, a: int, r: int)
    requires 0 < k <= a && a + 1 < r && r + 2 == |s|
    requires KeyEnd(s, 0) == Some(k) && SpaceEnd(s, k) == a && s[a] == ':' && SpaceEnd(s, a + 1) == r
    requires IsQuote(s[r]) && IsQuote(s[r + 1]) && s[r - 1] != '\n'
    ensures MatchColon(s, 0) == Some(Colon(k, a, r - 1, r - 1, r))
  {
    assert IsSpace(s[r - 1]);
    assert ValueEnd(s, r - 1) == r;
    assert Backtrack(s, k, a, r) == Backtrack(s, k, a, r - 1);
  }

  /** `token = ""`: the first expression needs at least one character between the quotes. */
  lemma EmptyQuotedValueNoAssign(s: string, k: int, e: int, o: int)
    requires 0 < k <= e < o && o + 1 < |s|
    requires IsKey(s[0..k]) && AllSpace(s, k, e) && s[e] == '=' && AllSpace(s, e + 1, o)
    requires IsQuote(s[o]) && IsQuote(s[o + 1])
    ensures MatchAssign(s, 0).None?
  {
    KeyEndComplete(s, 0, k);
    SpaceEndStops(s, k, e);
    SpaceEndStops(s, e + 1, o);
    assert ValueEnd(s, o + 1) == o + 1;
  }

  /** How the key group reads key words: any case, and in `api key` any one of `-`, `_` or a space, or none. */
  lemma KeyExamples()
    ensures IsKey("API_KEY") && IsKey("Api-Key") && IsKey("api key") && IsKey("ApiKey") && IsKey("PassWord")
    ensures !IsKey("api__key") && !IsKey("passwd") && !IsKey("tokens")
  {
    assert Lower("API_KEY") == "api_key";
    assert Lower("Api-Key") == "api-key";
    assert Lower("api key") == "api key";
    assert Lower("ApiKey") == "apikey";
    assert Lower("PassWord") == "password";
    assert Lower("api__key") == "api__key";
    assert Lower("passwd") == "passwd";
    assert Lower("tokens") == "tokens";
  }
}
