/**
 * The ignore matcher of the packer: the rule list read from `.gptignore` (or
 * the built-in defaults) and the test whether a relative path is ignored.
 * A pattern is one of three kinds, told apart by its text: a trailing `/`
 * makes a prefix rule, otherwise a `*` makes a whole-path glob, otherwise
 * the pattern must equal the path.
 */
module Ignore {
  import opened Text
  import opened Paths
  import opened Wrappers

  /** The built-in rule set, used when the project has no `.gptignore`. */
  const DefaultIgnore: seq<string> := [
    // Folders
    ".git/", ".hg/", ".svn/", ".idea/", ".vscode/",
    "__pycache__/", ".mypy_cache/", ".pytest_cache/", ".ruff_cache/",
    "node_modules/", "dist/", "build/", "out/", ".next/", ".cache/",
    ".venv/", "venv/", "static/", "media/", "storage/cache/",
    "storage/chatbots_files/", "storage/logs/", "notebooks/data/",
    // Binaries / big blobs
    "*.png", "*.jpg", "*.jpeg", "*.gif", "*.webp", "*.ico", "*.pdf",
    "*.mp3", "*.mp4", "*.wav", "*.zip", "*.tar", "*.tar.gz", "*.sqlite3",
    // Secrets
    ".env", ".env.*", "secrets.*", "credentials.*", "*service_account*.json",
    "id_rsa", "id_ed25519", "storage-admin.json", "outbound-trunk.json",
    // Noise
    "*.lock", "package-lock.json", "pnpm-lock.yaml", "yarn.lock",
    "*.min.js", "*.min.css", "*.log"
  ]

  /** An ignore rule, with its kind made explicit. */
  datatype Rule =
    | DirPrefix(prefix: string)   // written `prefix/`
    | Glob(pattern: string)       // contains `*`
    | Exact(path: string)

  /** The pattern text a rule is written as. */
  function RuleText(rule: Rule): string
  {
    match rule
    case DirPrefix(prefix) => prefix + "/"
    case Glob(pattern) => pattern
    case Exact(path) => path
  }

  /** The rules that some pattern text classifies as. */
  predicate WellFormed(rule: Rule)
  {
    match rule
    case DirPrefix(_) => true
    case Glob(pattern) => !EndsWith(pattern, "/") && '*' in pattern
    case Exact(path) => !EndsWith(path, "/") && '*' !in path
  }

  /** The kind test of `match_ignore`: trailing `/` first, then `*`, else exact. */
  function Classify(pat: string): (rule: Rule)
    ensures WellFormed(rule) && RuleText(rule) == pat
    ensures rule.DirPrefix? <==> EndsWith(pat, "/")
    ensures rule.Glob? <==> !EndsWith(pat, "/") && '*' in pat
  {
    if EndsWith(pat, "/") then
      assert pat[..|pat| - 1] + "/" == pat;
      DirPrefix(pat[..|pat| - 1])
    else if '*' in pat then Glob(pat)
    else Exact(pat)
  }

  /** Classifying the text of a rule gives the rule back. */
  lemma ClassifyRuleText(rule: Rule)
    requires WellFormed(rule)
    ensures Classify(RuleText(rule)) == rule
  {
    match rule
    case DirPrefix(prefix) =>
      assert EndsWith(prefix + "/", "/");
      assert (prefix + "/")[..|prefix|] == prefix;
    case Glob(_) =>
    case Exact(_) =>
  }

  /**
   * Whether the glob `p` matches the whole of `s`. The pattern is the
   * escaped text with `*` turned into `.*`: a star stands for any run of
   * characters other than a line feed, every other character for itself.
   */
  predicate GlobFull(p: string, s: string)
    decreases |p| + |s|
  {
    if p == [] then s == []
    else if p[0] == '*' then GlobFull(p[1..], s) || (s != [] && s[0] != '\n' && GlobFull(p, s[1..]))
    else s != [] && s[0] == p[0] && GlobFull(p[1..], s[1..])
  }

  /** `re.match("^" + ... + "$", s)`: Python's `$` also matches just before a final line feed. */
  predicate GlobMatches(p: string, s: string)
  {
    GlobFull(p, s) || (s != [] && s[|s| - 1] == '\n' && GlobFull(p, s[..|s| - 1]))
  }

  /** A glob without a star matches exactly its own text. */
  lemma {:induction false} GlobLiteral(p: string, s: string)
    requires '*' !in p
    ensures GlobFull(p, s) <==> s == p
  {
    if p != [] && s != [] {
      GlobLiteral(p[1..], s[1..]);
      if s[1..] == p[1..] && s[0] == p[0] {
        assert s == [s[0]] + s[1..] && p == [p[0]] + p[1..];
      }
    }
  }

  /** `*ext` matches the line-feed-free paths ending in `ext`, at any depth. */
  lemma {:induction false} GlobStarSuffix(ext: string, s: string)
    requires '*' !in ext
    ensures GlobFull("*" + ext, s) <==> EndsWith(s, ext) && '\n' !in s[..|s| - |ext|]
  {
    var p := "*" + ext;
    assert p[0] == '*' && p[1..] == ext;
    GlobLiteral(ext, s);
    if s != [] {
      GlobStarSuffix(ext, s[1..]);
      if |ext| < |s| {
        assert s[1..][|s[1..]| - |ext|..] == s[|s| - |ext|..];
        assert s[..|s| - |ext|] == [s[0]] + s[1..][..|s[1..]| - |ext|];
      }
    }
  }

  /** `pre*` matches the paths that start with `pre` and have no line feed after it. */
  lemma {:induction false} GlobPrefixStar(pre: string, s: string)
    requires '*' !in pre
    ensures GlobFull(pre + "*", s) <==> StartsWith(s, pre) && '\n' !in s[|pre|..]
  {
    if pre == [] {
      assert pre + "*" == "*";
      StarAlone(s);
    } else {
      var p := pre + "*";
      assert p[0] == pre[0] && p[1..] == pre[1..] + "*";
      if s != [] {
        GlobPrefixStar(pre[1..], s[1..]);
        if StartsWith(s[1..], pre[1..]) && s[0] == pre[0] {
          assert s[..|pre|] == [s[0]] + s[1..][..|pre| - 1];
          assert pre == [pre[0]] + pre[1..];
        }
        if StartsWith(s, pre) {
          assert s[1..][..|pre| - 1] == s[1..|pre|];
        }
        assert |pre| <= |s| ==> s[1..][|pre| - 1..] == s[|pre|..];
      }
    }
  }

  /** A lone star matches any text without a line feed. */
  lemma {:induction false} StarAlone(s: string)
    ensures GlobFull("*", s) <==> '\n' !in s
  {
    assert "*"[1..] == [];
    if s != [] {
      StarAlone(s[1..]);
      assert s == [s[0]] + s[1..];
    }
  }

  /** Whether one rule matches a path that already uses `/` separators. */
  predicate RuleMatches(rule: Rule, path: string)
  {
    match rule
    case DirPrefix(prefix) => StartsWith(path, prefix)
    case Glob(pattern) => GlobMatches(pattern, path)
    case Exact(p) => path == p
  }

  /** The loop of `match_ignore` over the patterns in order, with its early return. */
  predicate AnyRuleMatches(path: string, patterns: seq<string>)
    ensures AnyRuleMatches(path, patterns) <==>
      exists k :: 0 <= k < |patterns| && RuleMatches(Classify(patterns[k]), path)
  {
    if patterns == [] then false
    else if RuleMatches(Classify(patterns[0]), path) then true
    else
      assert forall k :: 1 <= k < |patterns| ==> patterns[k] == patterns[1..][k - 1];
      AnyRuleMatches(path, patterns[1..])
  }

  /** `match_ignore(rel, patterns)`: backslashes become slashes, then any rule may match. */
  predicate MatchIgnore(rel: string, patterns: seq<string>)
  {
    AnyRuleMatches(Unix(rel), patterns)
  }

  /**
   * What a pattern of each kind matches: a `d/` pattern the paths starting
   * with `d` (the whole path, not a component), another starred pattern the
   * whole path as a glob, any other pattern only the identical path.
   */
  lemma PatternKinds(pat: string, rel: string)
    ensures EndsWith(pat, "/") ==>
      (RuleMatches(Classify(pat), Unix(rel)) <==> StartsWith(Unix(rel), pat[..|pat| - 1]))
    ensures !EndsWith(pat, "/") && '*' in pat ==>
      (RuleMatches(Classify(pat), Unix(rel)) <==> GlobMatches(pat, Unix(rel)))
    ensures !EndsWith(pat, "/") && '*' !in pat ==>
      (RuleMatches(Classify(pat), Unix(rel)) <==> Unix(rel) == pat)
  {
  }

  /** Only the set of patterns matters: their order and repetitions do not. */
  lemma MatchIgnoreOrderFree(rel: string, ps: seq<string>, qs: seq<string>)
    requires forall p :: p in ps <==> p in qs
    ensures MatchIgnore(rel, ps) == MatchIgnore(rel, qs)
  {
    if MatchIgnore(rel, ps) {
      var k :| 0 <= k < |ps| && RuleMatches(Classify(ps[k]), Unix(rel));
      assert ps[k] in qs;
    }
    if MatchIgnore(rel, qs) {
      var k :| 0 <= k < |qs| && RuleMatches(Classify(qs[k]), Unix(rel));
      assert qs[k] in ps;
    }
  }

  /** A `d/` rule hits every path that starts with `d`, and no path that merely contains it. */
  lemma DirRuleExamples()
    ensures MatchIgnore("build/a.py", ["build/"]) && MatchIgnore("buildx.py", ["build/"])
    ensures !MatchIgnore("src/build/a.py", ["build/"])
  {
    assert Classify("build/") == DirPrefix("build");
    var a, b, c := "build/a.py", "buildx.py", "src/build/a.py";
    assert Unix(a) == a && Unix(b) == b && Unix(c) == c;
    assert a[..5] == "build" && b[..5] == "build";
    assert !StartsWith(c, "build") by { assert c[..5][0] == 's'; }
  }

  /** A starred rule is matched against the whole path, and its star crosses `/`. */
  lemma GlobRuleExamples()
    ensures MatchIgnore("a/b/c.png", ["*.png"]) && MatchIgnore("a\\b\\c.png", ["*.png"])
  {
    var s := "a/b/c.png";
    StarPngRule(s);
    UnixFree(s);
    BackslashPng("a\\b\\c.png");
  }

  lemma BackslashPng(t: string)
    requires t == "a\\b\\c.png"
    ensures Unix(t) == "a/b/c.png"
  {
    var u := Unix(t);
    forall i | 0 <= i < |u|
      ensures u[i] == "a/b/c.png"[i]
    {
      assert u[i] == if t[i] == '\\' then '/' else t[i];
    }
  }

  lemma StarPngRule(s: string)
    requires s == "a/b/c.png"
    ensures AnyRuleMatches(s, ["*.png"])
  {
    assert "*.png" == "*" + ".png";
    GlobStarSuffix(".png", s);
    assert s[5..] == ".png" && s[..5] == "a/b/c";
    assert Classify("*.png") == Glob("*.png");
  }

  /** Any other rule must equal the whole path. */
  lemma ExactRuleExamples()
    ensures MatchIgnore(".env", [".env"]) && !MatchIgnore("sub/.env", [".env"])
    ensures !MatchIgnore("a.py", [])
  {
    assert Classify(".env") == Exact(".env");
    assert Unix(".env") == ".env" && Unix("sub/.env") == "sub/.env";
  }

  /** Every line stripped, in order. */
  function StripAll(lines: seq<string>): (r: seq<string>)
    ensures |r| == |lines|
    ensures forall j :: 0 <= j < |lines| ==> r[j] == Strip(lines[j])
  {
    if lines == [] then [] else [Strip(lines[0])] + StripAll(lines[1..])
  }

  /** A line of `.gptignore` that becomes a rule: not blank and not a `#` comment. */
  predicate IsRuleLine(ln: string)
  {
    ln != "" && ln[0] != '#'
  }

  /**
   * The list comprehension of `load_ignore`: every line stripped, then the
   * blank lines and the `#` comment lines dropped, in file order.
   */
  function IgnoreLines(lines: seq<string>): (r: seq<string>)
    ensures |r| <= |lines|
    ensures forall k :: 0 <= k < |r| ==> IsRuleLine(r[k]) && !IsSpace(r[k][0])
    ensures forall x :: x in r <==> x in StripAll(lines) && IsRuleLine(x)
  {
    if lines == [] then []
    else
      var ln := Strip(lines[0]);
      var rest := IgnoreLines(lines[1..]);
      assert StripAll(lines) == [ln] + StripAll(lines[1..]);
      if IsRuleLine(ln) then [ln] + rest else rest
  }

  /**
   * `load_ignore`: without a `.gptignore` the built-in rules; with one, a
   * rule for each of its lines that stripping leaves neither empty nor a
   * `#` comment, and nothing else, never starting with whitespace.
   */
  function LoadIgnore(gptignore: Option<seq<string>>): (r: seq<string>)
    ensures gptignore.None? ==> r == DefaultIgnore
    ensures gptignore.Some? ==> |r| <= |gptignore.value|
    ensures gptignore.Some? ==> forall x :: x in r <==>
      exists j :: 0 <= j < |gptignore.value| && x == Strip(gptignore.value[j]) && IsRuleLine(x)
    ensures gptignore.Some? ==> forall k :: 0 <= k < |r| ==> IsRuleLine(r[k]) && !IsSpace(r[k][0])
  {
    match gptignore
    case None => DefaultIgnore
    case Some(lines) =>
      var r := IgnoreLines(lines);
      assert forall x :: x in StripAll(lines) <==> exists j :: 0 <= j < |lines| && x == Strip(lines[j]) by {
        forall x ensures x in StripAll(lines) <==> exists j :: 0 <= j < |lines| && x == Strip(lines[j]) {
          if x in StripAll(lines) {
            var j :| 0 <= j < |lines| && StripAll(lines)[j] == x;
          }
        }
      }
      r
  }
}
