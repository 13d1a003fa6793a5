/**
 * The file selector of the packer: which walked entries become files of the
 * pack, and in what order. The recursive directory walk itself is an input
 * (the entries in the order the walk yields them).
 */
module Selection {
  import opened Text
  import opened Paths
  import opened Ignore

  /** The extensions the packer admits unless told otherwise. */
  const DefaultCodeExts: set<string> := {
    ".py", ".ts", ".tsx", ".js", ".jsx", ".json", ".yml", ".yaml", ".toml", ".ini",
    ".md", ".txt", ".env.example", ".env.sample",
    ".css", ".scss", ".html", ".jinja", ".j2",
    ".sql", ".sh", ".bash", ".zsh", ".ps1", ".bat",
    ".go", ".rs", ".java", ".kt", ".c", ".cc", ".cpp", ".h", ".hpp",
    ".rb", ".php", ".swift", ".dart", ".lua", ".r"
  }

  /** One entry of the walk: its components below the root, and whether it is a directory. */
  datatype Entry = Entry(parts: seq<string>, isDir: bool)

  /**
   * A selected file: its path below the root as the system writes it, its
   * final component, and its relative path with `/` separators, which is
   * the sort key and the heading of its section in the pack.
   */
  datatype SelectedFile = SelectedFile(path: string, name: string, rel: string)

  /** `str(p.relative_to(root))` on a POSIX system. */
  function RawPath(e: Entry): string
  {
    Join(e.parts, "/")
  }

  /** `p.name`. */
  function EntryName(e: Entry): string
  {
    if e.parts == [] then "" else e.parts[|e.parts| - 1]
  }

  function Select(e: Entry): SelectedFile
  {
    SelectedFile(RawPath(e), EntryName(e), Unix(RawPath(e)))
  }

  /** `is_allowed_file`: the extension is listed, or the name is a dotfile without extension. */
  predicate IsAllowedFile(name: string, includeExts: set<string>)
  {
    Suffix(name) in includeExts || (StartsWith(name, ".") && Suffix(name) == "")
  }

  /**
   * Two of the default extensions contain two dots, while a suffix holds
   * exactly one: `.env.example` and `.env.sample` never admit a file.
   * A file named `.env.example` has the suffix `.example`, so it is
   * neither listed nor an extension-less dotfile.
   */
  lemma TwoDotExtensionsNeverAdmit(name: string)
    ensures Suffix(name) != ".env.example" && Suffix(name) != ".env.sample"
  {
    assert ".env.example"[4] == '.' && ".env.example"[1..][3] == '.';
    SuffixHasOneDot(name, ".env.example");
    assert ".env.sample"[4] == '.' && ".env.sample"[1..][3] == '.';
    SuffixHasOneDot(name, ".env.sample");
  }

  /** A file named `.env.example` has the suffix `.example`, which is not listed. */
  lemma EnvExampleNotAllowed()
    ensures !IsAllowedFile(".env.example", DefaultCodeExts)
  {
    var n := ".env.example";
    SuffixAt(n, 4);
    assert n[4..] == ".example";
  }

  lemma AllowedFileExamples()
    ensures IsAllowedFile("a.py", DefaultCodeExts) && IsAllowedFile(".gitignore", DefaultCodeExts)
    ensures !IsAllowedFile("Makefile", DefaultCodeExts) && !IsAllowedFile("logo.png", DefaultCodeExts)
  {
    SuffixAt("a.py", 1);
    assert "a.py"[1..] == ".py";
    NoSuffixAfterLeadingDot(".gitignore");
    assert StartsWith(".gitignore", ".");
    NoSuffixAfterLeadingDot("Makefile");
    assert !StartsWith("Makefile", ".");
    SuffixAt("logo.png", 4);
    assert "logo.png"[4..] == ".png";
  }

  /** `s.rstrip("/") + "/"`: the trailing slashes of `s` replaced by exactly one. */
  function OneTrailingSlash(s: string): (r: string)
    ensures |r| >= 1 && r[|r| - 1] == '/'
    ensures |r| >= 2 ==> r[|r| - 2] != '/'
    ensures |r| - 1 <= |s| && r[..|r| - 1] == s[..|r| - 1]
    ensures forall i :: |r| - 1 <= i < |s| ==> s[i] == '/'
  {
    TrimEndChar(s, '/') + "/"
  }

  /**
   * One forced prefix as the selector normalises it: stripped, backslashes
   * turned into slashes, and its trailing slashes replaced by exactly one.
   */
  function NormalizePrefix(p: string): (r: string)
    ensures EndsWith(r, "/") && '\\' !in r
  {
    var r := OneTrailingSlash(Unix(Strip(p)));
    assert r[|r| - 1..] == "/";
    r
  }

  lemma {:induction false} OneTrailingSlashIdempotent(s: string)
    ensures OneTrailingSlash(OneTrailingSlash(s)) == OneTrailingSlash(s)
  {
    var core := TrimEndChar(s, '/');
    var r := core + "/";
    assert r[..|r| - 1] == core;
    assert TrimEndChar(r, '/') == TrimEndChar(core, '/');
  }

  /** Normalising twice changes nothing. */
  lemma NormalizePrefixIdempotent(p: string)
    ensures NormalizePrefix(NormalizePrefix(p)) == NormalizePrefix(p)
  {
    var u := Unix(Strip(p));
    var r := NormalizePrefix(p);
    assert r == OneTrailingSlash(u);
    // Its first character comes from the stripped text or is the final slash.
    assert !IsSpace(r[0]) by {
      if |r| >= 2 {
        assert r[..|r| - 1][0] == u[..|r| - 1][0];
        var s := Strip(p);
        assert |s| == |u| && s != [] && !IsSpace(s[0]);
        assert u[0] == if s[0] == '\\' then '/' else s[0];
        assert r[0] == u[0];
      } else {
        assert r[0] == '/';
      }
    }
    StripTrimmed(r);
    UnixFree(r);
    OneTrailingSlashIdempotent(u);
  }

  /** `[f(p) for p in ps if keep(p)]`. */
  function FilterMap(ps: seq<string>, keep: string -> bool, f: string -> string): (r: seq<string>)
    ensures |r| <= |ps|
  {
    if ps == [] then []
    else (if keep(ps[0]) then [f(ps[0])] else []) + FilterMap(ps[1..], keep, f)
  }

  /** What a filtered map holds: the images of the kept entries, and nothing else. */
  lemma {:induction false} FilterMapMembers(ps: seq<string>, keep: string -> bool, f: string -> string, x: string)
    ensures x in FilterMap(ps, keep, f) <==> exists j :: 0 <= j < |ps| && keep(ps[j]) && x == f(ps[j])
  {
    if ps != [] {
      var tail := ps[1..];
      FilterMapMembers(tail, keep, f, x);
      if exists j :: 0 <= j < |tail| && keep(tail[j]) && x == f(tail[j]) {
        var j :| 0 <= j < |tail| && keep(tail[j]) && x == f(tail[j]);
        assert ps[j + 1] == tail[j];
      }
      if exists j :: 1 <= j < |ps| && keep(ps[j]) && x == f(ps[j]) {
        var j :| 1 <= j < |ps| && keep(ps[j]) && x == f(ps[j]);
        assert tail[j - 1] == ps[j];
      }
    }
  }

  /** An entry of `force_include` that `strip()` does not empty. */
  predicate NonBlank(p: string)
  {
    Strip(p) != ""
  }

  /** The list comprehension over `force_include`: blank entries dropped, the others normalised. */
  function NormalizeForced(forceInclude: seq<string>): (r: seq<string>)
    ensures |r| <= |forceInclude|
  {
    FilterMap(forceInclude, NonBlank, NormalizePrefix)
  }

  /** The normalised prefixes are exactly the normal forms of the entries that are not blank. */
  lemma NormalizedMembers(forceInclude: seq<string>, x: string)
    ensures x in NormalizeForced(forceInclude) <==>
      exists j :: 0 <= j < |forceInclude| && Strip(forceInclude[j]) != "" && x == NormalizePrefix(forceInclude[j])
  {
    FilterMapMembers(forceInclude, NonBlank, NormalizePrefix, x);
  }

  /** `any(rel.startswith(fi) for fi in forced)`. */
  predicate ForcedIn(rel: string, forced: seq<string>)
  {
    exists k :: 0 <= k < |forced| && StartsWith(rel, forced[k])
  }

  /**
   * Whether a walked entry becomes a file of the pack: the filter of
   * `iter_repo_files` (directories are skipped, ignored paths dropped) and
   * then the allow test of the selection loop.
   */
  predicate Wanted(e: Entry, ignore: seq<string>, includeExts: set<string>, forced: seq<string>)
  {
    var rel := Unix(RawPath(e));
    !e.isDir && !MatchIgnore(rel, ignore) && (IsAllowedFile(EntryName(e), includeExts) || ForcedIn(rel, forced))
  }

  /**
   * The selection rule in full: a walked file is selected exactly when no
   * ignore rule matches it and its extension is listed, or it is an
   * extension-less dotfile, or its relative path starts with a forced
   * prefix; an ignore rule wins over a forced prefix.
   */
  lemma SelectionRule(e: Entry, ignore: seq<string>, includeExts: set<string>, forceInclude: seq<string>)
    ensures var rel := Unix(RawPath(e)); var name := EntryName(e);
      Wanted(e, ignore, includeExts, NormalizeForced(forceInclude)) <==>
        !e.isDir &&
        !(exists k :: 0 <= k < |ignore| && RuleMatches(Classify(ignore[k]), rel)) &&
        (Suffix(name) in includeExts || (StartsWith(name, ".") && Suffix(name) == "") ||
         exists j :: 0 <= j < |forceInclude| && Strip(forceInclude[j]) != "" &&
           StartsWith(rel, NormalizePrefix(forceInclude[j])))
  {
    var rel := Unix(RawPath(e));
    UnixIdempotent(RawPath(e));
    assert MatchIgnore(rel, ignore) == AnyRuleMatches(rel, ignore);
    ForcedInNormalized(rel, forceInclude);
  }

  /** A path starts with one of the normalised prefixes exactly when it starts with the normal form of a non-blank entry. */
  lemma ForcedInNormalized(rel: string, forceInclude: seq<string>)
    ensures ForcedIn(rel, NormalizeForced(forceInclude)) <==>
      exists j :: 0 <= j < |forceInclude| && Strip(forceInclude[j]) != "" &&
        StartsWith(rel, NormalizePrefix(forceInclude[j]))
  {
    var forced := NormalizeForced(forceInclude);
    if ForcedIn(rel, forced) {
      var k :| 0 <= k < |forced| && StartsWith(rel, forced[k]);
      NormalizedMembers(forceInclude, forced[k]);
    }
    if exists j :: 0 <= j < |forceInclude| && Strip(forceInclude[j]) != "" &&
         StartsWith(rel, NormalizePrefix(forceInclude[j])) {
      var j :| 0 <= j < |forceInclude| && Strip(forceInclude[j]) != "" &&
         StartsWith(rel, NormalizePrefix(forceInclude[j]));
      var x := NormalizePrefix(forceInclude[j]);
      NormalizedMembers(forceInclude, x);
      var k :| 0 <= k < |forced| && forced[k] == x;
    }
  }

  /**
   * A `d/` rule that matches a directory as the walk writes it (its path
   * and a trailing `/`) also matches every path below that directory: the
   * rule is a prefix test, and such a path extends the directory's.
   */
  lemma IgnoredDirectoryCoversFiles(dir: string, rest: string, ignore: seq<string>, k: int)
    requires 0 <= k < |ignore| && EndsWith(ignore[k], "/")
    requires RuleMatches(Classify(ignore[k]), Unix(dir) + "/")
    ensures MatchIgnore(dir + "/" + rest, ignore)
  {
    UnixAppend(dir, "/");
    UnixAppend(dir + "/", rest);
    assert Unix("/") == "/";
    var u := Unix(dir) + "/";
    var p := Classify(ignore[k]).prefix;
    assert (u + Unix(rest))[..|p|] == u[..|p|];
    assert RuleMatches(Classify(ignore[k]), Unix(dir + "/" + rest));
  }

  /**
   * No file below a directory that a `d/` rule ignores is selected, forced
   * prefix or not: the walk still visits it, but its own path is ignored.
   */
  lemma IgnoredDirectoryFilesNotWanted(dirParts: seq<string>, rest: seq<string>, isDir: bool, ignore: seq<string>,
                                       includeExts: set<string>, forced: seq<string>, k: int)
    requires |dirParts| >= 1 && |rest| >= 1
    requires 0 <= k < |ignore| && EndsWith(ignore[k], "/")
    requires RuleMatches(Classify(ignore[k]), Unix(RawPath(Entry(dirParts, true))) + "/")
    ensures !Wanted(Entry(dirParts + rest, isDir), ignore, includeExts, forced)
  {
    var e := Entry(dirParts + rest, isDir);
    var raw := RawPath(e);
    JoinAppend(dirParts, rest, "/");
    assert raw == Join(dirParts, "/") + "/" + Join(rest, "/");
    IgnoredDirectoryCoversFiles(Join(dirParts, "/"), Join(rest, "/"), ignore, k);
    UnixIdempotent(raw);
    assert MatchIgnore(Unix(raw), ignore);
  }

  /** The selection in walk order, before sorting: the list the loop of `build_pack` appends to. */
  function Candidates(entries: seq<Entry>, ignore: seq<string>, includeExts: set<string>, forced: seq<string>)
    : (r: seq<SelectedFile>)
    ensures |r| <= |entries|
    ensures forall f :: f in r <==>
      exists k :: 0 <= k < |entries| && Wanted(entries[k], ignore, includeExts, forced) && f == Select(entries[k])
  {
    if entries == [] then []
    else
      var n := |entries| - 1;
      var front := Candidates(entries[..n], ignore, includeExts, forced);
      assert forall k :: 0 <= k < n ==> entries[..n][k] == entries[k];
      if Wanted(entries[n], ignore, includeExts, forced) then front + [Select(entries[n])] else front
  }

  /**
   * Every entry is decided on its own: what a stretch of the walk
   * contributes does not depend on the entries before it, so a directory,
   * ignored or not, prunes nothing that the walk yields below it.
   */
  lemma {:induction false} CandidatesConcat(a: seq<Entry>, b: seq<Entry>, ignore: seq<string>,
                                          includeExts: set<string>, forced: seq<string>)
    ensures Candidates(a + b, ignore, includeExts, forced) ==
            Candidates(a, ignore, includeExts, forced) + Candidates(b, ignore, includeExts, forced)
  {
    if b == [] {
      assert a + b == a;
    } else {
      var n := |b| - 1;
      CandidatesConcat(a, b[..n], ignore, includeExts, forced);
      assert (a + b)[..|a + b| - 1] == a + b[..n];
      assert (a + b)[|a + b| - 1] == b[n];
    }
  }

  /** A directory entry contributes nothing. */
  lemma DirectoryContributesNothing(parts: seq<string>, ignore: seq<string>, includeExts: set<string>,
                                    forced: seq<string>)
    ensures Candidates([Entry(parts, true)], ignore, includeExts, forced) == []
  {
  }

  /** `a <= b` for every earlier `a` and later `b`, comparing relative paths. */
  predicate SortedByRel(s: seq<SelectedFile>)
  {
    forall i, j :: 0 <= i < j < |s| ==> Le(s[i].rel, s[j].rel)
  }

  /** Putting `x` after the entries not above it and before those above it keeps the order. */
  lemma InsertSorted(s: seq<SelectedFile>, k: int, x: SelectedFile)
    requires SortedByRel(s) && 0 <= k <= |s|
    requires k > 0 ==> Le(s[k - 1].rel, x.rel)
    requires forall t :: k <= t < |s| ==> Lt(x.rel, s[t].rel)
    ensures SortedByRel(s[..k] + [x] + s[k..])
    ensures multiset(s[..k] + [x] + s[k..]) == multiset(s) + multiset{x}
  {
    var r := s[..k] + [x] + s[k..];
    InsertPositions(s, k, x);
    InsertKeepsOrder(s, k, x, r);
    InsertMultiset(s, k, x);
  }

  lemma InsertMultiset(s: seq<SelectedFile>, k: int, x: SelectedFile)
    requires 0 <= k <= |s|
    ensures multiset(s[..k] + [x] + s[k..]) == multiset(s) + multiset{x}
  {
    assert s == s[..k] + s[k..];
  }

  /** Where everything sits after inserting `x` at `k`. */
  lemma InsertPositions(s: seq<SelectedFile>, k: int, x: SelectedFile)
    requires 0 <= k <= |s|
    ensures var r := s[..k] + [x] + s[k..];
      |r| == |s| + 1 && r[k] == x &&
      (forall i :: 0 <= i < k ==> r[i] == s[i]) &&
      (forall i :: k < i < |r| ==> r[i] == s[i - 1])
  {
  }

  lemma InsertKeepsOrder(s: seq<SelectedFile>, k: int, x: SelectedFile, r: seq<SelectedFile>)
    requires SortedByRel(s) && 0 <= k <= |s|
    requires k > 0 ==> Le(s[k - 1].rel, x.rel)
    requires forall t :: k <= t < |s| ==> Lt(x.rel, s[t].rel)
    requires |r| == |s| + 1 && r[k] == x
    requires forall i :: 0 <= i < k ==> r[i] == s[i]
    requires forall i :: k < i < |r| ==> r[i] == s[i - 1]
    ensures SortedByRel(r)
  {
    forall i, j | 0 <= i < j < |r|
      ensures Le(r[i].rel, r[j].rel)
    {
      if j == k {
        if i < k - 1 {
          LeTransitive(s[i].rel, s[k - 1].rel, x.rel);
        }
      } else if i == k {
        LtAsymmetric(x.rel, s[j - 1].rel);
      }
    }
  }

  /** The files whose relative path is `r`, in the order in which they come. */
  function WithRel(s: seq<SelectedFile>, r: string): (o: seq<SelectedFile>)
    ensures |o| <= |s|
    ensures forall t :: 0 <= t < |o| ==> o[t].rel == r
  {
    if s == [] then []
    else (if s[0].rel == r then [s[0]] else []) + WithRel(s[1..], r)
  }

  lemma {:induction false} WithRelAppend(a: seq<SelectedFile>, b: seq<SelectedFile>, r: string)
    ensures WithRel(a + b, r) == WithRel(a, r) + WithRel(b, r)
  {
    if a == [] {
      assert a + b == b;
    } else {
      assert (a + b)[0] == a[0] && (a + b)[1..] == a[1..] + b;
      WithRelAppend(a[1..], b, r);
    }
  }

  lemma {:induction false} WithRelNone(s: seq<SelectedFile>, r: string)
    requires forall t :: 0 <= t < |s| ==> s[t].rel != r
    ensures WithRel(s, r) == []
  {
    if s != [] {
      WithRelNone(s[1..], r);
    }
  }

  /** A file with relative path `r` comes from a position of `s` holding that path. */
  lemma {:induction false} WithRelSource(s: seq<SelectedFile>, r: string) returns (t: int)
    requires WithRel(s, r) != []
    ensures 0 <= t < |s| && s[t].rel == r
  {
    if s[0].rel != r {
      t := WithRelSource(s[1..], r);
      t := t + 1;
    } else {
      t := 0;
    }
  }

  /**
   * Inserting `x` in front of the entries above it puts `x` behind every
   * file with the same path and changes the order of no other files.
   */
  lemma InsertStable(p: seq<SelectedFile>, q: seq<SelectedFile>, x: SelectedFile, r: string)
    requires forall t :: 0 <= t < |q| ==> Lt(x.rel, q[t].rel)
    ensures WithRel(p + [x] + q, r) == WithRel(p + q, r) + WithRel([x], r)
  {
    WithRelAppend(p + [x], q, r);
    WithRelAppend(p, [x], r);
    WithRelAppend(p, q, r);
    if r == x.rel {
      LtIrreflexive(x.rel);
      WithRelNone(q, r);
    }
    RegroupEmpty(WithRel(p, r), WithRel([x], r), WithRel(q, r));
  }

  /** One insertion step of the sort keeps the files of every path in the order they came in. */
  lemma InsertKeepsPathOrder(p: seq<SelectedFile>, q: seq<SelectedFile>, x: SelectedFile, before: seq<SelectedFile>)
    requires forall t :: 0 <= t < |q| ==> Lt(x.rel, q[t].rel)
    requires forall r :: WithRel(p + q, r) == WithRel(before, r)
    ensures forall r :: WithRel(p + [x] + q, r) == WithRel(before + [x], r)
  {
    forall r
      ensures WithRel(p + [x] + q, r) == WithRel(before + [x], r)
    {
      InsertStable(p, q, x, r);
      WithRelAppend(before, [x], r);
    }
  }

  /** Two pieces trade places when one of them is empty. */
  lemma RegroupEmpty(u: seq<SelectedFile>, v: seq<SelectedFile>, w: seq<SelectedFile>)
    requires v == [] || w == []
    ensures (u + v) + w == (u + w) + v
  {
  }

  /** The first file of a list is among the files of its own path. */
  lemma WithRelHead(s: seq<SelectedFile>)
    ensures s != [] ==> WithRel(s, s[0].rel) == [s[0]] + WithRel(s[1..], s[0].rel)
  {
  }

  /**
   * Sorting by path and keeping files of equal path in their order fixes
   * the result: two sorted lists that agree on the order of the files of
   * every path are the same list.
   */
  lemma {:induction false} StableSortUnique(a: seq<SelectedFile>, b: seq<SelectedFile>)
    requires SortedByRel(a) && SortedByRel(b)
    requires forall r :: WithRel(a, r) == WithRel(b, r)
    ensures a == b
    decreases |a|
  {
    WithRelHead(a);
    WithRelHead(b);
    if a == [] && b == [] {
    } else if a == [] || b == [] {
      assert false;
    } else {
      var p, q := a[0].rel, b[0].rel;
      assert WithRel(a, p) == [a[0]] + WithRel(a[1..], p);
      var tb := WithRelSource(b, p);
      assert Le(q, p) by {
        if tb > 0 {
          assert Le(b[0].rel, b[tb].rel);
        } else {
          LtIrreflexive(p);
        }
      }
      assert WithRel(b, q) == [b[0]] + WithRel(b[1..], q);
      var ta := WithRelSource(a, q);
      assert Le(p, q) by {
        if ta > 0 {
          assert Le(a[0].rel, a[ta].rel);
        } else {
          LtIrreflexive(q);
        }
      }
      LtTotal(p, q);
      assert p == q;
      assert WithRel(a, p)[0] == a[0] && WithRel(b, p)[0] == b[0];
      forall r
        ensures WithRel(a[1..], r) == WithRel(b[1..], r)
      {
        if r == p {
          assert WithRel(a, r) == [a[0]] + WithRel(a[1..], r);
          assert WithRel(b, r) == [b[0]] + WithRel(b[1..], r);
          assert WithRel(a[1..], r) == WithRel(a, r)[1..];
        } else {
          assert WithRel(a, r) == WithRel(a[1..], r);
          assert WithRel(b, r) == WithRel(b[1..], r);
        }
      }
      StableSortUnique(a[1..], b[1..]);
      assert a == [a[0]] + a[1..] && b == [b[0]] + b[1..];
    }
  }

  /** `files.sort(key=lambda x: x[1])`, as a stable insertion sort. */
  method SortByRel(files: seq<SelectedFile>) returns (sorted: seq<SelectedFile>)
    ensures SortedByRel(sorted)
    ensures multiset(sorted) == multiset(files)
    ensures forall r :: WithRel(sorted, r) == WithRel(files, r)
  {
    sorted := [];
    for n := 0 to |files|
      invariant SortedByRel(sorted)
      invariant multiset(sorted) == multiset(files[..n])
      invariant forall r :: WithRel(sorted, r) == WithRel(files[..n], r)
    {
      var x := files[n];
      var k := |sorted|;
      while k > 0 && Lt(x.rel, sorted[k - 1].rel)
        invariant 0 <= k <= |sorted|
        invariant forall t :: k <= t < |sorted| ==> Lt(x.rel, sorted[t].rel)
      {
        k := k - 1;
      }
      InsertSorted(sorted, k, x);
      assert files[..n + 1] == files[..n] + [x];
      assert sorted[..k] + sorted[k..] == sorted;
      InsertKeepsPathOrder(sorted[..k], sorted[k..], x, files[..n]);
      sorted := sorted[..k] + [x] + sorted[k..];
    }
    assert files[..|files|] == files;
  }

  /**
   * The selection part of `build_pack`: walk the entries, keep the wanted
   * files in walk order, then sort them by relative path.
   */
  method SelectFiles(entries: seq<Entry>, ignore: seq<string>, includeExts: set<string>, forceInclude: seq<string>)
    returns (files: seq<SelectedFile>)
    ensures SortedByRel(files)
    ensures multiset(files) == multiset(Candidates(entries, ignore, includeExts, NormalizeForced(forceInclude)))
    ensures forall r :: WithRel(files, r) == WithRel(Candidates(entries, ignore, includeExts, NormalizeForced(forceInclude)), r)
    ensures forall f :: f in files <==>
      exists k :: 0 <= k < |entries| && Wanted(entries[k], ignore, includeExts, NormalizeForced(forceInclude)) &&
        f == Select(entries[k])
  {
    var forced := NormalizeForced(forceInclude);
    var found: seq<SelectedFile> := [];
    for n := 0 to |entries|
      invariant found == Candidates(entries[..n], ignore, includeExts, forced)
    {
      var e := entries[n];
      assert entries[..n + 1][..n] == entries[..n];
      // A directory is matched against the rules by the walk, then skipped either way.
      if !e.isDir {
        var rel := Unix(RawPath(e));
        if !MatchIgnore(rel, ignore) && (IsAllowedFile(EntryName(e), includeExts) || ForcedIn(rel, forced)) {
          found := found + [SelectedFile(RawPath(e), EntryName(e), rel)];
        }
      }
    }
    assert entries[..|entries|] == entries;
    files := SortByRel(found);
    assert forall f :: f in files <==> f in found by {
      forall f ensures f in files <==> f in found {
        assert f in files <==> f in multiset(files);
        assert f in found <==> f in multiset(found);
      }
    }
  }
}
