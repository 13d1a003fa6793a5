/**
 * The parts of a relative path that the packer looks at, with pathlib's
 * rules on a POSIX system: the components of a path (`Path(rel).parts`), its
 * final component (`.name`) and that component's extension (`.suffix`).
 */
module Paths {
  import opened Text

  /** `rel.replace("\\", "/")`: Windows separators become forward slashes. */
  function Unix(rel: string): (r: string)
    ensures |r| == |rel| && '\\' !in r
    ensures forall i :: 0 <= i < |rel| ==> r[i] == if rel[i] == '\\' then '/' else rel[i]
  {
    ReplaceChar(rel, '\\', '/')
  }

  /** A path without backslashes is already in Unix form. */
  lemma UnixFree(s: string)
    requires '\\' !in s
    ensures Unix(s) == s
  {
  }

  /** The replacement works character by character, so it distributes over concatenation. */
  lemma UnixAppend(x: string, y: string)
    ensures Unix(x + y) == Unix(x) + Unix(y)
  {
    var l, r := Unix(x + y), Unix(x) + Unix(y);
    forall i | 0 <= i < |l|
      ensures l[i] == r[i]
    {
      if i < |x| {
        assert (x + y)[i] == x[i];
      } else {
        assert (x + y)[i] == y[i - |x|];
      }
    }
  }

  lemma UnixIdempotent(rel: string)
    ensures Unix(Unix(rel)) == Unix(rel)
  {
  }

  /** A path component as pathlib keeps it: non-empty, not `.`, without a slash. */
  predicate IsSegment(x: string)
  {
    x != "" && x != "." && '/' !in x
  }

  /** The pieces of a `/`-split that pathlib keeps as components. */
  function KeepSegments(pieces: seq<string>): (r: seq<string>)
    ensures |r| <= |pieces|
    ensures forall k :: 0 <= k < |r| ==> r[k] in pieces && (r[k] != "" && r[k] != ".")
  {
    if pieces == [] then []
    else if pieces[0] == "" || pieces[0] == "." then KeepSegments(pieces[1..])
    else [pieces[0]] + KeepSegments(pieces[1..])
  }

  /** A path that starts with a slash, so that pathlib gives it an anchor. */
  predicate Absolute(rel: string)
  {
    |rel| >= 1 && rel[0] == '/'
  }

  /**
   * The anchor pathlib splits off a POSIX path: exactly two leading slashes
   * stay `//`, one or three and more become `/`, and a path that does not
   * start with a slash has none.
   */
  function Anchor(rel: string): (r: string)
    ensures r == "" <==> !Absolute(rel)
    ensures r == "" || r == "/" || r == "//"
    ensures |r| <= |rel| && forall i :: 0 <= i < |r| ==> rel[i] == '/'
  {
    if |rel| >= 2 && rel[0] == '/' && rel[1] == '/' && !(|rel| >= 3 && rel[2] == '/') then "//"
    else if |rel| >= 1 && rel[0] == '/' then "/"
    else ""
  }

  /**
   * The components behind the anchor: the pieces between slashes that are
   * neither empty nor `.`, so leading, doubled and trailing slashes vanish.
   */
  function Tail(rel: string): (r: seq<string>)
    ensures forall k :: 0 <= k < |r| ==> IsSegment(r[k])
  {
    var pieces := Split(rel, '/');
    var r := KeepSegments(pieces);
    assert forall k :: 0 <= k < |r| ==> r[k] in pieces;
    r
  }

  /**
   * `Path(rel).parts`: the anchor, when there is one, as a component of its
   * own, then the proper components.
   */
  function Parts(rel: string): (r: seq<string>)
    ensures |r| == |Tail(rel)| + (if Absolute(rel) then 1 else 0)
    ensures forall k :: 0 <= k < |r| ==> (IsSegment(r[k]) <==> !(k == 0 && Absolute(rel)))
    ensures Absolute(rel) ==> r[0] == Anchor(rel)
  {
    var anchor := Anchor(rel);
    if anchor == "" then Tail(rel) else [anchor] + Tail(rel)
  }

  /** `Path(rel).name`: the last component behind the anchor, or the empty string when there is none. */
  function Name(rel: string): (r: string)
    ensures '/' !in r
  {
    var ps := Tail(rel);
    if ps == [] then "" else ps[|ps| - 1]
  }

  /** The name is the last component, unless the path is no more than its anchor. */
  lemma NameIsLastPart(rel: string)
    ensures Name(rel) == "" <==> |Parts(rel)| == 0 || !IsSegment(Parts(rel)[|Parts(rel)| - 1])
    ensures Name(rel) != "" ==> Name(rel) == Parts(rel)[|Parts(rel)| - 1]
  {
  }

  /** A leading slash adds nothing to the components behind the anchor. */
  lemma TailSkipsSlash(s: string)
    ensures Tail("/" + s) == Tail(s)
  {
    var p := "/" + s;
    assert p[0] == '/' && p[1..] == s;
    assert Split(p, '/') == [""] + Split(s, '/');
    assert ([""] + Split(s, '/'))[1..] == Split(s, '/');
  }

  /**
   * One leading slash in front of a path without an anchor: the anchor `/`
   * becomes a part of its own, and the name is unchanged.
   */
  lemma SlashAnchor(x: string)
    requires !Absolute(x)
    ensures Parts("/" + x) == ["/"] + Tail(x) && Name("/" + x) == Name(x)
  {
    TailSkipsSlash(x);
    var p := "/" + x;
    assert p[0] == '/' && (|p| >= 2 ==> p[1] == x[0]);
    assert Anchor(p) == "/";
  }

  /** Exactly two leading slashes: the anchor is `//`, and the name is unchanged. */
  lemma DoubleSlashAnchor(x: string)
    requires !Absolute(x)
    ensures Parts("//" + x) == ["//"] + Tail(x) && Name("//" + x) == Name(x)
  {
    TailSkipsSlash(x);
    TailSkipsSlash("/" + x);
    var p := "//" + x;
    assert p == "/" + ("/" + x);
    assert p[0] == '/' && p[1] == '/' && (|p| >= 3 ==> p[2] == x[0]);
    assert Anchor(p) == "//";
  }

  /** Three leading slashes: the anchor is `/` again. */
  lemma TripleSlashAnchor(x: string)
    requires !Absolute(x)
    ensures Parts("///" + x) == ["/"] + Tail(x) && Name("///" + x) == Name(x)
  {
    TailSkipsSlash(x);
    TailSkipsSlash("/" + x);
    TailSkipsSlash("//" + x);
    var p := "///" + x;
    assert p == "/" + ("/" + ("/" + x));
    assert p[0] == '/' && p[1] == '/' && p[2] == '/';
    assert Anchor(p) == "/";
  }

  lemma {:induction false} KeepSegmentsAll(pieces: seq<string>)
    requires forall k :: 0 <= k < |pieces| ==> IsSegment(pieces[k])
    ensures KeepSegments(pieces) == pieces
  {
    if pieces != [] {
      KeepSegmentsAll(pieces[1..]);
      assert [pieces[0]] + pieces[1..] == pieces;
    }
  }

  /** Joining well-formed components with `/` and taking `Parts` gives the components back. */
  lemma PartsOfJoin(segs: seq<string>)
    requires |segs| >= 1
    requires forall k :: 0 <= k < |segs| ==> IsSegment(segs[k])
    ensures Parts(Join(segs, "/")) == segs
    ensures Name(Join(segs, "/")) == segs[|segs| - 1]
  {
    var j := Join(segs, "/");
    JoinStartsWithFirst(segs);
    SplitOfJoin(segs);
    KeepSegmentsAll(segs);
    assert Tail(j) == segs;
    PartsOfRelative(j, segs);
  }

  /** A path without an anchor has its proper components as its parts, and the last of them as its name. */
  lemma PartsOfRelative(rel: string, segs: seq<string>)
    requires !Absolute(rel) && |segs| >= 1 && Tail(rel) == segs
    ensures Parts(rel) == segs && Name(rel) == segs[|segs| - 1]
  {
    NameOfTail(rel, segs);
  }

  /** The name is the last component behind the anchor. */
  lemma NameOfTail(rel: string, segs: seq<string>)
    requires |segs| >= 1 && Tail(rel) == segs
    ensures Name(rel) == segs[|segs| - 1]
  {
  }

  /** A `/`-join of components starts with the first component, so with no slash. */
  lemma JoinStartsWithFirst(segs: seq<string>)
    requires |segs| >= 1
    requires forall k :: 0 <= k < |segs| ==> IsSegment(segs[k])
    ensures !Absolute(Join(segs, "/"))
  {
    var j := Join(segs, "/");
    if |segs| > 1 {
      assert j == segs[0] + "/" + Join(segs[1..], "/");
    }
    assert j[0] == segs[0][0];
    assert segs[0][0] in segs[0];
  }

  lemma SplitOfJoin(segs: seq<string>)
    requires |segs| >= 1
    requires forall k :: 0 <= k < |segs| ==> IsSegment(segs[k])
    ensures Split(Join(segs, "/"), '/') == segs
  {
    assert ['/'] == "/";
    assert forall k :: 0 <= k < |segs| ==> '/' !in segs[k];
    SplitJoin(segs, '/');
  }

  /** `s.rfind(c)`: the index of the last `c`, or -1. */
  function RFind(s: string, c: char): (r: int)
    ensures -1 <= r < |s|
    ensures r >= 0 ==> s[r] == c
    ensures forall i :: r < i < |s| ==> s[i] != c
  {
    if s == [] then -1
    else if s[|s| - 1] == c then |s| - 1
    else RFind(s[..|s| - 1], c)
  }

  /**
   * `PurePath.suffix` of a final component `name`: from the last dot on,
   * provided that dot is neither the first nor the last character.
   */
  function Suffix(name: string): string
  {
    var i := RFind(name, '.');
    if 0 < i < |name| - 1 then name[i..] else ""
  }

  /**
   * A suffix starts with its dot, is shorter than the name, ends it, and
   * holds no other dot; there is none exactly when the name is shorter than
   * two characters, has no dot after its first character, or ends in a dot.
   */
  lemma SuffixShape(name: string)
    ensures var r := Suffix(name);
      r != "" ==> r[0] == '.' && 2 <= |r| < |name| && EndsWith(name, r) && '.' !in r[1..]
    ensures Suffix(name) == "" <==> |name| < 2 || '.' !in name[1..] || name[|name| - 1] == '.'
  {
    var i := RFind(name, '.');
    if 0 < i < |name| - 1 {
      var r := name[i..];
      assert name[|name| - |r|..] == r;
      assert forall j :: 0 <= j < |r| - 1 ==> r[1..][j] == name[i + 1 + j];
      assert name[1..][i - 1] == '.';
    } else if |name| >= 2 && name[|name| - 1] != '.' {
      assert forall j :: 0 <= j < |name| - 1 ==> name[1..][j] == name[j + 1];
    }
  }

  /** The suffix of a name whose last dot sits at `i`, neither first nor last. */
  lemma SuffixAt(name: string, i: int)
    requires 0 < i < |name| - 1 && name[i] == '.'
    requires forall j :: i < j < |name| ==> name[j] != '.'
    ensures Suffix(name) == name[i..]
  {
  }

  /** A name whose only dot is its first character has no suffix. */
  lemma NoSuffixAfterLeadingDot(name: string)
    requires forall j :: 0 < j < |name| ==> name[j] != '.'
    ensures Suffix(name) == ""
  {
  }

  /** A suffix holds exactly one dot, so an extension written with two dots is never one. */
  lemma SuffixHasOneDot(name: string, ext: string)
    requires '.' in ext && '.' in ext[1..]
    ensures Suffix(name) != ext
  {
    SuffixShape(name);
  }

  /** `p.suffix.lstrip(".")`: the fence tag, which is the extension without its dot. */
  function FenceLang(name: string): string
  {
    var suffix := Suffix(name);
    if suffix == "" then "" else suffix[1..]
  }

  /** The fence tag holds no dot; it is empty exactly when there is no suffix, and is otherwise the suffix behind its dot. */
  lemma FenceLangOfSuffix(name: string)
    ensures '.' !in FenceLang(name)
    ensures FenceLang(name) == "" <==> Suffix(name) == ""
    ensures FenceLang(name) != "" ==> "." + FenceLang(name) == Suffix(name)
  {
    var suffix := Suffix(name);
    if suffix != "" {
      assert suffix == [suffix[0]] + suffix[1..];
    }
  }
}
