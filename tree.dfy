/**
 * The repository tree of the pack (`render_tree`): a fenced `text` block
 * holding the root's name and one indented line per selected file.
 */
module Tree {
  import opened Text
  import opened Paths
  import opened Selection

  /** `"  " * n`; Python gives the empty string for a negative count. */
  function Indent(n: int): (r: string)
    ensures |r| == if n <= 0 then 0 else 2 * n
    ensures forall i :: 0 <= i < |r| ==> r[i] == ' '
  {
    if n <= 0 then "" else "  " + Indent(n - 1)
  }

  /** The line of one file: two spaces per component beyond the first, then its name. */
  function TreeLine(rel: string): string
  {
    Indent(|Parts(rel)| - 1) + Name(rel)
  }

  /** One line per file, in the order of the files. */
  function FileLines(files: seq<SelectedFile>): (r: seq<string>)
    ensures |r| == |files|
    ensures forall k :: 0 <= k < |files| ==> r[k] == TreeLine(files[k].rel)
  {
    seq(|files|, k requires 0 <= k < |files| => TreeLine(files[k].rel))
  }

  /** The line list that `render_tree` builds before joining it. */
  function TreeLines(root: string, files: seq<SelectedFile>): (r: seq<string>)
    ensures |r| == |files| + 3
    ensures r[0] == "```text" && r[1] == Name(root) + "/" && r[|r| - 1] == "```"
    ensures forall k :: 0 <= k < |files| ==> r[k + 2] == TreeLine(files[k].rel)
  {
    ["```text", Name(root) + "/"] + FileLines(files) + ["```"]
  }

  /** `render_tree(root, files)`. */
  function RenderTree(root: string, files: seq<SelectedFile>): string
  {
    Join(TreeLines(root, files), "\n")
  }

  /**
   * A file below `|segs| - 1` directories is drawn as its last component
   * behind two spaces per directory.
   */
  lemma TreeLineOfPath(segs: seq<string>)
    requires |segs| >= 1
    requires forall k :: 0 <= k < |segs| ==> IsSegment(segs[k])
    ensures TreeLine(Join(segs, "/")) == Indent(|segs| - 1) + segs[|segs| - 1]
    ensures |TreeLine(Join(segs, "/"))| == 2 * (|segs| - 1) + |segs[|segs| - 1]|
  {
    PartsOfJoin(segs);
  }

  /**
   * A root-level file whose name holds a backslash, `\name`, has the
   * relative path `/name` once backslashes are replaced. pathlib reads that
   * as the anchor `/` and one component, so the file is drawn one level deep.
   */
  lemma RootBackslashFileLine(name: string)
    requires IsSegment(name) && '\\' !in name
    ensures Unix("\\" + name) == "/" + name
    ensures |Parts("/" + name)| == 2 && Name("/" + name) == name
    ensures TreeLine("/" + name) == Indent(1) + name
  {
    UnixAppend("\\", name);
    UnixFree(name);
    assert Join([name], "/") == name;
    PartsOfJoin([name]);
    assert !Absolute(name) && Tail(name) == [name];
    SlashAnchor(name);
  }

  /** The name of a path holds no line break when the path holds none. */
  lemma NameOneLine(rel: string)
    requires '\n' !in rel
    ensures '\n' !in Name(rel)
  {
    var ps := Tail(rel);
    if ps != [] {
      SplitKeepsOut(rel, '/', '\n');
      var pieces := Split(rel, '/');
      var k :| 0 <= k < |pieces| && pieces[k] == ps[|ps| - 1];
    }
  }

  /**
   * Reading the rendered tree back line by line gives the line list: the
   * fence, the root line, one line per file in order, the closing fence.
   */
  lemma RenderTreeLines(root: string, files: seq<SelectedFile>)
    requires '\n' !in root
    requires forall k :: 0 <= k < |files| ==> '\n' !in files[k].rel
    ensures Split(RenderTree(root, files), '\n') == TreeLines(root, files)
  {
    var lines := TreeLines(root, files);
    forall k | 0 <= k < |lines|
      ensures '\n' !in lines[k]
    {
      if k == 1 {
        NameOneLine(root);
      } else if 2 <= k < |lines| - 1 {
        NameOneLine(files[k - 2].rel);
      }
    }
    assert "\n" == ['\n'];
    SplitJoin(lines, '\n');
  }

  /**
   * Read back line by line, the rendered tree has one line per file after
   * the fence and the root line, and the line of a file below `|segs| - 1`
   * directories is its last component behind two spaces per directory.
   */
  lemma RenderTreeFileLine(root: string, files: seq<SelectedFile>, k: int, segs: seq<string>)
    requires '\n' !in root
    requires forall t :: 0 <= t < |files| ==> '\n' !in files[t].rel
    requires 0 <= k < |files| && |segs| >= 1 && files[k].rel == Join(segs, "/")
    requires forall t :: 0 <= t < |segs| ==> IsSegment(segs[t])
    ensures |Split(RenderTree(root, files), '\n')| == |files| + 3
    ensures Split(RenderTree(root, files), '\n')[k + 2] == Indent(|segs| - 1) + segs[|segs| - 1]
  {
    RenderTreeLines(root, files);
    TreeLineOfPath(segs);
  }

  /** With no files the tree is the fence around the root line. */
  lemma EmptyTree(root: string)
    ensures RenderTree(root, []) == "```text\n" + Name(root) + "/\n```"
  {
    var lines := TreeLines(root, []);
    assert lines == ["```text", Name(root) + "/", "```"];
    assert lines[1..] == [Name(root) + "/", "```"];
    assert lines[2..] == ["```"];
    assert Join(lines[1..], "\n") == Name(root) + "/" + "\n" + "```";
  }
}
