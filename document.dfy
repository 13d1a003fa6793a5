/**
 * The Markdown document of the pack (`build_pack`, the sections part): a
 * header, the repository tree, a note on exclusions, the files heading and
 * one fenced block per selected file, joined by line breaks.
 */
module Assembly {
  import opened Text
  import opened Paths
  import opened Selection
  import opened Tree

  /** What reading a file gives: its text, or the error that reading raised. */
  datatype ReadResult = Content(text: string) | Unreadable(reason: string)

  /** `read_text_safe`: the text, or a placeholder naming the file and the error. */
  function ReadText(res: ReadResult, name: string): string
  {
    match res
    case Content(text) => text
    case Unreadable(reason) => "<<UNREADABLE " + name + ": " + reason + ">>"
  }

  /** The longest text, in characters, that goes into the pack as it is. */
  const MaxChars := 250000

  /** What replaces the rest of a longer text. */
  const TruncatedMarker := "\n<<TRUNCATED>>\n"

  /** The safety cut: a text longer than `MaxChars` keeps its first `MaxChars` characters and the marker. */
  function Truncate(text: string): (r: string)
    ensures |text| <= MaxChars ==> r == text
    ensures |text| > MaxChars ==>
      |r| == MaxChars + |TruncatedMarker| && r[..MaxChars] == text[..MaxChars] && EndsWith(r, TruncatedMarker)
  {
    if |text| > MaxChars then
      var r := text[..MaxChars] + TruncatedMarker;
      assert r[|r| - |TruncatedMarker|..] == TruncatedMarker;
      r
    else
      text
  }

  /** Cutting an already cut text changes nothing, and no text grows past the cut and the marker. */
  lemma TruncateIdempotent(text: string)
    ensures Truncate(Truncate(text)) == Truncate(text)
    ensures |Truncate(text)| <= MaxChars + |TruncatedMarker|
  {
    if |text| > MaxChars {
      var r := Truncate(text);
      assert r[..MaxChars] + TruncatedMarker == r;
    }
  }

  /** The first section: title, root and build time (`builtAt` is the UTC time in ISO form). */
  function Header(root: string, builtAt: string): string
  {
    "# Project Context Pack\n\n- Root: `" + root + "`\n- Built: " + builtAt + "Z\n"
  }

  function TreeSection(root: string, files: seq<SelectedFile>): string
  {
    "## Repository Tree (filtered)\n" + RenderTree(root, files) + "\n"
  }

  const NoteSection := "## Note on Exclusions\nThis pack was generated with `.gptignore`/defaults to skip large, binary, or secret files.\n"

  const FilesHeading := "## Files\n"

  /** The block of one file: its relative path as a heading, then the text fenced with the suffix as tag. */
  function FileSection(rel: string, lang: string, text: string): (r: string)
    ensures |r| >= 1 && r[|r| - 1] == '\n'
  {
    var r := "\n### `" + rel + "`\n```" + lang + "\n" + text + "\n```\n";
    assert r == ("\n### `" + rel + "`\n```" + lang + "\n" + text) + "\n```\n";
    r
  }

  /** The block of a file as reading its path gives it. */
  function FileBlock(f: SelectedFile, read: string -> ReadResult): string
  {
    FileSection(f.rel, FenceLang(f.name), Truncate(ReadText(read(f.path), f.name)))
  }

  /** The blocks of the files in order, each made by `block`. */
  function Blocks(files: seq<SelectedFile>, block: SelectedFile -> string): (r: seq<string>)
    ensures |r| == |files|
  {
    if files == [] then [] else Blocks(files[..|files| - 1], block) + [block(files[|files| - 1])]
  }

  /** The `k`-th block is the block of the `k`-th file. */
  lemma {:induction false} BlocksAt(files: seq<SelectedFile>, block: SelectedFile -> string, k: int)
    requires 0 <= k < |files|
    ensures Blocks(files, block)[k] == block(files[k])
  {
    var front := files[..|files| - 1];
    if k < |front| {
      BlocksAt(front, block, k);
      assert front[k] == files[k];
    }
  }

  /** One more file adds its block at the end. */
  lemma BlocksSnoc(files: seq<SelectedFile>, block: SelectedFile -> string, k: int)
    requires 0 <= k < |files|
    ensures Blocks(files[..k + 1], block) == Blocks(files[..k], block) + [block(files[k])]
  {
    assert files[..k + 1][..k] == files[..k];
  }

  /** How each selected file becomes its block, given what reading a path gives. */
  function BlockOf(read: string -> ReadResult): SelectedFile -> string
  {
    f => FileBlock(f, read)
  }

  /** The file blocks, one per selected file, in order. */
  function FileSections(files: seq<SelectedFile>, read: string -> ReadResult): seq<string>
  {
    Blocks(files, BlockOf(read))
  }

  function FixedSections(root: string, builtAt: string, files: seq<SelectedFile>): seq<string>
  {
    [Header(root, builtAt), TreeSection(root, files), NoteSection, FilesHeading]
  }

  /** `"\n".join(sections)`: the whole document. */
  function Document(root: string, builtAt: string, files: seq<SelectedFile>, read: string -> ReadResult): string
  {
    Join(FixedSections(root, builtAt, files) + FileSections(files, read), "\n")
  }

  /**
   * The loop of `build_pack` that reads each selected file, cuts it, and
   * appends its block to the sections, then joins them.
   */
  method AssembleDocument(root: string, builtAt: string, files: seq<SelectedFile>, read: string -> ReadResult)
    returns (doc: string)
    ensures doc == Document(root, builtAt, files, read)
  {
    var sections := [Header(root, builtAt), TreeSection(root, files), NoteSection, FilesHeading];
    ghost var fixed := FixedSections(root, builtAt, files);
    assert files[..0] == [];
    assert sections == fixed + FileSections(files[..0], read);
    for k := 0 to |files|
      invariant sections == fixed + FileSections(files[..k], read)
    {
      var f := files[k];
      var raw := ReadText(read(f.path), f.name);
      var text := raw;
      if |text| > MaxChars {
        text := text[..MaxChars] + TruncatedMarker;
      }
      var fenceLang := FenceLang(f.name);
      var block := FileSection(f.rel, fenceLang, text);
      AppendBlock(files, k, read, fixed, text, block);
      sections := sections + [block];
    }
    assert files[..|files|] == files;
    doc := Join(sections, "\n");
  }

  /** The `k`-th file block is the block of the `k`-th selected file. */
  lemma FileSectionsAt(files: seq<SelectedFile>, read: string -> ReadResult, k: int)
    requires 0 <= k < |files|
    ensures FileSections(files, read)[k] == FileBlock(files[k], read)
  {
    BlocksAt(files, BlockOf(read), k);
  }

  /** The step of the loop: the block built from the cut text is the next file block. */
  lemma AppendBlock(files: seq<SelectedFile>, k: int, read: string -> ReadResult, fixed: seq<string>,
                    text: string, block: string)
    requires 0 <= k < |files|
    requires var raw := ReadText(read(files[k].path), files[k].name);
      text == if |raw| > MaxChars then raw[..MaxChars] + TruncatedMarker else raw
    requires block == FileSection(files[k].rel, FenceLang(files[k].name), text)
    ensures fixed + FileSections(files[..k + 1], read) == fixed + FileSections(files[..k], read) + [block]
  {
    FileSectionsSnoc(files, k, read);
  }

  lemma FileSectionsSnoc(files: seq<SelectedFile>, k: int, read: string -> ReadResult)
    requires 0 <= k < |files|
    ensures FileSections(files[..k + 1], read) == FileSections(files[..k], read) + [FileBlock(files[k], read)]
  {
    BlocksSnoc(files, BlockOf(read), k);
  }

  /**
   * The document is the header, the tree, the note and the files heading,
   * each followed by a line break, and then every file block behind a line
   * break of its own, in the order of `files`.
   */
  lemma DocumentLayout(root: string, builtAt: string, files: seq<SelectedFile>, read: string -> ReadResult)
    ensures Document(root, builtAt, files, read) ==
      Header(root, builtAt) + "\n" + TreeSection(root, files) + "\n" + NoteSection + "\n" + FilesHeading +
      Prefixed(FileSections(files, read), "\n")
  {
    JoinFour(Header(root, builtAt), TreeSection(root, files), NoteSection, FilesHeading, FileSections(files, read));
  }

  lemma JoinFour(a: string, b: string, c: string, d: string, blocks: seq<string>)
    ensures Join([a, b, c, d] + blocks, "\n") == a + "\n" + b + "\n" + c + "\n" + d + Prefixed(blocks, "\n")
  {
    assert [a, b, c, d] + blocks == [a] + ([b] + ([c] + ([d] + blocks)));
    JoinFront(a, [b] + ([c] + ([d] + blocks)), "\n");
    PrefixedShift(a, b, [c] + ([d] + blocks), "\n");
    PrefixedShift(a + "\n" + b, c, [d] + blocks, "\n");
    PrefixedShift(a + "\n" + b + "\n" + c, d, blocks, "\n");
  }

  /** The document always ends in a line break, whatever the files hold. */
  lemma DocumentEndsWithNewline(root: string, builtAt: string, files: seq<SelectedFile>, read: string -> ReadResult)
    ensures var d := Document(root, builtAt, files, read); |d| >= 1 && d[|d| - 1] == '\n'
  {
    var blocks := FileSections(files, read);
    var parts := FixedSections(root, builtAt, files) + blocks;
    if blocks == [] {
      assert parts[|parts| - 1] == FilesHeading;
    } else {
      FileSectionsAt(files, read, |files| - 1);
      assert parts[|parts| - 1] == blocks[|blocks| - 1];
    }
    JoinLast(parts, "\n");
  }
}
