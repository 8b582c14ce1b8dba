/** The command's action: parse the `--ext` option, then build the prompt
    document from the selected paths. The interactive selection, the
    `fs.statSync` calls and the final `fs.writeFileSync` are outside the
    model: the selection arrives as a sequence of (base name, node) pairs,
    the node being what `fs.statSync` reports for the path. */
module Prompt {
  import opened Text
  import opened Language
  import opened Format
  import opened Walker

  /** One selected path: its base name and what it is. */
  datatype Selected = Selected(name: string, node: Node)

  /** One element of the `--ext` option: trimmed and lower-cased. */
  function NormalizeExt(piece: string): string {
    Lower(Trim(piece))
  }

  /** The `--ext` option as the allowed-extension list: empty for an empty
      option, otherwise one normalized element per comma-separated piece. */
  function ParseExts(option: string): (exts: seq<string>)
    ensures option == "" ==> exts == []
    ensures option != "" ==> |exts| == Occurrences(option, ',') + 1
    ensures forall k :: 0 <= k < |exts| ==> ',' !in exts[k]
  {
    if option == "" then []
    else
      var pieces := Split(option, ',');
      var exts := seq(|pieces|, k requires 0 <= k < |pieces| => NormalizeExt(pieces[k]));
      assert forall k :: 0 <= k < |exts| ==> ',' !in exts[k] by {
        forall k | 0 <= k < |exts| ensures ',' !in exts[k] {
          NormalizeExtKeepsOut(pieces[k], ',');
        }
      }
      exts
  }

  /** Normalizing a piece does not introduce a character that is neither
      whitespace nor an upper-case letter. */
  lemma {:induction false} NormalizeExtKeepsOut(piece: string, c: char)
    requires c !in piece && !IsJsSpace(c) && !('A' <= c <= 'Z') && !('a' <= c <= 'z')
    ensures c !in NormalizeExt(piece)
  {
    var t := Trim(piece);
    assert TrimsTo(piece, |piece| - |TrimStart(piece)|, t);
    forall k | 0 <= k < |t| ensures LowerChar(t[k]) != c {
      assert t[k] in piece;
    }
  }

  /** Every element of the parsed list is already in normal form: trimmed
      and lower-case. */
  lemma {:induction false} ParseExtsNormalized(option: string)
    ensures forall k :: 0 <= k < |ParseExts(option)| ==>
      Trim(ParseExts(option)[k]) == ParseExts(option)[k] && Lower(ParseExts(option)[k]) == ParseExts(option)[k]
  {
    forall k | 0 <= k < |ParseExts(option)|
      ensures Trim(ParseExts(option)[k]) == ParseExts(option)[k] && Lower(ParseExts(option)[k]) == ParseExts(option)[k]
    {
      var pieces := Split(option, ',');
      var t := Trim(pieces[k]);
      LowerTrimCommute(t);
      TrimIdempotent(pieces[k]);
      LowerIdempotent(t);
    }
  }

  /** The option is read without regard to case. */
  lemma {:induction false} ParseExtsIgnoresCase(option: string)
    ensures ParseExts(Lower(option)) == ParseExts(option)
  {
    if option != "" {
      LowerSplitCommute(option);
      var p, q := Split(option, ','), Split(Lower(option), ',');
      forall k | 0 <= k < |p| ensures NormalizeExt(q[k]) == NormalizeExt(p[k]) {
        LowerTrimCommute(p[k]);
        LowerIdempotent(Trim(p[k]));
      }
    }
  }

  /** Extension filtering ignores case on both sides: in the option and in
      the file name. */
  lemma {:induction false} FilterIgnoresCase(option: string, a: string, b: string)
    requires Lower(a) == Lower(b)
    ensures Allowed(ParseExts(Lower(option)), a) == Allowed(ParseExts(option), b)
  {
    ParseExtsIgnoresCase(option);
    ExtNameLower(a);
    ExtNameLower(b);
    LowerIdempotent(ExtName(a));
    LowerIdempotent(ExtName(b));
    assert Lower(ExtName(a)) == Lower(ExtName(Lower(a))) == Lower(ExtName(b));
  }

  /** An option without a comma is a single element. */
  lemma {:induction false} ParseSinglePiece(option: string)
    requires option != "" && ',' !in option
    ensures ParseExts(option) == [NormalizeExt(option)]
  {
    SplitPiece(option, ',');
    ParseExtsElement(option, 0);
  }

  /** A trailing comma leaves an empty last piece, so the empty
      extension is allowed and every file without an extension passes the
      filter. */
  lemma {:induction false} TrailingCommaAllowsBareNames(option: string, name: string)
    requires option != "" && option[|option| - 1] == ','
    requires ExtName(name) == ""
    ensures "" in ParseExts(option)
    ensures Allowed(ParseExts(option), name)
  {
    var pieces := Split(option, ',');
    SplitEndsEmpty(option, ',');
    ParseExtsElement(option, |pieces| - 1);
    assert NormalizeExt(pieces[|pieces| - 1]) == "";
  }

  /** Element `k` of the parsed list comes from piece `k` of the option. */
  lemma {:induction false} ParseExtsElement(option: string, k: int)
    requires option != "" && 0 <= k < |Split(option, ',')|
    ensures |ParseExts(option)| == |Split(option, ',')|
    ensures ParseExts(option)[k] == NormalizeExt(Split(option, ',')[k])
  {
  }

  lemma {:induction false} SplitEndsEmpty(s: string, sep: char)
    requires s != [] && s[|s| - 1] == sep
    ensures Split(s, sep)[|Split(s, sep)| - 1] == []
  {
    JoinEndsWithLast(Split(s, sep), sep);
  }

  /** The fixed opening of every prompt document. */
  const Preamble: string := "# Project Analysis Prompt\n\nAnalyze the following project structure and file contents.\n\n"

  /** The section for one selected path: a `## From:` heading with its base
      name, then the walk of a directory (relative to the directory itself)
      or the block of a file (relative to its parent, so its base name),
      and nothing more for any other kind of node. */
  function Section(sel: Selected, exts: seq<string>): string {
    "## From: " + sel.name + "\n\n" +
    match sel.node
    case Dir(entries) => Walk(entries, [], exts)
    case File(read) => ProcessFile(sel.name, sel.name, read)
    case Other => ""
  }

  function Sections(sels: seq<Selected>, exts: seq<string>): string {
    if sels == [] then "" else Section(sels[0], exts) + Sections(sels[1..], exts)
  }

  lemma {:induction false} SectionsAppend(a: seq<Selected>, b: seq<Selected>, exts: seq<string>)
    ensures Sections(a + b, exts) == Sections(a, exts) + Sections(b, exts)
  {
    if a != [] {
      var c := a + b;
      assert c[0] == a[0] && c[1..] == a[1..] + b;
      SectionsAppend(a[1..], b, exts);
      assert Sections(c, exts) == Section(a[0], exts) + Sections(a[1..] + b, exts);
      AppendAssoc(Section(a[0], exts), Sections(a[1..], exts), Sections(b, exts));
    } else {
      assert a + b == b;
    }
  }

  lemma {:induction false} SectionsStep(sels: seq<Selected>, i: int, exts: seq<string>)
    requires 0 <= i < |sels|
    ensures Sections(sels[..i + 1], exts) == Sections(sels[..i], exts) + Section(sels[i], exts)
  {
    assert sels[..i + 1] == sels[..i] + [sels[i]];
    SectionsAppend(sels[..i], [sels[i]], exts);
    assert Sections([sels[i]], exts) == Section(sels[i], exts) + Sections([], exts);
  }

  /** The whole document for a selection and an `--ext` option. */
  function PromptText(sels: seq<Selected>, option: string): string {
    Preamble + Sections(sels, ParseExts(option))
  }

  /** The action callback: split the option, emit the preamble, then one
      section per selected path in selection order. */
  method BuildPrompt(selectedPaths: seq<Selected>, option: string) returns (finalOutput: string)
    ensures finalOutput == PromptText(selectedPaths, option)
  {
    var exts := ParseExts(option);
    finalOutput := Preamble;
    for i := 0 to |selectedPaths|
      invariant finalOutput == Preamble + Sections(selectedPaths[..i], exts)
    {
      var item := selectedPaths[i];
      var section := "## From: " + item.name + "\n\n";
      match item.node {
        case Dir(entries) =>
          var walked := ScanDirectory(entries, [], exts);
          section := section + walked;
        case File(read) =>
          section := section + ProcessFile(item.name, item.name, read);
        case Other =>
      }
      assert section == Section(item, exts);
      SectionsStep(selectedPaths, i, exts);
      AppendAssoc(Preamble, Sections(selectedPaths[..i], exts), section);
      finalOutput := finalOutput + section;
    }
    assert selectedPaths[..|selectedPaths|] == selectedPaths;
  }

  /** The document starts with the preamble, and the sections of a
      selection made of two parts are those of the first part followed by
      those of the second. */
  lemma {:induction false} PromptInSelectionOrder(a: seq<Selected>, b: seq<Selected>, option: string)
    ensures PromptText(a + b, option) == PromptText(a, option) + Sections(b, ParseExts(option))
    ensures Preamble <= PromptText(a + b, option)
  {
    var exts := ParseExts(option);
    SectionsAppend(a, b, exts);
    AppendAssoc(Preamble, Sections(a, exts), Sections(b, exts));
    PrefixExtend(Preamble, Preamble, Sections(a + b, exts));
  }

  /** A directly selected file is formatted whatever the `--ext` option
      says: the filter applies only inside directories. */
  lemma {:induction false} SelectedFileIgnoresFilter(name: string, read: ReadResult, exts1: seq<string>, exts2: seq<string>)
    ensures Section(Selected(name, File(read)), exts1) == Section(Selected(name, File(read)), exts2)
    ensures Section(Selected(name, File(read)), exts1) == "## From: " + name + "\n\n" + ProcessFile(name, name, read)
  {
  }
}
