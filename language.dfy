/** File-extension handling: Node's `path.extname` applied to a file name,
    and the language hint `getLanguageHint` derives from it for a Markdown
    code fence. */
module Language {
  import opened Text

  /** Index of the last '.' in `s`, or -1 when there is none. */
  function LastDot(s: string): (d: int)
    ensures -1 <= d < |s|
    ensures d >= 0 ==> s[d] == '.'
    ensures forall k :: d < k < |s| ==> s[k] != '.'
  {
    if s == [] then -1
    else if s[|s| - 1] == '.' then |s| - 1
    else LastDot(s[..|s| - 1])
  }

  /** `path.extname` of a single path component (a name holding no '/'):
      the suffix from the last '.', or "" when the name has no dot after
      its first character, and "" for the name "..". */
  function ExtName(name: string): (ext: string)
    ensures |ext| <= |name| && ext == name[|name| - |ext|..]
    ensures ext == [] || (ext[0] == '.' && '.' !in ext[1..])
    ensures ext == [] <==> name == ".." || forall k :: 0 < k < |name| ==> name[k] != '.'
  {
    var d := LastDot(name);
    if d <= 0 || name == ".." then []
    else
      assert forall k :: 1 <= k < |name| - d ==> name[d..][k] == name[d + k];
      name[d..]
  }

  /** A name made of a non-empty stem and an extension that starts with its
      only dot and has at least one more character has exactly that
      extension. */
  lemma {:induction false} ExtNameOfSuffix(stem: string, ext: string)
    requires stem != [] && |ext| >= 2 && ext[0] == '.' && '.' !in ext[1..]
    ensures ExtName(stem + ext) == ext
  {
    var name := stem + ext;
    forall k | |stem| < k < |name| ensures name[k] != '.' {
      assert name[k] == ext[1..][k - |stem| - 1];
    }
    assert LastDot(name) == |stem| by {
      LastDotIs(name, |stem|);
    }
    assert name != "..";
    assert name[|stem|..] == ext;
  }

  lemma {:induction false} LastDotIs(s: string, d: int)
    requires 0 <= d < |s| && s[d] == '.'
    requires forall k :: d < k < |s| ==> s[k] != '.'
    ensures LastDot(s) == d
  {
    if s[|s| - 1] != '.' {
      LastDotIs(s[..|s| - 1], d);
    }
  }

  /** Two names of the same length with their dots in the same places. */
  predicate SameDots(a: string, b: string) {
    |a| == |b| && forall k :: 0 <= k < |a| ==> (a[k] == '.' <==> b[k] == '.')
  }

  lemma {:induction false} LastDotSameDots(a: string, b: string)
    requires SameDots(a, b)
    ensures LastDot(a) == LastDot(b)
  {
    if a != [] {
      LastDotSameDots(a[..|a| - 1], b[..|b| - 1]);
    }
  }

  /** The length of the extension depends only on where the dots are. */
  lemma {:induction false} ExtNameSameDots(a: string, b: string)
    requires SameDots(a, b)
    ensures |ExtName(a)| == |ExtName(b)|
  {
    LastDotSameDots(a, b);
    if |a| == 2 {
      assert a == [a[0], a[1]] && b == [b[0], b[1]];
    }
  }

  /** Lower-casing a name lower-cases its extension and nothing else about
      it: the dots stay where they were. */
  lemma {:induction false} ExtNameLower(name: string)
    ensures ExtName(Lower(name)) == Lower(ExtName(name))
  {
    var low := Lower(name);
    ExtNameSameDots(name, low);
    var n := |name| - |ExtName(name)|;
    assert ExtName(low) == low[n..];
    assert low[n..] == Lower(name[n..]);
  }

  /** The language table of `getLanguageHint`, keyed by lower-case
      extension. ".txt" is listed with an empty hint. */
  const Hints: map<string, string> := map[
    ".js" := "javascript", ".ts" := "typescript", ".jsx" := "jsx", ".tsx" := "tsx",
    ".py" := "python", ".java" := "java", ".cs" := "csharp", ".php" := "php",
    ".rb" := "ruby", ".go" := "go", ".rs" := "rust", ".swift" := "swift",
    ".kt" := "kotlin", ".scala" := "scala", ".html" := "html", ".css" := "css",
    ".scss" := "scss", ".sh" := "bash", ".ps1" := "powershell", ".sql" := "sql",
    ".xml" := "xml", ".txt" := ""
  ]

  /** `getLanguageHint`: the hint for the lower-cased extension of the file
      name, or "" when the table has none. */
  function LanguageHint(fileName: string): (hint: string)
    ensures hint == "" <==> Lower(ExtName(fileName)) !in Hints || Lower(ExtName(fileName)) == ".txt"
  {
    var ext := Lower(ExtName(fileName));
    if ext in Hints then Hints[ext] else ""
  }

  /** A name made of a non-empty stem and an extension (a leading dot, no
      other dot, at least one more character) gets the table's hint for the
      lower-cased extension, or "" when the table has none. */
  lemma {:induction false} HintOfExtension(stem: string, ext: string)
    requires stem != [] && |ext| >= 2 && ext[0] == '.' && '.' !in ext[1..]
    ensures LanguageHint(stem + ext) == if Lower(ext) in Hints then Hints[Lower(ext)] else ""
  {
    ExtNameOfSuffix(stem, ext);
  }

  /** Classification ignores case: two names that agree up to ASCII case
      get the same hint (a name ending in ".TS" is "typescript"). */
  lemma {:induction false} HintIgnoresCase(a: string, b: string)
    requires Lower(a) == Lower(b)
    ensures LanguageHint(a) == LanguageHint(b)
  {
    ExtNameLower(a);
    ExtNameLower(b);
    LowerIdempotent(ExtName(a));
    LowerIdempotent(ExtName(b));
    assert Lower(ExtName(a)) == Lower(Lower(ExtName(a))) == Lower(ExtName(Lower(a)));
  }
}
