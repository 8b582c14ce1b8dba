/** `processFile`: the fixed-shape Markdown block emitted for one file. The
    file read is an input value, so the formatter is a pure function of the
    relative path, the file name and what the read produced. */
module Format {
  import opened Text
  import opened Language

  /** Outcome of `fs.readFileSync`: the decoded text, or the message of the
      error it threw. */
  datatype ReadResult = Content(text: string) | Failed(message: string)

  /** First three lines of every block: a rule, `File: ` with the relative
      path in forward-slash form, and another rule. */
  function Header(relPath: string): (h: string)
    ensures '\\' !in h
    ensures |h| == |relPath| + 15 && h[10..|h| - 5] == Slashed(relPath)
    ensures '\\' !in relPath ==> h[10..|h| - 5] == relPath
    ensures h[..10] == "---\nFile: " && h[|h| - 5..] == "\n---\n"
  {
    SlashedKeepsPlainText(relPath);
    var h := "---\nFile: " + Slashed(relPath) + "\n---\n";
    assert forall k :: 0 <= k < |h| ==> h[k] != '\\' by {
      forall k | 0 <= k < |h| ensures h[k] != '\\' {
        if 10 <= k < 10 + |relPath| { assert h[k] == Slashed(relPath)[k - 10]; }
      }
    }
    h
  }

  /** `processFile`. A successful read gives the header, an opening fence
      tagged with the language hint of `fileName`, the trimmed content and a
      closing fence; a failed read gives the header and one error line. */
  function ProcessFile(relPath: string, fileName: string, read: ReadResult): (block: string)
    ensures Header(relPath) <= block
    ensures |block| >= 2 && block[|block| - 2..] == "\n\n"
  {
    match read
    case Content(text) =>
      var h, hint, body := Header(relPath), LanguageHint(fileName), Trim(text);
      var block := h + "```" + hint + "\n" + body + "\n```" + "\n\n";
      assert h <= block && block[|block| - 2..] == "\n\n" by {
        PrefixExtend(h, h, "```");
        PrefixExtend(h, h + "```", hint);
        PrefixExtend(h, h + "```" + hint, "\n");
        PrefixExtend(h, h + "```" + hint + "\n", body);
        PrefixExtend(h, h + "```" + hint + "\n" + body, "\n```");
        PrefixExtend(h, h + "```" + hint + "\n" + body + "\n```", "\n\n");
        EndsWithAppended(h + "```" + hint + "\n" + body + "\n```", "\n\n");
      }
      block
    case Failed(message) =>
      var h := Header(relPath);
      var block := h + "Error reading file: " + message + "\n\n";
      assert h <= block && block[|block| - 2..] == "\n\n" by {
        PrefixExtend(h, h, "Error reading file: ");
        PrefixExtend(h, h + "Error reading file: ", message);
        PrefixExtend(h, h + "Error reading file: " + message, "\n\n");
        EndsWithAppended(h + "Error reading file: " + message, "\n\n");
      }
      block
  }

  /** A successful read yields a fenced block whose body is the content with
      its surrounding whitespace cut: the body is a slice of the content,
      everything cut away is whitespace, and neither end of the body is. */
  lemma {:induction false} ContentBlockShape(relPath: string, fileName: string, text: string)
    ensures exists body ::
      && ProcessFile(relPath, fileName, Content(text))
         == Header(relPath) + "```" + LanguageHint(fileName) + "\n" + body + "\n```" + "\n\n"
      && TrimsTo(text, |text| - |TrimStart(text)|, body)
  {
    var h, hint, body := Header(relPath), LanguageHint(fileName), Trim(text);
    assert ProcessFile(relPath, fileName, Content(text)) == h + "```" + hint + "\n" + body + "\n```" + "\n\n";
    assert TrimsTo(text, |text| - |TrimStart(text)|, body);
  }

  /** Leading and trailing whitespace of the content never reaches the
      block: padding the content with whitespace leaves the block unchanged. */
  lemma {:induction false} BlockIgnoresPadding(relPath: string, fileName: string, before: string, text: string, after: string)
    requires AllSpace(before) && AllSpace(after)
    ensures ProcessFile(relPath, fileName, Content(before + text + after))
         == ProcessFile(relPath, fileName, Content(text))
  {
    TrimIgnoresSurroundingSpace(before, text, after);
  }

  /** A failed read still yields exactly one block, with the same header as
      a successful one, the error line, and no code fence of its own. */
  lemma {:induction false} ErrorBlockShape(relPath: string, fileName: string, message: string, text: string)
    ensures ProcessFile(relPath, fileName, Failed(message))
         == Header(relPath) + "Error reading file: " + message + "\n\n"
    ensures Header(relPath) <= ProcessFile(relPath, fileName, Content(text))
  {
  }

  /** The header depends on the relative path only through its forward-slash
      form: a path written with backslashes and the same path written with
      slashes give the same block. */
  lemma {:induction false} HeaderIgnoresSeparatorStyle(p: string, q: string, fileName: string, read: ReadResult)
    requires |p| == |q|
    requires forall k :: 0 <= k < |p| ==> p[k] == q[k] || (p[k] in "\\/" && q[k] in "\\/")
    ensures ProcessFile(p, fileName, read) == ProcessFile(q, fileName, read)
  {
    assert Slashed(p) == Slashed(q) by {
      forall k | 0 <= k < |p| ensures Slashed(p)[k] == Slashed(q)[k] {}
    }
    assert Header(p) == Header(q);
  }
}
