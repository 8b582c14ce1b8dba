/** Worked cases on concrete names and options. */
module Examples {
  import opened Text
  import opened Language

  lemma {:induction false} LowerUpperTs()
    ensures Lower(".TS") == ".ts"
  {
    assert Lower(".TS")[1] == LowerChar('T') && Lower(".TS")[2] == LowerChar('S');
  }

  lemma {:induction false} LowerTxt()
    ensures Lower(".txt") == ".txt"
  {
    assert Lower(".txt")[1] == LowerChar('t') && Lower(".txt")[2] == LowerChar('x');
  }

  /** An upper-case extension classifies like the lower-case one. */
  lemma {:induction false} HintUpperCase()
    ensures LanguageHint("main.TS") == "typescript"
  {
    assert LanguageHint("main.TS") == if ".ts" in Hints then Hints[".ts"] else "" by {
      LowerUpperTs();
      assert "main" + ".TS" == "main.TS";
      HintOfExtension("main", ".TS");
    }
    assert ".ts" in Hints && Hints[".ts"] == "typescript";
  }

  /** ".txt" is listed, with the empty hint. */
  lemma {:induction false} HintTxt()
    ensures LanguageHint("readme.txt") == ""
  {
    assert LanguageHint("readme.txt") == if ".txt" in Hints then Hints[".txt"] else "" by {
      LowerTxt();
      assert "readme" + ".txt" == "readme.txt";
      HintOfExtension("readme", ".txt");
    }
  }

  /** A name with no dot after its first character has no extension, so no
      hint. */
  lemma {:induction false} HintNoExtension()
    ensures LanguageHint("Makefile") == "" && LanguageHint(".bashrc") == ""
  {
    assert forall k :: 0 < k < |"Makefile"| ==> "Makefile"[k] != '.';
    assert forall k :: 0 < k < |".bashrc"| ==> ".bashrc"[k] != '.';
  }
}
