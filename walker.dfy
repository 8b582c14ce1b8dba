/** `scanDirectory`: the depth-first walk of a directory tree that emits one
    formatted block per eligible regular file, in listing order. The file
    system is a value: a directory is the sequence of entries its listing
    returns, and each regular file carries the result of reading it. */
module Walker {
  import opened Text
  import opened Language
  import opened Format

  datatype Option<T> = None | Some(value: T)

  /** What a listing entry is: a regular file, a directory, or anything
      else (a symbolic link, a socket, a device, ...). */
  datatype Node = File(read: ReadResult) | Dir(entries: seq<Entry>) | Other

  /** One entry of a directory listing: its name and what it is. */
  datatype Entry = Entry(name: string, node: Node)

  /** Entries the walk passes over without looking inside: `node_modules`,
      `.git` and every other name starting with a dot. */
  predicate Skipped(name: string) {
    name == "node_modules" || name == ".git" || StartsWith(name, ".")
  }

  lemma {:induction false} SkippedIff(name: string)
    ensures Skipped(name) <==> name == "node_modules" || (|name| > 0 && name[0] == '.')
  {
    if |name| > 0 && name[0] == '.' {
      assert name[..1] == ".";
    }
  }

  /** The extension filter: an empty list allows every file; otherwise the
      lower-cased extension of the name must be in the list. */
  predicate Allowed(allowed: seq<string>, name: string) {
    |allowed| == 0 || Lower(ExtName(name)) in allowed
  }

  /** An element that is not empty and does not start with a dot never
      equals an extension, so it lets no file through. */
  lemma {:induction false} DotlessNeverMatches(e: string, name: string)
    requires e != [] && e[0] != '.'
    ensures Lower(ExtName(name)) != e
  {
    assert ExtName(name) != [] ==> Lower(ExtName(name))[0] == LowerChar(ExtName(name)[0]) == '.';
  }

  /** Path of an entry relative to the walk's base directory, from the
      names leading to it (`path.join`, `path.relative` with '/'). */
  function RelPath(names: seq<string>): string {
    Join(names, '/')
  }

  /** The output of one entry of the directory whose relative location is
      `dir`: a subdirectory's whole walk, one block for a regular file that
      passes the filter, nothing otherwise. */
  function EntryOutput(e: Entry, dir: seq<string>, allowed: seq<string>): string
    decreases e
  {
    if Skipped(e.name) then ""
    else match e.node
      case Dir(sub) => Walk(sub, dir + [e.name], allowed)
      case File(read) =>
        if Allowed(allowed, e.name) then ProcessFile(RelPath(dir + [e.name]), e.name, read) else ""
      case Other => ""
  }

  /** `scanDirectory` as a function: the entries' outputs, in listing order. */
  function Walk(entries: seq<Entry>, dir: seq<string>, allowed: seq<string>): string
    decreases entries
  {
    if entries == [] then "" else EntryOutput(entries[0], dir, allowed) + Walk(entries[1..], dir, allowed)
  }

  /** The walk is compositional in the listing: the output of a listing is
      the output of its first part followed by that of the rest. */
  lemma {:induction false} WalkAppend(a: seq<Entry>, b: seq<Entry>, dir: seq<string>, allowed: seq<string>)
    ensures Walk(a + b, dir, allowed) == Walk(a, dir, allowed) + Walk(b, dir, allowed)
  {
    if a != [] {
      var c := a + b;
      assert c[0] == a[0] && c[1..] == a[1..] + b;
      WalkAppend(a[1..], b, dir, allowed);
      assert Walk(c, dir, allowed) == EntryOutput(a[0], dir, allowed) + Walk(a[1..] + b, dir, allowed);
      AppendAssoc(EntryOutput(a[0], dir, allowed), Walk(a[1..], dir, allowed), Walk(b, dir, allowed));
    } else {
      assert a + b == b;
    }
  }

  /** `scanDirectory` itself: a loop over the listing that appends to an
      accumulator and calls itself on subdirectories. */
  method ScanDirectory(entries: seq<Entry>, dir: seq<string>, allowed: seq<string>) returns (output: string)
    ensures output == Walk(entries, dir, allowed)
    decreases entries
  {
    output := "";
    for i := 0 to |entries|
      invariant output == Walk(entries[..i], dir, allowed)
    {
      var entry := entries[i];
      WalkAppend(entries[..i], [entry], dir, allowed);
      assert entries[..i + 1] == entries[..i] + [entry];
      if entry.name == "node_modules" || entry.name == ".git" || StartsWith(entry.name, ".") {
        continue;
      }
      match entry.node {
        case Dir(sub) =>
          var inner := ScanDirectory(sub, dir + [entry.name], allowed);
          output := output + inner;
        case File(read) =>
          var ext := Lower(ExtName(entry.name));
          if |allowed| == 0 || ext in allowed {
            output := output + ProcessFile(RelPath(dir + [entry.name]), entry.name, read);
          }
        case Other =>
      }
    }
    assert entries[..|entries|] == entries;
  }

  // ---------------------------------------------------------------------
  // Which files the walk reports, independently of how they are printed.

  /** A regular file the walk reports: the names leading to it from the
      base directory and the result of reading it. */
  datatype Record = Record(names: seq<string>, read: ReadResult)

  function LastName(names: seq<string>): string {
    if names == [] then "" else names[|names| - 1]
  }

  /** The block the formatter prints for a record. */
  function Block(r: Record): string {
    ProcessFile(RelPath(r.names), LastName(r.names), r.read)
  }

  function Blocks(rs: seq<Record>): string {
    if rs == [] then "" else Block(rs[0]) + Blocks(rs[1..])
  }

  lemma {:induction false} BlocksAppend(a: seq<Record>, b: seq<Record>)
    ensures Blocks(a + b) == Blocks(a) + Blocks(b)
  {
    if a != [] {
      var c := a + b;
      assert c[0] == a[0] && c[1..] == a[1..] + b;
      BlocksAppend(a[1..], b);
      assert Blocks(c) == Block(a[0]) + Blocks(a[1..] + b);
      AppendAssoc(Block(a[0]), Blocks(a[1..]), Blocks(b));
    } else {
      assert a + b == b;
    }
  }

  function EntryRecords(e: Entry, dir: seq<string>, allowed: seq<string>): seq<Record>
    decreases e
  {
    if Skipped(e.name) then []
    else match e.node
      case Dir(sub) => Records(sub, dir + [e.name], allowed)
      case File(read) => if Allowed(allowed, e.name) then [Record(dir + [e.name], read)] else []
      case Other => []
  }

  /** The files the walk reports, in the order it reports them. */
  function Records(entries: seq<Entry>, dir: seq<string>, allowed: seq<string>): seq<Record>
    decreases entries
  {
    if entries == [] then [] else EntryRecords(entries[0], dir, allowed) + Records(entries[1..], dir, allowed)
  }

  /** The walk's output is exactly one block per reported file, concatenated
      in the order the files are reported: directories add nothing of their
      own, and each subdirectory's blocks stand where the subdirectory
      stands in its parent's listing. */
  lemma {:induction false} WalkIsBlocksOfRecords(entries: seq<Entry>, dir: seq<string>, allowed: seq<string>)
    ensures Walk(entries, dir, allowed) == Blocks(Records(entries, dir, allowed))
    decreases entries
  {
    if entries != [] {
      EntryOutputIsBlocks(entries[0], dir, allowed);
      WalkIsBlocksOfRecords(entries[1..], dir, allowed);
      BlocksAppend(EntryRecords(entries[0], dir, allowed), Records(entries[1..], dir, allowed));
    }
  }

  lemma {:induction false} EntryOutputIsBlocks(e: Entry, dir: seq<string>, allowed: seq<string>)
    ensures EntryOutput(e, dir, allowed) == Blocks(EntryRecords(e, dir, allowed))
    decreases e
  {
    if !Skipped(e.name) {
      match e.node
      case Dir(sub) => WalkIsBlocksOfRecords(sub, dir + [e.name], allowed);
      case File(read) =>
        if Allowed(allowed, e.name) {
          var r := Record(dir + [e.name], read);
          assert LastName(r.names) == e.name;
          assert Blocks([r]) == Block(r) by {
            assert Blocks([r]) == Block(r) + Blocks([]);
          }
        }
      case Other =>
    }
  }

  /** Names along `path` are all ones the walk does not skip. */
  predicate Visible(path: seq<string>) {
    forall k :: 0 <= k < |path| ==> !Skipped(path[k])
  }

  /** The names of a listing's entries. */
  function Names(entries: seq<Entry>): set<string> {
    set e | e in entries :: e.name
  }

  /** What every reported file looks like: it lies under `dir`, below one of
      the listed entries, every name on its way is visible, and its own name
      passes the filter. */
  lemma {:induction false} RecordsShape(entries: seq<Entry>, dir: seq<string>, allowed: seq<string>)
    ensures forall r :: r in Records(entries, dir, allowed) ==>
      |r.names| > |dir| && r.names[..|dir|] == dir && r.names[|dir|] in Names(entries)
      && Visible(r.names[|dir|..]) && Allowed(allowed, LastName(r.names))
    decreases entries
  {
    if entries != [] {
      EntryRecordsShape(entries[0], dir, allowed);
      RecordsShape(entries[1..], dir, allowed);
      assert entries == [entries[0]] + entries[1..];
    }
  }

  lemma {:induction false} EntryRecordsShape(e: Entry, dir: seq<string>, allowed: seq<string>)
    ensures forall r :: r in EntryRecords(e, dir, allowed) ==>
      |r.names| > |dir| && r.names[..|dir|] == dir && r.names[|dir|] == e.name
      && Visible(r.names[|dir|..]) && Allowed(allowed, LastName(r.names))
    decreases e, 1
  {
    if !Skipped(e.name) {
      match e.node
      case Dir(sub) =>
        SubdirectoryRecordsShape(e, dir, allowed);
      case File(read) =>
        if Allowed(allowed, e.name) {
          var names := dir + [e.name];
          assert names[..|dir|] == dir && names[|dir|..] == [e.name];
          assert LastName(names) == e.name;
        }
      case Other =>
    }
  }

  /** The part of `EntryRecordsShape` for a visible subdirectory. */
  lemma {:induction false} SubdirectoryRecordsShape(e: Entry, dir: seq<string>, allowed: seq<string>)
    requires !Skipped(e.name) && e.node.Dir?
    ensures forall r :: r in Records(e.node.entries, dir + [e.name], allowed) ==>
      |r.names| > |dir| && r.names[..|dir|] == dir && r.names[|dir|] == e.name
      && Visible(r.names[|dir|..]) && Allowed(allowed, LastName(r.names))
    decreases e, 0
  {
    var d := dir + [e.name];
    RecordsShape(e.node.entries, d, allowed);
    forall r | r in Records(e.node.entries, d, allowed)
      ensures |r.names| > |dir| && r.names[..|dir|] == dir && r.names[|dir|] == e.name
      ensures Visible(r.names[|dir|..])
    {
      UnderSubdirectory(r.names, dir, e.name);
    }
  }

  /** The names of a file under the subdirectory `name` of `dir`. */
  lemma {:induction false} UnderSubdirectory(names: seq<string>, dir: seq<string>, name: string)
    requires |names| > |dir| + 1 && names[..|dir| + 1] == dir + [name]
    requires !Skipped(name) && Visible(names[|dir| + 1..])
    ensures names[..|dir|] == dir && names[|dir|] == name
    ensures Visible(names[|dir|..])
  {
    assert names[..|dir|] == names[..|dir| + 1][..|dir|];
    assert names[|dir|] == names[..|dir| + 1][|dir|];
    assert names[|dir|..] == [name] + names[|dir| + 1..];
  }

  // ---------------------------------------------------------------------
  // Addressing files in the tree by the names leading to them.

  /** The node of the first entry called `name`, if any. */
  function Find(entries: seq<Entry>, name: string): Option<Node> {
    if entries == [] then None
    else if entries[0].name == name then Some(entries[0].node)
    else Find(entries[1..], name)
  }

  /** The node reached by following `path` from the listing `entries`. */
  function Lookup(entries: seq<Entry>, path: seq<string>): Option<Node>
    decreases path
  {
    if path == [] then None
    else match Find(entries, path[0])
      case None => None
      case Some(n) =>
        if |path| == 1 then Some(n)
        else match n
          case Dir(sub) => Lookup(sub, path[1..])
          case _ => None
  }

  /** What a real file system guarantees: no two entries of one listing
      share a name, at every level. */
  predicate UniqueNames(entries: seq<Entry>)
    decreases entries
  {
    entries == [] ||
    (entries[0].name !in Names(entries[1..])
     && (entries[0].node.Dir? ==> UniqueNames(entries[0].node.entries))
     && UniqueNames(entries[1..]))
  }

  /** The file at `path` is one the walk must report. */
  predicate Eligible(entries: seq<Entry>, path: seq<string>, read: ReadResult, allowed: seq<string>) {
    path != [] && Lookup(entries, path) == Some(File(read))
    && Visible(path) && Allowed(allowed, path[|path| - 1])
  }

  /** Every regular file reached through visible names whose extension
      passes the filter is reported exactly once, with the result of reading
      it, and nothing else is reported: no hidden entry, nothing under a
      hidden or `node_modules` directory, no directory and no entry of
      another kind. */
  lemma {:induction false} RecordsExactlyOnce(entries: seq<Entry>, dir: seq<string>, allowed: seq<string>, path: seq<string>, read: ReadResult)
    requires UniqueNames(entries) && path != []
    ensures multiset(Records(entries, dir, allowed))[Record(dir + path, read)]
         == if Eligible(entries, path, read, allowed) then 1 else 0
    decreases entries
  {
    var x := Record(dir + path, read);
    if entries != [] {
      var e, rest := entries[0], entries[1..];
      var r0, rr := EntryRecords(e, dir, allowed), Records(rest, dir, allowed);
      assert multiset(Records(entries, dir, allowed))[x] == multiset(r0)[x] + multiset(rr)[x] by {
        assert Records(entries, dir, allowed) == r0 + rr;
      }
      if e.name == path[0] {
        assert x !in rr by {
          RecordsShape(rest, dir, allowed);
          assert (dir + path)[|dir|] == path[0];
        }
        assert Lookup(entries, path) == Lookup([e], path) by {
          assert Find(entries, path[0]) == Find([e], path[0]);
        }
        EntryRecordsOnce(e, dir, allowed, path, read);
      } else {
        assert x !in r0 by {
          EntryRecordsShape(e, dir, allowed);
          assert (dir + path)[|dir|] == path[0];
        }
        assert Lookup(entries, path) == Lookup(rest, path) by {
          assert Find(entries, path[0]) == Find(rest, path[0]);
        }
        RecordsExactlyOnce(rest, dir, allowed, path, read);
      }
    }
  }

  /** The part of `RecordsExactlyOnce` for the entry that `path` starts at. */
  lemma {:induction false} EntryRecordsOnce(e: Entry, dir: seq<string>, allowed: seq<string>, path: seq<string>, read: ReadResult)
    requires path != [] && e.name == path[0]
    requires e.node.Dir? ==> UniqueNames(e.node.entries)
    ensures multiset(EntryRecords(e, dir, allowed))[Record(dir + path, read)]
         == if Eligible([e], path, read, allowed) then 1 else 0
    decreases e, 1
  {
    var x := Record(dir + path, read);
    assert Find([e], path[0]) == Some(e.node);
    if Skipped(e.name) {
      assert !Visible(path);
    } else {
      match e.node
      case Dir(sub) =>
        if |path| == 1 {
          RecordsShape(sub, dir + [e.name], allowed);
          assert x !in Records(sub, dir + [e.name], allowed);
        } else {
          SubdirectoryRecordsOnce(e, dir, allowed, path, read);
        }
      case File(rd) =>
        if |path| == 1 {
          assert dir + path == dir + [e.name];
        } else {
          assert Lookup([e], path) == None;
          assert |dir + path| != |dir + [e.name]|;
        }
      case Other =>
        assert Lookup([e], path) != Some(File(read));
    }
  }

  /** The part of `EntryRecordsOnce` for a path that goes on below the
      visible subdirectory `e`. */
  lemma {:induction false} SubdirectoryRecordsOnce(e: Entry, dir: seq<string>, allowed: seq<string>, path: seq<string>, read: ReadResult)
    requires |path| > 1 && e.name == path[0] && !Skipped(e.name) && e.node.Dir?
    requires UniqueNames(e.node.entries)
    ensures multiset(EntryRecords(e, dir, allowed))[Record(dir + path, read)]
         == if Eligible([e], path, read, allowed) then 1 else 0
    decreases e, 0
  {
    var sub, d := e.node.entries, dir + [e.name];
    assert EntryRecords(e, dir, allowed) == Records(sub, d, allowed);
    assert d + path[1..] == dir + path;
    assert Find([e], path[0]) == Some(e.node);
    assert Lookup([e], path) == Lookup(sub, path[1..]);
    assert Visible(path) <==> Visible(path[1..]) by {
      assert forall k :: 1 <= k < |path| ==> path[1..][k - 1] == path[k];
    }
    assert path[1..][|path[1..]| - 1] == path[|path| - 1];
    RecordsExactlyOnce(sub, d, allowed, path[1..], read);
  }
}
