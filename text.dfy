/** String operations the tool relies on from the JavaScript runtime:
    `String.prototype.trim`, `toLowerCase`, `replace(/\\/g, '/')`,
    `split(',')` and `startsWith`. Strings are sequences of Unicode scalar
    values. */
module Text {

  /** The ECMAScript WhiteSpace and LineTerminator code points, which is
      exactly the set `String.prototype.trim` strips from both ends. */
  predicate IsJsSpace(c: char) {
    c == '\t' || c == '\n' || c == '\U{000B}' || c == '\U{000C}' || c == '\r'
    || c == ' ' || c == '\U{00A0}' || c == '\U{1680}'
    || ('\U{2000}' <= c <= '\U{200A}')
    || c == '\U{2028}' || c == '\U{2029}' || c == '\U{202F}' || c == '\U{205F}'
    || c == '\U{3000}' || c == '\U{FEFF}'
  }

  predicate AllSpace(s: string) {
    forall i :: 0 <= i < |s| ==> IsJsSpace(s[i])
  }

  /** Neither end of `s` is whitespace (vacuously true of the empty string). */
  predicate Tight(s: string) {
    s == [] || (!IsJsSpace(s[0]) && !IsJsSpace(s[|s| - 1]))
  }

  /** `s` with its leading whitespace removed. */
  function TrimStart(s: string): (r: string)
    ensures |r| <= |s| && r == s[|s| - |r|..]
    ensures AllSpace(s[..|s| - |r|])
    ensures r == [] || !IsJsSpace(r[0])
  {
    if s == [] || !IsJsSpace(s[0]) then s else TrimStart(s[1..])
  }

  /** `s` with its trailing whitespace removed. */
  function TrimEnd(s: string): (r: string)
    ensures |r| <= |s| && r == s[..|r|]
    ensures AllSpace(s[|r|..])
    ensures r == [] || !IsJsSpace(r[|r| - 1])
  {
    if s == [] || !IsJsSpace(s[|s| - 1]) then s else TrimEnd(s[..|s| - 1])
  }

  /** `r` is what is left of `s` once `i` leading and some trailing
      whitespace characters are cut off, and neither end of `r` is whitespace. */
  predicate TrimsTo(s: string, i: int, r: string) {
    0 <= i <= |s| - |r| && s[i..i + |r|] == r
    && AllSpace(s[..i]) && AllSpace(s[i + |r|..]) && Tight(r)
  }

  /** `String.prototype.trim`. */
  function Trim(s: string): (r: string)
    ensures TrimsTo(s, |s| - |TrimStart(s)|, r)
  {
    TrimEndAfterTrimStart(s);
    TrimEnd(TrimStart(s))
  }

  lemma {:induction false} TrimEndAfterTrimStart(s: string)
    ensures TrimsTo(s, |s| - |TrimStart(s)|, TrimEnd(TrimStart(s)))
  {
    TrimsToOfParts(s, TrimStart(s), TrimEnd(TrimStart(s)));
  }

  /** Cutting leading whitespace down to `t` and then trailing whitespace
      down to `r` trims `s` to `r`. */
  lemma {:induction false} TrimsToOfParts(s: string, t: string, r: string)
    requires |t| <= |s| && t == s[|s| - |t|..] && AllSpace(s[..|s| - |t|])
    requires t == [] || !IsJsSpace(t[0])
    requires |r| <= |t| && r == t[..|r|] && AllSpace(t[|r|..])
    requires r == [] || !IsJsSpace(r[|r| - 1])
    ensures TrimsTo(s, |s| - |t|, r)
  {
    var i := |s| - |t|;
    assert s[i..i + |r|] == r;
    assert s[i + |r|..] == t[|r|..];
    if r != [] { assert r[0] == t[0]; }
  }

  lemma {:induction false} TrimStartOfSpacePrefix(a: string, m: string)
    requires AllSpace(a) && (m == [] || !IsJsSpace(m[0]))
    ensures TrimStart(a + m) == m
  {
    if a != [] {
      assert (a + m)[1..] == a[1..] + m;
      TrimStartOfSpacePrefix(a[1..], m);
    } else {
      assert a + m == m;
    }
  }

  lemma {:induction false} TrimEndOfSpaceSuffix(m: string, b: string)
    requires AllSpace(b) && (m == [] || !IsJsSpace(m[|m| - 1]))
    ensures TrimEnd(m + b) == m
  {
    if b != [] {
      assert (m + b)[..|m + b| - 1] == m + b[..|b| - 1];
      TrimEndOfSpaceSuffix(m, b[..|b| - 1]);
    } else {
      assert m + b == m;
    }
  }

  /** The whitespace `Trim` cuts off either end of `s`. */
  lemma {:induction false} TrimSplit(s: string) returns (a: string, b: string)
    ensures s == a + Trim(s) + b && AllSpace(a) && AllSpace(b) && Tight(Trim(s))
  {
    var r, i := Trim(s), |s| - |TrimStart(s)|;
    assert TrimsTo(s, i, r);
    a, b := s[..i], s[i + |r|..];
    SplitThree(s, i, i + |r|);
  }

  lemma {:induction false} SplitThree(s: string, i: int, j: int)
    requires 0 <= i <= j <= |s|
    ensures s == s[..i] + s[i..j] + s[j..]
  {
  }

  lemma {:induction false} Regroup(a: string, x: string, r: string, y: string, b: string)
    ensures a + (x + r + y) + b == (a + x) + r + (y + b)
  {
  }

  lemma {:induction false} AllSpaceAppend(x: string, y: string)
    requires AllSpace(x) && AllSpace(y)
    ensures AllSpace(x + y)
  {
    forall k | 0 <= k < |x + y| ensures IsJsSpace((x + y)[k]) {
      if k >= |x| { assert (x + y)[k] == y[k - |x|]; }
    }
  }

  /** Trim has exactly one possible answer: whatever tight middle is left
      between an all-whitespace prefix and an all-whitespace suffix. */
  lemma {:induction false} TrimUnique(a: string, m: string, b: string)
    requires AllSpace(a) && AllSpace(b) && Tight(m)
    ensures Trim(a + m + b) == m
  {
    var s := a + m + b;
    if m == [] {
      assert s == a + b;
      assert AllSpace(s);
      TrimStartOfSpacePrefix(s, []);
      assert s + [] == s;
      assert TrimStart(s) == [];
    } else {
      assert s == a + (m + b);
      TrimStartOfSpacePrefix(a, m + b);
      TrimEndOfSpaceSuffix(m, b);
    }
  }

  /** Whitespace added around a string does not change its trimmed form. */
  lemma {:induction false} TrimIgnoresSurroundingSpace(a: string, m: string, b: string)
    requires AllSpace(a) && AllSpace(b)
    ensures Trim(a + m + b) == Trim(m)
  {
    var r := Trim(m);
    var a', b' := TrimSplit(m);
    Regroup(a, a', r, b', b);
    AllSpaceAppend(a, a');
    AllSpaceAppend(b', b);
    TrimUnique(a + a', r, b' + b);
  }

  lemma {:induction false} TrimIdempotent(s: string)
    ensures Trim(Trim(s)) == Trim(s)
  {
    var r := Trim(s);
    assert [] + r + [] == r && Tight(r) by {
      var a, b := TrimSplit(s);
    }
    TrimUnique([], r, []);
  }

  /** ASCII lower-casing of one character. */
  function LowerChar(c: char): char {
    if 'A' <= c <= 'Z' then (c as int + 32) as char else c
  }

  /** `toLowerCase`, restricted to the ASCII letters. */
  function Lower(s: string): (r: string)
    ensures |r| == |s|
    ensures forall i :: 0 <= i < |s| ==> r[i] == LowerChar(s[i])
  {
    if s == [] then [] else [LowerChar(s[0])] + Lower(s[1..])
  }

  lemma {:induction false} LowerIdempotent(s: string)
    ensures Lower(Lower(s)) == Lower(s)
  {
  }

  lemma {:induction false} LowerAppend(a: string, b: string)
    ensures Lower(a + b) == Lower(a) + Lower(b)
  {
  }

  lemma {:induction false} LowerKeepsSpace(s: string)
    ensures forall k :: 0 <= k < |s| ==> IsJsSpace(Lower(s)[k]) == IsJsSpace(s[k])
    ensures AllSpace(Lower(s)) == AllSpace(s)
    ensures Tight(Lower(s)) == Tight(s)
  {
    var l := Lower(s);
    forall k | 0 <= k < |s| ensures IsJsSpace(l[k]) == IsJsSpace(s[k]) {
      assert l[k] == LowerChar(s[k]);
    }
    if s != [] {
      assert IsJsSpace(l[0]) == IsJsSpace(s[0]);
      assert IsJsSpace(l[|s| - 1]) == IsJsSpace(s[|s| - 1]);
    }
  }

  /** Lower-casing leaves whitespace alone, so it commutes with trimming. */
  lemma {:induction false} LowerTrimCommute(s: string)
    ensures Lower(Trim(s)) == Trim(Lower(s))
  {
    var r := Trim(s);
    var a, b := TrimSplit(s);
    LowerAppend(a + r, b);
    LowerAppend(a, r);
    LowerKeepsSpace(a);
    LowerKeepsSpace(b);
    LowerKeepsSpace(r);
    TrimUnique(Lower(a), Lower(r), Lower(b));
  }

  /** `replace(/\\/g, '/')`: every backslash becomes a forward slash. */
  function Slashed(s: string): (r: string)
    ensures |r| == |s| && '\\' !in r
    ensures forall i :: 0 <= i < |s| ==> r[i] == if s[i] == '\\' then '/' else s[i]
  {
    if s == [] then [] else [if s[0] == '\\' then '/' else s[0]] + Slashed(s[1..])
  }

  /** Text without backslashes comes through the rewrite unchanged. */
  lemma {:induction false} SlashedKeepsPlainText(s: string)
    ensures '\\' !in s ==> Slashed(s) == s
  {
    if '\\' !in s {
      assert forall i :: 0 <= i < |s| ==> Slashed(s)[i] == s[i];
    }
  }

  lemma {:induction false} AppendAssoc(a: string, b: string, c: string)
    ensures (a + b) + c == a + (b + c)
  {
  }

  lemma {:induction false} PrefixExtend(a: string, b: string, c: string)
    requires a <= b
    ensures a <= b + c
  {
    assert (b + c)[..|a|] == b[..|a|];
  }

  lemma {:induction false} EndsWithAppended(a: string, b: string)
    ensures (a + b)[|a + b| - |b|..] == b
  {
  }

  predicate StartsWith(s: string, prefix: string) {
    prefix <= s
  }

  /** `parts` glued back together with `sep` between neighbours. */
  function Join(parts: seq<string>, sep: char): string {
    if parts == [] then []
    else if |parts| == 1 then parts[0]
    else parts[0] + [sep] + Join(parts[1..], sep)
  }

  /** The last part ends the joined string. */
  lemma {:induction false} JoinEndsWithLast(parts: seq<string>, sep: char)
    requires |parts| >= 1
    ensures |parts[|parts| - 1]| <= |Join(parts, sep)|
    ensures Join(parts, sep)[|Join(parts, sep)| - |parts[|parts| - 1]|..] == parts[|parts| - 1]
  {
    if |parts| > 1 {
      JoinEndsWithLast(parts[1..], sep);
      var j, r, n := Join(parts, sep), Join(parts[1..], sep), |parts[|parts| - 1]|;
      assert parts[1..][|parts[1..]| - 1] == parts[|parts| - 1];
      assert j == parts[0] + [sep] + r;
      assert j[|j| - n..] == r[|r| - n..];
    }
  }

  /** Number of occurrences of `c` in `s`. */
  function Occurrences(s: string, c: char): nat {
    if s == [] then 0 else (if s[0] == c then 1 else 0) + Occurrences(s[1..], c)
  }

  /** `split(sep)` with a one-character separator: one piece more than there
      are separators, none of the pieces holding the separator, and the pieces
      rejoined give back the input. */
  function Split(s: string, sep: char): (parts: seq<string>)
    ensures |parts| == Occurrences(s, sep) + 1
    ensures forall k :: 0 <= k < |parts| ==> sep !in parts[k]
    ensures Join(parts, sep) == s
  {
    if s == [] then [[]]
    else
      var rest := Split(s[1..], sep);
      if s[0] == sep then
        assert s == [] + [sep] + Join(rest, sep);
        [[]] + rest
      else
        var parts := [[s[0]] + rest[0]] + rest[1..];
        assert Join(parts, sep) == s by {
          if |rest| == 1 {
            assert parts == [[s[0]] + rest[0]];
          } else {
            assert parts[1..] == rest[1..];
            assert Join(rest, sep) == rest[0] + [sep] + Join(rest[1..], sep);
          }
        }
        parts
  }

  /** Splitting undoes joining when no piece holds the separator. */
  lemma {:induction false} SplitJoin(parts: seq<string>, sep: char)
    requires |parts| >= 1
    requires forall k :: 0 <= k < |parts| ==> sep !in parts[k]
    ensures Split(Join(parts, sep), sep) == parts
  {
    if |parts| == 1 {
      SplitPiece(parts[0], sep);
    } else {
      SplitJoin(parts[1..], sep);
      SplitPrepend(parts[0], Join(parts[1..], sep), sep);
    }
  }

  lemma {:induction false} SplitPiece(p: string, sep: char)
    requires sep !in p
    ensures Split(p, sep) == [p]
  {
    if p != [] {
      SplitPiece(p[1..], sep);
      assert [p[0]] + p[1..] == p;
    }
  }

  lemma {:induction false} SplitPrepend(p: string, t: string, sep: char)
    requires sep !in p
    ensures Split(p + [sep] + t, sep) == [p] + Split(t, sep)
  {
    if p == [] {
      assert p + [sep] + t == [sep] + t;
      assert ([sep] + t)[1..] == t;
    } else {
      assert (p + [sep] + t)[1..] == p[1..] + [sep] + t;
      SplitPrepend(p[1..], t, sep);
      assert [p[0]] + p[1..] == p;
    }
  }

  /** Lower-casing leaves commas in place, so it commutes with splitting
      on commas. */
  lemma {:induction false} LowerSplitCommute(s: string)
    ensures |Split(Lower(s), ',')| == |Split(s, ',')|
    ensures forall k :: 0 <= k < |Split(s, ',')| ==> Split(Lower(s), ',')[k] == Lower(Split(s, ',')[k])
  {
    if s != [] {
      assert Lower(s)[1..] == Lower(s[1..]);
      assert Lower(s)[0] == ',' <==> s[0] == ',';
      LowerSplitCommute(s[1..]);
    }
  }
}
