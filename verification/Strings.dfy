/** The few string operations of Go's standard library that the modelled code uses. */
module Strings {

  predicate HasSuffix(s: string, suffix: string) {
    |suffix| <= |s| && s[|s| - |suffix|..] == suffix
  }

  function TrimPrefix(s: string, prefix: string): string {
    if prefix <= s then s[|prefix|..] else s
  }

  function TrimSuffix(s: string, suffix: string): string {
    if HasSuffix(s, suffix) then s[..|s| - |suffix|] else s
  }

  predicate HexDigit(c: char) {
    '0' <= c <= '9' || 'a' <= c <= 'f' || 'A' <= c <= 'F'
  }

  /** ASCII white space. */
  predicate Space(c: char) {
    c == ' ' || c == '\t' || c == '\n' || c == '\r' || c == '\U{0B}' || c == '\U{0C}'
  }

  function TrimSpace(s: string): string {
    if s == [] then s
    else if Space(s[0]) then TrimSpace(s[1..])
    else if Space(s[|s| - 1]) then TrimSpace(s[..|s| - 1])
    else s
  }

  predicate Spaces(s: string) {
    forall c :: c in s ==> Space(c)
  }

  /** What is left is what stands between the spaces. */
  lemma {:induction false} TrimmedExact(left: string, s: string, right: string)
    requires Spaces(left) && Spaces(right) && (s != "" ==> !Space(s[0]) && !Space(s[|s| - 1]))
    ensures TrimSpace(left + s + right) == s
    decreases |left| + |right|
  {
    var whole := left + s + right;
    if left != "" {
      assert whole[0] == left[0] && left[0] in left;
      assert whole[1..] == left[1..] + s + right;
      TrimmedExact(left[1..], s, right);
    } else if s == "" {
      assert whole == right;
      if right != "" {
        assert right[0] in right;
        TrimmedExact("", "", right[1..]);
        assert "" + "" + right[1..] == right[1..];
      }
    } else if right != "" {
      var n := |right| - 1;
      assert whole[0] == s[0] && whole[|whole| - 1] == right[n] && right[n] in right;
      assert whole[..|whole| - 1] == left + s + right[..n];
      TrimmedExact(left, s, right[..n]);
    } else {
      assert whole == s;
    }
  }

  /** The pieces of s between separators; always at least one piece. */
  function Split(s: string, sep: char): (parts: seq<string>)
    ensures |parts| >= 1
  {
    if s == [] then [""]
    else
      var rest := Split(s[1..], sep);
      if s[0] == sep then [""] + rest else [[s[0]] + rest[0]] + rest[1..]
  }

  function Join(parts: seq<string>, sep: char): string {
    if |parts| == 0 then ""
    else if |parts| == 1 then parts[0]
    else parts[0] + [sep] + Join(parts[1..], sep)
  }

  ghost predicate Free(parts: seq<string>, sep: char) {
    forall part :: part in parts ==> sep !in part
  }

  /** No piece holds the separator, and joining the pieces gives the string back. */
  lemma {:induction false} JoinSplit(s: string, sep: char)
    ensures Free(Split(s, sep), sep) && Join(Split(s, sep), sep) == s
  {
    if s != [] {
      JoinSplit(s[1..], sep);
      var rest := Split(s[1..], sep);
      if s[0] == sep {
        assert Split(s, sep)[1..] == rest;
        assert Join(Split(s, sep), sep) == [sep] + s[1..];
      } else if |rest| > 1 {
        assert Split(s, sep)[1..] == rest[1..];
      }
    }
  }

  /** Splitting undoes joining when no piece holds the separator. */
  lemma {:induction false} SplitJoin(parts: seq<string>, sep: char)
    requires |parts| > 0 && Free(parts, sep)
    ensures Split(Join(parts, sep), sep) == parts
  {
    if |parts| == 1 {
      SplitFree(parts[0], sep);
    } else {
      SplitJoin(parts[1..], sep);
      SplitFree(parts[0], sep);
      SplitConcat(parts[0], Join(parts[1..], sep), sep);
      assert parts == [parts[0]] + parts[1..];
    }
  }

  lemma {:induction false} SplitFree(s: string, sep: char)
    requires sep !in s
    ensures Split(s, sep) == [s]
  {
    if s != [] {
      SplitFree(s[1..], sep);
      assert [s[0]] + s[1..] == s;
    }
  }

  /** The pieces once one more character is put in front. */
  function Grow(c: char, rest: seq<string>, sep: char): seq<string>
    requires |rest| >= 1
  {
    if c == sep then [""] + rest else [[c] + rest[0]] + rest[1..]
  }

  lemma SplitCons(c: char, s: string, sep: char)
    ensures Split([c] + s, sep) == Grow(c, Split(s, sep), sep)
  {}

  lemma GrowConcat(c: char, rest: seq<string>, more: seq<string>, sep: char)
    requires |rest| >= 1
    ensures Grow(c, rest + more, sep) == Grow(c, rest, sep) + more
  {}

  lemma {:induction false} SplitConcat(a: string, b: string, sep: char)
    ensures Split(a + [sep] + b, sep) == Split(a, sep) + Split(b, sep)
  {
    if a == [] {
      assert a + [sep] + b == [sep] + b;
      SplitCons(sep, b, sep);
    } else {
      var c, rest := a[0], a[1..];
      assert a == [c] + rest && a + [sep] + b == [c] + (rest + [sep] + b);
      SplitConcat(rest, b, sep);
      SplitCons(c, rest, sep);
      SplitCons(c, rest + [sep] + b, sep);
      GrowConcat(c, Split(rest, sep), Split(b, sep), sep);
    }
  }

  lemma {:induction false} JoinConcat(a: seq<string>, b: seq<string>, sep: char)
    requires |a| > 0 && |b| > 0
    ensures Join(a + b, sep) == Join(a, sep) + [sep] + Join(b, sep)
  {
    if |a| == 1 {
      assert (a + b)[1..] == b;
    } else {
      JoinConcat(a[1..], b, sep);
      assert (a + b)[1..] == a[1..] + b;
    }
  }

  lemma SplitOfPrefix(front: string, whole: string, sep: char)
    requires front + [sep] <= whole
    ensures |front| < |whole| && Split(whole, sep) == Split(front, sep) + Split(whole[|front| + 1..], sep)
  {
    assert whole == front + [sep] + whole[|front| + 1..];
    SplitConcat(front, whole[|front| + 1..], sep);
  }

  lemma JoinOfPrefix(a: seq<string>, b: seq<string>, sep: char)
    requires 0 < |a| < |b| && a <= b
    ensures Join(a, sep) + [sep] <= Join(b, sep)
  {
    var rest := b[|a|..];
    assert b == a + rest;
    JoinConcat(a, rest, sep);
  }

  lemma PrefixOfSplit(a: seq<string>, b: seq<string>, sep: char)
    requires |a| > 0 && Free(a, sep) && |b| > 0 && Free(b, sep)
    requires Join(a, sep) + [sep] <= Join(b, sep)
    ensures |a| < |b| && a <= b
  {
    SplitOfPrefix(Join(a, sep), Join(b, sep), sep);
    SplitJoin(a, sep);
    SplitJoin(b, sep);
  }

  /** A joined list starts with another one and a separator just when the lists are prefixes. */
  lemma PrefixOfJoin(a: seq<string>, b: seq<string>, sep: char)
    requires |a| > 0 && Free(a, sep) && Free(b, sep)
    ensures Join(a, sep) + [sep] <= Join(b, sep) <==> |a| < |b| && a <= b
  {
    if Join(a, sep) + [sep] <= Join(b, sep) {
      assert b != [];
      PrefixOfSplit(a, b, sep);
    }
    if |a| < |b| && a <= b {
      JoinOfPrefix(a, b, sep);
    }
  }

  /** Joining is injective on lists of separator-free pieces, the empty list and [""] apart. */
  lemma JoinInjective(a: seq<string>, b: seq<string>, sep: char)
    requires Free(a, sep) && Free(b, sep) && |a| > 0 && |b| > 0
    requires Join(a, sep) == Join(b, sep)
    ensures a == b
  {
    SplitJoin(a, sep);
    SplitJoin(b, sep);
  }

  // ASCII case folding, as strings.EqualFold does on ASCII text.

  function Lower(c: char): char {
    if 'A' <= c <= 'Z' then (c as int + 32) as char else c
  }

  function ToLower(s: string): (r: string)
    ensures |r| == |s| && forall i :: 0 <= i < |s| ==> r[i] == Lower(s[i])
  {
    seq(|s|, i requires 0 <= i < |s| => Lower(s[i]))
  }

  predicate EqualFold(s: string, t: string) {
    |s| == |t| && forall i :: 0 <= i < |s| ==> Lower(s[i]) == Lower(t[i])
  }
}
