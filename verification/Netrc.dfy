/** Reading a netrc file (internal/netrc/netrc.go). */
module Netrc {
  import opened Options
  import opened Strings

  /** What the token loop builds in place. */
  class Machine {
    var name: string
    var login: string
    var password: string

    constructor (name: string)
      ensures this.name == name && login == "" && password == ""
    {
      this.name := name;
      login := "";
      password := "";
    }

    /** The assignment of a login or password token. */
    method Set(keyword: string, value: string)
      modifies this
      ensures name == old(name)
      ensures login == if keyword == "login" then value else old(login)
      ensures password == if keyword == "login" then old(password) else value
    {
      if keyword == "login" {
        login := value;
      } else {
        password := value;
      }
    }
  }

  /** An entry of the file: a named machine, or a default. */
  datatype Entry = Entry(isDefault: bool, name: string, login: string, password: string)

  /** strings.Fields: the runs of characters that are not spaces. */
  function Fields(s: string): seq<string> {
    if s == [] then []
    else
      var rest := Fields(s[1..]);
      if Space(s[0]) then rest
      else if |s| == 1 || Space(s[1]) then [[s[0]]] + rest
      else [[s[0]] + (if rest != [] then rest[0] else "")] + (if rest != [] then rest[1..] else [])
  }

  /** A line that strings.TrimSpace leaves nothing of. */
  predicate Blank(line: string) {
    forall c :: c in line ==> Space(c)
  }

  // The lines.

  /** The fields of a line in front of its first "macdef", and whether there is one. */
  function UpToMacdef(fields: seq<string>): seq<string> {
    if fields == [] || fields[0] == "macdef" then [] else [fields[0]] + UpToMacdef(fields[1..])
  }

  /** The tokens of the lines from here on, given whether a macdef body is open. */
  function Tokens(lines: seq<string>, inMacdef: bool): seq<string>
    decreases lines
  {
    if lines == [] then []
    else if inMacdef then Tokens(lines[1..], !Blank(lines[0]))
    else UpToMacdef(Fields(lines[0])) + Tokens(lines[1..], "macdef" in Fields(lines[0]))
  }

  method CollectTokens(data: string) returns (tokens: seq<string>)
    ensures tokens == Tokens(Split(data, '\n'), false)
  {
    tokens := [];
    var inMacdef := false;
    var lines := Split(data, '\n');
    var i := 0;
    while i < |lines|
      invariant 0 <= i <= |lines|
      invariant tokens + Tokens(lines[i..], inMacdef) == Tokens(lines, false)
    {
      ghost var rest := lines[i..];
      assert rest[1..] == lines[i + 1..];
      if inMacdef {
        inMacdef := !Blank(lines[i]);
      } else {
        var line;
        line, inMacdef := LineTokens(Fields(lines[i]));
        assert tokens + (line + Tokens(rest[1..], inMacdef)) == (tokens + line) + Tokens(rest[1..], inMacdef);
        tokens := tokens + line;
      }
      i := i + 1;
    }
  }

  method LineTokens(fields: seq<string>) returns (tokens: seq<string>, macdef: bool)
    ensures tokens == UpToMacdef(fields) && macdef == ("macdef" in fields)
  {
    tokens := [];
    for k := 0 to |fields|
      invariant tokens + UpToMacdef(fields[k..]) == UpToMacdef(fields)
      invariant "macdef" !in fields[..k]
    {
      if fields[k] == "macdef" {
        return tokens, true;
      }
      assert fields[k..][1..] == fields[k + 1..];
      assert fields[..k + 1] == fields[..k] + [fields[k]];
      tokens := tokens + [fields[k]];
    }
    assert fields[..|fields|] == fields;
    return tokens, false;
  }

  /**
   * Two files alike except within macdef lines, from the word on, and macdef bodies. A body is the
   * non-blank lines after the macdef line.
   */
  ghost predicate AlikeOutsideMacdefs(a: seq<string>, b: seq<string>, inMacdef: bool)
    decreases a
  {
    if a == [] || b == [] then a == b
    else if inMacdef then
      (Blank(a[0]) <==> Blank(b[0])) && AlikeOutsideMacdefs(a[1..], b[1..], !Blank(a[0]))
    else
      var f, g := Fields(a[0]), Fields(b[0]);
      && UpToMacdef(f) == UpToMacdef(g) && ("macdef" in f <==> "macdef" in g)
      && AlikeOutsideMacdefs(a[1..], b[1..], "macdef" in f)
  }

  /** Nothing in a macdef, its line from the word on or its body, contributes a token. */
  lemma {:induction false} MacdefsContributeNothing(a: seq<string>, b: seq<string>, inMacdef: bool)
    requires AlikeOutsideMacdefs(a, b, inMacdef)
    ensures Tokens(a, inMacdef) == Tokens(b, inMacdef)
    decreases a
  {
    if a != [] && b != [] {
      MacdefsContributeNothing(a[1..], b[1..], if inMacdef then !Blank(a[0]) else "macdef" in Fields(a[0]));
    }
  }

  // The grammar.

  function WithAttribute(e: Entry, keyword: string, value: string): Entry {
    if keyword == "login" then e.(login := value) else e.(password := value)
  }

  /** The fields of one entry: the attributes up to the next entry, the last of each kind. */
  function Attributes(e: Entry, tokens: seq<string>): (r: Entry)
    ensures r.isDefault == e.isDefault && r.name == e.name
    decreases tokens
  {
    if tokens == [] || Starts(tokens) then e
    else if tokens[0] in {"login", "password"} && |tokens| > 1 then
      Attributes(WithAttribute(e, tokens[0], tokens[1]), tokens[2..])
    else Attributes(e, Skip(tokens))
  }

  /** An entry begins here. */
  predicate Starts(tokens: seq<string>) {
    tokens != [] && (tokens[0] == "default" || (tokens[0] == "machine" && |tokens| > 1))
  }

  /** A keyword takes its value along; any other token stands alone. */
  function Skip(tokens: seq<string>): (rest: seq<string>)
    requires tokens != []
    ensures |rest| < |tokens|
  {
    if |tokens| > 1 && tokens[0] in {"machine", "login", "password", "account"} then tokens[2..] else tokens[1..]
  }

  /** A file is entries, each with the attributes that follow it; what comes before the first is ignored. */
  function Entries(tokens: seq<string>): seq<Entry>
    decreases |tokens|
  {
    if tokens == [] then []
    else if !Starts(tokens) then Entries(Skip(tokens))
    else
      [Attributes(FirstOf(tokens), After(tokens))] + Entries(After(tokens))
  }

  /** The entry that begins here, with no attribute yet. */
  function FirstOf(tokens: seq<string>): Entry
    requires Starts(tokens)
  {
    if tokens[0] == "default" then Entry(true, "", "", "") else Entry(false, tokens[1], "", "")
  }

  function After(tokens: seq<string>): seq<string>
    requires Starts(tokens)
  {
    if tokens[0] == "default" then tokens[1..] else tokens[2..]
  }

  function FirstNamed(entries: seq<Entry>, host: string): Option<Entry> {
    if entries == [] then None
    else if !entries[0].isDefault && entries[0].name == host then Some(entries[0])
    else FirstNamed(entries[1..], host)
  }

  function FirstDefault(entries: seq<Entry>): Option<Entry> {
    if entries == [] then None
    else if entries[0].isDefault then Some(entries[0])
    else FirstDefault(entries[1..])
  }

  /** The entry a host gets: the first that names it, else the first default. */
  function Chosen(entries: seq<Entry>, host: string): Option<Entry> {
    if FirstNamed(entries, host).Some? then FirstNamed(entries, host) else FirstDefault(entries)
  }

  // The token loop.

  /**
   * What is known before the remaining tokens are read: the entries chosen so far, each open when
   * current is its machine, agree with those of the whole file.
   */
  ghost predicate Sofar(
    tokens: seq<string>, rest: seq<string>, host: string, named: Option<Entry>, fallback: Option<Entry>,
    namedOpen: bool, fallbackOpen: bool)
  {
    && FirstNamed(Entries(tokens), host) ==
        (if named.None? then FirstNamed(Entries(rest), host) else Some(Final(named.value, namedOpen, rest)))
    && FirstDefault(Entries(tokens)) ==
        (if fallback.None? then FirstDefault(Entries(rest)) else Some(Final(fallback.value, fallbackOpen, rest)))
  }

  /** The entry a chosen machine ends up as: complete, unless it is the one still being filled. */
  function Final(e: Entry, open: bool, rest: seq<string>): Entry {
    if open then Attributes(e, rest) else e
  }

  /** A new entry closes the earlier ones and is chosen if it is the first of its kind. */
  lemma NextEntry(
    tokens: seq<string>, rest: seq<string>, host: string, named: Option<Entry>, fallback: Option<Entry>,
    namedOpen: bool, fallbackOpen: bool)
    requires Sofar(tokens, rest, host, named, fallback, namedOpen, fallbackOpen) && Starts(rest)
    ensures var e := FirstOf(rest);
            var takesName, takesDefault := named.None? && !e.isDefault && e.name == host, fallback.None? && e.isDefault;
            var newName, newDefault := if takesName then Some(e) else named, if takesDefault then Some(e) else fallback;
            Sofar(tokens, After(rest), host, newName, newDefault, takesName, takesDefault)
  {}

  /** An attribute goes to the open entries. */
  lemma NextAttribute(
    tokens: seq<string>, rest: seq<string>, host: string, named: Option<Entry>, fallback: Option<Entry>,
    namedOpen: bool, fallbackOpen: bool)
    requires Sofar(tokens, rest, host, named, fallback, namedOpen, fallbackOpen) && |rest| > 1
    requires rest[0] in {"login", "password"}
    ensures Sofar(tokens, rest[2..], host, IfOpen(named, namedOpen, rest), IfOpen(fallback, fallbackOpen, rest),
            namedOpen, fallbackOpen)
  {}

  /** Any other token leaves everything as it is. */
  lemma NextOther(
    tokens: seq<string>, rest: seq<string>, host: string, named: Option<Entry>, fallback: Option<Entry>,
    namedOpen: bool, fallbackOpen: bool)
    requires Sofar(tokens, rest, host, named, fallback, namedOpen, fallbackOpen) && rest != [] && !Starts(rest)
    requires |rest| > 1 ==> rest[0] !in {"login", "password"}
    ensures Sofar(tokens, Skip(rest), host, named, fallback, namedOpen, fallbackOpen)
  {}

  function IfOpen(e: Option<Entry>, open: bool, rest: seq<string>): Option<Entry>
    requires |rest| > 1
  {
    if e.Some? && open then Some(WithAttribute(e.value, rest[0], rest[1])) else e
  }

  /** What a machine holds. */
  ghost function Held(m: Machine?, isDefault: bool): Option<Entry>
    reads m
  {
    if m == null then None else Some(Entry(isDefault, m.name, m.login, m.password))
  }

  /**
   * parse once the tokens are collected: one pass over them that fills machines through current,
   * which may be the chosen match or fallback or neither.
   */
  method Parse(tokens: seq<string>, host: string) returns (found: Machine?)
    ensures Chosen(Entries(tokens), host) == Held(found, FirstNamed(Entries(tokens), host).None?)
  {
    var current: Machine?, fallback: Machine?, named: Machine? := null, null, null;
    var i := 0;
    while i < |tokens|
      invariant 0 <= i <= |tokens|
      invariant current != null ==> fresh(current)
      invariant named != null ==> fresh(named) && named != fallback
      invariant current == null ==> named == null && fallback == null
      invariant Sofar(tokens, tokens[i..], host, Held(named, false), Held(fallback, true), named == current,
              fallback == current)
      decreases |tokens| - i
    {
      var token := tokens[i];
      ghost var rest := tokens[i..];
      ghost var was, wasDefault := Held(named, false), Held(fallback, true);
      assert rest[1..] == tokens[i + 1..] && (|rest| > 1 ==> rest[2..] == tokens[i + 2..]);
      if token == "machine" && i + 1 < |tokens| {
        NextEntry(tokens, rest, host, was, wasDefault, named == current, fallback == current);
        current := new Machine(tokens[i + 1]);
        if named == null && tokens[i + 1] == host {
          named := current;
        }
        i := i + 2;
      } else if token == "default" {
        NextEntry(tokens, rest, host, was, wasDefault, named == current, fallback == current);
        current := new Machine("");
        if fallback == null {
          fallback := current;
        }
        i := i + 1;
      } else if (token == "login" || token == "password") && i + 1 < |tokens| {
        NextAttribute(tokens, rest, host, was, wasDefault, named == current, fallback == current);
        if current != null {
          current.Set(token, tokens[i + 1]);
        }
        i := i + 2;
      } else {
        NextOther(tokens, rest, host, was, wasDefault, named == current, fallback == current);
        i := if token == "account" && i + 1 < |tokens| then i + 2 else i + 1;
      }
    }
    return if named != null then named else fallback;
  }

  // Entries do not leak into one another.

  /** No keyword at the end waits for its value. */
  predicate Complete(tokens: seq<string>)
    decreases tokens
  {
    tokens == []
    || (if tokens[0] in {"machine", "login", "password", "account"} then |tokens| > 1 && Complete(tokens[2..])
        else Complete(tokens[1..]))
  }

  lemma {:induction false} AttributesEnd(e: Entry, a: seq<string>, b: seq<string>)
    requires Complete(a) && Starts(b)
    ensures Attributes(e, a + b) == Attributes(e, a)
    decreases a
  {
    if a == [] {
      assert a + b == b;
    } else if !Starts(a) {
      assert (a + b)[1..] == a[1..] + b;
      if |a| > 1 { assert (a + b)[2..] == a[2..] + b; }
      if a[0] in {"login", "password"} {
        AttributesEnd(WithAttribute(e, a[0], a[1]), a[2..], b);
      } else {
        AttributesEnd(e, Skip(a), b);
      }
    }
  }

  /** What a complete file does at its first token does not depend on what is appended. */
  lemma FirstStepConcat(a: seq<string>, b: seq<string>)
    requires Complete(a) && a != []
    ensures Starts(a + b) <==> Starts(a)
    ensures Starts(a) ==> FirstOf(a + b) == FirstOf(a) && After(a + b) == After(a) + b && Complete(After(a))
    ensures !Starts(a) ==> Skip(a + b) == Skip(a) + b && Complete(Skip(a))
  {
    assert (a + b)[1..] == a[1..] + b;
    if |a| > 1 { assert (a + b)[2..] == a[2..] + b; }
  }

  lemma {:induction false} EntriesConcat(a: seq<string>, b: seq<string>)
    requires Complete(a) && Starts(b)
    ensures Entries(a + b) == Entries(a) + Entries(b)
    decreases |a|
  {
    if a == [] {
      assert a + b == b;
    } else {
      FirstStepConcat(a, b);
      if Starts(a) {
        AttributesEnd(FirstOf(a), After(a), b);
        EntriesConcat(After(a), b);
      } else {
        EntriesConcat(Skip(a), b);
      }
    }
  }

  lemma {:induction false} FirstNamedConcat(a: seq<Entry>, b: seq<Entry>, host: string)
    requires FirstNamed(a, host).Some?
    ensures FirstNamed(a + b, host) == FirstNamed(a, host)
    decreases a
  {
    assert (a + b)[1..] == a[1..] + b;
    if a[0].isDefault || a[0].name != host {
      FirstNamedConcat(a[1..], b, host);
    }
  }

  /** Once a host has its entry, nothing from the next entry on changes what it gets. */
  lemma LaterEntriesChangeNothing(a: seq<string>, b: seq<string>, host: string)
    requires Complete(a) && Starts(b) && FirstNamed(Entries(a), host).Some?
    ensures Chosen(Entries(a + b), host) == Chosen(Entries(a), host)
  {
    EntriesConcat(a, b);
    FirstNamedConcat(Entries(a), Entries(b), host);
  }

  // The entry a host gets.

  /** The first entry that names the host, or with none that does the first default. */
  lemma {:induction false} FirstNamedAt(entries: seq<Entry>, host: string, i: nat)
    requires i < |entries| && !entries[i].isDefault && entries[i].name == host
    requires forall k :: 0 <= k < i ==> entries[k].isDefault || entries[k].name != host
    ensures FirstNamed(entries, host) == Some(entries[i])
    decreases i
  {
    if i > 0 {
      assert forall k :: 0 <= k < i ==> entries[1..][k] == entries[k + 1];
      FirstNamedAt(entries[1..], host, i - 1);
    }
  }

  lemma {:induction false} NoneNamed(entries: seq<Entry>, host: string)
    requires forall e :: e in entries ==> e.isDefault || e.name != host
    ensures FirstNamed(entries, host) == None
    decreases entries
  {
    if entries != [] {
      NoneNamed(entries[1..], host);
    }
  }

  lemma {:induction false} FirstDefaultAt(entries: seq<Entry>, i: nat)
    requires i < |entries| && entries[i].isDefault && forall k :: 0 <= k < i ==> !entries[k].isDefault
    ensures FirstDefault(entries) == Some(entries[i])
    decreases i
  {
    if i > 0 {
      assert forall k :: 0 <= k < i ==> entries[1..][k] == entries[k + 1];
      FirstDefaultAt(entries[1..], i - 1);
    }
  }

  lemma {:induction false} NoDefault(entries: seq<Entry>)
    requires forall e :: e in entries ==> !e.isDefault
    ensures FirstDefault(entries) == None
    decreases entries
  {
    if entries != [] {
      NoDefault(entries[1..]);
    }
  }

  lemma ChosenMeans(entries: seq<Entry>, host: string, i: nat)
    ensures i < |entries| && !entries[i].isDefault && entries[i].name == host
              && (forall k :: 0 <= k < i ==> entries[k].isDefault || entries[k].name != host) ==>
              Chosen(entries, host) == Some(entries[i])
    ensures i < |entries| && entries[i].isDefault && (forall k :: 0 <= k < i ==> !entries[k].isDefault)
              && (forall e :: e in entries ==> e.isDefault || e.name != host) ==>
              Chosen(entries, host) == Some(entries[i])
    ensures (forall e :: e in entries ==> !e.isDefault && e.name != host) ==> Chosen(entries, host) == None
  {
    if i < |entries| && !entries[i].isDefault && entries[i].name == host
      && forall k :: 0 <= k < i ==> entries[k].isDefault || entries[k].name != host
    {
      FirstNamedAt(entries, host, i);
    }
    if forall e :: e in entries ==> e.isDefault || e.name != host {
      NoneNamed(entries, host);
      if i < |entries| && entries[i].isDefault && forall k :: 0 <= k < i ==> !entries[k].isDefault {
        FirstDefaultAt(entries, i);
      }
      if forall e :: e in entries ==> !e.isDefault {
        NoDefault(entries);
      }
    }
  }

  /** An account with its value, whatever that is, or any word that is no keyword. */
  predicate Noise(tokens: seq<string>) {
    || (|tokens| == 2 && tokens[0] == "account")
    || (|tokens| == 1 && tokens[0] !in {"machine", "default", "login", "password", "account"})
  }

  /** Noise between complete entries and attributes changes nothing. */
  lemma {:induction false} NoiseIgnored(a: seq<string>, noise: seq<string>, b: seq<string>)
    requires Complete(a) && Noise(noise)
    ensures Entries(a + (noise + b)) == Entries(a + b)
    decreases |a|
  {
    if a == [] {
      SkipsNoise(noise, b);
      assert a + (noise + b) == noise + b && a + b == b;
    } else {
      FirstStepConcat(a, b);
      NoiseIgnored(Behind(a), noise, b);
      NoiseStep(a, noise, b);
    }
  }

  function Behind(a: seq<string>): seq<string>
    requires a != []
  {
    if Starts(a) then After(a) else Skip(a)
  }

  lemma NoiseStep(a: seq<string>, noise: seq<string>, b: seq<string>)
    requires Complete(a) && a != [] && Noise(noise) && Complete(Behind(a))
    requires Entries(Behind(a) + (noise + b)) == Entries(Behind(a) + b)
    ensures Entries(a + (noise + b)) == Entries(a + b)
  {
    EntriesStep(a, noise + b);
    EntriesStep(a, b);
    if Starts(a) {
      NoiseInAttributes(FirstOf(a), After(a), noise, b);
    }
  }

  lemma EntriesStep(a: seq<string>, b: seq<string>)
    requires Complete(a) && a != []
    ensures Entries(a + b) ==
            if Starts(a) then [Attributes(FirstOf(a), After(a) + b)] + Entries(After(a) + b)
            else Entries(Skip(a) + b)
  {
    FirstStepConcat(a, b);
  }

  lemma SkipsNoise(noise: seq<string>, b: seq<string>)
    requires Noise(noise)
    ensures !Starts(noise + b) && Skip(noise + b) == b && Entries(noise + b) == Entries(b)
    ensures forall e :: Attributes(e, noise + b) == Attributes(e, b)
  {
    var all := noise + b;
    assert all[|noise|..] == b;
  }

  lemma {:induction false} NoiseInAttributes(e: Entry, a: seq<string>, noise: seq<string>, b: seq<string>)
    requires Complete(a) && Noise(noise)
    ensures Attributes(e, a + (noise + b)) == Attributes(e, a + b)
    decreases |a|
  {
    if a == [] {
      SkipsNoise(noise, b);
      assert a + (noise + b) == noise + b && a + b == b;
    } else {
      FirstStepConcat(a, noise + b);
      FirstStepConcat(a, b);
      if !Starts(a) {
        if a[0] in {"login", "password"} {
          assert Skip(a) == a[2..] && (a + (noise + b))[2..] == a[2..] + (noise + b) && (a + b)[2..] == a[2..] + b;
          NoiseInAttributes(WithAttribute(e, a[0], a[1]), a[2..], noise, b);
        } else {
          NoiseInAttributes(e, Skip(a), noise, b);
        }
      }
    }
  }

  // Writing entries down and reading them back.

  /** Something that can stand in a file by itself. */
  predicate Word(w: string) {
    w != "" && w != "macdef" && forall c :: c in w ==> !Space(c)
  }

  predicate Words(e: Entry) {
    Word(e.login) && Word(e.password) && if e.isDefault then e.name == "" else Word(e.name)
  }

  function TokensOf(e: Entry): seq<string> {
    (if e.isDefault then ["default"] else ["machine", e.name]) + ["login", e.login, "password", e.password]
  }

  /** One line for each entry, its tokens separated by blanks. */
  function Written(entries: seq<Entry>): seq<string> {
    seq(|entries|, i requires 0 <= i < |entries| => Join(TokensOf(entries[i]), ' '))
  }

  lemma {:induction false} FieldsTail(w: string, rest: string)
    requires w != "" && (forall c :: c in w ==> !Space(c)) && (rest == "" || Space(rest[0]))
    ensures Fields(w + rest) == [w] + Fields(rest)
    decreases w
  {
    assert w[0] in w;
    assert (w + rest)[0] == w[0] && (w + rest)[1..] == w[1..] + rest;
    if |w| == 1 {
      assert w[1..] + rest == rest && w == [w[0]];
      if rest != "" {
        assert (w + rest)[1] == rest[0];
      }
    } else {
      assert w[1] in w && (w + rest)[1] == w[1];
      FieldsTail(w[1..], rest);
      assert [w[0]] + w[1..] == w;
    }
  }

  lemma {:induction false} FieldsOfWords(words: seq<string>)
    requires forall w :: w in words ==> Word(w)
    ensures Fields(Join(words, ' ')) == words
    decreases words
  {
    if |words| == 1 {
      assert words[0] in words;
      FieldsTail(words[0], "");
      assert words[0] + "" == words[0];
    } else if |words| > 1 {
      var rest := Join(words[1..], ' ');
      assert words[0] in words;
      FieldsOfWords(words[1..]);
      FieldsTail(words[0], [' '] + rest);
      assert words[0] + ([' '] + rest) == Join(words, ' ');
      assert ([' '] + rest)[1..] == rest;
      assert words == [words[0]] + words[1..];
    }
  }

  lemma UpToNoMacdef(fields: seq<string>)
    requires "macdef" !in fields
    ensures UpToMacdef(fields) == fields
  {
    if fields != [] {
      UpToNoMacdef(fields[1..]);
      assert fields == [fields[0]] + fields[1..];
    }
  }

  lemma LineOf(e: Entry)
    requires Words(e)
    ensures var line := Join(TokensOf(e), ' ');
            Fields(line) == TokensOf(e) && UpToMacdef(Fields(line)) == TokensOf(e) && "macdef" !in Fields(line)
              && '\n' !in line
  {
    assert forall w :: w in TokensOf(e) ==> Word(w);
    FieldsOfWords(TokensOf(e));
    UpToNoMacdef(TokensOf(e));
    NoNewline(TokensOf(e));
  }

  lemma {:induction false} NoNewline(words: seq<string>)
    requires forall w :: w in words ==> Word(w)
    ensures '\n' !in Join(words, ' ')
    decreases words
  {
    if words != [] {
      assert words[0] in words;
      if |words| > 1 {
        NoNewline(words[1..]);
      }
    }
  }

  function AllTokens(entries: seq<Entry>): seq<string> {
    if entries == [] then [] else TokensOf(entries[0]) + AllTokens(entries[1..])
  }

  lemma {:induction false} TokensOfWritten(entries: seq<Entry>)
    requires forall e :: e in entries ==> Words(e)
    ensures Tokens(Written(entries), false) == AllTokens(entries)
    decreases entries
  {
    if entries != [] {
      LineOf(entries[0]);
      TokensOfWritten(entries[1..]);
      assert Written(entries)[1..] == Written(entries[1..]);
    }
  }

  lemma EntryOfTokens(e: Entry)
    requires Words(e)
    ensures Entries(TokensOf(e)) == [e] && Complete(TokensOf(e)) && Starts(TokensOf(e))
  {
    var t := TokensOf(e);
    var rest := ["login", e.login, "password", e.password];
    assert t[1..] == (if e.isDefault then rest else [e.name] + rest);
    assert After(t) == rest;
    TwoAttributes(e, FirstOf(t));
  }

  lemma TwoAttributes(e: Entry, first: Entry)
    requires first.isDefault == e.isDefault && first.name == e.name
    ensures var rest := ["login", e.login, "password", e.password];
            Attributes(first, rest) == e && Entries(rest) == [] && Complete(rest)
  {
    var rest := ["login", e.login, "password", e.password];
    var last := ["password", e.password];
    assert rest[2..] == last && last[2..] == [];
    var e1 := first.(login := e.login);
    assert Attributes(e1, last) == Attributes(e1.(password := e.password), []) == e;
    assert Attributes(first, rest) == Attributes(e1, last);
    assert Skip(rest) == last && Skip(last) == [];
    assert Entries(last) == Entries([]);
  }

  lemma {:induction false} EntriesOfTokens(entries: seq<Entry>)
    requires forall e :: e in entries ==> Words(e)
    ensures Entries(AllTokens(entries)) == entries
    decreases entries
  {
    if entries != [] {
      EntryOfTokens(entries[0]);
      EntriesOfTokens(entries[1..]);
      assert entries == [entries[0]] + entries[1..];
      if |entries| > 1 {
        EntryOfTokens(entries[1]);
        assert AllTokens(entries[1..]) == TokensOf(entries[1]) + AllTokens(entries[1..][1..]);
        EntriesConcat(TokensOf(entries[0]), AllTokens(entries[1..]));
      } else {
        assert AllTokens(entries) == TokensOf(entries[0]);
      }
    }
  }

  /** Entries written one to a line are read back as they were: names, logins, passwords and defaults. */
  lemma ReadBack(entries: seq<Entry>)
    requires entries != [] && forall e :: e in entries ==> Words(e)
    ensures Entries(Tokens(Split(Join(Written(entries), '\n'), '\n'), false)) == entries
  {
    forall line | line in Written(entries) ensures '\n' !in line {
      var i :| 0 <= i < |entries| && line == Join(TokensOf(entries[i]), ' ');
      LineOf(entries[i]);
    }
    SplitJoin(Written(entries), '\n');
    TokensOfWritten(entries);
    EntriesOfTokens(entries);
  }

  /**
   * A macdef begins at its word, whatever follows on the line, and ends with the blank line behind its
   * body; what stands before and after it is read.
   */
  lemma MacdefEnds(
    a: seq<string>, line: string, front: seq<string>, back: seq<string>, body: seq<string>, blank: string,
    b: seq<string>)
    requires forall l :: l in a ==> "macdef" !in Fields(l)
    requires Fields(line) == front + ["macdef"] + back && "macdef" !in front
    requires (forall l :: l in body ==> !Blank(l)) && Blank(blank)
    ensures Tokens(a + ([line] + body + [blank] + b), false) == Tokens(a, false) + front + Tokens(b, false)
  {
    TokensBefore(a, [line] + body + [blank] + b);
    MacdefHere(line, body, blank, b);
    UpToWord(front, back);
  }

  lemma {:induction false} TokensBefore(a: seq<string>, c: seq<string>)
    requires forall l :: l in a ==> "macdef" !in Fields(l)
    ensures Tokens(a + c, false) == Tokens(a, false) + Tokens(c, false)
    decreases a
  {
    if a == [] {
      assert a + c == c;
    } else {
      assert a[0] in a && (a + c)[1..] == a[1..] + c;
      TokensBefore(a[1..], c);
    }
  }

  lemma MacdefHere(line: string, body: seq<string>, blank: string, b: seq<string>)
    requires "macdef" in Fields(line) && (forall l :: l in body ==> !Blank(l)) && Blank(blank)
    ensures Tokens([line] + body + [blank] + b, false) == UpToMacdef(Fields(line)) + Tokens(b, false)
  {
    var behind := [blank] + b;
    var rest := [line] + body + [blank] + b;
    assert rest[1..] == body + behind;
    BodySkipped(body, behind);
    assert behind[1..] == b;
  }

  lemma {:induction false} UpToWord(front: seq<string>, back: seq<string>)
    requires "macdef" !in front
    ensures UpToMacdef(front + ["macdef"] + back) == front && "macdef" in front + ["macdef"] + back
    decreases front
  {
    var all := front + ["macdef"] + back;
    assert all[|front|] == "macdef";
    if front != [] {
      assert all[1..] == front[1..] + ["macdef"] + back;
      UpToWord(front[1..], back);
      assert front == [front[0]] + front[1..];
    }
  }

  lemma {:induction false} BodySkipped(body: seq<string>, rest: seq<string>)
    requires forall l :: l in body ==> !Blank(l)
    ensures Tokens(body + rest, true) == Tokens(rest, true)
    decreases body
  {
    if body == [] {
      assert body + rest == rest;
    } else {
      assert (body + rest)[1..] == body[1..] + rest;
      BodySkipped(body[1..], rest);
    }
  }
}
