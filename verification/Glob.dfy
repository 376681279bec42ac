/** `glob_to_regex`: the regex string a shell glob is compiled to, and what that string means. */
module Glob {
  import opened Options
  import Sequences

  datatype Compiled = Regex(text: string) | UnbalancedBrackets | BadRegex

  /** The characters that mean something to the regex grammar outside a class. */
  predicate IsMeta(c: char) {
    c in {'\\', '.', '+', '*', '?', '(', ')', '|', '[', '{', '}', '^', '$'}
  }

  /** Escaped by the compiler; `*`, `?` and `[` have their own cases. */
  predicate Escaped(c: char) {
    c in {'.', '+', '(', ')', '|', '{', '}', '\\', '^', '$'}
  }

  // ---------- the compiler ----------

  /** Text appended in front of a compilation that may fail. */
  function Prefixed(text: string, rest: Compiled): Compiled {
    match rest case Regex(r) => Regex(text + r) case _ => rest
  }

  function Body(glob: string): Compiled
    decreases |glob|, 1
  {
    if glob == "" then Regex("")
    else if glob[0] == '*' then Prefixed(".*", Body(glob[1..]))
    else if glob[0] == '?' then Prefixed(".", Body(glob[1..]))
    else if glob[0] == '[' then
      if |glob| > 1 && (glob[1] == '!' || glob[1] == '^') then Prefixed("[^", ClassBody(glob[2..]))
      else Prefixed("[", ClassBody(glob[1..]))
    else if Escaped(glob[0]) then Prefixed(['\\', glob[0]], Body(glob[1..]))
    else Prefixed([glob[0]], Body(glob[1..]))
  }

  /** The rest of a bracket class, passed through up to its `]`. */
  function ClassBody(glob: string): Compiled
    decreases |glob|, 0
  {
    if glob == "" then UnbalancedBrackets
    else if glob[0] == ']' then Prefixed("]", Body(glob[1..]))
    else if glob[0] in {'\\', '/', '^'} then Prefixed(['\\', glob[0]], ClassBody(glob[1..]))
    else Prefixed([glob[0]], ClassBody(glob[1..]))
  }

  /** The regex text a glob is compiled to. */
  function Compile(glob: string): Compiled {
    match Prefixed("^", Body(glob)) case Regex(r) => Regex(r + "$") case error => error
  }

  /** The text is handed to the regex engine; `compiles` is the engine's verdict. */
  function Build(glob: string, compiles: string -> bool): Compiled {
    match Compile(glob) case Regex(r) => if compiles(r) then Regex(r) else BadRegex case error => error
  }

  // ---------- the fragment of the regex grammar it emits ----------

  datatype Node = Literal(c: char) | AnyChar | AnyRun

  function Cons(n: Node, rest: Option<seq<Node>>): Option<seq<Node>> {
    match rest case Some(ns) => Some([n] + ns) case None => None
  }

  /** The pattern between the anchors; a meta character that is not escaped has no reading here. */
  function ParseBody(r: string): Option<seq<Node>>
    decreases |r|
  {
    if r == "" then None
    else if r == "$" then Some([])
    else if r[0] == '\\' then
      (if |r| > 1 && IsMeta(r[1]) then Cons(Literal(r[1]), ParseBody(r[2..])) else None)
    else if r[0] == '.' then
      (if |r| > 1 && r[1] == '*' then Cons(AnyRun, ParseBody(r[2..])) else Cons(AnyChar, ParseBody(r[1..])))
    else if IsMeta(r[0]) then None
    else Cons(Literal(r[0]), ParseBody(r[1..]))
  }

  function Parse(r: string): Option<seq<Node>> {
    if r != "" && r[0] == '^' then ParseBody(r[1..]) else None
  }

  /** An anchored match of the whole text; `.` does not match a newline. */
  predicate Matches(nodes: seq<Node>, text: string)
    decreases |nodes| + |text|
  {
    if nodes == [] then text == ""
    else match nodes[0]
      case Literal(c) => text != "" && text[0] == c && Matches(nodes[1..], text[1..])
      case AnyChar => text != "" && text[0] != '\n' && Matches(nodes[1..], text[1..])
      case AnyRun => Matches(nodes[1..], text) || (text != "" && text[0] != '\n' && Matches(nodes, text[1..]))
  }

  // ---------- what a glob means ----------

  /** fnmatch without classes; `wild` says which characters the wildcards accept. */
  predicate GlobMatches(glob: string, name: string, wild: char -> bool)
    decreases |glob| + |name|
  {
    if glob == "" then name == ""
    else if glob[0] == '*' then
      GlobMatches(glob[1..], name, wild) || (name != "" && wild(name[0]) && GlobMatches(glob, name[1..], wild))
    else if glob[0] == '?' then name != "" && wild(name[0]) && GlobMatches(glob[1..], name[1..], wild)
    else name != "" && name[0] == glob[0] && GlobMatches(glob[1..], name[1..], wild)
  }

  predicate AnyAtAll(c: char) {
    true
  }

  predicate NotNewline(c: char) {
    c != '\n'
  }

  /** Every `*` takes some run of accepted characters: the usual reading of the recursion above. */
  lemma {:induction false} StarTakesARun(glob: string, name: string)
    requires glob != "" && glob[0] == '*'
    ensures GlobMatches(glob, name, AnyAtAll) <==>
      exists k :: 0 <= k <= |name| && GlobMatches(glob[1..], name[k..], AnyAtAll)
    decreases |name|
  {
    assert name[0..] == name;
    if name != "" {
      StarTakesARun(glob, name[1..]);
      forall k | 0 <= k <= |name[1..]|
        ensures name[1..][k..] == name[k + 1..]
      {
        Sequences.DropDrop(name, 1, k);
      }
      if k :| 0 <= k <= |name| && GlobMatches(glob[1..], name[k..], AnyAtAll) {
        if k > 0 { assert GlobMatches(glob[1..], name[1..][k - 1..], AnyAtAll); }
      }
      if k :| 0 <= k <= |name[1..]| && GlobMatches(glob[1..], name[1..][k..], AnyAtAll) {
        assert GlobMatches(glob[1..], name[k + 1..], AnyAtAll);
      }
    }
  }

  // ---------- the emitted string means the glob ----------

  /** The pattern a bracket-free glob stands for. */
  function Nodes(glob: string): seq<Node> {
    if glob == "" then []
    else [if glob[0] == '*' then AnyRun else if glob[0] == '?' then AnyChar else Literal(glob[0])] + Nodes(glob[1..])
  }

  lemma {:induction false} BodyCompiles(glob: string)
    requires '[' !in glob
    ensures Body(glob).Regex?
    decreases |glob|
  {
    if glob != "" {
      assert '[' !in glob[1..];
      BodyCompiles(glob[1..]);
    }
  }

  /** The emitted body never starts with `*`, so a `.` in front of it is a single `.`. */
  lemma BodyStart(glob: string)
    requires '[' !in glob
    ensures Body(glob).Regex? && (Body(glob).text != "" ==> Body(glob).text[0] != '*')
    ensures Body(glob).text == "" <==> glob == ""
  {
    BodyCompiles(glob);
    if glob != "" {
      assert '[' !in glob[1..];
      BodyCompiles(glob[1..]);
    }
  }

  lemma {:induction false} BodyParses(glob: string)
    requires '[' !in glob
    ensures Body(glob).Regex? && ParseBody(Body(glob).text + "$") == Some(Nodes(glob))
    decreases |glob|
  {
    if glob == "" {
      assert "" + "$" == "$";
    } else {
      var rest := glob[1..];
      assert '[' !in rest;
      BodyParses(rest);
      BodyStart(rest);
      BodyStart(glob);
      ParseOne(glob[0], Body(rest).text, Nodes(rest));
    }
  }

  /** What one glob character is compiled to. */
  function Piece(c: char): string {
    if c == '*' then ".*" else if c == '?' then "." else if Escaped(c) then ['\\', c] else [c]
  }

  /** A two-character piece is an escape or a run, whatever follows it. */
  lemma ParsePair(first: char, second: char, tail: string)
    requires (first == '\\' && IsMeta(second)) || (first == '.' && second == '*')
    ensures ParseBody([first, second] + tail)
         == Cons(if first == '.' then AnyRun else Literal(second), ParseBody(tail))
  {
    var r := [first, second] + tail;
    assert r[2..] == tail && r[0] == first && r[1] == second;
  }

  /** A one-character piece is a wildcard or a literal, provided no `*` follows it. */
  lemma ParseSingle(c: char, tail: string)
    requires (c == '.' || !IsMeta(c)) && tail != "" && tail[0] != '*'
    ensures ParseBody([c] + tail) == Cons(if c == '.' then AnyChar else Literal(c), ParseBody(tail))
  {
    var r := [c] + tail;
    assert r[1..] == tail && r[0] == c && r[1] == tail[0];
  }

  lemma ParseOne(c: char, rest: string, nodes: seq<Node>)
    requires c != '[' && (rest != "" ==> rest[0] != '*')
    requires ParseBody(rest + "$") == Some(nodes)
    ensures ParseBody((Piece(c) + rest) + "$")
         == Some([if c == '*' then AnyRun else if c == '?' then AnyChar else Literal(c)] + nodes)
  {
    hide ParseBody;
    var tail := rest + "$";
    assert tail[0] != '*';
    Sequences.Associative(Piece(c), rest, "$");
    if c == '*' {
      ParsePair('.', '*', tail);
    } else if c == '?' {
      ParseSingle('.', tail);
    } else if Escaped(c) {
      ParsePair('\\', c, tail);
    } else {
      ParseSingle(c, tail);
    }
  }

  lemma {:induction false} NodesMatch(glob: string, name: string)
    requires '[' !in glob
    ensures Matches(Nodes(glob), name) <==> GlobMatches(glob, name, NotNewline)
    decreases |glob| + |name|
  {
    if glob != "" {
      assert '[' !in glob[1..];
      assert Nodes(glob)[1..] == Nodes(glob[1..]);
      if glob[0] == '*' {
        NodesMatch(glob[1..], name);
        if name != "" { NodesMatch(glob, name[1..]); }
      } else if name != "" {
        NodesMatch(glob[1..], name[1..]);
      }
    }
  }

  lemma {:induction false} NewlineFree(glob: string, name: string)
    requires '\n' !in name
    ensures GlobMatches(glob, name, NotNewline) <==> GlobMatches(glob, name, AnyAtAll)
    decreases |glob| + |name|
  {
    if glob != "" {
      if name != "" { assert name[0] in name && '\n' !in name[1..]; }
      if glob[0] == '*' {
        NewlineFree(glob[1..], name);
        if name != "" { NewlineFree(glob, name[1..]); }
      } else if name != "" {
        NewlineFree(glob[1..], name[1..]);
      }
    }
  }

  /** The emitted regex is in the fragment and matches exactly what the glob matches, with wildcards that
      stop at a newline; on a name without one, that is fnmatch. */
  lemma CompilePreservesMeaning(glob: string, name: string)
    requires '[' !in glob
    ensures Compile(glob).Regex? && Parse(Compile(glob).text).Some?
    ensures Matches(Parse(Compile(glob).text).value, name) <==> GlobMatches(glob, name, NotNewline)
    ensures '\n' !in name ==>
      (Matches(Parse(Compile(glob).text).value, name) <==> GlobMatches(glob, name, AnyAtAll))
  {
    BodyParses(glob);
    var body := Body(glob).text;
    assert (("^" + body) + "$")[1..] == body + "$";
    NodesMatch(glob, name);
    if '\n' !in name { NewlineFree(glob, name); }
  }

  /** With a newline in the name the two readings part: `*` matches every name, its regex does not. */
  lemma NewlineSplits(name: string)
    requires '\n' in name
    ensures GlobMatches("*", name, AnyAtAll) && !Matches(Parse(Compile("*").text).value, name)
  {
    CompilePreservesMeaning("*", name);
    StarMatchesAll(name);
    StarStopsAtNewline(name);
  }

  lemma {:induction false} StarMatchesAll(name: string)
    ensures GlobMatches("*", name, AnyAtAll)
  {
    assert "*"[1..] == "";
    if name != "" { StarMatchesAll(name[1..]); }
  }

  lemma {:induction false} StarStopsAtNewline(name: string)
    requires '\n' in name
    ensures !GlobMatches("*", name, NotNewline)
  {
    assert "*"[1..] == "";
    if name[0] != '\n' { StarStopsAtNewline(name[1..]); }
  }

  /** A glob without wildcards matches its own text only: the escaping is complete. */
  lemma {:induction false} LiteralGlob(glob: string, name: string)
    requires '*' !in glob && '?' !in glob && '[' !in glob
    ensures GlobMatches(glob, name, NotNewline) <==> name == glob
    decreases |glob|
  {
    if glob != "" {
      assert glob[0] in glob && glob[1..] == glob[1..|glob|];
      if name != "" {
        LiteralGlob(glob[1..], name[1..]);
        Sequences.Rejoin(glob, 1);
        Sequences.Rejoin(name, 1);
      }
    }
  }

  // ---------- what a bracket class becomes ----------

  /** The inside of a class, with a backslash before the three characters that need one. */
  function ClassText(inner: string): string {
    if inner == "" then ""
    else (if inner[0] in {'\\', '/', '^'} then "\\" + [inner[0]] else [inner[0]]) + ClassText(inner[1..])
  }

  lemma {:induction false} ClassInside(inner: string, rest: string)
    requires ']' !in inner
    ensures ClassBody(inner + ("]" + rest)) == Prefixed(ClassText(inner) + "]", Body(rest))
    decreases |inner|
  {
    hide Body;
    var s := inner + ("]" + rest);
    if inner == "" {
      assert s == "]" + rest && s[1..] == rest;
      assert ClassText(inner) + "]" == "]";
    } else {
      Sequences.OffTheFront(inner, "]" + rest);
      assert ']' !in inner[1..] && inner[0] in inner;
      ClassInside(inner[1..], rest);
      var piece := if inner[0] in {'\\', '/', '^'} then ['\\', inner[0]] else [inner[0]];
      Prepend(piece, ClassText(inner[1..]) + "]", Body(rest));
      Sequences.Associative(piece, ClassText(inner[1..]), "]");
    }
  }

  lemma NegatedClass(mark: char, inner: string, rest: string)
    requires ']' !in inner && (mark == '!' || mark == '^')
    ensures Body(['[', mark] + (inner + ("]" + rest))) == Prefixed("[^" + ClassText(inner) + "]", Body(rest))
  {
    hide ClassBody, ClassText;
    var s := inner + ("]" + rest);
    ClassInside(inner, rest);
    assert (['[', mark] + s)[2..] == s;
    Prepend("[^", ClassText(inner) + "]", Body(rest));
    Sequences.Associative("[^", ClassText(inner), "]");
  }

  lemma PlainClass(inner: string, rest: string)
    requires ']' !in inner && (inner == "" || inner[0] !in {'!', '^'})
    ensures Body("[" + (inner + ("]" + rest))) == Prefixed("[" + ClassText(inner) + "]", Body(rest))
  {
    hide ClassBody, ClassText;
    var s := inner + ("]" + rest);
    ClassInside(inner, rest);
    assert ("[" + s)[1..] == s;
    assert s[0] !in {'!', '^'};
    Prepend("[", ClassText(inner) + "]", Body(rest));
    Sequences.Associative("[", ClassText(inner), "]");
  }

  /** A class is passed on as a class: `!` or `^` at its start negates it, the rest is kept up to the first `]`. */
  lemma ClassExactly(inner: string, rest: string)
    requires ']' !in inner
    ensures Body("[!" + (inner + ("]" + rest))) == Prefixed("[^" + ClassText(inner) + "]", Body(rest))
    ensures Body("[^" + (inner + ("]" + rest))) == Prefixed("[^" + ClassText(inner) + "]", Body(rest))
    ensures (inner == "" || inner[0] !in {'!', '^'}) ==>
      Body("[" + (inner + ("]" + rest))) == Prefixed("[" + ClassText(inner) + "]", Body(rest))
  {
    hide Body, ClassText;
    NegatedClass('!', inner, rest);
    NegatedClass('^', inner, rest);
    if inner == "" || inner[0] !in {'!', '^'} { PlainClass(inner, rest); }
  }

  // ---------- when compilation fails ----------

  /** A class that is opened and never closed. */
  predicate Unclosed(glob: string, inClass: bool)
    decreases |glob|
  {
    if glob == "" then inClass
    else if inClass then Unclosed(glob[1..], glob[0] != ']')
    else if glob[0] == '[' then
      Unclosed(if |glob| > 1 && (glob[1] == '!' || glob[1] == '^') then glob[2..] else glob[1..], true)
    else Unclosed(glob[1..], false)
  }

  lemma {:induction false} FailsExactlyUnclosed(glob: string)
    ensures Body(glob).UnbalancedBrackets? <==> Unclosed(glob, false)
    ensures ClassBody(glob).UnbalancedBrackets? <==> Unclosed(glob, true)
    ensures !Body(glob).BadRegex? && !ClassBody(glob).BadRegex?
    decreases |glob|
  {
    if glob != "" {
      FailsExactlyUnclosed(glob[1..]);
      if |glob| > 1 { FailsExactlyUnclosed(glob[2..]); }
    }
  }

  /** A glob fails exactly when a class is never closed or the engine refuses the emitted text; the first
      is reported before the engine is asked. */
  lemma FailsExactly(glob: string, compiles: string -> bool)
    ensures Build(glob, compiles).UnbalancedBrackets? <==> Unclosed(glob, false)
    ensures Build(glob, compiles).BadRegex? <==> Compile(glob).Regex? && !compiles(Compile(glob).text)
    ensures Build(glob, compiles).Regex? ==> Build(glob, compiles) == Compile(glob)
  {
    FailsExactlyUnclosed(glob);
  }

  /** An engine that accepts the fragment accepts every glob without a class. */
  lemma ClasslessNeverFails(glob: string, compiles: string -> bool)
    requires '[' !in glob
    requires forall text :: Parse(text).Some? ==> compiles(text)
    ensures Build(glob, compiles).Regex?
  {
    CompilePreservesMeaning(glob, "");
  }

  /** Closed classes that reach the engine as an empty class and as a range that runs backwards. */
  lemma ClosedYetRefused(compiles: string -> bool)
    requires !compiles("^[]$") && !compiles("^[z-a]$")
    ensures !Unclosed("[]", false) && Build("[]", compiles).BadRegex?
    ensures !Unclosed("[z-a]", false) && Build("[z-a]", compiles).BadRegex?
  {
    FailsExactly("[]", compiles);
    FailsExactly("[z-a]", compiles);
    assert ClassBody("]") == Regex("]");
    assert "[]"[1..] == "]" && "[z-a]"[1..] == "z-a]";
    assert "z-a]"[1..] == "-a]" && "-a]"[1..] == "a]" && "a]"[1..] == "]";
    assert Compile("[]") == Regex("^[]$");
    assert ClassBody("a]") == Regex("a]") && ClassBody("-a]") == Regex("-a]") && ClassBody("z-a]") == Regex("z-a]");
    assert Compile("[z-a]") == Regex("^[z-a]$");
  }

  // ---------- the compiler loop ----------

  method GlobToRegex(glob: string, compiles: string -> bool) returns (r: Compiled)
    ensures r == Build(glob, compiles)
  {
    var re := "^";
    var i := 0;
    assert glob[0..] == glob;
    while i < |glob|
      invariant 0 <= i <= |glob|
      invariant Prefixed(re, Body(glob[i..])) == Prefixed("^", Body(glob))
      decreases |glob| - i
    {
      var c := glob[i];
      Sequences.DropDrop(glob, i, 1);
      if c == '[' {
        var j := i + 1;
        var open := "[";
        if j < |glob| && (glob[j] == '!' || glob[j] == '^') {
          Sequences.DropDrop(glob, i, 2);
          open := "[^";
          j := j + 1;
        }
        Prepend(re, open, ClassBody(glob[j..]));
        re := re + open;
        var closed := false;
        while j < |glob| && !closed
          invariant i < j <= |glob|
          invariant Prefixed(re, if closed then Body(glob[j..]) else ClassBody(glob[j..])) == Prefixed("^", Body(glob))
          decreases |glob| - j
        {
          var nc := glob[j];
          Sequences.DropDrop(glob, j, 1);
          j := j + 1;
          if nc == ']' {
            Prepend(re, "]", Body(glob[j..]));
            re := re + "]";
            closed := true;
          } else {
            var piece := if nc in {'\\', '/', '^'} then ['\\', nc] else [nc];
            Prepend(re, piece, ClassBody(glob[j..]));
            re := re + piece;
          }
        }
        if !closed {
          return UnbalancedBrackets;
        }
        i := j;
      } else {
        Prepend(re, Piece(c), Body(glob[i + 1..]));
        re := re + Piece(c);
        i := i + 1;
      }
    }
    assert glob[i..] == "";
    assert Prefixed(re, Body("")) == Regex(re) by { Sequences.NothingAdded(re); }
    re := re + "$";
    r := if compiles(re) then Regex(re) else BadRegex;
  }

  lemma Prepend(a: string, b: string, rest: Compiled)
    ensures Prefixed(a, Prefixed(b, rest)) == Prefixed(a + b, rest)
  {
    if rest.Regex? { Sequences.Associative(a, b, rest.text); }
  }
}
