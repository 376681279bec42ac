/** `parse_dotenv`: KEY=VALUE lines with quoting and references to keys defined earlier in the file. */
module Dotenv {
  import opened Options
  import opened Text
  import Sequences

  type Env = map<string, string>

  datatype Entry = Entry(key: string, value: string)

  predicate IsAlpha(c: char) {
    'a' <= c <= 'z' || 'A' <= c <= 'Z'
  }

  predicate IsNameChar(c: char) {
    IsAlpha(c) || '0' <= c <= '9' || c == '_'
  }

  predicate IsValidKey(k: string) {
    k != "" && (IsAlpha(k[0]) || k[0] == '_') && forall i :: 0 <= i < |k| ==> IsNameChar(k[i])
  }

  function Lookup(env: Env, name: string): string {
    if name in env then env[name] else ""
  }

  /** The length of the run of name characters at the front. */
  function NameLength(s: string): (n: nat)
    ensures n <= |s|
    ensures forall i :: 0 <= i < n ==> IsNameChar(s[i])
    ensures n < |s| ==> !IsNameChar(s[n])
  {
    if s == "" || !IsNameChar(s[0]) then 0 else 1 + NameLength(s[1..])
  }

  // ---------- expansion ----------

  /** What is written for the front of the text, and how much of it is taken. */
  datatype Piece = Piece(text: string, take: nat)

  function NextPiece(s: string, env: Env): (p: Piece)
    requires s != ""
    ensures 1 <= p.take <= |s|
  {
    if s[0] == '\\' then (if |s| > 1 && s[1] == '$' then Piece("$", 2) else Piece("\\", 1))
    else if s[0] != '$' then Piece([s[0]], 1)
    else if |s| > 1 && s[1] == '{' then
      var n := Find(s[2..], '}');
      if n == |s[2..]| then Piece("${" + s[2..], |s|)
      else Piece(Lookup(env, s[2..2 + n]), 3 + n)
    else
      var n := NameLength(s[1..]);
      if n == 0 then Piece("$", 1) else Piece(Lookup(env, s[1..1 + n]), 1 + n)
  }

  function Expand(s: string, env: Env): string
    decreases |s|
  {
    if s == "" then "" else
      var p := NextPiece(s, env);
      p.text + Expand(s[p.take..], env)
  }

  // ---------- one line ----------

  function StripQuotes(s: string, q: char): Option<string> {
    if |s| >= 2 && s[0] == q && s[|s| - 1] == q then Some(s[1..|s| - 1]) else None
  }

  function ValueOf(rest: string, env: Env): string {
    if StripQuotes(rest, '\'').Some? then StripQuotes(rest, '\'').value
    else if StripQuotes(rest, '"').Some? then Expand(StripQuotes(rest, '"').value, env)
    else Expand(rest, env)
  }

  const EXPORT: string := "export "

  function ParseLine(raw: string, env: Env): Option<Entry> {
    var line := TrimStart(raw);
    if line == "" || line[0] == '#' then None
    else
      var body := if EXPORT <= line then line[|EXPORT|..] else line;
      var eq := Find(body, '=');
      if eq == |body| then None
      else
        var key := Trim(body[..eq]);
        if !IsValidKey(key) then None
        else Some(Entry(key, ValueOf(Trim(body[eq + 1..]), env)))
  }

  function AddLine(env: Env, raw: string): Env {
    match ParseLine(raw, env)
    case None => env
    case Some(e) => env[e.key := e.value]
  }

  function ParseLines(lines: seq<string>, env: Env): Env
    decreases |lines|
  {
    if lines == [] then env else ParseLines(lines[1..], AddLine(env, lines[0]))
  }

  function Parse(text: string): Env {
    ParseLines(Lines(text), map[])
  }

  // ---------- printing ----------

  function Escape(v: string): string {
    if v == "" then "" else (if v[0] == '$' then "\\$" else [v[0]]) + Escape(v[1..])
  }

  function PrintLine(e: Entry): string {
    e.key + "=\"" + Escape(e.value) + "\""
  }

  function Print(entries: seq<Entry>): string {
    if entries == [] then "" else PrintLine(entries[0]) + "\n" + Print(entries[1..])
  }

  /** The environment a list of entries stands for: a later entry for a key wins. */
  function EnvOf(entries: seq<Entry>, env: Env): Env
    decreases |entries|
  {
    if entries == [] then env else EnvOf(entries[1..], env[entries[0].key := entries[0].value])
  }

  predicate Printable(e: Entry) {
    IsValidKey(e.key) && '\n' !in e.value
  }

  // ---------- escaping is undone by expansion ----------

  lemma EscapeStart(v: string)
    ensures Escape(v) == "" <==> v == ""
    ensures v != "" ==> Escape(v)[0] == (if v[0] == '$' then '\\' else v[0]) && Escape(v)[0] != '$'
  {
  }

  lemma ExpandStep(s: string, env: Env)
    requires s != ""
    ensures Expand(s, env) == NextPiece(s, env).text + Expand(s[NextPiece(s, env).take..], env)
  {
  }

  /** Whatever the environment, and with backslashes and braces anywhere in the value. */
  lemma {:induction false} ExpandEscape(v: string, env: Env)
    ensures Expand(Escape(v), env) == v
    decreases |v|
  {
    if v != "" {
      var s, rest := Escape(v), Escape(v[1..]);
      EscapeStart(v);
      EscapeStart(v[1..]);
      ExpandEscape(v[1..], env);
      ExpandStep(s, env);
      if v[0] == '$' {
        assert s == "\\$" + rest && s[0] == '\\' && s[1] == '$' && s[2..] == rest;
      } else {
        assert s == [v[0]] + rest && s[1..] == rest;
        assert NextPiece(s, env) == Piece([v[0]], 1);
      }
      assert v == [v[0]] + v[1..];
    }
  }

  // ---------- a printed line is read back ----------

  lemma NameCharFacts(c: char)
    requires IsNameChar(c)
    ensures !IsWhitespace(c) && c != '=' && c != '#' && c != ' ' && c != '\n' && c != '$' && c != '}'
  {
  }

  lemma KeyFacts(k: string)
    requires IsValidKey(k)
    ensures IsTrimmed(k) && '=' !in k && '\n' !in k && '}' !in k
    ensures !IsWhitespace(k[0]) && k[0] != '#' && forall i :: 0 <= i < |k| ==> k[i] != ' '
  {
    forall i | 0 <= i < |k|
      ensures !IsWhitespace(k[i]) && k[i] != '=' && k[i] != ' ' && k[i] != '\n' && k[i] != '#' && k[i] != '}'
    {
      NameCharFacts(k[i]);
    }
  }

  lemma StartsAtKey(s: string)
    requires s != "" && !IsWhitespace(s[0])
    ensures TrimStart(s) == s
  {
  }

  /** A key never reads as `export `: the prefix has a blank where the key has a name character or `=`. */
  lemma NotExport(key: string, rest: string)
    requires IsValidKey(key)
    ensures !(EXPORT <= key + "=" + rest)
  {
    var s := key + "=" + rest;
    KeyFacts(key);
    var i := if |key| <= 6 then |key| else 6;
    assert s[i] == if |key| <= 6 then '=' else key[6];
    assert s[i] != EXPORT[i];
  }

  lemma ParseAssignment(key: string, rest: string, env: Env)
    requires IsValidKey(key)
    ensures ParseLine(key + "=" + rest, env) == Some(Entry(key, ValueOf(Trim(rest), env)))
  {
    hide Trim, TrimStart, IsWhitespace, ValueOf, EXPORT, IsValidKey, Find;
    var s := key + "=" + rest;
    assert IsValidKey(key) ==> key != "" by { KeyNonEmpty(key); }
    KeyFacts(key);
    StartsAtKey(s);
    NotExport(key, rest);
    FindAt(key, '=', rest);
    assert key + ['='] + rest == s;
    assert s[..|key|] == key && s[|key| + 1..] == rest;
    TrimOfTrimmed(key);
  }

  lemma KeyNonEmpty(key: string)
    requires IsValidKey(key)
    ensures key != ""
  {
  }

  lemma QuotedValue(v: string, env: Env)
    ensures ValueOf(Trim("\"" + Escape(v) + "\""), env) == v
  {
    hide Trim, Expand, Escape;
    var s := "\"" + Escape(v) + "\"";
    QuoteIsNotBlank();
    TrimOfTrimmed(s);
    assert s[0] == '"' && s[|s| - 1] == '"' && s[1..|s| - 1] == Escape(v);
    ExpandEscape(v, env);
  }

  lemma QuoteIsNotBlank()
    ensures !IsWhitespace('"')
  {
  }

  lemma ParsePrintedLine(e: Entry, env: Env)
    requires Printable(e)
    ensures ParseLine(PrintLine(e), env) == Some(e)
  {
    hide Escape, ParseLine, ValueOf, IsValidKey;
    var rest := "\"" + Escape(e.value) + "\"";
    assert PrintLine(e) == e.key + "=" + rest;
    ParseAssignment(e.key, rest, env);
    QuotedValue(e.value, env);
  }

  lemma {:induction false} EscapeHasNoNewline(v: string)
    requires '\n' !in v
    ensures '\n' !in Escape(v)
  {
    if v != "" {
      assert '\n' !in v[1..] && v[0] in v;
      EscapeHasNoNewline(v[1..]);
    }
  }

  lemma PrintedLineIsOneLine(e: Entry)
    requires Printable(e)
    ensures '\n' !in PrintLine(e) && StripReturn(PrintLine(e)) == PrintLine(e)
  {
    hide Escape, IsValidKey;
    EscapeHasNoNewline(e.value);
    KeyFacts(e.key);
    assert PrintLine(e)[|PrintLine(e)| - 1] == '"';
  }

  lemma {:induction false} ParsePrintFrom(entries: seq<Entry>, env: Env)
    requires forall i :: 0 <= i < |entries| ==> Printable(entries[i])
    ensures ParseLines(Lines(Print(entries)), env) == EnvOf(entries, env)
    decreases |entries|
  {
    if entries == [] {
      NoLines();
      assert ParseLines([], env) == env;
    } else {
      hide Lines, PrintLine, ParseLine, ParseLines, Printable, StripReturn;
      var e, rest := entries[0], Print(entries[1..]);
      PrintedLineIsOneLine(e);
      LinesStep(PrintLine(e), rest);
      ParsePrintedLine(e, env);
      ParseLinesStep(PrintLine(e), Lines(rest), env);
      ParsePrintFrom(entries[1..], env[e.key := e.value]);
    }
  }

  lemma ParseLinesStep(line: string, rest: seq<string>, env: Env)
    ensures ParseLines([line] + rest, env) == ParseLines(rest, AddLine(env, line))
  {
    hide AddLine;
    Sequences.OffTheFront([line], rest);
    Sequences.NothingAdded(rest);
  }

  lemma NoLines()
    ensures Lines("") == []
  {
  }

  /** Printing any entries with valid keys and newline-free values is undone by parsing. */
  lemma ParsePrint(entries: seq<Entry>)
    requires forall i :: 0 <= i < |entries| ==> Printable(entries[i])
    ensures Parse(Print(entries)) == EnvOf(entries, map[])
  {
    ParsePrintFrom(entries, map[]);
  }

  /** With distinct keys every entry is found under its key, and nothing else is. */
  lemma {:induction false} DistinctEntries(entries: seq<Entry>, env: Env)
    requires forall i, j :: 0 <= i < j < |entries| ==> entries[i].key != entries[j].key
    ensures forall i :: 0 <= i < |entries| ==>
      entries[i].key in EnvOf(entries, env) && EnvOf(entries, env)[entries[i].key] == entries[i].value
    ensures forall k :: (forall i :: 0 <= i < |entries| ==> entries[i].key != k) ==>
      (k in EnvOf(entries, env) <==> k in env) && (k in env ==> EnvOf(entries, env)[k] == env[k])
    decreases |entries|
  {
    if entries != [] {
      var next := env[entries[0].key := entries[0].value];
      var rest := entries[1..];
      DistinctEntries(rest, next);
      assert forall j :: 0 <= j < |rest| ==> rest[j].key == entries[j + 1].key != entries[0].key;
      forall i | 0 <= i < |entries|
        ensures entries[i].key in EnvOf(entries, env) && EnvOf(entries, env)[entries[i].key] == entries[i].value
      {
        if i > 0 { assert rest[i - 1].key in EnvOf(rest, next); }
      }
    }
  }

  // ---------- only earlier lines matter ----------

  lemma {:induction false} LinesInOrder(a: seq<string>, b: seq<string>, env: Env)
    ensures ParseLines(a + b, env) == ParseLines(b, ParseLines(a, env))
    decreases |a|
  {
    hide AddLine;
    if a == [] {
      Sequences.NothingAdded(b);
    } else {
      Sequences.OffTheFront(a, b);
      LinesInOrder(a[1..], b, AddLine(env, a[0]));
    }
  }

  /** A reference in braces anywhere in a value. */
  lemma BracedReference(name: string, rest: string, env: Env)
    requires '}' !in name
    ensures Expand("${" + name + "}" + rest, env) == (if name in env then env[name] else "") + Expand(rest, env)
  {
    var s := "${" + name + "}" + rest;
    assert s[2..] == name + ['}'] + rest;
    FindAt(name, '}', rest);
    assert s[2..2 + |name|] == name && s[3 + |name|..] == rest;
    ExpandStep(s, env);
  }

  /** Without braces a reference takes the longest run of name characters. */
  lemma BareReference(name: string, rest: string, env: Env)
    requires name != "" && forall i :: 0 <= i < |name| ==> IsNameChar(name[i])
    requires rest != "" ==> !IsNameChar(rest[0])
    ensures Expand("$" + name + rest, env) == (if name in env then env[name] else "") + Expand(rest, env)
  {
    var s := "$" + name + rest;
    assert s[1..] == name + rest && s[1] == name[0];
    NameLengthOf(name, rest);
    assert s[1..1 + |name|] == name && s[1 + |name|..] == rest;
    ExpandStep(s, env);
  }

  lemma {:induction false} NameLengthOf(name: string, rest: string)
    requires forall i :: 0 <= i < |name| ==> IsNameChar(name[i])
    requires rest != "" ==> !IsNameChar(rest[0])
    ensures NameLength(name + rest) == |name|
    decreases |name|
  {
    if name == "" {
      Sequences.NothingAdded(rest);
    } else {
      Sequences.OffTheFront(name, rest);
      NameLengthOf(name[1..], rest);
    }
  }

  /** An unterminated brace and a dollar that starts no name stay as they are. */
  lemma NotAReference(rest: string, env: Env)
    ensures '}' !in rest ==> Expand("${" + rest, env) == "${" + rest
    ensures (rest == "" || (!IsNameChar(rest[0]) && rest[0] != '{')) ==> Expand("$" + rest, env) == "$" + Expand(rest, env)
  {
    if '}' !in rest {
      var s := "${" + rest;
      assert s[2..] == rest;
      FindNone(rest, '}');
      ExpandStep(s, env);
      assert s[|s|..] == "";
    }
    if rest == "" || (!IsNameChar(rest[0]) && rest[0] != '{') {
      assert ("$" + rest)[1..] == rest;
      ExpandStep("$" + rest, env);
    }
  }

  lemma ReferenceExpands(name: string, env: Env)
    requires '}' !in name
    ensures Expand("${" + name + "}", env) == if name in env then env[name] else ""
  {
    BracedReference(name, "", env);
    assert "${" + name + "}" + "" == "${" + name + "}";
  }

  /** A reference reads the value its name has at that line: a definition further down does not count, so a
      name defined only later expands to nothing. */
  lemma ForwardReference(before: seq<string>, key: string, name: string, after: seq<string>, env: Env)
    requires IsValidKey(key) && IsValidKey(name)
    ensures var line := key + "=" + ("${" + name + "}");
      var seen := ParseLines(before, env);
      ParseLines(before + [line] + after, env) == ParseLines(after, seen[key := if name in seen then seen[name] else ""])
  {
    hide ParseLine, Trim, Expand;
    var reference := "${" + name + "}";
    var line := key + "=" + reference;
    var seen := ParseLines(before, env);
    ReferenceIsTrimmed(reference);
    TrimOfTrimmed(reference);
    KeyFacts(name);
    ParseAssignment(key, reference, seen);
    ReferenceExpands(name, seen);
    LinesInOrder(before + [line], after, env);
    LinesInOrder(before, [line], env);
    assert [line][1..] == [];
    assert ParseLines([line], seen) == ParseLines([], AddLine(seen, line));
  }

  lemma ReferenceIsTrimmed(s: string)
    requires |s| >= 2 && s[0] == '$' && s[|s| - 1] == '}'
    ensures IsTrimmed(s)
  {
  }

  /** Single quotes are literal: no expansion, no escapes. */
  lemma SingleQuoted(key: string, v: string, env: Env)
    requires IsValidKey(key)
    ensures ParseLine(key + "=" + ("'" + v + "'"), env) == Some(Entry(key, v))
  {
    hide ParseLine, Trim, Expand;
    var s := "'" + v + "'";
    assert s[0] == '\'' && s[|s| - 1] == '\'' && s[1..|s| - 1] == v;
    SingleQuoteIsNotBlank();
    TrimOfTrimmed(s);
    ParseAssignment(key, s, env);
  }

  lemma SingleQuoteIsNotBlank()
    ensures !IsWhitespace('\'')
  {
  }

  // ---------- the loops ----------

  method ExpandEnvRefs(s: string, vars: Env) returns (out: string)
    ensures out == Expand(s, vars)
  {
    hide Expand, NextPiece;
    out := "";
    var rest := s;
    Sequences.NothingAdded(Expand(s, vars));
    while rest != ""
      invariant out + Expand(rest, vars) == Expand(s, vars)
      decreases |rest|
    {
      ExpandStep(rest, vars);
      var text, take := OneReference(rest, vars);
      Sequences.Associative(out, text, Expand(rest[take..], vars));
      out, rest := out + text, rest[take..];
    }
    ExpandNothing(vars);
    Sequences.NothingAdded(out);
  }

  lemma ExpandNothing(env: Env)
    ensures Expand("", env) == ""
  {
  }

  /** One iteration over the characters still to be read. */
  method OneReference(s: string, vars: Env) returns (text: string, take: nat)
    requires s != ""
    ensures Piece(text, take) == NextPiece(s, vars) && 1 <= take <= |s|
  {
    hide Find, NameLength, Lookup;
    var c := s[0];
    if c == '\\' {
      if 1 < |s| && s[1] == '$' {
        return "$", 2;
      }
      return "\\", 1;
    }
    if c != '$' {
      return [c], 1;
    }
    if 1 < |s| && s[1] == '{' {
      var tail := s[2..];
      var n := FindClosing(tail);
      if n == |tail| {
        return "${" + tail, |s|;
      }
      return Lookup(vars, s[2..2 + n]), 3 + n;
    }
    var n := CountName(s[1..]);
    if n == 0 {
      return "$", 1;
    }
    text, take := Lookup(vars, s[1..1 + n]), 1 + n;
  }

  method FindClosing(tail: string) returns (n: nat)
    ensures n == Find(tail, '}')
  {
    n := 0;
    while n < |tail| && tail[n] != '}'
      invariant 0 <= n <= |tail| && Find(tail, '}') == n + Find(tail[n..], '}')
    {
      Sequences.DropDrop(tail, n, 1);
      n := n + 1;
    }
  }

  method CountName(tail: string) returns (n: nat)
    ensures n == NameLength(tail)
  {
    n := 0;
    while n < |tail| && IsNameChar(tail[n])
      invariant 0 <= n <= |tail| && NameLength(tail) == n + NameLength(tail[n..])
    {
      Sequences.DropDrop(tail, n, 1);
      n := n + 1;
    }
  }

  method ParseDotenv(text: string) returns (env: Env)
    ensures env == Parse(text)
  {
    hide ParseLine, Lines;
    env := map[];
    var lines := Lines(text);
    while lines != []
      invariant ParseLines(lines, env) == Parse(text)
      decreases |lines|
    {
      var e := ParseLine(lines[0], env);
      if e.Some? {
        env := env[e.value.key := e.value.value];
      }
      lines := lines[1..];
    }
  }
}
