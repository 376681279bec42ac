/** What each form of a dotenv line and of a value means, for every text and not only for printed ones. */
module DotenvRules {
  import opened Options
  import opened Text
  import opened Dotenv
  import Sequences

  // ---------- keys ----------

  const UPPER_A_TO_M: set<char> := {'A', 'B', 'C', 'D', 'E', 'F', 'G', 'H', 'I', 'J', 'K', 'L', 'M'}
  const UPPER_N_TO_Z: set<char> := {'N', 'O', 'P', 'Q', 'R', 'S', 'T', 'U', 'V', 'W', 'X', 'Y', 'Z'}
  const LOWER_A_TO_M: set<char> := {'a', 'b', 'c', 'd', 'e', 'f', 'g', 'h', 'i', 'j', 'k', 'l', 'm'}
  const LOWER_N_TO_Z: set<char> := {'n', 'o', 'p', 'q', 'r', 's', 't', 'u', 'v', 'w', 'x', 'y', 'z'}
  const DIGITS: set<char> := {'0', '1', '2', '3', '4', '5', '6', '7', '8', '9'}

  const LETTERS: set<char> := UPPER_A_TO_M + UPPER_N_TO_Z + LOWER_A_TO_M + LOWER_N_TO_Z + {'_'}

  lemma AlphabetExactly(c: char)
    ensures c in UPPER_A_TO_M <==> 'A' <= c <= 'M'
    ensures c in UPPER_N_TO_Z <==> 'N' <= c <= 'Z'
    ensures c in LOWER_A_TO_M <==> 'a' <= c <= 'm'
    ensures c in LOWER_N_TO_Z <==> 'n' <= c <= 'z'
    ensures c in DIGITS <==> '0' <= c <= '9'
  {
  }

  lemma LetterExactly(c: char)
    ensures c in LETTERS <==> IsAlpha(c) || c == '_'
    ensures c in DIGITS <==> '0' <= c <= '9'
  {
    AlphabetExactly(c);
    hide UPPER_A_TO_M, UPPER_N_TO_Z, LOWER_A_TO_M, LOWER_N_TO_Z, DIGITS;
  }

  /** The characters of a key are these sixty-three; the first is no digit. */
  lemma KeyExactly(k: string)
    ensures IsValidKey(k) <==> k != "" && k[0] in LETTERS && forall i :: 0 <= i < |k| ==> k[i] in LETTERS + DIGITS
  {
    hide LETTERS, DIGITS;
    if k != "" { LetterExactly(k[0]); }
    forall i | 0 <= i < |k|
      ensures k[i] in LETTERS + DIGITS <==> IsNameChar(k[i])
    {
      LetterExactly(k[i]);
    }
  }

  // ---------- lines ----------

  /** Blanks before a line, around its key and behind its value make no difference, and neither does `export `.
      The one exception is the key `export` itself with a blank behind it, which is taken for the prefix. */
  lemma LineBlanks(a: string, b: string, key: string, c: string, rest: string, env: Env)
    requires AllBlank(a) && AllBlank(b) && AllBlank(c) && IsValidKey(key)
    ensures !(key == "export" && c != "" && c[0] == ' ') ==>
      ParseLine(a + (key + c + "=" + rest), env) == ParseLine(key + "=" + rest, env)
    ensures ParseLine(a + ("export " + (b + (key + c) + "=" + rest)), env) == ParseLine(key + "=" + rest, env)
    ensures ParseLine(key + "=" + rest, env) == Some(Entry(key, ValueOf(Trim(rest), env)))
  {
    hide ParseLine, Trim, IsValidKey, ValueOf, IsWhitespace, EXPORT;
    ParseAssignment(key, rest, env);
    KeyFacts(key);
    KeyNonEmpty(key);
    BlankHasNone(b);
    BlankHasNone(c);
    TrimPadded("", key, c);
    Sequences.NothingAdded(key + c);
    TrimPadded(b, key, c);
    if !(key == "export" && c != "" && c[0] == ' ') {
      NotExportBlank(key, c, rest);
      Assigned(a, key + c, key, rest, env);
    }
    Exported(a, b + (key + c), key, rest, env);
  }

  /** `export =...` defines nothing. */
  lemma ExportIsTaken(rest: string, env: Env)
    ensures ParseLine("export =" + rest, env) == None
  {
    var s := "export =" + rest;
    assert s == EXPORT + ("=" + rest);
    StartsAtKey(s);
    assert s[|EXPORT|..] == "=" + rest;
    assert ("=" + rest)[..0] == "";
  }

  lemma BlankHasNone(s: string)
    requires AllBlank(s)
    ensures '=' !in s && '#' !in s
  {
    assert !IsWhitespace('=') && !IsWhitespace('#');
  }

  lemma NotExportBlank(key: string, c: string, rest: string)
    requires IsValidKey(key) && AllBlank(c) && !(key == "export" && c != "" && c[0] == ' ')
    ensures !(EXPORT <= key + c + "=" + rest)
  {
    var s := key + c + "=" + rest;
    KeyFacts(key);
    if |key| < 6 {
      assert s[|key|] == if c == "" then '=' else c[0];
      ExportLetters(|key|);
      DiffersAt(EXPORT, s, |key|);
    } else if |key| > 6 {
      assert s[6] == key[6] && EXPORT[6] == ' ';
      DiffersAt(EXPORT, s, 6);
    } else if i: int :| 0 <= i < 6 && key[i] != EXPORT[i] {
      assert s[i] == key[i];
      DiffersAt(EXPORT, s, i);
    } else {
      assert key == "export";
      assert s[6] == if c == "" then '=' else c[0];
      DiffersAt(EXPORT, s, 6);
    }
  }

  lemma DiffersAt(p: string, s: string, i: nat)
    requires i < |p| && i < |s| && p[i] != s[i]
    ensures !(p <= s)
  {
  }

  lemma ExportLetters(i: nat)
    requires i < 6
    ensures !IsWhitespace(EXPORT[i]) && EXPORT[i] != '='
  {
  }

  /** A line with a given text in front of its first `=`. */
  lemma Assigned(a: string, front: string, key: string, rest: string, env: Env)
    requires AllBlank(a) && '=' !in front && Trim(front) == key && IsValidKey(key)
    requires front != "" && !IsWhitespace(front[0]) && front[0] != '#' && !(EXPORT <= front + "=" + rest)
    ensures ParseLine(a + (front + "=" + rest), env) == Some(Entry(key, ValueOf(Trim(rest), env)))
  {
    hide Trim, TrimStart, IsWhitespace, ValueOf, EXPORT, IsValidKey, Find;
    var s := front + "=" + rest;
    BlankStart(a, s);
    FindAt(front, '=', rest);
    assert front + ['='] + rest == s;
    assert s[..|front|] == front && s[|front| + 1..] == rest;
  }

  lemma Exported(a: string, front: string, key: string, rest: string, env: Env)
    requires AllBlank(a) && '=' !in front && Trim(front) == key && IsValidKey(key)
    ensures ParseLine(a + ("export " + (front + "=" + rest)), env) == Some(Entry(key, ValueOf(Trim(rest), env)))
  {
    hide Trim, TrimStart, IsWhitespace, ValueOf, IsValidKey, Find;
    var s := front + "=" + rest;
    var line := "export " + s;
    LetterIsNotBlank();
    BlankStart(a, line);
    assert line[|EXPORT|..] == s && EXPORT <= line;
    FindAt(front, '=', rest);
    assert front + ['='] + rest == s;
    assert s[..|front|] == front && s[|front| + 1..] == rest;
  }

  lemma LetterIsNotBlank()
    ensures !IsWhitespace('e') && !IsWhitespace('#')
  {
  }

  /** Blank lines, comments, lines without `=` and lines whose key is not one define nothing. */
  lemma SkippedLines(a: string, text: string, front: string, rest: string, env: Env)
    requires AllBlank(a)
    ensures ParseLine(a, env) == None && ParseLine(a + ("#" + text), env) == None
    ensures '=' !in text ==> ParseLine(text, env) == None
    ensures ('=' !in front && (front == "" || !IsWhitespace(front[0])) && !("export " <= front + "=" + rest)
             && !IsValidKey(Trim(front))) ==>
              ParseLine(front + "=" + rest, env) == None
  {
    hide Trim, Find, IsWhitespace, ValueOf, IsValidKey, TrimStart;
    TrimOfBlank(a);
    LetterIsNotBlank();
    BlankStart(a, "#" + text);
    if '=' !in text { NoEquals(text, env); }
    if '=' !in front && (front == "" || !IsWhitespace(front[0])) && !("export " <= front + "=" + rest)
       && !IsValidKey(Trim(front)) {
      BadKey(front, rest, env);
    }
  }

  lemma NoEquals(text: string, env: Env)
    requires '=' !in text
    ensures ParseLine(text, env) == None
  {
    hide Trim, Find, IsWhitespace, ValueOf, IsValidKey, TrimStart;
    TrimStartIsSuffix(text);
    var line := TrimStart(text);
    var body := if EXPORT <= line then line[|EXPORT|..] else line;
    assert forall i :: 0 <= i < |line| ==> line[i] in text;
    assert '=' !in body;
    FindNone(body, '=');
  }

  lemma BadKey(front: string, rest: string, env: Env)
    requires '=' !in front && (front == "" || !IsWhitespace(front[0])) && !(EXPORT <= front + "=" + rest)
    requires !IsValidKey(Trim(front))
    ensures ParseLine(front + "=" + rest, env) == None
  {
    hide Trim, TrimStart, IsWhitespace, ValueOf, EXPORT, IsValidKey, Find;
    var s := front + "=" + rest;
    EqualsIsNotBlank();
    StartsAtKey(s);
    FindAt(front, '=', rest);
    assert front + ['='] + rest == s;
    assert s[..|front|] == front;
  }

  lemma EqualsIsNotBlank()
    ensures !IsWhitespace('=')
  {
  }

  // ---------- values ----------

  /** Matching quotes are taken off a value; only single quotes keep references from being expanded. */
  lemma ValueExactly(v: string, env: Env)
    ensures ValueOf("'" + v + "'", env) == v
    ensures ValueOf("\"" + v + "\"", env) == Expand(v, env)
    ensures !(|v| >= 2 && v[0] == v[|v| - 1] && v[0] in {'\'', '"'}) ==> ValueOf(v, env) == Expand(v, env)
  {
    hide Expand;
    var single, double := "'" + v + "'", "\"" + v + "\"";
    assert single[0] == '\'' && single[|single| - 1] == '\'' && single[1..|single| - 1] == v;
    assert double[0] == '"' && double[|double| - 1] == '"' && double[1..|double| - 1] == v;
  }

  /** `\$` is a dollar, any other backslash is itself, and so is every other character but a dollar. */
  lemma ExpandExactly(c: char, rest: string, env: Env)
    ensures Expand("\\$" + rest, env) == "$" + Expand(rest, env)
    ensures rest == "" || rest[0] != '$' ==> Expand("\\" + rest, env) == "\\" + Expand(rest, env)
    ensures c != '\\' && c != '$' ==> Expand([c] + rest, env) == [c] + Expand(rest, env)
    ensures Expand("", env) == ""
  {
    hide Expand;
    ExpandNothing(env);
    ExpandStep("\\$" + rest, env);
    assert ("\\$" + rest)[2..] == rest;
    ExpandStep("\\" + rest, env);
    assert ("\\" + rest)[1..] == rest;
    ExpandStep([c] + rest, env);
    assert ([c] + rest)[1..] == rest;
  }
}
