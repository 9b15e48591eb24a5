/** Quoting an argument list for a remote POSIX shell, against the shell's own token rules. */
module ShellWords {
  import opened Inventory
  import opened Sequences

  // ----- the shell's side: quoting and token recognition of the Shell Command Language

  /** One character of a word and whether a quotation protects it. */
  datatype Mark = Mark(c: char, quoted: bool)

  type Word = seq<Mark>

  datatype Mode = Bare | Single | Double

  /** The characters that, unquoted, mean something other than themselves. */
  predicate Special(c: char) {
    c in "|&;<>()$`\\\n*?[#~%!{}"
  }

  /** The words of a command line; nothing for a line that needs more of the grammar than plain
      words and quotation, or whose quotation is left open. */
  function Scan(s: string, mode: Mode, word: Option<Word>, before: seq<Word>): Option<seq<Word>>
    decreases |s|
  {
    var begun := if word.Some? then word.value else [];
    if s == "" then
      if mode != Bare then None else Some(if word.Some? then before + [begun] else before)
    else
      match mode
      case Bare =>
        if s[0] == '\'' then Scan(s[1..], Single, Some(begun), before)
        else if s[0] == '"' then Scan(s[1..], Double, Some(begun), before)
        else if s[0] == ' ' || s[0] == '\t' then
          Scan(s[1..], Bare, None, if word.Some? then before + [begun] else before)
        else if Special(s[0]) then None
        else Scan(s[1..], Bare, Some(begun + [Mark(s[0], false)]), before)
      case Single =>
        if s[0] == '\'' then Scan(s[1..], Bare, Some(begun), before)
        else Scan(s[1..], Single, Some(begun + [Mark(s[0], true)]), before)
      case Double =>
        if s[0] == '"' then Scan(s[1..], Bare, Some(begun), before)
        else if s[0] in "$`\\" then None
        else Scan(s[1..], Double, Some(begun + [Mark(s[0], true)]), before)
  }

  function Tokenize(s: string): Option<seq<Word>> {
    Scan(s, Bare, None, [])
  }

  /** A word after quote removal. */
  function Text(word: Word): (s: string)
    ensures |s| == |word| && forall i :: 0 <= i < |word| ==> s[i] == word[i].c
  {
    seq(|word|, i requires 0 <= i < |word| => word[i].c)
  }

  function Texts(words: seq<Word>): (r: seq<string>)
    ensures |r| == |words| && forall i :: 0 <= i < |words| ==> r[i] == Text(words[i])
  {
    seq(|words|, i requires 0 <= i < |words| => Text(words[i]))
  }

  predicate NameByte(c: char, first: bool) {
    'A' <= c <= 'Z' || 'a' <= c <= 'z' || c == '_' || (!first && '0' <= c <= '9')
  }

  predicate ValidName(s: string) {
    s != "" && forall i :: 0 <= i < |s| ==> NameByte(s[i], i == 0)
  }

  /** The shell takes a word as an assignment when an unquoted name and '=' begin it. */
  ghost predicate IsAssignment(word: Word) {
    exists k :: 0 < k < |word| && word[k] == Mark('=', false) && ValidName(Text(word[..k]))
      && forall i :: 0 <= i < k ==> !word[i].quoted
  }

  // ----- the program's side

  /** Every apostrophe closes the quotation, is itself put in double quotes, and opens it again. */
  function Escape(s: string): string {
    if s == "" then "" else (if s[0] == '\'' then "'\"'\"'" else [s[0]]) + Escape(s[1..])
  }

  function ShellQuote(s: string): string {
    if s == "" then "''" else "'" + Escape(s) + "'"
  }

  function Join(parts: seq<string>): string {
    if |parts| == 0 then "" else if |parts| == 1 then parts[0] else parts[0] + " " + Join(parts[1..])
  }

  function Protected(s: string, quoted: bool): (w: Word)
    ensures |w| == |s| && forall i :: 0 <= i < |s| ==> w[i] == Mark(s[i], quoted)
  {
    seq(|s|, i requires 0 <= i < |s| => Mark(s[i], quoted))
  }

  /** Out of single quotes, an apostrophe in double quotes, back into single quotes. */
  lemma ScanApostrophe(tail: string, word: Word, before: seq<Word>)
    ensures Scan("'\"'\"'" + tail, Single, Some(word), before)
         == Scan(tail, Single, Some(word + [Mark('\'', true)]), before)
  {
    var next := word + [Mark('\'', true)];
    var s4 := "'" + tail;
    var s3 := "\"" + s4;
    var s2 := "'" + s3;
    var s1 := "\"" + s2;
    assert "'\"'\"'" + tail == "'" + s1;
    assert ("'" + s1)[1..] == s1 && s1[1..] == s2 && s2[1..] == s3 && s3[1..] == s4 && s4[1..] == tail;
    calc {
      Scan("'" + s1, Single, Some(word), before);
      Scan(s1, Bare, Some(word), before);
      Scan(s2, Double, Some(word), before);
      Scan(s3, Double, Some(next), before);
      Scan(s4, Bare, Some(next), before);
      Scan(tail, Single, Some(next), before);
    }
  }

  lemma {:induction false} ScanEscaped(s: string, rest: string, word: Word, before: seq<Word>)
    ensures Scan(Escape(s) + "'" + rest, Single, Some(word), before)
         == Scan(rest, Bare, Some(word + Protected(s, true)), before)
    decreases |s|
  {
    if s == "" {
      assert Escape(s) + "'" + rest == "'" + rest;
      assert ("'" + rest)[1..] == rest && word + Protected(s, true) == word;
    } else {
      var next := word + [Mark(s[0], true)];
      var tail := Escape(s[1..]) + "'" + rest;
      ScanEscaped(s[1..], rest, next, before);
      assert next + Protected(s[1..], true) == word + Protected(s, true);
      if s[0] == '\'' {
        assert Escape(s) + "'" + rest == "'\"'\"'" + tail;
        ScanApostrophe(tail, word, before);
      } else {
        assert Escape(s) + "'" + rest == [s[0]] + tail;
        assert ([s[0]] + tail)[1..] == tail;
      }
    }
  }

  /** A quoted part adds exactly its own characters, all protected, to the word being read. */
  lemma ScanQuoted(s: string, rest: string, word: Option<Word>, before: seq<Word>)
    ensures Scan(ShellQuote(s) + rest, Bare, word, before)
         == Scan(rest, Bare, Some((if word.Some? then word.value else []) + Protected(s, true)), before)
  {
    var line := ShellQuote(s) + rest;
    assert Escape("") == "";
    assert line == "'" + (Escape(s) + "'" + rest);
    assert line[0] == '\'' && line[1..] == Escape(s) + "'" + rest;
    ScanEscaped(s, rest, if word.Some? then word.value else [], before);
  }

  lemma {:induction false} ScanPlain(s: string, rest: string, word: Word, before: seq<Word>)
    requires forall i :: 0 <= i < |s| ==> NameByte(s[i], false) || s[i] == '='
    ensures Scan(s + rest, Bare, Some(word), before) == Scan(rest, Bare, Some(word + Protected(s, false)), before)
    decreases |s|
  {
    if s == "" {
      assert s + rest == rest && word + Protected(s, false) == word;
    } else {
      assert (s + rest)[0] == s[0] && (s + rest)[1..] == s[1..] + rest;
      assert !Special(s[0]);
      ScanPlain(s[1..], rest, word + [Mark(s[0], false)], before);
      assert word + [Mark(s[0], false)] + Protected(s[1..], false) == word + Protected(s, false);
    }
  }

  // ----- recognising and rendering assignments

  ghost predicate LooksLikeAssignment(s: string) {
    exists k :: 0 < k < |s| && s[k] == '=' && ValidName(s[..k])
  }

  lemma AssignmentAtFirstEquals(s: string)
    ensures LooksLikeAssignment(s) <==> FirstOf(s, '=') > 0 && ValidName(s[..FirstOf(s, '=')])
  {
    if LooksLikeAssignment(s) {
      var k :| 0 < k < |s| && s[k] == '=' && ValidName(s[..k]);
      forall i | 0 <= i < k ensures s[i] != '=' {
        assert NameByte(s[..k][i], i == 0);
      }
      assert FirstOf(s, '=') == k;
    }
  }

  /** Letters, digits and underscores before the first '=', beginning with no digit. */
  lemma AssignmentExactly(s: string)
    ensures LooksLikeAssignment(s) <==>
      && FirstOf(s, '=') > 0 && !('0' <= s[0] <= '9')
      && forall i :: 0 <= i < FirstOf(s, '=') ==>
           'a' <= s[i] <= 'z' || 'A' <= s[i] <= 'Z' || '0' <= s[i] <= '9' || s[i] == '_'
  {
    AssignmentAtFirstEquals(s);
    if FirstOf(s, '=') > 0 {
      var name := s[..FirstOf(s, '=')];
      assert forall i :: 0 <= i < |name| ==> name[i] == s[i];
    }
  }

  method IsEnvAssign(s: string) returns (yes: bool)
    ensures yes <==> LooksLikeAssignment(s)
  {
    AssignmentAtFirstEquals(s);
    var eq := FirstOf(s, '=');
    if eq <= 0 {
      return false;
    }
    var name := s[..eq];
    for i := 0 to |name|
      invariant forall j :: 0 <= j < i ==> NameByte(name[j], j == 0)
    {
      if !NameByte(name[i], i == 0) {
        return false;
      }
    }
    return true;
  }

  function FormatEnvAssign(s: string): string {
    var eq := FirstOf(s, '=');
    if eq <= 0 then ShellQuote(s) else s[..eq] + "=" + ShellQuote(s[eq + 1..])
  }

  /** The word the shell reads from a rendered assignment. */
  function AssignmentWord(s: string): Word {
    var eq := FirstOf(s, '=');
    if eq <= 0 then Protected(s, true) else Protected(s[..eq + 1], false) + Protected(s[eq + 1..], true)
  }

  lemma AssignmentWordReadsBack(s: string)
    requires LooksLikeAssignment(s)
    ensures Text(AssignmentWord(s)) == s && IsAssignment(AssignmentWord(s))
  {
    AssignmentAtFirstEquals(s);
    var eq, word := FirstOf(s, '='), AssignmentWord(s);
    assert Text(word[..eq]) == s[..eq];
    assert word[eq] == Mark('=', false);
  }

  lemma ScanName(name: string, rest: string, before: seq<Word>)
    requires name != "" && forall i :: 0 <= i < |name| ==> NameByte(name[i], false) || name[i] == '='
    ensures Scan(name + rest, Bare, None, before) == Scan(rest, Bare, Some(Protected(name, false)), before)
  {
    var line, word := name + rest, [Mark(name[0], false)];
    assert !Special(name[0]);
    assert line[0] == name[0] && line[1..] == name[1..] + rest;
    assert [] + word == word;
    ScanPlain(name[1..], rest, word, before);
    assert word + Protected(name[1..], false) == Protected(name, false);
  }

  lemma AssignmentName(s: string)
    requires LooksLikeAssignment(s)
    ensures FirstOf(s, '=') > 0
    ensures forall i :: 0 <= i <= FirstOf(s, '=') ==> NameByte(s[i], false) || s[i] == '='
  {
    AssignmentAtFirstEquals(s);
    var name := s[..FirstOf(s, '=')];
    forall i | 0 <= i < |name| ensures NameByte(s[i], false) {
      assert NameByte(name[i], i == 0);
    }
  }

  lemma FormattedParts(s: string, rest: string)
    requires FirstOf(s, '=') > 0
    ensures FormatEnvAssign(s) + rest == s[..FirstOf(s, '=') + 1] + (ShellQuote(s[FirstOf(s, '=') + 1..]) + rest)
  {
    var eq := FirstOf(s, '=');
    TakeOneMore(s, eq);
    Associative(s[..eq + 1], ShellQuote(s[eq + 1..]), rest);
  }

  lemma ScanAssignment(s: string, rest: string, before: seq<Word>)
    requires LooksLikeAssignment(s)
    ensures Scan(FormatEnvAssign(s) + rest, Bare, None, before) == Scan(rest, Bare, Some(AssignmentWord(s)), before)
  {
    AssignmentName(s);
    var eq := FirstOf(s, '=');
    var name, value := s[..eq + 1], s[eq + 1..];
    FormattedParts(s, rest);
    ScanName(name, ShellQuote(value) + rest, before);
    ScanQuoted(value, rest, Some(Protected(name, false)), before);
  }

  lemma QuotedWord(s: string)
    ensures Text(Protected(s, true)) == s && !IsAssignment(Protected(s, true))
  {
  }

  // ----- whole command lines

  /** The word that part `i` becomes when the first `env` parts are assignments. */
  function WordOf(part: string, assigning: bool): Word {
    if assigning then AssignmentWord(part) else Protected(part, true)
  }

  function Render(part: string, assigning: bool): string {
    if assigning then FormatEnvAssign(part) else ShellQuote(part)
  }

  function Rendered(parts: seq<string>, env: nat): (r: seq<string>)
    ensures |r| == |parts| && forall i :: 0 <= i < |parts| ==> r[i] == Render(parts[i], i < env)
  {
    seq(|parts|, i requires 0 <= i < |parts| => Render(parts[i], i < env))
  }

  function WordsOf(parts: seq<string>, env: nat): (r: seq<Word>)
    ensures |r| == |parts| && forall i :: 0 <= i < |parts| ==> r[i] == WordOf(parts[i], i < env)
  {
    seq(|parts|, i requires 0 <= i < |parts| => WordOf(parts[i], i < env))
  }

  lemma ScanPart(part: string, assigning: bool, rest: string, before: seq<Word>)
    requires assigning ==> LooksLikeAssignment(part)
    ensures Scan(Render(part, assigning) + rest, Bare, None, before) == Scan(rest, Bare, Some(WordOf(part, assigning)), before)
  {
    if assigning {
      ScanAssignment(part, rest, before);
    } else {
      ScanQuoted(part, rest, None, before);
      assert [] + Protected(part, true) == Protected(part, true);
    }
  }

  /** How many of the parts after the first are assignments. */
  function Fewer(env: nat): nat {
    if env == 0 then 0 else env - 1
  }

  lemma FirstRendered(parts: seq<string>, env: nat)
    requires parts != []
    ensures Rendered(parts, env) == [Render(parts[0], 0 < env)] + Rendered(parts[1..], Fewer(env))
  {
    var all, rest := Rendered(parts, env), parts[1..];
    var tail := Rendered(rest, Fewer(env));
    forall i | 1 <= i < |parts| ensures all[i] == tail[i - 1] {
      assert rest[i - 1] == parts[i];
    }
  }

  lemma FirstWord(parts: seq<string>, env: nat)
    requires parts != []
    ensures WordsOf(parts, env) == [WordOf(parts[0], 0 < env)] + WordsOf(parts[1..], Fewer(env))
  {
    var all, rest := WordsOf(parts, env), parts[1..];
    var tail := WordsOf(rest, Fewer(env));
    forall i | 1 <= i < |parts| ensures all[i] == tail[i - 1] {
      assert rest[i - 1] == parts[i];
    }
  }

  lemma ScanLast(part: string, assigning: bool, before: seq<Word>)
    requires assigning ==> LooksLikeAssignment(part)
    ensures Scan(Render(part, assigning), Bare, None, before) == Some(before + [WordOf(part, assigning)])
  {
    ScanPart(part, assigning, "", before);
    assert Render(part, assigning) + "" == Render(part, assigning);
  }

  lemma ScanFirst(part: string, assigning: bool, tail: string, before: seq<Word>)
    requires assigning ==> LooksLikeAssignment(part)
    ensures Scan(Render(part, assigning) + (" " + tail), Bare, None, before)
         == Scan(tail, Bare, None, before + [WordOf(part, assigning)])
  {
    ScanPart(part, assigning, " " + tail, before);
    assert (" " + tail)[0] == ' ' && (" " + tail)[1..] == tail;
  }

  lemma {:induction false} ScanLine(parts: seq<string>, env: nat, before: seq<Word>)
    requires forall i :: 0 <= i < |parts| && i < env ==> LooksLikeAssignment(parts[i])
    ensures Scan(Join(Rendered(parts, env)), Bare, None, before) == Some(before + WordsOf(parts, env))
    decreases |parts|
  {
    var shown, words := Rendered(parts, env), WordsOf(parts, env);
    if |parts| == 0 {
      assert before + words == before;
    } else if |parts| == 1 {
      ScanLast(parts[0], 0 < env, before);
      assert shown == [Render(parts[0], 0 < env)] && words == [WordOf(parts[0], 0 < env)];
    } else {
      FirstRendered(parts, env);
      FirstWord(parts, env);
      var fewer := Fewer(env);
      var tail, word := Rendered(parts[1..], fewer), WordOf(parts[0], 0 < env);
      JoinFirst(Render(parts[0], 0 < env), tail);
      ScanFirst(parts[0], 0 < env, Join(tail), before);
      ScanLine(parts[1..], fewer, before + [word]);
      assert before + [word] + WordsOf(parts[1..], fewer) == before + words;
    }
  }

  lemma JoinFirst(first: string, others: seq<string>)
    requires others != []
    ensures Join([first] + others) == first + (" " + Join(others))
  {
    assert ([first] + others)[1..] == others;
    assert first + " " + Join(others) == first + (" " + Join(others));
  }

  /** Parts are joined with single spaces, and nothing else is put between them. */
  lemma {:induction false} JoinExactly(a: seq<string>, b: seq<string>)
    requires a != [] && b != []
    ensures Join(a + b) == Join(a) + (" " + Join(b)) && Join([]) == "" && Join([a[0]]) == a[0]
  {
    assert a + b == [a[0]] + (a[1..] + b);
    JoinFirst(a[0], a[1..] + b);
    if |a| == 1 {
      assert a[1..] + b == b;
    } else {
      JoinExactly(a[1..], b);
      assert a == [a[0]] + a[1..];
      JoinFirst(a[0], a[1..]);
      Associative(a[0], " " + Join(a[1..]), " " + Join(b));
      Associative(" ", Join(a[1..]), " " + Join(b));
    }
  }

  /** The shell gives a part back, and takes it as an assignment exactly when it was rendered as one. */
  lemma WordReadsBack(part: string, assigning: bool)
    requires assigning ==> LooksLikeAssignment(part)
    ensures Text(WordOf(part, assigning)) == part && (IsAssignment(WordOf(part, assigning)) <==> assigning)
  {
    if assigning {
      AssignmentWordReadsBack(part);
    } else {
      QuotedWord(part);
    }
  }

  lemma WordsReadBack(parts: seq<string>, env: nat)
    requires forall i :: 0 <= i < |parts| && i < env ==> LooksLikeAssignment(parts[i])
    ensures Texts(WordsOf(parts, env)) == parts
    ensures forall i :: 0 <= i < |parts| ==> (IsAssignment(WordsOf(parts, env)[i]) <==> i < env)
  {
    forall i | 0 <= i < |parts|
      ensures Text(WordsOf(parts, env)[i]) == parts[i] && (IsAssignment(WordsOf(parts, env)[i]) <==> i < env)
    {
      WordReadsBack(parts[i], i < env);
    }
  }

  /** The shell reads back exactly the argument list, and takes no word as an assignment. */
  lemma ArgvRoundTrip(parts: seq<string>)
    ensures Tokenize(Join(Rendered(parts, 0))).Some?
    ensures Texts(Tokenize(Join(Rendered(parts, 0))).value) == parts
    ensures forall word :: word in Tokenize(Join(Rendered(parts, 0))).value ==> !IsAssignment(word)
  {
    ScanLine(parts, 0, []);
    assert [] + WordsOf(parts, 0) == WordsOf(parts, 0);
    WordsReadBack(parts, 0);
  }

  method JoinRemoteArgv(parts: seq<string>) returns (line: string)
    ensures Tokenize(line).Some? && Texts(Tokenize(line).value) == parts
    ensures forall word :: word in Tokenize(line).value ==> !IsAssignment(word)
  {
    var out: seq<string> := [];
    for i := 0 to |parts|
      invariant |out| == i && forall j :: 0 <= j < i ==> out[j] == ShellQuote(parts[j])
    {
      out := out + [ShellQuote(parts[i])];
    }
    assert out == Rendered(parts, 0);
    ArgvRoundTrip(parts);
    line := Join(out);
  }

  /** Part `i` is in the longest leading run of assignments that leaves a command word. */
  ghost predicate InLeadingRun(parts: seq<string>, i: nat) {
    i < |parts| - 1 && forall j :: 0 <= j <= i ==> LooksLikeAssignment(parts[j])
  }

  lemma CommandRoundTrip(parts: seq<string>, env: nat)
    requires env < |parts| && forall i :: 0 <= i < env ==> LooksLikeAssignment(parts[i])
    requires env == |parts| - 1 || !LooksLikeAssignment(parts[env])
    ensures Tokenize(Join(Rendered(parts, env))) == Some(WordsOf(parts, env))
    ensures Texts(WordsOf(parts, env)) == parts
    ensures forall i :: 0 <= i < |parts| ==> (IsAssignment(WordsOf(parts, env)[i]) <==> InLeadingRun(parts, i))
  {
    ScanLine(parts, env, []);
    assert [] + WordsOf(parts, env) == WordsOf(parts, env);
    WordsReadBack(parts, env);
  }

  /** The length of the longest leading run of assignments that leaves a command word. */
  method LeadingRun(parts: seq<string>) returns (envEnd: nat)
    requires parts != []
    ensures envEnd < |parts| && forall i :: 0 <= i < envEnd ==> LooksLikeAssignment(parts[i])
    ensures envEnd == |parts| - 1 || !LooksLikeAssignment(parts[envEnd])
  {
    envEnd := 0;
    while envEnd < |parts| - 1
      invariant envEnd < |parts| && forall i :: 0 <= i < envEnd ==> LooksLikeAssignment(parts[i])
    {
      var assigning := IsEnvAssign(parts[envEnd]);
      if !assigning {
        return;
      }
      envEnd := envEnd + 1;
    }
  }

  method RenderParts(parts: seq<string>, envEnd: nat) returns (out: seq<string>)
    ensures out == Rendered(parts, envEnd)
  {
    out := [];
    for i := 0 to |parts|
      invariant |out| == i && forall j :: 0 <= j < i ==> out[j] == Render(parts[j], j < envEnd)
    {
      if i < envEnd {
        out := out + [FormatEnvAssign(parts[i])];
        continue;
      }
      out := out + [ShellQuote(parts[i])];
    }
  }

  /** Two or more parts reach the remote program as they are; only a leading run of NAME=value
      parts is left to the shell as assignments, and it never takes the command word. */
  method JoinRemoteCommand(parts: seq<string>, raw: bool) returns (line: string)
    ensures raw || |parts| < 2 ==> line == Join(parts)
    ensures !raw && |parts| >= 2 ==> Tokenize(line).Some? && Texts(Tokenize(line).value) == parts
    ensures !raw && |parts| >= 2 ==>
      forall i :: 0 <= i < |parts| ==> (IsAssignment(Tokenize(line).value[i]) <==> InLeadingRun(parts, i))
  {
    if |parts| == 0 {
      return "";
    }
    if raw || |parts| == 1 {
      return Join(parts);
    }
    var envEnd := LeadingRun(parts);
    var out := RenderParts(parts, envEnd);
    CommandRoundTrip(parts, envEnd);
    line := Join(out);
  }
}
