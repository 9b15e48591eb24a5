/** Where a structured value ends: braces and brackets that nest outside quoted strings. */
module Brackets {
  import opened Inventory

  predicate Open(c: char) { c == '{' || c == '[' }

  predicate Close(c: char) { c == '}' || c == ']' }

  predicate Pair(open: char, close: char) {
    (open == '{' && close == '}') || (open == '[' && close == ']')
  }

  // ----- the meaning: what is outside strings cancels pair by pair

  /** The braces and brackets outside strings, the quote left open, and whether a backslash is pending in it. */
  datatype Lexed = Lexed(word: string, quote: Option<char>, escaped: bool)

  function Read(before: Lexed, c: char): Lexed {
    if before.quote.Some? then
      if before.escaped then before.(escaped := false)
      else if c == '\\' then before.(escaped := true)
      else if c == before.quote.value then before.(quote := None)
      else before
    else if c == '"' || c == '\'' then before.(quote := Some(c))
    else if Open(c) || Close(c) then before.(word := before.word + [c])
    else before
  }

  function Lex(s: string): (r: Lexed)
    ensures r.quote.None? ==> !r.escaped
    ensures forall i :: 0 <= i < |r.word| ==> Open(r.word[i]) || Close(r.word[i])
  {
    if s == "" then Lexed("", None, false) else Read(Lex(s[..|s| - 1]), s[|s| - 1])
  }

  /** Removing adjacent pairs, in some order, leaves nothing. */
  ghost predicate Nests(word: string)
    decreases |word|
  {
    word == "" || exists i :: 0 <= i < |word| - 1 && Pair(word[i], word[i + 1]) && Nests(word[..i] + word[i + 2..])
  }

  ghost predicate Complete(s: string) {
    s != "" && Lex(s).quote.None? && Nests(Lex(s).word)
  }

  // ----- the stack of open brackets decides it

  /** The open brackets after a word; nothing once one is closed by the wrong kind or without being open. */
  function Stack(word: string): Option<string> {
    if word == "" then Some("")
    else
      var before, c := Stack(word[..|word| - 1]), word[|word| - 1];
      if before.None? then None
      else if Open(c) then Some(before.value + [c])
      else if before.value != "" && Pair(before.value[|before.value| - 1], c) then
        Some(before.value[..|before.value| - 1])
      else None
  }

  lemma PairOnTop(a: string, open: char, close: char)
    requires Pair(open, close)
    ensures Stack(a + [open, close]) == Stack(a)
  {
    var longer, both := a + [open], a + [open, close];
    assert longer[..|a|] == a && longer[|a|] == open;
    assert both[..|a| + 1] == longer && both[|a| + 1] == close;
    if Stack(a).Some? {
      assert (Stack(a).value + [open])[..|Stack(a).value|] == Stack(a).value;
    }
  }

  lemma StackNext(word: string, more: string, c: char)
    requires Stack(word) == Stack(more)
    ensures Stack(word + [c]) == Stack(more + [c])
  {
    assert (word + [c])[..|word|] == word && (more + [c])[..|more|] == more;
  }

  lemma {:induction false} StackSkipsPair(a: string, open: char, close: char, b: string)
    requires Pair(open, close)
    ensures Stack(a + [open, close] + b) == Stack(a + b)
    decreases |b|
  {
    if b == "" {
      PairOnTop(a, open, close);
      assert a + [open, close] + b == a + [open, close] && a + b == a;
    } else {
      var init, last := b[..|b| - 1], b[|b| - 1];
      StackSkipsPair(a, open, close, init);
      StackNext(a + [open, close] + init, a + init, last);
      assert a + [open, close] + init + [last] == a + [open, close] + b && a + init + [last] == a + b;
    }
  }

  lemma {:induction false} StackOfOpens(word: string)
    requires forall i :: 0 <= i < |word| ==> Open(word[i])
    ensures Stack(word) == Some(word)
  {
    if word != "" {
      StackOfOpens(word[..|word| - 1]);
      assert word == word[..|word| - 1] + [word[|word| - 1]];
    }
  }

  /** A wrong bracket cannot be repaired by what follows. */
  lemma {:induction false} StackOfPrefix(word: string, n: nat)
    requires n <= |word| && Stack(word).Some?
    ensures Stack(word[..n]).Some?
  {
    if n == |word| {
      assert word[..n] == word;
    } else {
      StackOfPrefix(word[..|word| - 1], n);
      assert word[..|word| - 1][..n] == word[..n];
    }
  }

  /** The first bracket that does not open. */
  function FirstNotOpen(word: string): (j: nat)
    ensures j <= |word| && (j < |word| ==> !Open(word[j]))
    ensures forall i :: 0 <= i < j ==> Open(word[i])
  {
    if word == "" || !Open(word[0]) then 0
    else
      var j := FirstNotOpen(word[1..]);
      assert forall i :: 0 < i < |word| ==> word[i] == word[1..][i - 1];
      1 + j
  }

  lemma StackAfterClose(opens: string, c: char, longer: string)
    requires longer == opens + [c] && !Open(c) && Stack(longer).Some?
    requires forall i :: 0 <= i < |opens| ==> Open(opens[i])
    ensures opens != "" && Pair(opens[|opens| - 1], c)
  {
    StackOfOpens(opens);
    assert longer[..|longer| - 1] == opens;
  }

  lemma SomethingCloses(word: string)
    requires word != "" && Stack(word) == Some("")
    ensures FirstNotOpen(word) < |word|
  {
    if FirstNotOpen(word) == |word| {
      StackOfOpens(word);
      assert false;
    }
  }

  lemma FirstClose(word: string, j: nat, opens: string, longer: string)
    requires Stack(word).Some? && j < |word| && !Open(word[j]) && opens == word[..j] && longer == word[..j + 1]
    requires forall i :: 0 <= i < |opens| ==> Open(opens[i])
    ensures 1 <= j && Pair(word[j - 1], word[j])
  {
    StackOfPrefix(word, j + 1);
    assert longer == opens + [word[j]];
    StackAfterClose(opens, word[j], longer);
  }

  lemma {:induction false} NestsExactly(word: string)
    requires forall i :: 0 <= i < |word| ==> Open(word[i]) || Close(word[i])
    ensures Nests(word) <==> Stack(word) == Some("")
    decreases |word|
  {
    if word != "" {
      forall i | 0 <= i < |word| - 1 && Pair(word[i], word[i + 1])
        ensures Nests(word[..i] + word[i + 2..]) <==> Stack(word) == Some("")
      {
        NestsExactly(word[..i] + word[i + 2..]);
        StackSkipsPair(word[..i], word[i], word[i + 1], word[i + 2..]);
        assert word == word[..i] + [word[i], word[i + 1]] + word[i + 2..];
      }
      if Stack(word) == Some("") {
        var j := FirstNotOpen(word);
        SomethingCloses(word);
        FirstClose(word, j, word[..j], word[..j + 1]);
        assert Pair(word[j - 1], word[j - 1 + 1]);
        assert Nests(word[..j - 1] + word[j - 1 + 2..]);
      }
    }
  }

  // ----- what nests, character by character

  predicate AllBrackets(word: string) {
    forall i :: 0 <= i < |word| ==> Open(word[i]) || Close(word[i])
  }

  lemma BracketsAround(word: string, i: nat, rest: string)
    requires i + 1 < |word| && Pair(word[i], word[i + 1]) && rest == word[..i] + word[i + 2..] && AllBrackets(rest)
    ensures AllBrackets(word)
  {
    forall k | 0 <= k < |word| ensures Open(word[k]) || Close(word[k]) {
      assert k < i ==> word[k] == rest[k];
      assert k > i + 1 ==> word[k] == rest[k - 2];
    }
  }

  lemma {:induction false} NestsAreBrackets(word: string)
    requires Nests(word)
    ensures AllBrackets(word)
    decreases |word|
  {
    if word != "" {
      var i :| 0 <= i < |word| - 1 && Pair(word[i], word[i + 1]) && Nests(word[..i] + word[i + 2..]);
      var rest := word[..i] + word[i + 2..];
      NestsAreBrackets(rest);
      BracketsAround(word, i, rest);
    }
  }

  lemma NestsByStack(word: string)
    ensures Nests(word) <==> AllBrackets(word) && Stack(word) == Some("")
  {
    if AllBrackets(word) { NestsExactly(word); }
    if Nests(word) { NestsAreBrackets(word); }
  }

  /** What is behind a word that cancels is read as if it stood alone. */
  lemma {:induction false} StackAfterNothing(a: string, b: string)
    requires Stack(a) == Some("")
    ensures Stack(a + b) == Stack(b)
    decreases |b|
  {
    if b == "" {
      assert a + b == a;
    } else {
      var init, last := b[..|b| - 1], b[|b| - 1];
      StackAfterNothing(a, init);
      StackNext(a + init, init, last);
      assert a + init + [last] == a + b && init + [last] == b;
    }
  }

  /** Behind an open bracket a word leaves that bracket below its own. */
  lemma {:induction false} StackAbove(open: char, u: string)
    requires Open(open) && Stack(u).Some?
    ensures Stack([open] + u) == Some([open] + Stack(u).value)
    decreases |u|
  {
    var whole := [open] + u;
    if u == "" {
      assert whole == [open] && [open][..0] == "" && [open] + "" == "" + [open] == [open];
    } else {
      var init := u[..|u| - 1];
      StackAbove(open, init);
      assert whole[..|whole| - 1] == [open] + init && whole[|whole| - 1] == u[|u| - 1];
      AboveNext(open, Stack(init).value, u[|u| - 1]);
    }
  }

  /** One more character above the bracket. */
  lemma AboveNext(open: char, stack: string, c: char)
    ensures [open] + (stack + [c]) == [open] + stack + [c]
    ensures stack != "" ==> ([open] + stack)[|stack|] == stack[|stack| - 1]
    ensures stack != "" ==> ([open] + stack)[..|stack|] == [open] + stack[..|stack| - 1]
  {
  }

  /** A nesting word in a bracket and its counterpart, and a nesting word behind it. */
  ghost predicate Wrapped(word: string, open: char, close: char) {
    exists u, w :: word == [open] + u + [close] + w && Nests(u) && Nests(w)
  }

  lemma WrappedStack(u: string, w: string, open: char, close: char)
    requires Open(open) && Close(close) && Stack(u) == Some("")
    ensures Stack([open] + u + [close] + w) == if Pair(open, close) then Stack(w) else None
  {
    var front, part := [open] + u, [open] + u + [close];
    StackAbove(open, u);
    assert [open] + "" == [open];
    assert part[..|part| - 1] == front && part[|part| - 1] == close;
    assert [open][..0] == "";
    if Pair(open, close) {
      StackAfterNothing(part, w);
    } else if Stack(part + w).Some? {
      StackOfPrefix(part + w, |part|);
      PrefixIs(part, w);
      assert false;
    }
  }

  lemma PrefixIs(a: string, b: string)
    ensures (a + b)[..|a|] == a
  {
  }

  lemma WrappedNests(word: string, open: char, close: char)
    requires Pair(open, close) && Wrapped(word, open, close)
    ensures Nests(word)
  {
    var u, w :| word == [open] + u + [close] + w && Nests(u) && Nests(w);
    NestsByStack(u);
    NestsByStack(w);
    WrappedStack(u, w, open, close);
    NestsByStack(word);
  }

  /** Up to the first place at which everything is closed, the first bracket stays below. */
  lemma {:induction false} FirstStaysBelow(word: string, k: nat)
    requires 1 <= k <= |word| && Stack(word[..k]).Some?
    requires forall j :: 1 <= j <= k ==> Stack(word[..j]) != Some("")
    ensures Open(word[0]) && Stack(word[1..k]).Some? && Stack(word[..k]).value == [word[0]] + Stack(word[1..k]).value
    decreases k
  {
    var part := word[..k];
    if k == 1 {
      assert part[..0] == "" && word[1..1] == "";
    } else {
      StackOfPrefix(part, k - 1);
      assert part[..k - 1] == word[..k - 1];
      FirstStaysBelow(word, k - 1);
      var inner := word[1..k];
      assert inner[..|inner| - 1] == word[1..k - 1] && inner[|inner| - 1] == word[k - 1];
      AboveNext(word[0], Stack(word[1..k - 1]).value, word[k - 1]);
    }
  }

  /** The first place at which everything is closed. */
  lemma {:induction false} FirstClosed(word: string, n: nat) returns (i: nat)
    requires 1 <= n <= |word| && Stack(word[..n]) == Some("")
    ensures 1 <= i <= n && Stack(word[..i]) == Some("") && forall j :: 1 <= j < i ==> Stack(word[..j]) != Some("")
    decreases n
  {
    if m :| 1 <= m < n && Stack(word[..m]) == Some("") {
      i := FirstClosed(word, m);
    } else {
      i := n;
    }
  }

  lemma NotClosedAtOnce(c: char)
    ensures Stack([c]) != Some("")
  {
    assert [c][..0] == "";
  }

  lemma ClosedAt(word: string, i: nat, u: string, w: string)
    requires 1 <= i <= |word| && Stack(word[..i]) == Some("") && Stack(word) == Some("")
    requires forall j :: 1 <= j < i ==> Stack(word[..j]) != Some("")
    requires u == word[1..if i > 1 then i - 1 else 1] && w == word[i..]
    ensures i > 1 && Pair(word[0], word[i - 1]) && Stack(u) == Some("") && Stack(w) == Some("")
  {
    var part := word[..i];
    NotClosedAtOnce(word[0]);
    assert word[..1] == [word[0]];
    StackOfPrefix(part, i - 1);
    assert part[..i - 1] == word[..i - 1];
    FirstStaysBelow(word, i - 1);
    assert word == part + w;
    StackAfterNothing(part, w);
  }

  /** A word nests exactly if it is empty, or begins with a nesting word in braces or in square brackets
      behind which a nesting word follows. */
  lemma NestsLiterally(word: string)
    ensures Nests(word) <==> word == "" || Wrapped(word, '{', '}') || Wrapped(word, '[', ']')
  {
    if Wrapped(word, '{', '}') { WrappedNests(word, '{', '}'); }
    if Wrapped(word, '[', ']') { WrappedNests(word, '[', ']'); }
    NestsByStack(word);
    if Nests(word) && word != "" { NestsIsWrapped(word); }
  }

  lemma NestsIsWrapped(word: string)
    requires AllBrackets(word) && Stack(word) == Some("") && word != ""
    ensures Wrapped(word, '{', '}') || Wrapped(word, '[', ']')
  {
    assert word[..|word|] == word;
    var i := FirstClosed(word, |word|);
    var u, w := word[1..if i > 1 then i - 1 else 1], word[i..];
    ClosedAt(word, i, u, w);
    PartsOf(word, i, u, w);
    PartsNest(word, u, w, word[0], word[i - 1]);
  }

  lemma PartsOf(word: string, i: nat, u: string, w: string)
    requires 1 < i <= |word| && u == word[1..i - 1] && w == word[i..] && AllBrackets(word)
    ensures word == [word[0]] + u + [word[i - 1]] + w && AllBrackets(u) && AllBrackets(w)
  {
  }

  lemma PartsNest(word: string, u: string, w: string, open: char, close: char)
    requires word == [open] + u + [close] + w && Pair(open, close)
    requires AllBrackets(u) && Stack(u) == Some("") && AllBrackets(w) && Stack(w) == Some("")
    ensures Wrapped(word, '{', '}') || Wrapped(word, '[', ']')
  {
    NestsByStack(u);
    NestsByStack(w);
    assert Wrapped(word, open, close);
  }

  /** Brackets of different kinds never match, whatever follows. */
  lemma WrongKindNeverNests(u: string, w: string)
    requires Nests(u)
    ensures !Nests("[" + u + "}" + w) && !Nests("{" + u + "]" + w)
  {
    NestsByStack(u);
    WrappedStack(u, w, '[', '}');
    WrappedStack(u, w, '{', ']');
    NestsByStack("[" + u + "}" + w);
    NestsByStack("{" + u + "]" + w);
  }

  // ----- what is read

  /** Characters of a quoted string: none closes it, and a backslash takes the next one with it. */
  predicate Quotable(quote: char, body: string) {
    body == "" || (if body[0] == '\\' then |body| > 1 && Quotable(quote, body[2..])
                   else body[0] != quote && Quotable(quote, body[1..]))
  }

  lemma {:induction false} ReadQuoted(a: string, quote: char, body: string)
    requires Lex(a).quote == Some(quote) && !Lex(a).escaped && quote != '\\' && Quotable(quote, body)
    ensures Lex(a + body) == Lex(a)
    decreases |body|
  {
    if body == "" {
      assert a + body == a;
    } else if body[0] == '\\' {
      var one, two := a + [body[0]], a + [body[0]] + [body[1]];
      assert one[..|a|] == a && two[..|one|] == one;
      ReadQuoted(two, quote, body[2..]);
      assert two + body[2..] == a + body;
    } else {
      var one := a + [body[0]];
      assert one[..|a|] == a;
      ReadQuoted(one, quote, body[1..]);
      assert one + body[1..] == a + body;
    }
  }

  /** A string in single or double quotes counts for nothing, whatever brackets, quotes of the other kind and
      escaped quotes it holds. */
  lemma StringIsSkipped(a: string, quote: char, body: string)
    requires Lex(a).quote.None? && quote in {'"', '\''} && Quotable(quote, body)
    ensures Lex(a + [quote] + body + [quote]) == Lex(a)
  {
    var one := a + [quote];
    assert one[..|a|] == a;
    ReadQuoted(one, quote, body);
    assert (one + body + [quote])[..|one + body|] == one + body;
  }

  /** Outside strings the four brackets are read, and nothing else but the quotes. */
  lemma ReadLiterally(a: string, c: char)
    requires Lex(a).quote.None?
    ensures c in {'{', '}', '[', ']'} ==> Lex(a + [c]) == Lexed(Lex(a).word + [c], None, false)
    ensures c !in {'{', '}', '[', ']', '"', '\''} ==> Lex(a + [c]) == Lex(a)
  {
    assert (a + [c])[..|a|] == a;
  }

  // ----- the scan

  lemma {:induction false} WordOfPrefix(s: string, n: nat)
    requires n <= |s|
    ensures Lex(s[..n]).word <= Lex(s).word
  {
    if n == |s| {
      assert s[..n] == s;
    } else {
      WordOfPrefix(s[..|s| - 1], n);
      assert s[..|s| - 1][..n] == s[..n];
    }
  }

  lemma WrongWordIsFinal(word: string, prefix: string)
    requires prefix <= word && Stack(prefix).None?
    requires forall i :: 0 <= i < |word| ==> Open(word[i]) || Close(word[i])
    ensures !Nests(word)
  {
    NestsExactly(word);
    assert word[..|prefix|] == prefix;
    if Stack(word).Some? {
      StackOfPrefix(word, |prefix|);
    }
  }

  lemma WrongBracketIsFinal(value: string, start: nat, i: nat, e: nat)
    requires start <= i <= e <= |value| && Stack(Lex(value[start..i]).word).None?
    ensures !Complete(value[start..e])
  {
    var whole, part := value[start..e], value[start..i];
    assert whole[..i - start] == part;
    WordOfPrefix(whole, i - start);
    WrongWordIsFinal(Lex(whole).word, Lex(part).word);
  }

  /** What one character outside strings does to the open brackets. */
  lemma ReadOutside(part: string, c: char, longer: string, stack: string)
    requires longer == part + [c] && Lex(part).quote.None? && Stack(Lex(part).word) == Some(stack) && stack != ""
    ensures Open(c) ==> Stack(Lex(longer).word) == Some(stack + [c])
    ensures Close(c) && Pair(stack[|stack| - 1], c) ==> Stack(Lex(longer).word) == Some(stack[..|stack| - 1])
    ensures Close(c) && !Pair(stack[|stack| - 1], c) ==> Stack(Lex(longer).word).None?
    ensures !Open(c) && !Close(c) ==> Lex(longer).word == Lex(part).word
    ensures Lex(longer).quote == (if c == '"' || c == '\'' then Some(c) else None)
  {
    var word, more := Lex(part).word, Lex(part).word + [c];
    assert longer[..|longer| - 1] == part && longer[|longer| - 1] == c;
    assert more[..|more| - 1] == word;
  }

  lemma ReadInside(part: string, c: char, longer: string)
    requires longer == part + [c] && Lex(part).quote.Some?
    ensures Lex(longer) == Read(Lex(part), c) && Lex(longer).word == Lex(part).word
  {
    assert longer[..|longer| - 1] == part;
  }

  lemma CompleteExactly(s: string)
    ensures Complete(s) <==> s != "" && Lex(s).quote.None? && Stack(Lex(s).word) == Some("")
  {
    NestsExactly(Lex(s).word);
  }

  /** The state of the scan before character `i`. */
  ghost predicate Scanned(value: string, start: nat, i: nat, stack: string, inString: Option<char>, escaped: bool)
    requires start < i <= |value|
  {
    && stack != "" && Stack(Lex(value[start..i]).word) == Some(stack)
    && Lex(value[start..i]).quote == inString && Lex(value[start..i]).escaped == escaped
  }

  lemma StillOpen(value: string, start: nat, i: nat, stack: string, inString: Option<char>, escaped: bool)
    requires start < i <= |value| && Scanned(value, start, i, stack, inString, escaped)
    ensures !Complete(value[start..i])
  {
    CompleteExactly(value[start..i]);
  }

  /** The scan of one character inside a string. */
  lemma StepInside(value: string, start: nat, i: nat, stack: string, quote: char, escaped: bool)
    requires start < i < |value| && Scanned(value, start, i, stack, Some(quote), escaped)
    ensures Scanned(value, start, i + 1, stack, if !escaped && value[i] == quote && value[i] != '\\' then None else Some(quote),
                    !escaped && value[i] == '\\')
  {
    assert value[start..i + 1] == value[start..i] + [value[i]];
    ReadInside(value[start..i], value[i], value[start..i + 1]);
  }

  /** The scan of one character outside strings. */
  lemma StepOutside(value: string, start: nat, i: nat, stack: string)
    requires start < i < |value| && Scanned(value, start, i, stack, None, false)
    ensures var c, top := value[i], stack[|stack| - 1];
      if c == '"' || c == '\'' then Scanned(value, start, i + 1, stack, Some(c), false)
      else if Open(c) then Scanned(value, start, i + 1, stack + [c], None, false)
      else if !Close(c) then Scanned(value, start, i + 1, stack, None, false)
      else if !Pair(top, c) then Stack(Lex(value[start..i + 1]).word).None?
      else if |stack| == 1 then Complete(value[start..i + 1])
      else Scanned(value, start, i + 1, stack[..|stack| - 1], None, false)
  {
    var longer := value[start..i + 1];
    assert longer == value[start..i] + [value[i]];
    ReadOutside(value[start..i], value[i], longer, stack);
    CompleteExactly(longer);
  }

  lemma FirstScanned(value: string, start: nat)
    requires start < |value| && Open(value[start])
    ensures Scanned(value, start, start + 1, [value[start]], None, false)
  {
    var first := [value[start]];
    assert value[start..start + 1] == first && first[..0] == "";
    assert Lex(first).word == first;
  }

  /** No value from `start` is complete at or before `n`. */
  ghost predicate NoneComplete(value: string, start: nat, n: nat)
    requires n <= |value|
  {
    forall e :: start < e <= n ==> !Complete(value[start..e])
  }

  /** The end of the shortest complete value from `start`. */
  ghost function ValueEnd(value: string, start: nat): (end: Option<nat>)
    requires start < |value|
    ensures end.Some? ==> start < end.value <= |value| && Complete(value[start..end.value])
    ensures end.Some? ==> NoneComplete(value, start, end.value - 1)
    ensures end.None? ==> NoneComplete(value, start, |value|)
  {
    ShortestFrom(value, start, start + 1)
  }

  ghost function ShortestFrom(value: string, start: nat, e: nat): (end: Option<nat>)
    requires start < e <= |value| + 1 && NoneComplete(value, start, e - 1)
    ensures end.Some? ==> start < end.value <= |value| && Complete(value[start..end.value])
    ensures end.Some? ==> NoneComplete(value, start, end.value - 1)
    ensures end.None? ==> NoneComplete(value, start, |value|)
    decreases |value| - e
  {
    if e > |value| then None
    else if Complete(value[start..e]) then Some(e)
    else ShortestFrom(value, start, e + 1)
  }

  lemma ValueEndIs(value: string, start: nat, end: nat, ok: bool)
    requires start < |value|
    requires ok ==> start < end <= |value| && Complete(value[start..end]) && NoneComplete(value, start, end - 1)
    requires !ok ==> NoneComplete(value, start, |value|)
    ensures ValueEnd(value, start) == if ok then Some(end) else None
  {
  }

  lemma NoneCompleteNext(value: string, start: nat, i: nat, stack: string, inString: Option<char>, escaped: bool)
    requires start < i <= |value| && Scanned(value, start, i, stack, inString, escaped) && NoneComplete(value, start, i - 1)
    ensures NoneComplete(value, start, i)
  {
    StillOpen(value, start, i, stack, inString, escaped);
  }

  lemma WrongBracketEndsAll(value: string, start: nat, i: nat)
    requires start < i <= |value| && Stack(Lex(value[start..i]).word).None? && NoneComplete(value, start, i - 1)
    ensures NoneComplete(value, start, |value|)
  {
    forall e | i <= e <= |value| ensures !Complete(value[start..e]) {
      WrongBracketIsFinal(value, start, i, e);
    }
  }

  /** The end of the shortest complete value from `start`, exactly when there is one. */
  method StructuredValueEnd(value: string, start: nat) returns (end: nat, ok: bool)
    requires start < |value| && Open(value[start])
    ensures ok ==> start < end <= |value| && Complete(value[start..end])
    ensures ok ==> NoneComplete(value, start, end - 1)
    ensures !ok ==> NoneComplete(value, start, |value|)
  {
    var stack := [value[start]];
    var inString: Option<char> := None;
    var escaped := false;
    var i := start + 1;
    FirstScanned(value, start);
    NoneCompleteNext(value, start, i, stack, inString, escaped);
    while i < |value|
      invariant start < i <= |value| && Scanned(value, start, i, stack, inString, escaped)
      invariant inString.None? ==> !escaped
      invariant NoneComplete(value, start, i)
    {
      var current := value[i];
      if inString.Some? {
        StepInside(value, start, i, stack, inString.value, escaped);
        if escaped {
          escaped := false;
        } else if current == '\\' {
          escaped := true;
        } else if current == inString.value {
          inString := None;
        }
      } else {
        StepOutside(value, start, i, stack);
        if current == '"' || current == '\'' {
          inString := Some(current);
        } else if Open(current) {
          stack := stack + [current];
        } else if Close(current) {
          if !Pair(stack[|stack| - 1], current) {
            WrongBracketEndsAll(value, start, i + 1);
            return 0, false;
          }
          stack := stack[..|stack| - 1];
          if |stack| == 0 {
            return i + 1, true;
          }
        }
      }
      i := i + 1;
      NoneCompleteNext(value, start, i, stack, inString, escaped);
    }
    return 0, false;
  }
}
