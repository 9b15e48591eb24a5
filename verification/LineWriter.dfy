/** The line-oriented redacting writer: what it writes does not depend on how the input was cut. */
module LineWriters {
  import opened Inventory
  import opened Sequences
  import opened StructuredValues
  import opened Utf8
  import opened UpperCase

  const STREAMING_LINE_LIMIT := 65536

  /** What the writer applies: the pattern that announces a sensitive structured value, the redaction
      of other text, and the upper case of code points outside ASCII.
   */
  datatype Policy = Policy(pattern: Pattern, known: string -> string, cases: int -> int)

  // ----- one line

  /** What the lines so far have left behind; `failed` once a slice was out of range. */
  datatype State = State(output: string, structured: string, inPrivateBlock: bool, failed: bool)

  function Find(s: string, sub: string): (r: int)
    ensures -1 <= r && (r >= 0 ==> r + |sub| <= |s| && sub <= s[r..])
  {
    if sub <= s then 0
    else if s == "" then -1
    else
      var r := Find(s[1..], sub);
      assert r >= 0 ==> s[1..][r..] == s[r + 1..];
      if r < 0 then -1 else r + 1
  }

  function PrivateKeyEnd(upper: string): (r: int)
    ensures -1 <= r <= |upper|
  {
    var start := Find(upper, "-----END ");
    if start < 0 then -1
    else
      var marker := Find(upper[start..], "PRIVATE KEY-----");
      if marker < 0 then -1 else start + marker + 16
  }

  /** The text with its completed sensitive values replaced. */
  ghost function Safe(p: Policy, text: string): string {
    CutsAreExact(text, p.pattern(text));
    WithCuts(text, Cuts(text, p.pattern(text)))
  }

  /** A sensitive value is announced or begun and not completed. */
  ghost predicate Unfinished(p: Policy, text: string) {
    Incomplete(text, p.pattern(text))
  }

  function FlushedStructured(p: Policy, st: State): State {
    var matches := p.pattern(st.structured);
    if st.failed || st.structured == "" then st
    else if matches == [] then st.(structured := "")
    else
      assert InOrder(st.structured, matches);
      var shown := p.known(st.structured[..matches[0].to]) + "<redacted>";
      st.(output := st.output + shown, structured := "")
  }

  ghost function AfterStructured(p: Policy, streaming: bool, st: State, value: string): State {
    var safe := Safe(p, value);
    if safe == value then st.(structured := value)
    else if Unfinished(p, safe) then
      var kept := st.(structured := safe);
      if streaming && |safe| > STREAMING_LINE_LIMIT then FlushedStructured(p, kept) else kept
    else st.(structured := "", output := st.output + p.known(safe))
  }

  /** A line outside structured values; both slices of the line are taken where the marker stands in its
      upper-cased form.
   */
  function AfterPlain(p: Policy, st: State, line: string, upper: string): State {
    var begin, end := Find(upper, "-----BEGIN "), PrivateKeyEnd(upper);
    if st.inPrivateBlock then
      if end < 0 then st
      else if end > |line| then st.(inPrivateBlock := false, failed := true)
      else st.(inPrivateBlock := false, output := st.output + p.known(line[end..]))
    else if begin < 0 || Find(upper[begin..], "PRIVATE KEY-----") < 0 || PrivateKeyEnd(upper[begin..]) >= 0 then
      st.(output := st.output + p.known(line))
    else if begin > |line| then st.(failed := true)
    else st.(output := st.output + (p.known(line[..begin]) + "<redacted-private-key>"), inPrivateBlock := true)
  }

  ghost function AfterLine(p: Policy, streaming: bool, st: State, line: string): State {
    if st.failed then st
    else if st.structured != "" then AfterStructured(p, streaming, st, st.structured + line)
    else if Unfinished(p, line) then st.(structured := line)
    else AfterPlain(p, st, line, Upper(p.cases, line))
  }

  lemma SafeExactly(p: Policy, text: string)
    ensures Safe(p, text) == text <==> NoValue(text, p.pattern(text))
  {
    UnchangedExactly(text, p.pattern(text));
  }

  /** Outside blocks and values, a line that neither opens a block nor begins a value is written as a whole. */
  lemma PlainLineExactly(p: Policy, streaming: bool, st: State, line: string)
    requires !st.failed && st.structured == "" && !st.inPrivateBlock && !Unfinished(p, line)
    ensures var upper := Upper(p.cases, line);
      var begin := Find(upper, "-----BEGIN ");
      (begin < 0 || Find(upper[begin..], "PRIVATE KEY-----") < 0 || PrivateKeyEnd(upper[begin..]) >= 0) ==>
        AfterLine(p, streaming, st, line) == st.(output := st.output + p.known(line))
  {
  }

  /** With a value held, a line never opens or closes a block. The held text stays held as long as no value in
      it is completed; then its completed values are replaced, and it is written unless another one is begun.
      What is left over the streaming limit is written up to the first match. */
  lemma HeldLineExactly(p: Policy, streaming: bool, st: State, line: string)
    requires !st.failed && st.structured != ""
    ensures var now, text := AfterLine(p, streaming, st, line), st.structured + line;
      var safe := Safe(p, text);
      && now.inPrivateBlock == st.inPrivateBlock && !now.failed
      && (NoValue(text, p.pattern(text)) ==> now == st.(structured := text))
      && (!NoValue(text, p.pattern(text)) && !Unfinished(p, safe) ==>
            now == st.(structured := "", output := st.output + p.known(safe)))
      && (!NoValue(text, p.pattern(text)) && Unfinished(p, safe) ==>
            now == if streaming && |safe| > STREAMING_LINE_LIMIT then
                     st.(structured := "", output := st.output + (p.known(safe[..p.pattern(safe)[0].to]) + "<redacted>"))
                   else st.(structured := safe))
  {
    var text := st.structured + line;
    SafeExactly(p, text);
    if Unfinished(p, Safe(p, text)) {
      UnfinishedHasMatch(p, Safe(p, text));
      FlushedExactly(p, st.(structured := Safe(p, text)));
    }
  }

  lemma FlushedExactly(p: Policy, st: State)
    requires !st.failed && st.structured != "" && p.pattern(st.structured) != []
    requires p.pattern(st.structured)[0].to <= |st.structured|
    ensures FlushedStructured(p, st)
         == st.(structured := "", output := st.output + (p.known(st.structured[..p.pattern(st.structured)[0].to]) + "<redacted>"))
  {
  }

  lemma UnfinishedHasMatch(p: Policy, text: string)
    requires Unfinished(p, text)
    ensures p.pattern(text) != [] && p.pattern(text)[0].to <= |text|
  {
    assert InOrder(text, p.pattern(text));
  }

  // ----- the whole input

  // ----- the whole input

  function Breaks(streaming: bool): set<char> {
    if streaming then {'\n', '\r'} else {'\n'}
  }

  /** The first line break, or -1. */
  function LineEnd(s: string, breaks: set<char>): (r: int)
    ensures -1 <= r < |s|
    ensures r >= 0 ==> s[r] in breaks
    ensures forall i :: 0 <= i < |s| && (r < 0 || i < r) ==> s[i] !in breaks
  {
    if s == "" then -1
    else if s[0] in breaks then 0
    else
      var r := LineEnd(s[1..], breaks);
      assert forall i :: 0 < i < |s| ==> s[i] == s[1..][i - 1];
      if r < 0 then -1 else r + 1
  }

  /** A line ends at a line feed and, while streaming, at a carriage return. */
  lemma LineEndExactly(s: string, streaming: bool)
    ensures LineEnd(s, Breaks(streaming)) >= 0 <==> '\n' in s || (streaming && '\r' in s)
  {
    var r := LineEnd(s, Breaks(streaming));
    if r >= 0 { assert s[r] in s; }
  }

  /** Every terminated line of `text` in turn; what is left has no line break. */
  ghost function Lines(p: Policy, streaming: bool, st: State, text: string): (r: (State, string))
    ensures forall i :: 0 <= i < |r.1| ==> r.1[i] !in Breaks(streaming)
    decreases |text|
  {
    var end := LineEnd(text, Breaks(streaming));
    if end < 0 then (st, text)
    else Lines(p, streaming, AfterLine(p, streaming, st, text[..end + 1]), text[end + 1..])
  }

  ghost function Finished(p: Policy, streaming: bool, st: State, rest: string): State {
    FlushedStructured(p, if rest == "" then st else AfterLine(p, streaming, st, rest))
  }

  /** What a whole input leaves: its lines in turn, the last one with or without its end. */
  ghost function Redacted(p: Policy, streaming: bool, text: string): State {
    var (st, rest) := Lines(p, streaming, START, text);
    Finished(p, streaming, st, rest)
  }

  lemma LineEndInFirst(a: string, b: string, breaks: set<char>)
    ensures LineEnd(a, breaks) >= 0 ==> LineEnd(a + b, breaks) == LineEnd(a, breaks)
  {
    var r, s := LineEnd(a, breaks), LineEnd(a + b, breaks);
    if r >= 0 {
      assert (a + b)[r] == a[r];
      assert forall i :: 0 <= i < r ==> (a + b)[i] == a[i];
    }
  }

  /** The first line, then the rest. */
  lemma LinesNext(p: Policy, streaming: bool, st: State, text: string, end: nat, line: string, more: string)
    requires LineEnd(text, Breaks(streaming)) == end && line == text[..end + 1] && more == text[end + 1..]
    ensures Lines(p, streaming, st, text) == Lines(p, streaming, AfterLine(p, streaming, st, line), more)
  {
  }

  lemma FirstOfBoth(p: Policy, streaming: bool, st: State, a: string, b: string) returns (next: State, more: string)
    requires LineEnd(a, Breaks(streaming)) >= 0
    ensures |more| < |a| && Lines(p, streaming, st, a) == Lines(p, streaming, next, more)
    ensures Lines(p, streaming, st, a + b) == Lines(p, streaming, next, more + b)
  {
    var end := LineEnd(a, Breaks(streaming));
    var line := a[..end + 1];
    next, more := AfterLine(p, streaming, st, line), a[end + 1..];
    LineEndInFirst(a, b, Breaks(streaming));
    var both := a + b;
    assert both[..end + 1] == line;
    assert both[end + 1..] == more + b;
    LinesNext(p, streaming, st, a, end, line, more);
    LinesNext(p, streaming, st, both, end, line, more + b);
  }

  /** Cutting the text anywhere changes nothing: what is left of the first part goes before the second. */
  lemma {:induction false} LinesOfParts(p: Policy, streaming: bool, st: State, a: string, b: string)
    ensures var (mid, rest) := Lines(p, streaming, st, a);
      Lines(p, streaming, st, a + b) == Lines(p, streaming, mid, rest + b)
    decreases |a|
  {
    if LineEnd(a, Breaks(streaming)) >= 0 {
      var next, more := FirstOfBoth(p, streaming, st, a, b);
      LinesOfParts(p, streaming, next, more, b);
    }
  }

  lemma {:induction false} RestIsSuffix(p: Policy, streaming: bool, st: State, text: string, rest: string)
    requires rest == Lines(p, streaming, st, text).1
    ensures |rest| <= |text| && text[|text| - |rest|..] == rest
    decreases |text|
  {
    if LineEnd(text, Breaks(streaming)) >= 0 {
      var next, more := FirstLineOf(p, streaming, st, text);
      RestIsSuffix(p, streaming, next, more, rest);
      SuffixOfSuffix(text, more, rest);
    } else {
      assert text[0..] == text;
    }
  }

  lemma SuffixOfSuffix(text: string, more: string, rest: string)
    requires |more| <= |text| && text[|text| - |more|..] == more
    requires |rest| <= |more| && more[|more| - |rest|..] == rest
    ensures text[|text| - |rest|..] == rest
  {
  }

  lemma FirstLineOf(p: Policy, streaming: bool, st: State, text: string) returns (next: State, more: string)
    requires LineEnd(text, Breaks(streaming)) >= 0
    ensures |more| < |text| && text[|text| - |more|..] == more && Lines(p, streaming, st, text) == Lines(p, streaming, next, more)
  {
    var end := LineEnd(text, Breaks(streaming));
    next, more := AfterLine(p, streaming, st, text[..end + 1]), text[end + 1..];
    LinesNext(p, streaming, st, text, end, text[..end + 1], more);
  }

  // ----- lines in turn

  /** The state after the given lines. */
  ghost function AfterAll(p: Policy, streaming: bool, st: State, lines: seq<string>): State {
    if lines == [] then st
    else AfterLine(p, streaming, AfterAll(p, streaming, st, lines[..|lines| - 1]), lines[|lines| - 1])
  }

  lemma AfterOneMore(p: Policy, streaming: bool, st: State, lines: seq<string>, line: string)
    ensures AfterAll(p, streaming, st, lines + [line]) == AfterLine(p, streaming, AfterAll(p, streaming, st, lines), line)
    ensures Concat(lines + [line]) == Concat(lines) + line
  {
    assert (lines + [line])[..|lines|] == lines;
  }

  lemma {:induction false} AfterBoth(p: Policy, streaming: bool, st: State, a: seq<string>, b: seq<string>)
    ensures AfterAll(p, streaming, st, a + b) == AfterAll(p, streaming, AfterAll(p, streaming, st, a), b)
  {
    if b == [] {
      assert a + b == a;
    } else {
      var init, last := b[..|b| - 1], b[|b| - 1];
      AfterBoth(p, streaming, st, a, init);
      var mid, both, most := AfterAll(p, streaming, st, a), a + b, a + init;
      TakeBoth(a, b);
      LastOfAll(p, streaming, st, both, most, last);
      LastOfAll(p, streaming, mid, b, init, last);
    }
  }

  lemma LastOfAll(p: Policy, streaming: bool, st: State, lines: seq<string>, init: seq<string>, last: string)
    requires lines != [] && init == lines[..|lines| - 1] && last == lines[|lines| - 1]
    ensures AfterAll(p, streaming, st, lines) == AfterLine(p, streaming, AfterAll(p, streaming, st, init), last)
  {
  }

  /** One line break, at its end. */
  predicate Terminated(streaming: bool, s: string) {
    s != "" && LineEnd(s, Breaks(streaming)) == |s| - 1
  }

  /** What is processed at once: a terminated line, or while streaming an unterminated stretch over the limit. */
  predicate Released(streaming: bool, s: string) {
    Terminated(streaming, s) || (streaming && |s| > STREAMING_LINE_LIMIT && LineEnd(s, Breaks(true)) < 0)
  }

  lemma OneLine(p: Policy, streaming: bool, st: State, line: string, rest: string)
    requires Terminated(streaming, line)
    ensures Lines(p, streaming, st, line + rest) == Lines(p, streaming, AfterLine(p, streaming, st, line), rest)
  {
    var text := line + rest;
    LineEndInFirst(line, rest, Breaks(streaming));
    assert text[..|line|] == line && text[|line|..] == rest;
    LinesNext(p, streaming, st, text, |line| - 1, line, rest);
  }

  /** Terminated lines one behind the other are read as those lines. */
  lemma {:induction false} LinesAre(p: Policy, streaming: bool, st: State, lines: seq<string>, rest: string)
    requires forall k :: 0 <= k < |lines| ==> Terminated(streaming, lines[k])
    ensures Lines(p, streaming, st, Concat(lines) + rest) == Lines(p, streaming, AfterAll(p, streaming, st, lines), rest)
    decreases |lines|
  {
    if lines == [] {
      assert Concat(lines) + rest == rest;
    } else {
      var init, last := lines[..|lines| - 1], lines[|lines| - 1];
      LinesAre(p, streaming, st, init, last + rest);
      OneLine(p, streaming, AfterAll(p, streaming, st, init), last, rest);
      Associative(Concat(init), last, rest);
    }
  }

  lemma FailedLine(p: Policy, streaming: bool, st: State, text: string) returns (more: string)
    requires st.failed && LineEnd(text, Breaks(streaming)) >= 0
    ensures |more| < |text| && Lines(p, streaming, st, text) == Lines(p, streaming, st, more)
  {
    var end := LineEnd(text, Breaks(streaming));
    more := text[end + 1..];
    LinesNext(p, streaming, st, text, end, text[..end + 1], more);
  }

  /** A slice out of range ends everything. */
  lemma {:induction false} FailedStays(p: Policy, streaming: bool, st: State, text: string)
    requires st.failed
    ensures Lines(p, streaming, st, text).0 == st
    decreases |text|
  {
    if LineEnd(text, Breaks(streaming)) >= 0 {
      var more := FailedLine(p, streaming, st, text);
      FailedStays(p, streaming, st, more);
    }
  }

  lemma FailedFinish(p: Policy, streaming: bool, st: State, rest: string)
    requires st.failed
    ensures Finished(p, streaming, st, rest) == st
  {
  }

  const START := State("", "", false, false)

  /** What has been read: the state is that of the released lines and stretches, in order. */
  ghost predicate HasRead(p: Policy, streaming: bool, st: State, pending: string, input: string, released: seq<string>,
                          overflowed: bool) {
    && st == AfterAll(p, streaming, START, released) && Concat(released) + pending == input
    && (forall k :: 0 <= k < |released| ==> Released(streaming, released[k]))
    && (!overflowed ==> forall k :: 0 <= k < |released| ==> Terminated(streaming, released[k]))
    && (st.failed || LineEnd(pending, Breaks(streaming)) < 0)
  }

  /** `lines` are the terminated lines taken from the front of `text`; `rest` is left of it. */
  ghost predicate Taken(p: Policy, streaming: bool, st: State, text: string, lines: seq<string>, now: State, rest: string) {
    && now == AfterAll(p, streaming, st, lines) && Concat(lines) + rest == text
    && forall k :: 0 <= k < |lines| ==> Terminated(streaming, lines[k])
  }

  lemma TakeLine(p: Policy, streaming: bool, st: State, text: string, lines: seq<string>, now: State, rest: string,
                 line: string, more: string)
    requires Taken(p, streaming, st, text, lines, now, rest) && Terminated(streaming, line) && rest == line + more
    ensures Taken(p, streaming, st, text, lines + [line], AfterLine(p, streaming, now, line), more)
  {
    AfterOneMore(p, streaming, st, lines, line);
    var front := Concat(lines);
    assert front + rest == front + line + more;
  }

  lemma LinesTaken(p: Policy, streaming: bool, st: State, text: string, lines: seq<string>, now: State, rest: string)
    requires Taken(p, streaming, st, text, lines, now, rest) && (now.failed || LineEnd(rest, Breaks(streaming)) < 0)
    ensures Lines(p, streaming, st, text).0 == now && (now.failed || Lines(p, streaming, st, text).1 == rest)
  {
    LinesAre(p, streaming, st, lines, rest);
    if now.failed { FailedStays(p, streaming, now, rest); }
  }

  lemma ConcatMore(released: seq<string>, lines: seq<string>, pending: string, input: string, data: string, rest: string)
    requires Concat(released) + pending == input && Concat(lines) + rest == pending + data
    requires Concat(released + lines) == Concat(released) + Concat(lines)
    ensures Concat(released + lines) + rest == input + data
  {
    var a, b := Concat(released), Concat(lines);
    assert a + b + rest == a + (b + rest) == a + (pending + data) == a + pending + data;
  }

  /** More terminated lines are released. */
  lemma ReadLines(p: Policy, streaming: bool, st: State, pending: string, input: string, released: seq<string>,
                  overflowed: bool, data: string, lines: seq<string>, now: State, rest: string)
    requires HasRead(p, streaming, st, pending, input, released, overflowed)
    requires Taken(p, streaming, st, pending + data, lines, now, rest) && (now.failed || LineEnd(rest, Breaks(streaming)) < 0)
    ensures HasRead(p, streaming, now, rest, input + data, released + lines, overflowed)
    ensures Lines(p, streaming, st, pending + data).0 == now
    ensures now.failed || Lines(p, streaming, st, pending + data).1 == rest
  {
    LinesTaken(p, streaming, st, pending + data, lines, now, rest);
    AfterBoth(p, streaming, START, released, lines);
    ConcatBoth(released, lines);
    ConcatMore(released, lines, pending, input, data, rest);
    var both := released + lines;
    forall k | 0 <= k < |both|
      ensures Released(streaming, both[k]) && (!overflowed ==> Terminated(streaming, both[k]))
    {
      assert both[k] == if k < |released| then released[k] else lines[k - |released|];
    }
  }

  /** An unterminated stretch over the limit is released. */
  lemma ReadStretch(p: Policy, streaming: bool, st: State, pending: string, input: string, released: seq<string>,
                    overflowed: bool, now: State)
    requires HasRead(p, streaming, st, pending, input, released, overflowed) && streaming && |pending| > STREAMING_LINE_LIMIT
    requires !st.failed && now == AfterLine(p, streaming, st, pending)
    ensures HasRead(p, streaming, now, "", input, released + [pending], true)
  {
    AfterOneMore(p, streaming, START, released, pending);
    assert Concat(released + [pending]) + "" == input;
  }

  // ----- structured values

  /** As long as no value behind a match is completed nothing is written; at the end of the input nothing
      behind the first match is. */
  lemma {:induction false} UnfinishedValueIsHidden(p: Policy, streaming: bool, st: State, lines: seq<string>)
    requires !st.failed && st.structured != ""
    requires forall k :: 0 <= k <= |lines| ==>
      var value := st.structured + Concat(lines[..k]); NoValue(value, p.pattern(value))
    ensures var value := st.structured + Concat(lines);
      && AfterAll(p, streaming, st, lines) == st.(structured := value)
      && FlushedStructured(p, st.(structured := value)).output == st.output
         + (if p.pattern(value) == [] then "" else p.known(value[..p.pattern(value)[0].to]) + "<redacted>")
    decreases |lines|
  {
    var value := st.structured + Concat(lines);
    assert lines[..|lines|] == lines;
    SafeExactly(p, value);
    assert InOrder(value, p.pattern(value));
    if lines == [] {
      assert value == st.structured;
    } else {
      var init, last := lines[..|lines| - 1], lines[|lines| - 1];
      forall k | 0 <= k <= |init|
        ensures var v := st.structured + Concat(init[..k]); NoValue(v, p.pattern(v))
      {
        assert init[..k] == lines[..k];
      }
      UnfinishedValueIsHidden(p, streaming, st, init);
      Associative(st.structured, Concat(init), last);
    }
  }

  lemma HeldValue(p: Policy, st: State, value: string)
    requires !st.failed
    ensures |AfterStructured(p, true, st, value).structured| > STREAMING_LINE_LIMIT
       <==> |value| > STREAMING_LINE_LIMIT && NoValue(value, p.pattern(value))
  {
    SafeExactly(p, value);
  }

  /** While streaming, the held text exceeds the limit exactly when it is a longer text in which a value is
      begun and none is completed: the limit is only looked at behind a completed value. */
  lemma HeldExactly(p: Policy, st: State, line: string)
    requires !st.failed
    ensures |AfterLine(p, true, st, line).structured| > STREAMING_LINE_LIMIT <==>
      && |st.structured + line| > STREAMING_LINE_LIMIT
      && if st.structured == "" then Unfinished(p, line)
         else NoValue(st.structured + line, p.pattern(st.structured + line))
  {
    if st.structured == "" {
      assert "" + line == line;
    } else {
      HeldValue(p, st, st.structured + line);
    }
  }

  // ----- the writer

  class RedactingWriter {
    const policy: Policy
    const streaming: bool
    var output: string
    var pending: string
    var structured: string
    var inPrivateBlock: bool
    /** A slice of a line was out of range, which ends the program. */
    var failed: bool
    /** Everything written, and whether the streaming limit ever released an unterminated line. */
    ghost var input: string
    ghost var overflowed: bool
    /** The lines and stretches processed so far. */
    ghost var released: seq<string>

    ghost predicate Valid() reads this {
      && HasRead(policy, streaming, Held(), pending, input, released, overflowed)
      && (streaming && !failed ==> |pending| <= STREAMING_LINE_LIMIT)
      && (overflowed ==> streaming)
    }

    constructor (policy: Policy, streaming: bool)
      ensures Valid() && this.policy == policy && this.streaming == streaming
      ensures input == "" && output == "" && !overflowed && !failed
    {
      this.policy, this.streaming := policy, streaming;
      output, pending, structured, inPrivateBlock, failed := "", "", "", false, false;
      input, overflowed, released := "", false, [];
    }

    /** Without a stretch over the limit the writer has read the terminated lines of its input. */
    lemma HasReadLines()
      requires Valid() && !overflowed && !failed
      ensures (Held(), pending) == Lines(policy, streaming, START, input)
    {
      LinesAre(policy, streaming, START, released, pending);
    }

    ghost function Held(): State reads this {
      State(output, structured, inPrivateBlock, failed)
    }

    method WriteLine(line: string)
      requires !failed
      modifies `output, `structured, `inPrivateBlock, `failed
      ensures Held() == AfterLine(policy, streaming, old(Held()), line)
    {
      if structured != "" {
        structured := structured + line;
        var value := structured;
        var safe := RedactStructuredValues(policy.pattern, value);
        if safe == value {
          return;
        }
        var begun := HasIncompleteSensitiveStructure(policy.pattern, safe);
        if begun {
          structured := safe;
          if streaming && |structured| > STREAMING_LINE_LIMIT {
            FlushStructured();
          }
          return;
        }
        structured := "";
        output := output + policy.known(safe);
        return;
      }
      var begun := HasIncompleteSensitiveStructure(policy.pattern, line);
      if begun {
        structured := structured + line;
        return;
      }
      WritePlain(line, Upper(policy.cases, line));
    }

    /** A line outside structured values, with its upper-cased form. */
    method WritePlain(line: string, upper: string)
      requires !failed
      modifies `output, `inPrivateBlock, `failed
      ensures Held() == AfterPlain(policy, old(Held()), line, upper)
    {
      if inPrivateBlock {
        var end := PrivateKeyEnd(upper);
        if end >= 0 {
          inPrivateBlock := false;
          if end > |line| {
            failed := true;
            return;
          }
          output := output + policy.known(line[end..]);
        }
        return;
      }
      var begin := Find(upper, "-----BEGIN ");
      if begin < 0 || Find(upper[begin..], "PRIVATE KEY-----") < 0 {
        output := output + policy.known(line);
        return;
      }
      if PrivateKeyEnd(upper[begin..]) >= 0 {
        output := output + policy.known(line);
        return;
      }
      if begin > |line| {
        failed := true;
        return;
      }
      output := output + (policy.known(line[..begin]) + "<redacted-private-key>");
      inPrivateBlock := true;
    }

    method FlushStructured()
      requires !failed
      modifies `output, `structured
      ensures Held() == FlushedStructured(policy, old(Held()))
    {
      if structured == "" {
        return;
      }
      var value := structured;
      structured := "";
      var matches := policy.pattern(value);
      if matches == [] {
        return;
      }
      assert InOrder(value, matches);
      output := output + (policy.known(value[..matches[0].to]) + "<redacted>");
    }

    /** Writes every terminated line of the pending text. */
    method WriteLines() returns (ghost lines: seq<string>)
      requires !failed
      modifies `output, `pending, `structured, `inPrivateBlock, `failed
      ensures Taken(policy, streaming, old(Held()), old(pending), lines, Held(), pending)
      ensures failed || LineEnd(pending, Breaks(streaming)) < 0
    {
      lines := [];
      ghost var text, st := pending, Held();
      assert Concat([]) + text == text;
      while true
        invariant !failed && Taken(policy, streaming, st, text, lines, Held(), pending)
        decreases |pending|
      {
        var lineEnd := LineEnd(pending, Breaks(streaming));
        if lineEnd < 0 {
          break;
        }
        var line, more := pending[..lineEnd + 1], pending[lineEnd + 1..];
        FirstLine(pending, lineEnd, line, streaming);
        TakeLine(policy, streaming, st, text, lines, Held(), pending, line, more);
        lines := lines + [line];
        pending := more;
        WriteLine(line);
        if failed {
          return;
        }
      }
    }

    /** Takes in more text and writes its terminated lines. */
    method Append(data: string)
      requires !failed && HasRead(policy, streaming, Held(), pending, input, released, overflowed)
      modifies `output, `pending, `structured, `inPrivateBlock, `failed, `input, `released
      ensures HasRead(policy, streaming, Held(), pending, input, released, overflowed)
      ensures input == old(input) + data && old(released) <= released
      ensures !failed ==> Lines(policy, streaming, old(Held()), old(pending) + data).1 == pending
    {
      ghost var st, before := Held(), pending;
      pending := pending + data;
      ghost var lines := WriteLines();
      ReadLines(policy, streaming, st, before, input, released, overflowed, data, lines, Held(), pending);
      input, released := input + data, released + lines;
    }

    method Write(data: string)
      requires Valid() && !failed
      modifies this
      ensures Valid() && input == old(input) + data && old(released) <= released
      ensures old(overflowed) ==> overflowed
      ensures overflowed && !old(overflowed) ==>
        streaming && |Lines(policy, streaming, old(Held()), old(pending) + data).1| > STREAMING_LINE_LIMIT
      ensures streaming && !overflowed && !failed ==>
        |Lines(policy, streaming, old(Held()), old(pending) + data).1| <= STREAMING_LINE_LIMIT
    {
      Append(data);
      if failed {
        return;
      }
      if streaming && |pending| > STREAMING_LINE_LIMIT {
        WriteStretch();
      }
    }

    /** Writes an unterminated stretch over the limit. */
    method WriteStretch()
      requires !failed && streaming && |pending| > STREAMING_LINE_LIMIT
      requires HasRead(policy, streaming, Held(), pending, input, released, overflowed)
      modifies `output, `pending, `structured, `inPrivateBlock, `failed, `overflowed, `released
      ensures HasRead(policy, streaming, Held(), pending, input, released, overflowed)
      ensures pending == "" && overflowed && old(released) <= released
    {
      ghost var before := Held();
      var line := pending;
      pending := "";
      WriteLine(line);
      ghost var now, more := Held(), released + [line];
      ReadStretch(policy, streaming, before, line, input, released, overflowed, now);
      released, overflowed := more, true;
      assert Held() == now && pending == "";
    }

    /** Ends the input: what is left is that of its released lines and stretches and of the rest, which
        without a stretch over the limit is that of the whole input. */
    method Flush()
      requires Valid() && !failed
      modifies this
      ensures pending == ""
      ensures Held() == Finished(policy, streaming, AfterAll(policy, streaming, START, old(released)), old(pending))
      ensures !old(overflowed) ==> Held() == Redacted(policy, streaming, old(input))
    {
      if !overflowed { HasReadLines(); }
      if pending != "" {
        var line := pending;
        pending := "";
        WriteLine(line);
        if failed {
          return;
        }
      }
      FlushStructured();
    }
  }

  lemma FirstLine(text: string, end: nat, line: string, streaming: bool)
    requires LineEnd(text, Breaks(streaming)) == end && line == text[..end + 1]
    ensures Terminated(streaming, line)
  {
    var r := LineEnd(line, Breaks(streaming));
    assert line[end] == text[end];
    assert forall i :: 0 <= i < end ==> line[i] == text[i];
  }

  ghost predicate BreakWithin(s: string, i: int)
    requires 0 <= i && i + STREAMING_LINE_LIMIT < |s|
  {
    exists k :: i <= k <= i + STREAMING_LINE_LIMIT && s[k] in Breaks(true)
  }

  /** Every stretch of more than the streaming limit holds a line break. */
  ghost predicate ShortLines(s: string) {
    forall i :: 0 <= i < |s| - STREAMING_LINE_LIMIT ==> BreakWithin(s, i)
  }

  /** What is left of a beginning of such a text is within the limit. */
  lemma ShortRest(p: Policy, st: State, text: string, n: nat)
    requires n <= |text| && ShortLines(text)
    ensures |Lines(p, true, st, text[..n]).1| <= STREAMING_LINE_LIMIT
  {
    var part := text[..n];
    var rest := Lines(p, true, st, part).1;
    RestIsSuffix(p, true, st, part, rest);
    var i := n - |rest|;
    forall k | i <= k < n ensures text[k] !in Breaks(true) {
      assert rest[k - i] == part[i..][k - i] == text[k];
    }
    assert i + STREAMING_LINE_LIMIT < |text| ==> BreakWithin(text, i);
  }

  lemma {:induction false} ConcatPrefix(chunks: seq<string>, n: nat)
    requires n <= |chunks|
    ensures Concat(chunks[..n]) <= Concat(chunks)
  {
    if n == |chunks| {
      assert chunks[..n] == chunks;
    } else {
      ConcatPrefix(chunks[..|chunks| - 1], n);
      assert chunks[..|chunks| - 1][..n] == chunks[..n];
    }
  }

  /** One more write of such a text does not reach the limit. */
  lemma NextRestIsShort(p: Policy, st: State, rest: string, chunks: seq<string>, n: nat)
    requires n < |chunks| && ShortLines(Concat(chunks))
    requires (st, rest) == Lines(p, true, START, Concat(chunks[..n]))
    ensures |Lines(p, true, st, rest + chunks[n]).1| <= STREAMING_LINE_LIMIT
  {
    ConcatPrefix(chunks, n + 1);
    assert chunks[..n + 1][..n] == chunks[..n];
    var whole, part := Concat(chunks), Concat(chunks[..n + 1]);
    assert part == whole[..|part|];
    LinesOfParts(p, true, START, Concat(chunks[..n]), chunks[n]);
    ShortRest(p, START, whole, |part|);
  }

  /** The text is cut into released lines and stretches and what is left of it, which holds a line break
      only behind a failure. */
  ghost predicate CutInto(p: Policy, streaming: bool, text: string, released: seq<string>, rest: string) {
    && Concat(released) + rest == text && (forall k :: 0 <= k < |released| ==> Released(streaming, released[k]))
    && (AfterAll(p, streaming, START, released).failed || LineEnd(rest, Breaks(streaming)) < 0)
  }

  /** Behind a failure the rest of the text makes no difference. */
  lemma Stopped(p: Policy, streaming: bool, st: State, pending: string, input: string, released: seq<string>,
                overflowed: bool, whole: string, more: string)
    requires HasRead(p, streaming, st, pending, input, released, overflowed) && st.failed && whole == input + more
    ensures CutInto(p, streaming, whole, released, pending + more) && Finished(p, streaming, st, pending + more) == st
    ensures !overflowed ==> Redacted(p, streaming, whole) == st
  {
    Associative(Concat(released), pending, more);
    FailedFinish(p, streaming, st, pending + more);
    if !overflowed {
      LinesAre(p, streaming, START, released, pending + more);
      FailedStays(p, streaming, st, pending + more);
      FailedFinish(p, streaming, st, Lines(p, streaming, st, pending + more).1);
    }
  }

  lemma WriteWithin(p: Policy, chunks: seq<string>, n: nat, input: string)
    requires n < |chunks| && input == Concat(chunks[..n + 1])
    ensures |input| <= |Concat(chunks)| && Concat(chunks) == input + Concat(chunks)[|input|..]
  {
    ConcatPrefix(chunks, n + 1);
  }

  /** However the input is cut into writes, the flushed output and whether a slice failed are those of the
      whole input; while streaming, as long as no unterminated stretch exceeds the limit. */
  method RedactStream(policy: Policy, streaming: bool, chunks: seq<string>) returns (output: string, failed: bool)
    ensures !streaming || ShortLines(Concat(chunks)) ==>
      var st := Redacted(policy, streaming, Concat(chunks)); output == st.output && failed == st.failed
    ensures exists released, rest ::
      CutInto(policy, streaming, Concat(chunks), released, rest)
      && var st := Finished(policy, streaming, AfterAll(policy, streaming, START, released), rest);
         output == st.output && failed == st.failed
  {
    var writer := new RedactingWriter(policy, streaming);
    for i := 0 to |chunks|
      invariant writer.Valid() && fresh(writer) && writer.policy == policy && writer.streaming == streaming
      invariant writer.input == Concat(chunks[..i]) && !writer.failed
      invariant !streaming || ShortLines(Concat(chunks)) ==> !writer.overflowed
    {
      assert chunks[..i + 1][..i] == chunks[..i];
      if streaming && ShortLines(Concat(chunks)) {
        writer.HasReadLines();
        NextRestIsShort(policy, writer.Held(), writer.pending, chunks, i);
      }
      writer.Write(chunks[i]);
      if writer.failed {
        WriteWithin(policy, chunks, i, writer.input);
        ghost var more := Concat(chunks)[|writer.input|..];
        Stopped(policy, streaming, writer.Held(), writer.pending, writer.input, writer.released, writer.overflowed,
                Concat(chunks), more);
        return writer.output, true;
      }
    }
    assert chunks[..|chunks|] == chunks;
    assert CutInto(policy, streaming, Concat(chunks), writer.released, writer.pending);
    writer.Flush();
    output, failed := writer.output, writer.failed;
  }
}
