/** The two scanners of the run options: the boundary scan and the option parser. */
module RunArgs {
  import opened Sequences

  /** The option table both scanners share: the names that take the next token as their value, those
      of them that the parser of run, exec, plan and map knows, the names that also take an attached
      value, the flags, and the names whose values have a format of their own. */
  datatype Table = Table(values: set<string>, known: set<string>, attached: set<string>, flags: set<string>,
                         formats: set<string>)

  const RUN_OPTIONS := Table(
    {"--jobs", "-j", "--parallel", "--timeout", "--secret", "-e", "--shell", "--interpreter", "-f", "--file",
     "--scripts", "--refresh", "--retry-dial", "--connect-timeout", "--exec-timeout", "--stdin-file"},
    {"--jobs", "-j", "--parallel", "--timeout", "--secret", "-e", "--shell", "--interpreter", "-f", "--file",
     "--scripts", "--retry-dial", "--connect-timeout", "--exec-timeout", "--stdin-file"},
    {"--jobs", "--timeout", "--connect-timeout", "--exec-timeout", "--retry-dial", "--secret", "--shell",
     "--interpreter", "--file", "--stdin-file"},
    {"--raw", "--trace", "-v", "--json", "--plan", "--dry-run", "--no-reuse", "--preflight", "--no-preflight",
     "-s", "--script", "--stdin", "--no-stdin"},
    {"--jobs", "-j", "--parallel", "--timeout", "--connect-timeout", "--exec-timeout", "--retry-dial", "--secret", "-e"})

  /** No value option is spelled like a token that starts the remote argument list. */
  ghost predicate WellFormed(t: Table) {
    forall name :: name in t.values ==> !StartsRemote(name)
  }

  /** The program's own table is one. */
  lemma RunOptionsWellFormed()
    ensures WellFormed(RUN_OPTIONS)
  {
  }

  predicate HasPrefix(arg: string, prefix: string) {
    prefix <= arg
  }

  /** The tokens at which the remote argument list starts. */
  predicate StartsRemote(arg: string) {
    arg == "--" || arg == "--argv" || !HasPrefix(arg, "-") || arg == "-"
  }

  // ----- the grammar both scanners read

  /** How many tokens an option takes. */
  function Width(t: Table, arg: string): nat {
    if arg in t.values then 2 else 1
  }

  /** The tokens are options from end to end, every value option with its value. */
  predicate OptionRun(t: Table, tokens: seq<string>) {
    tokens == []
    || (!StartsRemote(tokens[0]) && Width(t, tokens[0]) <= |tokens| && OptionRun(t, tokens[Width(t, tokens[0])..]))
  }

  /** One option as the parser reads it: its name, its value, and whether "name=value" was one token. */
  datatype Setting = Setting(name: string, value: string, attached: bool)

  /** A token that is a whole option: a flag, or "name=value" for the names that allow it. */
  function Single(t: Table, arg: string): Setting {
    var eq := FirstOf(arg, '=');
    if eq >= 0 && arg[..eq] in t.attached then Setting(arg[..eq], arg[eq + 1..], true) else Setting(arg, "", false)
  }

  function Head(t: Table, tokens: seq<string>): Setting
    requires tokens != [] && Width(t, tokens[0]) <= |tokens|
  {
    if tokens[0] in t.values then Setting(tokens[0], tokens[1], false) else Single(t, tokens[0])
  }

  function OptionsOf(t: Table, tokens: seq<string>): seq<Setting>
    requires OptionRun(t, tokens)
  {
    if tokens == [] then [] else [Head(t, tokens)] + OptionsOf(t, tokens[Width(t, tokens[0])..])
  }

  /** The tokens an option was read from. */
  function TokensOf(t: Table, option: Setting): seq<string> {
    if option.attached then [option.name + "=" + option.value]
    else if option.name in t.values then [option.name, option.value]
    else [option.name]
  }

  function Tokens(t: Table, options: seq<Setting>): seq<string> {
    if options == [] then [] else TokensOf(t, options[0]) + Tokens(t, options[1..])
  }

  /** "name=value" is taken apart at its first '='. */
  lemma SingleExactly(t: Table, arg: string)
    ensures var option := Single(t, arg);
      if option.attached then option.name in t.attached && '=' !in option.name && arg == option.name + "=" + option.value
      else option.name == arg
  {
    var eq := FirstOf(arg, '=');
    if eq >= 0 {
      assert forall i :: 0 <= i < |arg[..eq]| ==> arg[..eq][i] == arg[i];
      assert arg == arg[..eq] + [arg[eq]] + arg[eq + 1..];
    }
  }

  /** It is for every name that allows it. */
  lemma AttachedIsRead(t: Table, name: string, value: string)
    requires '=' !in name && name in t.attached
    ensures Single(t, name + "=" + value) == Setting(name, value, true)
  {
    var arg := name + "=" + value;
    assert arg[|name|] == '=' && forall i :: 0 <= i < |name| ==> arg[i] == name[i];
    assert FirstOf(arg, '=') == |name|;
    assert arg[..|name|] == name && arg[|name| + 1..] == value;
  }

  /** The options, written out, are the tokens again. */
  lemma {:induction false} OptionsRoundTrip(t: Table, tokens: seq<string>)
    requires OptionRun(t, tokens)
    ensures Tokens(t, OptionsOf(t, tokens)) == tokens
  {
    if tokens != [] {
      var n := Width(t, tokens[0]);
      OptionsRoundTrip(t, tokens[n..]);
      SingleExactly(t, tokens[0]);
      HeadTokens(t, tokens);
      assert ([Head(t, tokens)] + OptionsOf(t, tokens[n..]))[1..] == OptionsOf(t, tokens[n..]);
      Halves(tokens, n);
    }
  }

  lemma HeadTokens(t: Table, tokens: seq<string>)
    requires tokens != [] && Width(t, tokens[0]) <= |tokens|
    ensures TokensOf(t, Head(t, tokens)) == tokens[..Width(t, tokens[0])]
  {
    SingleExactly(t, tokens[0]);
  }

  // ----- what the parser allows

  function StdinFile(options: seq<Setting>): string {
    if options == [] then ""
    else
      var last := options[|options| - 1];
      if last.name == "--stdin-file" then last.value else StdinFile(options[..|options| - 1])
  }

  predicate Allowed(t: Table, before: seq<Setting>, option: Setting, valid: Setting -> bool) {
    && (if option.attached then option.name in t.attached
        else option.name in t.flags + t.known)
    && (option.name in t.formats ==> valid(option))
    && (option.name == "--stdin-file" ==> StdinFile(before) == "" && (option.attached ==> option.value != ""))
    && (option.name == "--file" && option.attached ==> option.value != "")
  }

  predicate AllAllowed(t: Table, options: seq<Setting>, valid: Setting -> bool) {
    forall k :: 0 <= k < |options| ==> Allowed(t, options[..k], options[k], valid)
  }

  /** One option by itself. */
  predicate AllowedAlone(t: Table, option: Setting, valid: Setting -> bool) {
    && option.name in (if option.attached then t.attached else t.flags + t.known)
    && (option.name in t.formats ==> valid(option))
    && (option.attached && option.value == "" ==> option.name !in {"--file", "--stdin-file"})
  }

  /** Only `--refresh` is known to the boundary scan alone. */
  lemma KnownExactly()
    ensures RUN_OPTIONS.values == RUN_OPTIONS.known + {"--refresh"} && "--refresh" !in RUN_OPTIONS.known
  {
  }

  /** The short names and `--scripts` take no attached value. */
  lemma AttachedExactly()
    ensures RUN_OPTIONS.known == RUN_OPTIONS.attached + {"-j", "--parallel", "-e", "-f", "--scripts"}
    ensures RUN_OPTIONS.attached !! {"-j", "--parallel", "-e", "-f", "--scripts"}
  {
  }

  /** Names and paths have no format of their own. */
  lemma FormatsExactly()
    ensures RUN_OPTIONS.known == RUN_OPTIONS.formats + {"--shell", "--interpreter", "-f", "--file", "--scripts", "--stdin-file"}
    ensures RUN_OPTIONS.formats !! {"--shell", "--interpreter", "-f", "--file", "--scripts", "--stdin-file"}
  {
  }

  /** A file for stdin is given only once: any before the last one is empty. */
  predicate OneStdinFile(options: seq<Setting>) {
    forall j, k :: 0 <= j < k < |options| && options[j].name == options[k].name == "--stdin-file" ==> options[j].value == ""
  }

  lemma {:induction false} StdinFileOf(options: seq<Setting>)
    requires OneStdinFile(options)
    ensures StdinFile(options) == "" <==>
      forall k :: 0 <= k < |options| && options[k].name == "--stdin-file" ==> options[k].value == ""
  {
    if options != [] {
      var init := options[..|options| - 1];
      assert forall k :: 0 <= k < |init| ==> init[k] == options[k];
      StdinFileOf(init);
    }
  }

  lemma AllowedLast(t: Table, options: seq<Setting>, init: seq<Setting>, last: Setting, valid: Setting -> bool)
    requires options == init + [last]
    ensures AllAllowed(t, options, valid) <==> AllAllowed(t, init, valid) && Allowed(t, init, last, valid)
  {
    forall k | 0 <= k < |init| ensures options[..k] == init[..k] && options[k] == init[k] {
    }
    assert options[..|init|] == init && options[|init|] == last;
  }

  /** Options are allowed together exactly if each is allowed alone and one file for stdin is given. */
  lemma {:induction false} AllowedExactly(t: Table, options: seq<Setting>, valid: Setting -> bool)
    ensures AllAllowed(t, options, valid) <==>
      OneStdinFile(options) && forall k :: 0 <= k < |options| ==> AllowedAlone(t, options[k], valid)
  {
    if options != [] {
      var init, last := options[..|options| - 1], options[|options| - 1];
      assert options == init + [last];
      assert forall k :: 0 <= k < |init| ==> init[k] == options[k];
      AllowedExactly(t, init, valid);
      if OneStdinFile(init) { StdinFileOf(init); }
      AllowedLast(t, options, init, last, valid);
    }
  }

  // ----- the boundary

  function Boundary(t: Table, args: seq<string>): (b: nat)
    ensures b <= |args| && (b < |args| ==> StartsRemote(args[b]))
  {
    if args == [] || StartsRemote(args[0]) then 0
    else if args[0] !in t.values then 1 + Boundary(t, args[1..])
    else if |args| == 1 then 1
    else 2 + Boundary(t, args[2..])
  }

  method RemoteArgvStart(t: Table, args: seq<string>) returns (b: nat)
    requires WellFormed(t)
    ensures b == Boundary(t, args)
  {
    var i := 0;
    while i < |args|
      invariant 0 <= i <= |args| && Boundary(t, args) == i + Boundary(t, args[i..])
    {
      var arg := args[i];
      if arg == "--" || arg == "--argv" {
        return i;
      } else if arg in t.values {
        i := i + 1;
        if i == |args| {
          return i;
        }
      } else if HasPrefix(arg, "-") && arg != "-" {
      } else {
        return i;
      }
      i := i + 1;
    }
    return |args|;
  }

  // ----- the two scanners agree

  /** Whole options first, read with their first one taken off. */
  lemma RunStep(t: Table, a: seq<string>, b: seq<string>)
    requires a != [] && !StartsRemote(a[0]) && Width(t, a[0]) <= |a|
    requires OptionRun(t, a[Width(t, a[0])..] + b)
    ensures OptionRun(t, a + b)
    ensures OptionsOf(t, a + b) == [Head(t, a)] + OptionsOf(t, a[Width(t, a[0])..] + b)
  {
    var n := Width(t, a[0]);
    assert (a + b)[n..] == a[n..] + b && (a + b)[0] == a[0] && (n == 2 ==> (a + b)[1] == a[1]);
  }

  lemma {:induction false} RunThenRun(t: Table, a: seq<string>, b: seq<string>)
    requires OptionRun(t, a) && OptionRun(t, b)
    ensures OptionRun(t, a + b) && OptionsOf(t, a + b) == OptionsOf(t, a) + OptionsOf(t, b)
  {
    if a == [] {
      assert a + b == b;
    } else {
      RunThenRun(t, a[Width(t, a[0])..], b);
      RunStep(t, a, b);
    }
  }

  lemma {:induction false} RunSplits(t: Table, a: seq<string>, b: seq<string>)
    requires OptionRun(t, a) && OptionRun(t, a + b)
    ensures OptionRun(t, b)
  {
    if a == [] {
      assert a + b == b;
    } else {
      var n := Width(t, a[0]);
      assert (a + b)[n..] == a[n..] + b;
      RunSplits(t, a[n..], b);
    }
  }

  lemma BoundaryStep(t: Table, args: seq<string>)
    requires args != [] && !StartsRemote(args[0]) && Width(t, args[0]) <= |args|
    ensures Boundary(t, args) == Width(t, args[0]) + Boundary(t, args[Width(t, args[0])..])
  {
  }

  lemma {:induction false} BoundaryAfterOptions(t: Table, own: seq<string>, rest: seq<string>)
    requires OptionRun(t, own)
    ensures Boundary(t, own + rest) == |own| + Boundary(t, rest)
  {
    if own == [] {
      assert own + rest == rest;
    } else {
      var n, whole := Width(t, own[0]), own + rest;
      var tail := own[n..];
      assert whole[0] == own[0];
      assert whole[n..] == tail + rest;
      BoundaryAfterOptions(t, tail, rest);
      BoundaryStep(t, whole);
    }
  }

  /** The boundary is the only place where a run of whole options meets a token that starts the
      remote argument list, whatever follows it. */
  lemma BoundaryIgnoresRemote(t: Table, own: seq<string>, remote: seq<string>)
    requires OptionRun(t, own) && (remote != [] ==> StartsRemote(remote[0]))
    ensures Boundary(t, own + remote) == |own|
  {
    BoundaryAfterOptions(t, own, remote);
  }

  predicate IsMarker(marker: seq<string>) {
    marker in {[], ["--"], ["--argv"], ["--argv", "--"]}
  }

  /** The tokens that open the remote argument list without being part of it: as many as fit. */
  ghost predicate Opens(marker: seq<string>, remote: seq<string>) {
    && IsMarker(marker) && marker <= remote
    && forall other :: IsMarker(other) && other <= remote ==> |other| <= |marker|
  }

  /** There is one such opening only, and it is empty exactly if no "--" or "--argv" stands first. */
  lemma OpensExactly(marker: seq<string>, other: seq<string>, remote: seq<string>)
    requires Opens(marker, remote) && Opens(other, remote)
    ensures marker == other
    ensures marker == [] <==> remote == [] || remote[0] !in {"--", "--argv"}
  {
    assert marker == remote[..|marker|] && other == remote[..|other|];
    if remote != [] && remote[0] in {"--", "--argv"} {
      assert [remote[0]] <= remote && IsMarker([remote[0]]);
    }
  }

  datatype Parse =
    | Parsed(options: seq<Setting>, parts: seq<string>, afterDash: bool, argvMode: bool)
    | Rejected

  /** What is accepted: whole, allowed options up to the boundary. */
  ghost predicate Accepted(t: Table, args: seq<string>, valid: Setting -> bool) {
    OptionRun(t, args[..Boundary(t, args)]) && AllAllowed(t, OptionsOf(t, args[..Boundary(t, args)]), valid)
  }

  /** The state of the parser at token `i`. */
  ghost predicate ReadSoFar(t: Table, args: seq<string>, i: nat, options: seq<Setting>, valid: Setting -> bool) {
    i <= |args| && OptionRun(t, args[..i]) && OptionsOf(t, args[..i]) == options && AllAllowed(t, options, valid)
  }

  lemma Whole(t: Table, args: seq<string>, b: nat, options: seq<Setting>, valid: Setting -> bool)
    requires ReadSoFar(t, args, b, options, valid) && (b < |args| ==> StartsRemote(args[b]))
    ensures Boundary(t, args) == b && Accepted(t, args, valid)
  {
    assert args == args[..b] + args[b..];
    BoundaryIgnoresRemote(t, args[..b], args[b..]);
  }

  /** What has been read is the beginning of what lies before the boundary. */
  lemma ReadIsBeginning(t: Table, args: seq<string>, i: nat)
    requires i <= |args| && OptionRun(t, args[..i]) && OptionRun(t, args[..Boundary(t, args)])
    ensures OptionsOf(t, args[..i]) <= OptionsOf(t, args[..Boundary(t, args)])
  {
    var own, rest := args[..i], args[i..];
    assert args == own + rest;
    BoundaryAfterOptions(t, own, rest);
    var more := rest[..Boundary(t, rest)];
    assert args[..Boundary(t, args)] == own + more;
    RunSplits(t, own, more);
    RunThenRun(t, own, more);
  }

  lemma AllowedOneMore(t: Table, options: seq<Setting>, option: Setting, valid: Setting -> bool)
    requires AllAllowed(t, options, valid) && Allowed(t, options, option, valid)
    ensures AllAllowed(t, options + [option], valid)
  {
    forall k | 0 <= k <= |options| ensures Allowed(t, (options + [option])[..k], (options + [option])[k], valid) {
      assert (options + [option])[..k] == options[..k];
    }
  }

  lemma RejectedEarly(t: Table, options: seq<Setting>, option: Setting, all: seq<Setting>, valid: Setting -> bool)
    requires options + [option] <= all && !Allowed(t, options, option, valid)
    ensures !AllAllowed(t, all, valid)
  {
    assert all[|options|] == (options + [option])[|options|];
    assert all[..|options|] == (options + [option])[..|options|] == options;
  }

  /** One more option of `n` tokens. */
  lemma OptionRead(t: Table, args: seq<string>, i: nat, n: nat, options: seq<Setting>, option: Setting, valid: Setting -> bool)
    requires ReadSoFar(t, args, i, options, valid) && 1 <= n && i + n <= |args|
    requires OptionRun(t, args[i..i + n]) && OptionsOf(t, args[i..i + n]) == [option]
    ensures Allowed(t, options, option, valid) ==> ReadSoFar(t, args, i + n, options + [option], valid)
    ensures !Allowed(t, options, option, valid) ==> !Accepted(t, args, valid)
  {
    RunThenRun(t, args[..i], args[i..i + n]);
    assert args[..i + n] == args[..i] + args[i..i + n];
    if Allowed(t, options, option, valid) {
      AllowedOneMore(t, options, option, valid);
    } else if Accepted(t, args, valid) {
      ReadIsBeginning(t, args, i + n);
      RejectedEarly(t, options, option, OptionsOf(t, args[..Boundary(t, args)]), valid);
      assert false;
    }
  }

  lemma HeadAlone(t: Table, args: seq<string>, i: nat)
    requires i < |args| && !StartsRemote(args[i]) && i + Width(t, args[i]) <= |args|
    ensures var own := args[i..i + Width(t, args[i])];
      OptionRun(t, own) && OptionsOf(t, own) == [Head(t, args[i..])]
  {
    var n := Width(t, args[i]);
    var own := args[i..i + n];
    assert own[n..] == [] && own[0] == args[i..][0] == args[i];
    assert n == 2 ==> own[1] == args[i..][1];
  }

  /** A value option at the very end has no value. */
  lemma ValueMissing(t: Table, args: seq<string>, i: nat, options: seq<Setting>, valid: Setting -> bool)
    requires ReadSoFar(t, args, i, options, valid) && i == |args| - 1 && !StartsRemote(args[i]) && args[i] in t.values
    ensures !Accepted(t, args, valid)
  {
    var rest := args[i..];
    assert args == args[..i] + rest && |rest| == 1;
    BoundaryAfterOptions(t, args[..i], rest);
    assert args[..|args|] == args;
    if OptionRun(t, args) {
      RunSplits(t, args[..i], rest);
    }
  }

  // ----- the parser

  /** What is left behind the marker. */
  lemma Marked(args: seq<string>, i: nat, marker: seq<string>, parts: seq<string>)
    requires i <= |args| && IsMarker(marker) && i + |marker| + |parts| == |args| && parts == args[i + |marker|..]
    requires forall k :: 0 <= k < |marker| ==> args[i + k] == marker[k]
    requires marker == [] ==> i == |args| || args[i] !in {"--", "--argv"}
    requires marker == ["--argv"] ==> parts == [] || parts[0] != "--"
    ensures Opens(marker, args[i..]) && args == args[..i] + marker + parts
  {
    InParts(args, i, marker, parts);
    FirstFits(marker, args[i..], parts);
  }

  lemma InParts(args: seq<string>, i: nat, marker: seq<string>, parts: seq<string>)
    requires i <= |args| && i + |marker| + |parts| == |args| && parts == args[i + |marker|..]
    requires forall k :: 0 <= k < |marker| ==> args[i + k] == marker[k]
    ensures args[i..] == marker + parts && args == args[..i] + marker + parts
  {
  }

  lemma FirstFits(marker: seq<string>, remote: seq<string>, parts: seq<string>)
    requires IsMarker(marker) && remote == marker + parts
    requires marker == [] ==> remote == [] || remote[0] !in {"--", "--argv"}
    requires marker == ["--argv"] ==> parts == [] || parts[0] != "--"
    ensures Opens(marker, remote)
  {
    forall other | IsMarker(other) && other <= remote ensures |other| <= |marker| {
      if |other| > 0 { assert other[0] == remote[0]; }
      if |other| > 1 { assert other[1] == remote[1]; }
    }
  }

  /** Reads the option at token `i` and says whether it is allowed there. */
  method ReadOption(t: Table, args: seq<string>, i: nat, stdinFile: string, valid: Setting -> bool,
                    ghost options: seq<Setting>) returns (allowed: bool, option: Setting, n: nat)
    requires i < |args| && !StartsRemote(args[i])
    requires ReadSoFar(t, args, i, options, valid) && stdinFile == StdinFile(options)
    ensures allowed ==> 1 <= n && ReadSoFar(t, args, i + n, options + [option], valid)
    ensures !allowed ==> !Accepted(t, args, valid)
  {
    var arg := args[i];
    option, n := Single(t, arg), Width(t, arg);
    if arg in t.values {
      if i + 1 >= |args| {
        ValueMissing(t, args, i, options, valid);
        return false, option, n;
      }
      option := Setting(arg, args[i + 1], false);
    }
    HeadAlone(t, args, i);
    OptionRead(t, args, i, n, options, option, valid);
    if option.attached {
      allowed := option.name in t.attached && !(option.name == "--file" && option.value == "");
    } else {
      allowed := option.name in t.flags + t.known;
    }
    if option.name in t.formats && !valid(option) {
      allowed := false;
    }
    if option.name == "--stdin-file" && (stdinFile != "" || (option.attached && option.value == "")) {
      allowed := false;
    }
  }

  /** The remote words behind the marker at token `i`, and what the marker says. */
  method RemotePart(args: seq<string>, i: nat) returns (parts: seq<string>, afterDash: bool, argvMode: bool)
    requires i <= |args|
    ensures exists marker ::
      && Opens(marker, args[i..]) && args == args[..i] + marker + parts
      && (afterDash <==> "--" in marker) && (argvMode <==> "--argv" in marker)
  {
    parts, afterDash, argvMode := args[i..], false, false;
    ghost var marker: seq<string> := [];
    if i < |args| {
      if args[i] == "--" {
        parts, afterDash, marker := args[i + 1..], true, ["--"];
      } else if args[i] == "--argv" {
        argvMode, parts, marker := true, args[i + 1..], ["--argv"];
        if |parts| > 0 && parts[0] == "--" {
          parts, afterDash, marker := parts[1..], true, ["--argv", "--"];
        }
      }
    }
    Marked(args, i, marker, parts);
  }

  /** Reads the options up to the remote words; `valid` stands for the value formats checked elsewhere. */
  method ParseRemoteRunArgs(t: Table, args: seq<string>, valid: Setting -> bool) returns (r: Parse)
    ensures r.Parsed? <==> Accepted(t, args, valid)
    ensures r.Parsed? ==> r.options == OptionsOf(t, args[..Boundary(t, args)])
    ensures r.Parsed? ==>
      exists marker ::
        && Opens(marker, args[Boundary(t, args)..])
        && args == args[..Boundary(t, args)] + marker + r.parts
        && (r.afterDash <==> "--" in marker) && (r.argvMode <==> "--argv" in marker)
  {
    var options: seq<Setting> := [];
    var stdinFile := "";
    var i := 0;
    assert args[..0] == [];
    while i < |args| && !StartsRemote(args[i])
      invariant ReadSoFar(t, args, i, options, valid) && stdinFile == StdinFile(options)
    {
      var allowed, option, n := ReadOption(t, args, i, stdinFile, valid, options);
      if !allowed {
        return Rejected;
      }
      if option.name == "--stdin-file" {
        stdinFile := option.value;
      }
      assert (options + [option])[..|options|] == options;
      options := options + [option];
      i := i + n;
    }
    Whole(t, args, i, options, valid);
    var parts, afterDash, argvMode := RemotePart(args, i);
    r := Parsed(options, parts, afterDash, argvMode);
  }
}
