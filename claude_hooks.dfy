/** The reconciler of the Claude `settings.json`: it parses the settings, makes sure the
    `hooks.Stop` and `hooks.SubagentStop` arrays each hold one command entry that runs the
    mirrored hook script, drops stale entries that ran an earlier copy of the same script,
    and serialises the settings again with two-space indentation. */
module ClaudeHooks {
  import opened Wrappers
  import opened Text
  import opened Json
  import opened Serialization
  import Reconcile

  const StopEvent: string := "Stop"
  const SubagentStopEvent: string := "SubagentStop"
  const StopScript: string := "stop-hook.sh"
  const SubagentStopScript: string := "subagent-stop-hook.sh"

  /** The members of a JSON object, in order. */
  type Members = seq<(string, Json)>

  // ---------------------------------------------------------------- shell command

  /** `shellDoubleQuote`'s four passes: `\`, `"`, `$` and backtick each get a backslash. */
  function ShellEscape(value: string): string {
    ReplaceAll(ReplaceAll(ReplaceAll(ReplaceAll(value, '\\', "\\\\"), '"', "\\\""), '$', "\\$"), '`', "\\`")
  }

  /** `shellDoubleQuote`. */
  function ShellDoubleQuote(value: string): string {
    "\"" + ShellEscape(value) + "\""
  }

  /** `buildShellCommand`. */
  function BuildShellCommand(scriptPath: string): string {
    "bash " + ShellDoubleQuote(scriptPath)
  }

  /** The characters a backslash protects inside double quotes (POSIX Shell Command
      Language, section 2.2.3, "Double-Quotes"). */
  predicate ShellSpecial(c: char) {
    c == '\\' || c == '"' || c == '$' || c == '`'
  }

  /** The escape of one character. */
  function ShellEscapeChar(c: char): string {
    if ShellSpecial(c) then ['\\', c] else [c]
  }

  /** One character through the four passes: a pass only rewrites its own character, and
      the backslash the first pass adds is not touched again. */
  lemma ShellEscapeOne(c: char)
    ensures ShellEscape([c]) == ShellEscapeChar(c)
  {
    ReplaceAllOne(c, '\\', "\\\\");
    if c == '\\' {
      assert "\\\\" == [c] + [c];
      ReplaceAllPair(c, c, '"', "\\\"");
      ReplaceAllPair(c, c, '$', "\\$");
      ReplaceAllPair(c, c, '`', "\\`");
    } else {
      ReplaceAllOne(c, '"', "\\\"");
      if c == '"' {
        assert "\\\"" == ['\\'] + [c];
        ReplaceAllPair('\\', c, '$', "\\$");
        ReplaceAllPair('\\', c, '`', "\\`");
      } else {
        ReplaceAllOne(c, '$', "\\$");
        if c == '$' {
          assert "\\$" == ['\\'] + [c];
          ReplaceAllPair('\\', c, '`', "\\`");
        } else {
          ReplaceAllOne(c, '`', "\\`");
        }
      }
    }
  }

  lemma ReplaceAllOne(x: char, d: char, rep: string)
    ensures ReplaceAll([x], d, rep) == if x == d then rep else [x]
  {
    assert [x][1..] == [];
  }

  lemma ReplaceAllPair(x: char, y: char, d: char, rep: string)
    requires x != d && y != d
    ensures ReplaceAll([x] + [y], d, rep) == [x] + [y]
  {
    ReplaceAllAppend([x], [y], d, rep);
    ReplaceAllOne(x, d, rep);
    ReplaceAllOne(y, d, rep);
  }

  /** The four passes amount to escaping character by character. */
  lemma ShellEscapeUnfold(value: string)
    requires value != []
    ensures ShellEscape(value) == ShellEscapeChar(value[0]) + ShellEscape(value[1..])
  {
    assert value == [value[0]] + value[1..];
    ShellEscapeAppend([value[0]], value[1..]);
    ShellEscapeOne(value[0]);
  }

  /** Reads the body of a double-quoted shell word up to its closing quote: a backslash
      before a special character stands for that character, a backslash before any other
      character stays, and an unprotected `$` or backtick, which would start an expansion,
      is not read. Yields the literal text and what follows the closing quote. */
  function ReadDoubleQuoted(s: string): Option<(string, string)> {
    if s == [] then None
    else if s[0] == '"' then Some(([], s[1..]))
    else if s[0] == '$' || s[0] == '`' then None
    else if s[0] == '\\' && |s| >= 2 && ShellSpecial(s[1]) then
      match ReadDoubleQuoted(s[2..])
      case None => None
      case Some(r) => Some(([s[1]] + r.0, r.1))
    else
      match ReadDoubleQuoted(s[1..])
      case None => None
      case Some(r) => Some(([s[0]] + r.0, r.1))
  }

  /** The shell reads the quoted value back literally, with no expansion, and stops at the
      quote after it. */
  lemma {:induction false} ReadShellEscaped(value: string, rest: string)
    ensures ReadDoubleQuoted(ShellEscape(value) + "\"" + rest) == Some((value, rest))
  {
    if value == [] {
      assert ShellEscape(value) + "\"" + rest == "\"" + rest;
      assert ("\"" + rest)[1..] == rest;
    } else {
      var c := value[0];
      var tail := ShellEscape(value[1..]) + "\"" + rest;
      ShellEscapeUnfold(value);
      ReadShellEscaped(value[1..], rest);
      ConcatAssoc(ShellEscapeChar(c), ShellEscape(value[1..]) + "\"", rest);
      ConcatAssoc(ShellEscapeChar(c), ShellEscape(value[1..]), "\"");
      ReadEscapedChar(c, tail, (value[1..], rest));
      assert [c] + value[1..] == value;
    }
  }

  /** One escaped character is read back as itself. */
  lemma ReadEscapedChar(c: char, tail: string, r: (string, string))
    requires ReadDoubleQuoted(tail) == Some(r)
    ensures ReadDoubleQuoted(ShellEscapeChar(c) + tail) == Some(([c] + r.0, r.1))
  {
    var x := ShellEscapeChar(c) + tail;
    if ShellSpecial(c) {
      assert x[0] == '\\' && x[1] == c && x[2..] == tail;
    } else {
      assert x[0] == c && x[1..] == tail;
    }
  }

  /** The command runs `bash` on exactly the script path. */
  lemma ShellCommandReadsBack(scriptPath: string)
    ensures var cmd := BuildShellCommand(scriptPath);
      cmd[..6] == "bash \"" && ReadDoubleQuoted(cmd[6..]) == Some((scriptPath, []))
  {
    var cmd := BuildShellCommand(scriptPath);
    assert cmd == "bash \"" + (ShellEscape(scriptPath) + "\"" + []);
    assert cmd[6..] == ShellEscape(scriptPath) + "\"" + [];
    ReadShellEscaped(scriptPath, []);
  }

  /** Different script paths give different commands. */
  lemma ShellCommandInjective(a: string, b: string)
    ensures BuildShellCommand(a) == BuildShellCommand(b) <==> a == b
  {
    ShellCommandReadsBack(a);
    ShellCommandReadsBack(b);
  }

  // ---------------------------------------------------------------- managed commands

  /** `isManagedCommandForScript`: after turning backslashes into slashes, the command
      names the script under `/adapters/claude/` or `/agent-task-notifier/`; a command
      naming the subagent script never counts as the stop script's. */
  predicate IsManagedCommandForScript(command: string, scriptFileName: string) {
    var normalized := ReplaceChar(command, '\\', '/');
    if scriptFileName == StopScript && Contains(normalized, SubagentStopScript) then false
    else
      Contains(normalized, "/adapters/claude/" + scriptFileName)
      || Contains(normalized, "/agent-task-notifier/" + scriptFileName)
  }

  /** A command that mentions the subagent script is never taken for the stop script's. */
  lemma StopNeverMatchesSubagent(command: string)
    requires Contains(ReplaceChar(command, '\\', '/'), SubagentStopScript)
    ensures !IsManagedCommandForScript(command, StopScript)
  {
  }

  lemma {:induction false} ShellEscapeAppend(a: string, b: string)
    ensures ShellEscape(a + b) == ShellEscape(a) + ShellEscape(b)
  {
    ReplaceAllAppend(a, b, '\\', "\\\\");
    var a1 := ReplaceAll(a, '\\', "\\\\");
    var b1 := ReplaceAll(b, '\\', "\\\\");
    ReplaceAllAppend(a1, b1, '"', "\\\"");
    var a2 := ReplaceAll(a1, '"', "\\\"");
    var b2 := ReplaceAll(b1, '"', "\\\"");
    ReplaceAllAppend(a2, b2, '$', "\\$");
    ReplaceAllAppend(ReplaceAll(a2, '$', "\\$"), ReplaceAll(b2, '$', "\\$"), '`', "\\`");
  }

  /** Text without special characters is left as it is. */
  lemma {:induction false} ShellEscapePlain(value: string)
    requires forall i :: 0 <= i < |value| ==> !ShellSpecial(value[i])
    ensures ShellEscape(value) == value
  {
    if value != [] {
      ShellEscapeUnfold(value);
      ShellEscapePlain(value[1..]);
    }
  }

  /** The signature of a mirrored script. */
  function MirrorSignature(scriptFileName: string): string {
    "/agent-task-notifier/" + scriptFileName
  }

  /** Neither signature holds a character the shell quoting touches. */
  lemma SignaturePlain(scriptFileName: string)
    requires scriptFileName == StopScript || scriptFileName == SubagentStopScript
    ensures forall i :: 0 <= i < |MirrorSignature(scriptFileName)| ==> !ShellSpecial(MirrorSignature(scriptFileName)[i])
  {
  }

  /** The command for a script mirrored under any directory is recognised as managed, so a
      stale copy of it is removed. For the stop script this needs the command not to mention
      the subagent script; the subagent script needs nothing. */
  lemma MirroredCommandIsManaged(dir: string, scriptFileName: string)
    requires scriptFileName == StopScript || scriptFileName == SubagentStopScript
    requires scriptFileName == StopScript ==>
      !Contains(ReplaceChar(BuildShellCommand(dir + MirrorSignature(scriptFileName)), '\\', '/'), SubagentStopScript)
    ensures IsManagedCommandForScript(BuildShellCommand(dir + MirrorSignature(scriptFileName)), scriptFileName)
  {
    var sig := MirrorSignature(scriptFileName);
    var head := "bash \"" + ShellEscape(dir);
    var cmd := BuildShellCommand(dir + sig);
    SignaturePlain(scriptFileName);
    var e := ShellEscape(dir + sig);
    assert e == ShellEscape(dir) + sig by {
      ShellEscapeAppend(dir, sig);
      ShellEscapePlain(sig);
    }
    assert cmd == "bash " + ("\"" + e + "\"");
    RegroupCommand(e, ShellEscape(dir), sig);
    var n := ReplaceChar(cmd, '\\', '/');
    var h := ReplaceChar(head, '\\', '/');
    assert n == h + sig + "\"" by {
      ReplaceCharAppend(head + sig, "\"", '\\', '/');
      ReplaceCharAppend(head, sig, '\\', '/');
      assert ReplaceChar(sig, '\\', '/') == sig;
      assert ReplaceChar("\"", '\\', '/') == "\"";
    }
    assert n[|h|..|h| + |sig|] == sig;
    ContainsAt(n, sig, |h|);
  }

  lemma RegroupCommand(e: string, x: string, sig: string)
    requires e == x + sig
    ensures "bash " + ("\"" + e + "\"") == "bash \"" + x + sig + "\""
  {
    assert "bash " + ("\"" + e + "\"") == ("bash " + "\"") + x + sig + "\"";
  }

  // ---------------------------------------------------------------- errors

  const ParseFailure: string := "Failed to parse Claude settings JSON"
  const RootNotObject: string := "Invalid Claude settings JSON: expected an object at root"
  const HooksNotObject: string := "Invalid Claude settings JSON: expected \"hooks\" to be an object"
  const GroupWithoutHooks: string := "Invalid Claude settings JSON: each hook group must include a hooks array"
  const EntryNotObject: string := "Invalid Claude settings JSON: each hook entry must be an object"

  function EventNotArray(eventName: string): string {
    "Invalid Claude settings JSON: expected hooks." + eventName + " to be an array"
  }

  function GroupNotObject(eventName: string, index: nat): string {
    "Invalid Claude settings JSON: expected hooks." + eventName + "[" + DecimalString(index) + "] to be an object"
  }

  // ---------------------------------------------------------------- settings tree

  /** `parseSettingsObject`: blank text is the empty object; otherwise the text must parse,
      and to an object. */
  function ParseSettingsObject(codec: Codec, text: string): (r: Result<Members>)
    ensures IsBlank(text) ==> r == Success([])
    ensures !IsBlank(text) ==> (r.Success? <==> codec.parse(text).Some? && IsRecord(codec.parse(text).value))
    ensures !IsBlank(text) && r.Success? ==> codec.parse(text) == Some(JObject(r.value))
    ensures !IsBlank(text) && codec.parse(text).None? ==> r == Failure(ParseFailure)
    ensures !IsBlank(text) && codec.parse(text).Some? && !IsRecord(codec.parse(text).value) ==> r == Failure(RootNotObject)
  {
    TrimSpec(text);
    if Trim(text) == [] then Success([])
    else match codec.parse(text)
      case None => Failure(ParseFailure)
      case Some(v) => if IsRecord(v) then Success(v.members) else Failure(RootNotObject)
  }

  /** `ensureHooksObject`: the `hooks` member, which may be missing (then it starts out empty)
      but must otherwise be an object. */
  function EnsureHooksObject(root: Members): (r: Result<Members>)
    ensures r.Success? <==> Get(root, "hooks").None? || IsRecord(Get(root, "hooks").value)
    ensures Get(root, "hooks").None? ==> r == Success([])
    ensures r.Success? && Get(root, "hooks").Some? ==> Get(root, "hooks") == Some(JObject(r.value))
    ensures r.Failure? ==> r == Failure(HooksNotObject)
  {
    match Get(root, "hooks")
    case None => Success([])
    case Some(v) => if IsRecord(v) then Success(v.members) else Failure(HooksNotObject)
  }

  /** The index of the first item that is not an object, `|items|` when every item is one. */
  function FirstNonRecord(items: seq<Json>): (k: nat)
    ensures k <= |items| && forall j :: 0 <= j < k ==> IsRecord(items[j])
    ensures k < |items| ==> !IsRecord(items[k])
  {
    if items == [] || !IsRecord(items[0]) then 0 else 1 + FirstNonRecord(items[1..])
  }

  /** The `map` in `normalizeHookGroups`, from index `from` on. */
  function NormalizeEntries(eventName: string, items: seq<Json>, from: nat): (r: Result<seq<Members>>)
    ensures r.Success? <==> forall i :: 0 <= i < |items| ==> IsRecord(items[i])
    ensures r.Success? ==> |r.value| == |items| && forall i :: 0 <= i < |items| ==> JObject(r.value[i]) == items[i]
    ensures r.Failure? ==> r == Failure(GroupNotObject(eventName, from + FirstNonRecord(items)))
    decreases |items|
  {
    if items == [] then Success([])
    else if !IsRecord(items[0]) then Failure(GroupNotObject(eventName, from))
    else
      var rest := NormalizeEntries(eventName, items[1..], from + 1);
      if rest.Failure? then
        rest
      else
        Success([items[0].members] + rest.value)
  }

  /** `normalizeHookGroups`: the groups of one event, which may be missing but must
      otherwise be an array of objects; the first entry that is not an object is named by
      its index. */
  function NormalizeHookGroups(eventName: string, value: Option<Json>): (r: Result<seq<Members>>)
    ensures value.None? ==> r == Success([])
    ensures value.Some? && !value.value.JArray? ==> r == Failure(EventNotArray(eventName))
    ensures value.Some? && value.value.JArray? ==>
      var items := value.value.items;
      (r.Success? <==> forall i :: 0 <= i < |items| ==> IsRecord(items[i]))
      && (r.Success? ==> |r.value| == |items| && forall i :: 0 <= i < |items| ==> JObject(r.value[i]) == items[i])
      && (r.Failure? ==> r == Failure(GroupNotObject(eventName, FirstNonRecord(items))))
  {
    match value
    case None => Success([])
    case Some(v) => if v.JArray? then NormalizeEntries(eventName, v.items, 0) else Failure(EventNotArray(eventName))
  }

  // ---------------------------------------------------------------- hook entries

  /** The command of an entry `{type: 'command', command: <string>}`, if it is one. */
  function CommandOf(hook: Json): Option<string> {
    if IsRecord(hook) && Get(hook.members, "type") == Some(JString("command")) then
      match Get(hook.members, "command")
      case Some(JString(c)) => Some(c)
      case _ => None
    else None
  }

  /** An entry `removeManagedCommands` keeps: anything but a command entry that runs an
      earlier copy of the script; the exact command is always kept. */
  predicate KeepsHook(hook: Json, scriptFileName: string, exactCommand: string) {
    CommandOf(hook).None? || CommandOf(hook).value == exactCommand
    || !IsManagedCommandForScript(CommandOf(hook).value, scriptFileName)
  }

  /** `Success(front + xs)` for a success `xs`; a failure is kept. */
  function Prepend<T>(front: seq<T>, r: Result<seq<T>>): Result<seq<T>> {
    if r.Success? then Success(front + r.value) else r
  }

  /** The inner loop of `removeManagedCommands` over one group's entries. */
  function FilterHooks(hooks: seq<Json>, scriptFileName: string, exactCommand: string): Result<seq<Json>>
    decreases |hooks|
  {
    if hooks == [] then Success([])
    else if !IsRecord(hooks[0]) then Failure(EntryNotObject)
    else Prepend(if KeepsHook(hooks[0], scriptFileName, exactCommand) then [hooks[0]] else [],
                 FilterHooks(hooks[1..], scriptFileName, exactCommand))
  }

  /** The indices are strictly increasing. */
  predicate Increasing(idx: seq<int>) {
    forall a, b :: 0 <= a < b < |idx| ==> idx[a] < idx[b]
  }

  /** `r` is `xs` read at the increasing indices `idx`: a subsequence, in the original
      order, with one element per index. */
  ghost predicate PickedAt<T>(r: seq<T>, xs: seq<T>, idx: seq<int>) {
    |idx| == |r| && Increasing(idx)
    && forall j :: 0 <= j < |idx| ==> 0 <= idx[j] < |xs| && r[j] == xs[idx[j]]
  }

  function Shift(idx: seq<int>): (s: seq<int>)
    ensures |s| == |idx| && forall j :: 0 <= j < |idx| ==> s[j] == idx[j] + 1
  {
    seq(|idx|, j requires 0 <= j < |idx| => idx[j] + 1)
  }

  /** The indices picked from `[x] + xs`: the head or not, then those of the tail moved up
      by one. */
  function ConsIndices(idx: seq<int>, keep: bool): seq<int> {
    (if keep then [0] else []) + Shift(idx)
  }

  lemma ConsIncreasing(idx: seq<int>, keep: bool)
    requires Increasing(idx) && forall j :: 0 <= j < |idx| ==> 0 <= idx[j]
    ensures Increasing(ConsIndices(idx, keep))
  {
    var idx' := ConsIndices(idx, keep);
    var d := if keep then 1 else 0;
    forall a, b | 0 <= a < b < |idx'|
      ensures idx'[a] < idx'[b]
    {
      assert idx'[b] == idx[b - d] + 1;
      if a >= d {
        assert idx'[a] == idx[a - d] + 1;
      }
    }
  }

  lemma ConsMembers(idx: seq<int>, keep: bool, n: nat)
    requires forall j :: 0 <= j < |idx| ==> 0 <= idx[j]
    ensures (0 in ConsIndices(idx, keep) <==> keep)
    ensures forall i :: 1 <= i <= n ==> (i in ConsIndices(idx, keep) <==> i - 1 in idx)
  {
    var idx' := ConsIndices(idx, keep);
    var d := if keep then 1 else 0;
    forall i | 1 <= i <= n
      ensures i in idx' <==> i - 1 in idx
    {
      if i in idx' {
        var j :| 0 <= j < |idx'| && idx'[j] == i;
        assert idx'[j] == idx[j - d] + 1;
      }
      if i - 1 in idx {
        var j :| 0 <= j < |idx| && idx[j] == i - 1;
        assert idx'[j + d] == i;
      }
    }
    if 0 in idx' {
      var j :| 0 <= j < |idx'| && idx'[j] == 0;
      assert j < d;
    }
  }

  /** Picking from `[x] + xs`: the head is picked or not, and the tail is picked as before. */
  lemma PickedCons<T>(x: T, xs: seq<T>, r: seq<T>, idx: seq<int>, keep: bool)
    requires PickedAt(r, xs, idx)
    ensures PickedAt((if keep then [x] else []) + r, [x] + xs, ConsIndices(idx, keep))
    ensures 0 in ConsIndices(idx, keep) <==> keep
    ensures forall i :: 1 <= i <= |xs| ==> (i in ConsIndices(idx, keep) <==> i - 1 in idx)
  {
    var idx' := ConsIndices(idx, keep);
    var r' := (if keep then [x] else []) + r;
    var d := if keep then 1 else 0;
    ConsIncreasing(idx, keep);
    ConsMembers(idx, keep, |xs|);
    forall j | 0 <= j < |idx'|
      ensures 0 <= idx'[j] < |[x] + xs| && r'[j] == ([x] + xs)[idx'[j]]
    {
      if j >= d {
        assert idx'[j] == idx[j - d] + 1 && r'[j] == r[j - d];
      }
    }
  }

  /** One entry of the filter: the head is kept or not, in front of what the rest keeps. */
  lemma FilterHooksCons(hooks: seq<Json>, scriptFileName: string, exactCommand: string)
    requires hooks != [] && FilterHooks(hooks, scriptFileName, exactCommand).Success?
    ensures FilterHooks(hooks[1..], scriptFileName, exactCommand).Success?
    ensures FilterHooks(hooks, scriptFileName, exactCommand).value
      == (if KeepsHook(hooks[0], scriptFileName, exactCommand) then [hooks[0]] else [])
         + FilterHooks(hooks[1..], scriptFileName, exactCommand).value
  {
  }

  lemma KeptHookIndicesCons(hooks: seq<Json>, idx: seq<int>, keep: bool, scriptFileName: string, exactCommand: string)
    requires hooks != [] && keep == KeepsHook(hooks[0], scriptFileName, exactCommand)
    requires forall j :: 0 <= j < |idx| ==> 0 <= idx[j]
    requires forall i :: 0 <= i < |hooks[1..]| ==> (i in idx <==> KeepsHook(hooks[1..][i], scriptFileName, exactCommand))
    ensures forall i :: 0 <= i < |hooks| ==> (i in ConsIndices(idx, keep) <==> KeepsHook(hooks[i], scriptFileName, exactCommand))
  {
    ConsMembers(idx, keep, |hooks| - 1);
    forall i | 0 <= i < |hooks|
      ensures i in ConsIndices(idx, keep) <==> KeepsHook(hooks[i], scriptFileName, exactCommand)
    {
      if i > 0 {
        assert hooks[i] == hooks[1..][i - 1];
      }
    }
  }

  /** The entries the filter keeps are picked at exactly the indices of the kept entries. */
  lemma {:induction false} FilterHooksPicked(hooks: seq<Json>, scriptFileName: string, exactCommand: string)
    requires FilterHooks(hooks, scriptFileName, exactCommand).Success?
    ensures exists idx ::
      PickedAt(FilterHooks(hooks, scriptFileName, exactCommand).value, hooks, idx)
      && forall i :: 0 <= i < |hooks| ==> (i in idx <==> KeepsHook(hooks[i], scriptFileName, exactCommand))
    decreases |hooks|
  {
    if hooks == [] {
      assert PickedAt([], hooks, []);
    } else {
      FilterHooksCons(hooks, scriptFileName, exactCommand);
      FilterHooksPicked(hooks[1..], scriptFileName, exactCommand);
      var rest := FilterHooks(hooks[1..], scriptFileName, exactCommand).value;
      var idx :| PickedAt(rest, hooks[1..], idx)
        && forall i :: 0 <= i < |hooks[1..]| ==> (i in idx <==> KeepsHook(hooks[1..][i], scriptFileName, exactCommand));
      var keep := KeepsHook(hooks[0], scriptFileName, exactCommand);
      PickedCons(hooks[0], hooks[1..], rest, idx, keep);
      assert [hooks[0]] + hooks[1..] == hooks;
      KeptHookIndicesCons(hooks, idx, keep, scriptFileName, exactCommand);
      assert PickedAt(FilterHooks(hooks, scriptFileName, exactCommand).value, hooks, ConsIndices(idx, keep));
    }
  }

  /** The entries of a group are accepted exactly when all are objects, and then the kept
      ones are those that were there and are not stale, in their original order and with
      their multiplicity: the result picks exactly the indices of the kept entries. */
  lemma {:induction false} FilterHooksSpec(hooks: seq<Json>, scriptFileName: string, exactCommand: string)
    ensures var r := FilterHooks(hooks, scriptFileName, exactCommand);
      (r.Success? <==> forall i :: 0 <= i < |hooks| ==> IsRecord(hooks[i]))
      && (r.Failure? ==> r == Failure(EntryNotObject))
      && (r.Success? ==> forall x :: x in r.value <==> x in hooks && KeepsHook(x, scriptFileName, exactCommand))
      && (r.Success? ==>
            exists idx :: PickedAt(r.value, hooks, idx)
              && forall i :: 0 <= i < |hooks| ==> (i in idx <==> KeepsHook(hooks[i], scriptFileName, exactCommand)))
    decreases |hooks|
  {
    if hooks != [] && IsRecord(hooks[0]) {
      FilterHooksSpec(hooks[1..], scriptFileName, exactCommand);
      assert hooks == [hooks[0]] + hooks[1..];
    }
    if FilterHooks(hooks, scriptFileName, exactCommand).Success? {
      FilterHooksPicked(hooks, scriptFileName, exactCommand);
    }
  }

  /** Entries with nothing stale come through unchanged. */
  lemma {:induction false} FilterHooksClean(hooks: seq<Json>, scriptFileName: string, exactCommand: string)
    requires forall i :: 0 <= i < |hooks| ==> IsRecord(hooks[i]) && KeepsHook(hooks[i], scriptFileName, exactCommand)
    ensures FilterHooks(hooks, scriptFileName, exactCommand) == Success(hooks)
    decreases |hooks|
  {
    if hooks != [] {
      FilterHooksClean(hooks[1..], scriptFileName, exactCommand);
      assert [hooks[0]] + hooks[1..] == hooks;
    }
  }

  /** The entries of a group whose `hooks` is an array; none otherwise. */
  function Entries(group: Members): seq<Json> {
    match Get(group, "hooks")
    case Some(JArray(hs)) => hs
    case _ => []
  }

  /** A group `removeManagedCommands` accepts: its `hooks` is an array of objects. */
  predicate WellFormedGroup(group: Members) {
    match Get(group, "hooks")
    case Some(JArray(hs)) => forall i :: 0 <= i < |hs| ==> IsRecord(hs[i])
    case _ => false
  }

  /** A group `removeManagedCommands` leaves as it is: entries, all objects and none of them
      stale. */
  predicate CleanGroup(group: Members, scriptFileName: string, exactCommand: string) {
    match Get(group, "hooks")
    case Some(JArray(hs)) =>
      hs != [] && forall i :: 0 <= i < |hs| ==> IsRecord(hs[i]) && KeepsHook(hs[i], scriptFileName, exactCommand)
    case _ => false
  }

  /** One step of the outer loop of `removeManagedCommands`: the group with its stale
      entries dropped and every other member kept in place, or nothing when no entry is
      left. */
  function RemovedGroup(group: Members, scriptFileName: string, exactCommand: string): Result<seq<Members>> {
    match Get(group, "hooks")
    case Some(JArray(hs)) =>
      (match FilterHooks(hs, scriptFileName, exactCommand)
       case Failure(e) => Failure(e)
       case Success(kept) => Success(if kept == [] then [] else [Set(group, "hooks", JArray(kept))]))
    case _ => Failure(GroupWithoutHooks)
  }

  /** A group is accepted exactly when it is well formed, and what is left of it is clean. */
  lemma RemovedGroupSpec(group: Members, scriptFileName: string, exactCommand: string)
    ensures var r := RemovedGroup(group, scriptFileName, exactCommand);
      (r.Success? <==> WellFormedGroup(group))
      && (r.Failure? ==> r == Failure(GroupWithoutHooks) || r == Failure(EntryNotObject))
      && (r.Success? ==> |r.value| <= 1 && forall i :: 0 <= i < |r.value| ==> CleanGroup(r.value[i], scriptFileName, exactCommand))
  {
    match Get(group, "hooks")
    case Some(JArray(hs)) =>
      FilterHooksSpec(hs, scriptFileName, exactCommand);
      var f := FilterHooks(hs, scriptFileName, exactCommand);
      if f.Success? && f.value != [] {
        var g := Set(group, "hooks", JArray(f.value));
        assert Get(g, "hooks") == Some(JArray(f.value));
        assert forall i :: 0 <= i < |f.value| ==> f.value[i] in hs && KeepsHook(f.value[i], scriptFileName, exactCommand);
      }
    case _ =>
  }

  /** A clean group is left as it is. */
  lemma RemovedGroupClean(group: Members, scriptFileName: string, exactCommand: string)
    requires CleanGroup(group, scriptFileName, exactCommand)
    ensures RemovedGroup(group, scriptFileName, exactCommand) == Success([group])
  {
    FilterHooksClean(Entries(group), scriptFileName, exactCommand);
    SetExisting(group, "hooks");
  }

  /** `removeManagedCommands` as a function of the groups. */
  function RemovedGroups(groups: seq<Members>, scriptFileName: string, exactCommand: string): Result<seq<Members>>
    decreases |groups|
  {
    if groups == [] then Success([])
    else
      var first := RemovedGroup(groups[0], scriptFileName, exactCommand);
      if first.Failure? then first
      else Prepend(first.value, RemovedGroups(groups[1..], scriptFileName, exactCommand))
  }

  /** The groups are accepted exactly when all are well formed; the error names the first
      ill-formed part; every group left is clean. */
  lemma {:induction false} RemovedGroupsSpec(groups: seq<Members>, scriptFileName: string, exactCommand: string)
    ensures var r := RemovedGroups(groups, scriptFileName, exactCommand);
      (r.Success? <==> forall i :: 0 <= i < |groups| ==> WellFormedGroup(groups[i]))
      && (r.Failure? ==> r == Failure(GroupWithoutHooks) || r == Failure(EntryNotObject))
      && (r.Success? ==> forall i :: 0 <= i < |r.value| ==> CleanGroup(r.value[i], scriptFileName, exactCommand))
    decreases |groups|
  {
    if groups != [] {
      RemovedGroupSpec(groups[0], scriptFileName, exactCommand);
      RemovedGroupsSpec(groups[1..], scriptFileName, exactCommand);
      var first := RemovedGroup(groups[0], scriptFileName, exactCommand);
      var rest := RemovedGroups(groups[1..], scriptFileName, exactCommand);
      assert forall i :: 1 <= i < |groups| ==> groups[i] == groups[1..][i - 1];
      if first.Success? && rest.Success? {
        var r := first.value + rest.value;
        forall i | 0 <= i < |r|
          ensures CleanGroup(r[i], scriptFileName, exactCommand)
        {
          if i >= |first.value| {
            assert r[i] == rest.value[i - |first.value|];
          }
        }
      }
    }
  }

  /** Clean groups are left as they are: removing twice is removing once. */
  lemma {:induction false} RemovedGroupsClean(groups: seq<Members>, scriptFileName: string, exactCommand: string)
    requires forall i :: 0 <= i < |groups| ==> CleanGroup(groups[i], scriptFileName, exactCommand)
    ensures RemovedGroups(groups, scriptFileName, exactCommand) == Success(groups)
    decreases |groups|
  {
    if groups != [] {
      RemovedGroupClean(groups[0], scriptFileName, exactCommand);
      RemovedGroupsClean(groups[1..], scriptFileName, exactCommand);
      assert [groups[0]] + groups[1..] == groups;
    }
  }

  /** Prepending in two steps is prepending the concatenation. */
  lemma PrependPrepend<T>(front: seq<T>, more: seq<T>, r: Result<seq<T>>)
    ensures Prepend(front, Prepend(more, r)) == Prepend(front + more, r)
  {
    if r.Success? {
      assert front + (more + r.value) == (front + more) + r.value;
    }
  }

  lemma PrependNothing<T>(r: Result<seq<T>>)
    ensures Prepend([], r) == r
  {
    if r.Success? {
      assert [] + r.value == r.value;
    }
  }

  /** One entry of the inner loop: a failure at an entry that is not an object, else the
      entry is kept or dropped and the loop goes on. */
  lemma FilterStep(hooks: seq<Json>, i: nat, front: seq<Json>, scriptFileName: string, exactCommand: string)
    requires i < |hooks|
    ensures !IsRecord(hooks[i]) ==> FilterHooks(hooks[i..], scriptFileName, exactCommand) == Failure(EntryNotObject)
    ensures IsRecord(hooks[i]) ==>
      Prepend(front, FilterHooks(hooks[i..], scriptFileName, exactCommand))
      == Prepend(front + (if KeepsHook(hooks[i], scriptFileName, exactCommand) then [hooks[i]] else []),
                 FilterHooks(hooks[i + 1..], scriptFileName, exactCommand))
  {
    assert hooks[i..][0] == hooks[i] && hooks[i..][1..] == hooks[i + 1..];
    PrependPrepend(front, if KeepsHook(hooks[i], scriptFileName, exactCommand) then [hooks[i]] else [],
                   FilterHooks(hooks[i + 1..], scriptFileName, exactCommand));
  }

  /** One group of the outer loop: a failure, or the group's contribution and the loop
      goes on. */
  lemma RemovedStep(groups: seq<Members>, i: nat, front: seq<Members>, scriptFileName: string, exactCommand: string)
    requires i < |groups|
    ensures RemovedGroup(groups[i], scriptFileName, exactCommand).Failure? ==>
      RemovedGroups(groups[i..], scriptFileName, exactCommand) == RemovedGroup(groups[i], scriptFileName, exactCommand)
    ensures RemovedGroup(groups[i], scriptFileName, exactCommand).Success? ==>
      Prepend(front, RemovedGroups(groups[i..], scriptFileName, exactCommand))
      == Prepend(front + RemovedGroup(groups[i], scriptFileName, exactCommand).value,
                 RemovedGroups(groups[i + 1..], scriptFileName, exactCommand))
  {
    assert groups[i..][0] == groups[i] && groups[i..][1..] == groups[i + 1..];
    var first := RemovedGroup(groups[i], scriptFileName, exactCommand);
    if first.Success? {
      PrependPrepend(front, first.value, RemovedGroups(groups[i + 1..], scriptFileName, exactCommand));
    }
  }

  /** The inner loop of `removeManagedCommands`. */
  method FilterGroupHooks(hooksValue: seq<Json>, scriptFileName: string, exactCommand: string) returns (r: Result<seq<Json>>)
    ensures r == FilterHooks(hooksValue, scriptFileName, exactCommand)
  {
    var nextHooks: seq<Json> := [];
    assert hooksValue[0..] == hooksValue;
    PrependNothing(FilterHooks(hooksValue, scriptFileName, exactCommand));
    for index := 0 to |hooksValue|
      invariant Prepend(nextHooks, FilterHooks(hooksValue[index..], scriptFileName, exactCommand))
        == FilterHooks(hooksValue, scriptFileName, exactCommand)
    {
      var hook := hooksValue[index];
      FilterStep(hooksValue, index, nextHooks, scriptFileName, exactCommand);
      if !IsRecord(hook) {
        return Failure(EntryNotObject);
      }
      var hookType := Get(hook.members, "type");
      var hookCommand := Get(hook.members, "command");
      if hookType == Some(JString("command")) && hookCommand.Some? && hookCommand.value.JString? {
        assert CommandOf(hook) == Some(hookCommand.value.s);
        if hookCommand.value.s == exactCommand {
          nextHooks := nextHooks + [hook];
          continue;
        }
        if IsManagedCommandForScript(hookCommand.value.s, scriptFileName) {
          assert nextHooks + [] == nextHooks;
          continue;
        }
      } else {
        assert CommandOf(hook).None?;
      }
      nextHooks := nextHooks + [hook];
    }
    assert hooksValue[|hooksValue|..] == [];
    assert nextHooks + [] == nextHooks;
    return Success(nextHooks);
  }

  /** `removeManagedCommands`: drops, group by group, the entries that run an earlier copy
      of the script, and the groups left without entries. */
  method RemoveManagedCommands(groups: seq<Members>, scriptFileName: string, exactCommand: string)
    returns (r: Result<seq<Members>>)
    ensures r == RemovedGroups(groups, scriptFileName, exactCommand)
  {
    var nextGroups: seq<Members> := [];
    assert groups[0..] == groups;
    PrependNothing(RemovedGroups(groups, scriptFileName, exactCommand));
    for i := 0 to |groups|
      invariant Prepend(nextGroups, RemovedGroups(groups[i..], scriptFileName, exactCommand))
        == RemovedGroups(groups, scriptFileName, exactCommand)
    {
      var group := groups[i];
      RemovedStep(groups, i, nextGroups, scriptFileName, exactCommand);
      var hooksValue := Get(group, "hooks");
      if !(hooksValue.Some? && hooksValue.value.JArray?) {
        return Failure(GroupWithoutHooks);
      }
      var nextHooks := FilterGroupHooks(hooksValue.value.items, scriptFileName, exactCommand);
      if nextHooks.Failure? {
        return Failure(nextHooks.error);
      }
      assert RemovedGroup(group, scriptFileName, exactCommand)
        == Success(if nextHooks.value == [] then [] else [Set(group, "hooks", JArray(nextHooks.value))]);
      if |nextHooks.value| == 0 {
        assert nextGroups + [] == nextGroups;
        continue;
      }
      nextGroups := nextGroups + [Set(group, "hooks", JArray(nextHooks.value))];
    }
    assert groups[|groups|..] == [];
    assert nextGroups + [] == nextGroups;
    return Success(nextGroups);
  }

  // ---------------------------------------------------------------- exact command

  /** The group has an entry running exactly `command`. */
  predicate GroupHasExact(group: Members, command: string) {
    exists j :: 0 <= j < |Entries(group)| && CommandOf(Entries(group)[j]) == Some(command)
  }

  /** `hasExactCommand`: some group has an entry running exactly `command`; groups whose
      `hooks` is not an array and entries that are not objects are passed over. */
  predicate HasExact(groups: seq<Members>, command: string) {
    exists i :: 0 <= i < |groups| && GroupHasExact(groups[i], command)
  }

  /** `hasExactCommand`. */
  method HasExactCommand(groups: seq<Members>, command: string) returns (found: bool)
    ensures found == HasExact(groups, command)
  {
    for i := 0 to |groups|
      invariant forall k :: 0 <= k < i ==> !GroupHasExact(groups[k], command)
    {
      var hooksValue := Get(groups[i], "hooks");
      if !(hooksValue.Some? && hooksValue.value.JArray?) {
        continue;
      }
      var hs := hooksValue.value.items;
      assert hs == Entries(groups[i]);
      for j := 0 to |hs|
        invariant forall m :: 0 <= m < j ==> CommandOf(hs[m]) != Some(command)
      {
        var hook := hs[j];
        if !IsRecord(hook) {
          continue;
        }
        if Get(hook.members, "type") == Some(JString("command")) && Get(hook.members, "command") == Some(JString(command)) {
          assert CommandOf(hs[j]) == Some(command);
          assert GroupHasExact(groups[i], command);
          return true;
        }
      }
    }
    return false;
  }

  /** The entry is in one of the groups. */
  predicate InSomeGroup(groups: seq<Members>, x: Json) {
    exists i :: 0 <= i < |groups| && x in Entries(groups[i])
  }

  lemma InSomeGroupConcat(a: seq<Members>, b: seq<Members>)
    ensures forall x :: InSomeGroup(a + b, x) <==> InSomeGroup(a, x) || InSomeGroup(b, x)
  {
    forall x
      ensures InSomeGroup(a + b, x) <==> InSomeGroup(a, x) || InSomeGroup(b, x)
    {
      if InSomeGroup(a + b, x) {
        var i :| 0 <= i < |a + b| && x in Entries((a + b)[i]);
        if i >= |a| {
          assert (a + b)[i] == b[i - |a|];
        }
      }
      if InSomeGroup(b, x) {
        var i :| 0 <= i < |b| && x in Entries(b[i]);
        assert (a + b)[|a| + i] == b[i];
      }
      if InSomeGroup(a, x) {
        var i :| 0 <= i < |a| && x in Entries(a[i]);
        assert (a + b)[i] == a[i];
      }
    }
  }

  lemma InSomeGroupSingle(group: Members)
    ensures forall x :: InSomeGroup([group], x) <==> x in Entries(group)
  {
    forall x | x in Entries(group)
      ensures InSomeGroup([group], x)
    {
      assert [group][0] == group;
    }
  }

  /** The entries removal keeps from a group, in order; none when the group is rejected. */
  function KeptEntries(group: Members, scriptFileName: string, exactCommand: string): seq<Json> {
    match FilterHooks(Entries(group), scriptFileName, exactCommand)
    case Success(kept) => kept
    case Failure(_) => []
  }

  /** The group with only the entries removal keeps. */
  function Trimmed(group: Members, scriptFileName: string, exactCommand: string): Members {
    Set(group, "hooks", JArray(KeptEntries(group, scriptFileName, exactCommand)))
  }

  /** Every group trimmed, before the emptied ones are dropped. */
  function TrimmedAll(groups: seq<Members>, scriptFileName: string, exactCommand: string): (r: seq<Members>)
    ensures |r| == |groups| && forall i :: 0 <= i < |groups| ==> r[i] == Trimmed(groups[i], scriptFileName, exactCommand)
  {
    seq(|groups|, i requires 0 <= i < |groups| => Trimmed(groups[i], scriptFileName, exactCommand))
  }

  /** What is left of a group holds exactly its entries that are not stale, and it is the
      group itself with its kept entries (in order, as `FilterHooksSpec` states) written
      back: every other member keeps its value and its place. A group with no entry left
      is dropped. */
  lemma RemovedGroupEntries(group: Members, scriptFileName: string, exactCommand: string)
    requires RemovedGroup(group, scriptFileName, exactCommand).Success?
    ensures forall x :: (InSomeGroup(RemovedGroup(group, scriptFileName, exactCommand).value, x)
                         <==> x in Entries(group) && KeepsHook(x, scriptFileName, exactCommand))
    ensures var r := RemovedGroup(group, scriptFileName, exactCommand).value;
      (r == [] <==> KeptEntries(group, scriptFileName, exactCommand) == [])
      && (r != [] ==> |r| == 1 && Entries(r[0]) == KeptEntries(group, scriptFileName, exactCommand)
                      && Keys(r[0]) == Keys(group)
                      && forall k :: k != "hooks" ==> Get(r[0], k) == Get(group, k))
  {
    var hs := Entries(group);
    FilterHooksSpec(hs, scriptFileName, exactCommand);
    var kept := FilterHooks(hs, scriptFileName, exactCommand).value;
    var r := RemovedGroup(group, scriptFileName, exactCommand).value;
    if kept != [] {
      assert r == [Set(group, "hooks", JArray(kept))];
      assert Entries(r[0]) == kept;
      SetKeys(group, "hooks", JArray(kept));
    }
    forall x
      ensures InSomeGroup(r, x) <==> x in hs && KeepsHook(x, scriptFileName, exactCommand)
    {
      if x in hs && KeepsHook(x, scriptFileName, exactCommand) {
        assert x in Entries(r[0]);
      }
    }
  }

  /** A group that removal accepts contributes its trimmed self, or nothing when emptied. */
  lemma RemovedGroupTrimmed(group: Members, scriptFileName: string, exactCommand: string)
    requires RemovedGroup(group, scriptFileName, exactCommand).Success?
    ensures RemovedGroup(group, scriptFileName, exactCommand).value
      == if KeptEntries(group, scriptFileName, exactCommand) == [] then [] else [Trimmed(group, scriptFileName, exactCommand)]
  {
  }

  lemma TrimmedAllCons(groups: seq<Members>, scriptFileName: string, exactCommand: string)
    requires groups != []
    ensures TrimmedAll(groups, scriptFileName, exactCommand)
      == [Trimmed(groups[0], scriptFileName, exactCommand)] + TrimmedAll(groups[1..], scriptFileName, exactCommand)
  {
    var all := TrimmedAll(groups, scriptFileName, exactCommand);
    var tail := TrimmedAll(groups[1..], scriptFileName, exactCommand);
    forall i | 0 <= i < |all|
      ensures all[i] == ([Trimmed(groups[0], scriptFileName, exactCommand)] + tail)[i]
    {
      if i > 0 {
        assert groups[i] == groups[1..][i - 1];
      }
    }
  }

  lemma KeptIndicesCons(groups: seq<Members>, idx: seq<int>, keep: bool, scriptFileName: string, exactCommand: string)
    requires groups != [] && keep == (KeptEntries(groups[0], scriptFileName, exactCommand) != [])
    requires forall j :: 0 <= j < |idx| ==> 0 <= idx[j]
    requires forall i :: 0 <= i < |groups[1..]| ==> (i in idx <==> KeptEntries(groups[1..][i], scriptFileName, exactCommand) != [])
    ensures forall i :: 0 <= i < |groups| ==> (i in ConsIndices(idx, keep) <==> KeptEntries(groups[i], scriptFileName, exactCommand) != [])
  {
    ConsMembers(idx, keep, |groups| - 1);
    forall i | 0 <= i < |groups|
      ensures i in ConsIndices(idx, keep) <==> KeptEntries(groups[i], scriptFileName, exactCommand) != []
    {
      if i > 0 {
        assert groups[i] == groups[1..][i - 1];
      }
    }
  }

  /** The surviving groups are the trimmed groups, in their original order, at exactly the
      indices whose group keeps an entry. */
  lemma {:induction false} RemovedGroupsOrder(groups: seq<Members>, scriptFileName: string, exactCommand: string)
    requires RemovedGroups(groups, scriptFileName, exactCommand).Success?
    ensures exists idx ::
      PickedAt(RemovedGroups(groups, scriptFileName, exactCommand).value, TrimmedAll(groups, scriptFileName, exactCommand), idx)
      && forall i :: 0 <= i < |groups| ==> (i in idx <==> KeptEntries(groups[i], scriptFileName, exactCommand) != [])
    decreases |groups|
  {
    var all := TrimmedAll(groups, scriptFileName, exactCommand);
    if groups == [] {
      assert PickedAt([], all, []);
    } else {
      var g := groups[0];
      RemovedGroupsOrder(groups[1..], scriptFileName, exactCommand);
      var rest := RemovedGroups(groups[1..], scriptFileName, exactCommand).value;
      var tail := TrimmedAll(groups[1..], scriptFileName, exactCommand);
      var idx :| PickedAt(rest, tail, idx)
        && forall i :: 0 <= i < |groups[1..]| ==> (i in idx <==> KeptEntries(groups[1..][i], scriptFileName, exactCommand) != []);
      var keep := KeptEntries(g, scriptFileName, exactCommand) != [];
      var t := Trimmed(g, scriptFileName, exactCommand);
      RemovedGroupTrimmed(g, scriptFileName, exactCommand);
      var whole := RemovedGroups(groups, scriptFileName, exactCommand).value;
      assert whole == (if keep then [t] else []) + rest;
      PickedCons(t, tail, rest, idx, keep);
      TrimmedAllCons(groups, scriptFileName, exactCommand);
      var idx' := ConsIndices(idx, keep);
      KeptIndicesCons(groups, idx, keep, scriptFileName, exactCommand);
      assert PickedAt(whole, all, idx');
    }
  }

  /** An entry survives removal exactly when it was in one of the groups and is not a
      stale copy of the managed command; the surviving groups are the trimmed groups in
      their original order, at exactly the indices whose group keeps an entry. */
  lemma {:induction false} RemovedEntries(groups: seq<Members>, scriptFileName: string, exactCommand: string)
    requires RemovedGroups(groups, scriptFileName, exactCommand).Success?
    ensures forall x :: (InSomeGroup(RemovedGroups(groups, scriptFileName, exactCommand).value, x)
                         <==> InSomeGroup(groups, x) && KeepsHook(x, scriptFileName, exactCommand))
    ensures exists idx ::
      PickedAt(RemovedGroups(groups, scriptFileName, exactCommand).value, TrimmedAll(groups, scriptFileName, exactCommand), idx)
      && forall i :: 0 <= i < |groups| ==> (i in idx <==> KeptEntries(groups[i], scriptFileName, exactCommand) != [])
    decreases |groups|
  {
    RemovedGroupsOrder(groups, scriptFileName, exactCommand);
    if groups != [] {
      var first := RemovedGroup(groups[0], scriptFileName, exactCommand).value;
      var rest := RemovedGroups(groups[1..], scriptFileName, exactCommand).value;
      RemovedGroupEntries(groups[0], scriptFileName, exactCommand);
      RemovedEntries(groups[1..], scriptFileName, exactCommand);
      InSomeGroupConcat(first, rest);
      InSomeGroupConcat([groups[0]], groups[1..]);
      assert [groups[0]] + groups[1..] == groups;
      InSomeGroupSingle(groups[0]);
    }
  }

  /** An entry running the exact command is one `hasExactCommand` finds, and conversely. */
  lemma HasExactIn(groups: seq<Members>, command: string)
    ensures HasExact(groups, command) <==> exists x :: InSomeGroup(groups, x) && CommandOf(x) == Some(command)
  {
    if HasExact(groups, command) {
      var i :| 0 <= i < |groups| && GroupHasExact(groups[i], command);
      var j :| 0 <= j < |Entries(groups[i])| && CommandOf(Entries(groups[i])[j]) == Some(command);
      assert InSomeGroup(groups, Entries(groups[i])[j]);
    }
    if exists x :: InSomeGroup(groups, x) && CommandOf(x) == Some(command) {
      var x :| InSomeGroup(groups, x) && CommandOf(x) == Some(command);
      var i :| 0 <= i < |groups| && x in Entries(groups[i]);
      var j :| 0 <= j < |Entries(groups[i])| && Entries(groups[i])[j] == x;
      assert GroupHasExact(groups[i], command);
    }
  }

  /** Removal keeps every entry running the exact command. */
  lemma RemovedKeepsExact(groups: seq<Members>, scriptFileName: string, exactCommand: string)
    requires RemovedGroups(groups, scriptFileName, exactCommand).Success?
    ensures HasExact(RemovedGroups(groups, scriptFileName, exactCommand).value, exactCommand) <==> HasExact(groups, exactCommand)
  {
    RemovedEntries(groups, scriptFileName, exactCommand);
    HasExactIn(groups, exactCommand);
    HasExactIn(RemovedGroups(groups, scriptFileName, exactCommand).value, exactCommand);
  }

  // ---------------------------------------------------------------- upsert

  /** The entry `{type: 'command', command}`. */
  function ManagedEntry(command: string): Json {
    JObject([("type", JString("command")), ("command", JString(command))])
  }

  /** The group `{hooks: [{type: 'command', command}]}` that `upsertCommandHook` appends. */
  function ManagedGroup(command: string): Members {
    [("hooks", JArray([ManagedEntry(command)]))]
  }

  /** The managed group is appended only when no entry already runs the command. */
  function WithManaged(groups: seq<Members>, command: string): seq<Members> {
    if HasExact(groups, command) then groups else groups + [ManagedGroup(command)]
  }

  /** The groups as a JSON array. */
  function GroupsJson(groups: seq<Members>): (items: seq<Json>)
    ensures |items| == |groups| && forall i :: 0 <= i < |groups| ==> items[i] == JObject(groups[i])
  {
    seq(|groups|, i requires 0 <= i < |groups| => JObject(groups[i]))
  }

  /** `upsertCommandHook` as a function of the hooks object it updates. */
  function Upserted(hooks: Members, eventName: string, command: string, scriptFileName: string): Result<Members> {
    var groups := NormalizeHookGroups(eventName, Get(hooks, eventName));
    if groups.Failure? then Failure(groups.error)
    else
      var without := RemovedGroups(groups.value, scriptFileName, command);
      if without.Failure? then Failure(without.error)
      else Success(Set(hooks, eventName, JArray(GroupsJson(WithManaged(without.value, command)))))
  }

  /** The groups stored under the event, read back as `normalizeHookGroups` reads them. */
  function EventGroups(hooks: Members, eventName: string): Result<seq<Members>> {
    NormalizeHookGroups(eventName, Get(hooks, eventName))
  }

  /** The groups written back read as themselves. */
  lemma ReadBackGroups(eventName: string, groups: seq<Members>)
    ensures NormalizeHookGroups(eventName, Some(JArray(GroupsJson(groups)))) == Success(groups)
  {
    var items := GroupsJson(groups);
    assert forall i :: 0 <= i < |items| ==> IsRecord(items[i]);
    var r := NormalizeHookGroups(eventName, Some(JArray(items)));
    assert forall i :: 0 <= i < |groups| ==> JObject(r.value[i]) == JObject(groups[i]);
    assert r.value == groups;
  }

  /** The managed group is clean and runs the command. */
  lemma ManagedGroupClean(command: string, scriptFileName: string)
    ensures CleanGroup(ManagedGroup(command), scriptFileName, command)
    ensures GroupHasExact(ManagedGroup(command), command)
  {
    var ms := ManagedEntry(command).members;
    assert Get(ms, "type") == Some(JString("command"));
    assert ms[1..] == [("command", JString(command))];
    assert Get(ms, "command") == Some(JString(command));
    assert CommandOf(ManagedEntry(command)) == Some(command);
    assert Entries(ManagedGroup(command)) == [ManagedEntry(command)];
    assert Entries(ManagedGroup(command))[0] == ManagedEntry(command);
  }

  /** The groups after the upsert hold the command, and nothing stale. */
  lemma WithManagedSpec(groups: seq<Members>, command: string, scriptFileName: string)
    requires forall i :: 0 <= i < |groups| ==> CleanGroup(groups[i], scriptFileName, command)
    ensures HasExact(WithManaged(groups, command), command)
    ensures forall i :: 0 <= i < |WithManaged(groups, command)| ==> CleanGroup(WithManaged(groups, command)[i], scriptFileName, command)
  {
    ManagedGroupClean(command, scriptFileName);
    if !HasExact(groups, command) {
      var w := groups + [ManagedGroup(command)];
      assert w[|groups|] == ManagedGroup(command);
    }
  }

  /** The upsert succeeds exactly when the event is missing or is an array of groups that
      `removeManagedCommands` accepts; it writes only the event's key, which keeps its
      place; and the groups stored there run the command and hold no stale entry. */
  lemma UpsertedSpec(hooks: Members, eventName: string, command: string, scriptFileName: string)
    ensures var r := Upserted(hooks, eventName, command, scriptFileName);
      (r.Success? <==>
         match Get(hooks, eventName)
         case None => true
         case Some(v) => v.JArray? && forall i :: 0 <= i < |v.items| ==> v.items[i].JObject? && WellFormedGroup(v.items[i].members))
      && (r.Success? ==> forall k :: k != eventName ==> Get(r.value, k) == Get(hooks, k))
      && (r.Success? ==> Keys(r.value) == Keys(hooks) || Keys(r.value) == Keys(hooks) + [eventName])
      && (r.Success? ==>
            var after := EventGroups(r.value, eventName);
            after.Success? && HasExact(after.value, command)
            && forall i :: 0 <= i < |after.value| ==> CleanGroup(after.value[i], scriptFileName, command))
  {
    var r := Upserted(hooks, eventName, command, scriptFileName);
    var groups := EventGroups(hooks, eventName);
    if groups.Success? {
      RemovedGroupsSpec(groups.value, scriptFileName, command);
      if Get(hooks, eventName).Some? {
        var items := Get(hooks, eventName).value.items;
        assert forall i :: 0 <= i < |items| ==> items[i] == JObject(groups.value[i]);
      }
      var without := RemovedGroups(groups.value, scriptFileName, command);
      if without.Success? {
        var w := WithManaged(without.value, command);
        WithManagedSpec(without.value, command, scriptFileName);
        ReadBackGroups(eventName, w);
        SetKeys(hooks, eventName, JArray(GroupsJson(w)));
        assert EventGroups(r.value, eventName) == Success(w);
      }
    }
  }

  /** Every entry that is not stale survives the upsert, and the only entry it may add is
      the managed one, added only when no entry ran the command already. */
  lemma UpsertedEntries(hooks: Members, eventName: string, command: string, scriptFileName: string)
    requires Upserted(hooks, eventName, command, scriptFileName).Success?
    ensures var before := EventGroups(hooks, eventName).value;
      var after := EventGroups(Upserted(hooks, eventName, command, scriptFileName).value, eventName).value;
      (forall x :: InSomeGroup(before, x) && KeepsHook(x, scriptFileName, command) ==> InSomeGroup(after, x))
      && (forall x :: InSomeGroup(after, x) ==>
            (InSomeGroup(before, x) && KeepsHook(x, scriptFileName, command))
            || (x == ManagedEntry(command) && !HasExact(before, command)))
  {
    var before := EventGroups(hooks, eventName).value;
    var without := RemovedGroups(before, scriptFileName, command).value;
    var w := WithManaged(without, command);
    ReadBackGroups(eventName, w);
    assert EventGroups(Upserted(hooks, eventName, command, scriptFileName).value, eventName) == Success(w);
    RemovedEntries(before, scriptFileName, command);
    RemovedKeepsExact(before, scriptFileName, command);
    if !HasExact(without, command) {
      InSomeGroupConcat(without, [ManagedGroup(command)]);
      assert Entries(ManagedGroup(command)) == [ManagedEntry(command)];
      InSomeGroupSingle(ManagedGroup(command));
    }
  }

  /** Upserting into hooks whose event already holds what an upsert wrote changes nothing;
      in particular a second upsert repeats the first. */
  lemma UpsertedFixed(hooks: Members, eventName: string, command: string, scriptFileName: string, other: Members)
    requires Upserted(hooks, eventName, command, scriptFileName).Success?
    requires Get(other, eventName) == Get(Upserted(hooks, eventName, command, scriptFileName).value, eventName)
    ensures Upserted(other, eventName, command, scriptFileName) == Success(other)
  {
    var groups := EventGroups(hooks, eventName).value;
    RemovedGroupsSpec(groups, scriptFileName, command);
    var w := WithManaged(RemovedGroups(groups, scriptFileName, command).value, command);
    WithManagedSpec(RemovedGroups(groups, scriptFileName, command).value, command, scriptFileName);
    ReadBackGroups(eventName, w);
    RemovedGroupsClean(w, scriptFileName, command);
    assert WithManaged(w, command) == w;
    SetExisting(other, eventName);
  }

  /** `upsertCommandHook`: the hooks object after the upsert. */
  method UpsertCommandHook(hooks: Members, eventName: string, command: string, scriptFileName: string)
    returns (r: Result<Members>)
    ensures r == Upserted(hooks, eventName, command, scriptFileName)
  {
    var existing := Get(hooks, eventName);
    var groups := NormalizeHookGroups(eventName, existing);
    if groups.Failure? {
      return Failure(groups.error);
    }
    var withoutManaged := RemoveManagedCommands(groups.value, scriptFileName, command);
    if withoutManaged.Failure? {
      return Failure(withoutManaged.error);
    }
    var next := withoutManaged.value;
    var hasExact := HasExactCommand(next, command);
    if !hasExact {
      next := next + [ManagedGroup(command)];
    }
    return Success(Set(hooks, eventName, JArray(GroupsJson(next))));
  }

  // ---------------------------------------------------------------- serialisable trees

  /** Every group survives serialisation: its numbers are finite and its objects are in
      ECMAScript key order. */
  predicate WireGroups(groups: seq<Members>) {
    forall i :: 0 <= i < |groups| ==> WireMembers(groups[i])
  }

  lemma GroupsJsonWire(groups: seq<Members>)
    requires WireGroups(groups)
    ensures Wire(JArray(GroupsJson(groups)))
  {
    var items := GroupsJson(groups);
    assert forall i :: 0 <= i < |items| ==> items[i] == JObject(groups[i]);
  }

  lemma NormalizeWire(eventName: string, value: Option<Json>)
    requires value.Some? ==> Wire(value.value)
    requires NormalizeHookGroups(eventName, value).Success?
    ensures WireGroups(NormalizeHookGroups(eventName, value).value)
  {
    var r := NormalizeHookGroups(eventName, value).value;
    if value.Some? {
      forall i | 0 <= i < |r|
        ensures WireMembers(r[i])
      {
        assert AllFinite(value.value.items[i]) && Shaped(value.value.items[i]);
        assert JObject(r[i]) == value.value.items[i];
      }
    }
  }

  lemma RemovedGroupWire(group: Members, scriptFileName: string, exactCommand: string)
    requires WireMembers(group)
    requires RemovedGroup(group, scriptFileName, exactCommand).Success?
    ensures WireGroups(RemovedGroup(group, scriptFileName, exactCommand).value)
  {
    var hs := Entries(group);
    FilterHooksSpec(hs, scriptFileName, exactCommand);
    var kept := FilterHooks(hs, scriptFileName, exactCommand).value;
    if kept != [] {
      GetWire(group, "hooks");
      assert forall i :: 0 <= i < |kept| ==> kept[i] in hs;
      assert Wire(JArray(kept));
      SetWire(group, "hooks", JArray(kept));
    }
  }

  lemma {:induction false} RemovedGroupsWire(groups: seq<Members>, scriptFileName: string, exactCommand: string)
    requires WireGroups(groups)
    requires RemovedGroups(groups, scriptFileName, exactCommand).Success?
    ensures WireGroups(RemovedGroups(groups, scriptFileName, exactCommand).value)
    decreases |groups|
  {
    if groups != [] {
      assert WireGroups(groups[1..]) by {
        assert forall i :: 0 <= i < |groups[1..]| ==> groups[1..][i] == groups[i + 1];
      }
      RemovedGroupWire(groups[0], scriptFileName, exactCommand);
      RemovedGroupsWire(groups[1..], scriptFileName, exactCommand);
      var first := RemovedGroup(groups[0], scriptFileName, exactCommand).value;
      var rest := RemovedGroups(groups[1..], scriptFileName, exactCommand).value;
      assert forall i :: |first| <= i < |first + rest| ==> (first + rest)[i] == rest[i - |first|];
    }
  }

  /** The group the upsert appends survives serialisation. */
  lemma ManagedGroupWire(command: string)
    ensures WireMembers(ManagedGroup(command))
  {
    var e := ManagedEntry(command);
    assert Keys(e.members) == ["type", "command"];
    assert AllFinite(e.members[1].1) && Shaped(e.members[1].1);
    assert Wire(JArray([e]));
    assert Keys(ManagedGroup(command)) == ["hooks"];
  }

  /** Under an event name that is not an array index, the upsert keeps the hooks object
      serialisable. */
  lemma UpsertedWire(hooks: Members, eventName: string, command: string, scriptFileName: string)
    requires WireMembers(hooks) && !IsIndexKey(eventName)
    requires Upserted(hooks, eventName, command, scriptFileName).Success?
    ensures WireMembers(Upserted(hooks, eventName, command, scriptFileName).value)
  {
    if Get(hooks, eventName).Some? {
      GetWire(hooks, eventName);
    }
    NormalizeWire(eventName, Get(hooks, eventName));
    var groups := EventGroups(hooks, eventName).value;
    RemovedGroupsWire(groups, scriptFileName, command);
    var without := RemovedGroups(groups, scriptFileName, command).value;
    var w := WithManaged(without, command);
    assert WireGroups(w) by {
      if !HasExact(without, command) {
        ManagedGroupWire(command);
        assert forall i :: 0 <= i < |without| ==> w[i] == without[i];
      }
    }
    GroupsJsonWire(w);
    SetWire(hooks, eventName, JArray(GroupsJson(w)));
  }

  // ---------------------------------------------------------------- next settings

  /** The settings object after both upserts, with the updated `hooks` object in its place
      (or appended when it was missing). */
  function UpdatedSettings(root: Members, stopCommand: string, subagentStopCommand: string): Result<Members> {
    var hooks := EnsureHooksObject(root);
    if hooks.Failure? then Failure(hooks.error)
    else
      var afterStop := Upserted(hooks.value, StopEvent, stopCommand, StopScript);
      if afterStop.Failure? then Failure(afterStop.error)
      else
        var afterSubagentStop := Upserted(afterStop.value, SubagentStopEvent, subagentStopCommand, SubagentStopScript);
        if afterSubagentStop.Failure? then Failure(afterSubagentStop.error)
        else Success(Set(root, "hooks", JObject(afterSubagentStop.value)))
  }

  /** `buildNextSettingsText` up to serialisation. */
  function BuildNextSettingsTree(codec: Codec, originalText: string, stopCommand: string, subagentStopCommand: string)
    : Result<Members>
  {
    var root := ParseSettingsObject(codec, originalText);
    if root.Failure? then Failure(root.error) else UpdatedSettings(root.value, stopCommand, subagentStopCommand)
  }

  /** Updating settings that an update produced changes nothing. */
  lemma UpdatedSettingsFixed(root: Members, stopCommand: string, subagentStopCommand: string)
    requires UpdatedSettings(root, stopCommand, subagentStopCommand).Success?
    ensures var tree := UpdatedSettings(root, stopCommand, subagentStopCommand).value;
      UpdatedSettings(tree, stopCommand, subagentStopCommand) == Success(tree)
  {
    var tree := UpdatedSettings(root, stopCommand, subagentStopCommand).value;
    var h0 := EnsureHooksObject(root).value;
    var h1 := Upserted(h0, StopEvent, stopCommand, StopScript).value;
    var h2 := Upserted(h1, SubagentStopEvent, subagentStopCommand, SubagentStopScript).value;
    assert EnsureHooksObject(tree) == Success(h2);
    assert Upserted(h2, StopEvent, stopCommand, StopScript) == Success(h2) by {
      UpsertedSpec(h1, SubagentStopEvent, subagentStopCommand, SubagentStopScript);
      UpsertedFixed(h0, StopEvent, stopCommand, StopScript, h2);
    }
    assert Upserted(h2, SubagentStopEvent, subagentStopCommand, SubagentStopScript) == Success(h2) by {
      UpsertedFixed(h1, SubagentStopEvent, subagentStopCommand, SubagentStopScript, h2);
    }
    SetExisting(tree, "hooks");
  }

  /** `buildNextSettingsText`: the tree serialised with two-space indentation and a final
      newline. */
  function NextSettingsText(codec: Codec, originalText: string, stopCommand: string, subagentStopCommand: string)
    : Result<string>
  {
    var tree := BuildNextSettingsTree(codec, originalText, stopCommand, subagentStopCommand);
    if tree.Failure? then Failure(tree.error) else Success(codec.stringifyIndented(JObject(tree.value)) + "\n")
  }

  /** `buildNextSettingsText`. */
  method BuildNextSettingsText(codec: Codec, originalText: string, stopCommand: string, subagentStopCommand: string)
    returns (r: Result<string>)
    ensures r == NextSettingsText(codec, originalText, stopCommand, subagentStopCommand)
  {
    var root := ParseSettingsObject(codec, originalText);
    if root.Failure? {
      return Failure(root.error);
    }
    var hooks := EnsureHooksObject(root.value);
    if hooks.Failure? {
      return Failure(hooks.error);
    }
    var afterStop := UpsertCommandHook(hooks.value, StopEvent, stopCommand, StopScript);
    if afterStop.Failure? {
      return Failure(afterStop.error);
    }
    var afterSubagentStop := UpsertCommandHook(afterStop.value, SubagentStopEvent, subagentStopCommand, SubagentStopScript);
    if afterSubagentStop.Failure? {
      return Failure(afterSubagentStop.error);
    }
    var next := Set(root.value, "hooks", JObject(afterSubagentStop.value));
    return Success(codec.stringifyIndented(JObject(next)) + "\n");
  }

  /** The next settings differ from what was read only under `hooks.Stop` and
      `hooks.SubagentStop`; each of the two holds its command and no stale entry. */
  lemma NextSettingsSpec(codec: Codec, originalText: string, stopCommand: string, subagentStopCommand: string)
    requires BuildNextSettingsTree(codec, originalText, stopCommand, subagentStopCommand).Success?
    ensures var root := ParseSettingsObject(codec, originalText).value;
      var tree := BuildNextSettingsTree(codec, originalText, stopCommand, subagentStopCommand).value;
      (forall k :: k != "hooks" ==> Get(tree, k) == Get(root, k))
      && Get(tree, "hooks").Some? && IsRecord(Get(tree, "hooks").value)
      && (forall e :: e != StopEvent && e != SubagentStopEvent ==>
            Get(Get(tree, "hooks").value.members, e) == Get(EnsureHooksObject(root).value, e))
      && Installed(Get(tree, "hooks").value.members, StopEvent, stopCommand, StopScript)
      && Installed(Get(tree, "hooks").value.members, SubagentStopEvent, subagentStopCommand, SubagentStopScript)
  {
    var root := ParseSettingsObject(codec, originalText).value;
    var h0 := EnsureHooksObject(root).value;
    var h1 := Upserted(h0, StopEvent, stopCommand, StopScript).value;
    var h2 := Upserted(h1, SubagentStopEvent, subagentStopCommand, SubagentStopScript).value;
    UpsertedSpec(h0, StopEvent, stopCommand, StopScript);
    UpsertedSpec(h1, SubagentStopEvent, subagentStopCommand, SubagentStopScript);
    assert Get(h2, StopEvent) == Get(h1, StopEvent);
  }

  /** The event's groups read back, run the command and hold no stale entry. */
  predicate Installed(hooks: Members, eventName: string, command: string, scriptFileName: string) {
    var groups := EventGroups(hooks, eventName);
    groups.Success? && HasExact(groups.value, command)
    && forall i :: 0 <= i < |groups.value| ==> CleanGroup(groups.value[i], scriptFileName, command)
  }

  /** Blank or missing settings become an object holding only the two managed groups. */
  lemma FreshSettings(codec: Codec, originalText: string, stopCommand: string, subagentStopCommand: string)
    requires IsBlank(originalText)
    ensures BuildNextSettingsTree(codec, originalText, stopCommand, subagentStopCommand)
      == Success([("hooks", JObject([(StopEvent, JArray([JObject(ManagedGroup(stopCommand))])),
                                     (SubagentStopEvent, JArray([JObject(ManagedGroup(subagentStopCommand))]))]))])
  {
    assert ParseSettingsObject(codec, originalText) == Success([]);
    assert EnsureHooksObject([]) == Success([]);
    assert GroupsJson([ManagedGroup(stopCommand)]) == [JObject(ManagedGroup(stopCommand))];
    assert GroupsJson([ManagedGroup(subagentStopCommand)]) == [JObject(ManagedGroup(subagentStopCommand))];
    var h1: Members := [(StopEvent, JArray([JObject(ManagedGroup(stopCommand))]))];
    assert Upserted([], StopEvent, stopCommand, StopScript) == Success(h1) by {
      assert EventGroups([], StopEvent) == Success([]);
      assert RemovedGroups([], StopScript, stopCommand) == Success([]);
      assert WithManaged([], stopCommand) == [ManagedGroup(stopCommand)];
    }
    assert Upserted(h1, SubagentStopEvent, subagentStopCommand, SubagentStopScript)
      == Success(Set(h1, SubagentStopEvent, JArray([JObject(ManagedGroup(subagentStopCommand))]))) by {
      assert Get(h1, SubagentStopEvent) == None;
      assert EventGroups(h1, SubagentStopEvent) == Success([]);
      assert RemovedGroups([], SubagentStopScript, subagentStopCommand) == Success([]);
      assert WithManaged([], subagentStopCommand) == [ManagedGroup(subagentStopCommand)];
    }
    var sub := JArray([JObject(ManagedGroup(subagentStopCommand))]);
    var h2 := Set(h1, SubagentStopEvent, sub);
    assert h2 == [(StopEvent, JArray([JObject(ManagedGroup(stopCommand))])), (SubagentStopEvent, sub)] by {
      assert Get(h1, SubagentStopEvent) == None;
      SetAbsent(h1, SubagentStopEvent, sub);
    }
    assert UpdatedSettings([], stopCommand, subagentStopCommand) == Success(Set([], "hooks", JObject(h2)));
  }

  /** The tree built from the settings survives serialisation when every number in the
      settings read is finite. */
  lemma NextSettingsWire(codec: Codec, originalText: string, stopCommand: string, subagentStopCommand: string)
    requires ParseShaped(codec)
    requires !IsBlank(originalText) && codec.parse(originalText).Some? ==> AllFinite(codec.parse(originalText).value)
    requires BuildNextSettingsTree(codec, originalText, stopCommand, subagentStopCommand).Success?
    ensures WireMembers(BuildNextSettingsTree(codec, originalText, stopCommand, subagentStopCommand).value)
  {
    var root := ParseSettingsObject(codec, originalText).value;
    if !IsBlank(originalText) {
      assert Shaped(codec.parse(originalText).value);
    }
    assert WireMembers(root);
    var h0 := EnsureHooksObject(root).value;
    if Get(root, "hooks").Some? {
      GetWire(root, "hooks");
    }
    assert WireMembers(h0);
    UpsertedWire(h0, StopEvent, stopCommand, StopScript);
    var h1 := Upserted(h0, StopEvent, stopCommand, StopScript).value;
    UpsertedWire(h1, SubagentStopEvent, subagentStopCommand, SubagentStopScript);
    SetWire(root, "hooks", JObject(Upserted(h1, SubagentStopEvent, subagentStopCommand, SubagentStopScript).value));
  }

  /** Rebuilding from the settings just written gives the same text again: the settings
      are written once, and a second run finds them already managed. This relies on
      indented serialisation reading back, which holds when every number in the settings
      is finite and the objects keep the key order `JSON.parse` gives them. */
  lemma NextSettingsIdempotent(codec: Codec, originalText: string, stopCommand: string, subagentStopCommand: string)
    requires IndentedRoundTrips(codec) && ParseShaped(codec)
    requires !IsBlank(originalText) && codec.parse(originalText).Some? ==> AllFinite(codec.parse(originalText).value)
    requires NextSettingsText(codec, originalText, stopCommand, subagentStopCommand).Success?
    ensures var next := NextSettingsText(codec, originalText, stopCommand, subagentStopCommand).value;
      NextSettingsText(codec, next, stopCommand, subagentStopCommand) == Success(next)
  {
    var tree := BuildNextSettingsTree(codec, originalText, stopCommand, subagentStopCommand).value;
    var next := NextSettingsText(codec, originalText, stopCommand, subagentStopCommand).value;
    NextSettingsWire(codec, originalText, stopCommand, subagentStopCommand);
    SerialisedSettingsParse(codec, tree, next);
    UpdatedSettingsFixed(ParseSettingsObject(codec, originalText).value, stopCommand, subagentStopCommand);
  }

  /** Serialisable settings written with indentation and a final newline read back as
      themselves. */
  lemma SerialisedSettingsParse(codec: Codec, tree: Members, text: string)
    requires IndentedRoundTrips(codec) && WireMembers(tree)
    requires text == codec.stringifyIndented(JObject(tree)) + "\n"
    ensures ParseSettingsObject(codec, text) == Success(tree)
  {
    assert codec.parse(text) == Some(JObject(tree)) && text[0] == '{';
  }

  // ---------------------------------------------------------------- reconcile

  /** `ensureConfiguredInternal`: the commands run the two mirrored scripts. */
  function ReconcileClaudeSettings(codec: Codec, scriptSync: Option<string>, read: Reconcile.ReadOutcome,
                                   stopScriptPath: string, subagentStopScriptPath: string, writeError: Option<string>)
    : Reconcile.Outcome
  {
    Reconcile.EnsureConfigured(scriptSync, read,
      (s: string) => NextSettingsText(codec, s, BuildShellCommand(stopScriptPath), BuildShellCommand(subagentStopScriptPath)),
      writeError)
  }

  /** Once a run has written the settings, the next run leaves them unchanged. */
  lemma SecondReconcileUnchanged(codec: Codec, originalText: string, stopScriptPath: string, subagentStopScriptPath: string,
                                 writeError: Option<string>)
    requires IndentedRoundTrips(codec) && ParseShaped(codec)
    requires !IsBlank(originalText) && codec.parse(originalText).Some? ==> AllFinite(codec.parse(originalText).value)
    requires NextSettingsText(codec, originalText, BuildShellCommand(stopScriptPath), BuildShellCommand(subagentStopScriptPath)).Success?
    ensures var written := NextSettingsText(codec, originalText, BuildShellCommand(stopScriptPath), BuildShellCommand(subagentStopScriptPath)).value;
      ReconcileClaudeSettings(codec, None, Reconcile.Read(written), stopScriptPath, subagentStopScriptPath, writeError)
      == Reconcile.Outcome(Reconcile.Unchanged, None)
  {
    NextSettingsIdempotent(codec, originalText, BuildShellCommand(stopScriptPath), BuildShellCommand(subagentStopScriptPath));
  }
}
