// Reading tokens from a connection: dpip/dpip.c:240-265, 383-487.
module DpipStream {
  import opened Common
  import opened Dpip
  import opened DpipAttr

  const SWITCH_VALUE := "start_send_page"
  const MODE_SWITCH_TAG: string := "cmd=" + [QUOTE] + SWITCH_VALUE + [QUOTE, ' ']

  // The mode flags DPIP_TAG, DPIP_LAST_TAG, DPIP_RAW and DPIP_NONBLOCK.
  datatype Mode = Mode(tag: bool, lastTag: bool, raw: bool, nonblock: bool)

  const RAW_MODE := Mode(false, false, true, false)

  // What the C string functions see of a buffer.
  ghost function CString(s: string): (r: string)
    ensures r <= s && NUL !in r && (r == s || (|r| < |s| && s[|r|] == NUL))
  {
    match Find(s, [NUL])
    case None => NoNul(s); s
    case Some(k) => NoNul(s); s[..k]
  }

  lemma NoNul(s: string)
    ensures match Find(s, [NUL])
            case None => NUL !in s
            case Some(k) => NUL !in s[..k] && k < |s| && s[k] == NUL
  {
    forall k | 0 <= k < |s| && s[k] == NUL ensures HasAt(s, [NUL], k) {
    }
    match Find(s, [NUL])
    case None =>
    case Some(k) => assert s[k..k + 1][0] == s[k];
  }

  ghost predicate Contains(s: string, pattern: string) {
    Find(s, pattern).Some?
  }

  // The state of a handle, and what one call makes of it.
  datatype State = State(rdbuf: string, mode: Mode)

  ghost function Read(st: State, incoming: string): (State, Option<string>) {
    var buf := st.rdbuf + incoming;
    var mode := if st.mode.lastTag then RAW_MODE else st.mode;
    if mode.tag then
      match Find(CString(buf), TAG_END)
      case None => (State(buf, mode), None)
      case Some(p) =>
        var ret := buf[..p + 3];
        (State(buf[p + 3..], if Contains(ret, MODE_SWITCH_TAG) then mode.(lastTag := true) else mode), Some(ret))
    else if |buf| > 0 then (State("", mode), Some(buf))
    else (State(buf, mode), None)
  }

  class Dsh {
    var rdbuf: string
    var mode: Mode

    constructor (nonblock: bool)
      ensures rdbuf == "" && mode == Mode(true, false, false, nonblock)
    {
      rdbuf, mode := "", Mode(true, false, false, nonblock);
    }

    // a_Dpip_dsh_read_token2 without waiting; incoming is what Dpip_dsh_read appends.
    method ReadToken2(incoming: string) returns (ret: Option<string>, dataSize: nat)
      modifies this
      ensures (State(rdbuf, mode), ret) == Read(State(old(rdbuf), old(mode)), incoming)
      ensures dataSize == if ret.Some? then |ret.value| else 0
    {
      ret, dataSize := None, 0;
      rdbuf := rdbuf + incoming;
      if mode.lastTag {
        mode := RAW_MODE;
      }
      if mode.tag {
        var visible := Visible(rdbuf);
        var p := StrStr(visible, TAG_END);
        if p.Some? {
          ret, dataSize := Some(rdbuf[..p.value + 3]), p.value + 3;
          rdbuf := rdbuf[p.value + 3..];
          var switch := StrStr(ret.value, MODE_SWITCH_TAG);
          if switch.Some? {
            mode := mode.(lastTag := true);
          }
        }
      } else if |rdbuf| > 0 {
        ret, dataSize := Some(rdbuf), |rdbuf|;
        rdbuf := "";
      }
    }
  }

  method Visible(s: string) returns (r: string)
    ensures r == CString(s)
  {
    var k := StrStr(s, [NUL]);
    r := if k.Some? then s[..k.value] else s;
  }

  // ----- runs ----------------------------------------------------------------------

  function Concat(parts: seq<string>): string {
    if parts == [] then "" else parts[0] + Concat(parts[1..])
  }

  lemma {:induction false} ConcatAppend(parts: seq<string>, part: string)
    ensures Concat(parts + [part]) == Concat(parts) + part
  {
    if parts == [] {
      assert parts + [part] == [part] && Concat([part]) == part + Concat([]);
    } else {
      assert (parts + [part])[1..] == parts[1..] + [part];
      ConcatAppend(parts[1..], part);
    }
  }

  // The state and the tokens after a number of calls; chunks[i] arrives at call i.
  ghost function Run(st: State, chunks: seq<string>): (State, seq<string>) {
    if chunks == [] then (st, [])
    else
      var n := |chunks| - 1;
      var (st1, tokens) := Run(st, chunks[..n]);
      var (st2, token) := Read(st1, chunks[n]);
      (st2, if token.Some? then tokens + [token.value] else tokens)
  }

  const START := State("", Mode(true, false, false, false))

  // No byte is lost or invented: in any run, on any input.
  lemma {:induction false} BytesConserved(st: State, chunks: seq<string>)
    ensures var (st', tokens) := Run(st, chunks);
            Concat(tokens) + st'.rdbuf == st.rdbuf + Concat(chunks)
    decreases |chunks|
  {
    if chunks == [] {
      assert "" + st.rdbuf == st.rdbuf == st.rdbuf + "";
    } else {
      var n := |chunks| - 1;
      BytesConserved(st, chunks[..n]);
      assert chunks == chunks[..n] + [chunks[n]];
      ConcatAppend(chunks[..n], chunks[n]);
      Associate(st.rdbuf, Concat(chunks[..n]), chunks[n]);
      var (st1, tokens) := Run(st, chunks[..n]);
      ConservedByRead(st1, tokens, chunks[n]);
    }
  }

  lemma ConservedByRead(st1: State, tokens: seq<string>, chunk: string)
    ensures var (st2, token) := Read(st1, chunk);
            Concat(if token.Some? then tokens + [token.value] else tokens) + st2.rdbuf
            == (Concat(tokens) + st1.rdbuf) + chunk
  {
    var (st2, token) := Read(st1, chunk);
    ReadConserves(st1, chunk);
    Associate(Concat(tokens), st1.rdbuf, chunk);
    if token.Some? {
      ConcatAppend(tokens, token.value);
      Associate(Concat(tokens), token.value, st2.rdbuf);
    }
  }

  lemma ReadConserves(st: State, incoming: string)
    ensures var (st', token) := Read(st, incoming);
            (if token.Some? then token.value else "") + st'.rdbuf == st.rdbuf + incoming
  {
    var (st', token) := Read(st, incoming);
    if token.None? {
      assert "" + st'.rdbuf == st'.rdbuf;
    }
  }

  // ----- streams of commands ---------------------------------------------------------

  // A command as it is built: its first end mark is its end.
  ghost predicate IsTag(cmd: string) {
    EndsOnce(cmd) && HasAt(cmd, TAG_END, |cmd| - 3) && NUL !in cmd
  }

  ghost predicate Switches(cmd: string) {
    Contains(cmd, MODE_SWITCH_TAG)
  }

  // Commands; only the last one may switch to raw mode, and raw data follow only then.
  ghost predicate IsStream(cmds: seq<string>, raw: string) {
    && (forall cmd :: cmd in cmds ==> IsTag(cmd))
    && (forall k {:trigger cmds[k]} :: 0 <= k < |cmds| - 1 ==> !Switches(cmds[k]))
    && (raw != "" ==> cmds != [] && Switches(cmds[|cmds| - 1]))
  }

  // The next complete command in the buffer, and nothing else, is found.
  lemma TagIsFound(cmd: string, rest: string, buf: string)
    requires IsTag(cmd) && buf <= cmd + rest
    ensures |buf| >= |cmd| ==> Find(CString(buf), TAG_END) == Some(|cmd| - 3) && buf[..|cmd|] == cmd
    ensures |buf| < |cmd| ==> Find(CString(buf), TAG_END) == None
  {
    var s := CString(buf);
    forall j | 0 <= j && j < |cmd| - 3 ensures !HasAt(s, TAG_END, j) {
      EndChars(s, j);
      EndChars(cmd, j);
      assert forall k {:trigger s[k]} :: 0 <= k < |s| && k < |cmd| ==> s[k] == buf[k] == (cmd + rest)[k] == cmd[k];
    }
    if |buf| >= |cmd| {
      assert buf[..|cmd|] == cmd;
      assert forall k {:trigger buf[k]} :: 0 <= k < |cmd| ==> buf[k] == cmd[k] && cmd[k] in cmd;
      assert s[|cmd| - 3..|cmd|] == cmd[|cmd| - 3..|cmd|];
      FindIs(s, TAG_END, |cmd| - 3);
    } else {
      forall j: nat ensures !HasAt(s, TAG_END, j) {
      }
    }
  }

  lemma {:induction false} ConcatSplit(parts: seq<string>, k: nat)
    requires k <= |parts|
    ensures Concat(parts) == Concat(parts[..k]) + Concat(parts[k..])
  {
    if k == 0 {
      assert parts[0..] == parts && "" + Concat(parts) == Concat(parts);
    } else {
      ConcatSplit(parts[1..], k - 1);
      assert parts[1..][..k - 1] == parts[..k][1..] && parts[1..][k - 1..] == parts[k..];
      Associate(parts[0], Concat(parts[..k][1..]), Concat(parts[k..]));
    }
  }

  lemma PrefixCancel(a: string, b: string, c: string)
    requires a + b <= a + c
    ensures b <= c
  {
    assert forall k {:trigger b[k]} :: 0 <= k < |b| ==> b[k] == (a + b)[|a| + k] == (a + c)[|a| + k] == c[k];
  }

  // Still reading tags: the tokens are the first commands.
  ghost predicate InTags(cmds: seq<string>, st: State, tokens: seq<string>) {
    && |tokens| <= |cmds| && tokens == cmds[..|tokens|]
    && st.mode.tag
    && (st.mode.lastTag <==> tokens != [] && Switches(tokens[|tokens| - 1]))
  }

  // Reading raw data: all commands have been returned before.
  ghost predicate InRaw(cmds: seq<string>, st: State, tokens: seq<string>) {
    && st.mode == RAW_MODE
    && cmds <= tokens && cmds != [] && Switches(cmds[|cmds| - 1])
  }

  // What is in the buffer belongs to the rest of the stream.
  lemma RestOfStream(cmds: seq<string>, raw: string, k: nat, buf: string)
    requires k <= |cmds| && Concat(cmds[..k]) + buf <= Concat(cmds) + raw
    ensures buf <= Concat(cmds[k..]) + raw
  {
    ConcatSplit(cmds, k);
    Associate(Concat(cmds[..k]), Concat(cmds[k..]), raw);
    PrefixCancel(Concat(cmds[..k]), buf, Concat(cmds[k..]) + raw);
  }

  lemma NextTag(cmds: seq<string>, raw: string, k: nat, buf: string)
    requires IsStream(cmds, raw) && k <= |cmds| && Concat(cmds[..k]) + buf <= Concat(cmds) + raw
    requires k > 0 ==> !Switches(cmds[k - 1])
    ensures Find(CString(buf), TAG_END) ==
            if k < |cmds| && |buf| >= |cmds[k]| then Some(|cmds[k]| - 3) else None
    ensures k < |cmds| && |buf| >= |cmds[k]| ==> |cmds[k]| >= 3 && buf[..|cmds[k]|] == cmds[k]
  {
    RestOfStream(cmds, raw, k, buf);
    if k < |cmds| {
      assert cmds[k..][1..] == cmds[k + 1..];
      Associate(cmds[k], Concat(cmds[k + 1..]), raw);
      assert cmds[k] in cmds;
      TagIsFound(cmds[k], Concat(cmds[k + 1..]) + raw, buf);
    } else {
      assert cmds[k..] == [] && raw == "";
      assert buf == "";
      forall j: nat ensures !HasAt(CString(buf), TAG_END, j) {
      }
    }
  }

  lemma ReadTag(st: State, chunk: string, p: nat)
    requires st.mode.tag && !st.mode.lastTag && Find(CString(st.rdbuf + chunk), TAG_END) == Some(p)
    ensures var ret := (st.rdbuf + chunk)[..p + 3];
            Read(st, chunk) == (State((st.rdbuf + chunk)[p + 3..], st.mode.(lastTag := Switches(ret))), Some(ret))
  {
  }

  lemma ReadNoTag(st: State, chunk: string)
    requires st.mode.tag && !st.mode.lastTag && Find(CString(st.rdbuf + chunk), TAG_END) == None
    ensures Read(st, chunk) == (State(st.rdbuf + chunk, st.mode), None)
  {
  }

  lemma InTagsNext(cmds: seq<string>, st: State, tokens: seq<string>, rdbuf: string)
    requires InTags(cmds, st, tokens) && |tokens| < |cmds|
    ensures var cmd := cmds[|tokens|]; InTags(cmds, State(rdbuf, st.mode.(lastTag := Switches(cmd))), tokens + [cmd])
  {
    assert cmds[..|tokens| + 1] == tokens + [cmds[|tokens|]];
  }

  // One call on a stream of commands, while reading tags: the next command is returned
  // if it is complete ...
  lemma ReadCommand(cmds: seq<string>, raw: string, st: State, tokens: seq<string>, chunk: string)
    requires IsStream(cmds, raw) && InTags(cmds, st, tokens) && !st.mode.lastTag
    requires Concat(tokens) + (st.rdbuf + chunk) <= Concat(cmds) + raw
    requires |tokens| < |cmds| && |st.rdbuf + chunk| >= |cmds[|tokens|]|
    ensures var cmd := cmds[|tokens|];
            Read(st, chunk).1 == Some(cmd) && InTags(cmds, Read(st, chunk).0, tokens + [cmd])
  {
    var k := |tokens|;
    NextTag(cmds, raw, k, st.rdbuf + chunk);
    InTagsNext(cmds, st, tokens, (st.rdbuf + chunk)[|cmds[k]|..]);
    ReadTag(st, chunk, |cmds[k]| - 3);
  }

  // ... and nothing otherwise.
  lemma ReadNothing(cmds: seq<string>, raw: string, st: State, tokens: seq<string>, chunk: string)
    requires IsStream(cmds, raw) && InTags(cmds, st, tokens) && !st.mode.lastTag
    requires Concat(tokens) + (st.rdbuf + chunk) <= Concat(cmds) + raw
    requires |tokens| == |cmds| || |st.rdbuf + chunk| < |cmds[|tokens|]|
    ensures Read(st, chunk).1 == None && InTags(cmds, Read(st, chunk).0, tokens)
  {
    NextTag(cmds, raw, |tokens|, st.rdbuf + chunk);
    ReadNoTag(st, chunk);
  }

  // For any stream and any chunking of it, the tokens are exactly the commands, in
  // order; raw data are returned only after a command that switches the mode.
  lemma {:induction false} RunOnStream(cmds: seq<string>, raw: string, chunks: seq<string>)
    requires IsStream(cmds, raw) && Concat(chunks) <= Concat(cmds) + raw
    ensures var (st, tokens) := Run(START, chunks);
            (InTags(cmds, st, tokens) || InRaw(cmds, st, tokens)) && Concat(tokens) + st.rdbuf == Concat(chunks)
    decreases |chunks|
  {
    BytesConserved(START, chunks);
    assert "" + Concat(chunks) == Concat(chunks);
    if chunks != [] {
      var n := |chunks| - 1;
      assert chunks == chunks[..n] + [chunks[n]];
      ConcatAppend(chunks[..n], chunks[n]);
      RunOnStream(cmds, raw, chunks[..n]);
      var (st, tokens) := Run(START, chunks[..n]);
      Associate(Concat(tokens), st.rdbuf, chunks[n]);
      ReadOnStream(cmds, raw, st, tokens, chunks[n]);
    }
  }

  // One call at any place of the stream.
  lemma ReadOnStream(cmds: seq<string>, raw: string, st: State, tokens: seq<string>, chunk: string)
    requires IsStream(cmds, raw) && (InTags(cmds, st, tokens) || InRaw(cmds, st, tokens))
    requires Concat(tokens) + (st.rdbuf + chunk) <= Concat(cmds) + raw
    ensures var (st', ret) := Read(st, chunk);
            var tokens' := if ret.Some? then tokens + [ret.value] else tokens;
            InTags(cmds, st', tokens') || InRaw(cmds, st', tokens')
  {
    if InTags(cmds, st, tokens) {
      if st.mode.lastTag {
        assert tokens[|tokens| - 1] == cmds[|tokens| - 1];
        assert |tokens| == |cmds|;
      } else if |tokens| < |cmds| && |st.rdbuf + chunk| >= |cmds[|tokens|]| {
        ReadCommand(cmds, raw, st, tokens, chunk);
      } else {
        ReadNothing(cmds, raw, st, tokens, chunk);
      }
    }
  }

  // ----- all commands come ---------------------------------------------------------------

  // One more call, while nothing arrives any more.
  ghost function CallAgain(st: State, tokens: seq<string>): (State, seq<string>) {
    var (st', token) := Read(st, "");
    (st', if token.Some? then tokens + [token.value] else tokens)
  }

  // n more calls.
  ghost function CallTimes(st: State, tokens: seq<string>, n: nat): (State, seq<string>) {
    if n == 0 then (st, tokens)
    else
      var (st1, tokens1) := CallTimes(st, tokens, n - 1);
      CallAgain(st1, tokens1)
  }

  // This is a run in which the last n chunks are empty.
  lemma {:induction false} CallsAreRun(st: State, chunks: seq<string>, n: nat)
    ensures Run(st, chunks + seq(n, _ => "")) == CallTimes(Run(st, chunks).0, Run(st, chunks).1, n)
  {
    var all := chunks + seq(n, _ => "");
    if n == 0 {
      assert all == chunks;
    } else {
      CallsAreRun(st, chunks, n - 1);
      assert all[..|all| - 1] == chunks + seq(n - 1, _ => "") && all[|all| - 1] == "";
    }
  }

  lemma BufferHasNext(cmds: seq<string>, raw: string, k: nat, rdbuf: string)
    requires k < |cmds| && Concat(cmds[..k]) + rdbuf == Concat(cmds) + raw
    ensures |rdbuf| >= |cmds[k]|
  {
    ConcatSplit(cmds, k);
    assert Concat(cmds[k..]) == cmds[k] + Concat(cmds[k..][1..]);
  }

  // Between two calls, when everything has arrived.
  ghost predicate Arrived(cmds: seq<string>, raw: string, st: State, tokens: seq<string>) {
    match st
    case State(rdbuf, _) => (InTags(cmds, st, tokens) || InRaw(cmds, st, tokens)) && Concat(tokens) + rdbuf == Concat(cmds) + raw
  }

  lemma OneMore(cmds: seq<string>, raw: string, st: State, tokens: seq<string>)
    requires IsStream(cmds, raw) && Arrived(cmds, raw, st, tokens) && |tokens| < |cmds|
    ensures Read(st, "").1.Some?
  {
    BufferHasNext(cmds, raw, |tokens|, st.rdbuf);
    assert st.rdbuf + "" == st.rdbuf;
    assert tokens != [] ==> tokens[|tokens| - 1] == cmds[|tokens| - 1];
    ReadCommand(cmds, raw, st, tokens, "");
  }

  lemma ArrivedNext(cmds: seq<string>, raw: string, st: State, tokens: seq<string>)
    requires IsStream(cmds, raw) && Arrived(cmds, raw, st, tokens)
    ensures var (st', tokens') := CallAgain(st, tokens);
            Arrived(cmds, raw, st', tokens') && |tokens'| >= |tokens| && (|tokens| < |cmds| ==> |tokens'| > |tokens|)
  {
    assert st.rdbuf + "" == st.rdbuf;
    ReadOnStream(cmds, raw, st, tokens, "");
    ConservedByRead(st, tokens, "");
    assert (Concat(tokens) + st.rdbuf) + "" == Concat(tokens) + st.rdbuf;
    if |tokens| < |cmds| {
      OneMore(cmds, raw, st, tokens);
    }
  }

  // When everything has arrived, each call returns one more command.
  lemma {:induction false} CommandsCome(cmds: seq<string>, raw: string, st: State, tokens: seq<string>, n: nat, now: (State, seq<string>))
    requires IsStream(cmds, raw) && Arrived(cmds, raw, st, tokens) && now == CallTimes(st, tokens, n)
    ensures HasCome(cmds, raw, now, n)
    decreases n
  {
    if n > 0 {
      var before := CallTimes(st, tokens, n - 1);
      CommandsCome(cmds, raw, st, tokens, n - 1, before);
      OneMoreCome(cmds, raw, before, n - 1);
    }
  }

  // At least n tokens, or all commands.
  ghost predicate HasCome(cmds: seq<string>, raw: string, now: (State, seq<string>), n: nat) {
    match now
    case (st, tokens) => Arrived(cmds, raw, st, tokens) && |tokens| >= Min(n, |cmds|)
  }

  lemma OneMoreCome(cmds: seq<string>, raw: string, now: (State, seq<string>), n: nat)
    requires IsStream(cmds, raw) && HasCome(cmds, raw, now, n)
    ensures HasCome(cmds, raw, CallAgain(now.0, now.1), n + 1)
  {
    ArrivedNext(cmds, raw, now.0, now.1);
  }

  // After all bytes and as many further calls as there are commands, all commands have been
  // returned, and after one more call also the raw data behind them.
  lemma AllCommandsCome(cmds: seq<string>, raw: string, chunks: seq<string>)
    requires IsStream(cmds, raw) && Concat(chunks) == Concat(cmds) + raw
    ensures var (st, tokens) := Run(START, chunks);
            && cmds <= CallTimes(st, tokens, |cmds|).1
            && var (st', tokens') := CallTimes(st, tokens, |cmds| + 1);
               cmds <= tokens' && st'.rdbuf == "" && Concat(tokens') == Concat(cmds) + raw
  {
    RunOnStream(cmds, raw, chunks);
    var (st, tokens) := Run(START, chunks);
    CommandsCome(cmds, raw, st, tokens, |cmds|, CallTimes(st, tokens, |cmds|));
    var (st1, tokens1) := CallTimes(st, tokens, |cmds|);
    AllReturned(cmds, raw, st1, tokens1);
  }

  lemma AllReturned(cmds: seq<string>, raw: string, st: State, tokens: seq<string>)
    requires IsStream(cmds, raw) && Arrived(cmds, raw, st, tokens) && |tokens| >= |cmds|
    ensures cmds <= tokens
    ensures var (st', tokens') := CallAgain(st, tokens);
            cmds <= tokens' && st'.rdbuf == "" && Concat(tokens') == Concat(cmds) + raw
  {
    ArrivedNext(cmds, raw, st, tokens);
    RestReturned(cmds, raw, st, tokens);
    var (_, tokens') := CallAgain(st, tokens);
    assert Concat(tokens') + "" == Concat(tokens');
  }

  lemma RestReturned(cmds: seq<string>, raw: string, st: State, tokens: seq<string>)
    requires IsStream(cmds, raw) && cmds <= tokens && Arrived(cmds, raw, st, tokens)
    ensures Read(st, "").0.rdbuf == ""
  {
    assert st.rdbuf + "" == st.rdbuf;
    if st.mode.tag && !st.mode.lastTag {
      assert tokens == cmds;
      assert raw == "" && st.rdbuf == "";
      NoNul("");
      forall j: nat ensures !HasAt(CString(""), TAG_END, j) {
      }
    }
  }

  // ----- which commands switch the mode ------------------------------------------------

  // The attribute at the start of s ends the tag name or begins after a space.
  predicate EndsWithCmd(name: string) {
    |name| >= 3 && name[|name| - 3..] == "cmd"
  }

  lemma SwitchTagParts()
    ensures |SWITCH_VALUE| == 15 && SWITCH_VALUE[0] == 's' && SWITCH_VALUE[14] == 'e'
    ensures |MODE_SWITCH_TAG| == 22 && MODE_SWITCH_TAG[..4] == "cmd=" && MODE_SWITCH_TAG[4] == QUOTE
    ensures MODE_SWITCH_TAG[5..20] == SWITCH_VALUE && MODE_SWITCH_TAG[20] == QUOTE && MODE_SWITCH_TAG[21] == ' '
  {
    var a, b: string := "cmd=" + [QUOTE], [QUOTE, ' '];
    assert MODE_SWITCH_TAG == a + SWITCH_VALUE + b && |a| == 5;
    assert a[..4] == "cmd=";
  }

  lemma SwitchChars(s: string, i: nat)
    requires HasAt(s, MODE_SWITCH_TAG, i)
    ensures i + 22 <= |s|
    ensures s[i] == 'c' && s[i + 1] == 'm' && s[i + 2] == 'd' && s[i + 3] == '=' && s[i + 4] == QUOTE
    ensures s[i + 5..i + 20] == SWITCH_VALUE && s[i + 5] == 's' && s[i + 19] == 'e'
    ensures s[i + 20] == QUOTE && s[i + 21] == ' '
  {
    SwitchTagParts();
    var t := s[i..i + 22];
    assert t == MODE_SWITCH_TAG;
    var u := t[..4];
    assert u == "cmd=" && u[0] == 'c' && u[1] == 'm' && u[2] == 'd' && u[3] == '=';
    assert forall k {:trigger t[k]} :: 0 <= k < 22 ==> t[k] == s[i + k];
    assert t[5..20] == SWITCH_VALUE && s[i + 5..i + 20] == t[5..20];
    assert t[5] == t[5..20][0] && t[19] == t[5..20][14];
    assert t[0] == u[0] && t[1] == u[1] && t[2] == u[2] && t[3] == u[3] && t[4] == QUOTE && t[20] == QUOTE && t[21] == ' ';
  }

  // A text that starts with a stuffed value in quotes, and with the plain x in quotes
  // and a space, starts with the value x.
  lemma {:induction false} SameValue(v: string, x: string, t: string)
    requires Unquoted(x) && x + [QUOTE, ' '] <= t && Stuffed(v) + [QUOTE] <= t
    ensures v == x
  {
    assert x != [] ==> t[0] == x[0] && x[0] in x;
    assert x == [] ==> t[0] == QUOTE && t[1] == ' ';
    if v != [] {
      var st := Stuffed(v);
      assert t[0] == st[0];
      assert |st| > 1 ==> t[1] == st[1];
      if x != [] {
        assert st[1..] == Stuffed(v[1..]);
        assert x[1..] + [QUOTE, ' '] == (x + [QUOTE, ' '])[1..];
        assert Stuffed(v[1..]) + [QUOTE] == (st + [QUOTE])[1..];
        SameValue(v[1..], x[1..], t[1..]);
      }
    } else {
      assert t[0] == QUOTE;
    }
  }

  // The text of an attribute and of all later ones, with the character before it.
  function AttrTail(c: char, names: seq<string>, values: seq<string>): string
    requires |names| == |values| > 0
  {
    [c] + Attr(names[0], values[0]) + AttrText(names[1..], values[1..])
  }

  ghost predicate SomeSwitch(names: seq<string>, values: seq<string>)
    requires |names| == |values|
  {
    exists k {:trigger names[k]} :: 0 <= k < |names| && EndsWithCmd(names[k]) && values[k] == SWITCH_VALUE
  }

  // Where the parts of an attribute lie in the text that starts with c.
  lemma TailLayout(c: char, names: seq<string>, values: seq<string>)
    requires |names| == |values| > 0
    ensures var s, name, st, rest :=
                AttrTail(c, names, values), names[0], Stuffed(values[0]), AttrText(names[1..], values[1..]);
            var open := |name| + 2;
            && |s| == open + |st| + 2 + |rest|
            && s[0] == c && s[1..open - 1] == name && s[open - 1] == '=' && s[open] == QUOTE
            && s[open + 1..open + 1 + |st|] == st && s[open + 1 + |st|] == QUOTE && s[open + |st| + 2..] == rest
  {
    var s, name, st, rest := AttrTail(c, names, values), names[0], Stuffed(values[0]), AttrText(names[1..], values[1..]);
    assert s == [c] + (name + "=" + [QUOTE] + st + [QUOTE]) + rest;
  }

  // The first quote of the switch tag is the opening quote of an attribute "...cmd".
  lemma SwitchAtOpening(c: char, names: seq<string>, values: seq<string>, i: nat)
    requires |names| == |values| > 0 && IsName(names[0]) && c != 'c'
    requires HasAt(AttrTail(c, names, values), MODE_SWITCH_TAG, i) && i + 4 == |names[0]| + 2
    ensures EndsWithCmd(names[0]) && values[0] == SWITCH_VALUE
  {
    var s, name, st := AttrTail(c, names, values), names[0], Stuffed(values[0]);
    var open := |name| + 2;
    TailLayout(c, names, values);
    SwitchChars(s, i);
    assert i > 0;
    assert name[|name| - 3..] == s[1..open - 1][|name| - 3..] == s[i..i + 3];
    var t := s[open + 1..];
    assert SWITCH_VALUE + [QUOTE, ' '] == s[open + 1..open + 18] <= t;
    assert st + [QUOTE] == s[open + 1..open + 2 + |st|] <= t;
    SameValue(values[0], SWITCH_VALUE, t);
  }

  lemma NameWithoutQuote(s: string, name: string)
    requires IsName(name) && |s| > |name| && s[1..|name| + 1] == name
    ensures forall k {:trigger s[k]} :: 1 <= k < |name| + 1 ==> s[k] != QUOTE
  {
    forall k {:trigger s[k]} | 1 <= k < |name| + 1 ensures s[k] != QUOTE {
      assert s[k] == s[1..|name| + 1][k - 1] == name[k - 1] && name[k - 1] in name;
    }
  }

  // Within the value each quote has another one beside it.
  lemma ValueQuotes(s: string, st: string, open: nat)
    requires open + 2 + |st| <= |s| && s[open + 1..open + 1 + |st|] == st && Paired(st)
    ensures forall k {:trigger s[k]} :: open < k < open + 1 + |st| && s[k] == QUOTE ==> s[k + 1] == QUOTE || s[k - 1] == QUOTE
  {
    forall k {:trigger s[k]} | open < k < open + 1 + |st| && s[k] == QUOTE ensures s[k + 1] == QUOTE || s[k - 1] == QUOTE {
      assert forall j {:trigger st[j]} :: 0 <= j < |st| ==> st[j] == s[open + 1..open + 1 + |st|][j] == s[open + 1 + j];
      assert st[k - open - 1] == QUOTE;
      assert k + 1 < open + 1 + |st| ==> s[k + 1] == st[k - open];
      assert k - 1 > open ==> s[k - 1] == st[k - open - 2];
    }
  }

  // No quote of the first attribute but the opening one can be the first of the switch tag.
  lemma SwitchElsewhere(c: char, names: seq<string>, values: seq<string>, i: nat)
    requires |names| == |values| > 0 && IsName(names[0]) && c != QUOTE
    requires HasAt(AttrTail(c, names, values), MODE_SWITCH_TAG, i)
    ensures i + 4 == |names[0]| + 2 || i >= |names[0]| + 2 + |Stuffed(values[0])| + 2
  {
    var s, name, st := AttrTail(c, names, values), names[0], Stuffed(values[0]);
    var open, q := |name| + 2, i + 4;
    var close := open + 1 + |st|;
    TailLayout(c, names, values);
    SwitchChars(s, i);
    StuffedPaired(values[0]);
    NameWithoutQuote(s, name);
    ValueQuotes(s, st, open);
    assert s[close + 1] == s[close + 1..][0] == ' ';
  }

  lemma LaterIsSome(names: seq<string>, values: seq<string>)
    requires |names| == |values| > 0 && SomeSwitch(names[1..], values[1..])
    ensures SomeSwitch(names, values)
  {
    var k :| 0 <= k < |names[1..]| && EndsWithCmd(names[1..][k]) && values[1..][k] == SWITCH_VALUE;
    assert names[k + 1] == names[1..][k];
  }

  lemma HasAtRest(s: string, n: nat, pattern: string, i: nat)
    requires n <= |s|
    ensures HasAt(s[n..], pattern, i) <==> HasAt(s, pattern, n + i)
  {
    assert i + |pattern| <= |s[n..]| ==> s[n..][i..i + |pattern|] == s[n + i..n + i + |pattern|];
  }

  // Behind the first attribute the text of the other ones follows.
  lemma TailRest(c: char, names: seq<string>, values: seq<string>)
    requires |names| == |values| > 0
    ensures var n := |names[0]| + 4 + |Stuffed(values[0])|;
            n <= |AttrTail(c, names, values)| && AttrTail(c, names, values)[n..] == AttrText(names[1..], values[1..])
    ensures |names| > 1 ==> AttrText(names[1..], values[1..]) == AttrTail(' ', names[1..], values[1..])
    ensures |names| == 1 ==> |AttrText(names[1..], values[1..])| == 3
  {
    TailLayout(c, names, values);
  }

  lemma SwitchBehind(c: char, names: seq<string>, values: seq<string>, i: nat)
    requires |names| == |values| > 0
    requires HasAt(AttrTail(c, names, values), MODE_SWITCH_TAG, |names[0]| + 4 + |Stuffed(values[0])| + i)
    ensures |names| > 1 && HasAt(AttrTail(' ', names[1..], values[1..]), MODE_SWITCH_TAG, i)
  {
    TailRest(c, names, values);
    HasAtRest(AttrTail(c, names, values), |names[0]| + 4 + |Stuffed(values[0])|, MODE_SWITCH_TAG, i);
    SwitchTagParts();
  }

  lemma {:induction false} SwitchInTail(c: char, names: seq<string>, values: seq<string>, i: nat)
    requires |names| == |values| > 0 && AreNames(names) && (c == ' ' || c == '<')
    requires HasAt(AttrTail(c, names, values), MODE_SWITCH_TAG, i)
    ensures SomeSwitch(names, values)
    decreases |names|
  {
    assert names[0] in names;
    SwitchElsewhere(c, names, values, i);
    if i + 4 == |names[0]| + 2 {
      SwitchAtOpening(c, names, values, i);
    } else {
      var j := i - (|names[0]| + 4 + |Stuffed(values[0])|);
      SwitchBehind(c, names, values, j);
      SwitchInTail(' ', names[1..], values[1..], j);
      LaterIsSome(names, values);
    }
  }

  lemma HasAtMiddle(a: string, b: string, c: string)
    ensures HasAt(a + b + c, b, |a|)
  {
    assert (a + b + c)[|a|..|a| + |b|] == b;
  }

  lemma Regroup(c: char, before: string, cmd: string, eq: string, st: string, space: string, after: string)
    ensures [c] + ((before + cmd) + eq + [QUOTE] + st + [QUOTE]) + (space + after)
         == ([c] + before) + (cmd + eq + [QUOTE] + st + [QUOTE] + space) + after
  {
  }

  lemma SwitchText()
    ensures "cmd" + "=" + [QUOTE] + SWITCH_VALUE + [QUOTE] + " " == MODE_SWITCH_TAG
    ensures Unquoted(SWITCH_VALUE)
  {
  }

  lemma SwitchHere(c: char, names: seq<string>, values: seq<string>)
    requires |names| == |values| > 0 && EndsWithCmd(names[0]) && values[0] == SWITCH_VALUE
    ensures HasAt(AttrTail(c, names, values), MODE_SWITCH_TAG, |names[0]| - 2)
  {
    var name, rest := names[0], AttrText(names[1..], values[1..]);
    var before := name[..|name| - 3];
    SwitchText();
    StuffedUnquoted(SWITCH_VALUE);
    assert rest == " " + rest[1..] && name == before + "cmd";
    Regroup(c, before, "cmd", "=", SWITCH_VALUE, " ", rest[1..]);
    HasAtMiddle([c] + before, MODE_SWITCH_TAG, rest[1..]);
  }

  lemma SwitchLater(c: char, names: seq<string>, values: seq<string>, j: nat)
    requires |names| == |values| > 1 && HasAt(AttrTail(' ', names[1..], values[1..]), MODE_SWITCH_TAG, j)
    ensures HasAt(AttrTail(c, names, values), MODE_SWITCH_TAG, |names[0]| + 4 + |Stuffed(values[0])| + j)
  {
    TailRest(c, names, values);
    HasAtRest(AttrTail(c, names, values), |names[0]| + 4 + |Stuffed(values[0])|, MODE_SWITCH_TAG, j);
  }

  lemma {:induction false} SwitchFound(c: char, names: seq<string>, values: seq<string>, k: nat) returns (i: nat)
    requires |names| == |values| && k < |names| && EndsWithCmd(names[k]) && values[k] == SWITCH_VALUE
    ensures HasAt(AttrTail(c, names, values), MODE_SWITCH_TAG, i)
    decreases k
  {
    if k > 0 {
      var j := SwitchFound(' ', names[1..], values[1..], k - 1);
      SwitchLater(c, names, values, j);
      i := |names[0]| + 4 + |Stuffed(values[0])| + j;
    } else {
      SwitchHere(c, names, values);
      i := |names[0]| - 2;
    }
  }

  lemma CommandIsTail(names: seq<string>, values: seq<string>)
    requires |names| == |values| > 0
    ensures Command(AttrLiterals(names, ""), values) == AttrTail('<', names, values)
  {
    AttrBody(names, values, "");
    var text := Attr(names[0], values[0]) + AttrText(names[1..], values[1..]);
    assert "" + Attr(names[0], values[0]) == Attr(names[0], values[0]);
    Associate("<", Body(AttrLiterals(names, ""), values), TAG_END);
    Associate("<", Attr(names[0], values[0]), AttrText(names[1..], values[1..]));
  }

  // The handle switches to raw mode after exactly those commands that carry the value
  // start_send_page in an attribute whose name ends with "cmd".
  lemma SwitchesExactly(names: seq<string>, values: seq<string>)
    requires |names| == |values| > 0 && AreNames(names)
    ensures Switches(Command(AttrLiterals(names, ""), values)) <==> SomeSwitch(names, values)
  {
    var cmd := Command(AttrLiterals(names, ""), values);
    CommandIsTail(names, values);
    if Switches(cmd) {
      SwitchInTail('<', names, values, Find(cmd, MODE_SWITCH_TAG).value);
    }
    if SomeSwitch(names, values) {
      var k :| 0 <= k < |names| && EndsWithCmd(names[k]) && values[k] == SWITCH_VALUE;
      var i := SwitchFound('<', names, values, k);
      assert HasAt(cmd, MODE_SWITCH_TAG, i);
    }
  }

  // Commands that are built from attributes are tags, so streams of them are read back.
  lemma BuiltIsTag(names: seq<string>, values: seq<string>)
    requires |names| == |values| > 0 && AreNames(names) && forall v :: v in values ==> NUL !in v
    ensures IsTag(Command(AttrLiterals(names, ""), values))
  {
    var lits := AttrLiterals(names, "");
    var cmd := Command(lits, values);
    AttrLiteralsDelimited(names, "");
    CommandEnds(lits);
    assert cmd[|cmd| - 3..|cmd|] == TAG_END;
    BodyWithoutNul(lits, values);
  }

  lemma {:induction false} AttrLiteralsDelimited(names: seq<string>, before: string)
    requires AreNames(names) && (before == "" || before == " ")
    ensures Delimited(AttrLiterals(names, before)) && AllUnquoted(AttrLiterals(names, before))
    ensures forall lit :: lit in AttrLiterals(names, before) ==> NUL !in lit
    ensures names != [] && before == " " ==> AttrLiterals(names, before)[0][0] == ' '
    ensures names == [] ==> AttrLiterals(names, before)[0] == ""
    decreases |names|
  {
    if names != [] {
      AttrLiteralsDelimited(names[1..], " ");
      assert names[0] in names;
      var first, rest := before + names[0] + "=", AttrLiterals(names[1..], " ");
      var lits := AttrLiterals(names, before);
      assert lits == [first] + rest && first[|first| - 1] == '=';
      forall k {:trigger lits[k]} | 0 < k < |lits|
        ensures (k + 1 < |lits| && lits[k] != [] ==> lits[k][|lits[k]| - 1] != ' ') && (lits[k] != [] ==> lits[k][0] != '>')
      {
        assert lits[k] == rest[k - 1];
      }
    }
  }

  lemma {:induction false} StuffedWithoutNul(v: string)
    requires NUL !in v
    ensures NUL !in Stuffed(v)
  {
    if v != [] {
      StuffedWithoutNul(v[1..]);
    }
  }

  lemma {:induction false} BodyWithoutNul(lits: seq<string>, args: seq<string>)
    requires |lits| == |args| + 1
    requires (forall lit :: lit in lits ==> NUL !in lit) && forall arg :: arg in args ==> NUL !in arg
    ensures NUL !in Body(lits, args)
    decreases |args|
  {
    assert lits[0] in lits;
    if args != [] {
      assert args[0] in args;
      StuffedWithoutNul(args[0]);
      BodyWithoutNul(lits[1..], args[1..]);
    }
  }
}