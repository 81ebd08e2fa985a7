/** The two trace parsers of packages/executor/src/services/UserOpValidation/utils.ts, and the flat log
    that packages/executor/tracer.js writes for a call tree. */
module TraceParsers {
  import opened Wrappers
  import opened CallTrees

  // ----- Kinds of frames and records, as the regular expressions see them -----

  predicate Contains(s: string, sub: string) {
    sub <= s || (s != "" && Contains(s[1..], sub))
  }

  predicate IsExit(kind: string) {
    Contains(kind, "REVERT") || Contains(kind, "RETURN")
  }

  predicate IsCreate(kind: string) {
    Contains(kind, "CREATE")
  }

  predicate IsDepth(kind: string) {
    "depth" <= kind
  }

  /** One record of the flat log; fields that its kind does not have are empty. */
  datatype Record = Record(kind: string, from: Address, to: Address, selector: string, value: string, data: Hex)

  /** What a parser makes of the data a call returned, or reverted with. */
  datatype Outcome = Returned(text: string) | Reverted(text: string) | CreatedCode(length: nat)

  /** A parsed call; `None` stands for an undefined field. */
  datatype CallEntry = CallEntry(kind: string, from: Option<Address>, to: Option<Address>, name: Option<string>,
                                 value: Option<string>, outcome: Outcome)

  /** The ABI decoder; `None` stands for a call that throws. */
  datatype Xfaces = Xfaces(getFunction: string -> Option<string>, parseError: Hex -> Option<string>,
                           decodeFunctionResult: (string, Hex) -> Option<string>)

  // ----- The stack parser -----

  /** The entry pushed for an exit record, given the record on top of the stack, if there is one. */
  function ExitEntry(x: Xfaces, top: Option<Record>, c: Record): CallEntry {
    var kind := match top case Some(r) => r.kind case None => "top";
    var selector := match top case Some(r) => r.selector case None => "validateUserOp";
    var from := match top case Some(r) => Some(r.from) case None => None;
    var to := match top case Some(r) => Some(r.to) case None => None;
    var value := match top case Some(r) => Some(r.value) case None => None;
    var name := x.getFunction(selector);
    if IsCreate(kind) then CallEntry(kind, from, to, Some(""), None, CreatedCode(|c.data|))
    else if c.kind == "REVERT" then CallEntry(kind, from, to, name, value, Reverted(x.parseError(c.data).GetOr(c.data)))
    else CallEntry(kind, from, to, Some(name.GetOr(selector)), value,
                   Returned(x.decodeFunctionResult(name.GetOr(selector), c.data).GetOr(c.data)))
  }

  datatype Parse = Parse(stack: seq<Record>, out: seq<CallEntry>)

  function ParseRecord(x: Xfaces, s: Parse, c: Record): Parse {
    if IsDepth(c.kind) then s
    else if IsExit(c.kind) then
      if s.stack == [] then s.(out := s.out + [ExitEntry(x, None, c)])
      else Parse(s.stack[..|s.stack| - 1], s.out + [ExitEntry(x, Some(s.stack[|s.stack| - 1]), c)])
    else s.(stack := s.stack + [c])
  }

  function ParseFrom(x: Xfaces, s: Parse, log: seq<Record>): Parse {
    if log == [] then s else ParseRecord(x, ParseFrom(x, s, log[..|log| - 1]), log[|log| - 1])
  }

  /** `customERC7562TraceParser`. */
  method CustomTraceParser(x: Xfaces, log: seq<Record>) returns (out: seq<CallEntry>)
    ensures out == ParseFrom(x, Parse([], []), log).out
  {
    out := [];
    var stack: seq<Record> := [];
    for i := 0 to |log|
      invariant Parse(stack, out) == ParseFrom(x, Parse([], []), log[..i])
    {
      assert log[..i + 1][..i] == log[..i];
      var c := log[i];
      if IsDepth(c.kind) {
        continue;
      }
      if IsExit(c.kind) {
        var top: Option<Record> := None;
        if stack != [] {
          top := Some(stack[|stack| - 1]);
          stack := stack[..|stack| - 1];
        }
        out := out + [ExitEntry(x, top, c)];
      } else {
        stack := stack + [c];
      }
    }
    assert log[..|log|] == log;
  }

  // ----- The recursive parser -----

  function NativeEntry(x: Xfaces, c: Call): CallEntry {
    var selector := if |c.input| <= 10 then c.input else c.input[..10];
    var name := x.getFunction(selector).GetOr(selector);
    CallEntry(c.kind, Some(c.from), Some(c.to), Some(name), if c.value == "" then None else Some(c.value),
              Returned(if c.error != "" then x.parseError(c.output).GetOr(c.output)
                       else x.decodeFunctionResult(name, c.output).GetOr(c.output)))
  }

  /** The frames below a list of calls, each after the frames nested in it, leaving out "depth" frames
      and all that is nested in them. */
  function NativePostorder(calls: seq<Call>): seq<Call> {
    if calls == [] then []
    else
      var last := calls[|calls| - 1];
      NativePostorder(calls[..|calls| - 1])
      + if IsDepth(last.kind) then [] else NativePostorder(last.calls) + [last]
  }

  function NativeEntries(x: Xfaces, frames: seq<Call>): (entries: seq<CallEntry>)
    ensures |entries| == |frames|
    ensures forall i :: 0 <= i < |frames| ==> entries[i] == NativeEntry(x, frames[i])
  {
    seq(|frames|, i requires 0 <= i < |frames| => NativeEntry(x, frames[i]))
  }

  /** The frames the recursive parser visits, in the order it visits them. */
  function Frames(call: Call): seq<Call>
    decreases call, 1
  {
    [call] + FramesAll(call.calls)
  }

  function FramesAll(calls: seq<Call>): seq<Call>
    decreases calls, 0
  {
    if calls == [] then []
    else
      var last := calls[|calls| - 1];
      FramesAll(calls[..|calls| - 1]) + if IsDepth(last.kind) then [] else Frames(last)
  }

  /** The calls of a frame that come straight from the entry point. */
  function FromEntryPoint(calls: seq<Call>, entryPoint: Address): seq<Call> {
    if calls == [] then []
    else
      var last := calls[|calls| - 1];
      FromEntryPoint(calls[..|calls| - 1], entryPoint) + if last.from == entryPoint then [last] else []
  }

  /** Those of the first frame in the list that has any. */
  function FirstFromEntryPoint(frames: seq<Call>, entryPoint: Address): seq<Call> {
    if frames == [] then []
    else
      var before := FirstFromEntryPoint(frames[..|frames| - 1], entryPoint);
      if before != [] then before else FromEntryPoint(frames[|frames| - 1].calls, entryPoint)
  }

  lemma {:induction false} FirstOfAppend(a: seq<Call>, b: seq<Call>, entryPoint: Address)
    ensures FirstFromEntryPoint(a + b, entryPoint)
         == if FirstFromEntryPoint(a, entryPoint) != [] then FirstFromEntryPoint(a, entryPoint)
            else FirstFromEntryPoint(b, entryPoint)
    decreases |b|
  {
    if b == [] {
      assert a + b == a;
    } else {
      FirstOfAppend(a, b[..|b| - 1], entryPoint);
      assert (a + b)[..|a + b| - 1] == a + b[..|b| - 1];
    }
  }

  /** The frames seen once a frame and the first `i` of its calls are done. */
  function FramesUpTo(call: Call, i: nat): seq<Call>
    requires i <= |call.calls|
  {
    [call] + FramesAll(call.calls[..i])
  }

  /** The entries pushed for one nested call. */
  function EntriesOf(x: Xfaces, c: Call): seq<CallEntry> {
    if IsDepth(c.kind) then [] else NativeEntries(x, NativePostorder(c.calls)) + [NativeEntry(x, c)]
  }

  lemma OneMoreCall(x: Xfaces, call: Call, i: nat)
    requires i < |call.calls|
    ensures var c := call.calls[i];
            && FramesUpTo(call, i + 1) == FramesUpTo(call, i) + (if IsDepth(c.kind) then [] else Frames(c))
            && NativeEntries(x, NativePostorder(call.calls[..i + 1]))
               == NativeEntries(x, NativePostorder(call.calls[..i])) + EntriesOf(x, c)
  {
    assert call.calls[..i + 1][..i] == call.calls[..i];
  }

  lemma Regroup<T>(a: seq<T>, b: seq<T>, c: seq<T>)
    ensures (a + b) + c == a + (b + c)
    ensures a + [] == a
  {
  }

  lemma NoCallsYet(x: Xfaces, call: Call, entryPoint: Address)
    ensures NativeEntries(x, NativePostorder(call.calls[..0])) == []
    ensures FirstFromEntryPoint(FramesUpTo(call, 0), entryPoint) == FromEntryPoint(call.calls, entryPoint)
  {
    assert FramesUpTo(call, 0) == [call] && [call][..0] == [];
  }

  /** The calls of a frame from the entry point, unless some were found already. */
  method TopLevelCalls(calls: seq<Call>, entryPoint: Address, topLevel: seq<Call>) returns (topLevel': seq<Call>)
    ensures topLevel' == if topLevel != [] then topLevel else FromEntryPoint(calls, entryPoint)
  {
    topLevel' := topLevel;
    if topLevel == [] {
      for i := 0 to |calls|
        invariant topLevel' == FromEntryPoint(calls[..i], entryPoint)
      {
        assert calls[..i + 1][..i] == calls[..i];
        if calls[i].from == entryPoint {
          topLevel' := topLevel' + [calls[i]];
        }
      }
      assert calls[..|calls|] == calls;
    }
  }

  /** `nativeERC7562TraceParser`: entries are appended in post-order, and the top-level calls are
      those of the first visited frame that has calls from the entry point. */
  method NativeTraceParser(x: Xfaces, call: Call, entryPoint: Address, out: seq<CallEntry>, topLevel: seq<Call>)
    returns (out': seq<CallEntry>, topLevel': seq<Call>)
    ensures out' == out + NativeEntries(x, NativePostorder(call.calls))
    ensures topLevel' == if topLevel != [] then topLevel else FirstFromEntryPoint(Frames(call), entryPoint)
    decreases call, 0
  {
    out' := out;
    topLevel' := TopLevelCalls(call.calls, entryPoint, topLevel);
    NoCallsYet(x, call, entryPoint);
    hide NativeEntry, FromEntryPoint;
    for i := 0 to |call.calls|
      invariant out' == out + NativeEntries(x, NativePostorder(call.calls[..i]))
      invariant topLevel' == if topLevel != [] then topLevel else FirstFromEntryPoint(FramesUpTo(call, i), entryPoint)
    {
      var c := call.calls[i];
      OneMoreCall(x, call, i);
      FirstOfAppend(FramesUpTo(call, i), if IsDepth(c.kind) then [] else Frames(c), entryPoint);
      ghost var done, more := NativeEntries(x, NativePostorder(call.calls[..i])), EntriesOf(x, c);
      Regroup(out, done, more);
      if !IsDepth(c.kind) {
        out', topLevel' := ParseNested(x, c, entryPoint, out', topLevel');
      }
      assert out' == out + (done + more);
    }
    assert call.calls[..|call.calls|] == call.calls;
  }

  /** The body of the loop over the nested calls. */
  method ParseNested(x: Xfaces, c: Call, entryPoint: Address, out: seq<CallEntry>, topLevel: seq<Call>)
    returns (out': seq<CallEntry>, topLevel': seq<Call>)
    requires !IsDepth(c.kind)
    ensures out' == out + EntriesOf(x, c)
    ensures topLevel' == if topLevel != [] then topLevel else FirstFromEntryPoint(Frames(c), entryPoint)
    decreases c, 1
  {
    out', topLevel' := NativeTraceParser(x, c, entryPoint, out, topLevel);
    out' := out' + [NativeEntry(x, c)];
  }

  // ----- The log of a forest -----

  function EnterRecord(c: Call): Record {
    Record(c.kind, c.from, c.to, if |c.input| <= 10 then c.input else c.input[..10], c.value, "")
  }

  /** At most four thousand characters of the output are kept. */
  function ExitRecord(c: Call): Record {
    Record(if c.error != "" then "REVERT" else "RETURN", "", "", "", "",
           if |c.output| <= 4000 then c.output else c.output[..4000])
  }

  /** What `enter` and `exit` write while a call, and everything nested in it, runs. */
  function LogOf(call: Call): seq<Record>
    decreases call, 1
  {
    [EnterRecord(call)] + LogOfAll(call.calls) + [ExitRecord(call)]
  }

  function LogOfAll(calls: seq<Call>): seq<Record>
    decreases calls, 0
  {
    if calls == [] then [] else LogOfAll(calls[..|calls| - 1]) + LogOf(calls[|calls| - 1])
  }

  /** All frames of a forest, each after the frames nested in it. */
  function Postorder(calls: seq<Call>): seq<Call> {
    if calls == [] then []
    else
      var last := calls[|calls| - 1];
      Postorder(calls[..|calls| - 1]) + (Postorder(last.calls) + [last])
  }

  /** No frame's kind reads as an exit record. */
  predicate NoExitKinds(calls: seq<Call>) {
    calls == []
    || (var last := calls[|calls| - 1];
        NoExitKinds(calls[..|calls| - 1]) && !IsExit(last.kind) && NoExitKinds(last.calls))
  }

  predicate NoDepthKinds(calls: seq<Call>) {
    calls == []
    || (var last := calls[|calls| - 1];
        NoDepthKinds(calls[..|calls| - 1]) && !IsDepth(last.kind) && NoDepthKinds(last.calls))
  }

  /** The entry of a frame is parsed from its own two records. */
  function FrameEntry(x: Xfaces, c: Call): CallEntry {
    ExitEntry(x, Some(EnterRecord(c)), ExitRecord(c))
  }

  function FrameEntries(x: Xfaces, frames: seq<Call>): (entries: seq<CallEntry>)
    ensures |entries| == |frames|
    ensures forall i :: 0 <= i < |frames| ==> entries[i] == FrameEntry(x, frames[i])
  {
    seq(|frames|, i requires 0 <= i < |frames| => FrameEntry(x, frames[i]))
  }

  lemma {:induction false} ParseOfAppend(x: Xfaces, s: Parse, a: seq<Record>, b: seq<Record>)
    ensures ParseFrom(x, s, a + b) == ParseFrom(x, ParseFrom(x, s, a), b)
    decreases |b|
  {
    hide ParseRecord;
    if b == [] {
      assert a + b == a;
    } else {
      ParseOfAppend(x, s, a, b[..|b| - 1]);
      assert (a + b)[..|a + b| - 1] == a + b[..|b| - 1];
    }
  }

  lemma ParseOfOne(x: Xfaces, s: Parse, c: Record)
    ensures ParseFrom(x, s, [c]) == ParseRecord(x, s, c)
  {
    assert [c][..0] == [];
  }

  lemma ExitKinds(kind: string)
    requires kind == "REVERT" || kind == "RETURN"
    ensures IsExit(kind) && !IsDepth(kind)
  {
    assert "depth"[0] == 'd' && kind[0] == 'R';
  }

  function Emitted(s: Parse, entries: seq<CallEntry>): Parse {
    s.(out := s.out + entries)
  }

  lemma EmittedTwice(s: Parse, a: seq<CallEntry>, b: seq<CallEntry>)
    ensures Emitted(Emitted(s, a), b) == Emitted(s, a + b)
  {
    assert s.out + a + b == s.out + (a + b);
  }

  lemma EntriesOfAppend(x: Xfaces, a: seq<Call>, b: seq<Call>)
    ensures FrameEntries(x, a + b) == FrameEntries(x, a) + FrameEntries(x, b)
  {
  }

  lemma ParseOfExit(x: Xfaces, s: Parse, call: Call)
    ensures ParseRecord(x, s.(stack := s.stack + [EnterRecord(call)]), ExitRecord(call))
         == Emitted(s, FrameEntries(x, [call]))
  {
    ExitKinds(ExitRecord(call).kind);
    var enter := EnterRecord(call);
    assert (s.stack + [enter])[..|s.stack|] == s.stack;
    assert FrameEntries(x, [call]) == [FrameEntry(x, call)];
  }

  /** A call's log leaves the stack as it was and adds the entries of the call's frames in post-order. */
  lemma {:induction false} ParseOfCall(x: Xfaces, s: Parse, call: Call)
    requires !IsExit(call.kind) && !IsDepth(call.kind) && NoExitKinds(call.calls) && NoDepthKinds(call.calls)
    ensures ParseFrom(x, s, LogOf(call)) == Emitted(s, FrameEntries(x, Postorder(call.calls) + [call]))
    decreases call, 1
  {
    var enter, exit := EnterRecord(call), ExitRecord(call);
    var s1 := s.(stack := s.stack + [enter]);
    var nested := FrameEntries(x, Postorder(call.calls));
    ParseOfAppend(x, s, [enter] + LogOfAll(call.calls), [exit]);
    ParseOfAppend(x, s, [enter], LogOfAll(call.calls));
    ParseOfOne(x, s, enter);
    ParseOfCalls(x, s1, call.calls);
    ParseOfOne(x, Emitted(s1, nested), exit);
    ParseOfExit(x, Emitted(s, nested), call);
    EmittedTwice(s, nested, FrameEntries(x, [call]));
    EntriesOfAppend(x, Postorder(call.calls), [call]);
  }

  lemma {:induction false} ParseOfCalls(x: Xfaces, s: Parse, calls: seq<Call>)
    requires NoExitKinds(calls) && NoDepthKinds(calls)
    ensures ParseFrom(x, s, LogOfAll(calls)) == Emitted(s, FrameEntries(x, Postorder(calls)))
    decreases calls, 0
  {
    if calls == [] {
      assert FrameEntries(x, []) == [];
    } else {
      var init, last := calls[..|calls| - 1], calls[|calls| - 1];
      var a, b := Postorder(init), Postorder(last.calls) + [last];
      ParseOfAppend(x, s, LogOfAll(init), LogOf(last));
      ParseOfCalls(x, s, init);
      ParseOfCall(x, Emitted(s, FrameEntries(x, a)), last);
      EmittedTwice(s, FrameEntries(x, a), FrameEntries(x, b));
      EntriesOfAppend(x, a, b);
    }
  }

  /** The extra exit record written when the top-level frame ends. */
  ghost predicate IsFinalExit(c: Record) {
    c.kind == "RETURN" || c.kind == "REVERT"
  }

  /** On the log of any call forest, followed by the final exit of the top-level frame, the stack
      parser yields the entries of all frames in post-order and then one synthetic "top" entry, and
      its stack ends up empty. */
  lemma StackParserYieldsPostorder(x: Xfaces, calls: seq<Call>, final: Record)
    requires NoExitKinds(calls) && NoDepthKinds(calls) && IsFinalExit(final)
    ensures ParseFrom(x, Parse([], []), LogOfAll(calls) + [final])
         == Parse([], FrameEntries(x, Postorder(calls)) + [ExitEntry(x, None, final)])
  {
    hide ParseFrom, LogOfAll, Postorder, FrameEntries, NoExitKinds, NoDepthKinds;
    var start := Parse([], []);
    ParseOfAppend(x, start, LogOfAll(calls), [final]);
    ParseOfCalls(x, start, calls);
    ParseOfOne(x, Emitted(start, FrameEntries(x, Postorder(calls))), final);
    ExitKinds(final.kind);
  }

  lemma {:induction false} PostorderOfPrefix(calls: seq<Call>, n: nat)
    requires n <= |calls|
    ensures Postorder(calls[..n]) <= Postorder(calls)
    ensures NoExitKinds(calls) ==> NoExitKinds(calls[..n])
    ensures NoDepthKinds(calls) ==> NoDepthKinds(calls[..n])
  {
    if n == |calls| {
      assert calls[..n] == calls;
    } else {
      PostorderOfPrefix(calls[..|calls| - 1], n);
      assert calls[..|calls| - 1][..n] == calls[..n];
    }
  }

  /** The tracer stops collecting on a log of the top-level frame, that is between two of its calls, and
      then writes no final exit either: the parser yields the entries of the calls made so far, a prefix
      of what it yields otherwise, and no "top" entry. */
  lemma StoppedLogYieldsPrefix(x: Xfaces, calls: seq<Call>, n: nat, final: Record)
    requires NoExitKinds(calls) && NoDepthKinds(calls) && n <= |calls| && IsFinalExit(final)
    ensures var stopped := ParseFrom(x, Parse([], []), LogOfAll(calls[..n]));
            && stopped == Parse([], FrameEntries(x, Postorder(calls[..n])))
            && stopped.out <= ParseFrom(x, Parse([], []), LogOfAll(calls) + [final]).out
  {
    hide ParseFrom, LogOfAll, Postorder, NoExitKinds, NoDepthKinds;
    PostorderOfPrefix(calls, n);
    ParseOfCalls(x, Parse([], []), calls[..n]);
    StackParserYieldsPostorder(x, calls, final);
  }

  // ----- The entries, field by field -----

  lemma {:induction false} ContainsExactlyWhen(s: string, sub: string)
    ensures Contains(s, sub) <==> exists i :: 0 <= i <= |s| && sub <= s[i..]
  {
    if sub <= s {
      assert s[0..] == s;
    } else if s == "" {
    } else {
      ContainsExactlyWhen(s[1..], sub);
      forall i | 0 <= i <= |s[1..]| ensures s[1..][i..] == s[i + 1..] {
      }
      if i :| 0 <= i <= |s| && sub <= s[i..] {
        if i > 0 {
          assert s[1..][i - 1..] == s[i..];
        }
      }
    }
  }

  /** A record makes an entry exactly when its kind reads as the end of a frame, and then takes a record off
      the stack; records of kind "depth" are passed over, and all others go onto the stack. */
  lemma RecordByKind(x: Xfaces, s: Parse, c: Record)
    ensures var t, ends := ParseRecord(x, s, c), Contains(c.kind, "REVERT") || Contains(c.kind, "RETURN");
            if "depth" <= c.kind then t == s
            else if !ends then t.out == s.out && t.stack == s.stack + [c]
            else && |t.out| == |s.out| + 1 && s.out <= t.out
                 && t.stack == (if s.stack == [] then [] else s.stack[..|s.stack| - 1])
  {
  }

  function Cut(s: string, n: nat): (r: string)
    ensures r <= s && |r| == if |s| < n then |s| else n
  {
    if |s| < n then s else s[..n]
  }

  /** The entry of a frame: that of a created contract tells the length of the code, all others what was
      returned, or, after an error, what was reverted with. */
  ghost predicate Tells(x: Xfaces, e: CallEntry, c: Call) {
    var data, selector := Cut(c.output, 4000), Cut(c.input, 10);
    && e.kind == c.kind && e.from == Some(c.from) && e.to == Some(c.to)
    && if Contains(c.kind, "CREATE") then
         e.name == Some("") && e.value == None && e.outcome == CreatedCode(|data|)
       else e.value == Some(c.value) && TellsOutcome(x, e, c.error != "", selector, data)
  }

  /** After an error the name is that of a known function or missing; otherwise an unknown selector stands for
      itself. */
  ghost predicate TellsOutcome(x: Xfaces, e: CallEntry, failed: bool, selector: string, data: Hex) {
    var name := x.getFunction(selector);
    if failed then
      && e.name == name
      && e.outcome == Reverted(if x.parseError(data).Some? then x.parseError(data).value else data)
    else
      var known := if name.Some? then name.value else selector;
      var decoded := x.decodeFunctionResult(known, data);
      && e.name == Some(known)
      && e.outcome == Returned(if decoded.Some? then decoded.value else data)
  }

  lemma FrameEntryTells(x: Xfaces, c: Call)
    ensures Tells(x, FrameEntry(x, c), c)
  {
    hide Contains;
    CutsAgree(c.input, 10);
    CutsAgree(c.output, 4000);
  }

  lemma CutsAgree(s: string, n: nat)
    ensures (if |s| <= n then s else s[..n]) == Cut(s, n)
  {
  }

  lemma EntryByFields(x: Xfaces, calls: seq<Call>, final: Record, i: nat)
    requires NoExitKinds(calls) && NoDepthKinds(calls) && IsFinalExit(final) && i < |Postorder(calls)|
    ensures var out := ParseFrom(x, Parse([], []), LogOfAll(calls) + [final]).out;
            |out| == |Postorder(calls)| + 1 && Tells(x, out[i], Postorder(calls)[i])
  {
    StackParserYieldsPostorder(x, calls, final);
    hide ParseFrom, LogOfAll, Postorder, NoExitKinds, NoDepthKinds, Tells, FrameEntry, ExitEntry;
    FrameEntryTells(x, Postorder(calls)[i]);
  }

  /** The last entry is that of the top-level frame, which has no record on the stack. */
  lemma TopEntryByFields(x: Xfaces, calls: seq<Call>, final: Record)
    requires NoExitKinds(calls) && NoDepthKinds(calls) && IsFinalExit(final)
    ensures var out := ParseFrom(x, Parse([], []), LogOfAll(calls) + [final]).out;
            && out != []
            && var e := out[|out| - 1];
               && e.kind == "top" && e.from == None && e.to == None && e.value == None
               && TellsOutcome(x, e, final.kind == "REVERT", "validateUserOp", final.data)
  {
    StackParserYieldsPostorder(x, calls, final);
    TopExitTells(x, final);
    hide ParseFrom, LogOfAll, Postorder, NoExitKinds, NoDepthKinds, ExitEntry, TellsOutcome;
  }

  lemma TopExitTells(x: Xfaces, final: Record)
    ensures var e := ExitEntry(x, None, final);
            && e.kind == "top" && e.from == None && e.to == None && e.value == None
            && TellsOutcome(x, e, final.kind == "REVERT", "validateUserOp", final.data)
  {
    TopIsNoCreate();
    hide Contains;
  }

  lemma TopIsNoCreate()
    ensures !Contains("top", "CREATE")
  {
    ContainsExactlyWhen("top", "CREATE");
  }

  /** The recursive parser makes an entry of each frame that is no "depth" frame nor nested in one; it tells
      returned and reverted data apart by nothing but their decoding. */
  lemma NativeEntryByFields(x: Xfaces, calls: seq<Call>, i: nat)
    requires i < |NativePostorder(calls)|
    ensures !("depth" <= NativePostorder(calls)[i].kind)
    ensures NativeTells(x, NativeEntries(x, NativePostorder(calls))[i], NativePostorder(calls)[i])
  {
    NoDepthAmongNative(calls, NativePostorder(calls)[i]);
    hide NativePostorder;
    CutsAgree(NativePostorder(calls)[i].input, 10);
  }

  ghost predicate NativeTells(x: Xfaces, e: CallEntry, c: Call) {
    var selector := Cut(c.input, 10);
    var known := if x.getFunction(selector).Some? then x.getFunction(selector).value else selector;
    var decoded := if c.error != "" then x.parseError(c.output) else x.decodeFunctionResult(known, c.output);
    && e.kind == c.kind && e.from == Some(c.from) && e.to == Some(c.to) && e.name == Some(known)
    && e.value == (if c.value == "" then None else Some(c.value))
    && e.outcome == Returned(if decoded.Some? then decoded.value else c.output)
  }

  lemma {:induction false} NoDepthAmongNative(calls: seq<Call>, c: Call)
    ensures c in NativePostorder(calls) ==> !("depth" <= c.kind)
    decreases calls
  {
    if calls == [] {
    } else {
      NoDepthAmongNative(calls[..|calls| - 1], c);
      NoDepthAmongNative(calls[|calls| - 1].calls, c);
    }
  }

  /** The top-level calls a frame yields are all of its calls from the entry point, in order. */
  lemma {:induction false} FromEntryPointFilters(a: seq<Call>, b: seq<Call>, entryPoint: Address, c: Call)
    ensures FromEntryPoint([c], entryPoint) == if c.from == entryPoint then [c] else []
    ensures FromEntryPoint(a + b, entryPoint) == FromEntryPoint(a, entryPoint) + FromEntryPoint(b, entryPoint)
    decreases |b|
  {
    assert [c][..0] == [];
    if b == [] {
      assert a + b == a;
    } else {
      FromEntryPointFilters(a, b[..|b| - 1], entryPoint, c);
      assert (a + b)[..|a + b| - 1] == a + b[..|b| - 1];
    }
  }

  // ----- The two parsers agree -----

  /** What both parsers say of a call: its kind, its sender and its target. */
  function Shape(e: CallEntry): (string, Option<Address>, Option<Address>) {
    (e.kind, e.from, e.to)
  }

  function Shapes(entries: seq<CallEntry>): (shapes: seq<(string, Option<Address>, Option<Address>)>)
    ensures |shapes| == |entries|
    ensures forall i :: 0 <= i < |entries| ==> shapes[i] == Shape(entries[i])
  {
    seq(|entries|, i requires 0 <= i < |entries| => Shape(entries[i]))
  }

  /** The recursive parser keeps all frames exactly when none of them is a "depth" frame. */
  lemma {:induction false} NativeKeepsAllExactlyWhen(calls: seq<Call>)
    ensures NoDepthKinds(calls) ==> NativePostorder(calls) == Postorder(calls)
    ensures !NoDepthKinds(calls) ==> |NativePostorder(calls)| < |Postorder(calls)|
    decreases calls
  {
    if calls == [] {
    } else {
      NativeKeepsAllExactlyWhen(calls[..|calls| - 1]);
      NativeKeepsAllExactlyWhen(calls[|calls| - 1].calls);
    }
  }

  /** The stack parser makes one entry for every exit record, whatever it drops on the way in. */
  lemma {:induction false} OneEntryPerCall(x: Xfaces, s: Parse, call: Call)
    requires !IsExit(call.kind) && NoExitKinds(call.calls)
    ensures |ParseFrom(x, s, LogOf(call)).out| == |s.out| + |Postorder(call.calls)| + 1
    decreases call, 1
  {
    var enter, exit := EnterRecord(call), ExitRecord(call);
    var s1 := ParseRecord(x, s, enter);
    var s2 := ParseFrom(x, s1, LogOfAll(call.calls));
    ParseOfAppend(x, s, [enter] + LogOfAll(call.calls), [exit]);
    ParseOfAppend(x, s, [enter], LogOfAll(call.calls));
    ParseOfOne(x, s, enter);
    OneEntryPerExit(x, s1, call.calls);
    ParseOfOne(x, s2, exit);
    ExitKinds(exit.kind);
  }

  lemma {:induction false} OneEntryPerExit(x: Xfaces, s: Parse, calls: seq<Call>)
    requires NoExitKinds(calls)
    ensures |ParseFrom(x, s, LogOfAll(calls)).out| == |s.out| + |Postorder(calls)|
    decreases calls, 0
  {
    if calls == [] {
    } else {
      var init, last := calls[..|calls| - 1], calls[|calls| - 1];
      ParseOfAppend(x, s, LogOfAll(init), LogOf(last));
      OneEntryPerExit(x, s, init);
      OneEntryPerCall(x, ParseFrom(x, s, LogOfAll(init)), last);
    }
  }

  /** Before its final "top" entry the stack parser lists the same calls in the same order as the
      recursive parser exactly when the forest has no "depth" frames: those lose their enter records
      in the one, and their whole subtrees in the other. */
  lemma ParsersAgreeExactlyWhen(x: Xfaces, calls: seq<Call>, final: Record)
    requires NoExitKinds(calls) && IsFinalExit(final)
    ensures var out := ParseFrom(x, Parse([], []), LogOfAll(calls) + [final]).out;
            && |out| > 0
            && (Shapes(out[..|out| - 1]) == Shapes(NativeEntries(x, NativePostorder(calls))) <==> NoDepthKinds(calls))
  {
    var out := ParseFrom(x, Parse([], []), LogOfAll(calls) + [final]).out;
    NativeKeepsAllExactlyWhen(calls);
    OneEntryPerRecord(x, calls, final);
    if NoDepthKinds(calls) {
      StackParserYieldsPostorder(x, calls, final);
      assert out[..|out| - 1] == FrameEntries(x, Postorder(calls));
      SameShapes(x, Postorder(calls));
    }
  }

  lemma SameShapes(x: Xfaces, frames: seq<Call>)
    ensures Shapes(FrameEntries(x, frames)) == Shapes(NativeEntries(x, frames))
  {
    forall i | 0 <= i < |frames| ensures Shape(FrameEntry(x, frames[i])) == Shape(NativeEntry(x, frames[i])) {
    }
  }

  lemma OneEntryPerRecord(x: Xfaces, calls: seq<Call>, final: Record)
    requires NoExitKinds(calls) && IsFinalExit(final)
    ensures |ParseFrom(x, Parse([], []), LogOfAll(calls) + [final]).out| == |Postorder(calls)| + 1
  {
    hide ParseFrom, LogOfAll, Postorder, FrameEntries, NoExitKinds, NoDepthKinds;
    var start := Parse([], []);
    ParseOfAppend(x, start, LogOfAll(calls), [final]);
    OneEntryPerExit(x, start, calls);
    ParseOfOne(x, ParseFrom(x, start, LogOfAll(calls)), final);
    ExitKinds(final.kind);
  }
}
