/** The character-driven shell of shell.c: line editor, dispatcher, three-q exit and
    pass-through. The specification works on the line as an edit stack; the class works on the
    128-byte buffer, and its tokenizer cuts the line up in place. */
module Shell {
  import opened Machine
  import opened CString
  import opened MicroUtil
  import opened Tokenizer
  import opened CommandRegistry
  import opened Probe

  const CMDLINE_BUF_LEN := 128

  // ----- specification

  /** What a command function, or a pass-through function other than the probe's, does when it
      is called: its return value and the calls it makes on the pass-through slot. */
  datatype PassAction = ProbeSetFuncs(pf: Option<nat>) | SetPassTo(id: nat)

  datatype Env = Env(ret: int, actions: seq<PassAction>, clears: bool)

  /** `line` is the edit stack, `typed` that a non-space character was entered since the last
      processed line, `qs` the q count; `pass` and `pf` are the pass-through slot and the
      probe's callback table, `edit` the probe's pending digits. */
  datatype State = State(line: seq<Byte>, typed: bool, qs: nat,
                         pass: Option<PassFunc>, pf: Option<nat>, edit: Edit) {
    ghost predicate Ok() {
      && |line| <= 126
      && (typed || forall i :: 0 <= i < |line| ==> IsSpace(line[i]))
      && (pf.Some? <==> pass == Some(ProbeProc))
      && (pass.Some? ==> line == [])
      && edit.Ok()
    }
  }

  datatype Effect =
    | Quiet
    | Passed(calls: seq<PfCall>)
    | Blank
    | Comment
    | BadCommand(name: Text)
    | WrongArgs(cmd: Command)
    | Called(func: nat, argv: seq<Text>)

  datatype Reply = Reply(state: State, ret: int, effect: Effect)

  function Act(s: State, a: PassAction): State {
    match a
    case ProbeSetFuncs(pf) =>
      if pf.Some? && s.pass == None then s.(pass := Some(ProbeProc), pf := pf) else s
    case SetPassTo(id) =>
      if s.pass == None then s.(pass := Some(OtherProc(id))) else s
  }

  function ActAll(s: State, acts: seq<PassAction>): State
    decreases |acts|
  {
    if acts == [] then s else Act(ActAll(s, acts[..|acts| - 1]), acts[|acts| - 1])
  }

  /** The words a processed line is split into; a NUL typed into the line ends it. */
  function LineArgs(line: seq<Byte>): seq<Text> {
    Args(CStr(line + [0], 0), CMD_BUF_NARGS)
  }

  /** The meaning of a processed line. */
  function Dispatch(cs: seq<Command>, argv: seq<Text>, ret: int): (int, Effect)
    requires WellFormed(cs)
  {
    if argv == [] then (0, Blank)
    else if argv[0] != [] && argv[0][0] == '#' as int then (1, Comment)
    else if Find(cs, argv[0]) == |cs| then (1, BadCommand(argv[0]))
    else
      var c := cs[Find(cs, argv[0])];
      if |argv| < c.min || |argv| > c.max then (1, WrongArgs(c))
      else (ret, Called(c.func.value, argv))
  }

  function ProcessLine(cs: seq<Command>, s: State, line: seq<Byte>, env: Env): Reply
    requires WellFormed(cs)
  {
    var argv := LineArgs(line);
    var (ret, effect) := Dispatch(cs, argv, env.ret);
    var after := if effect.Called? then ActAll(s, env.actions) else s;
    Reply(after.(line := [], typed := false, qs := if argv == [] then s.qs else 0), ret, effect)
  }

  /** A character given to the pass-through function. */
  function PassStep(s: State, cc: Byte, env: Env): Reply
    requires s.pass.Some? && s.edit.Ok()
  {
    if s.pass == Some(ProbeProc) then
      var after := s.(edit := EditStep(s.edit, cc));
      Reply(if IsClose(cc) then after.(pass := None, pf := None) else after,
            if IsClose(cc) then 1 else 0, Passed(PfCalls(s.edit, cc)))
    else
      Reply(if env.clears then s.(pass := None) else s, env.ret, Passed([]))
  }

  /** A q at the start of the line, which counts towards the exit. */
  predicate CountsQ(s: State, cc: Byte) {
    s.pass == None && s.line == [] && ToLower(cc) == 'q' as int
  }

  /** shell_process_input on the abstract state. */
  function Step(cs: seq<Command>, s: State, cc: Byte, env: Env): Reply
    requires WellFormed(cs) && s.edit.Ok()
  {
    var b := ToLower(cc);
    if s.pass.Some? then PassStep(s, b, env)
    else if (s.line == [] || !s.typed) && IsNewline(b) then Reply(s, 1, Quiet)
    else if CountsQ(s, cc) then
      Reply(s.(qs := s.qs + 1), if s.qs < 2 then 1 else if s.qs == 2 then -1 else 0, Quiet)
    else if IsNewline(b) then ProcessLine(cs, s, s.line, env)
    else if IsErase(b) then
      Reply(if s.line == [] then s else s.(line := s.line[..|s.line| - 1]), 0, Quiet)
    else
      var longer := s.(line := s.line + [b], typed := s.typed || !IsSpace(b));
      if |longer.line| == CMDLINE_BUF_LEN - 1 then ProcessLine(cs, longer, longer.line, env)
      else Reply(longer, 0, Quiet)
  }

  // ----- runs

  datatype Input = Input(cc: Byte, env: Env)

  lemma {:induction false} ActAllKeeps(s: State, acts: seq<PassAction>)
    requires s.pf.Some? <==> s.pass == Some(ProbeProc)
    ensures var r := ActAll(s, acts);
      (r.pf.Some? <==> r.pass == Some(ProbeProc)) && r.edit == s.edit
    decreases |acts|
  {
    if acts != [] {
      ActAllKeeps(s, acts[..|acts| - 1]);
    }
  }

  /** Every character keeps the invariant: the line fits, an unset data flag means the line is
      blank, the callback table is set exactly while the probe holds the slot, and the line is
      empty while anyone does. */
  lemma StepKeeps(cs: seq<Command>, s: State, cc: Byte, env: Env)
    requires WellFormed(cs) && s.Ok()
    ensures Step(cs, s, cc, env).state.Ok()
  {
    hide ActAll, LineArgs, Dispatch, PfCalls;
    ActAllKeeps(s, env.actions);
    ActAllKeeps(s.(line := s.line + [ToLower(cc)], typed := s.typed || !IsSpace(ToLower(cc))),
                env.actions);
  }

  function Run(cs: seq<Command>, s: State, ins: seq<Input>): (r: State)
    requires WellFormed(cs) && s.Ok()
    ensures r.Ok()
    decreases |ins|
  {
    if ins == [] then s
    else
      var p, i := Run(cs, s, ins[..|ins| - 1]), ins[|ins| - 1];
      StepKeeps(cs, p, i.cc, i.env);
      Step(cs, p, i.cc, i.env).state
  }

  /** What the last character of a run returns. */
  function LastReply(cs: seq<Command>, s: State, ins: seq<Input>): Reply
    requires WellFormed(cs) && s.Ok() && ins != []
  {
    Step(cs, Run(cs, s, ins[..|ins| - 1]), ins[|ins| - 1].cc, ins[|ins| - 1].env)
  }

  const START := State([], false, 0, None, None, Edit([], 0))

  /** The early newline return skips only lines of spaces. */
  lemma SkippedLinesAreBlank(cs: seq<Command>, s: State, ins: seq<Input>)
    requires WellFormed(cs) && s.Ok() && ins != []
    requires var p := Run(cs, s, ins[..|ins| - 1]);
      p.pass == None && p.line != [] && IsNewline(ToLower(ins[|ins| - 1].cc))
    ensures var p, r := Run(cs, s, ins[..|ins| - 1]), LastReply(cs, s, ins);
      r.effect == Quiet ==> r.state == p && forall i :: 0 <= i < |p.line| ==> IsSpace(p.line[i])
  {
  }

  /** An erase undoes the character typed before it; only the data flag remembers. */
  lemma EraseUndoes(cs: seq<Command>, s: State, cc: Byte, env: Env, bs: Byte, env': Env)
    requires WellFormed(cs) && s.Ok() && s.pass == None && |s.line| < 126 && (bs == 8 || bs == 127)
    requires !IsNewline(ToLower(cc)) && !IsErase(ToLower(cc)) && !CountsQ(s, cc)
    ensures var typed := Step(cs, s, cc, env).state;
      && typed.line == s.line + [ToLower(cc)]
      && Step(cs, typed, bs, env').state == s.(typed := typed.typed)
  {
    var typed := Step(cs, s, cc, env).state;
    assert typed.line[..|s.line|] == s.line;
  }

  // ----- the three-q exit

  /** The character completes a line with at least one word. */
  predicate EndsWordLine(s: State, cc: Byte) {
    var b := ToLower(cc);
    s.pass == None
    && (if IsNewline(b) then s.line != [] && s.typed && LineArgs(s.line) != []
        else !IsErase(b) && |s.line| == CMDLINE_BUF_LEN - 2 && LineArgs(s.line + [b]) != [])
  }

  /** The q's that count since the start or the last line with a word, read off the history. */
  function QsSince(cs: seq<Command>, s: State, ins: seq<Input>): nat
    requires WellFormed(cs) && s.Ok()
    decreases |ins|
  {
    if ins == [] then s.qs
    else
      var before, cc := ins[..|ins| - 1], ins[|ins| - 1].cc;
      var p := Run(cs, s, before);
      if CountsQ(p, cc) then QsSince(cs, s, before) + 1
      else if EndsWordLine(p, cc) then 0
      else QsSince(cs, s, before)
  }

  lemma {:induction false} ActAllKeepsQs(s: State, acts: seq<PassAction>)
    ensures ActAll(s, acts).qs == s.qs
    decreases |acts|
  {
    if acts != [] {
      ActAllKeepsQs(s, acts[..|acts| - 1]);
    }
  }

  lemma StepCountsQ(cs: seq<Command>, p: State, cc: Byte, env: Env)
    requires WellFormed(cs) && p.Ok()
    ensures Step(cs, p, cc, env).state.qs
         == if CountsQ(p, cc) then p.qs + 1 else if EndsWordLine(p, cc) then 0 else p.qs
  {
    ActAllKeepsQs(p, env.actions);
    ActAllKeepsQs(p.(line := p.line + [ToLower(cc)], typed := p.typed || !IsSpace(ToLower(cc))),
                  env.actions);
  }

  lemma {:induction false} QCountIsHistory(cs: seq<Command>, s: State, ins: seq<Input>)
    requires WellFormed(cs) && s.Ok()
    ensures Run(cs, s, ins).qs == QsSince(cs, s, ins)
    decreases |ins|
  {
    if ins != [] {
      QCountIsHistory(cs, s, ins[..|ins| - 1]);
      var i := ins[|ins| - 1];
      StepCountsQ(cs, Run(cs, s, ins[..|ins| - 1]), i.cc, i.env);
    }
  }

  lemma StepReturns(cs: seq<Command>, p: State, cc: Byte, env: Env)
    requires WellFormed(cs) && p.Ok() && env.ret >= 0
    ensures var ret := Step(cs, p, cc, env).ret;
      ret >= -1 && (ret < 0 <==> CountsQ(p, cc) && p.qs == 2)
  {
  }

  /** Exit over whole runs: when the functions called return 0 or more, the shell returns a
      negative value, -1, exactly on the third q that counts. */
  lemma ExitOnThirdQ(cs: seq<Command>, ins: seq<Input>)
    requires WellFormed(cs) && ins != [] && ins[|ins| - 1].env.ret >= 0
    ensures LastReply(cs, START, ins).ret < 0
       <==> CountsQ(Run(cs, START, ins[..|ins| - 1]), ins[|ins| - 1].cc)
            && QsSince(cs, START, ins) == 3
    ensures LastReply(cs, START, ins).ret >= -1
  {
    var before, i := ins[..|ins| - 1], ins[|ins| - 1];
    QCountIsHistory(cs, START, before);
    StepReturns(cs, Run(cs, START, before), i.cc, i.env);
  }

  // ----- pass-through

  /** While anyone holds the slot, the editor and the q count stand still. */
  lemma {:induction false} PassThroughFreezesEditor(cs: seq<Command>, s: State, ins: seq<Input>)
    requires WellFormed(cs) && s.Ok()
    requires forall k :: 0 <= k < |ins| ==> Run(cs, s, ins[..k]).pass.Some?
    ensures var r := Run(cs, s, ins);
      r.line == s.line && r.typed == s.typed && r.qs == s.qs
    decreases |ins|
  {
    if ins != [] {
      var before := ins[..|ins| - 1];
      assert forall k :: 0 <= k <= |before| ==> ins[..k] == before[..k];
      PassThroughFreezesEditor(cs, s, before);
      assert before[..|before|] == before && Run(cs, s, ins[..|before|]).pass.Some?;
    }
  }

  /** The characters a run gives to the probe, over all its sessions. */
  function ToProbe(cs: seq<Command>, s: State, ins: seq<Input>): seq<Byte>
    requires WellFormed(cs) && s.Ok()
    decreases |ins|
  {
    if ins == [] then []
    else
      var before := ins[..|ins| - 1];
      ToProbe(cs, s, before)
      + if Run(cs, s, before).pass == Some(ProbeProc) then [ToLower(ins[|ins| - 1].cc)] else []
  }

  lemma StepFeedsProbe(cs: seq<Command>, p: State, cc: Byte, env: Env)
    requires WellFormed(cs) && p.Ok()
    ensures Step(cs, p, cc, env).state.edit
         == if p.pass == Some(ProbeProc) then EditStep(p.edit, ToLower(cc)) else p.edit
  {
    ActAllKeeps(p, env.actions);
    ActAllKeeps(p.(line := p.line + [ToLower(cc)], typed := p.typed || !IsSpace(ToLower(cc))),
                env.actions);
  }

  /** The probe's pending digits depend on those characters alone, so they survive a close and
      the shell lines between two sessions. */
  lemma {:induction false} ProbeSeesItsCharacters(cs: seq<Command>, s: State, ins: seq<Input>)
    requires WellFormed(cs) && s.Ok()
    ensures Run(cs, s, ins).edit == EditRun(s.edit, ToProbe(cs, s, ins))
    decreases |ins|
  {
    if ins != [] {
      var before, i := ins[..|ins| - 1], ins[|ins| - 1];
      ProbeSeesItsCharacters(cs, s, before);
      StepFeedsProbe(cs, Run(cs, s, before), i.cc, i.env);
      var seen := ToProbe(cs, s, before);
      assert (seen + [ToLower(i.cc)])[..|seen|] == seen && seen + [] == seen;
    }
  }

  /** A write over a whole shell run passes on the number that the characters the probe got, less
      the erased ones, spell, if never more than eight digits were pending. */
  lemma ProbeWritesTypedNumber(cs: seq<Command>, ins: seq<Input>, newline: Byte)
    requires WellFormed(cs) && NeverOverEight(Edit([], 0), ToProbe(cs, START, ins))
    requires Run(cs, START, ins).pass == Some(ProbeProc) && Pending(ToProbe(cs, START, ins)) != []
    requires newline == 10 || newline == 13
    ensures var t := Pending(ToProbe(cs, START, ins));
      && HexTo(t, |t|) < U32
      && Step(cs, Run(cs, START, ins), newline, Env(0, [], false)).effect
         == Passed([WriteValue(HexTo(t, |t|)), Prompt, Print])
  {
    var seen := ToProbe(cs, START, ins);
    ProbeSeesItsCharacters(cs, START, ins);
    WindowOverRuns(Edit([], 0), seen);
    PendingValue(seen);
    KeysByCode(EditRun(Edit([], 0), seen), newline);
  }

  /** In a session a period or a q, of either case, frees the slot and returns 1; every other
      character leaves the probe in place and returns 0. */
  lemma SessionEnds(cs: seq<Command>, s: State, cc: Byte, env: Env)
    requires WellFormed(cs) && s.Ok() && s.pass == Some(ProbeProc)
    ensures var r := Step(cs, s, cc, env);
      if cc == 46 || cc == 113 || cc == 81 then
        r.ret == 1 && r.effect == Passed([]) && r.state == s.(pass := None, pf := None)
      else
        r.ret == 0 && r.state.pass == s.pass && r.state.pf == s.pf
  {
    KeysByCode(s.edit, ToLower(cc));
  }

  /** Any other function that holds the slot decides what is returned, and frees the slot if it
      wants to. */
  lemma OthersAnswer(cs: seq<Command>, s: State, cc: Byte, env: Env)
    requires WellFormed(cs) && s.Ok() && s.pass.Some? && s.pass != Some(ProbeProc)
    ensures var r := Step(cs, s, cc, env);
      && r.ret == env.ret && r.effect == Passed([])
      && r.state == s.(pass := if env.clears then None else s.pass)
  {
  }

  /** The slot goes to the first call of a command function that may have it; the calls before it
      passed a null table, and later ones change nothing. */
  lemma {:induction false} FirstTakerWins(s: State, acts: seq<PassAction>, k: nat)
    requires s.pass == None && k < |acts| && acts[k] != ProbeSetFuncs(None)
    requires forall i :: 0 <= i < k ==> acts[i] == ProbeSetFuncs(None)
    ensures ActAll(s, acts)
         == match acts[k]
            case SetPassTo(id) => s.(pass := Some(OtherProc(id)))
            case ProbeSetFuncs(pf) => s.(pass := Some(ProbeProc), pf := pf)
    decreases |acts|
  {
    var front := acts[..|acts| - 1];
    if k < |front| {
      FirstTakerWins(s, front, k);
    } else {
      NoTaker(s, front);
    }
  }

  lemma {:induction false} NoTaker(s: State, acts: seq<PassAction>)
    requires forall i :: 0 <= i < |acts| ==> acts[i] == ProbeSetFuncs(None)
    ensures ActAll(s, acts) == s
    decreases |acts|
  {
    if acts != [] {
      NoTaker(s, acts[..|acts| - 1]);
    }
  }

  // ----- what a completed line is answered with

  /** The answer to a line of words, by the fields of the registered commands: nothing for no
      word, 1 for a comment (ASCII 35), an unknown word or a wrong argument count, and otherwise
      the call of the one command with that name or abbreviation. */
  ghost predicate Answer(cs: seq<Command>, argv: seq<Text>, env: Env, ret: int, effect: Effect)
    requires WellFormed(cs)
  {
    if argv == [] then ret == 0 && effect == Blank
    else if argv[0] != [] && argv[0][0] == 35 then ret == 1 && effect == Comment
    else
      && ((forall i :: 0 <= i < |cs| ==> cs[i].name != Some(argv[0]) && cs[i].abrev != Some(argv[0]))
          ==> ret == 1 && effect == BadCommand(argv[0]))
      && (forall i :: 0 <= i < |cs| && (cs[i].name == Some(argv[0]) || cs[i].abrev == Some(argv[0])) ==>
            if cs[i].min <= |argv| <= cs[i].max then
              ret == env.ret && effect == Called(cs[i].func.value, argv)
            else ret == 1 && effect == WrongArgs(cs[i]))
  }

  lemma DispatchAnswers(cs: seq<Command>, argv: seq<Text>, env: Env)
    requires WellFormed(cs)
    ensures var (ret, effect) := Dispatch(cs, argv, env.ret); Answer(cs, argv, env, ret, effect)
  {
    if argv != [] {
      forall i | 0 <= i < |cs|
        ensures Find(cs, argv[0]) == i <==> cs[i].name == Some(argv[0]) || cs[i].abrev == Some(argv[0])
      {
        FindIff(cs, argv[0], i);
      }
    }
  }

  /** A line is answered by its words and cleared; only a command that is called can change who
      holds the slot. */
  ghost predicate LineDone(cs: seq<Command>, s: State, argv: seq<Text>, env: Env, r: Reply)
    requires WellFormed(cs)
  {
    && Answer(cs, argv, env, r.ret, r.effect)
    && r.state.line == [] && !r.state.typed && r.state.qs == (if argv == [] then s.qs else 0)
    && (r.state.pass, r.state.pf)
       == (if r.effect.Called? then (ActAll(s, env.actions).pass, ActAll(s, env.actions).pf) else (s.pass, s.pf))
  }

  /** A newline or return on a line with something typed, or the character that makes it 127
      long, completes it. */
  lemma LineIsAnswered(cs: seq<Command>, s: State, cc: Byte, env: Env)
    requires WellFormed(cs) && s.Ok() && s.pass == None && s.line != []
    ensures (cc == 10 || cc == 13) && s.typed ==>
      LineDone(cs, s, LineArgs(s.line), env, Step(cs, s, cc, env))
    ensures cc != 10 && cc != 13 && cc != 8 && cc != 127 && |s.line| == 126 ==>
      LineDone(cs, s, LineArgs(s.line + [ToLower(cc)]), env, Step(cs, s, cc, env))
  {
    hide ActAll, LineArgs, Answer;
    DispatchAnswers(cs, LineArgs(s.line), env);
    var longer := s.(line := s.line + [ToLower(cc)], typed := s.typed || !IsSpace(ToLower(cc)));
    DispatchAnswers(cs, LineArgs(longer.line), env);
    LineIsCleared(s, longer, env.actions);
  }

  /** The editor key by key, by ASCII code, with what it returns: 1 asks for a prompt, -1 ends the
      shell. */
  lemma EditorByCode(cs: seq<Command>, s: State, cc: Byte, env: Env)
    requires WellFormed(cs) && s.Ok() && s.pass == None
    ensures var newline, erase := cc == 10 || cc == 13, cc == 8 || cc == 127;
      var r := Step(cs, s, cc, env);
      && (newline && (s.line == [] || !s.typed) ==> r == Reply(s, 1, Quiet))
      && (s.line == [] && (cc == 113 || cc == 81) ==>
            r == Reply(s.(qs := s.qs + 1), if s.qs < 2 then 1 else if s.qs == 2 then -1 else 0, Quiet))
      && (erase ==> r.ret == 0 && r.effect == Quiet
                    && r.state == if s.line == [] then s else s.(line := s.line[..|s.line| - 1]))
      && (!newline && !erase && |s.line| < 126 && !(s.line == [] && (cc == 113 || cc == 81)) ==>
            && r.ret == 0 && r.effect == Quiet
            && r.state.line == s.line + [if 65 <= cc <= 90 then cc + 32 else cc]
            && (r.state.typed <==> s.typed || !(cc == 9 || cc == 11 || cc == 12 || cc == 32)))
    ensures CountsQ(s, cc) <==> s.line == [] && (cc == 113 || cc == 81)
  {
    hide LineArgs, ActAll, Dispatch;
  }

  // ----- typing a command line

  function Lower(t: seq<Byte>): (r: seq<Byte>)
    ensures |r| == |t| && forall i :: 0 <= i < |t| ==> r[i] == ToLower(t[i])
  {
    seq(|t|, i requires 0 <= i < |t| => ToLower(t[i]))
  }

  function Keys(ins: seq<Input>): (t: seq<Byte>)
    ensures |t| == |ins| && forall i :: 0 <= i < |ins| ==> t[i] == ins[i].cc
  {
    seq(|ins|, i requires 0 <= i < |ins| => ins[i].cc)
  }

  /** Characters that the editor enters into the line as they come. */
  predicate Plain(t: seq<Byte>) {
    forall i :: 0 <= i < |t| ==> !IsNewline(ToLower(t[i])) && !IsErase(ToLower(t[i]))
  }

  lemma {:induction false} TypingFillsTheLine(cs: seq<Command>, s: State, ins: seq<Input>)
    requires WellFormed(cs) && s.Ok() && s.pass == None && s.line == []
    requires |ins| <= 126 && Plain(Keys(ins)) && (ins != [] ==> ToLower(ins[0].cc) != 'q' as int)
    ensures var r := Run(cs, s, ins);
      && r == s.(line := Lower(Keys(ins)), typed := r.typed)
      && (r.typed <==> s.typed || exists i :: 0 <= i < |ins| && !IsSpace(ToLower(ins[i].cc)))
    decreases |ins|
  {
    if ins != [] {
      var before := ins[..|ins| - 1];
      assert Keys(ins) == Keys(before) + [ins[|ins| - 1].cc];
      TypingFillsTheLine(cs, s, before);
      assert Lower(Keys(ins)) == Lower(Keys(before)) + [ToLower(ins[|ins| - 1].cc)];
      assert Keys(ins)[|ins| - 1] == ins[|ins| - 1].cc;
    }
  }

  lemma JoinHasNoNul(ts: seq<seq<Byte>>, seps: seq<seq<Byte>>)
    requires Joinable(ts, seps)
    ensures 0 !in Join(ts, seps)
    decreases |ts|
  {
    if ts != [] {
      assert Joinable(ts[1..], seps[1..]);
      JoinHasNoNul(ts[1..], seps[1..]);
      assert 0 !in ts[0] && 0 !in seps[0];
    }
  }

  lemma JoinedLineArgs(ts: seq<seq<Byte>>, seps: seq<seq<Byte>>)
    requires Joinable(ts, seps)
    requires |ts| < CMD_BUF_NARGS || (|ts| == CMD_BUF_NARGS && seps[|ts|] == [])
    ensures LineArgs(Join(ts, seps)) == ts
  {
    var line := Join(ts, seps);
    JoinHasNoNul(ts, seps);
    CStrAt([], line, []);
    assert [] + line + [0] + [] == line + [0];
    if ts == [] {
      ArgsWithRoom(ts, seps, CMD_BUF_NARGS);
    } else {
      TokenizerRoundTrip(ts, seps, CMD_BUF_NARGS);
    }
  }

  lemma JoinedLineHasWordChar(ts: seq<seq<Byte>>, seps: seq<seq<Byte>>)
    requires Joinable(ts, seps) && ts != []
    ensures |seps[0]| < |Join(ts, seps)| && !IsSpace(Join(ts, seps)[|seps[0]|])
  {
    assert Join(ts, seps) == seps[0] + (ts[0] + Join(ts[1..], seps[1..]));
    assert Join(ts, seps)[|seps[0]|] == ts[0][0] && IsWordChar(ts[0][0]);
  }

  /** End to end: words typed with separators between them on an empty line, then a newline or
      return, are answered as exactly those words, in lower case: the command registered under
      the first is called with them exactly if their number is in its range. */
  lemma TypedWordsReachTheCommand(cs: seq<Command>, s: State, ins: seq<Input>, env: Env,
                                  ts: seq<seq<Byte>>, seps: seq<seq<Byte>>, newline: Byte)
    requires WellFormed(cs) && s.Ok() && s.pass == None && s.line == []
    requires Joinable(ts, seps) && Lower(Keys(ins)) == Join(ts, seps)
    requires |ts| < CMD_BUF_NARGS || (|ts| == CMD_BUF_NARGS && seps[|ts|] == [])
    requires ts == [] ==> exists i :: 0 <= i < |ins| && !IsSpace(ToLower(ins[i].cc))
    requires |ins| <= 126 && Plain(Keys(ins)) && ToLower(ins[0].cc) != 'q' as int
    requires newline == 10 || newline == 13
    ensures LineDone(cs, s, ts, env, Step(cs, Run(cs, s, ins), newline, env))
  {
    TypingFillsTheLine(cs, s, ins);
    JoinedLineArgs(ts, seps);
    var p := Run(cs, s, ins);
    if ts != [] {
      JoinedLineHasWordChar(ts, seps);
      assert Lower(Keys(ins))[|seps[0]|] == ToLower(ins[|seps[0]|].cc);
    }
    assert p.typed && p.line == Join(ts, seps) && p.pass == None;
    LineIsAnswered(cs, p, newline, env);
    LineIsCleared(s, p, env.actions);
  }

  // ----- the shell in memory

  class Shell {
    const cmdlineBuf: array<Byte>
    const cargv: array<nat>
    const registry: Registry
    const slot: PassSlot
    const probe: Probe
    var cmdlineBufInd: nat
    var bufferHasData: bool
    var qCount: nat

    ghost function View(): State
      requires cmdlineBufInd <= cmdlineBuf.Length
      reads this, cmdlineBuf, slot, probe
    {
      State(cmdlineBuf[..cmdlineBufInd], bufferHasData, qCount,
            slot.passToFunc, probe.probePf, probe.edit)
    }

    ghost predicate Valid()
      reads this, cmdlineBuf, slot, probe, registry, registry.head, registry.nodes
    {
      && cmdlineBuf.Length == CMDLINE_BUF_LEN && cargv.Length == CMD_BUF_NARGS
      && cmdlineBufInd <= CMDLINE_BUF_LEN && View().Ok()
      && probe.slot == slot && probe.Valid() && registry.Valid()
    }

    constructor (registry: Registry)
      requires registry.Valid()
      ensures Valid() && View() == START && this.registry == registry
    {
      cmdlineBuf := new Byte[CMDLINE_BUF_LEN];
      cargv := new nat[CMD_BUF_NARGS];
      this.registry := registry;
      var s := new PassSlot();
      slot := s;
      probe := new Probe(s);
      cmdlineBufInd, bufferHasData, qCount := 0, false, 0;
    }

    /** add_to_cmdline_buffer: a non-zero result is the length of a line to process, its
        closing NUL included. */
    method AddToCmdlineBuffer(byteIn: Byte) returns (len: nat)
      requires cmdlineBuf.Length == CMDLINE_BUF_LEN && cmdlineBufInd <= 126
      modifies this`cmdlineBufInd, this`bufferHasData, cmdlineBuf
      ensures cmdlineBufInd <= CMDLINE_BUF_LEN && (len == 0 ==> cmdlineBufInd <= 126)
      ensures var line, now := old(cmdlineBuf[..cmdlineBufInd]), cmdlineBuf[..cmdlineBufInd];
        if IsNewline(byteIn) then len == cmdlineBufInd && now == line + [0]
        else if IsErase(byteIn) then
          len == 0 && now == if line == [] then line else line[..|line| - 1]
        else if |line| == 126 then len == cmdlineBufInd && now == line + [byteIn] + [0]
        else len == 0 && now == line + [byteIn]
      ensures bufferHasData
        == (old(bufferHasData) || !(IsNewline(byteIn) || IsErase(byteIn) || IsSpace(byteIn)))
    {
      if IsNewline(byteIn) {
        cmdlineBuf[cmdlineBufInd] := 0;
        cmdlineBufInd := cmdlineBufInd + 1;
        return cmdlineBufInd;
      } else if IsErase(byteIn) {
        if cmdlineBufInd != 0 {
          cmdlineBuf[cmdlineBufInd] := 0;
          cmdlineBufInd := cmdlineBufInd - 1;
        }
      } else {
        if !IsSpace(byteIn) {
          bufferHasData := true;
        }
        cmdlineBuf[cmdlineBufInd] := byteIn;
        cmdlineBufInd := cmdlineBufInd + 1;
      }
      if cmdlineBufInd == CMDLINE_BUF_LEN - 1 {
        cmdlineBuf[cmdlineBufInd] := 0;
        cmdlineBufInd := cmdlineBufInd + 1;
        return cmdlineBufInd;
      }
      len := 0;
    }

    /** Cuts the line up and returns the strings the argument pointers ended up at. */
    method Split(len: nat, ghost line: seq<Byte>) returns (argv: seq<Text>)
      requires cmdlineBuf.Length == CMDLINE_BUF_LEN && cargv.Length == CMD_BUF_NARGS
      requires len <= cmdlineBuf.Length && cmdlineBuf[..len] == line + [0]
      modifies cmdlineBuf, cargv
      ensures argv == LineArgs(line)
    {
      ghost var buf := cmdlineBuf[..];
      assert cmdlineBuf[..len][|line|] == 0;
      ghost var s := CStr(buf, 0);
      PrefixCStr(buf, line);
      var cargc := ConvertCmdBufToSubstr(cmdlineBuf, len, cargv);
      forall k | 0 <= k < cargc
        ensures cargv[k] <= cmdlineBuf.Length && CStr(cmdlineBuf[..], cargv[k]) == Arg(s, CMD_BUF_NARGS, k)
      {
        ArgumentsAreWords(buf, s, CMD_BUF_NARGS, k);
      }
      argv := seq(cargc, k requires 0 <= k < cargc && cargv[k] <= cmdlineBuf.Length
                         reads cargv, cmdlineBuf => CStr(cmdlineBuf[..], cargv[k]));
    }

    /** The calls a command function makes on the pass-through slot. */
    method RunActions(actions: seq<PassAction>)
      requires probe.slot == slot && probe.Valid() && probe.Owned() && cmdlineBufInd <= cmdlineBuf.Length
      modifies probe`probePf, slot
      ensures probe.Valid() && probe.Owned()
      ensures View() == ActAll(old(View()), actions)
    {
      for i := 0 to |actions|
        invariant probe.Valid() && probe.Owned()
        invariant View() == ActAll(old(View()), actions[..i])
      {
        assert actions[..i + 1][..i] == actions[..i];
        match actions[i]
        case ProbeSetFuncs(pf) => var _ := probe.SetFuncs(pf);
        case SetPassTo(id) => var _ := slot.SetPassTo(OtherProc(id));
      }
      assert actions[..|actions|] == actions;
    }

    /** Blank line, comment, unknown command, wrong argument count, or the call of the command. */
    method DispatchWords(argv: seq<Text>, env: Env) returns (ret: int, effect: Effect)
      requires registry.Valid() && cmdlineBufInd <= cmdlineBuf.Length
      requires probe.slot == slot && probe.Valid() && probe.Owned()
      modifies probe`probePf, slot
      ensures probe.Valid() && probe.Owned() && registry.Valid()
      ensures registry.Contents() == old(registry.Contents())
      ensures (ret, effect) == Dispatch(registry.Contents(), argv, env.ret)
      ensures View() == if effect.Called? then ActAll(old(View()), env.actions) else old(View())
    {
      hide Registry.Ring, ActAll;
      if argv == [] {
        return 0, Blank;
      }
      if argv[0] != [] && argv[0][0] == '#' as int {
        return 1, Comment;
      }
      var cmd := registry.FindCmd(argv[0]);
      if cmd == null {
        return 1, BadCommand(argv[0]);
      }
      if |argv| < cmd.cmd.value.min || |argv| > cmd.cmd.value.max {
        return 1, WrongArgs(cmd.cmd.value);
      }
      effect := Called(cmd.cmd.value.func.value, argv);
      RunActions(env.actions);
      ret := env.ret;
    }

    /** The part of shell_process_input that handles a completed line. */
    method ProcessBuffer(len: nat, env: Env, ghost line: seq<Byte>) returns (ret: int, effect: Effect)
      requires cmdlineBuf.Length == CMDLINE_BUF_LEN && cargv.Length == CMD_BUF_NARGS
      requires len <= cmdlineBuf.Length && cmdlineBuf[..len] == line + [0] && cmdlineBufInd == len
      requires probe.slot == slot && probe.Valid() && probe.Owned() && registry.Valid()
      modifies this`cmdlineBufInd, this`bufferHasData, this`qCount, cmdlineBuf, cargv
      modifies probe`probePf, slot
      ensures cmdlineBufInd == 0 && probe.Valid() && probe.Owned()
      ensures registry.Valid()
      ensures registry.Contents() == old(registry.Contents())
      ensures Reply(View(), ret, effect)
           == ProcessLine(registry.Contents(), old(View()), line, env)
    {
      hide Registry.Ring, ActAll, LineArgs, Dispatch, CStr;
      var argv := Split(len, line);
      LineIsCleared(old(View()), View(), env.actions);
      ret, effect := DispatchWords(argv, env);
      if argv != [] {
        qCount := 0;
      }
      cmdlineBufInd := 0;
      bufferHasData := false;
    }

    /** shell_process_input while someone holds the slot. */
    method PassThrough(byteIn: Byte, env: Env) returns (ret: int, effect: Effect)
      requires Valid() && slot.passToFunc.Some?
      modifies slot, probe
      ensures Valid() && registry.Contents() == old(registry.Contents())
      ensures Reply(View(), ret, effect) == PassStep(old(View()), byteIn, env)
    {
      if slot.passToFunc.value.ProbeProc? {
        var before := |probe.calls|;
        ret := probe.Proc(byteIn);
        effect := Passed(probe.calls[before..]);
      } else {
        if env.clears {
          slot.ClearPassTo();
        }
        ret, effect := env.ret, Passed([]);
      }
    }

    /** shell_process_input for a character that goes to the line editor. */
    method Editor(byteIn: Byte, env: Env) returns (ret: int, effect: Effect)
      requires Valid() && slot.passToFunc.None? && ToLower(byteIn) == byteIn
      requires !((cmdlineBufInd == 0 || !bufferHasData) && IsNewline(byteIn))
      requires !(cmdlineBufInd == 0 && byteIn == 'q' as int)
      modifies this, cmdlineBuf, cargv, slot, probe`probePf
      ensures Valid() && registry.Contents() == old(registry.Contents())
      ensures Reply(View(), ret, effect) == Step(registry.Contents(), old(View()), byteIn, env)
    {
      hide Registry.Ring, ActAll, LineArgs, Dispatch, CStr;
      StepKeeps(registry.Contents(), View(), byteIn, env);
      ret, effect := 0, Quiet;
      ghost var line := cmdlineBuf[..cmdlineBufInd];
      var bufferLen := AddToCmdlineBuffer(byteIn);
      if bufferLen != 0 {
        ghost var full := if IsNewline(byteIn) then line else line + [byteIn];
        LineIsCleared(View(), old(View()), env.actions);
        LineIsCleared(View(), View().(line := full), env.actions);
        ret, effect := ProcessBuffer(bufferLen, env, full);
      }
    }

    /** shell_process_input; `env` is what a called function does. */
    method ProcessInput(cc: Byte, env: Env) returns (ret: int, effect: Effect)
      requires Valid()
      modifies this, cmdlineBuf, cargv, slot, probe
      ensures Valid() && registry.Contents() == old(registry.Contents())
      ensures Reply(View(), ret, effect) == Step(registry.Contents(), old(View()), cc, env)
    {
      var byteIn := ToLower(cc);
      ret, effect := 0, Quiet;
      if slot.passToFunc.Some? {
        ret, effect := PassThrough(byteIn, env);
      } else if (cmdlineBufInd == 0 || !bufferHasData) && IsNewline(byteIn) {
        ret := 1;
      } else if cmdlineBufInd == 0 && byteIn == 'q' as int {
        qCount := qCount + 1;
        if qCount == 1 {
          ret := 1;
        } else if qCount == 2 {
          ret := 1;
        } else if qCount == 3 {
          ret := -1;
        }
      } else {
        ret, effect := Editor(byteIn, env);
      }
    }
  }

  /** Slot calls do not look at the line, the data flag or the q count. */
  lemma {:induction false} LineIsCleared(s: State, t: State, acts: seq<PassAction>)
    requires t == s.(line := t.line, typed := t.typed, qs := t.qs)
    ensures ActAll(t, acts) == ActAll(s, acts).(line := t.line, typed := t.typed, qs := t.qs)
    decreases |acts|
  {
    if acts != [] {
      LineIsCleared(s, t, acts[..|acts| - 1]);
    }
  }

  lemma PrefixCStr(buf: seq<Byte>, line: seq<Byte>)
    requires |line| < |buf| && buf[..|line| + 1] == line + [0]
    ensures CStr(buf, 0) == CStr(line + [0], 0)
    ensures var s := CStr(buf, 0); |s| < |buf| && buf[..|s|] == s && buf[|s|] == 0
  {
    var t := line + [0];
    var n := NulAt(t, 0);
    assert t[|line|] == 0 && HasNul(t, 0);
    assert forall k :: 0 <= k <= |line| ==> buf[k] == buf[..|line| + 1][k] == t[k];
    NulAtIs(buf, 0, n);
    assert buf[0..n] == t[0..n];
  }
}
