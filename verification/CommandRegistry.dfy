/** The shell's command list: the circular doubly linked list of list.h with a bare head, and
    the registration and lookup of shell.c over it. */
module CommandRegistry {
  import opened Machine

  type Text = seq<Byte>

  /** The fields of a Shell_cmd besides its links. A null pointer is None. */
  datatype Command = Command(name: Option<Text>, abrev: Option<Text>, help: Option<Text>,
                             func: Option<nat>, min: Byte, max: Byte) {
    predicate Answers(s: Text) {
      name == Some(s) || abrev == Some(s)
    }

    predicate Usable() {
      name.Some? && abrev.Some? && help.Some? && func.Some? && min <= max <= CMD_BUF_NARGS
    }
  }

  const CMD_BUF_NARGS := 10

  const ADD_CMD_NULL := 1
  const ADD_CMD_LINK_NOT_NULL := 2
  const ADD_CMD_NAME_NULL := 3
  const ADD_CMD_ABREV_NULL := 4
  const ADD_CMD_HELP_NULL := 5
  const ADD_CMD_FUNC_NULL := 6
  const ADD_CMD_MIN_GT_MAX := 7
  const ADD_CMD_NUM_ARGS_EXCEEDED := 8
  const ADD_CMD_ALREADY_ADDED := 9

  // ----- the registry as a sequence of commands, most recent first

  /** No string is the name or abbreviation of two commands. */
  ghost predicate Unambiguous(cs: seq<Command>) {
    forall i, j, s :: 0 <= i < j < |cs| && cs[i].Answers(s) ==> !cs[j].Answers(s)
  }

  ghost predicate WellFormed(cs: seq<Command>) {
    Unambiguous(cs) && forall i :: 0 <= i < |cs| ==> cs[i].Usable()
  }

  /** The first command in list order that answers to s, or the length of the list. */
  function Find(cs: seq<Command>, s: Text): (i: nat)
    ensures i <= |cs|
    ensures i < |cs| ==> cs[i].Answers(s)
    ensures forall j :: 0 <= j < i ==> !cs[j].Answers(s)
  {
    if cs == [] then 0 else if cs[0].Answers(s) then 0 else 1 + Find(cs[1..], s)
  }

  /** A call of shell_add_cmd: the argument (None for null), and whether its links are in use. */
  datatype AddCall = AddCall(cmd: Option<Command>, linked: bool)

  /** What each error code complains about. */
  predicate Complaint(call: AddCall, code: nat) {
    if call.cmd.None? then code == ADD_CMD_NULL
    else
      var c := call.cmd.value;
      || (code == ADD_CMD_LINK_NOT_NULL && call.linked)
      || (code == ADD_CMD_NAME_NULL && c.name.None?)
      || (code == ADD_CMD_ABREV_NULL && c.abrev.None?)
      || (code == ADD_CMD_HELP_NULL && c.help.None?)
      || (code == ADD_CMD_FUNC_NULL && c.func.None?)
      || (code == ADD_CMD_MIN_GT_MAX && c.min > c.max)
      || (code == ADD_CMD_NUM_ARGS_EXCEEDED && (c.min > CMD_BUF_NARGS || c.max > CMD_BUF_NARGS))
  }

  function Validate(call: AddCall): int {
    if call.cmd.None? then -ADD_CMD_NULL
    else if call.linked then -ADD_CMD_LINK_NOT_NULL
    else if call.cmd.value.name.None? then -ADD_CMD_NAME_NULL
    else if call.cmd.value.abrev.None? then -ADD_CMD_ABREV_NULL
    else if call.cmd.value.help.None? then -ADD_CMD_HELP_NULL
    else if call.cmd.value.func.None? then -ADD_CMD_FUNC_NULL
    else if call.cmd.value.min > call.cmd.value.max then -ADD_CMD_MIN_GT_MAX
    else if call.cmd.value.min > CMD_BUF_NARGS || call.cmd.value.max > CMD_BUF_NARGS then
      -ADD_CMD_NUM_ARGS_EXCEEDED
    else 0
  }

  /** validate_cmd reports the lowest-numbered complaint, negated, or 0 when there is none. */
  lemma ValidateReportsFirst(call: AddCall)
    ensures var ret := Validate(call);
      if ret == 0 then forall code :: 1 <= code <= 8 ==> !Complaint(call, code)
      else 1 <= -ret <= 8 && Complaint(call, -ret)
           && forall code :: 1 <= code < -ret ==> !Complaint(call, code)
  {
  }

  /** The return code of shell_add_cmd. */
  function AddCode(cs: seq<Command>, call: AddCall): int {
    var v := Validate(call);
    if v != 0 then v
    else if Find(cs, call.cmd.value.name.value) < |cs| || Find(cs, call.cmd.value.abrev.value) < |cs| then
      -ADD_CMD_ALREADY_ADDED
    else 0
  }

  function Register(cs: seq<Command>, call: AddCall): seq<Command> {
    if AddCode(cs, call) == 0 then [call.cmd.value] + cs else cs
  }

  function RegisterAll(cs: seq<Command>, calls: seq<AddCall>): seq<Command>
    decreases |calls|
  {
    if calls == [] then cs else Register(RegisterAll(cs, calls[..|calls| - 1]), calls[|calls| - 1])
  }

  /** Some command in the list has the string as its name or abbreviation. */
  ghost predicate Taken(cs: seq<Command>, s: Option<Text>) {
    exists i :: 0 <= i < |cs| && (cs[i].name == s || cs[i].abrev == s)
  }

  /** What a call requires of the structure itself, field by field. */
  predicate Complete(call: AddCall) {
    && call.cmd.Some? && !call.linked
    && call.cmd.value.name.Some? && call.cmd.value.abrev.Some?
    && call.cmd.value.help.Some? && call.cmd.value.func.Some?
    && call.cmd.value.min <= call.cmd.value.max <= 10
  }

  /** What a successful call requires, independently of the order of the checks; -9 is for a
      complete structure one of whose strings is taken. */
  lemma AddCodeIsZero(cs: seq<Command>, call: AddCall)
    ensures AddCode(cs, call) == 0
       <==> Complete(call) && !Taken(cs, call.cmd.value.name) && !Taken(cs, call.cmd.value.abrev)
    ensures AddCode(cs, call) == -9
       <==> Complete(call) && (Taken(cs, call.cmd.value.name) || Taken(cs, call.cmd.value.abrev))
    ensures Complete(call) <==> call.cmd.Some? && !call.linked && call.cmd.value.Usable()
  {
    if call.cmd.Some? && call.cmd.value.Usable() {
      var i, j := Find(cs, call.cmd.value.name.value), Find(cs, call.cmd.value.abrev.value);
    }
  }

  lemma RegisterKeeps(cs: seq<Command>, call: AddCall)
    requires WellFormed(cs)
    ensures WellFormed(Register(cs, call))
  {
    AddCodeIsZero(cs, call);
    var r := Register(cs, call);
    if AddCode(cs, call) == 0 {
      forall i, j, s | 0 <= i < j < |r| && r[i].Answers(s)
        ensures !r[j].Answers(s)
      {
        if i > 0 {
          assert cs[i - 1].Answers(s);
        }
      }
    }
  }

  /** In a well-formed list, lookup finds a command exactly when it is registered under the
      string; the order of the list does not matter. */
  lemma FindIff(cs: seq<Command>, s: Text, i: nat)
    requires WellFormed(cs) && i < |cs|
    ensures Find(cs, s) == i <==> cs[i].name == Some(s) || cs[i].abrev == Some(s)
  {
    var _ := Find(cs, s);
  }

  /** Over any sequence of calls the list stays well formed and only grows at the front. */
  lemma {:induction false} RegistryInvariant(cs: seq<Command>, calls: seq<AddCall>)
    requires WellFormed(cs)
    ensures var r := RegisterAll(cs, calls);
      WellFormed(r) && |r| >= |cs| && r[|r| - |cs|..] == cs
    decreases |calls|
  {
    if calls != [] {
      var before, call := RegisterAll(cs, calls[..|calls| - 1]), calls[|calls| - 1];
      RegistryInvariant(cs, calls[..|calls| - 1]);
      RegisterKeeps(before, call);
      if AddCode(before, call) == 0 {
        assert ([call.cmd.value] + before)[|before| + 1 - |cs|..] == before[|before| - |cs|..];
      }
    }
  }

  /** A string once bound keeps its command over any further calls. */
  lemma BindingsAreStable(cs: seq<Command>, calls: seq<AddCall>, s: Text)
    requires WellFormed(cs) && Find(cs, s) < |cs|
    ensures var r := RegisterAll(cs, calls);
      Find(r, s) < |r| && r[Find(r, s)] == cs[Find(cs, s)]
  {
    RegistryInvariant(cs, calls);
    var r := RegisterAll(cs, calls);
    var i := |r| - |cs| + Find(cs, s);
    assert r[i] == r[|r| - |cs|..][Find(cs, s)];
    FindIff(r, s, i);
  }

  /** Call k was accepted and added c. */
  ghost predicate AcceptedAt(calls: seq<AddCall>, k: nat, c: Command)
    requires k < |calls|
  {
    calls[k].cmd == Some(c) && AddCode(RegisterAll([], calls[..k]), calls[k]) == 0
  }

  lemma AcceptedBefore(calls: seq<AddCall>, n: nat, k: nat, c: Command)
    requires k < n <= |calls|
    ensures AcceptedAt(calls[..n], k, c) <==> AcceptedAt(calls, k, c)
  {
    assert calls[..n][..k] == calls[..k];
  }

  /** Each accepted call adds its command, and nothing else is ever in the list. */
  lemma {:induction false} RegisteredIffAccepted(calls: seq<AddCall>, c: Command)
    ensures c in RegisterAll([], calls) <==> exists k :: 0 <= k < |calls| && AcceptedAt(calls, k, c)
    decreases |calls|
  {
    if calls != [] {
      var n := |calls| - 1;
      RegisteredIffAccepted(calls[..n], c);
      forall k: nat | k < n
        ensures AcceptedAt(calls[..n], k, c) <==> AcceptedAt(calls, k, c)
      {
        AcceptedBefore(calls, n, k, c);
      }
      LastCall(calls, c);
    }
  }

  lemma LastCall(calls: seq<AddCall>, c: Command)
    requires calls != []
    ensures var n := |calls| - 1;
      c in RegisterAll([], calls) <==> c in RegisterAll([], calls[..n]) || AcceptedAt(calls, n, c)
  {
    hide AddCode;
    var n := |calls| - 1;
    var before := RegisterAll([], calls[..n]);
    if AddCode(before, calls[n]) == 0 {
      AcceptedIsSome(before, calls[n]);
      assert RegisterAll([], calls) == [calls[n].cmd.value] + before;
    }
  }

  lemma AcceptedIsSome(cs: seq<Command>, call: AddCall)
    requires AddCode(cs, call) == 0
    ensures call.cmd.Some?
  {
  }

  // ----- the list in memory

  /** A struct list_head. One that is the first member of a Shell_cmd carries the rest of that
      structure; the head of the list is bare. */
  class ListHead {
    var next: ListHead?
    var prev: ListHead?
    const cmd: Option<Command>

    constructor (cmd: Option<Command>)
      ensures this.cmd == cmd && next == null && prev == null
    {
      this.cmd := cmd;
      next, prev := null, null;
    }

    /** __list_add */
    static method LinkBetween(node: ListHead, prev: ListHead, next: ListHead)
      requires node != prev && node != next
      modifies node, prev`next, next`prev
      ensures node.next == next && node.prev == prev && prev.next == node && next.prev == node
    {
      next.prev := node;
      node.next := next;
      node.prev := prev;
      prev.next := node;
    }
  }

  /** The call of shell_add_cmd that passes this structure. */
  function CallOf(node: ListHead?): AddCall
    reads node
  {
    if node == null then AddCall(None, false)
    else AddCall(node.cmd, node.next != null || node.prev != null)
  }

  class Registry {
    const head: ListHead
    /** The ring after the head, in `next` order. */
    ghost var nodes: seq<ListHead>

    /** The heap is one ring through the head and the nodes, in both directions. */
    ghost predicate Ring()
      reads this, head, nodes
    {
      && head.next == (if nodes == [] then head else nodes[0])
      && head.prev == (if nodes == [] then head else nodes[|nodes| - 1])
      && head !in nodes
      && (forall i, j :: 0 <= i < j < |nodes| ==> nodes[i] != nodes[j])
      && (forall i {:trigger nodes[i].next} :: 0 <= i < |nodes| ==>
            nodes[i].next == if i + 1 < |nodes| then nodes[i + 1] else head)
      && (forall i {:trigger nodes[i].prev} :: 0 <= i < |nodes| ==>
            nodes[i].prev == if i > 0 then nodes[i - 1] else head)
    }

    ghost predicate AllCommands()
      reads this
    {
      forall i :: 0 <= i < |nodes| ==> nodes[i].cmd.Some?
    }

    ghost function Contents(): (cs: seq<Command>)
      requires AllCommands()
      reads this
      ensures |cs| == |nodes| && forall i :: 0 <= i < |nodes| ==> cs[i] == nodes[i].cmd.value
    {
      var ns := nodes;
      seq(|ns|, i requires 0 <= i < |ns| && ns[i].cmd.Some? => ns[i].cmd.value)
    }

    ghost predicate Valid()
      reads this, head, nodes
    {
      Ring() && AllCommands() && WellFormed(Contents())
    }

    /** INIT_LIST_HEAD */
    constructor ()
      ensures Valid() && Contents() == [] && fresh(head)
    {
      var h := new ListHead(None);
      head := h;
      nodes := [];
      new;
      head.next := head;
      head.prev := head;
    }

    /** shell_find_cmd: a walk over the ring that compares names. */
    method FindCmd(name: Text) returns (cmd: ListHead?)
      requires Valid()
      ensures cmd == null <==> Find(Contents(), name) == |nodes|
      ensures cmd != null ==> cmd == nodes[Find(Contents(), name)]
      ensures cmd != null ==> cmd in nodes && cmd.cmd.Some? && cmd.cmd.value.Answers(name)
    {
      var pos := head.next;
      ghost var i := 0;
      while pos != head
        invariant i <= |nodes| && pos == if i < |nodes| then nodes[i] else head
        invariant forall j :: 0 <= j < i ==> !Contents()[j].Answers(name)
        decreases |nodes| - i
      {
        assert Contents()[i] == pos.cmd.value;
        if pos.cmd.value.name == Some(name) {
          return pos;
        }
        if pos.cmd.value.abrev == Some(name) {
          return pos;
        }
        pos := pos.next;
        i := i + 1;
      }
      cmd := null;
    }

    /** validate_cmd; the argument is a Shell_cmd, so it carries command fields. */
    static method ValidateCmd(node: ListHead?) returns (ret: int)
      requires node != null ==> node.cmd.Some?
      ensures ret == Validate(CallOf(node))
    {
      if node == null {
        return -ADD_CMD_NULL;
      }
      if node.next != null || node.prev != null {
        return -ADD_CMD_LINK_NOT_NULL;
      }
      var c := node.cmd.value;
      if c.name.None? {
        return -ADD_CMD_NAME_NULL;
      }
      if c.abrev.None? {
        return -ADD_CMD_ABREV_NULL;
      }
      if c.help.None? {
        return -ADD_CMD_HELP_NULL;
      }
      if c.func.None? {
        return -ADD_CMD_FUNC_NULL;
      }
      if c.min > c.max {
        return -ADD_CMD_MIN_GT_MAX;
      }
      if c.min > CMD_BUF_NARGS || c.max > CMD_BUF_NARGS {
        return -ADD_CMD_NUM_ARGS_EXCEEDED;
      }
      ret := 0;
    }

    lemma InRingIsLinked(node: ListHead?)
      requires Ring()
      ensures node != null && node in nodes ==> node.next != null
    {
      if node != null && node in nodes {
        var i :| 0 <= i < |nodes| && nodes[i] == node;
        assert nodes[i].next != null;
      }
    }

    /** shell_add_cmd: the structure is put right after the head, or nothing changes. A
        structure already in the ring is always refused. */
    method AddCmd(node: ListHead?) returns (ret: int)
      requires Valid() && node != head && (node != null ==> node.cmd.Some?)
      modifies this`nodes, head, nodes, if node == null then {} else {node}
      ensures Valid()
      ensures ret == AddCode(old(Contents()), old(CallOf(node)))
      ensures Contents() == Register(old(Contents()), old(CallOf(node)))
      ensures ret == 0 ==> nodes == [node] + old(nodes)
      ensures ret != 0 ==> unchanged(this) && unchanged(head) && unchanged(old(nodes))
                           && (node != null ==> unchanged(node))
      ensures node != null && node in old(nodes) ==> ret == -ADD_CMD_LINK_NOT_NULL
    {
      RegisterKeeps(Contents(), CallOf(node));
      InRingIsLinked(node);
      ret := ValidateCmd(node);
      if ret != 0 {
        return;
      }
      var prior := FindPrior(node.cmd.value.name.value, node.cmd.value.abrev.value);
      if prior != null {
        return -ADD_CMD_ALREADY_ADDED;
      }
      ListAdd(node);
    }

    /** The two lookups of shell_add_cmd: a command that already has either string. */
    method FindPrior(name: Text, abrev: Text) returns (prior: ListHead?)
      requires Valid()
      ensures prior == null
         <==> Find(Contents(), name) == |nodes| && Find(Contents(), abrev) == |nodes|
    {
      prior := FindCmd(name);
      if prior == null {
        prior := FindCmd(abrev);
      }
    }

    /** list_add: link right after the head. */
    method ListAdd(node: ListHead)
      requires Ring() && AllCommands() && node != head && node !in nodes && node.cmd.Some?
      modifies this`nodes, head, nodes, node
      ensures Ring() && AllCommands() && nodes == [node] + old(nodes)
      ensures Contents() == [node.cmd.value] + old(Contents())
    {
      ListHead.LinkBetween(node, head, head.next);
      nodes := [node] + nodes;
    }
  }
}
