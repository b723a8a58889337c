/**
 The table of registered commands: an array of slots that behaves as a finite map of bounded size.
 */
module CommandRegistry {
  import opened Options
  import opened Tlv

  /** What is known about a command; handlers and private data are opaque names. */
  datatype CommandInfo = CommandInfo(cmd: Word, access: Octet, freeOnReturn: bool, handler: int, priv: int)

  datatype Status = OK | FAIL | NO_MEM | INVALID_ARG

  // ----- the map -----

  type Commands = map<Word, CommandInfo>

  predicate Keyed(m: Commands) { forall c | c in m :: m[c].cmd == c }

  /** A registration comes with the answer of the allocator, in case it is asked. */
  datatype Operation = Register(info: CommandInfo, memory: bool) | Deregister(cmd: Word)

  /** An operation on a map with room for so many commands. */
  function Apply(capacity: nat, m: Commands, op: Operation): (Commands, Status) {
    match op
    case Register(info, memory) =>
      if info.cmd in m then (m, FAIL)
      else if |m| >= capacity || !memory then (m, NO_MEM)
      else (m[info.cmd := info], OK)
    case Deregister(cmd) =>
      if cmd in m then (m - {cmd}, OK) else (m, INVALID_ARG)
  }

  function ApplyAll(capacity: nat, ops: seq<Operation>): Commands {
    if ops == [] then map[]
    else Apply(capacity, ApplyAll(capacity, ops[..|ops| - 1]), ops[|ops| - 1]).0
  }

  function Statuses(capacity: nat, ops: seq<Operation>): seq<Status> {
    if ops == [] then []
    else
      Statuses(capacity, ops[..|ops| - 1])
      + [Apply(capacity, ApplyAll(capacity, ops[..|ops| - 1]), ops[|ops| - 1]).1]
  }

  /** The status of one operation of a run. */
  function StatusAt(capacity: nat, ops: seq<Operation>, i: nat): Status
    requires i < |ops|
  {
    Apply(capacity, ApplyAll(capacity, ops[..i]), ops[i]).1
  }

  /** The operation registered the information, and the command has not been deregistered since. */
  predicate InForce(capacity: nat, ops: seq<Operation>, i: nat, info: CommandInfo) {
    && i < |ops| && ops[i] == Register(info, true) && StatusAt(capacity, ops, i) == OK
    && forall j | i < j < |ops| :: ops[j] != Deregister(info.cmd)
  }

  /** The table never holds more commands than it has slots. */
  lemma {:induction false} Bounded(capacity: nat, ops: seq<Operation>)
    ensures |ApplyAll(capacity, ops)| <= capacity && Keyed(ApplyAll(capacity, ops))
  {
    if ops == [] {
    } else {
      Bounded(capacity, ops[..|ops| - 1]);
      var m := ApplyAll(capacity, ops[..|ops| - 1]);
      match ops[|ops| - 1]
      case Register(_, _) =>
      case Deregister(cmd) => if cmd in m { assert |m - {cmd}| + 1 == |m| by { Removed(m, cmd); } }
    }
  }

  lemma Removed(m: Commands, c: Word)
    requires c in m
    ensures |m - {c}| == |m| - 1
  {
    assert (m - {c}).Keys == m.Keys - {c};
  }

  /** Looking up gives what was registered last and not deregistered since, and nothing else. */
  lemma {:induction false} LookupIsLastRegistered(capacity: nat, ops: seq<Operation>, info: CommandInfo)
    ensures var m := ApplyAll(capacity, ops);
            (info.cmd in m && m[info.cmd] == info) <==> exists i :: InForce(capacity, ops, i, info)
  {
    if ops == [] {
    } else {
      var n := |ops| - 1;
      var before, m := ApplyAll(capacity, ops[..n]), ApplyAll(capacity, ops);
      LookupIsLastRegistered(capacity, ops[..n], info);
      InForceBefore(capacity, ops, info);
      Bounded(capacity, ops[..n]);
      if InForce(capacity, ops, n, info) {
      } else if info.cmd in m && m[info.cmd] == info {
        assert ops[n] != Register(info, true) || StatusAt(capacity, ops, n) != OK;
        assert info.cmd in before && before[info.cmd] == info;
      }
    }
  }

  lemma InForceBefore(capacity: nat, ops: seq<Operation>, info: CommandInfo)
    requires ops != []
    ensures var n := |ops| - 1;
            forall i: nat | i < n :: InForce(capacity, ops, i, info)
              <==> InForce(capacity, ops[..n], i, info) && ops[n] != Deregister(info.cmd)
  {
    var n := |ops| - 1;
    forall i: nat | i < n
      ensures InForce(capacity, ops, i, info)
         <==> InForce(capacity, ops[..n], i, info) && ops[n] != Deregister(info.cmd)
    {
      assert ops[..n][..i] == ops[..i];
      assert forall j | i < j < n :: ops[..n][j] == ops[j];
    }
  }

  // ----- the slots -----

  type Slot = Option<CommandInfo>

  predicate Holds(slot: Slot, cmd: Word) { slot.Some? && slot.value.cmd == cmd }

  /** At most one slot for each command. */
  predicate OnePerCommand(slots: seq<Slot>) {
    forall i, j | 0 <= i < j < |slots| && slots[i].Some? && slots[j].Some? :: slots[i].value.cmd != slots[j].value.cmd
  }

  /** The slots hold exactly the commands of the map. */
  predicate Represents(slots: seq<Slot>, m: Commands) {
    && OnePerCommand(slots) && Keyed(m)
    && (forall i | 0 <= i < |slots| && slots[i].Some? ::
      slots[i].value.cmd in m && m[slots[i].value.cmd] == slots[i].value)
    && (forall c | c in m :: Some(m[c]) in slots)
  }

  function Used(slots: seq<Slot>): nat {
    if slots == [] then 0 else Used(slots[..|slots| - 1]) + if slots[|slots| - 1].Some? then 1 else 0
  }

  lemma WithoutLast(slots: seq<Slot>, m: Commands)
    requires slots != [] && Represents(slots, m)
    ensures var init, last := slots[..|slots| - 1], slots[|slots| - 1];
            if last.None? then Represents(init, m)
            else last.value.cmd in m && Represents(init, m - {last.value.cmd})
  {
    var init, last := slots[..|slots| - 1], slots[|slots| - 1];
    assert slots == init + [last];
  }

  lemma {:induction false} UsedIsSize(slots: seq<Slot>, m: Commands)
    requires Represents(slots, m)
    ensures |m| == Used(slots)
  {
    if slots == [] {
      assert m.Keys == {};
    } else {
      hide Represents;
      var init, last := slots[..|slots| - 1], slots[|slots| - 1];
      WithoutLast(slots, m);
      if last.Some? {
        Removed(m, last.value.cmd);
        UsedIsSize(init, m - {last.value.cmd});
      } else {
        UsedIsSize(init, m);
      }
    }
  }

  lemma {:induction false} UsedBound(slots: seq<Slot>)
    ensures Used(slots) <= |slots|
    ensures Used(slots) == |slots| <==> None !in slots
  {
    if slots == [] {
    } else {
      UsedBound(slots[..|slots| - 1]);
      assert slots == slots[..|slots| - 1] + [slots[|slots| - 1]];
    }
  }

  lemma Fill(slots: seq<Slot>, m: Commands, i: nat, info: CommandInfo)
    requires Represents(slots, m) && i < |slots| && slots[i].None? && info.cmd !in m
    ensures Represents(slots[i := Some(info)], m[info.cmd := info])
  {
    var next, m' := slots[i := Some(info)], m[info.cmd := info];
    forall c | c in m' ensures Some(m'[c]) in next {
      if c == info.cmd {
        assert next[i] == Some(info);
      } else {
        var k :| 0 <= k < |slots| && slots[k] == Some(m[c]);
        assert next[k] == Some(m[c]);
      }
    }
  }

  lemma Empty(slots: seq<Slot>, m: Commands, i: nat)
    requires Represents(slots, m) && i < |slots| && slots[i].Some?
    ensures slots[i].value.cmd in m && Represents(slots[i := None], m - {slots[i].value.cmd})
  {
    var cmd := slots[i].value.cmd;
    var next, m' := slots[i := None], m - {cmd};
    forall c | c in m' ensures Some(m'[c]) in next {
      var k :| 0 <= k < |slots| && slots[k] == Some(m[c]);
      assert next[k] == Some(m[c]);
    }
  }

  /** A command without a slot is not in the map. */
  lemma NotHeld(slots: seq<Slot>, m: Commands, cmd: Word)
    requires Represents(slots, m) && forall i | 0 <= i < |slots| :: !Holds(slots[i], cmd)
    ensures cmd !in m
  {
    forall c | c in m ensures exists k :: 0 <= k < |slots| && Holds(slots[k], c) {
      var k :| 0 <= k < |slots| && slots[k] == Some(m[c]);
      assert Holds(slots[k], c);
    }
  }

  /** esp_rmaker_cmd_list, with the functions that use it. */
  class Registry {
    const slots: array<Slot>

    /** The commands that are registered. */
    ghost var commands: Commands

    ghost predicate Valid()
      reads this, slots
    {
      Represents(slots[..], commands)
    }

    constructor (maxCommands: nat)
      ensures Valid() && commands == map[] && slots.Length == maxCommands && fresh(slots)
    {
      slots := new Slot[maxCommands](_ => None);
      commands := map[];
    }

    /** esp_rmaker_cmd_register; `memory` is the answer of the allocator */
    method Register(info: CommandInfo, memory: bool) returns (status: Status)
      requires Valid()
      modifies `commands, slots
      ensures Valid()
      ensures (commands, status) == Apply(slots.Length, old(commands), Operation.Register(info, memory))
      ensures var held := exists i :: 0 <= i < slots.Length && Holds(old(slots[..])[i], info.cmd);
              && (status == FAIL <==> held)
              && (status == OK <==> !held && None in old(slots[..]) && memory)
              && (status == NO_MEM <==> !held && (None !in old(slots[..]) || !memory))
      ensures status == OK ==>
                exists i :: 0 <= i < slots.Length && None !in old(slots[..])[..i] && old(slots[..])[i] == None
                            && slots[..] == old(slots[..])[i := Some(info)]
      ensures status != OK ==> slots[..] == old(slots[..])
    {
      hide Represents;
      for i := 0 to slots.Length
        invariant forall k | 0 <= k < i :: !Holds(slots[k], info.cmd)
      {
        if Holds(slots[i], info.cmd) {
          Empty(slots[..], commands, i);
          return FAIL;
        }
      }
      NotHeld(slots[..], commands, info.cmd);
      UsedIsSize(slots[..], commands);
      UsedBound(slots[..]);
      for i := 0 to slots.Length
        invariant forall k | 0 <= k < i :: slots[k].Some?
      {
        if slots[i].None? {
          assert slots[..][i] == None;
          if !memory {
            return NO_MEM;
          }
          assert slots[..][i] == None;
          Fill(slots[..], commands, i, info);
          ghost var was := slots[..];
          slots[i] := Some(info);
          assert slots[..] == was[i := Some(info)];
          commands := commands[info.cmd := info];
          return OK;
        }
      }
      return NO_MEM;
    }

    /** esp_rmaker_cmd_deregister */
    method Deregister(cmd: Word) returns (status: Status)
      requires Valid()
      modifies `commands, slots
      ensures Valid()
      ensures (commands, status) == Apply(slots.Length, old(commands), Operation.Deregister(cmd))
      ensures status == OK <==> exists i :: 0 <= i < slots.Length && Holds(old(slots[..])[i], cmd)
      ensures status != OK ==> status == INVALID_ARG && slots[..] == old(slots[..])
      ensures status == OK ==>
                exists i :: 0 <= i < slots.Length && Holds(old(slots[..])[i], cmd)
                            && slots[..] == old(slots[..])[i := None]
    {
      hide Represents;
      for i := 0 to slots.Length
        invariant forall k | 0 <= k < i :: !Holds(slots[k], cmd)
      {
        if Holds(slots[i], cmd) {
          Empty(slots[..], commands, i);
          ghost var was := slots[..];
          slots[i] := None;
          assert slots[..] == was[i := None];
          commands := commands - {cmd};
          return OK;
        }
      }
      NotHeld(slots[..], commands, cmd);
      return INVALID_ARG;
    }

    /** esp_rmaker_get_cmd_info */
    method GetCmdInfo(cmd: Word) returns (info: Option<CommandInfo>)
      requires Valid()
      ensures info == if cmd in commands then Some(commands[cmd]) else None
    {
      for i := 0 to slots.Length
        invariant forall k | 0 <= k < i :: !Holds(slots[k], cmd)
      {
        if Holds(slots[i], cmd) {
          assert slots[..][i] == slots[i];
          return slots[i];
        }
      }
      NotHeld(slots[..], commands, cmd);
      return None;
    }
  }

  /** Any run of registrations and deregistrations, from the empty table, is the run of the map. */
  method RunOperations(maxCommands: nat, ops: seq<Operation>) returns (registry: Registry, statuses: seq<Status>)
    ensures fresh(registry) && registry.Valid() && registry.slots.Length == maxCommands
    ensures registry.commands == ApplyAll(maxCommands, ops)
    ensures statuses == Statuses(maxCommands, ops)
  {
    hide Apply, Represents;
    registry := new Registry(maxCommands);
    statuses := [];
    for k := 0 to |ops|
      invariant registry.Valid() && fresh(registry) && fresh(registry.slots) && registry.slots.Length == maxCommands
      invariant registry.commands == ApplyAll(maxCommands, ops[..k])
      invariant statuses == Statuses(maxCommands, ops[..k])
    {
      assert ops[..k + 1][..k] == ops[..k];
      var status;
      match ops[k] {
        case Register(info, memory) => status := registry.Register(info, memory);
        case Deregister(cmd) => status := registry.Deregister(cmd);
      }
      statuses := statuses + [status];
    }
    assert ops[..|ops|] == ops;
  }
}
