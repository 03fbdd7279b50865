/** The capability and handle tables as the kernel changes them (kernel/src/cap.rs): scanning loops over
    slot rows, proved against `Capabilities` and `Handles`. */
module CapTables {
  import opened Wrappers
  import opened Slots
  import Capabilities
  import Handles

  type Capability = Capabilities.Capability

  class CapTables {
    var caps: Table<Capability>
    var handles: Table<nat>

    /** `n` domains without capabilities and handles. */
    constructor (n: nat)
      ensures |caps| == |handles| == n
      ensures forall d, c :: !Capabilities.Holds(caps, d, c)
      ensures forall d, h :: Cell(handles, d, h) == None
    {
      caps := seq(n, i => EmptyRow(Capabilities.CAP_SLOTS));
      handles := seq(n, i => EmptyRow(Handles.HANDLE_SLOTS));
    }

    /** `add_domain` and `remove_domain`: both rows of domain `id` become empty, the others stay. */
    method ClearDomain(id: nat)
      modifies this
      ensures caps == SetRow(old(caps), id, EmptyRow(Capabilities.CAP_SLOTS))
      ensures handles == SetRow(old(handles), id, EmptyRow(Handles.HANDLE_SLOTS))
    {
      while |caps| <= id
        invariant |old(caps)| <= |caps| && (|caps| <= id + 1 || |caps| == |old(caps)|)
        invariant forall d :: 0 <= d < |caps| ==>
          caps[d] == if d < |old(caps)| then old(caps)[d] else EmptyRow(Capabilities.CAP_SLOTS)
        invariant handles == old(handles)
        decreases id - |caps|
      {
        caps := caps + [EmptyRow(Capabilities.CAP_SLOTS)];
      }
      caps := caps[id := EmptyRow(Capabilities.CAP_SLOTS)];
      while |handles| <= id
        invariant |old(handles)| <= |handles| && (|handles| <= id + 1 || |handles| == |old(handles)|)
        invariant forall d :: 0 <= d < |handles| ==>
          handles[d] == if d < |old(handles)| then old(handles)[d] else EmptyRow(Handles.HANDLE_SLOTS)
        invariant caps == SetRow(old(caps), id, EmptyRow(Capabilities.CAP_SLOTS))
        decreases id - |handles|
      {
        handles := handles + [EmptyRow(Handles.HANDLE_SLOTS)];
      }
      handles := handles[id := EmptyRow(Handles.HANDLE_SLOTS)];
    }

    method Contains(row: Row<Capability>, c: Capability) returns (b: bool)
      ensures b <==> Some(c) in row
    {
      for i := 0 to |row|
        invariant Some(c) !in row[..i]
      {
        if row[i] == Some(c) { return true; }
      }
      return false;
    }

    method Has(d: nat, c: Capability) returns (b: bool)
      requires d < |caps|
      ensures b <==> Capabilities.Holds(caps, d, c)
    {
      b := Contains(caps[d], c);
    }

    /** Whether some port range of the domain covers `port`; a missing row covers nothing. */
    method HasPort(d: nat, port: nat) returns (b: bool)
      ensures b <==> exists base: nat, len: nat ::
        Capabilities.Holds(caps, d, Capabilities.IoPort(base, len)) && base <= port < base + len
    {
      if d >= |caps| { return false; }
      for i := 0 to |caps[d]|
        invariant forall j :: 0 <= j < i && caps[d][j].Some? && caps[d][j].value.IoPort? ==>
          !(caps[d][j].value.port <= port < caps[d][j].value.port + caps[d][j].value.len)
      {
        match caps[d][i]
        case Some(IoPort(base, len)) =>
          if base <= port < base + len {
            assert Capabilities.Holds(caps, d, Capabilities.IoPort(base, len));
            return true;
          }
        case _ =>
      }
      return false;
    }

    method Grant(d: nat, c: Capability) returns (ok: bool)
      requires d < |caps|
      modifies this`caps
      ensures caps == Capabilities.Grant(old(caps), d, c)
      ensures ok == HasRoom(old(caps), d)
      ensures ok ==> Capabilities.Holds(caps, d, c)
    {
      for i := 0 to |caps[d]|
        invariant caps == old(caps) && forall j :: 0 <= j < i ==> caps[d][j].Some?
      {
        if caps[d][i].None? {
          assert FirstEmpty(caps[d]) == i;
          caps := caps[d := caps[d][i := Some(c)]];
          assert caps[d][i] == Some(c);
          return true;
        }
      }
      return false;
    }

    method Revoke(d: nat, c: Capability) returns (ok: bool)
      requires d < |caps|
      modifies this`caps
      ensures caps == Capabilities.Revoke(old(caps), d, c)
      ensures ok == Capabilities.Holds(old(caps), d, c)
    {
      for i := 0 to |caps[d]|
        invariant caps == old(caps) && forall j :: 0 <= j < i ==> caps[d][j] != Some(c)
      {
        if caps[d][i] == Some(c) {
          assert Capabilities.FirstHeld(caps[d], c) == i;
          caps := caps[d := caps[d][i := None]];
          return true;
        }
      }
      return false;
    }

    /** Delegation without amplification: only a capability the source holds is written. */
    method Delegate(from: nat, to: nat, c: Capability) returns (ok: bool)
      modifies this`caps
      ensures caps == Capabilities.Delegate(old(caps), from, to, c)
      ensures ok == Capabilities.Delegates(old(caps), from, to, c)
      ensures ok ==> Capabilities.Holds(caps, to, c)
    {
      var held := false;
      if from < |caps| { held := Contains(caps[from], c); }
      if held && to < |caps| {
        var already := Contains(caps[to], c);
        if already { return true; }
        ok := Grant(to, c);
        return;
      }
      return false;
    }

    method HandleIssue(d: nat, obj: nat) returns (h: Option<nat>)
      modifies this`handles
      ensures (handles, h) == Handles.Issue(old(handles), d, obj)
    {
      if d < |handles| {
        h := PutObject(d, obj);
      } else {
        h := None;
      }
    }

    /** The object in the domain's first empty slot, if there is one. */
    method PutObject(d: nat, obj: nat) returns (h: Option<nat>)
      requires d < |handles|
      modifies this`handles
      ensures (handles, h) == Handles.Issue(old(handles), d, obj)
    {
      for i := 0 to |handles[d]|
        invariant handles == old(handles) && forall j :: 0 <= j < i ==> handles[d][j].Some?
      {
        if handles[d][i].None? {
          assert FirstEmpty(handles[d]) == i;
          handles := handles[d := handles[d][i := Some(obj)]];
          return Some(i);
        }
      }
      return None;
    }

    method HandleLookup(d: nat, h: nat) returns (r: Option<nat>)
      ensures r == Cell(handles, d, h)
    {
      if d < |handles| && h < |handles[d]| { r := handles[d][h]; } else { r := None; }
    }

    method HandleDrop(d: nat, h: nat) returns (ok: bool)
      modifies this`handles
      ensures (handles, ok) == Handles.Drop(old(handles), d, h)
    {
      ok := false;
      if d < |handles| && h < |handles[d]| && handles[d][h].Some? {
        handles := handles[d := handles[d][h := None]];
        ok := true;
      }
    }

    /** Take the object out of the source, look for an empty slot in the target, and roll back if there is none. */
    method HandleMove(from: nat, to: nat, h: nat) returns (r: Option<nat>)
      modifies this`handles
      ensures (handles, r) == Handles.Move(old(handles), from, to, h)
    {
      r := None;
      if from < |handles| && h < |handles[from]| && handles[from][h].Some? {
        var obj := handles[from][h].value;
        handles := handles[from := handles[from][h := None]];
        if to < |handles| { r := PutObject(to, obj); }
        if r.None? { handles := handles[from := handles[from][h := Some(obj)]]; }
      }
    }
  }
}
