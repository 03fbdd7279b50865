/** Capability rows (kernel/src/cap.rs) and delegation over whole runs: nothing is amplified beyond what new
    programs start with, and exactly when a set of domains keeps its capabilities to itself. */
module Capabilities {
  import opened Wrappers
  import opened Slots

  datatype Capability =
    | SendTo(domain: nat)
    | MapInto(domain: nat)
    | Irq(vector: nat)
    | Mmio(base: nat)
    | IoPort(port: nat, len: nat)
    | Net(lo: nat, hi: nat)
    | Fb
    | Spawn

  const CAP_SLOTS: nat := 32

  predicate Holds(t: Table<Capability>, d: nat, c: Capability) { d < |t| && Some(c) in t[d] }

  /** `grant`: first empty slot; a full row drops the capability. */
  function Grant(t: Table<Capability>, d: nat, c: Capability): (r: Table<Capability>) {
    if HasRoom(t, d) then Put(t, d, c) else t
  }

  /** First slot of the row that holds c, or its length. */
  function FirstHeld(row: Row<Capability>, c: Capability): (i: nat)
    ensures i <= |row| && (i < |row| ==> row[i] == Some(c))
    ensures forall j :: 0 <= j < i ==> row[j] != Some(c)
  {
    if row == [] || row[0] == Some(c) then 0 else 1 + FirstHeld(row[1..], c)
  }

  /** `revoke`: empties the first slot that holds c. */
  function Revoke(t: Table<Capability>, d: nat, c: Capability): (r: Table<Capability>) {
    if d < |t| && FirstHeld(t[d], c) < |t[d]| then t[d := t[d][FirstHeld(t[d], c) := None]] else t
  }

  /** `delegate` reports success exactly when the source holds c and the target holds it afterwards. */
  predicate Delegates(t: Table<Capability>, from: nat, to: nat, c: Capability) {
    Holds(t, from, c) && (Holds(t, to, c) || HasRoom(t, to))
  }

  function Delegate(t: Table<Capability>, from: nat, to: nat, c: Capability): (r: Table<Capability>) {
    if Delegates(t, from, to, c) && !Holds(t, to, c) then Put(t, to, c) else t
  }

  /** Delegation adds exactly this capability to exactly this domain, takes it from nobody, and takes no slot for one
      that is there already. */
  lemma DelegateExact(t: Table<Capability>, from: nat, to: nat, c: Capability, d: nat, e: Capability)
    ensures var r := Delegate(t, from, to, c);
            && (Holds(r, d, e) <==> Holds(t, d, e) || (d == to && e == c && Delegates(t, from, to, c)))
            && (Delegates(t, from, to, c) ==> Delegate(r, from, to, c) == r)
  {
    var r := Delegate(t, from, to, c);
    if Delegates(t, from, to, c) && !Holds(t, to, c) {
      var n := FirstEmpty(t[to]);
      assert r[to][n] == Some(c);
      if d < |t| && Some(e) in t[d] {
        var i :| 0 <= i < |t[d]| && t[d][i] == Some(e);
        assert r[d][i] == Some(e);
      }
    }
  }

  /** Revoking what was just granted gives back the table. */
  lemma RevokeUndoesGrant(t: Table<Capability>, d: nat, c: Capability)
    requires HasRoom(t, d) && !Holds(t, d, c)
    ensures Holds(Grant(t, d, c), d, c) && Revoke(Grant(t, d, c), d, c) == t
  {
    var r, n := Grant(t, d, c), FirstEmpty(t[d]);
    assert r[d][n] == Some(c) && forall j :: 0 <= j < n ==> r[d][j] == t[d][j];
    assert FirstHeld(r[d], c) == n;
    assert r[d][n := None] == t[d];
  }

  // ---- what a new program starts with ----

  const MOUNT_SRV_DOMAIN: nat := 9
  const MFS_SRV_DOMAIN: nat := 11

  function StartCaps(): (held: seq<Capability>) {
    [SendTo(MOUNT_SRV_DOMAIN), SendTo(MFS_SRV_DOMAIN), MapInto(MFS_SRV_DOMAIN)]
  }

  /** `spawn_elf`: the new domain's row is emptied, then three capabilities are granted. */
  function Start(t: Table<Capability>, d: nat): (r: Table<Capability>) {
    var t1 := Grant(SetRow(t, d, EmptyRow(CAP_SLOTS)), d, SendTo(MOUNT_SRV_DOMAIN));
    Grant(Grant(t1, d, SendTo(MFS_SRV_DOMAIN)), d, MapInto(MFS_SRV_DOMAIN))
  }

  ghost predicate StartsWith(row: Row<Capability>, held: seq<Capability>) {
    |row| == CAP_SLOTS && |held| <= |row| && forall i :: 0 <= i < |row| ==>
      row[i] == if i < |held| then Some(held[i]) else None
  }

  /** Granting into a row that holds exactly `held` in its first slots adds the capability behind them. */
  lemma GrantNext(t: Table<Capability>, d: nat, held: seq<Capability>, c: Capability)
    requires d < |t| && StartsWith(t[d], held) && |held| < CAP_SLOTS
    ensures var r := Grant(t, d, c);
            |r| == |t| && StartsWith(r[d], held + [c]) && forall e :: 0 <= e < |t| && e != d ==> r[e] == t[e]
  {
    assert FirstEmpty(t[d]) == |held| by { assert t[d][|held|].None?; }
  }

  lemma StartRow(t: Table<Capability>, d: nat)
    ensures var r := Start(t, d);
            && |r| == (if d < |t| then |t| else d + 1) && StartsWith(r[d], StartCaps())
            && forall e :: 0 <= e < |r| && e != d ==> r[e] == if e < |t| then t[e] else EmptyRow(CAP_SLOTS)
  {
    var t0 := SetRow(t, d, EmptyRow(CAP_SLOTS));
    var held := StartCaps();
    var t1 := Grant(t0, d, held[0]);
    GrantNext(t0, d, [], held[0]);
    assert [] + [held[0]] == [held[0]];
    GrantNext(t1, d, [held[0]], held[1]);
    assert [held[0]] + [held[1]] == [held[0], held[1]];
    GrantNext(Grant(t1, d, held[1]), d, [held[0], held[1]], held[2]);
    assert [held[0], held[1]] + [held[2]] == held;
  }

  /** The new domain holds exactly the three; everybody else holds what they held. */
  lemma StartHolds(t: Table<Capability>, d: nat, e: nat, c: Capability)
    ensures Holds(Start(t, d), e, c) <==> if e == d then c in StartCaps() else Holds(t, e, c)
  {
    StartRow(t, d);
    if e == d { assert forall i :: 0 <= i < |StartCaps()| ==> Start(t, d)[d][i] == Some(StartCaps()[i]); }
  }

  // ---- runs ----

  /** The steps that touch capability rows after boot: SYS_CAP_SEND by domain `me`, revocation, the row of a
      domain being cleared, and the row a new program starts with. */
  datatype CapOp =
    | CapSend(me: nat, to: nat, cap: Capability)
    | CapRevoke(d: nat, cap: Capability)
    | CapClear(d: nat)
    | CapStart(d: nat)

  function Step(t: Table<Capability>, op: CapOp): (r: Table<Capability>) {
    match op
    case CapSend(me, to, c) => if Holds(t, me, SendTo(to)) then Delegate(t, me, to, c) else t
    case CapRevoke(d, c) => Revoke(t, d, c)
    case CapClear(d) => SetRow(t, d, EmptyRow(CAP_SLOTS))
    case CapStart(d) => Start(t, d)
  }

  function Run(t: Table<Capability>, ops: seq<CapOp>): (r: Table<Capability>)
    decreases |ops|
  {
    if ops == [] then t else Run(Step(t, ops[0]), ops[1..])
  }

  /** A step gives a capability to at most one domain: because the sender holds it and may send there, or because
      the domain is new and every new one gets it. */
  lemma StepHolds(t: Table<Capability>, op: CapOp, d: nat, c: Capability)
    requires Holds(Step(t, op), d, c)
    ensures Holds(t, d, c)
            || (op.CapSend? && op.to == d && op.cap == c && Holds(t, op.me, c) && Holds(t, op.me, SendTo(d)))
            || (op.CapStart? && op.d == d && c in StartCaps())
  {
    var t' := Step(t, op);
    var i :| 0 <= i < |t'[d]| && t'[d][i] == Some(c);
    match op
    case CapSend(me, to, cap) =>
      assert t' == t || d != to || t[d][i] == t'[d][i] || (i == FirstEmpty(t[to]) && cap == c);
    case CapRevoke(d', cap) => assert t[d][i] == t'[d][i];
    case CapClear(d') => assert d != d' ==> t[d][i] == t'[d][i];
    case CapStart(d') => StartHolds(t, d', d, c);
  }

  ghost predicate Anywhere(t: Table<Capability>, c: Capability) { exists d :: Holds(t, d, c) }

  predicate Starts(ops: seq<CapOp>) { exists i :: 0 <= i < |ops| && ops[i].CapStart? }

  /** No amplification: a run brings no capability into the system but those every new program starts with. */
  lemma {:induction false} RunNeverAmplifies(t: Table<Capability>, ops: seq<CapOp>, c: Capability)
    requires Anywhere(Run(t, ops), c)
    ensures Anywhere(t, c) || (Starts(ops) && c in StartCaps())
    decreases |ops|
  {
    if ops != [] {
      var t1 := Step(t, ops[0]);
      RunNeverAmplifies(t1, ops[1..], c);
      if Starts(ops[1..]) { var i :| 0 <= i < |ops[1..]| && ops[1..][i].CapStart?; assert ops[i + 1].CapStart?; }
      if Anywhere(t1, c) {
        var d :| Holds(t1, d, c);
        StepHolds(t, ops[0], d, c);
      }
    }
  }

  /** Nobody in S may send outside S, and nobody outside may send into S. */
  ghost predicate Isolated(t: Table<Capability>, S: set<nat>) {
    forall d, x :: Holds(t, d, SendTo(x)) ==> (d in S <==> x in S)
  }

  ghost predicate OnlyIn(t: Table<Capability>, S: set<nat>, c: Capability) { forall d :: Holds(t, d, c) ==> d in S }

  /** S is isolated and nobody outside holds c. */
  ghost predicate Confines(t: Table<Capability>, S: set<nat>, c: Capability) { Isolated(t, S) && OnlyIn(t, S, c) }

  /** What confinement needs of a new domain d: the two services it may talk to are on its own side, and if c is one
      of its start capabilities that side is S. */
  predicate StartFits(S: set<nat>, d: nat, c: Capability) {
    (d in S <==> MOUNT_SRV_DOMAIN in S) && (d in S <==> MFS_SRV_DOMAIN in S) && (c in StartCaps() ==> d in S)
  }

  /** A step keeps confinement exactly when it starts no program that does not fit. */
  lemma StepConfinesExact(t: Table<Capability>, op: CapOp, S: set<nat>, c: Capability)
    requires Confines(t, S, c)
    ensures Confines(Step(t, op), S, c) <==> (op.CapStart? ==> StartFits(S, op.d, c))
  {
    var t1 := Step(t, op);
    if op.CapStart? ==> StartFits(S, op.d, c) {
      forall d, x | Holds(t1, d, SendTo(x)) ensures d in S <==> x in S { StepIsolated(t, op, S, c, d, x); }
      forall d | Holds(t1, d, c) ensures d in S { StepHolds(t, op, d, c); }
    } else {
      StartEscapes(t, op.d, S, c);
    }
  }

  lemma StepIsolated(t: Table<Capability>, op: CapOp, S: set<nat>, c: Capability, d: nat, x: nat)
    requires Isolated(t, S) && (op.CapStart? ==> StartFits(S, op.d, c)) && Holds(Step(t, op), d, SendTo(x))
    ensures d in S <==> x in S
  {
    StepHolds(t, op, d, SendTo(x));
    if !Holds(t, d, SendTo(x)) && op.CapSend? {
      assert Holds(t, op.me, SendTo(x)) && Holds(t, op.me, SendTo(d));
      assert op.me in S <==> x in S;
      assert op.me in S <==> d in S;
    }
  }

  lemma StartEscapes(t: Table<Capability>, d: nat, S: set<nat>, c: Capability)
    requires !StartFits(S, d, c)
    ensures !Confines(Start(t, d), S, c)
  {
    var t1 := Start(t, d);
    assert SendTo(MOUNT_SRV_DOMAIN) == StartCaps()[0] && SendTo(MFS_SRV_DOMAIN) == StartCaps()[1];
    StartHolds(t, d, d, SendTo(MOUNT_SRV_DOMAIN));
    StartHolds(t, d, d, SendTo(MFS_SRV_DOMAIN));
    StartHolds(t, d, d, c);
  }

  /** In every state of the run S is isolated and nobody outside holds c. */
  ghost predicate AlwaysConfines(t: Table<Capability>, ops: seq<CapOp>, S: set<nat>, c: Capability)
    decreases |ops|
  {
    Confines(t, S, c) && (ops != [] ==> AlwaysConfines(Step(t, ops[0]), ops[1..], S, c))
  }

  /** Confinement: a run keeps a capability held only in an isolated set S there, and S isolated, exactly when every
      program it starts fits. */
  lemma {:induction false} Confined(t: Table<Capability>, ops: seq<CapOp>, S: set<nat>, c: Capability)
    requires Confines(t, S, c)
    ensures AlwaysConfines(t, ops, S, c) <==>
      forall i :: 0 <= i < |ops| && ops[i].CapStart? ==> StartFits(S, ops[i].d, c)
    decreases |ops|
  {
    if ops != [] {
      StepConfinesExact(t, ops[0], S, c);
      if Confines(Step(t, ops[0]), S, c) { Confined(Step(t, ops[0]), ops[1..], S, c); }
      assert forall i :: 0 < i < |ops| ==> ops[i] == ops[1..][i - 1];
    }
  }

  /** One SendTo across the border is enough to leak: isolation is needed. */
  lemma BorderLeaks(t: Table<Capability>, me: nat, to: nat, c: Capability)
    requires Holds(t, me, SendTo(to)) && Holds(t, me, c) && HasRoom(t, to)
    ensures Holds(Run(t, [CapSend(me, to, c)]), to, c)
  {
    var t1 := Step(t, CapSend(me, to, c));
    assert Run(t, [CapSend(me, to, c)]) == Run(t1, []);
    if !Holds(t, to, c) { assert t1[to][FirstEmpty(t[to])] == Some(c); }
  }

  // ---- the codes of SYS_CAP_SEND and SYS_CAP_AUDIT ----

  const ARG_LIMIT: nat := 0x100_0000_0000_0000

  function Decode(kind: nat, arg: nat): (r: Option<Capability>) {
    match kind
    case 0 => Some(SendTo(arg))
    case 1 => Some(MapInto(arg))
    case 2 => if arg <= 255 then Some(Irq(arg)) else None
    case 3 => if arg % 0x1000 == 0 then Some(Mmio(arg)) else None
    case 4 => Some(Spawn)
    case 5 => Some(Fb)
    case 6 =>
      var base, len := arg / 0x1_0000, arg % 0x1_0000;
      if arg < 0x1_0000_0000 && len != 0 && base + len <= 0x1_0000 then Some(IoPort(base, len)) else None
    case 7 =>
      var lo, hi := arg / 0x1_0000, arg % 0x1_0000;
      if arg < 0x1_0000_0000 && lo <= hi then Some(Net(lo, hi)) else None
    case _ => None
  }

  function KindArg(c: Capability): (r: (nat, nat)) {
    match c
    case SendTo(d) => (0, d)
    case MapInto(d) => (1, d)
    case Irq(v) => (2, v)
    case Mmio(p) => (3, p)
    case Spawn => (4, 0)
    case Fb => (5, 0)
    case IoPort(b, l) => (6, b * 0x1_0000 + l)
    case Net(lo, hi) => (7, lo * 0x1_0000 + hi)
  }

  /** `pack_audit`: kind plus one in the top byte, argument below; the two do not overlap below 2^56. */
  function PackAudit(c: Capability): (r: nat) { (KindArg(c).0 + 1) * ARG_LIMIT + KindArg(c).1 }

  /** Splitting an audit word and decoding it gives the capability back; no capability packs to 0. */
  lemma AuditRoundTrip(kind: nat, arg: nat)
    requires Decode(kind, arg).Some? && arg < ARG_LIMIT
    ensures var c := Decode(kind, arg).value;
            var w := PackAudit(c);
            && w / ARG_LIMIT >= 1 && w > 0
            && Decode(w / ARG_LIMIT - 1, w % ARG_LIMIT) == Some(c)
  {
    var c := Decode(kind, arg).value;
    var (k, a) := KindArg(c);
    assert k == kind && a <= arg;
    assert PackAudit(c) / ARG_LIMIT == k + 1 && PackAudit(c) % ARG_LIMIT == a;
  }
}
