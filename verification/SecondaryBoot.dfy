/**
 Secondary cores parked on a mailbox: SecondaryMain of every core, writers of mailboxes
 and interrupts, interleaved in any order.
 */
module SecondaryBoot {
  import opened Bytes

  datatype CoreInfo = CoreInfo(clusterId: nat, coreId: nat, mailboxGet: nat)

  /** The core table, the identity of each core that runs, and the number of interrupts of the distributor. */
  datatype Platform = Platform(table: seq<CoreInfo>, ids: seq<(nat, nat)>, maxInterrupts: nat)

  predicate Matches(e: CoreInfo, id: (nat, nat)) {
    e.clusterId == id.0 && e.coreId == id.1
  }

  /** The first table entry of a core, or the length. */
  function FirstMatch(table: seq<CoreInfo>, id: (nat, nat), i: nat): (k: nat)
    requires i <= |table|
    ensures i <= k <= |table| && (k < |table| ==> Matches(table[k], id))
    ensures forall j :: i <= j < k ==> !Matches(table[j], id)
    decreases |table| - i
  {
    if i == |table| || Matches(table[i], id) then i else FirstMatch(table, id, i + 1)
  }

  /** The index loop over the core table; the result equal to the length is what ASSERT rejects. */
  method FindCore(table: seq<CoreInfo>, clusterId: nat, coreId: nat) returns (index: nat)
    ensures index == FirstMatch(table, (clusterId, coreId), 0)
    ensures index <= |table| && (index < |table| ==> table[index].clusterId == clusterId && table[index].coreId == coreId)
    ensures forall j :: 0 <= j < index ==> table[j].clusterId != clusterId || table[j].coreId != coreId
  {
    index := 0;
    while index < |table|
      invariant index <= |table|
      invariant FirstMatch(table, (clusterId, coreId), 0) == FirstMatch(table, (clusterId, coreId), index)
    {
      if table[index].clusterId == clusterId && table[index].coreId == coreId {
        break;
      }
      index := index + 1;
    }
  }

  /** The valid ones among acknowledged identifiers, in order: those below the number of interrupts. */
  function ValidOnes(ids: seq<nat>, maxInterrupts: nat): (v: seq<nat>)
  {
    if ids == [] then []
    else ValidOnes(ids[..|ids| - 1], maxInterrupts) + if ids[|ids| - 1] < maxInterrupts then [ids[|ids| - 1]] else []
  }

  /** The first nonzero read is the n-th. */
  ghost predicate JumpsAt(values: seq<nat>, n: nat, address: nat) {
    n < |values| && address == values[n] != 0 && forall i :: 0 <= i < n ==> values[i] == 0
  }

  /** How often an identifier occurs. */
  function Count(ids: seq<nat>, id: nat): (n: nat)
  {
    if ids == [] then 0 else Count(ids[..|ids| - 1], id) + if ids[|ids| - 1] == id then 1 else 0
  }

  lemma CountNext(ids: seq<nat>, x: nat, id: nat)
    ensures Count(ids + [x], id) == Count(ids, id) + if x == id then 1 else 0
  {
    assert (ids + [x])[..|ids|] == ids;
  }

  /** Nothing but valid identifiers is left, each as often as it was acknowledged. */
  lemma {:induction false} ValidOnesAre(ids: seq<nat>, maxInterrupts: nat, id: nat)
    ensures Count(ValidOnes(ids, maxInterrupts), id) == if id < maxInterrupts then Count(ids, id) else 0
  {
    if ids == [] {
    } else {
      hide Count;
      var n := |ids| - 1;
      var before := ValidOnes(ids[..n], maxInterrupts);
      ValidOnesAre(ids[..n], maxInterrupts, id);
      assert ids == ids[..n] + [ids[n]];
      CountNext(ids[..n], ids[n], id);
      CountNext(before, ids[n], id);
      assert before + [] == before;
    }
  }

  lemma ValidOnesNext(ids: seq<nat>, maxInterrupts: nat, id: nat)
    ensures ValidOnes(ids + [id], maxInterrupts) == ValidOnes(ids, maxInterrupts) + if id < maxInterrupts then [id] else []
  {
    assert (ids + [id])[..|ids|] == ids;
  }

  // ----- States and steps -----

  datatype Pc =
    | Lookup
    | ClearMailbox
    | WaitForInterrupt
    | ReadMailbox
    | Acknowledge
    | EndInterrupt(id: nat)
    | Test
    | Jumped(address: nat)
    | Failed

  /** A core, with what it read from its mailbox, what it acknowledged and what it ended, pass by pass. */
  datatype Core = Core(pc: Pc, index: nat, entry: nat, values: seq<nat>, acks: seq<nat>, ended: seq<nat>, clearedAt: nat)

  datatype Event = Wrote(address: nat, value: nat) | Cleared(address: nat)

  /** The cores, the value of each mailbox register, each core's pending interrupts, and what happened to mailboxes. */
  datatype State = State(cores: seq<Core>, mail: map<nat, nat>, pending: seq<set<nat>>, log: seq<Event>)

  datatype Action =
    | CoreStep(core: nat, choice: nat)
    | SpuriousWake(core: nat)
    | WriteMailbox(address: nat, value: nat)
    | RaiseInterrupt(core: nat, id: nat)

  function Read(mail: map<nat, nat>, address: nat): (v: nat)
  {
    if address in mail then mail[address] else 0
  }

  function Init(p: Platform, mail: map<nat, nat>): (s: State)
  {
    State(Repeat(Core(Lookup, 0, 0, [], [], [], 0), |p.ids|), mail, Repeat({}, |p.ids|), [])
  }

  ghost predicate Sized(s: State, p: Platform) {
    |s.cores| == |s.pending| == |p.ids|
  }

  function WithCore(s: State, c: nat, k: Core): (s': State)
    requires c < |s.cores|
  {
    s.(cores := s.cores[c := k])
  }

  predicate Looked(pc: Pc) {
    !pc.Lookup? && !pc.Failed?
  }

  /** The identifier that the acknowledge register returns when nothing is pending. */
  const SPURIOUS := 1023

  /** What the acknowledge register returns while something is pending: `choice`, or else any pending interrupt. */
  ghost function Acknowledged(pending: set<nat>, choice: nat): (id: nat)
    requires pending != {}
    ensures id in pending && (choice in pending ==> id == choice)
  {
    if choice in pending then choice else var id :| id in pending; id
  }

  /**
   One step of SecondaryMain on core `c`. The acknowledge register returns a pending
   interrupt, steered by `choice`, and the spurious identifier when nothing is pending.
   */
  ghost function StepCore(s: State, p: Platform, c: nat, choice: nat): (s': State)
    requires c < |s.cores| == |s.pending| == |p.ids|
  {
    var k := s.cores[c];
    if Looked(k.pc) && k.index >= |p.table| then s else
    match k.pc
    case Lookup =>
      var i := FirstMatch(p.table, p.ids[c], 0);
      WithCore(s, c, if i == |p.table| then k.(pc := Failed) else k.(pc := ClearMailbox, index := i))
    case ClearMailbox =>
      var a := p.table[k.index].mailboxGet;
      WithCore(s, c, k.(pc := WaitForInterrupt, clearedAt := |s.log| + 1))
        .(mail := s.mail[a := 0], log := s.log + [Cleared(a)])
    case WaitForInterrupt => if s.pending[c] == {} then s else WithCore(s, c, k.(pc := ReadMailbox))
    case ReadMailbox =>
      var value := Read(s.mail, p.table[k.index].mailboxGet);
      WithCore(s, c, k.(pc := Acknowledge, entry := value, values := k.values + [value]))
    case Acknowledge =>
      var id := if s.pending[c] == {} then SPURIOUS else Acknowledged(s.pending[c], choice);
      WithCore(s, c, k.(pc := if id < p.maxInterrupts then EndInterrupt(id) else Test, acks := k.acks + [id]))
        .(pending := s.pending[c := s.pending[c] - {id}])
    case EndInterrupt(id) => WithCore(s, c, k.(pc := Test, ended := k.ended + [id]))
    case Test => WithCore(s, c, k.(pc := if k.entry == 0 then WaitForInterrupt else Jumped(k.entry)))
    case _ => s
  }

  ghost function Next(s: State, p: Platform, a: Action): (s': State)
    requires Sized(s, p)
    ensures Sized(s', p)
  {
    match a
    case CoreStep(c, choice) => if c < |s.cores| then StepCore(s, p, c, choice) else s
    case SpuriousWake(c) =>
      if c < |s.cores| && s.cores[c].pc == WaitForInterrupt then WithCore(s, c, s.cores[c].(pc := ReadMailbox)) else s
    case WriteMailbox(address, value) =>
      s.(mail := s.mail[address := value], log := s.log + [Wrote(address, value)])
    case RaiseInterrupt(c, id) =>
      if c < |s.pending| then s.(pending := s.pending[c := s.pending[c] + {id}]) else s
  }

  ghost function Execute(p: Platform, mail: map<nat, nat>, actions: seq<Action>): (s: State)
    ensures Sized(s, p)
  {
    if actions == [] then Init(p, mail)
    else Next(Execute(p, mail, actions[..|actions| - 1]), p, actions[|actions| - 1])
  }

  // ----- Safety -----

  predicate PastClear(pc: Pc) {
    Looked(pc) && !pc.ClearMailbox?
  }

  /** `value` was written to `address` at or after position `from` of the log. */
  ghost predicate WrittenSince(log: seq<Event>, address: nat, value: nat, from: nat) {
    exists i :: from <= i < |log| && log[i] == Wrote(address, value)
  }

  /**
   The passes of a core so far, against what it read and acknowledged: it has read only
   zeros before the pass it is in, and it has ended exactly the valid interrupts it
   acknowledged, up to the one it is about to end.
   */
  ghost predicate PassInv(k: Core, maxInterrupts: nat) {
    var n := |k.acks|;
    && (forall i :: 0 <= i < |k.values| - 1 ==> k.values[i] == 0)
    && match k.pc {
         case WaitForInterrupt => |k.values| == n && (n > 0 ==> k.values[n - 1] == 0) && k.ended == ValidOnes(k.acks, maxInterrupts)
         case ReadMailbox => |k.values| == n && (n > 0 ==> k.values[n - 1] == 0) && k.ended == ValidOnes(k.acks, maxInterrupts)
         case Acknowledge => |k.values| == n + 1 && k.values[n] == k.entry && k.ended == ValidOnes(k.acks, maxInterrupts)
         case EndInterrupt(id) =>
           && |k.values| == n > 0 && k.values[n - 1] == k.entry && k.acks[n - 1] == id < maxInterrupts
           && k.ended == ValidOnes(k.acks[..n - 1], maxInterrupts)
         case Test => |k.values| == n > 0 && k.values[n - 1] == k.entry && k.ended == ValidOnes(k.acks, maxInterrupts)
         case Jumped(_) => |k.values| == n > 0 && k.values[n - 1] == k.entry && k.ended == ValidOnes(k.acks, maxInterrupts)
         case _ => k.values == k.acks == k.ended == []
       }
  }

  lemma PassStepInv(s: State, p: Platform, c: nat, choice: nat)
    requires Sized(s, p) && c < |s.cores| && PassInv(s.cores[c], p.maxInterrupts)
    ensures PassInv(StepCore(s, p, c, choice).cores[c], p.maxInterrupts)
  {
    hide ValidOnes;
    var k, k' := s.cores[c], StepCore(s, p, c, choice).cores[c];
    ValidOnesNothing(p.maxInterrupts);
    if k.pc.Acknowledge? && k'.acks != k.acks {
      var id := k'.acks[|k.acks|];
      ValidOnesNext(k.acks, p.maxInterrupts, id);
      assert k'.acks[..|k.acks|] == k.acks;
    } else if k.pc.EndInterrupt? {
      ValidOnesNext(k.acks[..|k.acks| - 1], p.maxInterrupts, k.pc.id);
      assert k.acks == k.acks[..|k.acks| - 1] + [k.pc.id];
    }
  }

  lemma ValidOnesNothing(maxInterrupts: nat)
    ensures ValidOnes([], maxInterrupts) == []
  {
  }

  /**
   ArmGicGetMaxNumInterrupts counts 32 for each of the distributor's 1 to 32 lines. A
   spurious acknowledge is taken for a valid interrupt, and ended, exactly if there are 32.
   */
  lemma SpuriousEndedIff(s: State, p: Platform, c: nat, choice: nat, lines: nat)
    requires Sized(s, p) && c < |s.cores| && s.cores[c].pc == Acknowledge && s.cores[c].index < |p.table|
    requires s.pending[c] == {} && lines < 32 && p.maxInterrupts == 32 * (lines + 1)
    ensures StepCore(s, p, c, choice).cores[c].pc.EndInterrupt? <==> lines == 31
  {
  }

  /** The only step that takes an interrupt records it, and what it took: a pending one, or the spurious one if there is none. */
  lemma StepAcknowledges(s: State, p: Platform, c: nat, choice: nat)
    requires Sized(s, p) && c < |s.cores|
    ensures var s' := StepCore(s, p, c, choice);
            var k, k' := s.cores[c], s'.cores[c];
            if k.pc == Acknowledge && k.index < |p.table| then
              && |k'.acks| == |k.acks| + 1 && k'.acks[..|k.acks|] == k.acks
              && var id := k'.acks[|k.acks|];
              && (if s.pending[c] == {} then id == SPURIOUS else id in s.pending[c])
              && s'.pending[c] == s.pending[c] - {id}
            else k'.acks == k.acks && s'.pending[c] == s.pending[c]
  {
  }

  ghost predicate CoreInv(s: State, p: Platform, c: nat)
    requires Sized(s, p) && c < |s.cores|
  {
    var k := s.cores[c];
    && (Looked(k.pc) ==> k.index < |p.table| && Matches(p.table[k.index], p.ids[c]))
    && PassInv(k, p.maxInterrupts)
    && (PastClear(k.pc) ==>
          var a := p.table[k.index].mailboxGet;
          && 0 < k.clearedAt <= |s.log| && s.log[k.clearedAt - 1] == Cleared(a)
          && (Read(s.mail, a) != 0 ==> WrittenSince(s.log, a, Read(s.mail, a), k.clearedAt))
          && (k.entry != 0 ==> WrittenSince(s.log, a, k.entry, k.clearedAt)))
    && (!PastClear(k.pc) ==> k.entry == 0)
    && (k.pc.Jumped? ==> k.pc.address == k.entry != 0)
  }

  ghost predicate Inv(s: State, p: Platform) {
    Sized(s, p) && forall c :: 0 <= c < |s.cores| ==> CoreInv(s, p, c)
  }

  /** A longer log still shows what a shorter one showed. */
  lemma WrittenStays(log: seq<Event>, more: seq<Event>, address: nat, value: nat, from: nat)
    requires WrittenSince(log, address, value, from)
    ensures WrittenSince(log + more, address, value, from)
  {
    var i :| from <= i < |log| && log[i] == Wrote(address, value);
    assert (log + more)[i] == Wrote(address, value);
  }

  /** What happens to mailboxes and the log, seen by a core that does not move. */
  lemma OthersKeepInv(s: State, p: Platform, s': State, c: nat, e: Event)
    requires Sized(s, p) && Sized(s', p) && c < |s.cores| && CoreInv(s, p, c) && s'.cores[c] == s.cores[c]
    requires s'.log == s.log + [e]
    requires s'.mail == match e { case Wrote(a, v) => s.mail[a := v] case Cleared(a) => s.mail[a := 0] }
    ensures CoreInv(s', p, c)
  {
    var k := s.cores[c];
    if PastClear(k.pc) {
      var a := p.table[k.index].mailboxGet;
      if k.entry != 0 {
        WrittenStays(s.log, [e], a, k.entry, k.clearedAt);
      }
      if e == Wrote(a, Read(s'.mail, a)) {
        assert s'.log[|s.log|] == e;
      } else if Read(s.mail, a) != 0 {
        WrittenStays(s.log, [e], a, Read(s.mail, a), k.clearedAt);
      }
    }
  }

  lemma OwnStepInv(s: State, p: Platform, c: nat, choice: nat)
    requires Sized(s, p) && c < |s.cores| && CoreInv(s, p, c)
    ensures CoreInv(StepCore(s, p, c, choice), p, c)
  {
    hide PassInv;
    PassStepInv(s, p, c, choice);
  }

  lemma CoreStepInv(s: State, p: Platform, c: nat, choice: nat)
    requires Inv(s, p) && c < |s.cores|
    ensures Inv(StepCore(s, p, c, choice), p)
  {
    hide StepCore;
    var s' := StepCore(s, p, c, choice);
    var k := s.cores[c];
    OwnStepInv(s, p, c, choice);
    StepFrame(s, p, c, choice);
    forall d | 0 <= d < |s.cores| && d != c
      ensures CoreInv(s', p, d)
    {
      assert CoreInv(s, p, d);
      if k.pc.ClearMailbox? && k.index < |p.table| {
        OthersKeepInv(s, p, s', d, Cleared(p.table[k.index].mailboxGet));
      }
    }
  }

  /** A core's step leaves the other cores and their interrupts alone, and mailboxes too unless it clears its own. */
  lemma StepFrame(s: State, p: Platform, c: nat, choice: nat)
    requires Sized(s, p) && c < |s.cores|
    ensures var s' := StepCore(s, p, c, choice);
            var k := s.cores[c];
            && Sized(s', p)
            && (forall d :: 0 <= d < |s.cores| && d != c ==> s'.cores[d] == s.cores[d] && s'.pending[d] == s.pending[d])
            && if k.pc.ClearMailbox? && k.index < |p.table|
               then var a := p.table[k.index].mailboxGet; s'.mail == s.mail[a := 0] && s'.log == s.log + [Cleared(a)]
               else s'.mail == s.mail && s'.log == s.log
  {
  }

  lemma NextInv(s: State, p: Platform, a: Action)
    requires Inv(s, p)
    ensures Inv(Next(s, p, a), p)
  {
    var s' := Next(s, p, a);
    match a {
      case CoreStep(c, choice) =>
        if c < |s.cores| { CoreStepInv(s, p, c, choice); }
      case WriteMailbox(address, value) =>
        forall d | 0 <= d < |s.cores|
          ensures CoreInv(s', p, d)
        {
          OthersKeepInv(s, p, s', d, Wrote(address, value));
        }
      case _ =>
        forall d | 0 <= d < |s.cores|
          ensures CoreInv(s', p, d)
        {
          assert CoreInv(s, p, d);
        }
    }
  }

  lemma {:induction false} Reachable(p: Platform, mail: map<nat, nat>, actions: seq<Action>)
    ensures Inv(Execute(p, mail, actions), p)
  {
    hide Next;
    if actions != [] {
      Reachable(p, mail, actions[..|actions| - 1]);
      NextInv(Execute(p, mail, actions[..|actions| - 1]), p, actions[|actions| - 1]);
    }
  }

  /**
   Boot safety in every interleaving: a core that left its loop found its own table entry,
   jumps to a nonzero address that was written to its mailbox after its own clear, which
   is the first nonzero value it read, and has ended exactly the valid interrupts among
   those it acknowledged, one acknowledged for each read.
   */
  lemma BootSafety(p: Platform, mail: map<nat, nat>, actions: seq<Action>, c: nat)
    requires c < |p.ids| && Execute(p, mail, actions).cores[c].pc.Jumped?
    ensures var s := Execute(p, mail, actions);
            var k := s.cores[c];
            && k.index < |p.table| && p.table[k.index].clusterId == p.ids[c].0 && p.table[k.index].coreId == p.ids[c].1
            && k.pc.address != 0 && k.values != [] && JumpsAt(k.values, |k.values| - 1, k.pc.address)
            && |k.acks| == |k.values| && k.ended == ValidOnes(k.acks, p.maxInterrupts)
            && 0 < k.clearedAt <= |s.log| && s.log[k.clearedAt - 1] == Cleared(p.table[k.index].mailboxGet)
            && WrittenSince(s.log, p.table[k.index].mailboxGet, k.pc.address, k.clearedAt)
  {
    Reachable(p, mail, actions);
    assert CoreInv(Execute(p, mail, actions), p, c);
  }

  /** Different cores never share a table entry, so with distinct mailboxes none jumps on another's mail. */
  lemma OwnMailbox(p: Platform, mail: map<nat, nat>, actions: seq<Action>, c: nat, d: nat)
    requires c < |p.ids| && d < |p.ids| && p.ids[c] != p.ids[d]
    requires forall i, j :: 0 <= i < j < |p.table| ==> p.table[i].mailboxGet != p.table[j].mailboxGet
    requires var s := Execute(p, mail, actions); Looked(s.cores[c].pc) && Looked(s.cores[d].pc)
    ensures var s := Execute(p, mail, actions);
            && s.cores[c].index < |p.table| && s.cores[d].index < |p.table|
            && p.table[s.cores[c].index].mailboxGet != p.table[s.cores[d].index].mailboxGet
  {
    var s := Execute(p, mail, actions);
    Reachable(p, mail, actions);
    assert CoreInv(s, p, c) && CoreInv(s, p, d);
  }

  // ----- The loop in the source's own form -----

  /**
   The do-while of SecondaryMain against what the environment returns: `values` are the
   mailbox values and `acks` the acknowledged identifiers, pass by pass. It jumps at the
   first nonzero read, having ended exactly the valid identifiers of all passes so far;
   None if every read is zero.
   */
  method ParkOnMailbox(values: seq<nat>, acks: seq<nat>, maxInterrupts: nat) returns (jump: Option<nat>, ended: seq<nat>)
    requires |values| == |acks|
    ensures jump == None ==> (forall i :: 0 <= i < |values| ==> values[i] == 0) && ended == ValidOnes(acks, maxInterrupts)
    ensures jump.Some? ==> exists n: nat :: JumpsAt(values, n, jump.value) && ended == ValidOnes(acks[..n + 1], maxInterrupts)
  {
    ended := [];
    var pass := 0;
    var secondaryEntryAddr := 0;
    while pass < |values|
      invariant 0 <= pass <= |values|
      invariant forall i :: 0 <= i < pass ==> values[i] == 0
      invariant ended == ValidOnes(acks[..pass], maxInterrupts)
    {
      secondaryEntryAddr := values[pass];
      var interruptId := acks[pass];
      if interruptId < maxInterrupts {
        ended := ended + [interruptId];
      }
      assert acks[..pass + 1][..pass] == acks[..pass];
      if secondaryEntryAddr != 0 {
        assert JumpsAt(values, pass, secondaryEntryAddr);
        return Some(secondaryEntryAddr), ended;
      }
      pass := pass + 1;
    }
    assert acks[..pass] == acks;
    return None, ended;
  }

  // ----- Waking up -----

  /** The core is in its loop on table entry `index`. */
  ghost predicate InLoop(s: State, p: Platform, c: nat) {
    && Sized(s, p) && c < |s.cores| && s.cores[c].index < |p.table|
    && var pc := s.cores[c].pc;
    pc.WaitForInterrupt? || pc.ReadMailbox? || pc.Acknowledge? || pc.EndInterrupt? || pc.Test?
  }

  /** The core's mailbox holds `value`. */
  ghost predicate Mailed(s: State, p: Platform, c: nat, value: nat) {
    && Sized(s, p) && c < |s.cores| && s.cores[c].index < |p.table|
    && Read(s.mail, p.table[s.cores[c].index].mailboxGet) == value
  }

  /** The pass the core is in has read a nonzero address. */
  predicate Taken(k: Core) {
    (k.pc.Acknowledge? || k.pc.EndInterrupt? || k.pc.Test?) && k.entry != 0
  }

  /** The cores have different identities and the table entries different mailboxes. */
  ghost predicate Separate(p: Platform) {
    && (forall c, d :: 0 <= c < d < |p.ids| ==> p.ids[c] != p.ids[d])
    && (forall i, j :: 0 <= i < j < |p.table| ==> p.table[i].mailboxGet != p.table[j].mailboxGet)
  }

  /** An action that neither writes the mailbox at `address` nor wakes core `c`; any core may step. */
  predicate Elsewhere(a: Action, c: nat, address: nat) {
    match a
    case CoreStep(_, _) => true
    case SpuriousWake(d) => d != c
    case WriteMailbox(b, _) => b != address
    case RaiseInterrupt(d, _) => d != c
  }

  predicate IsOwn(a: Action, c: nat) {
    a.CoreStep? && a.core == c
  }

  function OwnSteps(actions: seq<Action>, c: nat): (n: nat)
  {
    if actions == [] then 0
    else OwnSteps(actions[..|actions| - 1], c) + if IsOwn(actions[|actions| - 1], c) then 1 else 0
  }

  /** The core will jump to `value` by its own steps. */
  ghost predicate Coming(s: State, p: Platform, c: nat, value: nat) {
    && Sized(s, p) && c < |s.cores| && s.cores[c].index < |p.table| && value != 0
    && var k := s.cores[c];
    match k.pc
    case Jumped(address) => address == value
    case ReadMailbox => Mailed(s, p, c, value)
    case WaitForInterrupt => Mailed(s, p, c, value) && s.pending[c] != {}
    case Acknowledge => k.entry == value || (k.entry == 0 && Mailed(s, p, c, value) && |s.pending[c]| >= 2)
    case EndInterrupt(_) => k.entry == value || (k.entry == 0 && Mailed(s, p, c, value) && s.pending[c] != {})
    case Test => k.entry == value || (k.entry == 0 && Mailed(s, p, c, value) && s.pending[c] != {})
    case _ => false
  }

  /** At most how many of its steps a core that is coming still needs. */
  function Far(k: Core): (n: nat)
    ensures n <= 8
  {
    match k.pc
    case Test => if k.entry != 0 then 1 else 6
    case EndInterrupt(_) => if k.entry != 0 then 2 else 7
    case Acknowledge => if k.entry != 0 then 3 else 8
    case ReadMailbox => 4
    case WaitForInterrupt => 5
    case _ => 0
  }

  /** Acknowledging takes one of the pending interrupts away. */
  lemma AcknowledgeOne(pending: set<nat>, choice: nat)
    requires pending != {}
    ensures pending - {Acknowledged(pending, choice)} == {} <==> |pending| <= 1
  {
    var id := Acknowledged(pending, choice);
    var rest := pending - {id};
    assert pending == rest + {id} && |pending| == |rest| + 1;
  }

  lemma OwnStepComes(s: State, p: Platform, c: nat, choice: nat, value: nat)
    requires Coming(s, p, c, value)
    ensures var s' := StepCore(s, p, c, choice);
            && Coming(s', p, c, value) && s'.cores[c].index == s.cores[c].index
            && (Far(s'.cores[c]) == 0 || Far(s'.cores[c]) < Far(s.cores[c]))
  {
    if s.pending[c] != {} {
      AcknowledgeOne(s.pending[c], choice);
    }
  }

  /** The core will fall asleep, or sleeps, with its mailbox set and no interrupt to wake it. */
  ghost predicate Missed(s: State, p: Platform, c: nat, value: nat) {
    && Mailed(s, p, c, value)
    && var k := s.cores[c];
    match k.pc
    case Acknowledge => k.entry == 0 && |s.pending[c]| <= 1
    case EndInterrupt(_) => k.entry == 0 && s.pending[c] == {}
    case Test => k.entry == 0 && s.pending[c] == {}
    case WaitForInterrupt => s.pending[c] == {}
    case _ => false
  }

  /** At most how many of its steps a core that missed its call takes to fall asleep. */
  function Drowsy(k: Core): (n: nat)
    ensures n <= 3
  {
    match k.pc
    case Test => 1
    case EndInterrupt(_) => 2
    case Acknowledge => 3
    case _ => 0
  }

  lemma OwnStepMisses(s: State, p: Platform, c: nat, choice: nat, value: nat)
    requires Missed(s, p, c, value)
    ensures var s' := StepCore(s, p, c, choice);
            && Missed(s', p, c, value) && s'.cores[c].index == s.cores[c].index
            && (Drowsy(s'.cores[c]) == 0 || Drowsy(s'.cores[c]) < Drowsy(s.cores[c]))
  {
    if s.pending[c] != {} {
      AcknowledgeOne(s.pending[c], choice);
    }
  }

  /** What another core or a writer elsewhere does is not seen by core `c`. */
  lemma OthersUnseen(s: State, p: Platform, c: nat, a: Action)
    requires Inv(s, p) && Separate(p) && c < |s.cores| && Looked(s.cores[c].pc) && !IsOwn(a, c)
    requires s.cores[c].index < |p.table| && Elsewhere(a, c, p.table[s.cores[c].index].mailboxGet)
    ensures var s' := Next(s, p, a);
            && s'.cores[c] == s.cores[c] && s'.pending[c] == s.pending[c]
            && var address := p.table[s.cores[c].index].mailboxGet; Read(s'.mail, address) == Read(s.mail, address)
  {
    hide StepCore;
    assert CoreInv(s, p, c);
    if a.CoreStep? && a.core < |s.cores| {
      StepFrame(s, p, a.core, a.choice);
      assert CoreInv(s, p, a.core);
    }
  }

  /** One action, the core's own or not, on the way to the jump. */
  lemma ActionComes(s: State, p: Platform, c: nat, a: Action, value: nat)
    requires Inv(s, p) && Separate(p) && Coming(s, p, c, value)
    requires Elsewhere(a, c, p.table[s.cores[c].index].mailboxGet)
    ensures var s' := Next(s, p, a);
            && Coming(s', p, c, value) && s'.cores[c].index == s.cores[c].index
            && (Far(s'.cores[c]) == 0 || Far(s'.cores[c]) + (if IsOwn(a, c) then 1 else 0) <= Far(s.cores[c]))
  {
    hide StepCore;
    if IsOwn(a, c) {
      OwnStepComes(s, p, c, a.choice, value);
    } else {
      OthersUnseen(s, p, c, a);
    }
  }

  lemma ActionMisses(s: State, p: Platform, c: nat, a: Action, value: nat)
    requires Inv(s, p) && Separate(p) && Missed(s, p, c, value)
    requires Elsewhere(a, c, p.table[s.cores[c].index].mailboxGet)
    ensures var s' := Next(s, p, a);
            && Missed(s', p, c, value) && s'.cores[c].index == s.cores[c].index
            && (Drowsy(s'.cores[c]) == 0 || Drowsy(s'.cores[c]) + (if IsOwn(a, c) then 1 else 0) <= Drowsy(s.cores[c]))
  {
    hide StepCore;
    if IsOwn(a, c) {
      OwnStepMisses(s, p, c, a.choice, value);
    } else {
      OthersUnseen(s, p, c, a);
    }
  }

  /** Everything after the first `n` actions happens elsewhere or is a core's step. */
  ghost predicate QuietSince(p: Platform, mail: map<nat, nat>, actions: seq<Action>, n: nat, c: nat) {
    && n <= |actions| && c < |p.ids|
    && var k := Execute(p, mail, actions[..n]).cores[c];
    && k.index < |p.table|
    && forall i :: n <= i < |actions| ==> Elsewhere(actions[i], c, p.table[k.index].mailboxGet)
  }

  lemma QuietBefore(p: Platform, mail: map<nat, nat>, actions: seq<Action>, n: nat, c: nat)
    requires QuietSince(p, mail, actions, n, c) && n < |actions|
    ensures QuietSince(p, mail, actions[..|actions| - 1], n, c)
    ensures actions[n..][..|actions| - 1 - n] == actions[..|actions| - 1][n..]
  {
    hide Execute;
    assert actions[..|actions| - 1][..n] == actions[..n];
  }

  lemma {:induction false} RunComes(p: Platform, mail: map<nat, nat>, actions: seq<Action>, n: nat, c: nat, value: nat)
    requires Separate(p) && QuietSince(p, mail, actions, n, c)
    requires Coming(Execute(p, mail, actions[..n]), p, c, value)
    ensures var s, s' := Execute(p, mail, actions[..n]), Execute(p, mail, actions);
            && Coming(s', p, c, value) && s'.cores[c].index == s.cores[c].index
            && (Far(s'.cores[c]) == 0 || Far(s'.cores[c]) + OwnSteps(actions[n..], c) <= Far(s.cores[c]))
    decreases |actions|
  {
    hide Next, Coming, Far;
    if n == |actions| {
      assert actions[..n] == actions;
    } else {
      var init := actions[..|actions| - 1];
      QuietBefore(p, mail, actions, n, c);
      assert init[..n] == actions[..n];
      RunComes(p, mail, init, n, c, value);
      Reachable(p, mail, init);
      ActionComes(Execute(p, mail, init), p, c, actions[|actions| - 1], value);
    }
  }

  lemma {:induction false} RunMisses(p: Platform, mail: map<nat, nat>, actions: seq<Action>, n: nat, c: nat, value: nat)
    requires Separate(p) && QuietSince(p, mail, actions, n, c)
    requires Missed(Execute(p, mail, actions[..n]), p, c, value)
    ensures var s, s' := Execute(p, mail, actions[..n]), Execute(p, mail, actions);
            && Missed(s', p, c, value) && s'.cores[c].index == s.cores[c].index
            && (Drowsy(s'.cores[c]) == 0 || Drowsy(s'.cores[c]) + OwnSteps(actions[n..], c) <= Drowsy(s.cores[c]))
    decreases |actions|
  {
    hide Next, Missed, Drowsy;
    if n == |actions| {
      assert actions[..n] == actions;
    } else {
      var init := actions[..|actions| - 1];
      QuietBefore(p, mail, actions, n, c);
      assert init[..n] == actions[..n];
      RunMisses(p, mail, init, n, c, value);
      Reachable(p, mail, init);
      assert Missed(Execute(p, mail, init), p, c, value);
      ActionMisses(Execute(p, mail, init), p, c, actions[|actions| - 1], value);
    }
  }

  /** The core's call: with its mailbox set to `value`, interrupt `id` is sent to it as action `n` of the run. */
  ghost predicate Calls(p: Platform, mail: map<nat, nat>, actions: seq<Action>, n: nat, c: nat, value: nat, id: nat) {
    && n < |actions| && actions[n] == RaiseInterrupt(c, id)
    && InLoop(Execute(p, mail, actions[..n]), p, c) && Mailed(Execute(p, mail, actions[..n]), p, c, value)
    && value != 0
    && QuietSince(p, mail, actions, n + 1, c)
  }

  /**
   The call is spent on a pass that had already read zero: the core is about to
   acknowledge, and nothing but this interrupt is pending.
   */
  ghost predicate InWindow(s: State, c: nat, id: nat)
    requires c < |s.cores| == |s.pending|
  {
    s.cores[c].pc == Acknowledge && s.cores[c].entry == 0 && s.pending[c] <= {id}
  }

  /** A core asleep with mail and no interrupt. */
  ghost predicate Overslept(s: State, p: Platform, c: nat, value: nat) {
    Mailed(s, p, c, value) && s.cores[c].pc == WaitForInterrupt && s.pending[c] == {}
  }

  lemma CallStep(p: Platform, mail: map<nat, nat>, actions: seq<Action>, n: nat, c: nat, value: nat, id: nat)
    requires Calls(p, mail, actions, n, c, value, id)
    ensures Execute(p, mail, actions[..n + 1]) == Next(Execute(p, mail, actions[..n]), p, RaiseInterrupt(c, id))
  {
    hide Next;
    assert actions[..n + 1][..n] == actions[..n];
  }

  /** What the interrupt makes of a state in the loop. */
  lemma CallDecides(s: State, p: Platform, c: nat, value: nat, id: nat)
    requires InLoop(s, p, c) && Mailed(s, p, c, value) && value != 0
    ensures var s' := Next(s, p, RaiseInterrupt(c, id));
            && (Taken(s.cores[c]) ==> Coming(s', p, c, s.cores[c].entry))
            && (!Taken(s.cores[c]) && !InWindow(s, c, id) ==> Coming(s', p, c, value))
            && (InWindow(s, c, id) ==> Missed(s', p, c, value))
  {
    var pending := s.pending[c] + {id};
    if InWindow(s, c, id) {
      assert pending == {id};
    } else if s.cores[c].pc == Acknowledge && s.cores[c].entry == 0 {
      var other :| other in s.pending[c] && other != id;
      assert {id, other} <= pending;
      SubsetSize({id, other}, pending);
    }
  }

  lemma SubsetSize(a: set<nat>, b: set<nat>)
    requires a <= b
    ensures |a| <= |b|
  {
    assert b == a + (b - a);
  }

  /** In the window the call is lost: the core goes to sleep with its mailbox set, and stays asleep. */
  lemma WindowOversleeps(p: Platform, mail: map<nat, nat>, actions: seq<Action>, n: nat, c: nat, value: nat, id: nat)
    requires Separate(p) && Calls(p, mail, actions, n, c, value, id)
    requires InWindow(Execute(p, mail, actions[..n]), c, id) && OwnSteps(actions[n + 1..], c) >= 3
    ensures Overslept(Execute(p, mail, actions), p, c, value)
  {
    hide Execute, Next, OwnSteps;
    CallStep(p, mail, actions, n, c, value, id);
    CallDecides(Execute(p, mail, actions[..n]), p, c, value, id);
    RunMisses(p, mail, actions, n + 1, c, value);
  }

  /**
   When a wake-up call works, in every interleaving. A core in its loop whose mailbox has
   been set is sent an interrupt; after that other cores step, other mailboxes are written
   and other interrupts raised in any order. Once the core has taken 8 steps of its own it
   has jumped to the address if and only if, when the interrupt came, it was not between
   reading zero and acknowledging with nothing else pending. (A core whose pass had already
   read an address jumps to that one.)
   */
  lemma WakeUpWorksIff(p: Platform, mail: map<nat, nat>, actions: seq<Action>, n: nat, c: nat, value: nat, id: nat)
    requires Separate(p) && Calls(p, mail, actions, n, c, value, id) && OwnSteps(actions[n + 1..], c) >= 8
    ensures var s := Execute(p, mail, actions[..n]);
            var pc := Execute(p, mail, actions).cores[c].pc;
            if Taken(s.cores[c]) then pc == Jumped(s.cores[c].entry)
            else pc == Jumped(value) <==> !InWindow(s, c, id)
  {
    hide Execute, Next, OwnSteps;
    var s := Execute(p, mail, actions[..n]);
    CallStep(p, mail, actions, n, c, value, id);
    CallDecides(s, p, c, value, id);
    if Taken(s.cores[c]) {
      RunComes(p, mail, actions, n + 1, c, s.cores[c].entry);
    } else if InWindow(s, c, id) {
      RunMisses(p, mail, actions, n + 1, c, value);
    } else {
      RunComes(p, mail, actions, n + 1, c, value);
    }
  }

  /**
   The window is met in an ordinary pass: the core is woken by an earlier interrupt `id`,
   reads zero, and then the mailbox is written. The same interrupt sent now is lost.
   */
  lemma WindowIsReachable(p: Platform, mail: map<nat, nat>, c: nat, value: nat, id: nat)
    requires c < |p.ids| && FirstMatch(p.table, p.ids[c], 0) < |p.table| && value != 0
    ensures var step := CoreStep(c, id);
            var address := p.table[FirstMatch(p.table, p.ids[c], 0)].mailboxGet;
            var s := Execute(p, mail, [step, step, RaiseInterrupt(c, id), step, step, WriteMailbox(address, value)]);
            InLoop(s, p, c) && Mailed(s, p, c, value) && InWindow(s, c, id)
  {
    hide Execute, Next, Init;
    var step := CoreStep(c, id);
    var address := p.table[FirstMatch(p.table, p.ids[c], 0)].mailboxGet;
    ExecuteNothing(p, mail);
    Parks(p, mail, c, id);
    WakesIntoWindow(Next(Next(Init(p, mail), p, step), p, step), p, c, value, id);
    ExecuteSnoc(p, mail, [], step);
    ExecuteSnoc(p, mail, [step], step);
    ExecuteSnoc(p, mail, [step, step], RaiseInterrupt(c, id));
    ExecuteSnoc(p, mail, [step, step, RaiseInterrupt(c, id)], step);
    ExecuteSnoc(p, mail, [step, step, RaiseInterrupt(c, id), step], step);
    ExecuteSnoc(p, mail, [step, step, RaiseInterrupt(c, id), step, step], WriteMailbox(address, value));
    assert [] + [step] == [step] && [step] + [step] == [step, step];
    assert [step, step] + [RaiseInterrupt(c, id)] == [step, step, RaiseInterrupt(c, id)];
    assert [step, step, RaiseInterrupt(c, id)] + [step] == [step, step, RaiseInterrupt(c, id), step];
    assert [step, step, RaiseInterrupt(c, id), step] + [step] == [step, step, RaiseInterrupt(c, id), step, step];
    assert [step, step, RaiseInterrupt(c, id), step, step] + [WriteMailbox(address, value)]
        == [step, step, RaiseInterrupt(c, id), step, step, WriteMailbox(address, value)];
  }

  /** From the start, two steps park the core with its mailbox clear. */
  lemma Parks(p: Platform, mail: map<nat, nat>, c: nat, choice: nat)
    requires c < |p.ids| && FirstMatch(p.table, p.ids[c], 0) < |p.table|
    ensures var s := Next(Next(Init(p, mail), p, CoreStep(c, choice)), p, CoreStep(c, choice));
            && Mailed(s, p, c, 0) && s.cores[c].pc == WaitForInterrupt && s.pending[c] == {}
            && s.cores[c].index == FirstMatch(p.table, p.ids[c], 0)
  {
  }

  lemma WakesIntoWindow(s: State, p: Platform, c: nat, value: nat, id: nat)
    requires Mailed(s, p, c, 0) && s.cores[c].pc == WaitForInterrupt && s.pending[c] == {}
    ensures var step := CoreStep(c, id);
            var s1 := Next(Next(Next(s, p, RaiseInterrupt(c, id)), p, step), p, step);
            var s2 := Next(s1, p, WriteMailbox(p.table[s.cores[c].index].mailboxGet, value));
            InLoop(s2, p, c) && Mailed(s2, p, c, value) && InWindow(s2, c, id)
  {
  }

  lemma ExecuteNothing(p: Platform, mail: map<nat, nat>)
    ensures Execute(p, mail, []) == Init(p, mail)
  {
  }

  lemma ExecuteSnoc(p: Platform, mail: map<nat, nat>, actions: seq<Action>, a: Action)
    ensures Execute(p, mail, actions + [a]) == Next(Execute(p, mail, actions), p, a)
  {
    assert (actions + [a])[..|actions|] == actions;
  }
}
