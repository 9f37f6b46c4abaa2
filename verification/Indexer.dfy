/** The device indexer: a scanning thread and API callers that share a device list and a callback
    table under one mutex. Scanning and calling back happen outside the mutex. */
module DeviceIndexer {

  datatype Device = Device(serial: string, name: string)

  /** A registration; an empty serial listens to every device. The id tells registrations apart. */
  datatype Callback = Callback(id: nat, fn: nat, data: nat, serial: string)

  datatype Call = Call(round: nat, cb: Callback, dev: Device)

  // ----- what one scan does

  predicate HasSerial(devs: seq<Device>, serial: string) {
    exists i :: 0 <= i < |devs| && devs[i].serial == serial
  }

  /** Devices of the old list that the new list does not mention. */
  function Lost(old': seq<Device>, new': seq<Device>): seq<Device> {
    if old' == [] then []
    else
      var d := old'[|old'| - 1];
      Lost(old'[..|old'| - 1], new') + (if HasSerial(new', d.serial) then [] else [d])
  }

  predicate Listens(cb: Callback, d: Device) {
    cb.serial == "" || cb.serial == d.serial
  }

  function CallsAbout(round: nat, d: Device, cbs: seq<Callback>): seq<Call> {
    if cbs == [] then []
    else CallsAbout(round, d, cbs[..|cbs| - 1])
         + (if Listens(cbs[|cbs| - 1], d) then [Call(round, cbs[|cbs| - 1], d)] else [])
  }

  /** The calls a scan makes: per lost device, per listening registration. */
  function CallsFor(round: nat, lost: seq<Device>, cbs: seq<Callback>): seq<Call> {
    if lost == [] then []
    else CallsFor(round, lost[..|lost| - 1], cbs) + CallsAbout(round, lost[|lost| - 1], cbs)
  }

  /** Index of the first registration that is to be removed, or the table's length. */
  function FirstMatch(cbs: seq<Callback>, fn: nat, serial: string, anySerial: bool): (k: nat)
    ensures k <= |cbs|
    ensures k < |cbs| ==> cbs[k].fn == fn && (anySerial || cbs[k].serial == serial)
    ensures forall i :: 0 <= i < k ==> !(cbs[i].fn == fn && (anySerial || cbs[i].serial == serial))
  {
    if cbs == [] then 0
    else if cbs[0].fn == fn && (anySerial || cbs[0].serial == serial) then 0
    else 1 + FirstMatch(cbs[1..], fn, serial, anySerial)
  }

  function Remove(cbs: seq<Callback>, fn: nat, serial: string, anySerial: bool): seq<Callback> {
    var k := FirstMatch(cbs, fn, serial, anySerial);
    if k == |cbs| then cbs else cbs[..k] + cbs[k + 1..]
  }

  // ----- atomic steps

  datatype Phase = Starting | Waiting | Fetching | Notifying(pending: seq<Call>)

  /** Shared state, the worker's place in its loop, and the history of the run. */
  datatype State = State(
    phase: Phase,
    haveList: bool,
    devices: seq<Device>,
    callbacks: seq<Callback>,
    nextId: nat,
    scans: seq<seq<Device>>,
    snapshots: seq<seq<Callback>>,
    calls: seq<Call>)

  datatype Event =
    | FirstList(found: seq<Device>)
    | StartScan
    | EndScan(found: seq<Device>)
    | CallNext
    | FinishRound
    | Register(fn: nat, data: nat, serial: string)
    | RemoveFn(fn: nat)
    | RemoveFnSerial(fn: nat, serial: string)

  function Init(): State {
    State(Starting, false, [], [], 0, [], [], [])
  }

  /** One atomic step; an event that is not enabled changes nothing. */
  function Step(s: State, ev: Event): State {
    match ev
    case FirstList(found) =>
      if s.phase == Starting then s.(phase := Waiting, haveList := true, devices := found, scans := [found]) else s
    case StartScan => if s.phase == Waiting then s.(phase := Fetching) else s
    case EndScan(found) =>
      if s.phase == Fetching then
        s.(phase := Notifying(CallsFor(|s.snapshots|, Lost(s.devices, found), s.callbacks)),
           devices := found, scans := s.scans + [found], snapshots := s.snapshots + [s.callbacks])
      else s
    case CallNext =>
      if s.phase.Notifying? && s.phase.pending != [] then
        s.(phase := Notifying(s.phase.pending[1..]), calls := s.calls + [s.phase.pending[0]])
      else s
    case FinishRound => if s.phase == Notifying([]) then s.(phase := Waiting) else s
    case Register(fn, data, serial) =>
      s.(callbacks := s.callbacks + [Callback(s.nextId, fn, data, serial)], nextId := s.nextId + 1)
    case RemoveFn(fn) => s.(callbacks := Remove(s.callbacks, fn, "", true))
    case RemoveFnSerial(fn, serial) => s.(callbacks := Remove(s.callbacks, fn, serial, false))
  }

  function Run(evs: seq<Event>): State {
    if evs == [] then Init() else Step(Run(evs[..|evs| - 1]), evs[|evs| - 1])
  }

  // ----- what every run keeps

  ghost predicate DistinctIds(cbs: seq<Callback>, bound: nat) {
    && (forall i :: 0 <= i < |cbs| ==> cbs[i].id < bound)
    && (forall i, j :: 0 <= i < j < |cbs| ==> cbs[i].id != cbs[j].id)
  }

  /** All calls the published lists account for, in order. */
  function Expected(scans: seq<seq<Device>>, snapshots: seq<seq<Callback>>): seq<Call>
    requires |scans| == |snapshots| + 1
  {
    if snapshots == [] then []
    else
      var n := |snapshots| - 1;
      Expected(scans[..n + 1], snapshots[..n]) + CallsFor(n, Lost(scans[n], scans[n + 1]), snapshots[n])
  }

  function Pending(s: State): seq<Call> {
    if s.phase.Notifying? then s.phase.pending else []
  }

  ghost predicate Inv(s: State) {
    && (s.haveList <==> s.phase != Starting)
    && (s.phase == Starting ==> s.scans == [] && s.snapshots == [] && s.calls == [])
    && (s.phase != Starting ==>
          && |s.scans| == |s.snapshots| + 1
          && s.devices == s.scans[|s.scans| - 1]
          && s.calls + Pending(s) == Expected(s.scans, s.snapshots))
    && DistinctIds(s.callbacks, s.nextId)
    && (forall k :: 0 <= k < |s.snapshots| ==> DistinctIds(s.snapshots[k], s.nextId))
  }

  lemma RemoveDistinct(cbs: seq<Callback>, fn: nat, serial: string, anySerial: bool, bound: nat)
    requires DistinctIds(cbs, bound)
    ensures DistinctIds(Remove(cbs, fn, serial, anySerial), bound)
  {
  }

  lemma EndScanKeeps(s: State, found: seq<Device>)
    requires Inv(s) && s.phase == Fetching
    ensures Inv(Step(s, EndScan(found)))
  {
    hide DistinctIds, CallsFor, Lost;
    var t := Step(s, EndScan(found));
    var n := |s.snapshots|;
    assert t.scans[..n + 1] == s.scans && t.snapshots[..n] == s.snapshots;
    assert t.scans[n] == s.devices;
    assert s.calls + [] == s.calls;
  }

  lemma CallKeeps(s: State)
    requires Inv(s)
    ensures Inv(Step(s, CallNext)) && Inv(Step(s, FinishRound)) && Inv(Step(s, StartScan))
  {
    hide DistinctIds, Expected;
    if s.phase.Notifying? && s.phase.pending != [] {
      assert s.phase.pending == [s.phase.pending[0]] + s.phase.pending[1..];
      assert Step(s, CallNext).calls + Pending(Step(s, CallNext)) == s.calls + Pending(s);
    }
  }

  lemma RegisterKeeps(s: State, fn: nat, data: nat, serial: string)
    requires Inv(s)
    ensures Inv(Step(s, Register(fn, data, serial)))
  {
    hide Expected, DistinctIds;
    DistinctAppend(s.callbacks, Callback(s.nextId, fn, data, serial));
    forall k | 0 <= k < |s.snapshots|
      ensures DistinctIds(s.snapshots[k], s.nextId + 1)
    {
      DistinctMore(s.snapshots[k], s.nextId);
    }
  }

  lemma DistinctMore(cbs: seq<Callback>, bound: nat)
    requires DistinctIds(cbs, bound)
    ensures DistinctIds(cbs, bound + 1)
  {
  }

  lemma DistinctAppend(cbs: seq<Callback>, cb: Callback)
    requires DistinctIds(cbs, cb.id)
    ensures DistinctIds(cbs + [cb], cb.id + 1)
  {
  }

  lemma FirstKeeps(s: State, found: seq<Device>)
    requires Inv(s)
    ensures Inv(Step(s, FirstList(found)))
  {
    hide DistinctIds;
  }

  lemma StepKeeps(s: State, ev: Event)
    requires Inv(s)
    ensures Inv(Step(s, ev))
  {
    match ev {
      case FirstList(found) => FirstKeeps(s, found);
      case EndScan(found) =>
        if s.phase == Fetching {
          EndScanKeeps(s, found);
        }
      case Register(fn, data, serial) => RegisterKeeps(s, fn, data, serial);
      case RemoveFn(fn) =>
        RemoveDistinct(s.callbacks, fn, "", true, s.nextId);
        hide DistinctIds, Expected, Remove;
      case RemoveFnSerial(fn, serial) =>
        RemoveDistinct(s.callbacks, fn, serial, false, s.nextId);
        hide DistinctIds, Expected, Remove;
      case _ =>
        CallKeeps(s);
        hide Inv;
    }
  }

  lemma {:induction false} RunKeeps(evs: seq<Event>)
    ensures Inv(Run(evs))
  {
    if evs != [] {
      RunKeeps(evs[..|evs| - 1]);
      StepKeeps(Run(evs[..|evs| - 1]), evs[|evs| - 1]);
    }
  }

  /** The list handed out is always one a completed scan produced: the latest. */
  lemma ListIsScan(evs: seq<Event>)
    requires Run(evs).haveList
    ensures Run(evs).scans != [] && Run(evs).devices == Run(evs).scans[|Run(evs).scans| - 1]
  {
    RunKeeps(evs);
  }

  // ----- counting calls

  /** How often this registration was called in this round about this serial. */
  function CallCount(calls: seq<Call>, round: nat, id: nat, serial: string): nat {
    if calls == [] then 0
    else
      var c := calls[|calls| - 1];
      CallCount(calls[..|calls| - 1], round, id, serial)
      + (if c.round == round && c.cb.id == id && c.dev.serial == serial then 1 else 0)
  }

  /** How often a list names the serial. */
  function Listed(devs: seq<Device>, serial: string): nat {
    if devs == [] then 0
    else Listed(devs[..|devs| - 1], serial) + (if devs[|devs| - 1].serial == serial then 1 else 0)
  }

  ghost predicate UniqueSerials(devs: seq<Device>) {
    forall i, j :: 0 <= i < j < |devs| ==> devs[i].serial != devs[j].serial
  }

  lemma {:induction false} ListedHas(devs: seq<Device>, serial: string)
    ensures Listed(devs, serial) > 0 <==> HasSerial(devs, serial)
  {
    hide HasSerial;
    if devs == [] {
      NobodyThere(serial);
    } else {
      ListedHas(devs[..|devs| - 1], serial);
      HasInit(devs, serial);
    }
  }

  lemma NobodyThere(serial: string)
    ensures !HasSerial([], serial)
  {
  }

  lemma {:induction false} ListedOnce(devs: seq<Device>, serial: string)
    requires UniqueSerials(devs)
    ensures Listed(devs, serial) <= 1
  {
    if devs != [] {
      var n := |devs| - 1;
      ListedOnce(devs[..n], serial);
      ListedHas(devs[..n], serial);
      SerialOnce(devs, n);
    }
  }

  lemma {:induction false} CountAppend(s: seq<Call>, t: seq<Call>, round: nat, id: nat, serial: string)
    ensures CallCount(s + t, round, id, serial) == CallCount(s, round, id, serial) + CallCount(t, round, id, serial)
  {
    if t == [] {
      assert s + t == s;
    } else {
      CountAppend(s, t[..|t| - 1], round, id, serial);
      assert (s + t)[..|s + t| - 1] == s + t[..|t| - 1];
    }
  }

  /** The table holds a registration with this id that listens to the serial. */
  predicate Listening(cbs: seq<Callback>, id: nat, serial: string) {
    exists i :: 0 <= i < |cbs| && cbs[i].id == id && (cbs[i].serial == "" || cbs[i].serial == serial)
  }

  lemma {:induction false} CountAbout(round: nat, r: nat, d: Device, cbs: seq<Callback>, id: nat, serial: string, bound: nat)
    requires DistinctIds(cbs, bound)
    ensures CallCount(CallsAbout(round, d, cbs), r, id, serial) ==
            if r == round && d.serial == serial && Listening(cbs, id, serial) then 1 else 0
    decreases |cbs|
  {
    if cbs != [] {
      var n := |cbs| - 1;
      CountAbout(round, r, d, cbs[..n], id, serial, bound);
      var last := if Listens(cbs[n], d) then [Call(round, cbs[n], d)] else [];
      CountAppend(CallsAbout(round, d, cbs[..n]), last, r, id, serial);
      ListeningInit(cbs, id, serial, bound);
      CountOne(round, r, d, cbs[n], id, serial);
      hide DistinctIds, Listening, CallCount, Listens;
    }
  }

  lemma CountOne(round: nat, r: nat, d: Device, cb: Callback, id: nat, serial: string)
    ensures CallCount(if Listens(cb, d) then [Call(round, cb, d)] else [], r, id, serial) ==
            if r == round && d.serial == serial && cb.id == id && (cb.serial == "" || cb.serial == serial) then 1 else 0
  {
    assert [Call(round, cb, d)][..0] == [];
  }

  /** Ids are unique, so at most one entry of the table answers. */
  lemma ListeningInit(cbs: seq<Callback>, id: nat, serial: string, bound: nat)
    requires cbs != [] && DistinctIds(cbs, bound)
    ensures var n := |cbs| - 1;
            var last := cbs[n].id == id && (cbs[n].serial == "" || cbs[n].serial == serial);
            && DistinctIds(cbs[..n], bound)
            && (Listening(cbs, id, serial) <==> Listening(cbs[..n], id, serial) || last)
            && !(Listening(cbs[..n], id, serial) && last)
  {
    var n := |cbs| - 1;
    if Listening(cbs[..n], id, serial) {
      var i :| 0 <= i < n && cbs[..n][i].id == id && (cbs[..n][i].serial == "" || cbs[..n][i].serial == serial);
      assert cbs[i].id == id;
    }
    if i :| 0 <= i < |cbs| && cbs[i].id == id && (cbs[i].serial == "" || cbs[i].serial == serial) {
      if i < n {
        assert cbs[..n][i] == cbs[i];
      }
    }
  }

  lemma HasInit(devs: seq<Device>, serial: string)
    requires devs != []
    ensures HasSerial(devs, serial) <==> HasSerial(devs[..|devs| - 1], serial) || devs[|devs| - 1].serial == serial
  {
    var n := |devs| - 1;
    if i :| 0 <= i < |devs| && devs[i].serial == serial {
      if i < n {
        assert devs[..n][i].serial == serial;
      }
    }
    if i :| 0 <= i < n && devs[..n][i].serial == serial {
      assert devs[i].serial == serial;
    }
  }

  lemma {:induction false} CountFor(round: nat, r: nat, old': seq<Device>, new': seq<Device>, cbs: seq<Callback>, id: nat, serial: string, bound: nat)
    requires DistinctIds(cbs, bound)
    ensures CallCount(CallsFor(round, Lost(old', new'), cbs), r, id, serial) ==
            if r == round && !HasSerial(new', serial) && Listening(cbs, id, serial) then Listed(old', serial) else 0
    decreases |old'|
  {
    hide CallsAbout, HasSerial, Listening, CallCount, DistinctIds;
    if old' == [] {
      NothingLost(round, r, new', cbs, id, serial);
    } else {
      var n := |old'| - 1;
      var d := old'[n];
      CountFor(round, r, old'[..n], new', cbs, id, serial, bound);
      if !HasSerial(new', d.serial) {
        var before := Lost(old'[..n], new');
        assert Lost(old', new')[..|before|] == before;
        CountAbout(round, r, d, cbs, id, serial, bound);
        CountAppend(CallsFor(round, before, cbs), CallsAbout(round, d, cbs), r, id, serial);
      } else {
        assert Lost(old', new') == Lost(old'[..n], new');
      }
    }
  }

  lemma NothingLost(round: nat, r: nat, new': seq<Device>, cbs: seq<Callback>, id: nat, serial: string)
    ensures CallCount(CallsFor(round, Lost([], new'), cbs), r, id, serial) == 0
  {
  }

  lemma SerialOnce(devs: seq<Device>, n: nat)
    requires UniqueSerials(devs) && n < |devs|
    ensures !HasSerial(devs[..n], devs[n].serial)
  {
  }

  lemma {:induction false} CountExpected(scans: seq<seq<Device>>, snapshots: seq<seq<Callback>>, round: nat, id: nat, serial: string, bound: nat)
    requires |scans| == |snapshots| + 1
    requires forall k :: 0 <= k < |snapshots| ==> DistinctIds(snapshots[k], bound)
    ensures CallCount(Expected(scans, snapshots), round, id, serial) ==
            if round < |snapshots| && !HasSerial(scans[round + 1], serial) && Listening(snapshots[round], id, serial)
            then Listed(scans[round], serial) else 0
    decreases |snapshots|
  {
    hide CallsFor, Lost, HasSerial, Listening, Listed, DistinctIds;
    if snapshots != [] {
      var n := |snapshots| - 1;
      CountExpected(scans[..n + 1], snapshots[..n], round, id, serial, bound);
      CountFor(n, round, scans[n], scans[n + 1], snapshots[n], id, serial, bound);
      CountAppend(Expected(scans[..n + 1], snapshots[..n]), CallsFor(n, Lost(scans[n], scans[n + 1]), snapshots[n]), round, id, serial);
    }
  }

  /** In every reachable state, and whatever was interleaved: if a round's published lists lost a serial and a
      registration listening to it was in the table at that moment, the calls made and still due to it in that round
      about the serial are as many as the old list named it, and otherwise none. Between rounds none are due. */
  lemma CalledAsListed(evs: seq<Event>, round: nat, id: nat, serial: string)
    ensures var s := Run(evs);
            CallCount(s.calls, round, id, serial) + CallCount(Pending(s), round, id, serial) ==
            if round < |s.snapshots| && round + 1 < |s.scans| && !HasSerial(s.scans[round + 1], serial)
               && Listening(s.snapshots[round], id, serial) then Listed(s.scans[round], serial) else 0
    ensures Run(evs).phase == Waiting ==> Pending(Run(evs)) == []
  {
    hide Expected, HasSerial, Listening, Listed;
    var s := Run(evs);
    RunKeeps(evs);
    CountAppend(s.calls, Pending(s), round, id, serial);
    if s.phase != Starting {
      CountExpected(s.scans, s.snapshots, round, id, serial, s.nextId);
    }
  }

  /** So a list that names no serial twice makes it exactly one call per published loss. */
  lemma CalledExactlyOnce(evs: seq<Event>, round: nat, id: nat, serial: string)
    ensures var s := Run(evs);
            round < |s.scans| && UniqueSerials(s.scans[round]) ==>
              CallCount(s.calls, round, id, serial) + CallCount(Pending(s), round, id, serial) ==
              if round < |s.snapshots| && round + 1 < |s.scans| && HasSerial(s.scans[round], serial) && !HasSerial(s.scans[round + 1], serial)
                 && Listening(s.snapshots[round], id, serial) then 1 else 0
  {
    hide Run, CallCount, HasSerial, Listening, Listed, UniqueSerials;
    CalledAsListed(evs, round, id, serial);
    var s := Run(evs);
    if round < |s.scans| && UniqueSerials(s.scans[round]) {
      ListedHas(s.scans[round], serial);
      ListedOnce(s.scans[round], serial);
    }
  }

  // ----- registrations persist until removed

  predicate Removes(ev: Event, cb: Callback) {
    (ev.RemoveFn? && ev.fn == cb.fn) || (ev.RemoveFnSerial? && ev.fn == cb.fn && ev.serial == cb.serial)
  }

  /** Only a matching removal takes a registration out of the table. */
  lemma StaysRegistered(s: State, ev: Event, cb: Callback)
    requires cb in s.callbacks && !Removes(ev, cb)
    ensures cb in Step(s, ev).callbacks
  {
    var i :| 0 <= i < |s.callbacks| && s.callbacks[i] == cb;
    if ev.RemoveFn? {
      StaysAt(s.callbacks, ev.fn, "", true, i);
    } else if ev.RemoveFnSerial? {
      StaysAt(s.callbacks, ev.fn, ev.serial, false, i);
    }
  }

  /** A registration no later event removes is in the table, and in every snapshot taken from then on. */
  lemma {:induction false} StaysInSnapshots(evs: seq<Event>, more: seq<Event>, cb: Callback)
    requires cb in Run(evs).callbacks && forall i :: 0 <= i < |more| ==> !Removes(more[i], cb)
    ensures cb in Run(evs + more).callbacks && |Run(evs).snapshots| <= |Run(evs + more).snapshots|
    ensures forall k :: |Run(evs).snapshots| <= k < |Run(evs + more).snapshots| ==> cb in Run(evs + more).snapshots[k]
    decreases |more|
  {
    if more == [] {
      assert evs + more == evs;
    } else {
      var n := |more| - 1;
      StaysInSnapshots(evs, more[..n], cb);
      assert (evs + more)[..|evs + more| - 1] == evs + more[..n];
      var s := Run(evs + more[..n]);
      assert Run(evs + more) == Step(s, more[n]);
      StaysRegistered(s, more[n], cb);
      SnapshotsGrow(s, more[n]);
    }
  }

  lemma SnapshotsGrow(s: State, ev: Event)
    ensures Step(s, ev).snapshots == s.snapshots || Step(s, ev).snapshots == s.snapshots + [s.callbacks]
  {
  }

  /** For a registration that stays, every published loss of a serial it listens to is called or due as often as
      the old list named it, which is once in a list without repetition, and nothing else is. */
  lemma StayingCalledOnce(evs: seq<Event>, more: seq<Event>, cb: Callback, round: nat, serial: string)
    requires cb in Run(evs).callbacks && forall i :: 0 <= i < |more| ==> !Removes(more[i], cb)
    requires cb.serial == "" || cb.serial == serial
    requires |Run(evs).snapshots| <= round < |Run(evs + more).snapshots|
    ensures var s := Run(evs + more);
            && round + 1 < |s.scans|
            && CallCount(s.calls, round, cb.id, serial) + CallCount(Pending(s), round, cb.id, serial) ==
               (if HasSerial(s.scans[round + 1], serial) then 0 else Listed(s.scans[round], serial))
            && (UniqueSerials(s.scans[round]) ==>
                  Listed(s.scans[round], serial) == if HasSerial(s.scans[round], serial) then 1 else 0)
  {
    hide Run, CallCount, HasSerial, Listed, UniqueSerials;
    StaysInSnapshots(evs, more, cb);
    CalledAsListed(evs + more, round, cb.id, serial);
    RunKeeps(evs + more);
    var snapshot := Run(evs + more).snapshots[round];
    var i :| 0 <= i < |snapshot| && snapshot[i] == cb;
    assert Listening(snapshot, cb.id, serial);
    var before := Run(evs + more).scans[round];
    ListedHas(before, serial);
    if UniqueSerials(before) {
      ListedOnce(before, serial);
    }
  }

  lemma StaysAt(cbs: seq<Callback>, fn: nat, serial: string, anySerial: bool, i: nat)
    requires i < |cbs| && !(cbs[i].fn == fn && (anySerial || cbs[i].serial == serial))
    ensures cbs[i] in Remove(cbs, fn, serial, anySerial)
  {
    hide FirstMatch;
    var k := FirstMatch(cbs, fn, serial, anySerial);
    if k < |cbs| {
      assert Remove(cbs, fn, serial, anySerial)[if i < k then i else i - 1] == cbs[i];
    }
  }

  /** A removal by function takes out the earliest registration of it, by function and serial the earliest of both, and
      nothing else; without one nothing changes. */
  lemma RemovalLaw(s: State, fn: nat, serial: string, k: nat)
    requires k <= |s.callbacks|
    ensures (k < |s.callbacks| ==> s.callbacks[k].fn == fn) && (forall i :: 0 <= i < k ==> s.callbacks[i].fn != fn) ==>
              Step(s, RemoveFn(fn)).callbacks == s.callbacks[..k] + (if k < |s.callbacks| then s.callbacks[k + 1..] else [])
    ensures (k < |s.callbacks| ==> s.callbacks[k].fn == fn && s.callbacks[k].serial == serial)
            && (forall i :: 0 <= i < k ==> s.callbacks[i].fn != fn || s.callbacks[i].serial != serial) ==>
              Step(s, RemoveFnSerial(fn, serial)).callbacks ==
              s.callbacks[..k] + (if k < |s.callbacks| then s.callbacks[k + 1..] else [])
  {
    hide FirstMatch;
  }

  // ----- the critical sections, in place

  /** Several steps from a state. */
  function Steps(s: State, evs: seq<Event>): State {
    if evs == [] then s else Step(Steps(s, evs[..|evs| - 1]), evs[|evs| - 1])
  }

  /** Making n of the calls that are due, one by one. */
  lemma {:induction false} CallsMade(s: State, n: nat)
    requires s.phase.Notifying? && n <= |s.phase.pending|
    ensures Steps(s, seq(n, _ => CallNext)) ==
            s.(phase := Notifying(s.phase.pending[n..]), calls := s.calls + s.phase.pending[..n])
  {
    var evs := seq(n, _ => CallNext);
    if n == 0 {
      assert s.phase.pending[0..] == s.phase.pending && s.calls + [] == s.calls;
    } else {
      CallsMade(s, n - 1);
      assert evs[..n - 1] == seq(n - 1, _ => CallNext);
      var pending := s.phase.pending;
      assert pending[n - 1..][1..] == pending[n..];
      assert s.calls + pending[..n - 1] + [pending[n - 1]] == s.calls + pending[..n];
    }
  }

  /** A whole round of the worker: a scan, its publication, and all its calls. */
  function RoundEvents(found: seq<Device>, calls: nat): seq<Event> {
    [StartScan, EndScan(found)] + seq(calls, _ => CallNext) + [FinishRound]
  }

  lemma RoundSteps(s: State, found: seq<Device>)
    requires s.phase == Waiting
    ensures var due := CallsFor(|s.snapshots|, Lost(s.devices, found), s.callbacks);
            Steps(s, RoundEvents(found, |due|)) ==
            s.(devices := found, scans := s.scans + [found], snapshots := s.snapshots + [s.callbacks], calls := s.calls + due)
  {
    hide CallsFor, Lost;
    var due := CallsFor(|s.snapshots|, Lost(s.devices, found), s.callbacks);
    var published := Step(Step(s, StartScan), EndScan(found));
    var more := seq(|due|, _ => CallNext);
    var evs := RoundEvents(found, |due|);
    assert evs[..|evs| - 1] == [StartScan, EndScan(found)] + more;
    StepsJoin(s, [StartScan, EndScan(found)], more);
    assert [StartScan, EndScan(found)][..1] == [StartScan] && [StartScan][..0] == [];
    assert Steps(s, [StartScan]) == Step(Steps(s, []), StartScan);
    CallsMade(published, |due|);
    assert due[|due|..] == [] && due[..|due|] == due;
  }

  lemma {:induction false} StepsJoin(s: State, a: seq<Event>, b: seq<Event>)
    ensures Steps(s, a + b) == Steps(Steps(s, a), b)
    decreases |b|
  {
    hide Step;
    if b == [] {
      assert a + b == a;
    } else {
      StepsJoin(s, a, b[..|b| - 1]);
      assert (a + b)[..|a + b| - 1] == a + b[..|b| - 1];
    }
  }

  class Indexer {
    var deviceList: seq<Device>
    var haveList: bool
    var callbacks: seq<Callback>
    var nextId: nat
    // where the worker stands, and the history of the run
    var phase: Phase
    var scans: seq<seq<Device>>
    var snapshots: seq<seq<Callback>>
    var calls: seq<Call>

    ghost function State(): State
      reads this
    {
      Init().(phase := phase, haveList := haveList, devices := deviceList, callbacks := callbacks, nextId := nextId,
              scans := scans, snapshots := snapshots, calls := calls)
    }

    constructor ()
      ensures State() == Init()
    {
      deviceList, haveList, callbacks, nextId := [], false, [], 0;
      phase, scans, snapshots, calls := Starting, [], [], [];
    }

    method PublishFirst(found: seq<Device>)
      requires phase == Starting
      modifies this
      ensures State() == Step(old(State()), FirstList(found))
    {
      deviceList := found;
      haveList := true;
      phase, scans := Waiting, [found];
    }

    /** Compare a finished scan with the published list, publish it, and take the callbacks' snapshot. */
    method Publish(found: seq<Device>) returns (lost: seq<Device>, cbs: seq<Callback>)
      requires phase == Fetching
      modifies this
      ensures lost == Lost(old(deviceList), found) && cbs == old(callbacks)
      ensures State() == Step(old(State()), EndScan(found))
    {
      hide CallsFor;
      lost := [];
      var i := 0;
      while i < |deviceList|
        invariant 0 <= i <= |deviceList| && State() == old(State())
        invariant lost == Lost(deviceList[..i], found)
      {
        assert deviceList[..i + 1][..i] == deviceList[..i];
        var there := Find(found, deviceList[i].serial);
        if !there {
          lost := lost + [deviceList[i]];
        }
        i := i + 1;
      }
      assert deviceList[..i] == deviceList;
      deviceList := found;
      cbs := callbacks;
      phase := Notifying(CallsFor(|snapshots|, lost, cbs));
      scans, snapshots := scans + [found], snapshots + [cbs];
    }

    /** One turn of the worker's loop while no other thread takes the mutex. */
    method Turn(found: seq<Device>) returns (log: seq<Call>)
      requires phase == Waiting
      modifies this
      ensures log == CallsFor(old(|snapshots|), Lost(old(deviceList), found), old(callbacks))
      ensures State() == Steps(old(State()), RoundEvents(found, |log|))
    {
      hide CallsFor, Lost, Steps;
      RoundSteps(State(), found);
      phase := Fetching;
      var lost, cbs := Publish(found);
      log := Notify(|snapshots| - 1, lost, cbs);
      calls := calls + log;
      phase := Waiting;
    }

    method GetDeviceList() returns (r: seq<Device>)
      requires haveList
      ensures r == State().devices
    {
      r := deviceList;
    }

    method RegisterDeviceLost(fn: nat, data: nat, serial: string)
      modifies this
      ensures State() == Step(old(State()), Register(fn, data, serial))
    {
      callbacks := callbacks + [Callback(nextId, fn, data, serial)];
      nextId := nextId + 1;
    }

    method RemoveDeviceLost(fn: nat, serial: string, anySerial: bool)
      modifies this
      ensures State() == Step(old(State()), if anySerial then RemoveFn(fn) else RemoveFnSerial(fn, serial))
    {
      var it := 0;
      FirstMatchAny(callbacks, fn, serial);
      while it < |callbacks|
        invariant 0 <= it <= |callbacks| && State() == old(State())
        invariant forall i :: 0 <= i < it ==> !(callbacks[i].fn == fn && (anySerial || callbacks[i].serial == serial))
      {
        if callbacks[it].fn == fn && (anySerial || callbacks[it].serial == serial) {
          callbacks := callbacks[..it] + callbacks[it + 1..];
          return;
        }
        it := it + 1;
      }
    }
  }

  /** Removing by function alone does not look at the serial. */
  lemma {:induction false} FirstMatchAny(cbs: seq<Callback>, fn: nat, serial: string)
    ensures Remove(cbs, fn, serial, true) == Remove(cbs, fn, "", true)
  {
  }

  method Find(devs: seq<Device>, serial: string) returns (there: bool)
    ensures there == HasSerial(devs, serial)
  {
    var i := 0;
    while i < |devs|
      invariant 0 <= i <= |devs| && forall k :: 0 <= k < i ==> devs[k].serial != serial
    {
      if devs[i].serial == serial {
        return true;
      }
      i := i + 1;
    }
    return false;
  }

  /** The notification loops run the calls of a round in order. */
  method Notify(round: nat, lost: seq<Device>, cbs: seq<Callback>) returns (log: seq<Call>)
    ensures log == CallsFor(round, lost, cbs)
  {
    log := [];
    var i := 0;
    while i < |lost|
      invariant 0 <= i <= |lost| && log == CallsFor(round, lost[..i], cbs)
    {
      assert lost[..i + 1][..i] == lost[..i];
      ghost var before := log;
      var j := 0;
      while j < |cbs|
        invariant 0 <= j <= |cbs| && log == before + CallsAbout(round, lost[i], cbs[..j])
      {
        assert cbs[..j + 1][..j] == cbs[..j];
        if Listens(cbs[j], lost[i]) {
          log := log + [Call(round, cbs[j], lost[i])];
        }
        j := j + 1;
      }
      assert cbs[..j] == cbs;
      i := i + 1;
    }
    assert lost[..i] == lost;
  }
}
