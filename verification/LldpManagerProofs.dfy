/** What holds in every run of an LLDP manager: which agents are active, how many transmit tasks live, and what
    each interface sees on the wire. */
module LldpManagerProofs {
  import opened Results
  import opened Lldp
  import opened LldpFrame
  import opened LldpRoundTrip
  import opened LldpManager
  import opened Sequences

  // ---------- The wire ----------

  /** A shutdown data unit carries its identifiers, time to live 0, and nothing else. */
  ghost predicate EndsPeriod(s: Sent) {
    s.Shutdown? && s.frame.dataUnit == ShutdownDataUnit(s.frame.dataUnit.chassisId, s.frame.dataUnit.portId)
  }

  /** A transmitting period: configured frames, at least one, and then exactly one shutdown frame. */
  ghost predicate IsPeriod(p: seq<Sent>) {
    |p| >= 2 && EndsPeriod(p[|p| - 1]) && forall i | 0 <= i < |p| - 1 :: p[i].Configured?
  }

  ghost function Flatten(periods: seq<seq<Sent>>): seq<Sent> {
    if periods == [] then [] else Flatten(periods[..|periods| - 1]) + periods[|periods| - 1]
  }

  /** The wire has seen complete periods, and the part of another one so far; the latter is there exactly
      while transmitting. */
  ghost predicate InPeriods(wire: seq<Sent>, transmitting: bool) {
    exists periods: seq<seq<Sent>>, current: seq<Sent> ::
      && wire == Flatten(periods) + current
      && (forall p <- periods :: IsPeriod(p))
      && (forall s <- current :: s.Configured?)
      && (transmitting <==> current != [])
  }

  lemma NothingSent()
    ensures InPeriods([], false)
  {
    var none: seq<Sent> := [];
    assert [] == Flatten([]) + none;
  }

  lemma ConfiguredExtends(wire: seq<Sent>, transmitting: bool, frame: Frame)
    requires InPeriods(wire, transmitting)
    ensures InPeriods(wire + [Configured(frame)], true)
  {
    var periods, current: seq<Sent> :|
      && wire == Flatten(periods) + current
      && (forall p <- periods :: IsPeriod(p))
      && (forall s <- current :: s.Configured?)
      && (transmitting <==> current != []);
    var longer := current + [Configured(frame)];
    assert wire + [Configured(frame)] == Flatten(periods) + longer;
  }

  lemma FlattenGrows(periods: seq<seq<Sent>>, period: seq<Sent>)
    ensures Flatten(periods + [period]) == Flatten(periods) + period
  {
    assert (periods + [period])[..|periods|] == periods;
  }

  lemma CompletesPeriod(current: seq<Sent>, last: Sent)
    requires current != [] && (forall s <- current :: s.Configured?) && EndsPeriod(last)
    ensures IsPeriod(current + [last])
  {
    var period := current + [last];
    assert forall i | 0 <= i < |current| :: period[i] == current[i];
  }

  lemma ShutdownCompletes(wire: seq<Sent>, frame: Frame)
    requires InPeriods(wire, true) && EndsPeriod(Shutdown(frame))
    ensures InPeriods(wire + [Shutdown(frame)], false)
  {
    var periods, current: seq<Sent> :|
      && wire == Flatten(periods) + current
      && (forall p <- periods :: IsPeriod(p))
      && (forall s <- current :: s.Configured?)
      && current != [];
    var period := current + [Shutdown(frame)];
    var longer, none: seq<Sent> := periods + [period], [];
    CompletesPeriod(current, Shutdown(frame));
    FlattenGrows(periods, period);
    Associates(Flatten(periods), current, [Shutdown(frame)]);
    assert Flatten(longer) + none == Flatten(longer);
    assert forall p <- longer :: p in periods || p == period;
  }

  /** What a frame on the wire carries: a configured one a data unit the agent has been given, and the one that
      ends a period the identifiers of such a unit, with time to live 0 and nothing else. */
  ghost predicate Carries(s: Sent, given: seq<DataUnit>) {
    match s
    case Configured(frame) => frame.dataUnit in given
    case Shutdown(frame) => exists u <- given :: frame.dataUnit == ShutdownDataUnit(u.chassisId, u.portId)
  }

  ghost predicate Genuine(s: Sent, device: Device, given: seq<DataUnit>) {
    && s.frame.destinationMac == device.destinationMac && s.frame.sourceMac == device.sourceMac
    && Carries(s, given)
  }

  // ---------- One agent ----------

  ghost predicate AgentInvariant(a: Agent, given: seq<DataUnit>) {
    TransmitInvariant(a, given) && a.receiving == a.activeReceive
  }

  ghost predicate TransmitInvariant(a: Agent, given: seq<DataUnit>) {
    && |a.tasks| == (if a.activeTransmit then 1 else 0)
    && InPeriods(a.wire, a.activeTransmit)
    && given != [] && a.unit == given[|given| - 1]
    && (forall s <- a.wire :: Genuine(s, a.device, given))
    && (forall frame <- a.tasks :: Genuine(Configured(frame), a.device, given))
  }

  ghost predicate Matches(a: Agent) {
    a.activeTransmit == a.configTransmit && a.activeReceive == a.configReceive
  }

  /** What a live task sends is the frame of the data last configured. */
  ghost predicate SendsCurrent(a: Agent) {
    forall frame <- a.tasks :: frame == ConfiguredFrame(a)
  }

  ghost predicate Inactive(a: Agent) {
    !a.activeTransmit && !a.activeReceive
  }

  lemma StartKeeps(a: Agent, given: seq<DataUnit>)
    requires TransmitInvariant(a, given)
    ensures TransmitInvariant(StartTransmit(a), given) && SendsCurrent(StartTransmit(a))
  {
    var started := StartTransmit(a);
    ConfiguredExtends(a.wire, a.activeTransmit, ConfiguredFrame(a));
    assert Genuine(Configured(ConfiguredFrame(a)), a.device, given);
    AllGenuine(a.wire, Configured(ConfiguredFrame(a)), a.device, given);
    assert started.tasks == [ConfiguredFrame(a)];
  }

  lemma StopKeeps(a: Agent, given: seq<DataUnit>)
    requires TransmitInvariant(a, given) && a.activeTransmit
    ensures TransmitInvariant(StopTransmit(a), given) && StopTransmit(a).tasks == []
  {
    var sent := Shutdown(ShutdownFrame(a));
    ShutdownCompletes(a.wire, ShutdownFrame(a));
    assert a.unit in given && sent.frame.dataUnit == ShutdownDataUnit(a.unit.chassisId, a.unit.portId);
    AllGenuine(a.wire, sent, a.device, given);
  }

  lemma AllGenuine(wire: seq<Sent>, sent: Sent, device: Device, given: seq<DataUnit>)
    requires (forall s <- wire :: Genuine(s, device, given)) && Genuine(sent, device, given)
    ensures forall s <- wire + [sent] :: Genuine(s, device, given)
  {
  }

  ghost function Transmitting(a: Agent): Agent {
    if a.configTransmit then StartTransmit(a) else if a.activeTransmit then StopTransmit(a) else a
  }

  lemma TransmittingKeeps(a: Agent, given: seq<DataUnit>)
    requires TransmitInvariant(a, given)
    ensures TransmitInvariant(Transmitting(a), given) && SendsCurrent(Transmitting(a))
  {
    if a.configTransmit {
      StartKeeps(a, given);
    } else if a.activeTransmit {
      StopKeeps(a, given);
    }
  }

  lemma ActivateKeeps(a: Agent, given: seq<DataUnit>)
    requires AgentInvariant(a, given)
    ensures AgentInvariant(Activate(a), given) && Matches(Activate(a)) && SendsCurrent(Activate(a))
    ensures Activate(a).configTransmit == a.configTransmit && Activate(a).configReceive == a.configReceive
  {
    TransmittingKeeps(a, given);
    var b := Transmitting(a);
    assert Activate(a) == b.(receiving := a.configReceive, activeReceive := a.configReceive);
  }

  lemma TickKeeps(a: Agent, task: nat, given: seq<DataUnit>)
    requires AgentInvariant(a, given)
    ensures AgentInvariant(Tick(a, task), given)
    ensures Matches(a) ==> Matches(Tick(a, task))
    ensures SendsCurrent(a) ==> SendsCurrent(Tick(a, task))
    ensures Inactive(a) ==> Tick(a, task) == a
  {
    if task < |a.tasks| {
      ConfiguredExtends(a.wire, a.activeTransmit, a.tasks[task]);
    }
  }

  /** Being given more data disturbs nothing that has been sent or is to be sent again. */
  lemma MoreIsGiven(a: Agent, given: seq<DataUnit>, data: DataUnit)
    requires AgentInvariant(a, given)
    ensures AgentInvariant(a.(unit := data), given + [data])
  {
    forall s | Carries(s, given)
      ensures Carries(s, given + [data])
    {
      if s.Shutdown? {
        var u :| u in given && s.frame.dataUnit == ShutdownDataUnit(u.chassisId, u.portId);
        assert u in given + [data];
      }
    }
  }

  // ---------- The manager ----------

  datatype Step =
    | Open
    | Close
    | Configure(id: string, status: Status, data: DataUnit, device: Option<Device>)
    | TimerTick(id: string, task: nat)

  ghost function Apply(m: Manager, step: Step): Manager {
    match step
    case Open => Opened(m)
    case Close => Closed(m)
    case Configure(id, status, data, device) => ConfiguredInterface(m, id, status, data, device).0
    case TimerTick(id, task) => Ticked(m, id, task)
  }

  ghost function Run(m: Manager, steps: seq<Step>): Manager {
    if steps == [] then m else Apply(Run(m, steps[..|steps| - 1]), steps[|steps| - 1])
  }

  /** Whether this step configures the interface successfully. */
  ghost predicate Configures(m: Manager, step: Step, id: string) {
    step.Configure? && step.id == id && ConfiguredInterface(m, id, step.status, step.data, step.device).1
  }

  /** The data units a run gives the agent of an interface, in order. */
  ghost function Given(m: Manager, steps: seq<Step>, id: string): seq<DataUnit> {
    if steps == [] then []
    else
      var before, last := steps[..|steps| - 1], steps[|steps| - 1];
      Given(m, before, id) + if Configures(Run(m, before), last, id) then [last.data] else []
  }

  ghost predicate AgentSafe(a: Agent, open: bool, given: seq<DataUnit>) {
    && AgentInvariant(a, given)
    && (if open then Matches(a) && SendsCurrent(a) else Inactive(a))
  }

  /** Each agent has at most one live transmit task, exactly while it is transmitting; each wire carries whole
      periods, whose frames have the interface's addresses, data the agent was given, and at the end of each
      period its identifiers with time to live 0; an open manager has brought every agent to its configured
      status, and its tasks send the data last configured; a closed manager has no agent active. */
  ghost predicate Safe(m: Manager, given: string -> seq<DataUnit>) {
    forall id | id in m.agents :: AgentSafe(m.agents[id], m.isOpen, given(id))
  }

  lemma ReconfiguredIsSafe(a: Agent, status: Status, data: DataUnit, open: bool, given: seq<DataUnit>)
    requires AgentSafe(a, open, given)
    ensures AgentSafe(Reconfigured(a, status, data, open), open, given + [data])
  {
    MoreIsGiven(a, given, data);
    var b := ConfigureStatus(a, status).(unit := data);
    if open {
      ActivateKeeps(b, given + [data]);
    }
  }

  lemma NewAgentIsSafe(device: Device, status: Status, data: DataUnit, open: bool, given: seq<DataUnit>)
    ensures AgentSafe(Reconfigured(NewAgent(device), status, data, open), open, given + [data])
  {
    NothingSent();
    var b := ConfigureStatus(NewAgent(device), status).(unit := data);
    if open {
      ActivateKeeps(b, given + [data]);
    }
  }

  lemma StopIsInactive(a: Agent, given: seq<DataUnit>)
    requires AgentInvariant(a, given)
    ensures AgentSafe(Stop(a), false, given) && AgentSafe(Stop(a), true, given)
  {
    ActivateKeeps(ConfigureStatus(a, Unmanaged), given);
  }

  ghost function GivenBy(m: Manager, step: Step, given: string -> seq<DataUnit>): string -> seq<DataUnit> {
    id => given(id) + if Configures(m, step, id) then [step.data] else []
  }

  lemma NothingMore(given: seq<DataUnit>)
    ensures given + [] == given
  {
  }

  /** One step keeps all this, with what the step gives. */
  lemma StepIsSafe(m: Manager, step: Step, given: string -> seq<DataUnit>)
    requires Safe(m, given)
    ensures Safe(Apply(m, step), GivenBy(m, step, given))
  {
    forall id | id in Apply(m, step).agents
      ensures AgentSafe(Apply(m, step).agents[id], Apply(m, step).isOpen, GivenBy(m, step, given)(id))
    {
      NothingMore(given(id));
      StepIsSafeAt(m, step, given(id), id);
    }
  }

  lemma StepIsSafeAt(m: Manager, step: Step, given: seq<DataUnit>, id: string)
    requires id in m.agents ==> AgentSafe(m.agents[id], m.isOpen, given)
    requires id in Apply(m, step).agents
    ensures AgentSafe(Apply(m, step).agents[id], Apply(m, step).isOpen,
                      if Configures(m, step, id) then given + [step.data] else given)
  {
    match step
    case Open => ActivateKeeps(m.agents[id], given);
    case Close => StopIsInactive(m.agents[id], given);
    case Configure(at, status, data, device) =>
      if at == id {
        if id in m.agents {
          ReconfiguredIsSafe(m.agents[id], status, data, m.isOpen, given);
        } else {
          NewAgentIsSafe(device.value, status, data, m.isOpen, given);
        }
      }
    case TimerTick(_, task) => TickKeeps(m.agents[id], task, given);
  }

  /** Every manager that any run reaches is safe. */
  lemma {:induction false} RunsAreSafe(steps: seq<Step>)
    ensures Safe(Run(NEW_MANAGER, steps), id => Given(NEW_MANAGER, steps, id))
  {
    if steps != [] {
      var before, last := steps[..|steps| - 1], steps[|steps| - 1];
      RunsAreSafe(before);
      StepIsSafe(Run(NEW_MANAGER, before), last, id => Given(NEW_MANAGER, before, id));
    }
  }

  /** Closing forgets the configured status: once reopened, an agent stays silent until it is configured again. */
  lemma ReopeningIsSilent(m: Manager, id: string, given: seq<DataUnit>)
    requires m.isOpen && id in m.agents && AgentSafe(m.agents[id], true, given)
    ensures var closed, reopened := Closed(m), Opened(Closed(m));
            && id in reopened.agents && Inactive(reopened.agents[id])
            && reopened.agents[id].wire == closed.agents[id].wire
            && closed.agents[id].wire == m.agents[id].wire + if m.agents[id].activeTransmit then [Shutdown(ShutdownFrame(m.agents[id]))] else []
  {
    StopIsInactive(m.agents[id], given);
  }

  // ---------- What was current when a frame was sent ----------

  /** A frame of this unit, or the shutdown frame with its identifiers. */
  ghost predicate IsCurrent(s: Sent, device: Device, unit: DataUnit) {
    s.frame == Frame(device.destinationMac, device.sourceMac,
                     if s.Configured? then unit else ShutdownDataUnit(unit.chassisId, unit.portId))
  }

  /** The wire has grown by frames of this unit. */
  ghost predicate Grows(before: seq<Sent>, after: seq<Sent>, device: Device, unit: DataUnit) {
    before <= after && forall i | |before| <= i < |after| :: IsCurrent(after[i], device, unit)
  }

  lemma ActivateGrows(a: Agent)
    ensures Grows(a.wire, Activate(a).wire, a.device, a.unit) && Activate(a).unit == a.unit
  {
  }

  ghost function Wire(m: Manager, id: string): seq<Sent> {
    if id in m.agents then m.agents[id].wire else []
  }

  /** What a step makes an agent send is of the data the agent has after the step. */
  lemma StepSendsCurrent(m: Manager, step: Step, id: string)
    requires id in Apply(m, step).agents && (id in m.agents ==> SendsCurrent(m.agents[id]))
    ensures var b := Apply(m, step).agents[id]; Grows(Wire(m, id), b.wire, b.device, b.unit)
  {
    StepKeepsDevice(m, step, id);
    match step
    case Open => ActivateGrows(m.agents[id]);
    case Close => ActivateGrows(ConfigureStatus(m.agents[id], Unmanaged));
    case Configure(at, status, data, device) =>
      if at == id {
        var a := if id in m.agents then m.agents[id] else NewAgent(device.value);
        ActivateGrows(ConfigureStatus(a, status).(unit := data));
      }
    case TimerTick(at, task) =>
      if at == id {
        TickGrows(m.agents[id], task);
      }
  }

  lemma TickGrows(a: Agent, task: nat)
    requires SendsCurrent(a)
    ensures Grows(a.wire, Tick(a, task).wire, a.device, a.unit)
  {
    if task < |a.tasks| {
      assert a.tasks[task] in a.tasks;
    }
  }

  /** After these steps, `step` sends the i-th frame of a wire, which is `sent`, of the data unit last given to the
      agent up to and including that step. */
  ghost predicate Sends(before: seq<Step>, step: Step, id: string, i: nat, sent: Sent, device: Device) {
    var given := Given(NEW_MANAGER, before + [step], id);
    && |Wire(Run(NEW_MANAGER, before), id)| <= i < |Wire(Run(NEW_MANAGER, before + [step]), id)|
    && given != [] && IsCurrent(sent, device, given[|given| - 1])
  }

  lemma RunIsCurrent(steps: seq<Step>, id: string)
    requires id in Run(NEW_MANAGER, steps).agents
    ensures var (a, given) := (Run(NEW_MANAGER, steps).agents[id], Given(NEW_MANAGER, steps, id));
            SendsCurrent(a) && given != [] && a.unit == given[|given| - 1]
  {
    AgentIsSafe(steps, id);
    SafeIsCurrent(Run(NEW_MANAGER, steps).agents[id], Run(NEW_MANAGER, steps).isOpen, Given(NEW_MANAGER, steps, id));
  }

  lemma AgentIsSafe(steps: seq<Step>, id: string)
    requires id in Run(NEW_MANAGER, steps).agents
    ensures AgentSafe(Run(NEW_MANAGER, steps).agents[id], Run(NEW_MANAGER, steps).isOpen, Given(NEW_MANAGER, steps, id))
  {
    RunsAreSafe(steps);
  }

  lemma SafeIsCurrent(a: Agent, open: bool, given: seq<DataUnit>)
    requires AgentSafe(a, open, given)
    ensures SendsCurrent(a) && given != [] && a.unit == given[|given| - 1]
  {
  }

  lemma RunLastStep(front: seq<Step>, last: Step)
    ensures Run(NEW_MANAGER, front + [last]) == Apply(Run(NEW_MANAGER, front), last)
  {
    assert (front + [last])[..|front|] == front;
  }

  lemma LastStepSends(front: seq<Step>, last: Step, id: string)
    requires id in Run(NEW_MANAGER, front + [last]).agents
    ensures var (m, a) := (Run(NEW_MANAGER, front), Run(NEW_MANAGER, front + [last]).agents[id]);
            Grows(Wire(m, id), a.wire, a.device, a.unit) && (id in m.agents ==> m.agents[id].device == a.device)
  {
    RunLastStep(front, last);
    if id in Run(NEW_MANAGER, front).agents {
      RunIsCurrent(front, id);
    }
    StepSendsCurrent(Run(NEW_MANAGER, front), last, id);
    StepKeepsDevice(Run(NEW_MANAGER, front), last, id);
  }

  lemma AgentsStay(m: Manager, step: Step, id: string)
    requires id in m.agents
    ensures id in Apply(m, step).agents
  {
  }

  /** An earlier frame is still the one that was sent. */
  lemma EarlierFrame(front: seq<Step>, last: Step, id: string, i: nat)
    requires i < |Wire(Run(NEW_MANAGER, front), id)|
    ensures var (m, n) := (Run(NEW_MANAGER, front), Run(NEW_MANAGER, front + [last]));
            && id in m.agents && id in n.agents && m.agents[id].device == n.agents[id].device
            && i < |Wire(n, id)| && Wire(m, id)[i] == Wire(n, id)[i]
  {
    RunLastStep(front, last);
    AgentsStay(Run(NEW_MANAGER, front), last, id);
    LastStepSends(front, last, id);
  }

  lemma NewFrame(front: seq<Step>, last: Step, id: string, i: nat)
    requires |Wire(Run(NEW_MANAGER, front), id)| <= i < |Wire(Run(NEW_MANAGER, front + [last]), id)|
    ensures var m := Run(NEW_MANAGER, front + [last]);
            Sends(front, last, id, i, Wire(m, id)[i], m.agents[id].device)
  {
    LastStepSends(front, last, id);
    RunIsCurrent(front + [last], id);
  }

  /** In every run, each configured frame on a wire carries the data unit that was configured last when it was sent,
      and each shutdown frame the identifiers of that unit. */
  lemma {:induction false} FramesAreCurrent(steps: seq<Step>, id: string, i: nat)
    requires i < |Wire(Run(NEW_MANAGER, steps), id)|
    ensures var m := Run(NEW_MANAGER, steps);
            exists k | 0 <= k < |steps| :: Sends(steps[..k], steps[k], id, i, Wire(m, id)[i], m.agents[id].device)
    decreases |steps|
  {
    if steps != [] {
      var n := |steps| - 1;
      var front, m := steps[..n], Run(NEW_MANAGER, steps);
      InitLast(steps);
      if i < |Wire(Run(NEW_MANAGER, front), id)| {
        EarlierFrame(front, steps[n], id, i);
        FramesAreCurrent(front, id, i);
        var k :| 0 <= k < n && Sends(front[..k], front[k], id, i, Wire(m, id)[i], m.agents[id].device);
        assert front[..k] == steps[..k] && front[k] == steps[k];
      } else {
        NewFrame(front, steps[n], id, i);
      }
    }
  }

  // ---------- The frames ----------

  /** A shutdown frame on the wire reads as time to live 0 with the identifiers of the data configured last. */
  lemma ShutdownFrameDecodes(a: Agent, trailing: Bytes)
    requires |a.device.destinationMac| == MAC_SIZE && |a.device.sourceMac| == MAC_SIZE
    requires WellFormedChassisId(a.unit.chassisId) && WellFormedPortId(a.unit.portId)
    ensures var r := ParseFrame(EncodeFrame(ShutdownFrame(a)) + trailing);
            && r == Ok(ShutdownFrame(a)) && r.value.dataUnit.timeToLive == 0
            && r.value.dataUnit.chassisId == a.unit.chassisId && r.value.dataUnit.portId == a.unit.portId
  {
    FrameRoundTrip(ShutdownFrame(a), trailing);
  }

  ghost predicate HasMacs(device: Device) {
    |device.destinationMac| == MAC_SIZE && |device.sourceMac| == MAC_SIZE
  }

  /** The data configured can be encoded, and opening an interface finds MAC addresses. */
  ghost predicate Encodable(steps: seq<Step>) {
    forall s <- steps :: s.Configure? ==> WellFormedUnit(s.data) && (s.device.Some? ==> HasMacs(s.device.value))
  }

  lemma ActivateKeepsDevice(a: Agent)
    ensures Activate(a).device == a.device
  {
  }

  /** An agent keeps the addresses it was added with. */
  lemma StepKeepsDevice(m: Manager, step: Step, id: string)
    requires id in Apply(m, step).agents
    ensures id !in m.agents ==> step.Configure? && step.device.Some?
    ensures Apply(m, step).agents[id].device == if id in m.agents then m.agents[id].device else step.device.value
  {
    match step
    case Open => ActivateKeepsDevice(m.agents[id]);
    case Close => ActivateKeepsDevice(ConfigureStatus(m.agents[id], Unmanaged));
    case Configure(at, status, data, device) =>
      if at == id {
        var a := if id in m.agents then m.agents[id] else NewAgent(device.value);
        ActivateKeepsDevice(ConfigureStatus(a, status).(unit := data));
      }
    case TimerTick(_, _) =>
  }

  lemma {:induction false} EncodableRun(steps: seq<Step>, id: string)
    requires Encodable(steps)
    ensures forall u <- Given(NEW_MANAGER, steps, id) :: WellFormedUnit(u)
    ensures var m := Run(NEW_MANAGER, steps); id in m.agents ==> HasMacs(m.agents[id].device)
  {
    if steps != [] {
      var before, last := steps[..|steps| - 1], steps[|steps| - 1];
      EncodableRun(before, id);
      assert last in steps;
      if id in Run(NEW_MANAGER, steps).agents {
        StepKeepsDevice(Run(NEW_MANAGER, before), last, id);
      }
    }
  }

  /** In every run with such data, a receiver decodes whatever is on a wire to the frame that was sent, and the one
      that ends a period to time to live 0. */
  lemma WireDecodes(steps: seq<Step>, id: string, trailing: Bytes)
    requires Encodable(steps) && id in Run(NEW_MANAGER, steps).agents
    ensures forall s <- Run(NEW_MANAGER, steps).agents[id].wire ::
              && ParseFrame(EncodeFrame(s.frame) + trailing) == Ok(s.frame)
              && (s.Shutdown? ==> s.frame.dataUnit.timeToLive == 0)
  {
    var a, given := Run(NEW_MANAGER, steps).agents[id], Given(NEW_MANAGER, steps, id);
    RunsAreSafe(steps);
    EncodableRun(steps, id);
    forall s <- a.wire
      ensures ParseFrame(EncodeFrame(s.frame) + trailing) == Ok(s.frame)
      ensures s.Shutdown? ==> s.frame.dataUnit.timeToLive == 0
    {
      GenuineIsWellFormed(s, a.device, given);
      FrameRoundTrip(s.frame, trailing);
    }
  }

  lemma GenuineIsWellFormed(s: Sent, device: Device, given: seq<DataUnit>)
    requires Genuine(s, device, given) && HasMacs(device) && forall u <- given :: WellFormedUnit(u)
    ensures WellFormedFrame(s.frame) && (s.Shutdown? ==> s.frame.dataUnit.timeToLive == 0)
  {
  }

  /** On the wire, a configured frame can be taken for a shutdown frame exactly when its data carries no options and
      the low sixteen bits of its time to live, which are all that is sent, are zero. */
  lemma ConfiguredLooksLikeShutdown(a: Agent)
    ensures EncodeFrame(ConfiguredFrame(a)) == EncodeFrame(ShutdownFrame(a)) <==>
            a.unit.(timeToLive := 0) == ShutdownDataUnit(a.unit.chassisId, a.unit.portId) && a.unit.timeToLive % 0x1_0000 == 0
  {
    EncodedAsShutdownIff(a.unit);
    var header := a.device.destinationMac + a.device.sourceMac + [LLDP_ETHER_TYPE / 0x100, LLDP_ETHER_TYPE % 0x100];
    var shutdown := ShutdownDataUnit(a.unit.chassisId, a.unit.portId);
    assert EncodeFrame(ConfiguredFrame(a)) == header + EncodeDataUnit(a.unit);
    assert EncodeFrame(ShutdownFrame(a)) == header + EncodeDataUnit(shutdown);
    SplitsAt(header, EncodeDataUnit(a.unit), header, EncodeDataUnit(shutdown));
  }

  /** A time to live of 65536 seconds, which can be configured, is sent as 0. */
  lemma LongTimeToLiveLooksLikeShutdown(device: Device, chassisId: ChassisId, portId: PortId)
    ensures var a := NewAgent(device).(unit := ShutdownDataUnit(chassisId, portId).(timeToLive := 0x1_0000));
            a.unit != ShutdownDataUnit(chassisId, portId) && EncodeFrame(ConfiguredFrame(a)) == EncodeFrame(ShutdownFrame(a))
  {
    ConfiguredLooksLikeShutdown(NewAgent(device).(unit := ShutdownDataUnit(chassisId, portId).(timeToLive := 0x1_0000)));
  }
}
