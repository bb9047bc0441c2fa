/** What the manager's calls make of an interface, in terms of the calls alone: whether the manager is open, the status
    asked for last, whether the agent transmits and receives by it, and what each call sends. */
module LldpManagerLaws {
  import opened Results
  import opened Lldp
  import opened LldpFrame
  import opened LldpManager
  import opened LldpManagerProofs

  // ---------- What the calls say ----------

  /** After these calls: opened last, or closed last, or never opened. */
  ghost predicate LeftOpen(steps: seq<Step>) {
    steps != [] && (steps[|steps| - 1].Open? || (!steps[|steps| - 1].Close? && LeftOpen(steps[..|steps| - 1])))
  }

  /** The interface has an agent once a configuration has found its device. */
  ghost predicate HasAgent(steps: seq<Step>, id: string) {
    exists i | 0 <= i < |steps| :: steps[i].Configure? && steps[i].id == id && steps[i].device.Some?
  }

  /** The status asked for last by a configuration that could succeed; closing an open manager asks for none. */
  ghost function AskedFor(steps: seq<Step>, id: string): Status {
    if steps == [] then Unmanaged
    else
      var before, last := steps[..|steps| - 1], steps[|steps| - 1];
      if last.Close? && LeftOpen(before) then Unmanaged
      else if last.Configure? && last.id == id && (last.device.Some? || HasAgent(before, id)) then last.status
      else AskedFor(before, id)
  }

  // ---------- What the calls do ----------

  lemma {:induction false} OpenAsLeft(steps: seq<Step>)
    ensures Run(NEW_MANAGER, steps).isOpen <==> LeftOpen(steps)
  {
    if steps != [] {
      OpenAsLeft(steps[..|steps| - 1]);
    }
  }

  lemma {:induction false} AgentsAsFound(steps: seq<Step>, id: string)
    ensures id in Run(NEW_MANAGER, steps).agents <==> HasAgent(steps, id)
  {
    if steps != [] {
      var n := |steps| - 1;
      AgentsAsFound(steps[..n], id);
      assert HasAgent(steps[..n], id) ==> HasAgent(steps, id) by {
        if HasAgent(steps[..n], id) {
          var i :| 0 <= i < n && steps[..n][i].Configure? && steps[..n][i].id == id && steps[..n][i].device.Some?;
          assert steps[i] == steps[..n][i];
        }
      }
      assert HasAgent(steps, id) ==> HasAgent(steps[..n], id) || (steps[n].Configure? && steps[n].id == id && steps[n].device.Some?) by {
        if HasAgent(steps, id) {
          var i :| 0 <= i < |steps| && steps[i].Configure? && steps[i].id == id && steps[i].device.Some?;
          assert i < n ==> steps[..n][i] == steps[i];
        }
      }
    }
  }

  /** The configured flags are those of this status, in its own terms. */
  ghost predicate IsConfiguredFor(a: Agent, status: Status) {
    && (a.configTransmit <==> status == Transmit || status == TransmitReceive)
    && (a.configReceive <==> status == Receive || status == TransmitReceive)
  }

  lemma ConfiguredFor(a: Agent, status: Status)
    ensures IsConfiguredFor(ConfigureStatus(a, status), status)
  {
  }

  lemma ActivatingKeepsConfigured(a: Agent)
    ensures Activate(a).configTransmit == a.configTransmit && Activate(a).configReceive == a.configReceive
  {
  }

  lemma {:induction false} ConfiguredAsAsked(steps: seq<Step>, id: string)
    requires id in Run(NEW_MANAGER, steps).agents
    ensures IsConfiguredFor(Run(NEW_MANAGER, steps).agents[id], AskedFor(steps, id))
  {
    if steps != [] {
      var n := |steps| - 1;
      var m := Run(NEW_MANAGER, steps[..n]);
      OpenAsLeft(steps[..n]);
      AgentsAsFound(steps[..n], id);
      if id in m.agents {
        ConfiguredAsAsked(steps[..n], id);
      }
      StepConfigures(m, steps[n], id, AskedFor(steps[..n], id));
    }
  }

  lemma StepConfigures(m: Manager, step: Step, id: string, asked: Status)
    requires id in Apply(m, step).agents && (id in m.agents ==> IsConfiguredFor(m.agents[id], asked))
    ensures IsConfiguredFor(Apply(m, step).agents[id],
                            if step.Close? && m.isOpen then Unmanaged
                            else if Configures(m, step, id) then step.status
                            else asked)
  {
    match step
    case Open => ActivatingKeepsConfigured(m.agents[id]);
    case Close =>
      ConfiguredFor(m.agents[id], Unmanaged);
      ActivatingKeepsConfigured(ConfigureStatus(m.agents[id], Unmanaged));
    case Configure(at, status, data, device) =>
      if at == id {
        var a := if id in m.agents then m.agents[id] else NewAgent(device.value);
        ConfiguredFor(a, status);
        ActivatingKeepsConfigured(ConfigureStatus(a, status).(unit := data));
      }
    case TimerTick(_, _) =>
  }

  /** In every run, an interface transmits, and receives, exactly if the manager was left open and the status asked for
      last says so; closing an open manager takes back what was asked for before. */
  lemma ActiveAsAsked(steps: seq<Step>, id: string)
    ensures var m, asked := Run(NEW_MANAGER, steps), AskedFor(steps, id);
            && (id in m.agents <==> HasAgent(steps, id))
            && (id in m.agents ==>
                  && (m.agents[id].activeTransmit <==> LeftOpen(steps) && (asked == Transmit || asked == TransmitReceive))
                  && (m.agents[id].activeReceive <==> LeftOpen(steps) && (asked == Receive || asked == TransmitReceive)))
  {
    AgentsAsFound(steps, id);
    if id in Run(NEW_MANAGER, steps).agents {
      OpenAsLeft(steps);
      ConfiguredAsAsked(steps, id);
      AgentIsSafe(steps, id);
    }
  }

  // ---------- What the calls send ----------

  ghost function FrameOf(device: Device, unit: DataUnit): Frame {
    Frame(device.destinationMac, device.sourceMac, unit)
  }

  /** The frame that ends a period. */
  ghost function LastFrameOf(device: Device, unit: DataUnit): Frame {
    FrameOf(device, DataUnit(unit.chassisId, unit.portId, 0, [], [], [], SystemCapabilities(1, 1), []))
  }

  lemma ActivatingSends(a: Agent)
    ensures Activate(a).wire == a.wire +
            if a.configTransmit then [Configured(FrameOf(a.device, a.unit))]
            else if a.activeTransmit then [Shutdown(LastFrameOf(a.device, a.unit))]
            else []
  {
  }

  /** Each successful configuration with a transmitting status sends exactly one frame of its data, at once, if the
      manager is open, whether or not the interface was transmitting already; with another status it sends the frame
      that ends the period, if the interface was transmitting. Nothing is sent while closed, nor on other interfaces. */
  lemma ConfiguringSends(m: Manager, id: string, status: Status, data: DataUnit, device: Option<Device>, other: string)
    requires ConfiguredInterface(m, id, status, data, device).1
    ensures var n := ConfiguredInterface(m, id, status, data, device).0;
            && id in n.agents
            && Wire(n, id) == Wire(m, id) + (
                 if !m.isOpen then []
                 else if status == Transmit || status == TransmitReceive then [Configured(FrameOf(n.agents[id].device, data))]
                 else if id in m.agents && m.agents[id].activeTransmit then [Shutdown(LastFrameOf(n.agents[id].device, data))]
                 else [])
            && (other != id ==> Wire(n, other) == Wire(m, other))
  {
    var a := if id in m.agents then m.agents[id] else NewAgent(device.value);
    var b := ConfigureStatus(a, status).(unit := data);
    ConfiguredFor(a, status);
    ActivatingSends(b);
    ActivateKeepsDevice(b);
    assert Wire(m, id) == a.wire;
    assert Wire(m, id) + [] == Wire(m, id);
  }

  /** Opening sends one frame on each interface that is to transmit, and closing one that ends the period on each that
      does. */
  lemma OpeningAndClosingSend(m: Manager, id: string)
    requires id in m.agents
    ensures var a := m.agents[id];
            && Wire(Opened(m), id) == a.wire + (
                 if m.isOpen then []
                 else if a.configTransmit then [Configured(FrameOf(a.device, a.unit))]
                 else if a.activeTransmit then [Shutdown(LastFrameOf(a.device, a.unit))]
                 else [])
            && Wire(Closed(m), id) == a.wire + if m.isOpen && a.activeTransmit then [Shutdown(LastFrameOf(a.device, a.unit))] else []
  {
    var a := m.agents[id];
    ActivatingSends(a);
    ActivatingSends(ConfigureStatus(a, Unmanaged));
    ConfiguredFor(a, Unmanaged);
    assert a.wire + [] == a.wire;
  }

  /** A timer has something to send exactly while the interface is transmitting, and then sends the current frame. */
  lemma TickingSends(steps: seq<Step>, id: string, task: nat)
    requires id in Run(NEW_MANAGER, steps).agents
    ensures var m := Run(NEW_MANAGER, steps);
            var a := m.agents[id];
            Wire(Ticked(m, id, task), id) ==
            a.wire + if task == 0 && a.activeTransmit then [Configured(FrameOf(a.device, a.unit))] else []
  {
    var a := Run(NEW_MANAGER, steps).agents[id];
    AgentIsSafe(steps, id);
    RunIsCurrent(steps, id);
    if task < |a.tasks| {
      assert a.tasks[task] in a.tasks;
    } else {
      assert a.wire + [] == a.wire;
    }
  }
}
