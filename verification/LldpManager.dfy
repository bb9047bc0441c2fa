/** The LLDP manager and its agents (lldp_manager_impl.cpp). The functions on states specify the steps; the
    classes are the original's objects, each method proved to make its step. Cancelling a transmit task and
    waiting for it is one action, and a timer tick is a step a live task may take at any time. What is sent is
    kept as a record of the wire, each frame standing for its encoding. */
module LldpManager {
  import opened Results
  import opened Lldp
  import opened LldpFrame

  datatype Status = Unmanaged | Transmit | Receive | TransmitReceive {
    predicate Transmits() {
      Transmit? || TransmitReceive?
    }

    predicate Receives() {
      Receive? || TransmitReceive?
    }
  }

  /** What goes out: a frame of configured data, or the one that ends a transmitting period. */
  datatype Sent = Configured(frame: Frame) | Shutdown(frame: Frame)

  /** The MAC addresses found when an interface's device is opened. */
  datatype Device = Device(destinationMac: Bytes, sourceMac: Bytes)

  // ---------- An agent ----------

  /** `tasks` holds the frames of the transmit tasks still alive; the last one is the one the agent can cancel. */
  datatype Agent = Agent(
    device: Device,
    configTransmit: bool,
    configReceive: bool,
    activeTransmit: bool,
    activeReceive: bool,
    unit: DataUnit,
    tasks: seq<Frame>,
    receiving: bool,
    wire: seq<Sent>)

  function NewAgent(device: Device): Agent {
    Agent(device, false, false, false, false, EMPTY_DATA_UNIT, [], false, [])
  }

  function ConfiguredFrame(a: Agent): Frame {
    Frame(a.device.destinationMac, a.device.sourceMac, a.unit)
  }

  function ShutdownFrame(a: Agent): Frame {
    Frame(a.device.destinationMac, a.device.sourceMac, ShutdownDataUnit(a.unit.chassisId, a.unit.portId))
  }

  function ConfigureStatus(a: Agent, status: Status): Agent {
    a.(configTransmit := status.Transmits(), configReceive := status.Receives())
  }

  function CancelTask(a: Agent): Agent {
    if a.tasks == [] then a else a.(tasks := a.tasks[..|a.tasks| - 1])
  }

  function StartTransmit(a: Agent): Agent {
    var b := if a.activeTransmit then CancelTask(a) else a;
    var frame := ConfiguredFrame(a);
    b.(wire := b.wire + [Configured(frame)], tasks := b.tasks + [frame], activeTransmit := true)
  }

  function StopTransmit(a: Agent): Agent {
    var b := CancelTask(a);
    b.(wire := b.wire + [Shutdown(ShutdownFrame(a))], activeTransmit := false)
  }

  function Activate(a: Agent): Agent {
    var b := if a.configTransmit then StartTransmit(a) else if a.activeTransmit then StopTransmit(a) else a;
    if b.configReceive && !b.activeReceive then b.(receiving := true, activeReceive := true)
    else if !b.configReceive && b.activeReceive then b.(receiving := false, activeReceive := false)
    else b
  }

  /** A live task's timer fires. */
  function Tick(a: Agent, task: nat): Agent {
    if task < |a.tasks| then a.(wire := a.wire + [Configured(a.tasks[task])]) else a
  }

  class LldpAgent {
    const device: Device
    var configTransmit: bool
    var configReceive: bool
    var activeTransmit: bool
    var activeReceive: bool
    var transmitUnit: DataUnit
    var tasks: seq<Frame>
    var receiving: bool
    var wire: seq<Sent>

    ghost function State(): Agent
      reads this
    {
      Agent(device, configTransmit, configReceive, activeTransmit, activeReceive, transmitUnit, tasks, receiving, wire)
    }

    constructor (device: Device)
      ensures State() == NewAgent(device)
    {
      this.device := device;
      configTransmit, configReceive := false, false;
      activeTransmit, activeReceive := false, false;
      transmitUnit := EMPTY_DATA_UNIT;
      tasks, receiving, wire := [], false, [];
    }

    method SetStatus(status: Status)
      modifies this
      ensures State() == ConfigureStatus(old(State()), status)
    {
      configTransmit := status.Transmits();
      configReceive := status.Receives();
    }

    method SetData(data: DataUnit)
      modifies this
      ensures State() == old(State()).(unit := data)
    {
      transmitUnit := data;
    }

    method ActivateConfiguration()
      modifies this
      ensures State() == Activate(old(State()))
    {
      if configTransmit {
        StartTransmitting();
      } else if !configTransmit && activeTransmit {
        StopTransmitting();
      }
      if configReceive && !activeReceive {
        StartReceiving();
      } else if !configReceive && activeReceive {
        StopReceiving();
      }
    }

    method CancelAndWait()
      modifies this`tasks
      ensures State() == CancelTask(old(State()))
    {
      if tasks != [] {
        tasks := tasks[..|tasks| - 1];
      }
    }

    method StartTransmitting()
      modifies this
      ensures State() == StartTransmit(old(State()))
    {
      if activeTransmit {
        CancelAndWait();
      }
      var frame := Frame(device.destinationMac, device.sourceMac, transmitUnit);
      wire := wire + [Configured(frame)];
      tasks := tasks + [frame];
      activeTransmit := true;
    }

    method StopTransmitting()
      modifies this
      ensures State() == StopTransmit(old(State()))
    {
      CancelAndWait();
      var frame := Frame(device.destinationMac, device.sourceMac, ShutdownDataUnit(transmitUnit.chassisId, transmitUnit.portId));
      wire := wire + [Shutdown(frame)];
      activeTransmit := false;
    }

    method StartReceiving()
      modifies this`receiving, this`activeReceive
      ensures receiving && activeReceive
    {
      if !receiving {
        receiving := true;
      }
      activeReceive := true;
    }

    method StopReceiving()
      modifies this`receiving, this`activeReceive
      ensures !receiving && !activeReceive
    {
      if receiving {
        receiving := false;
      }
      activeReceive := false;
    }

    method FireTimer(task: nat)
      requires task < |tasks|
      modifies this`wire
      ensures State() == Tick(old(State()), task)
    {
      wire := wire + [Configured(tasks[task])];
    }
  }

  // ---------- The manager ----------

  datatype Manager = Manager(isOpen: bool, agents: map<string, Agent>)

  const NEW_MANAGER := Manager(false, map[])

  function Opened(m: Manager): Manager {
    if m.isOpen then m else Manager(true, map id | id in m.agents :: Activate(m.agents[id]))
  }

  function Closed(m: Manager): Manager {
    if !m.isOpen then m
    else Manager(false, map id | id in m.agents :: Stop(m.agents[id]))
  }

  function Stop(a: Agent): Agent {
    Activate(ConfigureStatus(a, Unmanaged))
  }

  /** `device` is what opening the interface yields, if there is such an interface and it can be opened. */
  function ConfiguredInterface(m: Manager, id: string, status: Status, data: DataUnit, device: Option<Device>): (Manager, bool) {
    if id !in m.agents && device == None then (m, false)
    else
      var a := if id in m.agents then m.agents[id] else NewAgent(device.value);
      (m.(agents := m.agents[id := Reconfigured(a, status, data, m.isOpen)]), true)
  }

  function Reconfigured(a: Agent, status: Status, data: DataUnit, activate: bool): Agent {
    var b := ConfigureStatus(a, status).(unit := data);
    if activate then Activate(b) else b
  }

  function Ticked(m: Manager, id: string, task: nat): Manager {
    if id in m.agents then m.(agents := m.agents[id := Tick(m.agents[id], task)]) else m
  }

  /** All agents are as before but those no longer left, which are as they are to be. */
  ghost predicate Halfway(now: map<string, Agent>, left: set<string>, before: map<string, Agent>, after: map<string, Agent>) {
    && now.Keys == before.Keys == after.Keys
    && forall id | id in now :: now[id] == if id in left then before[id] else after[id]
  }

  lemma HalfwayStep(now: map<string, Agent>, left: set<string>, before: map<string, Agent>, after: map<string, Agent>, id: string)
    requires Halfway(now, left, before, after) && id in now
    ensures Halfway(now[id := after[id]], left - {id}, before, after)
  {
  }

  lemma HalfwayDone(now: map<string, Agent>, before: map<string, Agent>, after: map<string, Agent>)
    requires Halfway(now, {}, before, after)
    ensures now == after
  {
  }

  class LldpManager {
    var isOpen: bool
    var agents: map<string, LldpAgent>

    /** No two interfaces share an agent. */
    ghost predicate Valid()
      reads this
    {
      forall i, j | i in agents && j in agents && i != j :: agents[i] != agents[j]
    }

    ghost function Agents(): map<string, Agent>
      reads this`agents, agents.Values
    {
      map id | id in agents :: agents[id].State()
    }

    ghost function State(): Manager
      reads this, agents.Values
    {
      Manager(isOpen, Agents())
    }

    constructor ()
      ensures Valid() && State() == NEW_MANAGER && fresh(agents.Values)
    {
      isOpen := false;
      agents := map[];
    }

    method Open()
      requires Valid()
      modifies this`isOpen, agents.Values
      ensures Valid() && agents == old(agents) && State() == Opened(old(State()))
    {
      if !isOpen {
        isOpen := true;
        ActivateAll(Opened(old(State())).agents);
      }
    }

    method Close()
      requires Valid()
      modifies this`isOpen, agents.Values
      ensures Valid() && agents == old(agents) && State() == Closed(old(State()))
    {
      if isOpen {
        ghost var after := Closed(State()).agents;
        StopAll(after);
        isOpen := false;
        assert Agents() == after;
      }
    }

    /** Only this interface's agent has changed. */
    twostate lemma OneChanged(id: string)
      requires agents == old(agents) && id in agents
      requires forall other | other in agents && other != id :: unchanged(agents[other])
      ensures Agents() == old(Agents())[id := agents[id].State()]
    {
    }

    twostate lemma OneAdded(id: string)
      requires id !in old(agents) && id in agents && agents == old(agents)[id := agents[id]]
      requires forall other | other in old(agents) :: unchanged(old(agents)[other])
      ensures Agents() == old(Agents())[id := agents[id].State()]
    {
    }

    method ActivateOne(id: string)
      requires Valid() && id in agents
      modifies agents[id]
      ensures Agents() == old(Agents())[id := Activate(old(Agents())[id])]
    {
      agents[id].ActivateConfiguration();
      OneChanged(id);
    }

    method ActivateAll(ghost after: map<string, Agent>)
      requires Valid() && after.Keys == agents.Keys && forall id | id in agents :: after[id] == Activate(Agents()[id])
      modifies agents.Values
      ensures Agents() == after
    {
      ghost var before := Agents();
      var left := agents.Keys;
      while left != {}
        invariant left <= agents.Keys && Halfway(Agents(), left, before, after)
        decreases left
      {
        var id :| id in left;
        HalfwayStep(Agents(), left, before, after, id);
        ActivateOne(id);
        left := left - {id};
      }
      HalfwayDone(Agents(), before, after);
    }

    method StopOne(id: string)
      requires Valid() && id in agents
      modifies agents[id]
      ensures Agents() == old(Agents())[id := Stop(old(Agents())[id])]
    {
      StopAgent(agents[id]);
      OneChanged(id);
    }

    method StopAll(ghost after: map<string, Agent>)
      requires Valid() && after.Keys == agents.Keys && forall id | id in agents :: after[id] == Stop(Agents()[id])
      modifies agents.Values
      ensures Agents() == after
    {
      ghost var before := Agents();
      var left := agents.Keys;
      while left != {}
        invariant left <= agents.Keys && Halfway(Agents(), left, before, after)
        decreases left
      {
        var id :| id in left;
        HalfwayStep(Agents(), left, before, after, id);
        StopOne(id);
        left := left - {id};
      }
      HalfwayDone(Agents(), before, after);
    }

    static method StopAgent(agent: LldpAgent)
      modifies agent
      ensures agent.State() == Stop(old(agent.State()))
    {
      agent.SetStatus(Unmanaged);
      agent.ActivateConfiguration();
    }

    static method Configure(agent: LldpAgent, status: Status, data: DataUnit, activate: bool)
      modifies agent
      ensures agent.State() == Reconfigured(old(agent.State()), status, data, activate)
    {
      agent.SetStatus(status);
      agent.SetData(data);
      if activate {
        agent.ActivateConfiguration();
      }
    }

    method AddAgent(id: string, device: Device)
      requires Valid() && id !in agents
      modifies this`agents
      ensures Valid() && id in agents && agents == old(agents)[id := agents[id]] && fresh(agents[id])
      ensures Agents() == old(Agents())[id := NewAgent(device)]
    {
      var created := new LldpAgent(device);
      agents := agents[id := created];
      OneAdded(id);
    }

    /** Reconfiguring one agent leaves the others alone. */
    method ConfigureAgent(id: string, status: Status, data: DataUnit)
      requires Valid() && id in agents
      modifies agents[id]
      ensures Agents() == old(Agents())[id := Reconfigured(old(Agents())[id], status, data, isOpen)]
    {
      Configure(agents[id], status, data, isOpen);
      OneChanged(id);
    }

    method AddConfigured(id: string, status: Status, data: DataUnit, device: Device)
      requires Valid() && id !in agents
      modifies this`agents
      ensures Valid() && id in agents && agents == old(agents)[id := agents[id]] && fresh(agents[id])
      ensures Agents() == old(Agents())[id := Reconfigured(NewAgent(device), status, data, isOpen)]
    {
      AddAgent(id, device);
      ConfigureAgent(id, status, data);
    }

    method ConfigureInterface(id: string, status: Status, data: DataUnit, device: Option<Device>) returns (ok: bool)
      requires Valid()
      modifies this`agents, agents.Values
      ensures Valid() && State() == ConfiguredInterface(old(State()), id, status, data, device).0
      ensures ok == ConfiguredInterface(old(State()), id, status, data, device).1
      ensures agents == old(agents) || (id in agents && fresh(agents[id]) && agents == old(agents)[id := agents[id]])
    {
      if id in agents {
        ConfigureAgent(id, status, data);
        ok := true;
      } else if device == None {
        ok := false;
      } else {
        AddConfigured(id, status, data, device.value);
        ok := true;
      }
    }
  }
}
