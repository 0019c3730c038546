/** The calls that the runs are made of are the calls of the manager. */
module Calls {
  import opened Results
  import opened Slots
  import opened Tables
  import opened Manager
  import opened Invariants

  /** Whatever call is made of a manager, its tables take one step of that call. */
  method Perform(m: DeviceManager, c: Call)
    requires m.Valid() && (c.op.SetTemplate? ==> FromPoolTable(c.op.pools))
    modifies m
    ensures m.Valid() && Step(old(m.View()), c, m.View())
  {
    ghost var s := m.View();
    match c.op {
      case Assign(u, session, ext, info, now) =>
        var r := m.AssignDeviceSlot(u, session, ext, info, now, c.faults);
      case Create(u, keysValid, texts) =>
        var r := m.CreateDevice(u, keysValid, texts, c.faults);
      case Delete(id) =>
        var r := m.DeleteDevice(id, c.faults);
      case ResyncTemplate(u) =>
        var r := m.ResyncDevices(u, c.faults);
      case SetTemplate(u, pools) =>
        var r := m.SetDeviceTemplate(u, pools, c.faults);
      case ExpireSessions(threshold) =>
        var r := m.InvalidateOldDevicesSessions(threshold, c.faults);
        assert ClearStep(s, Matching(s, c.op), m.View(), r.Ok?);
      case ClearDeviceSession(id) =>
        var r := m.DeleteDeviceSession(id, c.faults);
        assert ClearStep(s, Matching(s, c.op), m.View(), r.Ok?);
      case ClearUserSessions(u) =>
        var r := m.DeleteUserDeviceSessions(u, c.faults);
        assert ClearStep(s, Matching(s, c.op), m.View(), r.Ok?);
      case ClearCertSessions =>
        var r := m.DeleteSessionsOfAllUsersWithCertMFA(c.faults);
        assert ClearStep(s, Matching(s, c.op), m.View(), r.Ok?);
      case EnforceLimit =>
        var r := m.EnforceDPULimit(c.faults);
    }
  }
}
