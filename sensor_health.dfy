/** The smart hub's sensor health checker (`hub/core/SensorHealthChecker.kt`). Between two periodic
    updates it records which sensors sent an event; an update compares them with the sensors seen
    in the previous window and alerts about the ones that went silent. */
module SensorHealth {
  import opened Wrappers
  import opened Collections

  /** The alert an update raises given the previously active sensors and the (non-empty) window
      of events: the sensors no more active, raised whenever the previous set was non-empty and
      differs from the sensors of the window. */
  function NoMoreActive(activeSensors: set<string>, window: seq<string>): (alert: Option<set<string>>)
    ensures alert.Some? <==> activeSensors != {} && activeSensors != Elements(window)
    ensures alert.Some? ==> forall s :: s in alert.value <==> s in activeSensors && s !in window
  {
    if activeSensors != {} && activeSensors != Elements(window) then Some(activeSensors - Elements(window))
    else None
  }

  class SensorHealthChecker {
    var activeSensors: set<string>
    /** The source units of the events of the current window, in arrival order. */
    var state: seq<string>

    constructor ()
      ensures activeSensors == {} && state == []
    {
      activeSensors := {};
      state := [];
    }

    /** `react`: records the event's source unit, duplicates included. */
    method React(sourceUnit: string)
      modifies this
      ensures state == old(state) + [sourceUnit] && activeSensors == old(activeSensors)
    {
      state := state + [sourceUnit];
    }

    /** `update`: an empty window changes nothing; otherwise the alert (if any) is raised, the
        window's sensors become the active ones and the window is emptied. */
    method Update() returns (alert: Option<set<string>>)
      modifies this
      ensures old(state) == [] ==> alert.None? && state == [] && activeSensors == old(activeSensors)
      ensures old(state) != [] ==>
        && alert == NoMoreActive(old(activeSensors), old(state))
        && activeSensors == Elements(old(state))
        && state == []
    {
      alert := None;
      if state != [] {
        if activeSensors != {} && activeSensors != Elements(state) {
          alert := Some(activeSensors - Elements(state));
        }
        activeSensors := Elements(state);
        state := [];
      }
    }
  }

  /** The first update after start never alerts: no sensor was active before it. */
  lemma FirstUpdateNeverAlerts(window: seq<string>)
    ensures NoMoreActive({}, window).None?
  {
  }

  /** When sensors only appear, an alert is still raised, naming no sensor. */
  lemma NewSensorsOnlyRaiseAnEmptyAlert(activeSensors: set<string>, window: seq<string>)
    requires activeSensors != {} && activeSensors < Elements(window)
    ensures NoMoreActive(activeSensors, window) == Some({})
  {
    assert activeSensors - Elements(window) == {};
  }

  /** A sensor that was active and sent nothing in the window is named by the alert. */
  lemma SilentSensorIsReported(activeSensors: set<string>, window: seq<string>, sensor: string)
    requires sensor in activeSensors && sensor !in window
    ensures NoMoreActive(activeSensors, window).Some? && sensor in NoMoreActive(activeSensors, window).value
  {
    assert sensor !in Elements(window);
  }

  /** The same sensors as before, in any order and multiplicity, raise no alert. */
  lemma SameSensorsNoAlert(activeSensors: set<string>, window: seq<string>)
    requires Elements(window) == activeSensors
    ensures NoMoreActive(activeSensors, window).None?
  {
  }

  /** Two windows: `t1` and `t2` report, then only `t1`; the second update names `t2`. */
  method TwoWindows() returns (first: Option<set<string>>, second: Option<set<string>>)
    ensures first.None? && second == Some({"t2"})
  {
    var checker := new SensorHealthChecker();
    checker.React("t1");
    checker.React("t2");
    checker.React("t1");
    assert Elements(checker.state) == {"t1", "t2"} by {
      assert checker.state == ["t1", "t2", "t1"];
    }
    first := checker.Update();
    assert checker.activeSensors == {"t1", "t2"};
    checker.React("t1");
    assert Elements(checker.state) == {"t1"} by {
      assert checker.state == ["t1"];
    }
    assert "t1" != "t2" by {
      assert "t1"[1] != "t2"[1];
    }
    assert {"t1", "t2"} - {"t1"} == {"t2"};
    second := checker.Update();
  }
}
