/** The engine as an object that updates its fields, its day file and its status file. */
module EngineObject {
  import opened Wrappers
  import opened EngineEvents

  class EngineData {
    var state: State
    var lastMessage: int
    var totalHours: int
    var startTime: Option<int>
    var stopTime: Option<int>
    var dayEvents: seq<Event>
    var files: map<int, seq<Event>>
    var statusFile: Option<Status>
    ghost var log: seq<Event>

    constructor (t: int)
      ensures Now() == New(t)
    {
      state, lastMessage, totalHours, startTime, stopTime := OFF, t, 0, None, None;
      dayEvents, files, statusFile, log := [], map[], None, [];
    }

    ghost function Now(): Engine
      reads this
    {
      Engine(state, lastMessage, totalHours, startTime, stopTime, dayEvents, files, statusFile, log)
    }

    method SaveStatus(t: int)
      modifies this`statusFile
      ensures Now() == Save(old(Now()), t)
    {
      statusFile := Some(Status(t, state, lastMessage, totalHours, startTime, stopTime));
    }

    method AddEvent(currentState: State, t: int)
      modifies this
      ensures Now() == EngineEvents.AddEvent(old(Now()), currentState, t)
    {
      var event := Event(t, totalHours, state, currentState);
      dayEvents, log := dayEvents + [event], log + [event];
      files := files[DayOf(t) := FileOf(files, DayOf(t)) + [event]];
      state := currentState;
      SaveStatus(t);
    }

    method UpdateSpeed(speed: Option<int>, t: int)
      modifies this
      ensures Now() == EngineEvents.UpdateSpeed(old(Now()), speed, t)
      ensures state == if speed.None? || speed.value < 0 then old(state) else if speed.value > 0 then RUNNING else ON
      ensures startTime == if state == RUNNING && old(state) != RUNNING then Some(t) else old(startTime)
      ensures stopTime == if state != RUNNING && old(state) == RUNNING then Some(t) else old(stopTime)
    {
      if speed.Some? && speed.value > 0 {
        if state != RUNNING {
          AddEvent(RUNNING, t);
          startTime := Some(t);
        }
      } else if speed == Some(0) {
        if state == RUNNING {
          stopTime := Some(t);
          AddEvent(ON, t);
        } else if state == OFF {
          AddEvent(ON, t);
        }
      }
    }

    method UpdateData(hours: int, t: int)
      modifies this
      ensures Now() == EngineEvents.UpdateData(old(Now()), hours, t)
      ensures totalHours == hours && state == if old(state) == OFF then ON else old(state)
    {
      if state == OFF {
        AddEvent(ON, t);
        state := ON;
      }
      totalHours := hours;
    }

    method CheckOff(t: int) returns (off: bool)
      modifies this
      ensures Now() == EngineEvents.CheckOff(old(Now()), t) && (off <==> state == OFF)
      ensures state == if t - lastMessage > 30 then OFF else old(state)
      ensures stopTime == if off && old(state) == RUNNING then Some(t) else old(stopTime)
    {
      if state == OFF {
        return true;
      }
      if t - lastMessage > SILENCE {
        if state == RUNNING {
          stopTime := Some(t);
        }
        AddEvent(OFF, t);
        state := OFF;
        return true;
      }
      return false;
    }
  }
}
