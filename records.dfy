/** The stored records the hours engine reads (server.py lines 41-151),
    reduced to the fields the computations touch. Times are kept as the
    `HH:MM` strings the store holds, dates as day ordinals. */
module Records {
  import opened Wrappers
  import opened Calendar

  datatype Employee = Employee(id: string, name: string)

  /** One committed window of a shift. `hlpBefore` / `hlpAfter` are the paid
      buffers in minutes; `None` stands for a record without the key. */
  datatype Block = Block(
    id: string,
    schoolId: string,
    schoolName: string,
    schoolColor: string,
    startTime: string,
    endTime: string,
    hlpBefore: Option<int>,
    hlpAfter: Option<int>)

  /** A named group of blocks (AM, PM, MIDI). */
  datatype Shift = Shift(id: string, name: string, blocks: seq<Block>)

  /** A circuit bound to at most one employee over an inclusive date range. */
  datatype Assignment = Assignment(
    id: string,
    circuitNumber: string,
    shifts: seq<Shift>,
    employeeId: Option<string>,
    employeeName: string,
    startDate: Day,
    endDate: Day)

  /** A one-off, single-date commitment. */
  datatype TemporaryTask = TemporaryTask(
    id: string,
    name: string,
    date: Day,
    startTime: string,
    endTime: string,
    employeeId: Option<string>)

  datatype Absence = Absence(id: string, employeeId: string, startDate: Day, endDate: Day)

  datatype Holiday = Holiday(id: string, name: string, date: Day)

  /** The five collections a request reads, in store order. */
  datatype Snapshot = Snapshot(
    employees: seq<Employee>,
    assignments: seq<Assignment>,
    temporaryTasks: seq<TemporaryTask>,
    absences: seq<Absence>,
    holidays: seq<Holiday>)

  /** Python truthiness of an optional id: `None` and `""` are both false. */
  predicate IsSet(id: Option<string>)
  {
    id.Some? && id.value != ""
  }

  /** `start_date <= date <= end_date` on an assignment. */
  predicate Covers(a: Assignment, d: Day)
  {
    a.startDate <= d <= a.endDate
  }
}
