/** The statistics and status colours of the attendance dashboard
    (components/attedance-dashboard.tsx).

    The two `fetch` calls become their results: the employee list's length when that
    response was ok, and today's records when that response was ok. `nineAM` is the
    millisecond instant of 09:00:00.000 local time today, read from the clock. */
module AttendanceDashboard {
  import opened Common
  import opened AttendanceRoute
  import Seqs

  /** The four figures of the stats cards. `absent` is an `int`: it is not clamped. */
  datatype Stats = Stats(present: nat, total: nat, late: nat, absent: int)

  /** `new Date(record.checkInTime) > nineAM`; a null check-in time reads as the epoch. */
  function LateAfter(nineAM: int): AttendanceRecord -> bool {
    (r: AttendanceRecord) => (if r.checkInTime.Some? then r.checkInTime.value else 0) > nineAM
  }

  /** The figures `fetchStats` computes from today's records and the employee count. */
  function StatsOf(totalEmployees: nat, records: seq<AttendanceRecord>, nineAM: int): (s: Stats)
    ensures s.present == |records| && s.total == totalEmployees
    ensures s.late == |Seqs.Filter(records, LateAfter(nineAM))| <= s.present
    ensures s.absent == s.total - s.present
    ensures s.late == 0 <==> forall r :: r in records ==> !LateAfter(nineAM)(r)
  {
    var late := Seqs.Filter(records, LateAfter(nineAM));
    assert late != [] ==> late[0] in late;
    Stats(|records|, totalEmployees, |late|, totalEmployees - |records|)
  }

  /** A later cut-off never counts more people late. */
  lemma LateShrinksWithCutoff(totalEmployees: nat, records: seq<AttendanceRecord>, early: int, later: int)
    requires early <= later
    ensures StatsOf(totalEmployees, records, later).late <= StatsOf(totalEmployees, records, early).late
  {
    Seqs.FilterMonotone(records, LateAfter(later), LateAfter(early));
  }

  /** `late` counts the records one by one: none for no records, and one more for each
      further record exactly when it was checked in after the cut-off. */
  lemma LateCountsOneByOne(totalEmployees: nat, records: seq<AttendanceRecord>, r: AttendanceRecord, nineAM: int)
    ensures StatsOf(totalEmployees, [], nineAM).late == 0
    ensures StatsOf(totalEmployees, records + [r], nineAM).late ==
              StatsOf(totalEmployees, records, nineAM).late + (if LateAfter(nineAM)(r) then 1 else 0)
  {
    Seqs.FilterSnoc(records, r, LateAfter(nineAM));
  }

  /** Each record is counted late as often as it occurs, if it was checked in after the
      cut-off, and not at all otherwise. */
  lemma LateRecordsAreTheLateOnes(records: seq<AttendanceRecord>, nineAM: int, r: AttendanceRecord)
    ensures multiset(Seqs.Filter(records, LateAfter(nineAM)))[r] ==
              if LateAfter(nineAM)(r) then multiset(records)[r] else 0
  {
    Seqs.FilterCounts(records, LateAfter(nineAM), r);
  }

  /** `late` reaches the number of records exactly when every record was checked in after
      the cut-off. */
  lemma LateCountsExactlyLateRecords(totalEmployees: nat, records: seq<AttendanceRecord>, nineAM: int)
    ensures StatsOf(totalEmployees, records, nineAM).late == |records| <==>
              forall r :: r in records ==> LateAfter(nineAM)(r)
  {
    Seqs.FilterFullLength(records, LateAfter(nineAM));
  }

  /** More records than employees (a record of an employee no longer listed, or two on one
      day) make `absent` negative. */
  lemma AbsentCanBeNegative(r: AttendanceRecord, nineAM: int)
    ensures StatsOf(1, [r, r], nineAM).absent == -1
  {
  }

  /** The dashboard's state that `fetchStats` sets. */
  class Dashboard {
    var stats: Stats

    constructor()
      ensures stats == Stats(0, 0, 0, 0)
    {
      stats := Stats(0, 0, 0, 0);
    }

    /** `fetchStats`: the stats change only when both responses were ok. */
    method FetchStats(employeeCount: Option<nat>, records: Option<seq<AttendanceRecord>>, nineAM: int)
      modifies this
      ensures stats == if employeeCount.Some? && records.Some? then StatsOf(employeeCount.value, records.value, nineAM)
                       else old(stats)
    {
      if employeeCount.Some? {
        var totalEmployees := employeeCount.value;
        if records.Some? {
          stats := StatsOf(totalEmployees, records.value, nineAM);
        }
      }
    }
  }

  const PresentColor: string := "bg-green-500/20 text-green-400 border-green-500/30"
  const LateColor: string := "bg-yellow-500/20 text-yellow-400 border-yellow-500/30"
  const AbsentColor: string := "bg-red-500/20 text-red-400 border-red-500/30"
  const DefaultColor: string := "bg-gray-500/20 text-gray-400 border-gray-500/30"

  /** `getStatusColor`: green, yellow and red for present, late and absent; grey for any
      other status, `half_day` included. */
  function StatusColor(status: string): (color: string)
    ensures color == PresentColor <==> status == "present"
    ensures color == LateColor <==> status == "late"
    ensures color == AbsentColor <==> status == "absent"
    ensures color == DefaultColor <==> status !in {"present", "late", "absent"}
  {
    match status
    case "present" => PresentColor
    case "late" => LateColor
    case "absent" => AbsentColor
    case _ => DefaultColor
  }
}
