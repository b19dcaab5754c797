/** The seed's projects, as far as staffing and snapshots look at them. */
module Projects {
  import opened Calendar
  import opened Collections

  datatype Project = Project(id: string, startsOn: Instant, endsOn: Option<Instant>) {
    /** A project without an end is taken to end where a caller says. */
    function EndOr(other: Instant): Instant { if endsOn.Some? then endsOn.value else other }
  }

  ghost predicate DistinctIds(ps: seq<Project>) {
    forall i, j :: 0 <= i < j < |ps| ==> ps[i].id != ps[j].id
  }
}
