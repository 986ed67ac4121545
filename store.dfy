/** The state of the schedule screen and its handlers. The two lists are fields that
    every handler replaces with a new list computed from the old one; the signed-in
    user is fixed. Browser dialogs become parameters (`confirmed`), random ids become
    a caller-supplied `freshId` that is not yet in use, and an `alert` followed by an
    early return becomes a false result. */
module Store {
  import opened Seqs
  import opened Types
  import opened Schedule
  import Calendar
  import Ordering
  import Text

  /** The file name and the text a CSV download is started with. */
  datatype CsvDownload = CsvDownload(filename: string, content: string)

  class ScheduleStore {
    const user: User
    var services: seq<ChurchService>
    var assignments: seq<Assignment>

    /** The state before the sample data is loaded. */
    constructor ()
      ensures user == MockUser && services == [] && assignments == []
    {
      user := MockUser;
      services := [];
      assignments := [];
    }

    /** The mount effect: the sample services replace the list. */
    method LoadMockServices()
      modifies this
      ensures services == MockServices && assignments == old(assignments)
      ensures DistinctServiceIds(services)
    {
      services := MockServices;
      MockServicesConsistent();
    }

    /** Submitting the add form. Without a time nothing happens; otherwise one open
        service with the form's date, time and description and the day name of the
        date is appended, and nothing else changes. */
    method AddService(date: string, time: string, description: string, freshId: string)
      returns (added: bool)
      requires !HasService(services, freshId)
      modifies this
      ensures added <==> time != ""
      ensures !added ==> services == old(services)
      ensures added ==> services == old(services) + [NewService(freshId, date, time, description)]
      ensures added ==> services[|services| - 1].isOpen
                        && services[|services| - 1].dayOfWeek == Calendar.DayOfWeekOf(date)
      ensures assignments == old(assignments)
      ensures ReferencesValid(old(services), assignments) ==> ReferencesValid(services, assignments)
      ensures DistinctServiceIds(old(services)) ==> DistinctServiceIds(services)
    {
      if time == "" {
        return false;
      }
      var s := NewService(freshId, date, time, description);
      ghost var before := services;
      services := services + [s];
      added := true;
      forall i | 0 <= i < |assignments| && HasService(before, assignments[i].serviceId)
        ensures HasService(services, assignments[i].serviceId)
      {
        var k :| 0 <= k < |before| && before[k].id == assignments[i].serviceId;
        assert services[k] == before[k];
      }
      assert forall k :: 0 <= k < |before| ==> services[k] == before[k];
    }

    /** Saving the edit form: every service with the edited service's id becomes the
        edited service with its day name recomputed from its date; the number of
        services, every id and every other service are kept. Without an edited
        service nothing happens. */
    method SaveEdit(editing: Option<ChurchService>)
      modifies this
      ensures editing.None? ==> services == old(services)
      ensures editing.Some? ==> services == ReplaceService(old(services), WithDayRecomputed(editing.value))
      ensures |services| == |old(services)|
      ensures forall i :: 0 <= i < |services| ==> services[i].id == old(services)[i].id
      ensures editing.Some? ==>
                forall i :: 0 <= i < |services| && old(services)[i].id == editing.value.id ==>
                  services[i].dayOfWeek == Calendar.DayOfWeekOf(editing.value.date)
                  && services[i].(dayOfWeek := editing.value.dayOfWeek) == editing.value
      ensures assignments == old(assignments)
      ensures ReferencesValid(old(services), assignments) ==> ReferencesValid(services, assignments)
      ensures DistinctServiceIds(old(services)) ==> DistinctServiceIds(services)
    {
      if editing.None? {
        return;
      }
      ghost var before := services;
      services := ReplaceService(services, WithDayRecomputed(editing.value));
      if ReferencesValid(before, assignments) {
        SameIdsKeepReferences(before, services, assignments);
      }
    }

    /** Deleting a service once the deletion is confirmed: the service and every
        assignment of it go, everything else stays in order. An unknown id or a
        declined confirmation changes nothing. */
    method DeleteService(id: string, confirmed: bool) returns (deleted: bool)
      modifies this
      ensures deleted <==> HasService(old(services), id) && confirmed
      ensures !deleted ==> services == old(services) && assignments == old(assignments)
      ensures deleted ==> services == WithoutService(old(services), id)
                          && assignments == WithoutServiceAssignments(old(assignments), id)
      ensures deleted ==> !HasService(services, id)
      ensures deleted ==> forall i :: 0 <= i < |assignments| ==> assignments[i].serviceId != id
      ensures ReferencesValid(old(services), old(assignments)) ==> ReferencesValid(services, assignments)
      ensures UniqueRegistration(old(assignments)) ==> UniqueRegistration(assignments)
    {
      var found := FindService(services, id);
      if found.None? || !confirmed {
        return false;
      }
      ghost var ss, asgs := services, assignments;
      services := WithoutService(services, id);
      assignments := WithoutServiceAssignments(assignments, id);
      deleted := true;
      DeleteServiceCascade(ss, asgs, id);
      if ReferencesValid(ss, asgs) {
        DeleteServiceKeepsReferences(ss, asgs, id);
      }
      if UniqueRegistration(asgs) {
        RemovalsKeepUnique(asgs, id);
      }
    }

    /** Applying a partial update to the assignments with the id; the others, the
        number of assignments and the services are kept. */
    method UpdateAssignment(assignmentId: string, updates: AssignmentPatch)
      modifies this
      ensures assignments == PatchAssignment(old(assignments), assignmentId, updates)
      ensures |assignments| == |old(assignments)|
      ensures forall i :: 0 <= i < |assignments| && old(assignments)[i].id != assignmentId ==>
                assignments[i] == old(assignments)[i]
      ensures services == old(services)
      ensures NameOrAreaPatch(updates) && UniqueRegistration(old(assignments)) ==>
                UniqueRegistration(assignments)
      ensures NameOrAreaPatch(updates) && ReferencesValid(services, old(assignments)) ==>
                ReferencesValid(services, assignments)
    {
      ghost var before := assignments;
      assignments := PatchAssignment(assignments, assignmentId, updates);
      if NameOrAreaPatch(updates) {
        assert ReferencesKeptBy(before, assignments);
        if UniqueRegistration(before) {
          NameOrAreaPatchKeepsUnique(before, assignmentId, updates);
        }
      }
    }

    /** Opening a closed service or closing an open one; nothing else changes. */
    method ToggleStatus(id: string)
      modifies this
      ensures services == ToggleOpen(old(services), id)
      ensures |services| == |old(services)|
      ensures forall i :: 0 <= i < |services| ==>
                services[i].(isOpen := old(services)[i].isOpen) == old(services)[i]
                && (services[i].isOpen == !old(services)[i].isOpen <==> old(services)[i].id == id)
      ensures assignments == old(assignments)
      ensures ReferencesValid(old(services), assignments) ==> ReferencesValid(services, assignments)
    {
      ghost var before := services;
      services := ToggleOpen(services, id);
      if ReferencesValid(before, assignments) {
        SameIdsKeepReferences(before, services, assignments);
      }
    }

    /** Registering the signed-in user in an area of a service. If the user already
        holds an assignment in that service nothing changes; otherwise exactly one
        assignment with the user's id and name is appended after the old ones. The
        service's existence, its open flag and whether the area is taken are not
        checked. */
    method Register(serviceId: string, area: ServiceArea, freshId: string) returns (registered: bool)
      requires !HasAssignment(assignments, freshId)
      modifies this
      ensures registered <==> !AlreadyRegistered(old(assignments), serviceId, user.id)
      ensures !registered ==> assignments == old(assignments)
      ensures registered ==>
                assignments == old(assignments) + [Assignment(freshId, serviceId, user.id, user.name, area)]
      ensures AlreadyRegistered(assignments, serviceId, user.id)
      ensures services == old(services)
      ensures UniqueRegistration(old(assignments)) ==> UniqueRegistration(assignments)
      ensures DistinctAssignmentIds(old(assignments)) ==> DistinctAssignmentIds(assignments)
      ensures ReferencesValid(services, old(assignments)) && HasService(services, serviceId) ==>
                ReferencesValid(services, assignments)
    {
      if AlreadyRegistered(assignments, serviceId, user.id) {
        return false;
      }
      var a := NewAssignment(freshId, serviceId, user, area);
      AppendAssignment(services, assignments, a);
      if UniqueRegistration(assignments) {
        RegisterKeepsUnique(assignments, freshId, serviceId, user, area);
      }
      assignments := assignments + [a];
      registered := true;
    }

    /** Removing an assignment once confirmed: exactly the entries with that id go,
        the rest keep their order; declining changes nothing. */
    method RemoveAssignment(id: string, confirmed: bool)
      modifies this
      ensures !confirmed ==> assignments == old(assignments)
      ensures confirmed ==> assignments == WithoutAssignment(old(assignments), id)
      ensures confirmed ==> !HasAssignment(assignments, id)
      ensures services == old(services)
      ensures UniqueRegistration(old(assignments)) ==> UniqueRegistration(assignments)
    {
      if confirmed {
        ghost var before := assignments;
        assignments := WithoutAssignment(assignments, id);
        RemoveAssignmentEffect(before, id);
        if UniqueRegistration(before) {
          RemovalsKeepUnique(before, id);
        }
      }
    }

    /** The list as displayed: the same services, by date and then time, computed on
        a copy so that the stored list is left as it is. */
    function SortedServices(): (r: seq<ChurchService>)
      reads this
      ensures multiset(r) == multiset(services)
      ensures |r| == |services|
      ensures forall i, j :: 0 <= i < j < |r| ==> Ordering.ServiceLe(r[i], r[j])
      ensures forall k :: Ordering.SlotEntries(r, k) == Ordering.SlotEntries(services, k)
    {
      var sorted := Ordering.SortServices(services);
      Ordering.SortServicesStable(services);
      assert |sorted| == |multiset(sorted)| == |multiset(services)| == |services|;
      sorted
    }

    /** The download started by the export button of one service: the table of its
        assignments as CSV text, named after the service's date. */
    function ExportCsv(serviceId: string): (d: CsvDownload)
      reads this
      ensures d.filename == ExportFileName(services, serviceId)
      ensures d.content == Text.CsvContent(ExportRows(services, assignments, serviceId))
      ensures Text.PlainCell(DateCell(services, serviceId)) && Text.PlainCell(TimeCell(services, serviceId))
              && (forall a :: a in assignments && a.serviceId == serviceId ==> Text.PlainCell(a.userName))
              ==> |Text.Split(d.content, '\n')| == 1 + |AssignmentsOf(assignments, serviceId)|
                  && Text.Split(d.content, '\n')[0] == "Area,Servo,Data,Hora"
                  && forall i :: 0 <= i < |AssignmentsOf(assignments, serviceId)| ==>
                       Text.Split(d.content, '\n')[i + 1]
                         == AreaName(AssignmentsOf(assignments, serviceId)[i].area) + "," +
                            AssignmentsOf(assignments, serviceId)[i].userName + "," +
                            DateCell(services, serviceId) + "," + TimeCell(services, serviceId)
    {
      var d := CsvDownload(ExportFileName(services, serviceId),
                           Text.CsvContent(ExportRows(services, assignments, serviceId)));
      if Text.PlainCell(DateCell(services, serviceId)) && Text.PlainCell(TimeCell(services, serviceId))
         && forall a :: a in assignments && a.serviceId == serviceId ==> Text.PlainCell(a.userName)
      then
        ExportCsvLines(services, assignments, serviceId);
        d
      else d
    }
  }
}
