/** What each handler of the schedule screen does to the list of services and the
    list of assignments, as functions of the old lists, together with the
    consistency rules those updates keep: one registration per volunteer per
    service, every assignment pointing at an existing service, distinct ids. */
module Schedule {
  import opened Seqs
  import opened Types
  import Calendar
  import Text

  // ----- Lookups -----

  predicate HasService(ss: seq<ChurchService>, id: string)
  {
    exists i :: 0 <= i < |ss| && ss[i].id == id
  }

  predicate HasAssignment(asgs: seq<Assignment>, id: string)
  {
    exists i :: 0 <= i < |asgs| && asgs[i].id == id
  }

  /** Array.prototype.find: the first service with the id, if any. */
  function FindService(ss: seq<ChurchService>, id: string): (r: Option<ChurchService>)
    ensures r.None? <==> !HasService(ss, id)
    ensures r.Some? ==> exists i :: 0 <= i < |ss| && ss[i] == r.value
                          && r.value.id == id && forall j :: 0 <= j < i ==> ss[j].id != id
  {
    if ss == [] then None
    else if ss[0].id == id then Some(ss[0])
    else
      var r := FindService(ss[1..], id);
      assert HasService(ss, id) ==> HasService(ss[1..], id) by {
        if HasService(ss, id) {
          var i :| 0 <= i < |ss| && ss[i].id == id;
          assert ss[1..][i - 1].id == id;
        }
      }
      if r.Some? then
        var i :| 0 <= i < |ss[1..]| && ss[1..][i] == r.value && r.value.id == id
                 && forall j :: 0 <= j < i ==> ss[1..][j].id != id;
        assert ss[i + 1] == r.value && forall j :: 0 <= j < i + 1 ==> ss[j].id != id;
        r
      else r
  }

  // ----- Consistency rules -----

  /** Two assignments register the same volunteer in the same service. */
  predicate SameRegistration(a: Assignment, b: Assignment)
  {
    a.serviceId == b.serviceId && a.userId == b.userId
  }

  /** At most one assignment per (service, volunteer) pair. */
  predicate UniqueRegistration(asgs: seq<Assignment>)
  {
    forall i, j :: 0 <= i < j < |asgs| ==> !SameRegistration(asgs[i], asgs[j])
  }

  /** Every assignment belongs to a service that exists. */
  predicate ReferencesValid(ss: seq<ChurchService>, asgs: seq<Assignment>)
  {
    forall i :: 0 <= i < |asgs| ==> HasService(ss, asgs[i].serviceId)
  }

  predicate DistinctServiceIds(ss: seq<ChurchService>)
  {
    forall i, j :: 0 <= i < j < |ss| ==> ss[i].id != ss[j].id
  }

  predicate DistinctAssignmentIds(asgs: seq<Assignment>)
  {
    forall i, j :: 0 <= i < j < |asgs| ==> asgs[i].id != asgs[j].id
  }

  // ----- Services -----

  /** The service the add form creates: open, with the day name of its date. */
  function NewService(id: string, date: string, time: string, description: string): (s: ChurchService)
    ensures s.isOpen && s.id == id && s.date == date && s.time == time && s.description == description
    ensures s.dayOfWeek.Some? <==> Calendar.ParseDate(date).Some?
    ensures s.dayOfWeek.Some? ==>
              s.dayOfWeek.value == Calendar.DayNames[Calendar.Weekday(Calendar.ParseDate(date).value)]
  {
    ChurchService(id, date, time, Calendar.DayOfWeekOf(date), true, description)
  }

  /** The edited service as saved: its day name recomputed from its (possibly
      edited) date, every other field as edited. */
  function WithDayRecomputed(s: ChurchService): (r: ChurchService)
    ensures r.(dayOfWeek := s.dayOfWeek) == s
    ensures r.dayOfWeek == Calendar.DayOfWeekOf(s.date)
  {
    s.(dayOfWeek := Calendar.DayOfWeekOf(s.date))
  }

  /** Every service with the edited service's id replaced by it; the others and
      the length are kept. */
  function ReplaceService(ss: seq<ChurchService>, updated: ChurchService): (r: seq<ChurchService>)
    ensures |r| == |ss|
    ensures forall i :: 0 <= i < |ss| ==> r[i].id == ss[i].id
    ensures forall i :: 0 <= i < |ss| && ss[i].id == updated.id ==> r[i] == updated
    ensures forall i :: 0 <= i < |ss| && ss[i].id != updated.id ==> r[i] == ss[i]
  {
    Map(ss, (s: ChurchService) => if s.id == updated.id then updated else s)
  }

  /** The open/closed flag flipped on the services with the id, nothing else touched. */
  function ToggleOpen(ss: seq<ChurchService>, id: string): (r: seq<ChurchService>)
    ensures |r| == |ss|
    ensures forall i :: 0 <= i < |ss| ==> r[i].(isOpen := ss[i].isOpen) == ss[i]
    ensures forall i :: 0 <= i < |ss| ==> (r[i].isOpen != ss[i].isOpen <==> ss[i].id == id)
  {
    Map(ss, (s: ChurchService) => if s.id == id then s.(isOpen := !s.isOpen) else s)
  }

  /** The services without the deleted id: exactly the others, in their order. */
  function WithoutService(ss: seq<ChurchService>, id: string): (r: seq<ChurchService>)
    ensures forall s :: s in r <==> s in ss && s.id != id
    ensures IsSubseq(r, ss)
  {
    var keep := (s: ChurchService) => s.id != id;
    FilterMembers(ss, keep);
    FilterIsSubseq(ss, keep);
    Filter(ss, keep)
  }

  /** The assignments that do not belong to the deleted service, in their order. */
  function WithoutServiceAssignments(asgs: seq<Assignment>, serviceId: string): (r: seq<Assignment>)
    ensures forall a :: a in r <==> a in asgs && a.serviceId != serviceId
    ensures IsSubseq(r, asgs)
  {
    var keep := (a: Assignment) => a.serviceId != serviceId;
    FilterMembers(asgs, keep);
    FilterIsSubseq(asgs, keep);
    Filter(asgs, keep)
  }

  // ----- Assignments -----

  /** Whether the volunteer already holds an assignment in the service: whether one
      of the assignments listed for the service is theirs. */
  predicate AlreadyRegistered(asgs: seq<Assignment>, serviceId: string, userId: string)
    ensures AlreadyRegistered(asgs, serviceId, userId) <==>
              exists a :: a in AssignmentsOf(asgs, serviceId) && a.userId == userId
  {
    SomeOfService(asgs, serviceId, userId);
    exists i :: 0 <= i < |asgs| && asgs[i].serviceId == serviceId && asgs[i].userId == userId
  }

  /** The `some` over the whole list finds the volunteer exactly when the
      service's own assignments include one of theirs. */
  lemma SomeOfService(asgs: seq<Assignment>, serviceId: string, userId: string)
    ensures (exists i :: 0 <= i < |asgs| && asgs[i].serviceId == serviceId && asgs[i].userId == userId)
            <==> exists a :: a in AssignmentsOf(asgs, serviceId) && a.userId == userId
  {
    assert forall a :: a in AssignmentsOf(asgs, serviceId) <==> a in asgs && a.serviceId == serviceId;
    assert forall a :: a in asgs <==> exists i :: 0 <= i < |asgs| && asgs[i] == a;
  }

  /** The assignment a registration appends: the user's id and current name. Once
      it is in a list, the user counts as registered in the service. */
  function NewAssignment(id: string, serviceId: string, user: User, area: ServiceArea): (a: Assignment)
    ensures a.id == id && a.serviceId == serviceId && a.area == area
    ensures a.userId == user.id && a.userName == user.name
    ensures AlreadyRegistered([a], serviceId, user.id)
  {
    Assignment(id, serviceId, user.id, user.name, area)
  }

  /** A partial assignment: the fields present overwrite, the absent ones stay. */
  datatype AssignmentPatch = AssignmentPatch(
    id: Option<string>,
    serviceId: Option<string>,
    userId: Option<string>,
    userName: Option<string>,
    area: Option<ServiceArea>)

  /** `{ ...a, ...patch }`: every field the patch carries takes the patch's value,
      every other field keeps the assignment's. */
  function ApplyPatch(a: Assignment, p: AssignmentPatch): (r: Assignment)
    ensures r.id == (if p.id.Some? then p.id.value else a.id)
    ensures r.serviceId == (if p.serviceId.Some? then p.serviceId.value else a.serviceId)
    ensures r.userId == (if p.userId.Some? then p.userId.value else a.userId)
    ensures r.userName == (if p.userName.Some? then p.userName.value else a.userName)
    ensures r.area == (if p.area.Some? then p.area.value else a.area)
    ensures p == AssignmentPatch(None, None, None, None, None) ==> r == a
    ensures NameOrAreaPatch(p) ==> r.id == a.id && SameRegistration(r, a)
  {
    Assignment(
      if p.id.Some? then p.id.value else a.id,
      if p.serviceId.Some? then p.serviceId.value else a.serviceId,
      if p.userId.Some? then p.userId.value else a.userId,
      if p.userName.Some? then p.userName.value else a.userName,
      if p.area.Some? then p.area.value else a.area)
  }

  /** A patch that only renames the volunteer and/or changes the area, as the
      edit screen sends. */
  predicate NameOrAreaPatch(p: AssignmentPatch)
  {
    p.id.None? && p.serviceId.None? && p.userId.None?
  }

  /** The patch applied to the assignments with the id, the others untouched, the
      length kept. */
  function PatchAssignment(asgs: seq<Assignment>, id: string, p: AssignmentPatch): (r: seq<Assignment>)
    ensures |r| == |asgs|
    ensures forall i :: 0 <= i < |asgs| && asgs[i].id != id ==> r[i] == asgs[i]
    ensures forall i :: 0 <= i < |asgs| && asgs[i].id == id ==> r[i] == ApplyPatch(asgs[i], p)
  {
    Map(asgs, (a: Assignment) => if a.id == id then ApplyPatch(a, p) else a)
  }

  /** The assignments without the removed id: exactly the others, in their order. */
  function WithoutAssignment(asgs: seq<Assignment>, id: string): (r: seq<Assignment>)
    ensures forall a :: a in r <==> a in asgs && a.id != id
    ensures IsSubseq(r, asgs)
  {
    var keep := (a: Assignment) => a.id != id;
    FilterMembers(asgs, keep);
    FilterIsSubseq(asgs, keep);
    Filter(asgs, keep)
  }

  // ----- CSV export of one service -----

  const CsvHeader: seq<string> := ["Area", "Servo", "Data", "Hora"]

  /** The assignments of one service, in list order, each as often as it is listed. */
  function AssignmentsOf(asgs: seq<Assignment>, serviceId: string): (r: seq<Assignment>)
    ensures forall a :: a in r <==> a in asgs && a.serviceId == serviceId
    ensures forall a :: multiset(r)[a] == if a.serviceId == serviceId then multiset(asgs)[a] else 0
    ensures IsSubseq(r, asgs)
  {
    var mine := (a: Assignment) => a.serviceId == serviceId;
    FilterMembers(asgs, mine);
    FilterCounts(asgs, mine);
    FilterIsSubseq(asgs, mine);
    Filter(asgs, mine)
  }

  /** `service?.date || ""` and `service?.time || ""`. */
  function DateCell(ss: seq<ChurchService>, serviceId: string): (cell: string)
    ensures HasService(ss, serviceId) ==> cell == FindService(ss, serviceId).value.date
    ensures !HasService(ss, serviceId) ==> cell == ""
  {
    match FindService(ss, serviceId)
    case None => ""
    case Some(s) => s.date
  }

  function TimeCell(ss: seq<ChurchService>, serviceId: string): (cell: string)
    ensures HasService(ss, serviceId) ==> cell == FindService(ss, serviceId).value.time
    ensures !HasService(ss, serviceId) ==> cell == ""
  {
    match FindService(ss, serviceId)
    case None => ""
    case Some(s) => s.time
  }

  /** The table handed to the CSV download: the header, then per assignment of the
      service its area, volunteer name, and the service's date and time. */
  function ExportRows(ss: seq<ChurchService>, asgs: seq<Assignment>, serviceId: string): (rows: seq<seq<string>>)
    ensures |rows| == 1 + |AssignmentsOf(asgs, serviceId)|
    ensures rows[0] == ["Area", "Servo", "Data", "Hora"]
    ensures forall i :: 0 <= i < |AssignmentsOf(asgs, serviceId)| ==>
              rows[i + 1] == [AreaName(AssignmentsOf(asgs, serviceId)[i].area),
                              AssignmentsOf(asgs, serviceId)[i].userName,
                              DateCell(ss, serviceId), TimeCell(ss, serviceId)]
  {
    var date, time := DateCell(ss, serviceId), TimeCell(ss, serviceId);
    [CsvHeader] + Map(AssignmentsOf(asgs, serviceId), (a: Assignment) => [AreaName(a.area), a.userName, date, time])
  }

  /** `escala_${service?.date}.csv`; a missing service prints as "undefined". */
  function ExportFileName(ss: seq<ChurchService>, serviceId: string): (name: string)
    ensures HasService(ss, serviceId) ==> name == "escala_" + FindService(ss, serviceId).value.date + ".csv"
    ensures !HasService(ss, serviceId) ==> name == "escala_undefined.csv"
  {
    match FindService(ss, serviceId)
    case None => "escala_undefined.csv"
    case Some(s) => "escala_" + s.date + ".csv"
  }

  // ----- Lemmas -----

  /** Deleting a service removes exactly that service and exactly its assignments,
      keeping everything else with its multiplicity and in its order. */
  lemma DeleteServiceCascade(ss: seq<ChurchService>, asgs: seq<Assignment>, id: string)
    ensures !HasService(WithoutService(ss, id), id)
    ensures forall s :: s in WithoutService(ss, id) <==> s in ss && s.id != id
    ensures forall s: ChurchService :: s.id != id ==> multiset(WithoutService(ss, id))[s] == multiset(ss)[s]
    ensures IsSubseq(WithoutService(ss, id), ss)
    ensures forall i :: 0 <= i < |WithoutServiceAssignments(asgs, id)| ==>
              WithoutServiceAssignments(asgs, id)[i].serviceId != id
    ensures forall a :: a in WithoutServiceAssignments(asgs, id) <==> a in asgs && a.serviceId != id
    ensures forall a: Assignment :: a.serviceId != id ==>
              multiset(WithoutServiceAssignments(asgs, id))[a] == multiset(asgs)[a]
    ensures IsSubseq(WithoutServiceAssignments(asgs, id), asgs)
  {
    var ps := (s: ChurchService) => s.id != id;
    var pa := (a: Assignment) => a.serviceId != id;
    FilterMembers(ss, ps);
    FilterMembers(asgs, pa);
    FilterIsSubseq(ss, ps);
    FilterIsSubseq(asgs, pa);
    forall s: ChurchService | s.id != id
      ensures multiset(WithoutService(ss, id))[s] == multiset(ss)[s]
    {
      FilterCount(ss, ps, s);
    }
    forall a: Assignment | a.serviceId != id
      ensures multiset(WithoutServiceAssignments(asgs, id))[a] == multiset(asgs)[a]
    {
      FilterCount(asgs, pa, a);
    }
    var r := WithoutService(ss, id);
    forall i | 0 <= i < |r|
      ensures r[i].id != id
    {
      assert r[i] in r;
    }
    var ra := WithoutServiceAssignments(asgs, id);
    forall i | 0 <= i < |ra|
      ensures ra[i].serviceId != id
    {
      assert ra[i] in ra;
    }
  }

  /** If every assignment pointed at an existing service before a delete, every
      remaining assignment still does afterwards. */
  lemma DeleteServiceKeepsReferences(ss: seq<ChurchService>, asgs: seq<Assignment>, id: string)
    requires ReferencesValid(ss, asgs)
    ensures ReferencesValid(WithoutService(ss, id), WithoutServiceAssignments(asgs, id))
  {
    var ps := (s: ChurchService) => s.id != id;
    var pa := (a: Assignment) => a.serviceId != id;
    var rs, ra := WithoutService(ss, id), WithoutServiceAssignments(asgs, id);
    FilterMembers(ss, ps);
    FilterMembers(asgs, pa);
    forall i | 0 <= i < |ra|
      ensures HasService(rs, ra[i].serviceId)
    {
      assert ra[i] in ra;
      var j :| 0 <= j < |asgs| && asgs[j] == ra[i];
      var k :| 0 <= k < |ss| && ss[k].id == asgs[j].serviceId;
      assert ss[k] in rs;
      var m :| 0 <= m < |rs| && rs[m] == ss[k];
    }
  }

  /** The rest of a list with one registration per pair has one registration per pair. */
  lemma TailKeepsUnique(asgs: seq<Assignment>)
    requires asgs != [] && UniqueRegistration(asgs)
    ensures UniqueRegistration(asgs[1..])
  {
    var tail := asgs[1..];
    forall i, j | 0 <= i < j < |tail|
      ensures !SameRegistration(tail[i], tail[j])
    {
      assert tail[i] == asgs[i + 1] && tail[j] == asgs[j + 1];
    }
  }

  /** An entry whose pair no later entry shares can head a list with unique pairs. */
  lemma ConsKeepsUnique(a: Assignment, t: seq<Assignment>)
    requires UniqueRegistration(t)
    requires forall j :: 0 <= j < |t| ==> !SameRegistration(a, t[j])
    ensures UniqueRegistration([a] + t)
  {
    var r := [a] + t;
    forall i, j | 0 <= i < j < |r|
      ensures !SameRegistration(r[i], r[j])
    {
      if i == 0 {
        assert r[j] == t[j - 1];
      } else {
        assert r[i] == t[i - 1] && r[j] == t[j - 1];
      }
    }
  }

  /** Any filter of a list with one registration per pair keeps that property. */
  lemma {:induction false} FilterKeepsUnique(asgs: seq<Assignment>, p: Assignment -> bool)
    requires UniqueRegistration(asgs)
    ensures UniqueRegistration(Filter(asgs, p))
  {
    if asgs != [] {
      var tail := asgs[1..];
      TailKeepsUnique(asgs);
      FilterKeepsUnique(tail, p);
      if p(asgs[0]) {
        var rt := Filter(tail, p);
        forall j | 0 <= j < |rt|
          ensures !SameRegistration(asgs[0], rt[j])
        {
          assert rt[j] in rt;
          var k :| 0 <= k < |tail| && tail[k] == rt[j];
          assert asgs[k + 1] == rt[j];
        }
        ConsKeepsUnique(asgs[0], rt);
        assert Filter(asgs, p) == [asgs[0]] + rt;
      }
    }
  }

  /** Removing an assignment or deleting a service keeps one registration per pair. */
  lemma RemovalsKeepUnique(asgs: seq<Assignment>, id: string)
    requires UniqueRegistration(asgs)
    ensures UniqueRegistration(WithoutAssignment(asgs, id))
    ensures UniqueRegistration(WithoutServiceAssignments(asgs, id))
  {
    FilterKeepsUnique(asgs, (a: Assignment) => a.id != id);
    FilterKeepsUnique(asgs, (a: Assignment) => a.serviceId != id);
  }

  /** A registration that passes the duplicate check keeps one registration per
      pair; after it, the same volunteer counts as registered in that service. */
  lemma RegisterKeepsUnique(asgs: seq<Assignment>, id: string, serviceId: string, user: User, area: ServiceArea)
    requires UniqueRegistration(asgs)
    requires !AlreadyRegistered(asgs, serviceId, user.id)
    ensures UniqueRegistration(asgs + [NewAssignment(id, serviceId, user, area)])
    ensures AlreadyRegistered(asgs + [NewAssignment(id, serviceId, user, area)], serviceId, user.id)
  {
    var r := asgs + [NewAssignment(id, serviceId, user, area)];
    assert r[|asgs|].serviceId == serviceId && r[|asgs|].userId == user.id;
  }

  /** Appending an assignment makes its volunteer registered in its service. A fresh
      id keeps the ids distinct, and a reference to an existing service keeps every
      reference valid. */
  lemma AppendAssignment(ss: seq<ChurchService>, asgs: seq<Assignment>, a: Assignment)
    ensures AlreadyRegistered(asgs + [a], a.serviceId, a.userId)
    ensures DistinctAssignmentIds(asgs) && !HasAssignment(asgs, a.id) ==>
              DistinctAssignmentIds(asgs + [a])
    ensures ReferencesValid(ss, asgs) && HasService(ss, a.serviceId) ==>
              ReferencesValid(ss, asgs + [a])
  {
    var r := asgs + [a];
    assert r[|asgs|] == a;
    assert forall i :: 0 <= i < |asgs| ==> r[i] == asgs[i];
  }

  /** Renaming or moving an assignment to another area keeps one registration per
      pair; a patch that changes nothing else cannot create a duplicate. */
  lemma NameOrAreaPatchKeepsUnique(asgs: seq<Assignment>, id: string, p: AssignmentPatch)
    requires UniqueRegistration(asgs)
    requires NameOrAreaPatch(p)
    ensures UniqueRegistration(PatchAssignment(asgs, id, p))
    ensures ReferencesKeptBy(asgs, PatchAssignment(asgs, id, p))
  {
    var r := PatchAssignment(asgs, id, p);
    forall i, j | 0 <= i < j < |r|
      ensures !SameRegistration(r[i], r[j])
    {
      assert SameRegistration(r[i], r[j]) == SameRegistration(asgs[i], asgs[j]);
    }
  }

  /** Sending the same update again changes nothing more, whichever fields it sets
      (an update that changes the id leaves nothing with the old id to patch). */
  lemma PatchAssignmentIdempotent(asgs: seq<Assignment>, id: string, p: AssignmentPatch)
    ensures PatchAssignment(PatchAssignment(asgs, id, p), id, p) == PatchAssignment(asgs, id, p)
  {
    var once := PatchAssignment(asgs, id, p);
    var twice := PatchAssignment(once, id, p);
    forall i | 0 <= i < |asgs|
      ensures twice[i] == once[i]
    {
      if asgs[i].id == id && once[i].id == id {
        assert once[i] == ApplyPatch(asgs[i], p);
        assert ApplyPatch(once[i], p) == once[i];
      }
    }
  }

  /** `after` has the same length and the same (service, volunteer) at each position. */
  predicate ReferencesKeptBy(before: seq<Assignment>, after: seq<Assignment>)
  {
    |before| == |after|
    && forall i :: 0 <= i < |before| ==>
         after[i].serviceId == before[i].serviceId && after[i].userId == before[i].userId
  }

  /** Removing an assignment drops exactly the entries with that id and keeps the
      rest with their multiplicity and order; an id nobody has changes nothing. */
  lemma RemoveAssignmentEffect(asgs: seq<Assignment>, id: string)
    ensures !HasAssignment(WithoutAssignment(asgs, id), id)
    ensures forall a: Assignment :: a.id != id ==> multiset(WithoutAssignment(asgs, id))[a] == multiset(asgs)[a]
    ensures IsSubseq(WithoutAssignment(asgs, id), asgs)
    ensures !HasAssignment(asgs, id) ==> WithoutAssignment(asgs, id) == asgs
  {
    var p := (a: Assignment) => a.id != id;
    var r := WithoutAssignment(asgs, id);
    forall a: Assignment | a.id != id
      ensures multiset(r)[a] == multiset(asgs)[a]
    {
      FilterCount(asgs, p, a);
    }
    FilterIsSubseq(asgs, p);
    forall i | 0 <= i < |r|
      ensures r[i].id != id
    {
      assert r[i] in r;
    }
    if !HasAssignment(asgs, id) {
      forall a | a in asgs
        ensures p(a)
      {
        var i :| 0 <= i < |asgs| && asgs[i] == a;
      }
      FilterKeepsAll(asgs, p);
    }
  }

  /** Toggling a service twice restores the list. */
  lemma ToggleTwiceRestores(ss: seq<ChurchService>, id: string)
    ensures ToggleOpen(ToggleOpen(ss, id), id) == ss
  {
    var once := ToggleOpen(ss, id);
    var twice := ToggleOpen(once, id);
    forall i | 0 <= i < |ss|
      ensures twice[i] == ss[i]
    {
      assert once[i].(isOpen := ss[i].isOpen) == ss[i];
      assert twice[i].(isOpen := once[i].isOpen) == once[i];
    }
  }

  /** Updates that keep every service id (toggling, saving an edit) keep every
      assignment's service reference valid. */
  lemma SameIdsKeepReferences(ss: seq<ChurchService>, ss': seq<ChurchService>, asgs: seq<Assignment>)
    requires |ss'| == |ss| && forall i :: 0 <= i < |ss| ==> ss'[i].id == ss[i].id
    requires ReferencesValid(ss, asgs)
    ensures ReferencesValid(ss', asgs)
    ensures DistinctServiceIds(ss) ==> DistinctServiceIds(ss')
  {
    forall i | 0 <= i < |asgs|
      ensures HasService(ss', asgs[i].serviceId)
    {
      var k :| 0 <= k < |ss| && ss[k].id == asgs[i].serviceId;
      assert ss'[k].id == asgs[i].serviceId;
    }
  }

  /** No cell of the export holds a comma or a line break when no name, date or
      time does (area names never do), and every row has four cells. */
  lemma ExportRowsArePlain(ss: seq<ChurchService>, asgs: seq<Assignment>, serviceId: string)
    requires Text.PlainCell(DateCell(ss, serviceId)) && Text.PlainCell(TimeCell(ss, serviceId))
    requires forall a :: a in asgs && a.serviceId == serviceId ==> Text.PlainCell(a.userName)
    ensures forall k :: 0 <= k < |ExportRows(ss, asgs, serviceId)| ==> |ExportRows(ss, asgs, serviceId)[k]| == 4
    ensures forall r, c :: r in ExportRows(ss, asgs, serviceId) && c in r ==> Text.PlainCell(c)
  {
    var rows := ExportRows(ss, asgs, serviceId);
    forall k | 0 <= k < |rows|
      ensures |rows[k]| == 4 && forall c :: c in rows[k] ==> Text.PlainCell(c)
    {
      ExportRowIsPlain(ss, asgs, serviceId, k);
    }
  }

  /** One row of the export has four cells, none holding a comma or a line break. */
  lemma ExportRowIsPlain(ss: seq<ChurchService>, asgs: seq<Assignment>, serviceId: string, k: int)
    requires Text.PlainCell(DateCell(ss, serviceId)) && Text.PlainCell(TimeCell(ss, serviceId))
    requires forall a :: a in asgs && a.serviceId == serviceId ==> Text.PlainCell(a.userName)
    requires 0 <= k < |ExportRows(ss, asgs, serviceId)|
    ensures |ExportRows(ss, asgs, serviceId)[k]| == 4
    ensures forall c :: c in ExportRows(ss, asgs, serviceId)[k] ==> Text.PlainCell(c)
  {
    var row := ExportRows(ss, asgs, serviceId)[k];
    if k == 0 {
      assert row == CsvHeader;
      HeaderIsPlain();
    } else {
      var a := AssignmentsOf(asgs, serviceId)[k - 1];
      assert a in AssignmentsOf(asgs, serviceId);
      assert row == [AreaName(a.area), a.userName, DateCell(ss, serviceId), TimeCell(ss, serviceId)];
    }
  }

  /** The export lists, after the header line, one line per assignment of the
      service in list order: area, name, date and time joined by commas, when no
      name, date or time holds a comma or a line break. */
  lemma {:induction false} ExportCsvLines(ss: seq<ChurchService>, asgs: seq<Assignment>, serviceId: string)
    requires Text.PlainCell(DateCell(ss, serviceId)) && Text.PlainCell(TimeCell(ss, serviceId))
    requires forall a :: a in asgs && a.serviceId == serviceId ==> Text.PlainCell(a.userName)
    ensures |Text.Split(Text.CsvContent(ExportRows(ss, asgs, serviceId)), '\n')| == 1 + |AssignmentsOf(asgs, serviceId)|
    ensures Text.Split(Text.CsvContent(ExportRows(ss, asgs, serviceId)), '\n')[0] == "Area,Servo,Data,Hora"
    ensures forall i :: 0 <= i < |AssignmentsOf(asgs, serviceId)| ==>
              Text.Split(Text.CsvContent(ExportRows(ss, asgs, serviceId)), '\n')[i + 1]
                == AreaName(AssignmentsOf(asgs, serviceId)[i].area) + "," +
                   AssignmentsOf(asgs, serviceId)[i].userName + "," +
                   DateCell(ss, serviceId) + "," + TimeCell(ss, serviceId)
  {
    var rows := ExportRows(ss, asgs, serviceId);
    var lines := Text.Split(Text.CsvContent(rows), '\n');
    ExportLinesAreRowLines(ss, asgs, serviceId);
    HeaderLine();
    forall i | 0 <= i < |AssignmentsOf(asgs, serviceId)|
      ensures lines[i + 1] == AreaName(AssignmentsOf(asgs, serviceId)[i].area) + "," +
                              AssignmentsOf(asgs, serviceId)[i].userName + "," +
                              DateCell(ss, serviceId) + "," + TimeCell(ss, serviceId)
    {
      ExportRowLine(ss, asgs, serviceId, i);
    }
  }

  /** No header cell holds a comma or a line break. */
  lemma HeaderIsPlain()
    ensures forall c :: c in CsvHeader ==> Text.PlainCell(c)
  {
    assert Text.PlainCell("Area") && Text.PlainCell("Servo");
    assert Text.PlainCell("Data") && Text.PlainCell("Hora");
  }

  /** The header row as one CSV line. */
  lemma HeaderLine()
    ensures Text.CsvLine(CsvHeader) == "Area,Servo,Data,Hora"
  {
    var h := CsvHeader;
    assert h[1..][1..][1..] == ["Hora"];
    assert Text.Join(["Hora"], ",") == "Hora";
    assert Text.Join(h[1..][1..], ",") == "Data,Hora";
    assert Text.Join(h[1..], ",") == "Servo,Data,Hora";
    assert Text.Join(h, ",") == "Area,Servo,Data,Hora";
  }

  /** The exported content has one line per row of the table, each the row as a CSV line. */
  lemma ExportLinesAreRowLines(ss: seq<ChurchService>, asgs: seq<Assignment>, serviceId: string)
    requires Text.PlainCell(DateCell(ss, serviceId)) && Text.PlainCell(TimeCell(ss, serviceId))
    requires forall a :: a in asgs && a.serviceId == serviceId ==> Text.PlainCell(a.userName)
    ensures Text.Split(Text.CsvContent(ExportRows(ss, asgs, serviceId)), '\n')
              == Map(ExportRows(ss, asgs, serviceId), Text.CsvLine)
  {
    ExportRowsArePlain(ss, asgs, serviceId);
    Text.CsvContentLines(ExportRows(ss, asgs, serviceId));
  }

  /** Line `i + 1` of the export is assignment `i` of the service as one CSV line. */
  lemma ExportRowLine(ss: seq<ChurchService>, asgs: seq<Assignment>, serviceId: string, i: int)
    requires 0 <= i < |AssignmentsOf(asgs, serviceId)|
    ensures Text.CsvLine(ExportRows(ss, asgs, serviceId)[i + 1])
              == AreaName(AssignmentsOf(asgs, serviceId)[i].area) + "," +
                 AssignmentsOf(asgs, serviceId)[i].userName + "," +
                 DateCell(ss, serviceId) + "," + TimeCell(ss, serviceId)
  {
    var a := AssignmentsOf(asgs, serviceId)[i];
    var row := ExportRows(ss, asgs, serviceId)[i + 1];
    assert row == [AreaName(a.area), a.userName, DateCell(ss, serviceId), TimeCell(ss, serviceId)];
    Text.CsvLineOfFour(row);
  }

  /** Reading the exported content back as comma-separated lines gives the table. */
  lemma ExportCsvRoundTrip(ss: seq<ChurchService>, asgs: seq<Assignment>, serviceId: string)
    requires Text.PlainCell(DateCell(ss, serviceId)) && Text.PlainCell(TimeCell(ss, serviceId))
    requires forall a :: a in asgs && a.serviceId == serviceId ==> Text.PlainCell(a.userName)
    ensures Map(Text.Split(Text.CsvContent(ExportRows(ss, asgs, serviceId)), '\n'), (l: string) => Text.Split(l, ','))
              == ExportRows(ss, asgs, serviceId)
  {
    ExportRowsArePlain(ss, asgs, serviceId);
    Text.CsvRoundTrip(ExportRows(ss, asgs, serviceId));
  }

  // ----- The app's sample data -----

  /** The services the app starts with. */
  const MockServices: seq<ChurchService> := [
    ChurchService("s1", "2023-11-23", "20:00", Some(QuintaFeira), true, "Culto de Oração"),
    ChurchService("s2", "2023-11-25", "20:00", Some(Sabado), true, "Reunião de Jovens"),
    ChurchService("s3", "2023-11-26", "09:30", Some(Domingo), false, "EBD")
  ]

  /** The sample services have distinct ids and each carries the day name of its date. */
  lemma MockServicesConsistent()
    ensures DistinctServiceIds(MockServices)
    ensures forall i :: 0 <= i < |MockServices| ==>
              MockServices[i].dayOfWeek == Calendar.DayOfWeekOf(MockServices[i].date)
  {
    MockServiceIdsDistinct();
    forall i | 0 <= i < |MockServices|
      ensures MockServices[i].dayOfWeek == Calendar.DayOfWeekOf(MockServices[i].date)
    {
      MockServiceDayMatches(i);
    }
  }

  lemma MockServiceIdsDistinct()
    ensures DistinctServiceIds(MockServices)
  {
    forall i, j | 0 <= i < j < |MockServices|
      ensures MockServices[i].id != MockServices[j].id
    {
      assert MockServices[i].id[1] == "123"[i] && MockServices[j].id[1] == "123"[j];
    }
  }

  lemma MockServiceDayMatches(i: int)
    requires 0 <= i < |MockServices|
    ensures MockServices[i].dayOfWeek == Calendar.DayOfWeekOf(MockServices[i].date)
  {
    if i == 0 {
      MockServiceDay(0, 23, QuintaFeira);
    } else if i == 1 {
      MockServiceDay(1, 25, Sabado);
    } else {
      MockServiceDay(2, 26, Domingo);
    }
  }

  /** Sample service `i`, dated 2023-11-`day`, is stored with `name`, and `name` is
      the day name of that date. */
  lemma MockServiceDay(i: int, day: int, name: ServiceDay)
    requires 0 <= i < |MockServices| && 1 <= day <= 30
    requires MockServices[i].date == "2023-11-" + Calendar.Pad2(day)
    requires MockServices[i].dayOfWeek == Some(name) && Calendar.DayNames[(day + 2) % 7] == name
    ensures MockServices[i].dayOfWeek == Calendar.DayOfWeekOf(MockServices[i].date)
  {
    NovemberDayName(day, MockServices[i].date);
  }

  /** The day name stored for 2023-11-`day`. */
  lemma NovemberDayName(day: int, s: string)
    requires 1 <= day <= 30
    requires s == "2023-11-" + Calendar.Pad2(day)
    ensures Calendar.DayOfWeekOf(s) == Some(Calendar.DayNames[(day + 2) % 7])
  {
    November2023Weekday(day);
    assert s == Calendar.FormatDate(Calendar.Date(2023, 11, day));
    Calendar.ParseFormatRoundTrip(Calendar.Date(2023, 11, day));
  }

  /** November 2023 began on a Wednesday. */
  lemma November2023Weekday(d: int)
    requires 1 <= d <= 30
    ensures Calendar.ValidDate(Calendar.Date(2023, 11, d))
    ensures Calendar.Weekday(Calendar.Date(2023, 11, d)) == (d + 2) % 7
  {
    assert Calendar.DaysBeforeYear(2023) == 738886;
    assert Calendar.DaysBeforeMonth(2023, 11) == 304 by {
      assert Calendar.DaysBeforeMonth(2023, 2) == 31;
      assert Calendar.DaysBeforeMonth(2023, 3) == 59;
      assert Calendar.DaysBeforeMonth(2023, 4) == 90;
      assert Calendar.DaysBeforeMonth(2023, 5) == 120;
      assert Calendar.DaysBeforeMonth(2023, 6) == 151;
      assert Calendar.DaysBeforeMonth(2023, 7) == 181;
      assert Calendar.DaysBeforeMonth(2023, 8) == 212;
      assert Calendar.DaysBeforeMonth(2023, 9) == 243;
      assert Calendar.DaysBeforeMonth(2023, 10) == 273;
    }
  }
}
