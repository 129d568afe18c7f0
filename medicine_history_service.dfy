/** The dose ledger (src/services/medicineHistoryService.ts): recording a dose
    against a medicine's cursor `lastTakenAt`, and ownership-checked reads and
    deletes of history rows. */
module MedicineHistoryService {
  import opened Wrappers
  import opened Records
  import opened Tables

  /** The time a new dose of `m` is recorded at, or why it is refused. An on-time
      dose is due `intervalHours` after the cursor, whatever time the caller sent;
      any other dose is taken at the caller's time. Either way it must fall
      strictly after the cursor. */
  function DoseTime(m: Medicine, takenAt: Time, onTime: bool): (r: Result<Time, Error>)
    ensures r == Failure(NoPreviousDose) <==> onTime && m.lastTakenAt.None?
    ensures r.Success? && onTime ==>
              m.lastTakenAt.Some? && r.value == m.lastTakenAt.value + m.intervalHours * HourMs
    ensures r.Success? && !onTime ==> r.value == takenAt
    ensures r.Success? && m.lastTakenAt.Some? ==> m.lastTakenAt.value < r.value
    ensures !onTime ==> (r.Success? <==> m.lastTakenAt.None? || m.lastTakenAt.value < takenAt)
    ensures r.Failure? ==> r.error == NoPreviousDose || r.error == NotAfterLastDose
  {
    var t :- if !onTime then Success(takenAt)
             else if m.lastTakenAt.None? then Failure(NoPreviousDose)
             else Success(m.lastTakenAt.value + m.intervalHours * HourMs);
    if m.lastTakenAt.Some? && t <= m.lastTakenAt.value then Failure(NotAfterLastDose) else Success(t)
  }

  /** With a positive interval, an on-time dose after a first dose is never refused. */
  lemma OnTimeDoseAlwaysAdvances(m: Medicine, takenAt: Time)
    requires m.lastTakenAt.Some? && m.intervalHours > 0
    ensures DoseTime(m, takenAt, true) == Success(m.lastTakenAt.value + m.intervalHours * HourMs)
  {
  }

  /** The rows of one medicine's history are strictly increasing in `takenAt` in
      id (insertion) order, and none lies after the medicine's cursor. */
  ghost predicate LedgerBounded(history: map<Id, DoseRecord>, medicines: map<Id, Medicine>, mid: Id) {
    && (forall h1, h2 :: h1 in history && h2 in history && h1 < h2
          && history[h1].medicineId == mid && history[h2].medicineId == mid
          ==> history[h1].takenAt < history[h2].takenAt)
    && (forall h :: h in history && history[h].medicineId == mid ==>
          && mid in medicines
          && medicines[mid].lastTakenAt.Some?
          && history[h].takenAt <= medicines[mid].lastTakenAt.value)
  }

  /** The newest history row of the medicine was taken exactly at its cursor. */
  ghost predicate LedgerTip(history: map<Id, DoseRecord>, medicines: map<Id, Medicine>, mid: Id) {
    && mid in medicines
    && exists h :: && h in history && history[h].medicineId == mid
                   && Some(history[h].takenAt) == medicines[mid].lastTakenAt
                   && (forall g :: g in history && history[g].medicineId == mid ==> g <= h)
  }

  /** Appending a dose newer than every row id and later than its medicine's
      cursor, and advancing the cursor to it, keeps every ledger bounded and puts
      the new dose at the tip of its own. */
  lemma AppendDose(history: map<Id, DoseRecord>, medicines: map<Id, Medicine>, rec: DoseRecord)
    requires rec.medicineId in medicines
    requires forall h :: h in history ==> h < rec.id
    requires medicines[rec.medicineId].lastTakenAt.Some? ==>
               medicines[rec.medicineId].lastTakenAt.value < rec.takenAt
    ensures var history' := history[rec.id := rec];
            var medicines' := medicines[rec.medicineId :=
                                medicines[rec.medicineId].(lastTakenAt := Some(rec.takenAt))];
            && (forall mid :: LedgerBounded(history, medicines, mid) ==> LedgerBounded(history', medicines', mid))
            && LedgerTip(history', medicines', rec.medicineId)
  {
    var history' := history[rec.id := rec];
    var medicines' := medicines[rec.medicineId := medicines[rec.medicineId].(lastTakenAt := Some(rec.takenAt))];
    assert history'[rec.id].medicineId == rec.medicineId;
  }

  /** The writes of createHistory: the new row under the next id, and the
      medicine's cursor moved to its time. */
  method AppendRecord(db: Database, rec: DoseRecord)
    requires db.Valid() && rec.id == db.nextId && rec.medicineId in db.medicines
    requires db.medicines[rec.medicineId].lastTakenAt.Some? ==>
               db.medicines[rec.medicineId].lastTakenAt.value < rec.takenAt
    modifies db
    ensures db.Valid()
    ensures rec.id !in old(db.history) && db.history == old(db.history)[rec.id := rec]
    ensures db.medicines == old(db.medicines)[rec.medicineId :=
              old(db.medicines)[rec.medicineId].(lastTakenAt := Some(rec.takenAt))]
    ensures db.users == old(db.users) && db.exams == old(db.exams) && db.photos == old(db.photos)
    ensures db.nextId == old(db.nextId) + 1 && db.nextIv == old(db.nextIv)
    ensures forall mid :: LedgerBounded(old(db.history), old(db.medicines), mid) ==>
                          LedgerBounded(db.history, db.medicines, mid)
    ensures LedgerTip(db.history, db.medicines, rec.medicineId)
  {
    AppendDose(db.history, db.medicines, rec);
    db.history := db.history[rec.id := rec];
    db.nextId := db.nextId + 1;
    db.medicines := db.medicines[rec.medicineId :=
                      db.medicines[rec.medicineId].(lastTakenAt := Some(rec.takenAt))];
  }

  /** createHistory: records a dose of an owned medicine and advances its cursor.
      On any error nothing changes. */
  method CreateHistory(db: Database, medicineId: Id, userId: Id, takenAt: Time, onTime: bool)
    returns (r: Result<DoseRecord, Error>)
    requires db.Valid()
    modifies db
    ensures db.Valid()
    ensures r.Failure? ==> unchanged(db)
    ensures !old(db.OwnsMedicine(medicineId, userId)) ==> r == Failure(NotFoundOrUnauthorized)
    ensures old(db.OwnsMedicine(medicineId, userId)) ==>
              var t := DoseTime(old(db.medicines)[medicineId], takenAt, onTime);
              && (t.Failure? ==> r == Failure(t.error))
              && (t.Success? ==> r == Success(DoseRecord(old(db.nextId), medicineId, t.value, onTime)))
    ensures r.Success? ==>
              && r.value.id !in old(db.history)
              && db.history == old(db.history)[r.value.id := r.value]
              && db.medicines == old(db.medicines)[medicineId :=
                   old(db.medicines)[medicineId].(lastTakenAt := Some(r.value.takenAt))]
              && db.users == old(db.users) && db.exams == old(db.exams) && db.photos == old(db.photos)
              && db.nextId == old(db.nextId) + 1 && db.nextIv == old(db.nextIv)
    ensures forall mid :: LedgerBounded(old(db.history), old(db.medicines), mid) ==>
                          LedgerBounded(db.history, db.medicines, mid)
    ensures r.Success? ==> LedgerTip(db.history, db.medicines, medicineId)
  {
    if !db.OwnsMedicine(medicineId, userId) {
      return Failure(NotFoundOrUnauthorized);
    }
    var medicine := db.medicines[medicineId];

    var finalTakenAt: Time;
    if onTime {
      if medicine.lastTakenAt.None? {
        return Failure(NoPreviousDose);
      }
      finalTakenAt := medicine.lastTakenAt.value;
      finalTakenAt := finalTakenAt + medicine.intervalHours * HourMs;
    } else {
      finalTakenAt := takenAt;
    }

    if medicine.lastTakenAt.Some? && finalTakenAt <= medicine.lastTakenAt.value {
      return Failure(NotAfterLastDose);
    }

    var record := DoseRecord(db.nextId, medicineId, finalTakenAt, onTime);
    AppendRecord(db, record);
    r := Success(record);
  }

  /** getHistoryByMedicine: after the owner check, exactly the medicine's history
      rows, each once, latest dose first. */
  method GetHistoryByMedicine(db: Database, medicineId: Id, userId: Id)
    returns (r: Result<seq<DoseRecord>, Error>)
    requires db.Valid()
    ensures r.Success? <==> db.OwnsMedicine(medicineId, userId)
    ensures r.Failure? ==> r.error == NotFoundOrUnauthorized
    ensures r.Success? ==>
              && (forall h :: h in r.value <==> h in db.history.Values && h.medicineId == medicineId)
              && Distinct(r.value)
              && (forall i, j :: 0 <= i < j < |r.value| ==> r.value[i].takenAt >= r.value[j].takenAt)
  {
    if !db.OwnsMedicine(medicineId, userId) {
      return Failure(NotFoundOrUnauthorized);
    }
    var rows := SelectSorted(db.history, (h: DoseRecord) => h.medicineId == medicineId,
                             (h: DoseRecord) => h.takenAt);
    return Success(rows);
  }

  /** A history row together with its medicine (`include: { medicine: true }`). */
  datatype HistoryEntry = HistoryEntry(record: DoseRecord, medicine: Medicine)

  /** getHistoryById: the row and its medicine, only if the medicine belongs to
      the caller. */
  function GetHistoryById(db: Database, historyId: Id, userId: Id): (r: Result<HistoryEntry, Error>)
    reads db
    requires db.Valid()
    ensures r.Success? <==> db.OwnsHistory(historyId, userId)
    ensures r.Failure? ==> r.error == NotFoundOrUnauthorized
    ensures r.Success? ==>
              && r.value.record == db.history[historyId]
              && r.value.medicine.id == r.value.record.medicineId
              && r.value.record.medicineId in db.medicines
              && r.value.medicine == db.medicines[r.value.record.medicineId]
              && r.value.medicine.userId == userId
  {
    if !db.OwnsHistory(historyId, userId) then
      Failure(NotFoundOrUnauthorized)
    else
      var record := db.history[historyId];
      Success(HistoryEntry(record, db.medicines[record.medicineId]))
  }

  /** deleteHistory: removes one owned history row and nothing else; the
      medicine's cursor is left where it was. */
  method DeleteHistory(db: Database, historyId: Id, userId: Id) returns (r: Result<(), Error>)
    requires db.Valid()
    modifies db
    ensures db.Valid()
    ensures r.Success? <==> old(db.OwnsHistory(historyId, userId))
    ensures r.Failure? ==> r.error == NotFoundOrUnauthorized && unchanged(db)
    ensures r.Success? ==>
              && db.history == old(db.history) - {historyId}
              && db.medicines == old(db.medicines)
              && db.users == old(db.users) && db.exams == old(db.exams) && db.photos == old(db.photos)
              && db.nextId == old(db.nextId) && db.nextIv == old(db.nextIv)
    ensures forall mid :: LedgerBounded(old(db.history), old(db.medicines), mid) ==>
                          LedgerBounded(db.history, db.medicines, mid)
  {
    if !db.OwnsHistory(historyId, userId) {
      return Failure(NotFoundOrUnauthorized);
    }
    db.history := db.history - {historyId};
    r := Success(());
  }

  /** A dose request as createHistory receives it. */
  datatype DoseRequest = DoseRequest(takenAt: Time, onTime: bool)

  /** The medicine and the accepted dose times after a run of createHistory
      calls on it, in call order; refused requests change nothing. */
  function Replay(m: Medicine, requests: seq<DoseRequest>): (Medicine, seq<Time>)
    decreases |requests|
  {
    if requests == [] then
      (m, [])
    else
      match DoseTime(m, requests[0].takenAt, requests[0].onTime)
      case Failure(_) => Replay(m, requests[1..])
      case Success(t) =>
        var (last, times) := Replay(m.(lastTakenAt := Some(t)), requests[1..]);
        (last, [t] + times)
  }

  /** Whatever the requests, the doses a run of createHistory calls records are
      strictly increasing, all after the starting cursor, and the final cursor is
      the last of them; no other field of the medicine changes. */
  lemma {:induction false} ReplayIsMonotone(m: Medicine, requests: seq<DoseRequest>)
    ensures var (last, times) := Replay(m, requests);
              && (forall i, j :: 0 <= i < j < |times| ==> times[i] < times[j])
              && (m.lastTakenAt.Some? ==> forall i :: 0 <= i < |times| ==> m.lastTakenAt.value < times[i])
              && (|times| > 0 ==> last.lastTakenAt == Some(times[|times| - 1]))
              && (|times| == 0 ==> last.lastTakenAt == m.lastTakenAt)
              && last == m.(lastTakenAt := last.lastTakenAt)
    decreases |requests|
  {
    if requests != [] {
      match DoseTime(m, requests[0].takenAt, requests[0].onTime)
      case Failure(_) =>
        ReplayIsMonotone(m, requests[1..]);
      case Success(t) =>
        ReplayIsMonotone(m.(lastTakenAt := Some(t)), requests[1..]);
    }
  }

  /** Two on-time doses in a row land one and two intervals after the cursor. */
  method TwoOnTimeDoses(db: Database, medicineId: Id, userId: Id, takenAt: Time)
    returns (first: Result<DoseRecord, Error>, second: Result<DoseRecord, Error>)
    requires db.Valid() && db.OwnsMedicine(medicineId, userId)
    requires db.medicines[medicineId].lastTakenAt.Some? && db.medicines[medicineId].intervalHours > 0
    modifies db
    ensures var t0 := old(db.medicines)[medicineId].lastTakenAt.value;
            var h := old(db.medicines)[medicineId].intervalHours * HourMs;
            && first.Success? && first.value.takenAt == t0 + h
            && second.Success? && second.value.takenAt == t0 + 2 * h
            && medicineId in db.medicines
            && db.medicines[medicineId].lastTakenAt == Some(t0 + 2 * h)
  {
    ghost var m := db.medicines[medicineId];
    OnTimeDoseAlwaysAdvances(m, takenAt);
    first := CreateHistory(db, medicineId, userId, takenAt, true);
    ghost var m' := db.medicines[medicineId];
    assert m' == m.(lastTakenAt := Some(first.value.takenAt));
    assert db.OwnsMedicine(medicineId, userId);
    OnTimeDoseAlwaysAdvances(m', takenAt);
    second := CreateHistory(db, medicineId, userId, takenAt, true);
  }
}
