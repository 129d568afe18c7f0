/** Medicine records (src/services/medicineService.ts): create with required
    fields, owner-only reads, a field-by-field partial update, and a delete that
    first removes the medicine's history. */
module MedicineService {
  import opened Wrappers
  import opened Records
  import opened Tables
  import opened MedicineHistoryService

  /** The fields createMedicine receives. An empty `name` stands for a missing
      one; `lastTakenAt` is `None` when the field is missing or empty. */
  datatype MedicineData = MedicineData(
    userId: Id,
    name: string,
    form: DosageForm,
    intervalHours: int,
    lastTakenAt: Option<Time>,
    continuousUse: bool,
    treatmentFinished: Option<bool>,
    totalPills: Option<int>,
    pillsPerDose: Option<int>,
    totalMl: Option<int>,
    mlPerDose: Option<int>)

  /** The check `!name || !intervalHours || !lastTakenAt` passes. */
  predicate HasRequiredFields(d: MedicineData) {
    d.name != "" && d.intervalHours != 0 && d.lastTakenAt.Some?
  }

  /** createMedicine: stores a new medicine, or fails and stores nothing when a
      required field is missing. `treatmentFinished` defaults to false. */
  method CreateMedicine(db: Database, d: MedicineData, now: Time) returns (r: Result<Medicine, Error>)
    requires db.Valid()
    modifies db
    ensures db.Valid()
    ensures r.Success? <==> HasRequiredFields(d)
    ensures r.Failure? ==> r.error == MissingRequiredFields && unchanged(db)
    ensures r.Success? ==>
              var m := r.value;
              && m.id == old(db.nextId) && m.id !in old(db.medicines)
              && db.medicines == old(db.medicines)[m.id := m]
              && m.userId == d.userId && m.name == d.name && m.form == d.form
              && m.intervalHours == d.intervalHours && m.lastTakenAt == d.lastTakenAt
              && m.continuousUse == d.continuousUse
              && m.treatmentFinished == d.treatmentFinished.GetOr(false)
              && m.totalPills == d.totalPills && m.pillsPerDose == d.pillsPerDose
              && m.totalMl == d.totalMl && m.mlPerDose == d.mlPerDose
              && m.createdAt == now
              && db.history == old(db.history) && db.users == old(db.users)
              && db.exams == old(db.exams) && db.photos == old(db.photos)
              && db.nextId == old(db.nextId) + 1 && db.nextIv == old(db.nextIv)
              && LedgerBounded(db.history, db.medicines, m.id)
  {
    if !HasRequiredFields(d) {
      return Failure(MissingRequiredFields);
    }
    var m := Medicine(db.nextId, d.userId, d.name, d.form, d.intervalHours, d.lastTakenAt,
                      d.continuousUse, d.treatmentFinished.GetOr(false),
                      d.totalPills, d.pillsPerDose, d.totalMl, d.mlPerDose, now);
    db.medicines := db.medicines[m.id := m];
    db.nextId := db.nextId + 1;
    r := Success(m);
  }

  /** getMedicines: exactly the caller's medicines, each once, newest first. */
  method GetMedicines(db: Database, userId: Id) returns (rows: seq<Medicine>)
    requires db.Valid()
    ensures forall m :: m in rows <==> m in db.medicines.Values && m.userId == userId
    ensures Distinct(rows)
    ensures forall i, j :: 0 <= i < j < |rows| ==> rows[i].createdAt >= rows[j].createdAt
  {
    rows := SelectSorted(db.medicines, (m: Medicine) => m.userId == userId,
                         (m: Medicine) => m.createdAt);
  }

  /** A medicine with its history rows (`include: { history: true }`). */
  datatype MedicineDetail = MedicineDetail(medicine: Medicine, history: map<Id, DoseRecord>)

  /** getMedicineById: the owned medicine and all of its history. */
  function GetMedicineById(db: Database, id: Id, userId: Id): (r: Result<MedicineDetail, Error>)
    reads db
    requires db.Valid()
    ensures r.Success? <==> db.OwnsMedicine(id, userId)
    ensures r.Failure? ==> r.error == NotFoundOrUnauthorized
    ensures r.Success? ==>
              && r.value.medicine == db.medicines[id]
              && r.value.medicine.userId == userId
              && (forall h :: h in r.value.history <==> h in db.history && db.history[h].medicineId == id)
              && (forall h :: h in r.value.history ==> r.value.history[h] == db.history[h])
  {
    if !db.OwnsMedicine(id, userId) then
      Failure(NotFoundOrUnauthorized)
    else
      Success(MedicineDetail(db.medicines[id],
                             map h | h in db.history && db.history[h].medicineId == id :: db.history[h]))
  }

  /** The fields updateMedicine receives; `None` is a field left undefined. */
  datatype MedicinePatch = MedicinePatch(
    name: Option<string>,
    form: Option<DosageForm>,
    intervalHours: Option<int>,
    lastTakenAt: Option<Time>,
    continuousUse: Option<bool>,
    treatmentFinished: Option<bool>,
    totalPills: Option<int>,
    pillsPerDose: Option<int>,
    totalMl: Option<int>,
    mlPerDose: Option<int>)

  /** The patch with every field undefined. */
  const NoChange := MedicinePatch(None, None, None, None, None, None, None, None, None, None)

  /** `Some(x)` when the patch defines `x`, otherwise the stored value. */
  function Pick<T>(given: Option<T>, stored: T): T {
    if given.Some? then given.value else stored
  }

  /** `Some(x)` when the patch defines `x`, otherwise the stored nullable value. */
  function PickNullable<T>(given: Option<T>, stored: Option<T>): Option<T> {
    if given.Some? then given else stored
  }

  /** The record after the update built from conditional spreads: a field changes
      exactly when the patch defines it. */
  function ApplyPatch(m: Medicine, p: MedicinePatch): (r: Medicine)
    ensures r.id == m.id && r.userId == m.userId && r.createdAt == m.createdAt
    ensures p.name.None? ==> r.name == m.name
    ensures p.name.Some? ==> r.name == p.name.value
    ensures p.form.None? ==> r.form == m.form
    ensures p.form.Some? ==> r.form == p.form.value
    ensures p.intervalHours.None? ==> r.intervalHours == m.intervalHours
    ensures p.intervalHours.Some? ==> r.intervalHours == p.intervalHours.value
    ensures p.lastTakenAt.None? ==> r.lastTakenAt == m.lastTakenAt
    ensures p.lastTakenAt.Some? ==> r.lastTakenAt == p.lastTakenAt
    ensures p.continuousUse.None? ==> r.continuousUse == m.continuousUse
    ensures p.continuousUse.Some? ==> r.continuousUse == p.continuousUse.value
    ensures p.treatmentFinished.None? ==> r.treatmentFinished == m.treatmentFinished
    ensures p.treatmentFinished.Some? ==> r.treatmentFinished == p.treatmentFinished.value
    ensures p.totalPills.None? ==> r.totalPills == m.totalPills
    ensures p.totalPills.Some? ==> r.totalPills == p.totalPills
    ensures p.pillsPerDose.None? ==> r.pillsPerDose == m.pillsPerDose
    ensures p.pillsPerDose.Some? ==> r.pillsPerDose == p.pillsPerDose
    ensures p.totalMl.None? ==> r.totalMl == m.totalMl
    ensures p.totalMl.Some? ==> r.totalMl == p.totalMl
    ensures p.mlPerDose.None? ==> r.mlPerDose == m.mlPerDose
    ensures p.mlPerDose.Some? ==> r.mlPerDose == p.mlPerDose
  {
    m.(name := Pick(p.name, m.name),
       form := Pick(p.form, m.form),
       intervalHours := Pick(p.intervalHours, m.intervalHours),
       lastTakenAt := PickNullable(p.lastTakenAt, m.lastTakenAt),
       continuousUse := Pick(p.continuousUse, m.continuousUse),
       treatmentFinished := Pick(p.treatmentFinished, m.treatmentFinished),
       totalPills := PickNullable(p.totalPills, m.totalPills),
       pillsPerDose := PickNullable(p.pillsPerDose, m.pillsPerDose),
       totalMl := PickNullable(p.totalMl, m.totalMl),
       mlPerDose := PickNullable(p.mlPerDose, m.mlPerDose))
  }

  /** Applying the same patch twice is the same as applying it once. */
  lemma PatchIsIdempotent(m: Medicine, p: MedicinePatch)
    ensures ApplyPatch(ApplyPatch(m, p), p) == ApplyPatch(m, p)
  {
  }

  /** An update that defines nothing leaves the record as it was. */
  lemma EmptyPatchIsIdentity(m: Medicine)
    ensures ApplyPatch(m, NoChange) == m
  {
  }

  /** An update may move the dose cursor backwards: the cursor is not monotone
      across updates, only across recorded doses. */
  lemma PatchCanRewindCursor(m: Medicine, t: Time)
    requires m.lastTakenAt.Some? && t < m.lastTakenAt.value
    ensures var r := ApplyPatch(m, NoChange.(lastTakenAt := Some(t)));
            r.lastTakenAt.Some? && r.lastTakenAt.value < m.lastTakenAt.value
  {
  }

  /** updateMedicine: applies the patch to an owned medicine; nothing else changes,
      and nothing at all on error. */
  method UpdateMedicine(db: Database, id: Id, userId: Id, p: MedicinePatch) returns (r: Result<Medicine, Error>)
    requires db.Valid()
    modifies db
    ensures db.Valid()
    ensures r.Success? <==> old(db.OwnsMedicine(id, userId))
    ensures r.Failure? ==> r.error == NotFoundOrUnauthorized && unchanged(db)
    ensures r.Success? ==>
              && r.value == ApplyPatch(old(db.medicines)[id], p)
              && db.medicines == old(db.medicines)[id := r.value]
              && db.history == old(db.history) && db.users == old(db.users)
              && db.exams == old(db.exams) && db.photos == old(db.photos)
              && db.nextId == old(db.nextId) && db.nextIv == old(db.nextIv)
  {
    if !db.OwnsMedicine(id, userId) {
      return Failure(NotFoundOrUnauthorized);
    }
    var updated := ApplyPatch(db.medicines[id], p);
    db.medicines := db.medicines[id := updated];
    r := Success(updated);
  }

  /** deleteMedicine: removes every history row of the owned medicine, then the
      medicine; other medicines and their history are untouched. */
  method DeleteMedicine(db: Database, id: Id, userId: Id) returns (r: Result<(), Error>)
    requires db.Valid()
    modifies db
    ensures db.Valid()
    ensures r.Success? <==> old(db.OwnsMedicine(id, userId))
    ensures r.Failure? ==> r.error == NotFoundOrUnauthorized && unchanged(db)
    ensures r.Success? ==>
              && db.medicines == old(db.medicines) - {id}
              && (forall h :: h in db.history <==> h in old(db.history) && old(db.history)[h].medicineId != id)
              && (forall h :: h in db.history ==> db.history[h] == old(db.history)[h])
              && db.users == old(db.users) && db.exams == old(db.exams) && db.photos == old(db.photos)
              && db.nextId == old(db.nextId) && db.nextIv == old(db.nextIv)
  {
    if !db.OwnsMedicine(id, userId) {
      return Failure(NotFoundOrUnauthorized);
    }
    db.history := map h | h in db.history && db.history[h].medicineId != id :: db.history[h];
    db.medicines := db.medicines - {id};
    r := Success(());
  }
}
