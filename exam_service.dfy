/** Exam records (src/services/examService.ts): encrypted results and photo
    metadata, owner-only reads that decrypt, an update that removes and adds
    photos, and a delete that first removes the exam's photos. */
module ExamService {
  import opened Wrappers
  import opened Cipher
  import opened Records
  import opened Tables

  /** An uploaded file as the upload middleware hands it over. */
  datatype Upload = Upload(originalName: string, mimeType: string, buffer: seq<bv8>)

  /** The fields createExam receives; an empty `name` stands for a missing one. */
  datatype ExamData = ExamData(userId: Id, name: string, description: Option<string>,
                               date: Option<Time>, result: Option<string>, photos: seq<Upload>)

  /** The fields updateExam receives; `None` is a field left undefined. */
  datatype ExamPatch = ExamPatch(name: Option<string>, description: Option<string>,
                                 date: Option<Time>, result: Option<string>,
                                 photos: seq<Upload>, removePhotos: seq<Id>)

  /** A photo as the reads return it: metadata decrypted, bytes left out. */
  datatype PhotoView = PhotoView(id: Id, fileName: string, mimeType: string, createdAt: Time)

  /** An exam as the reads return it: result decrypted, photos attached. */
  datatype ExamView = ExamView(id: Id, userId: Id, name: string, description: Option<string>,
                               date: Time, result: Option<string>, photos: map<Id, PhotoView>)

  /** A photo as getExamPhotoById returns it. */
  datatype PhotoFile = PhotoFile(data: seq<bv8>, mimeType: string, fileName: string)

  /** A result text is truthy: present and not empty. */
  predicate Given(s: Option<string>) {
    s.Some? && s.value != ""
  }

  /** `result ? encrypt(result) : null`. */
  function SealResult(key: int, iv: nat, result: Option<string>): (t: Option<Token>)
    ensures t.Some? <==> Given(result)
    ensures t.Some? ==> t.value.iv == iv
  {
    if Given(result) then Some(Encrypt(key, iv, result.value)) else None
  }

  /** `exam.result ? decrypt(exam.result) : null`, for a readable exam. */
  function OpenResult(key: int, t: Option<Token>): (r: Option<string>)
    requires t.Some? ==> Decrypt(key, t.value).Some?
    ensures t.Some? ==> r == Decrypt(key, t.value)
    ensures t.None? ==> r.None?
  {
    if t.Some? then Decrypt(key, t.value) else None
  }

  /** A stored result reads back as the text that was given, or null. */
  lemma ResultRoundTrip(key: int, iv: nat, result: Option<string>)
    ensures var t := SealResult(key, iv, result);
            (t.Some? ==> Decrypt(key, t.value).Some?) &&
            OpenResult(key, t) == if Given(result) then result else None
  {
    if Given(result) {
      RoundTrip(key, iv, result.value);
    }
  }

  /** `p` is the photo row made from upload `u` for exam `examId` at `now`. */
  ghost predicate StoresUpload(key: int, p: Photo, examId: Id, u: Upload, now: Time) {
    && p.examId == examId
    && Decrypt(key, p.fileName) == Some(u.originalName)
    && Decrypt(key, p.mimeType) == Some(u.mimeType)
    && p.data == u.buffer
    && p.createdAt == now
  }

  function ViewPhoto(key: int, p: Photo): (v: PhotoView)
    requires PhotoReadable(key, p)
    ensures v.id == p.id && v.createdAt == p.createdAt
    ensures Some(v.fileName) == Decrypt(key, p.fileName) && Some(v.mimeType) == Decrypt(key, p.mimeType)
  {
    PhotoView(p.id, Decrypt(key, p.fileName).value, Decrypt(key, p.mimeType).value, p.createdAt)
  }

  /** The decrypting projection of an exam and its photos. */
  function ViewExam(key: int, e: Exam, photos: map<Id, Photo>): (v: ExamView)
    requires ExamReadable(key, e)
    requires forall p :: p in photos ==> PhotoReadable(key, photos[p])
    ensures v.id == e.id && v.userId == e.userId && v.name == e.name
    ensures v.description == e.description && v.date == e.date
    ensures v.result == OpenResult(key, e.result)
    ensures forall p :: p in v.photos <==> p in photos && photos[p].examId == e.id
    ensures forall p :: p in v.photos ==> v.photos[p] == ViewPhoto(key, photos[p])
  {
    ExamView(e.id, e.userId, e.name, e.description, e.date, OpenResult(key, e.result),
             map p | p in photos && photos[p].examId == e.id :: ViewPhoto(key, photos[p]))
  }

  /** The photo rows made from `uploads` for exam `examId` (`photos.map(...)`):
      upload i becomes row `firstId + i`, its metadata encrypted with fresh IVs
      `firstIv + 2 * i` and `firstIv + 2 * i + 1`. */
  function NewPhotos(key: int, firstId: Id, firstIv: nat, examId: Id, uploads: seq<Upload>, now: Time)
    : (rows: map<Id, Photo>)
    ensures forall q :: q in rows <==> firstId <= q < firstId + |uploads|
    decreases |uploads|
  {
    if uploads == [] then
      map[]
    else
      var n := |uploads| - 1;
      var rows := NewPhotos(key, firstId, firstIv, examId, uploads[..n], now);
      var photo := NewPhoto(key, firstId + n, firstIv + 2 * n, examId, uploads[n], now);
      rows[photo.id := photo]
  }

  /** Row `q` of NewPhotos is the photo of upload `q - firstId`, encrypted with
      the IVs `firstIv + 2 * (q - firstId)` and the one after it. */
  lemma {:induction false} NewPhotosRow(key: int, firstId: Id, firstIv: nat, examId: Id,
                                        uploads: seq<Upload>, now: Time, q: Id)
    requires firstId <= q < firstId + |uploads|
    ensures NewPhotos(key, firstId, firstIv, examId, uploads, now)[q]
            == NewPhoto(key, q, firstIv + 2 * (q - firstId), examId, uploads[q - firstId], now)
    decreases |uploads|
  {
    var n := |uploads| - 1;
    if q < firstId + n {
      NewPhotosRow(key, firstId, firstIv, examId, uploads[..n], now, q);
      assert uploads[..n][q - firstId] == uploads[q - firstId];
    }
  }

  /** Every row of NewPhotos is readable, stored under its own id, and holds its
      upload's name, type and bytes. */
  lemma NewPhotosStoreUploads(key: int, firstId: Id, firstIv: nat, examId: Id,
                              uploads: seq<Upload>, now: Time)
    ensures forall q :: q in NewPhotos(key, firstId, firstIv, examId, uploads, now) ==>
              && NewPhotos(key, firstId, firstIv, examId, uploads, now)[q].id == q
              && PhotoReadable(key, NewPhotos(key, firstId, firstIv, examId, uploads, now)[q])
              && StoresUpload(key, NewPhotos(key, firstId, firstIv, examId, uploads, now)[q], examId,
                              uploads[q - firstId], now)
  {
    var rows := NewPhotos(key, firstId, firstIv, examId, uploads, now);
    forall q | q in rows
      ensures rows[q].id == q && PhotoReadable(key, rows[q])
      ensures StoresUpload(key, rows[q], examId, uploads[q - firstId], now)
    {
      NewPhotosRow(key, firstId, firstIv, examId, uploads, now, q);
      NewPhotoStoresUpload(key, q, firstIv + 2 * (q - firstId), examId, uploads[q - firstId], now);
    }
  }

  /** The photo row made from one upload, its metadata encrypted with IVs `iv`
      and `iv + 1`. */
  function NewPhoto(key: int, id: Id, iv: nat, examId: Id, u: Upload, now: Time): Photo {
    Photo(id, examId, Encrypt(key, iv, u.originalName), Encrypt(key, iv + 1, u.mimeType), u.buffer, now)
  }

  /** The row made from an upload decrypts back to the upload's name and type. */
  lemma NewPhotoStoresUpload(key: int, id: Id, iv: nat, examId: Id, u: Upload, now: Time)
    ensures var p := NewPhoto(key, id, iv, examId, u, now);
            p.id == id && PhotoReadable(key, p) && StoresUpload(key, p, examId, u, now)
  {
    RoundTrip(key, iv, u.originalName);
    RoundTrip(key, iv + 1, u.mimeType);
  }

  /** `after` is `before` with one new row per upload, attached to `examId`
      under the ids `first`, `first + 1`, ...; the rows of `before` are kept. */
  ghost predicate PhotosAttached(key: int, before: map<Id, Photo>, after: map<Id, Photo>, first: Id,
                                 examId: Id, uploads: seq<Upload>, now: Time)
  {
    && (forall q :: q in after <==> q in before || first <= q < first + |uploads|)
    && (forall q :: q in before ==> after[q] == before[q])
    && (forall q :: q in after && q !in before ==>
          StoresUpload(key, after[q], examId, uploads[q - first], now))
  }

  /** Adding the rows NewPhotos makes, under ids above every existing one,
      attaches exactly the uploads. */
  lemma AttachNewPhotos(key: int, before: map<Id, Photo>, first: Id, iv: nat, examId: Id,
                        uploads: seq<Upload>, now: Time)
    requires forall q :: q in before ==> q < first
    ensures PhotosAttached(key, before, before + NewPhotos(key, first, iv, examId, uploads, now),
                           first, examId, uploads, now)
  {
    NewPhotosStoreUploads(key, first, iv, examId, uploads, now);
  }

  /** `photos.deleteMany({ where: { id: { in: ids } } })`: every listed photo is
      removed, whichever exam it belongs to. */
  function Without(photos: map<Id, Photo>, ids: seq<Id>): (r: map<Id, Photo>)
    ensures forall q :: q in r <==> q in photos && q !in ids
    ensures forall q :: q in r ==> r[q] == photos[q]
  {
    map q | q in photos && q !in ids :: photos[q]
  }

  /** The photo rows of exam `examId`. */
  function PhotosOf(photos: map<Id, Photo>, examId: Id): (r: map<Id, Photo>)
    ensures forall q :: q in r <==> q in photos && photos[q].examId == examId
    ensures forall q :: q in r ==> r[q] == photos[q]
  {
    map q | q in photos && photos[q].examId == examId :: photos[q]
  }

  /** After attaching, the exam's photos are its earlier ones and the new rows. */
  lemma AttachedPhotosOf(key: int, before: map<Id, Photo>, after: map<Id, Photo>, first: Id,
                         examId: Id, uploads: seq<Upload>, now: Time)
    requires PhotosAttached(key, before, after, first, examId, uploads, now)
    requires forall q :: q in before ==> q < first
    ensures forall q :: q in PhotosOf(after, examId) <==>
                        q in PhotosOf(before, examId) || first <= q < first + |uploads|
  {
    forall q ensures q in PhotosOf(after, examId) <==>
                     q in PhotosOf(before, examId) || first <= q < first + |uploads| {
      if q in after && q !in before {
        assert StoresUpload(key, after[q], examId, uploads[q - first], now);
      }
    }
  }

  /** Adding a readable exam under the next id keeps the database consistent. */
  lemma AddExamConsistent(key: int, users: map<Id, User>, medicines: map<Id, Medicine>,
                          history: map<Id, DoseRecord>, exams: map<Id, Exam>, photos: map<Id, Photo>,
                          nextId: nat, e: Exam)
    requires Consistent(key, users, medicines, history, exams, photos, nextId)
    requires e.id == nextId && ExamReadable(key, e)
    ensures Consistent(key, users, medicines, history, exams[e.id := e], photos, nextId + 1)
  {
  }

  /** Adding readable photo rows of an existing exam under the next ids keeps the
      database consistent. */
  lemma AddPhotosConsistent(key: int, users: map<Id, User>, medicines: map<Id, Medicine>,
                            history: map<Id, DoseRecord>, exams: map<Id, Exam>, photos: map<Id, Photo>,
                            nextId: nat, rows: map<Id, Photo>, n: nat)
    requires Consistent(key, users, medicines, history, exams, photos, nextId)
    requires forall q :: q in rows <==> nextId <= q < nextId + n
    requires forall q :: q in rows ==> rows[q].id == q && rows[q].examId in exams && PhotoReadable(key, rows[q])
    ensures Consistent(key, users, medicines, history, exams, photos + rows, nextId + n)
  {
  }

  /** The photo-storing step shared by createExam and updateExam: one encrypted
      row per upload, attached to an existing exam under fresh ids and IVs. */
  method AttachPhotos(db: Database, examId: Id, uploads: seq<Upload>, now: Time)
    requires db.Valid() && examId in db.exams
    modifies db
    ensures db.Valid()
    ensures PhotosAttached(db.key, old(db.photos), db.photos, old(db.nextId), examId, uploads, now)
    ensures db.nextId == old(db.nextId) + |uploads| && db.nextIv == old(db.nextIv) + 2 * |uploads|
    ensures db.users == old(db.users) && db.medicines == old(db.medicines)
    ensures db.history == old(db.history) && db.exams == old(db.exams)
  {
    var rows := NewPhotos(db.key, db.nextId, db.nextIv, examId, uploads, now);
    NewPhotosStoreUploads(db.key, db.nextId, db.nextIv, examId, uploads, now);
    AttachNewPhotos(db.key, db.photos, db.nextId, db.nextIv, examId, uploads, now);
    AddPhotosConsistent(db.key, db.users, db.medicines, db.history, db.exams, db.photos,
                        db.nextId, rows, |uploads|);
    db.photos := db.photos + rows;
    db.nextId := db.nextId + |uploads|;
    db.nextIv := db.nextIv + 2 * |uploads|;
  }

  /** `e` is the exam row createExam makes from `d` for the date `date`: the
      given fields, and a result that is encrypted and decrypts back, or null. */
  ghost predicate ExamFromData(key: int, e: Exam, d: ExamData, date: Time) {
    && e.userId == d.userId && e.name == d.name && e.description == d.description && e.date == date
    && (e.result.Some? <==> Given(d.result)) && ExamReadable(key, e)
    && OpenResult(key, e.result) == (if Given(d.result) then d.result else None)
  }

  /** The exam row createExam stores before its photos: the next id, the
      result encrypted under the next IV or null. An IV is used up only when a
      result is encrypted. */
  method InsertExam(db: Database, d: ExamData, date: Time) returns (e: Exam)
    requires db.Valid()
    modifies db
    ensures db.Valid()
    ensures e.id == old(db.nextId) && e.id !in old(db.exams)
    ensures db.exams == old(db.exams)[e.id := e]
    ensures ExamFromData(db.key, e, d, date)
    ensures e.result.Some? ==> e.result.value.iv == old(db.nextIv)
    ensures db.nextId == old(db.nextId) + 1
    ensures db.nextIv == old(db.nextIv) + (if Given(d.result) then 1 else 0)
    ensures db.photos == old(db.photos) && db.users == old(db.users)
    ensures db.medicines == old(db.medicines) && db.history == old(db.history)
  {
    ResultRoundTrip(db.key, db.nextIv, d.result);
    e := Exam(db.nextId, d.userId, d.name, d.description, date, SealResult(db.key, db.nextIv, d.result));
    AddExamConsistent(db.key, db.users, db.medicines, db.history, db.exams, db.photos, db.nextId, e);
    db.exams := db.exams[e.id := e];
    db.nextId := db.nextId + 1;
    if Given(d.result) {
      db.nextIv := db.nextIv + 1;
    }
  }

  /** `photos.deleteMany` by id: the listed photos go, the database stays
      consistent. */
  method RemovePhotos(db: Database, ids: seq<Id>)
    requires db.Valid()
    modifies db
    ensures db.Valid()
    ensures db.photos == Without(old(db.photos), ids)
    ensures db.users == old(db.users) && db.medicines == old(db.medicines) && db.history == old(db.history)
    ensures db.exams == old(db.exams) && db.nextId == old(db.nextId) && db.nextIv == old(db.nextIv)
  {
    db.photos := Without(db.photos, ids);
  }

  /** Replacing an exam by a readable row with the same id keeps the database
      consistent. */
  lemma ReplaceExamConsistent(key: int, users: map<Id, User>, medicines: map<Id, Medicine>,
                              history: map<Id, DoseRecord>, exams: map<Id, Exam>, photos: map<Id, Photo>,
                              nextId: nat, e: Exam)
    requires Consistent(key, users, medicines, history, exams, photos, nextId)
    requires e.id in exams && ExamReadable(key, e)
    ensures Consistent(key, users, medicines, history, exams[e.id := e], photos, nextId)
  {
  }

  /** The `exam.update` step of updateExam: a given name, description or date
      replaces the stored one, a non-empty result is encrypted under the next IV,
      anything else is kept. */
  method ReviseExam(db: Database, id: Id, p: ExamPatch)
    requires db.Valid() && id in db.exams
    modifies db
    ensures db.Valid()
    ensures id in db.exams && db.exams == old(db.exams)[id := db.exams[id]]
    ensures var before := old(db.exams)[id];
            var e := db.exams[id];
            && e.id == id && e.userId == before.userId
            && e.name == (if p.name.Some? then p.name.value else before.name)
            && e.description == (if p.description.Some? then p.description else before.description)
            && e.date == (if p.date.Some? then p.date.value else before.date)
            && (!Given(p.result) ==> e.result == before.result)
            && (Given(p.result) ==> OpenResult(db.key, e.result) == p.result)
    ensures db.users == old(db.users) && db.medicines == old(db.medicines) && db.history == old(db.history)
    ensures db.photos == old(db.photos) && db.nextId == old(db.nextId)
    ensures db.nextIv == old(db.nextIv) + (if Given(p.result) then 1 else 0)
    ensures Given(p.result) ==> db.exams[id].result.Some? && db.exams[id].result.value.iv == old(db.nextIv)
  {
    var existing := db.exams[id];
    var encryptedResult := existing.result;
    if Given(p.result) {
      RoundTrip(db.key, db.nextIv, p.result.value);
      encryptedResult := Some(Encrypt(db.key, db.nextIv, p.result.value));
      db.nextIv := db.nextIv + 1;
    }
    var updated := existing.(name := if p.name.Some? then p.name.value else existing.name,
                             description := if p.description.Some? then p.description else existing.description,
                             date := if p.date.Some? then p.date.value else existing.date,
                             result := encryptedResult);
    ReplaceExamConsistent(db.key, db.users, db.medicines, db.history, db.exams, db.photos, db.nextId, updated);
    db.exams := db.exams[id := updated];
  }

  /** createExam: stores the exam with its result encrypted (or null) and one
      photo per upload; fails and stores nothing without a name or a date. */
  method CreateExam(db: Database, d: ExamData, now: Time) returns (r: Result<Exam, Error>)
    requires db.Valid()
    modifies db
    ensures db.Valid()
    ensures r.Success? <==> d.name != "" && d.date.Some?
    ensures r.Failure? ==> r.error == MissingRequiredFields && unchanged(db)
    ensures r.Success? ==>
              var e := r.value;
              && e.id == old(db.nextId) && e.id !in old(db.exams)
              && db.exams == old(db.exams)[e.id := e]
              && ExamFromData(db.key, e, d, d.date.value)
    ensures r.Success? ==>
              && PhotosAttached(db.key, old(db.photos), db.photos, r.value.id + 1, r.value.id, d.photos, now)
              && db.users == old(db.users) && db.medicines == old(db.medicines)
              && db.history == old(db.history)
    ensures r.Success? ==>
              && db.nextId == old(db.nextId) + 1 + |d.photos|
              && db.nextIv == old(db.nextIv) + (if Given(d.result) then 1 else 0) + 2 * |d.photos|
  {
    if d.name == "" || d.date.None? {
      return Failure(MissingRequiredFields);
    }
    var exam := InsertExam(db, d, d.date.value);
    AttachPhotos(db, exam.id, d.photos, now);
    r := Success(exam);
  }

  /** getExams: exactly the caller's exams, each once, latest date first, with
      results and photo metadata decrypted. */
  method GetExams(db: Database, userId: Id) returns (views: seq<ExamView>)
    requires db.Valid()
    ensures forall v :: v in views ==> v.userId == userId
    ensures forall e :: e in db.exams.Values && e.userId == userId ==>
              ViewExam(db.key, e, db.photos) in views
    ensures forall i :: 0 <= i < |views| ==>
              views[i].id in db.exams && views[i] == ViewExam(db.key, db.exams[views[i].id], db.photos)
    ensures forall i, j :: 0 <= i < j < |views| ==> views[i].id != views[j].id
    ensures forall i, j :: 0 <= i < j < |views| ==> views[i].date >= views[j].date
  {
    var rows := SelectSorted(db.exams, (e: Exam) => e.userId == userId, (e: Exam) => e.date);
    assert forall i :: 0 <= i < |rows| ==> rows[i].id in db.exams && db.exams[rows[i].id] == rows[i] by {
      forall i | 0 <= i < |rows| ensures rows[i].id in db.exams && db.exams[rows[i].id] == rows[i] {
        assert rows[i] in rows;
      }
    }
    assert forall i :: 0 <= i < |rows| ==> rows[i].userId == userId by {
      forall i | 0 <= i < |rows| ensures rows[i].userId == userId {
        assert rows[i] in rows;
      }
    }
    views := [];
    var k := 0;
    while k < |rows|
      invariant 0 <= k <= |rows|
      invariant |views| == k
      invariant forall i :: 0 <= i < k ==> views[i] == ViewExam(db.key, rows[i], db.photos)
    {
      views := views + [ViewExam(db.key, rows[k], db.photos)];
      k := k + 1;
    }
    forall e | e in db.exams.Values && e.userId == userId
      ensures ViewExam(db.key, e, db.photos) in views
    {
      assert e in rows;
      var i :| 0 <= i < |rows| && rows[i] == e;
      assert views[i] == ViewExam(db.key, e, db.photos);
    }
  }

  /** getExamById: the owned exam, decrypted, with its photos. */
  function GetExamById(db: Database, id: Id, userId: Id): (r: Result<ExamView, Error>)
    reads db
    requires db.Valid()
    ensures r.Success? <==> db.OwnsExam(id, userId)
    ensures r.Failure? ==> r.error == NotFoundOrUnauthorized
    ensures r.Success? ==> r.value == ViewExam(db.key, db.exams[id], db.photos) && r.value.userId == userId
  {
    if !db.OwnsExam(id, userId) then
      Failure(NotFoundOrUnauthorized)
    else
      Success(ViewExam(db.key, db.exams[id], db.photos))
  }

  /** getExamPhotoById: the photo's bytes and decrypted metadata, only if its
      exam belongs to the caller. */
  function GetExamPhotoById(db: Database, photoId: Id, userId: Id): (r: Result<PhotoFile, Error>)
    reads db
    requires db.Valid()
    ensures r.Success? <==> db.OwnsPhoto(photoId, userId)
    ensures r.Failure? ==> r.error == NotFoundOrUnauthorized
    ensures r.Success? ==>
              var p := db.photos[photoId];
              && r.value.data == p.data
              && Some(r.value.mimeType) == Decrypt(db.key, p.mimeType)
              && Some(r.value.fileName) == Decrypt(db.key, p.fileName)
  {
    if !db.OwnsPhoto(photoId, userId) then
      Failure(NotFoundOrUnauthorized)
    else
      var p := db.photos[photoId];
      Success(PhotoFile(p.data, Decrypt(db.key, p.mimeType).value, Decrypt(db.key, p.fileName).value))
  }

  /** updateExam: keeps the stored result and date unless new ones are given,
      deletes every photo whose id is listed (of any exam), attaches one photo per
      upload, and returns the decrypted exam. Nothing changes on error. */
  method UpdateExam(db: Database, id: Id, userId: Id, p: ExamPatch, now: Time) returns (r: Result<ExamView, Error>)
    requires db.Valid()
    modifies db
    ensures db.Valid()
    ensures r.Success? <==> old(db.OwnsExam(id, userId))
    ensures r.Failure? ==> r.error == NotFoundOrUnauthorized && unchanged(db)
    ensures r.Success? ==> id in db.exams && db.exams == old(db.exams)[id := db.exams[id]]
    ensures r.Success? ==>
              var before := old(db.exams)[id];
              var e := db.exams[id];
              && e.id == id && e.userId == before.userId
              && e.name == (if p.name.Some? then p.name.value else before.name)
              && e.description == (if p.description.Some? then p.description else before.description)
              && e.date == (if p.date.Some? then p.date.value else before.date)
              && (!Given(p.result) ==> e.result == before.result)
              && (Given(p.result) ==> OpenResult(db.key, e.result) == p.result)
              && r.value == ViewExam(db.key, e, db.photos)
    ensures r.Success? ==>
              && PhotosAttached(db.key, Without(old(db.photos), p.removePhotos), db.photos,
                                old(db.nextId), id, p.photos, now)
              && db.users == old(db.users) && db.medicines == old(db.medicines)
              && db.history == old(db.history)
              && db.nextId == old(db.nextId) + |p.photos|
              && db.nextIv == old(db.nextIv) + (if Given(p.result) then 1 else 0) + 2 * |p.photos|
  {
    if !db.OwnsExam(id, userId) {
      return Failure(NotFoundOrUnauthorized);
    }
    ReviseExam(db, id, p);
    if |p.removePhotos| > 0 {
      RemovePhotos(db, p.removePhotos);
    }
    assert db.photos == Without(old(db.photos), p.removePhotos);
    if |p.photos| > 0 {
      AttachPhotos(db, id, p.photos, now);
    }

    r := Success(ViewExam(db.key, db.exams[id], db.photos));
  }

  /** deleteExam: removes every photo of the owned exam, then the exam; no photo
      of it is left behind and other photos are untouched. */
  method DeleteExam(db: Database, id: Id, userId: Id) returns (r: Result<(), Error>)
    requires db.Valid()
    modifies db
    ensures db.Valid()
    ensures r.Success? <==> old(db.OwnsExam(id, userId))
    ensures r.Failure? ==> r.error == NotFoundOrUnauthorized && unchanged(db)
    ensures r.Success? ==>
              && db.exams == old(db.exams) - {id}
              && (forall q :: q in db.photos <==> q in old(db.photos) && old(db.photos)[q].examId != id)
              && (forall q :: q in db.photos ==> db.photos[q] == old(db.photos)[q])
              && db.users == old(db.users) && db.medicines == old(db.medicines)
              && db.history == old(db.history)
              && db.nextId == old(db.nextId) && db.nextIv == old(db.nextIv)
  {
    if !db.OwnsExam(id, userId) {
      return Failure(NotFoundOrUnauthorized);
    }
    db.photos := map q | q in db.photos && db.photos[q].examId != id :: db.photos[q];
    db.exams := db.exams - {id};
    r := Success(());
  }
}
