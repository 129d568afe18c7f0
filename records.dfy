/** The records the services read and write, and the in-memory database that
    replaces the Prisma client: one map per table, from row id to row. */
module Records {
  import opened Wrappers
  import opened Cipher
  import opened Credentials

  /** Row ids (uuids in the database) and user ids taken from the bearer token. */
  type Id = nat

  /** Instants as integer milliseconds since the epoch. */
  type Time = int

  /** Milliseconds in an hour: `setHours(getHours() + n)` adds n of these. */
  const HourMs: int := 3_600_000

  /** The errors the services throw. Missing and not-owned records share one
      message in the source, so they share one error here. */
  datatype Error =
    | NotFoundOrUnauthorized
    | NoPreviousDose
    | NotAfterLastDose
    | MissingRequiredFields
    | EmailInUse
    | UserNotFound
    | InvalidPassword
    | EmailNotFound
    | InvalidOrExpiredCode
    | MailDeliveryFailed

  datatype User = User(id: Id, name: string, email: string, password: PasswordHash,
                       birthDate: Time, role: string)

  datatype DosageForm = Pill | Liquid

  datatype Medicine = Medicine(
    id: Id,
    userId: Id,
    name: string,
    form: DosageForm,
    intervalHours: int,
    lastTakenAt: Option<Time>,
    continuousUse: bool,
    treatmentFinished: bool,
    totalPills: Option<int>,
    pillsPerDose: Option<int>,
    totalMl: Option<int>,
    mlPerDose: Option<int>,
    createdAt: Time)

  /** A row of the medicine history table: one recorded dose. */
  datatype DoseRecord = DoseRecord(id: Id, medicineId: Id, takenAt: Time, onTime: bool)

  /** An exam; `result` is stored encrypted, or null. */
  datatype Exam = Exam(id: Id, userId: Id, name: string, description: Option<string>,
                       date: Time, result: Option<Token>)

  /** A photo attached to an exam; file name and MIME type are stored encrypted. */
  datatype Photo = Photo(id: Id, examId: Id, fileName: Token, mimeType: Token,
                         data: seq<bv8>, createdAt: Time)

  /** The encrypted result of `e` can be decrypted under `key`. */
  predicate ExamReadable(key: int, e: Exam) {
    e.result.Some? ==> Decrypt(key, e.result.value).Some?
  }

  /** The encrypted fields of `p` can be decrypted under `key`. */
  predicate PhotoReadable(key: int, p: Photo) {
    Decrypt(key, p.fileName).Some? && Decrypt(key, p.mimeType).Some?
  }

  /** Every row is stored under its own id, which is below `nextId`. */
  ghost predicate IdsBelow(users: map<Id, User>, medicines: map<Id, Medicine>, history: map<Id, DoseRecord>,
                           exams: map<Id, Exam>, photos: map<Id, Photo>, nextId: nat)
  {
    && (forall u :: u in users ==> users[u].id == u && u < nextId)
    && (forall m :: m in medicines ==> medicines[m].id == m && m < nextId)
    && (forall h :: h in history ==> history[h].id == h && h < nextId)
    && (forall e :: e in exams ==> exams[e].id == e && e < nextId)
    && (forall p :: p in photos ==> photos[p].id == p && p < nextId)
  }

  /** The database invariant: ids, the foreign keys (each history row's medicine
      and each photo's exam exist), unique e-mail addresses, and every encrypted
      column readable under the database's key. */
  ghost predicate Consistent(key: int, users: map<Id, User>, medicines: map<Id, Medicine>,
                             history: map<Id, DoseRecord>, exams: map<Id, Exam>, photos: map<Id, Photo>,
                             nextId: nat)
  {
    && IdsBelow(users, medicines, history, exams, photos, nextId)
    && (forall h :: h in history ==> history[h].medicineId in medicines)
    && (forall p :: p in photos ==> photos[p].examId in exams)
    && (forall u, v :: u in users && v in users && users[u].email == users[v].email ==> u == v)
    && (forall e :: e in exams ==> ExamReadable(key, exams[e]))
    && (forall p :: p in photos ==> PhotoReadable(key, photos[p]))
  }

  class Database {
    /** The cipher key, derived once from the configured secret. */
    const key: int

    var users: map<Id, User>
    var medicines: map<Id, Medicine>
    var history: map<Id, DoseRecord>
    var exams: map<Id, Exam>
    var photos: map<Id, Photo>

    /** The next row id to hand out. */
    var nextId: nat
    /** The next initialisation vector to hand out (stands for `randomBytes(16)`). */
    var nextIv: nat

    /** The database invariant, stated on the current tables. */
    ghost predicate Valid()
      reads this
    {
      Consistent(key, users, medicines, history, exams, photos, nextId)
    }

    constructor (key: int)
      ensures Valid() && this.key == key
      ensures users == map[] && medicines == map[] && history == map[]
      ensures exams == map[] && photos == map[]
    {
      this.key := key;
      users, medicines, history := map[], map[], map[];
      exams, photos := map[], map[];
      nextId, nextIv := 0, 0;
    }

    /** The medicine exists and belongs to `userId`. */
    predicate OwnsMedicine(id: Id, userId: Id)
      reads this
    {
      id in medicines && medicines[id].userId == userId
    }

    /** The history row exists and its medicine belongs to `userId`. */
    predicate OwnsHistory(id: Id, userId: Id)
      reads this
    {
      id in history && OwnsMedicine(history[id].medicineId, userId)
    }

    /** The exam exists and belongs to `userId`. */
    predicate OwnsExam(id: Id, userId: Id)
      reads this
    {
      id in exams && exams[id].userId == userId
    }

    /** The photo exists and its exam belongs to `userId`. */
    predicate OwnsPhoto(id: Id, userId: Id)
      reads this
    {
      id in photos && OwnsExam(photos[id].examId, userId)
    }

    /** Some user has this e-mail address. */
    predicate EmailTaken(email: string)
      reads this
    {
      exists u :: u in users && users[u].email == email
    }
  }
}
