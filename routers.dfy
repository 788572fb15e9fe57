/** The procedures of server/routers.ts that do more than forward their input: the zod input
    schemas (as parse functions from the raw input to the record db.ts takes), the
    `createdById` / `authorId` / `uploadedById` stamps, the category dispatch of the listings,
    the month bound of the membership procedures, and the trainer login, logout and password
    change. The caller's user id (`ctx.user.id`, set by the session middleware) and the
    parsing of date strings are parameters. */
module Routers {
  import opened Wrappers
  import opened Tables
  import opened Schema
  import opened Db
  import opened Trainers
  import opened Payments

  /** The TRPCError codes the procedures throw. */
  datatype ErrorCode = Unauthorized | NotFound

  /** How a procedure call fails: its input is refused by the zod schema (tRPC answers
      BAD_REQUEST), the procedure throws, or the storage layer throws. */
  datatype Failure =
    | BadInput
    | Rejected(code: ErrorCode, message: string)
    | StorageFailure(error: DbError)

  const InvalidCredentials: string := "Invalid username or password"
  const TrainerNotFound: string := "Trainer not found"
  const WrongCurrentPassword: string := "Aktualne heslo je nespravne"

  // ----- input schemas -----

  /** A string's `.length` in JavaScript: its UTF-16 code units, two for a character beyond
      U+FFFF (a surrogate pair), one for any other. */
  function Utf16Length(s: string): (n: nat)
    ensures |s| <= n <= 2 * |s|
    ensures n == 0 <==> s == []
  {
    if s == [] then 0 else (if s[0] as int > 0xFFFF then 2 else 1) + Utf16Length(s[1..])
  }

  /** Three emoji are three characters but six code units. */
  lemma ThreeEmojiAreSixUnits()
    ensures |"\U{1F600}\U{1F600}\U{1F600}"| == 3
    ensures Utf16Length("\U{1F600}\U{1F600}\U{1F600}") == 6
  {
    var e := "\U{1F600}\U{1F600}\U{1F600}";
    assert e[1..][1..][1..] == [];
  }

  /** `z.string().min(n)`, which measures `.length`. */
  predicate MinLength(s: string, n: nat) {
    Utf16Length(s) >= n
  }

  /** `z.number().min(1).max(12)` on the month of the membership procedures. */
  predicate ValidMonth(month: int) {
    1 <= month <= 12
  }

  /** `categoryEnum`: exactly the five team categories. */
  function CategoryInput(s: string): (r: Result<Category, Failure>)
    ensures r.Ok? <==> s in CategoryNames
    ensures r.Ok? ==> CategoryName(r.value) == s
    ensures r.Err? ==> r.error == BadInput
  {
    match ParseCategory(s)
    case Some(c) => Ok(c)
    case None => Err(BadInput)
  }

  /** An optional schema field: absent stays absent, present must pass. */
  function OptionalCategoryInput(s: Option<string>): (r: Result<Option<Category>, Failure>)
    ensures r.Ok? <==> s.None? || s.value in CategoryNames
    ensures r.Ok? ==> (r.value.None? <==> s.None?) && (s.Some? ==> CategoryName(r.value.value) == s.value)
    ensures r.Err? ==> r.error == BadInput
  {
    match s
    case None => Ok(None)
    case Some(v) =>
      match CategoryInput(v)
      case Ok(c) => Ok(Some(c))
      case Err(e) => Err(e)
  }

  /** `gallery.create`'s category: the five categories and "general", optional. */
  function GalleryCategoryInput(s: Option<string>): (r: Result<Option<GalleryCategory>, Failure>)
    ensures r.Ok? <==> s.None? || s.value in CategoryNames || s.value == "general"
    ensures r.Ok? ==> (r.value.None? <==> s.None?) && (s.Some? ==> GalleryCategoryName(r.value.value) == s.value)
    ensures r.Err? ==> r.error == BadInput
  {
    match s
    case None => Ok(None)
    case Some(v) =>
      match ParseGalleryCategory(v)
      case Some(g) => Ok(Some(g))
      case None => Err(BadInput)
  }

  /** The gallery schema accepts every category the team schema accepts, and "general". */
  lemma GalleryCategoryWidensCategory(s: string)
    ensures CategoryInput(s).Ok? ==> GalleryCategoryInput(Some(s)) == Ok(Some(Team(CategoryInput(s).value)))
    ensures GalleryCategoryInput(Some("general")) == Ok(Some(General))
    ensures CategoryInput("general").Err?
  {
    assert "general" != "U8-U9" && "general" != "U10-U11" && "general" != "U13" && "general" != "U15" && "general" != "A";
  }

  /** `dateOfBirth ? new Date(dateOfBirth) : undefined`: an absent or empty string is no date. */
  function OptionalDate(s: Option<string>, toDate: string -> Timestamp): (r: Option<Timestamp>)
    ensures r.Some? <==> s.Some? && s.value != ""
    ensures r.Some? ==> r.value == toDate(s.value)
  {
    if s.Some? && s.value != "" then Some(toDate(s.value)) else None
  }

  // ----- players -----

  datatype PlayerCreateInput = PlayerCreateInput(name: string, dateOfBirth: Option<string>, category: string, position: Option<string>)

  /** `players.create`'s schema and the record it hands to createPlayer. */
  function PlayerCreateRecord(input: PlayerCreateInput, toDate: string -> Timestamp): (r: Result<InsertPlayer, Failure>)
    ensures r.Ok? <==> MinLength(input.name, 1) && input.category in CategoryNames
    ensures r.Err? ==> r.error == BadInput
    ensures r.Ok? ==> r.value.name == input.name && CategoryName(r.value.category) == input.category
    ensures r.Ok? ==> r.value.position == input.position && r.value.dateOfBirth == OptionalDate(input.dateOfBirth, toDate)
  {
    if !MinLength(input.name, 1) then Err(BadInput)
    else match CategoryInput(input.category)
      case Err(e) => Err(e)
      case Ok(c) => Ok(InsertPlayer(input.name, OptionalDate(input.dateOfBirth, toDate), c, input.position))
  }

  /** players.create */
  method PlayersCreate(db: Database, input: PlayerCreateInput, toDate: string -> Timestamp, now: Timestamp)
    returns (r: Result<(), Failure>)
    requires db.Valid()
    modifies db`players
    ensures db.Valid()
    ensures PlayerCreateRecord(input, toDate).Err? ==> r == Err(BadInput) && db.players == old(db.players)
    ensures PlayerCreateRecord(input, toDate).Ok? && db.handle.None? ==>
      r == Err(StorageFailure(DatabaseNotAvailable)) && db.players == old(db.players)
    ensures PlayerCreateRecord(input, toDate).Ok? && db.handle.Some? ==>
      r == Ok(()) && db.players == old(db.players).Insert(PlayerCreateRecord(input, toDate).value.ToRow(now))
  {
    var record := PlayerCreateRecord(input, toDate);
    if record.Err? {
      return Err(record.error);
    }
    var created := db.CreatePlayer(record.value, now);
    r := if created.Ok? then Ok(()) else Err(StorageFailure(created.error));
  }

  /** players.list: a valid category lists that category by name, no category lists every
      player by category and name; an invalid one is refused. */
  function PlayersList(db: Database, category: Option<string>): (r: Result<seq<Row<Player>>, Failure>)
    reads db
    ensures r.Err? <==> category.Some? && category.value !in CategoryNames
    ensures r.Err? ==> r.error == BadInput
    ensures r.Ok? && category.Some? ==> r.value == db.PlayersByCategory(ParseCategory(category.value).value)
    ensures r.Ok? && category.None? ==> r.value == db.AllPlayers()
  {
    match OptionalCategoryInput(category)
    case Err(e) => Err(e)
    case Ok(Some(c)) => Ok(db.PlayersByCategory(c))
    case Ok(None) => Ok(db.AllPlayers())
  }

  // ----- trainings -----

  datatype TrainingCreateInput = TrainingCreateInput(date: string, category: string, location: Option<string>, notes: Option<string>)

  /** `trainings.create`'s schema; the training is stamped with the caller as its creator. */
  function TrainingCreateRecord(input: TrainingCreateInput, userId: int, toDate: string -> Timestamp): (r: Result<InsertTraining, Failure>)
    ensures r.Ok? <==> input.category in CategoryNames
    ensures r.Err? ==> r.error == BadInput
    ensures r.Ok? ==> r.value.createdById == userId && r.value.date == toDate(input.date)
    ensures r.Ok? ==> CategoryName(r.value.category) == input.category
    ensures r.Ok? ==> r.value.location == input.location && r.value.notes == input.notes
  {
    match CategoryInput(input.category)
    case Err(e) => Err(e)
    case Ok(c) => Ok(InsertTraining(toDate(input.date), c, input.location, input.notes, userId))
  }

  /** trainings.create */
  method TrainingsCreate(db: Database, input: TrainingCreateInput, userId: int, toDate: string -> Timestamp, now: Timestamp)
    returns (r: Result<(), Failure>)
    requires db.Valid()
    modifies db`trainings
    ensures db.Valid()
    ensures TrainingCreateRecord(input, userId, toDate).Err? ==> r == Err(BadInput) && db.trainings == old(db.trainings)
    ensures TrainingCreateRecord(input, userId, toDate).Ok? && db.handle.None? ==>
      r == Err(StorageFailure(DatabaseNotAvailable)) && db.trainings == old(db.trainings)
    ensures TrainingCreateRecord(input, userId, toDate).Ok? && db.handle.Some? ==>
      && r == Ok(())
      && db.trainings == old(db.trainings).Insert(TrainingCreateRecord(input, userId, toDate).value.ToRow(now))
      && db.trainings.Find(old(db.trainings.nextId)).value.createdById == userId
  {
    var record := TrainingCreateRecord(input, userId, toDate);
    if record.Err? {
      return Err(record.error);
    }
    var created := db.CreateTraining(record.value, now);
    r := if created.Ok? then Ok(()) else Err(StorageFailure(created.error));
  }

  /** trainings.list: the same dispatch as players.list. */
  function TrainingsList(db: Database, category: Option<string>): (r: Result<seq<Row<Training>>, Failure>)
    reads db
    ensures r.Err? <==> category.Some? && category.value !in CategoryNames
    ensures r.Err? ==> r.error == BadInput
    ensures r.Ok? && category.Some? ==> r.value == db.TrainingsByCategory(ParseCategory(category.value).value)
    ensures r.Ok? && category.None? ==> r.value == db.AllTrainings()
  {
    match OptionalCategoryInput(category)
    case Err(e) => Err(e)
    case Ok(Some(c)) => Ok(db.TrainingsByCategory(c))
    case Ok(None) => Ok(db.AllTrainings())
  }

  // ----- news -----

  datatype NewsCreateInput = NewsCreateInput(title: string, content: string, imageUrl: Option<string>, published: Option<bool>)

  /** `news.create`'s schema: title and content non-empty, `published` false unless given;
      the item is stamped with the caller as its author. */
  function NewsCreateRecord(input: NewsCreateInput, userId: int): (r: Result<InsertNews, Failure>)
    ensures r.Ok? <==> MinLength(input.title, 1) && MinLength(input.content, 1)
    ensures r.Err? ==> r.error == BadInput
    ensures r.Ok? ==> r.value.authorId == userId && r.value.published == Some(input.published.GetOr(false))
    ensures r.Ok? ==> r.value.title == input.title && r.value.content == input.content && r.value.imageUrl == input.imageUrl
  {
    if MinLength(input.title, 1) && MinLength(input.content, 1)
    then Ok(InsertNews(input.title, input.content, input.imageUrl, userId, Some(input.published.GetOr(false))))
    else Err(BadInput)
  }

  /** news.create */
  method NewsCreate(db: Database, input: NewsCreateInput, userId: int, now: Timestamp) returns (r: Result<(), Failure>)
    requires db.Valid()
    modifies db`news
    ensures db.Valid()
    ensures NewsCreateRecord(input, userId).Err? ==> r == Err(BadInput) && db.news == old(db.news)
    ensures NewsCreateRecord(input, userId).Ok? && db.handle.None? ==>
      r == Err(StorageFailure(DatabaseNotAvailable)) && db.news == old(db.news)
    ensures NewsCreateRecord(input, userId).Ok? && db.handle.Some? ==>
      && r == Ok(())
      && db.news == old(db.news).Insert(NewsCreateRecord(input, userId).value.ToRow(now))
      && db.news.Find(old(db.news.nextId)).value.authorId == userId
      && db.news.Find(old(db.news.nextId)).value.published == input.published.GetOr(false)
  {
    var record := NewsCreateRecord(input, userId);
    if record.Err? {
      return Err(record.error);
    }
    var created := db.CreateNews(record.value, now);
    r := if created.Ok? then Ok(()) else Err(StorageFailure(created.error));
  }

  // ----- gallery -----

  datatype GalleryCreateInput = GalleryCreateInput(title: Option<string>, imageUrl: string, imageKey: string, category: Option<string>)

  /** `gallery.create`'s schema; the item is stamped with the caller as its uploader. */
  function GalleryCreateRecord(input: GalleryCreateInput, userId: int): (r: Result<InsertGallery, Failure>)
    ensures r.Ok? <==> input.category.None? || input.category.value in CategoryNames || input.category.value == "general"
    ensures r.Err? ==> r.error == BadInput
    ensures r.Ok? ==> r.value.uploadedById == userId && r.value.imageUrl == input.imageUrl && r.value.imageKey == input.imageKey
    ensures r.Ok? ==> r.value.title == input.title && (r.value.category.None? <==> input.category.None?)
  {
    match GalleryCategoryInput(input.category)
    case Err(e) => Err(e)
    case Ok(g) => Ok(InsertGallery(input.title, input.imageUrl, input.imageKey, g, userId))
  }

  /** gallery.create */
  method GalleryCreate(db: Database, input: GalleryCreateInput, userId: int, now: Timestamp) returns (r: Result<(), Failure>)
    requires db.Valid()
    modifies db`gallery
    ensures db.Valid()
    ensures GalleryCreateRecord(input, userId).Err? ==> r == Err(BadInput) && db.gallery == old(db.gallery)
    ensures GalleryCreateRecord(input, userId).Ok? && db.handle.None? ==>
      r == Err(StorageFailure(DatabaseNotAvailable)) && db.gallery == old(db.gallery)
    ensures GalleryCreateRecord(input, userId).Ok? && db.handle.Some? ==>
      && r == Ok(())
      && db.gallery == old(db.gallery).Insert(GalleryCreateRecord(input, userId).value.ToRow(now))
      && db.gallery.Find(old(db.gallery.nextId)).value.uploadedById == userId
  {
    var record := GalleryCreateRecord(input, userId);
    if record.Err? {
      return Err(record.error);
    }
    var created := db.CreateGalleryItem(record.value, now);
    r := if created.Ok? then Ok(()) else Err(StorageFailure(created.error));
  }

  // ----- membership payments -----

  /** membershipPayments.setPayment: a month outside 1..12 is refused before the store is
      touched; otherwise the payment for (playerId, year, month) is set. */
  method SetPaymentProcedure(store: PaymentStore, playerId: int, year: int, month: int, paid: bool, amount: Option<int>)
    returns (r: Result<(), Failure>)
    requires store.Valid()
    modifies store`payments
    ensures store.Valid()
    ensures !ValidMonth(month) ==> r == Err(BadInput) && store.payments == old(store.payments)
    ensures ValidMonth(month) ==>
      && r == Ok(())
      && store.payments == SetPayment(old(store.payments), playerId, year, month, paid, amount)
      && PaidOf(store.payments.rows, playerId, year, month) == Some(PaidFlag(paid))
  {
    if !ValidMonth(month) {
      return Err(BadInput);
    }
    store.SetMembershipPayment(playerId, year, month, paid, amount);
    r := Ok(());
  }

  /** membershipPayments.getByYearMonth: the same month bound, then the month's payments. */
  function GetByYearMonth(store: PaymentStore, year: int, month: int): (r: Result<seq<Row<MembershipPayment>>, Failure>)
    reads store
    ensures r.Err? <==> !ValidMonth(month)
    ensures r.Err? ==> r.error == BadInput
    ensures r.Ok? ==> forall i :: 0 <= i < |r.value| ==> r.value[i] in store.payments.rows && InYearMonth(r.value[i], year, month)
    ensures r.Ok? ==> forall i :: 0 <= i < |store.payments.rows| && InYearMonth(store.payments.rows[i], year, month) ==>
      store.payments.rows[i] in r.value
  {
    if ValidMonth(month) then Ok(store.ByYearMonth(year, month)) else Err(BadInput)
  }

  // ----- trainer session -----

  /** The JSON the `trainer_session` cookie carries. */
  datatype SessionData = SessionData(trainerId: int, username: string, fullName: string)

  /** A cookie written to or cleared on the response. */
  datatype CookieOp =
    | SetCookie(name: string, session: SessionData, maxAge: int)
    | ClearCookie(name: string, maxAge: int)

  const TrainerSessionCookie: string := "trainer_session"

  /** Seven days, in milliseconds. */
  const SessionMaxAge: int := 7 * 24 * 60 * 60 * 1000

  /** The response of one procedure call, as far as the procedures write it: its cookies. */
  class Response {
    var cookies: seq<CookieOp>

    constructor ()
      ensures cookies == []
    {
      cookies := [];
    }
  }

  /** What trainer.login answers: a refused input, the same UNAUTHORIZED error for an unknown
      username and for a wrong password, or the trainer the store verified. */
  function LoginOutcome(store: TrainerStore, username: string, password: string): (r: Result<Trainer, Failure>)
    reads store
    ensures !MinLength(username, 1) || !MinLength(password, 1) ==> r == Err(BadInput)
    ensures MinLength(username, 1) && MinLength(password, 1) ==>
      (r.Ok? <==> store.GetTrainerByUsername(username).Some? && store.verifies(store.GetTrainerByUsername(username).value.id, password))
    ensures MinLength(username, 1) && MinLength(password, 1) && r.Err? ==> r.error == Rejected(Unauthorized, InvalidCredentials)
    ensures r.Ok? ==> r.value == store.GetTrainerByUsername(username).value && r.value.username == username
  {
    if !MinLength(username, 1) || !MinLength(password, 1) then Err(BadInput)
    else match store.VerifyTrainerPassword(username, password)
      case None => Err(Rejected(Unauthorized, InvalidCredentials))
      case Some(t) => Ok(Trainer(t.id, t.username, t.fullName))
  }

  /** trainer.login: on success the session cookie, carrying the same id, username and full
      name as the returned trainer, is set for seven days; on failure no cookie is written. */
  method Login(store: TrainerStore, res: Response, username: string, password: string) returns (r: Result<Trainer, Failure>)
    modifies res`cookies
    ensures r == LoginOutcome(store, username, password)
    ensures r.Err? ==> res.cookies == old(res.cookies)
    ensures r.Ok? ==>
      res.cookies == old(res.cookies) + [SetCookie(TrainerSessionCookie, SessionData(r.value.id, r.value.username, r.value.fullName), SessionMaxAge)]
  {
    if !MinLength(username, 1) || !MinLength(password, 1) {
      return Err(BadInput);
    }
    var trainer := store.VerifyTrainerPassword(username, password);
    if trainer.None? {
      return Err(Rejected(Unauthorized, InvalidCredentials));
    }
    var session := SessionData(trainer.value.id, trainer.value.username, trainer.value.fullName);
    res.cookies := res.cookies + [SetCookie(TrainerSessionCookie, session, SessionMaxAge)];
    r := Ok(Trainer(trainer.value.id, trainer.value.username, trainer.value.fullName));
  }

  /** trainer.logout: the session cookie is cleared with maxAge -1. */
  method TrainerLogout(res: Response)
    modifies res`cookies
    ensures res.cookies == old(res.cookies) + [ClearCookie(TrainerSessionCookie, -1)]
  {
    res.cookies := res.cookies + [ClearCookie(TrainerSessionCookie, -1)];
  }

  /** auth.logout: the same for the application's own session cookie, whose name is a
      shared constant outside this model. */
  method AuthLogout(res: Response, cookieName: string)
    modifies res`cookies
    ensures res.cookies == old(res.cookies) + [ClearCookie(cookieName, -1)]
  {
    res.cookies := res.cookies + [ClearCookie(cookieName, -1)];
  }

  /** The first reason trainer.changePassword refuses, in the order it checks them: the
      input schema, then NOT_FOUND for an unknown trainer, then UNAUTHORIZED for a wrong
      current password; `None` when the password may be changed. */
  function ChangePasswordRefusal(store: TrainerStore, trainerId: int, currentPassword: string, newPassword: string): (r: Option<Failure>)
    reads store
    ensures !MinLength(currentPassword, 1) || !MinLength(newPassword, 6) ==> r == Some(BadInput)
    ensures MinLength(currentPassword, 1) && MinLength(newPassword, 6) && store.GetTrainerById(trainerId).None? ==>
      r == Some(Rejected(NotFound, TrainerNotFound))
    ensures store.Valid() && MinLength(currentPassword, 1) && MinLength(newPassword, 6) && store.GetTrainerById(trainerId).Some? ==>
      r == (if store.verifies(trainerId, currentPassword) then None else Some(Rejected(Unauthorized, WrongCurrentPassword)))
  {
    if !MinLength(currentPassword, 1) || !MinLength(newPassword, 6) then Some(BadInput)
    else match store.GetTrainerById(trainerId)
      case None => Some(Rejected(NotFound, TrainerNotFound))
      case Some(t) =>
        store.UsernameLookupFindsTrainer(t);
        if store.VerifyTrainerPassword(t.username, currentPassword).None? then Some(Rejected(Unauthorized, WrongCurrentPassword))
        else None
  }

  /** trainer.changePassword: a refused call changes no password; an accepted one makes
      exactly the new password verify for the trainer and leaves every other trainer's alone. */
  method ChangePassword(store: TrainerStore, trainerId: int, currentPassword: string, newPassword: string)
    returns (r: Result<(), Failure>)
    requires store.Valid()
    modifies store`verifies
    ensures old(ChangePasswordRefusal(store, trainerId, currentPassword, newPassword)).Some? ==>
      r == Err(old(ChangePasswordRefusal(store, trainerId, currentPassword, newPassword)).value) && store.verifies == old(store.verifies)
    ensures old(ChangePasswordRefusal(store, trainerId, currentPassword, newPassword)).None? ==>
      && r == Ok(())
      && PasswordReplaced(old(store.verifies), store.verifies, trainerId, newPassword)
  {
    if !MinLength(currentPassword, 1) || !MinLength(newPassword, 6) {
      return Err(BadInput);
    }
    var trainer := store.GetTrainerById(trainerId);
    if trainer.None? {
      return Err(Rejected(NotFound, TrainerNotFound));
    }
    var verified := store.VerifyTrainerPassword(trainer.value.username, currentPassword);
    if verified.None? {
      return Err(Rejected(Unauthorized, WrongCurrentPassword));
    }
    store.UpdateTrainerPassword(trainerId, newPassword);
    r := Ok(());
  }

  /** After trainer.changePassword accepted a new password, logging in with it succeeds and
      logging in with any other password (the old one included) fails as a wrong password. */
  lemma LoginAfterPasswordChange(store: TrainerStore, t: Trainer, newPassword: string, other: string)
    requires store.Valid() && t in store.trainers
    requires forall p :: store.verifies(t.id, p) <==> p == newPassword
    requires MinLength(t.username, 1) && MinLength(newPassword, 6) && MinLength(other, 1) && other != newPassword
    ensures LoginOutcome(store, t.username, newPassword) == Ok(t)
    ensures LoginOutcome(store, t.username, other) == Err(Rejected(Unauthorized, InvalidCredentials))
  {
    store.UsernameLookupFindsTrainer(t);
  }
}
