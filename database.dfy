/** server/db.ts: the persistence layer. A `Database` holds the connection handle that
    getDb() creates lazily and the contents of the six tables the layer reads and writes.
    `handle` stands for what getDb() returns when an operation calls it; `GetDb` is the
    attempt to create it. Without a handle, a write fails with "Database not available" and
    leaves every table alone, and a read returns its empty answer. */
module Db {
  import opened Wrappers
  import opened Seqs
  import opened Sorting
  import opened Tables
  import opened Schema
  import opened Users
  import opened AttendanceRules

  /** A connection created from a `DATABASE_URL`. */
  datatype Handle = Handle(url: string)

  datatype DbError = DatabaseNotAvailable | UserOpenIdRequired

  /** `ORDER BY players.name` */
  predicate PlayerNameLe(a: Row<Player>, b: Row<Player>) {
    LexLe(a.fields.name, b.fields.name)
  }

  /** `ORDER BY players.category, players.name`: ENUM position first, then name. */
  predicate PlayerCategoryNameLe(a: Row<Player>, b: Row<Player>) {
    CategoryIndex(a.fields.category) < CategoryIndex(b.fields.category)
    || (a.fields.category == b.fields.category && LexLe(a.fields.name, b.fields.name))
  }

  /** `ORDER BY desc(trainings.date)` */
  predicate TrainingLaterFirst(a: Row<Training>, b: Row<Training>) {
    a.fields.date >= b.fields.date
  }

  /** `ORDER BY desc(news.createdAt)` */
  predicate NewsNewestFirst(a: Row<News>, b: Row<News>) {
    a.fields.createdAt >= b.fields.createdAt
  }

  /** `ORDER BY desc(gallery.createdAt)` */
  predicate GalleryNewestFirst(a: Row<GalleryItem>, b: Row<GalleryItem>) {
    a.fields.createdAt >= b.fields.createdAt
  }

  lemma PlayerNameOrder()
    ensures TotalPreorder(PlayerNameLe)
  {
    forall a: Row<Player>, b: Row<Player> ensures PlayerNameLe(a, b) || PlayerNameLe(b, a) {
      LexLeTotal(a.fields.name, b.fields.name);
    }
    forall a: Row<Player>, b: Row<Player>, c: Row<Player> | PlayerNameLe(a, b) && PlayerNameLe(b, c)
      ensures PlayerNameLe(a, c)
    {
      LexLeTransitive(a.fields.name, b.fields.name, c.fields.name);
    }
  }

  lemma PlayerCategoryNameOrder()
    ensures TotalPreorder(PlayerCategoryNameLe)
  {
    forall a: Row<Player>, b: Row<Player> ensures PlayerCategoryNameLe(a, b) || PlayerCategoryNameLe(b, a) {
      LexLeTotal(a.fields.name, b.fields.name);
      CategoryIndexInjective(a.fields.category, b.fields.category);
    }
    forall a: Row<Player>, b: Row<Player>, c: Row<Player> | PlayerCategoryNameLe(a, b) && PlayerCategoryNameLe(b, c)
      ensures PlayerCategoryNameLe(a, c)
    {
      if a.fields.category == b.fields.category && b.fields.category == c.fields.category {
        LexLeTransitive(a.fields.name, b.fields.name, c.fields.name);
      }
    }
  }

  lemma DateOrders()
    ensures TotalPreorder(TrainingLaterFirst)
    ensures TotalPreorder(NewsNewestFirst)
    ensures TotalPreorder(GalleryNewestFirst)
  {
  }

  function InCategory(category: Category): Row<Player> -> bool {
    (p: Row<Player>) => p.fields.category == category
  }

  function TrainingInCategory(category: Category): Row<Training> -> bool {
    (t: Row<Training>) => t.fields.category == category
  }

  function IsPublished(): Row<News> -> bool {
    (n: Row<News>) => n.fields.published
  }

  /** `eq(gallery.category, category)`: a NULL category matches nothing. */
  function InGalleryCategory(category: string): Row<GalleryItem> -> bool {
    (g: Row<GalleryItem>) => g.fields.category.Some? && GalleryCategoryName(g.fields.category.value) == category
  }

  /** `if (limit)`: an absent limit and a limit of 0 both mean every row. */
  function LimitOf(limit: Option<nat>, available: nat): nat {
    if limit.Some? && limit.value > 0 && limit.value < available then limit.value else available
  }

  /** The keys and counters of every table, the UNIQUE index on `users.openId`, and one
      attendance row per (training, player), which markAttendance is the only writer of. */
  ghost predicate ValidTables(users: Table<User>, players: Table<Player>, trainings: Table<Training>,
                              attendance: Table<Attendance>, news: Table<News>, gallery: Table<GalleryItem>) {
    && ValidUsers(users)
    && players.Valid() && trainings.Valid() && news.Valid() && gallery.Valid()
    && attendance.Valid() && OneRowPerPair(attendance.rows)
  }

  class Database {
    var handle: Option<Handle>
    var users: Table<User>
    var players: Table<Player>
    var trainings: Table<Training>
    var attendance: Table<Attendance>
    var news: Table<News>
    var gallery: Table<GalleryItem>

    /** Every table is valid. */
    ghost predicate Valid()
      reads this
    {
      ValidTables(users, players, trainings, attendance, news, gallery)
    }

    /** Before the first getDb(): no handle (`_db = null`) and empty tables. */
    constructor ()
      ensures Valid() && handle.None?
      ensures users.rows == [] && players.rows == [] && trainings.rows == []
      ensures attendance.rows == [] && news.rows == [] && gallery.rows == []
    {
      handle := None;
      users := Empty();
      players := Empty();
      trainings := Empty();
      attendance := Empty();
      news := Empty();
      gallery := Empty();
    }

    /** getDb(): a handle is created once, on the first call that finds `DATABASE_URL` set
        (non-empty) and the driver accepting it; a failed attempt leaves none, and a later call
        tries again. `connects` is whether `drizzle(url)` returns rather than throws. */
    method GetDb(databaseUrl: Option<string>, connects: bool) returns (h: Option<Handle>)
      modifies this`handle
      ensures old(handle).Some? ==> handle == old(handle)
      ensures old(handle).None? && databaseUrl.Some? && databaseUrl.value != "" && connects ==>
        handle == Some(Handle(databaseUrl.value))
      ensures old(handle).None? && (databaseUrl.None? || databaseUrl.value == "" || !connects) ==> handle.None?
      ensures h == handle
    {
      if handle.None? && databaseUrl.Some? && databaseUrl.value != "" {
        if connects {
          handle := Some(Handle(databaseUrl.value));
        } else {
          handle := None;
        }
      }
      h := handle;
    }

    // ----- users -----

    /** upsertUser: an empty openId is rejected before storage is consulted; without a handle
        the call only warns; otherwise the INSERT ... ON DUPLICATE KEY UPDATE leaves exactly one
        user with the openId, stored as `UpsertedUser` says, and every other user as it was. */
    method UpsertUser(user: InsertUser, ownerOpenId: string, now: Timestamp) returns (r: Result<(), DbError>)
      requires Valid()
      modifies this`users
      ensures Valid()
      ensures user.openId == "" ==> r == Err(UserOpenIdRequired) && users == old(users)
      ensures user.openId != "" && handle.None? ==> r == Ok(()) && users == old(users)
      ensures user.openId != "" && handle.Some? ==> r == Ok(()) && UpsertedUsers(old(users), users, user, ownerOpenId, now)
    {
      if user.openId == "" {
        return Err(UserOpenIdRequired);
      }
      if handle.None? {
        return Ok(());
      }
      users := UpsertUsers(users, user, ownerOpenId, now);
      r := Ok(());
    }

    /** getUserByOpenId: the user with that openId, or undefined without a handle. */
    function GetUserByOpenId(openId: string): (r: Option<User>)
      reads this
      ensures handle.None? ==> r.None?
      ensures r.Some? ==> r.value.openId == openId && exists i :: 0 <= i < |users.rows| && users.rows[i].fields == r.value
      ensures handle.Some? && r.None? ==> forall i :: 0 <= i < |users.rows| ==> users.rows[i].fields.openId != openId
    {
      if handle.None? then None else UserByOpenId(users.rows, openId)
    }

    // ----- players -----

    /** createPlayer: one new row with the next id; the result carries that id. */
    method CreatePlayer(player: InsertPlayer, now: Timestamp) returns (r: Result<nat, DbError>)
      requires Valid()
      modifies this`players
      ensures Valid()
      ensures handle.None? ==> r == Err(DatabaseNotAvailable) && players == old(players)
      ensures handle.Some? ==> r == Ok(old(players.nextId)) && players == old(players).Insert(player.ToRow(now))
      ensures handle.Some? ==> players.Find(r.value) == Some(player.ToRow(now))
    {
      if handle.None? {
        return Err(DatabaseNotAvailable);
      }
      r := Ok(players.nextId);
      players := players.Insert(player.ToRow(now));
    }

    /** getPlayersByCategory: the players of the category, by name. */
    function PlayersByCategory(category: Category): (r: seq<Row<Player>>)
      reads this
      ensures handle.None? ==> r == []
      ensures handle.Some? ==> multiset(r) == multiset(Filter(players.rows, InCategory(category)))
      ensures Sorted(r, PlayerNameLe)
    {
      if handle.None? then []
      else
        PlayerNameOrder();
        SortedBy(Filter(players.rows, InCategory(category)), PlayerNameLe)
    }

    /** getAllPlayers: every player, by category (ENUM order) and then name. */
    function AllPlayers(): (r: seq<Row<Player>>)
      reads this
      ensures handle.None? ==> r == []
      ensures handle.Some? ==> multiset(r) == multiset(players.rows)
      ensures Sorted(r, PlayerCategoryNameLe)
    {
      if handle.None? then []
      else
        PlayerCategoryNameOrder();
        SortedBy(players.rows, PlayerCategoryNameLe)
    }

    /** getPlayerById */
    function GetPlayerById(id: int): (r: Option<Player>)
      reads this
      ensures r.Some? <==> handle.Some? && exists i :: 0 <= i < |players.rows| && players.rows[i].id == id
      ensures r.Some? ==> Row(id as nat, r.value) in players.rows
    {
      if handle.None? || id < 0 then None else players.Find(id)
    }

    /** updatePlayer: the given columns of the row with that id change, every other row stays. */
    method UpdatePlayer(id: int, data: PlayerChanges, now: Timestamp) returns (r: Result<(), DbError>)
      requires Valid()
      modifies this`players
      ensures Valid()
      ensures handle.None? ==> r == Err(DatabaseNotAvailable) && players == old(players)
      ensures handle.Some? ==> r == Ok(()) && |players.rows| == |old(players.rows)| && players.nextId == old(players.nextId)
      ensures handle.Some? ==> forall i :: 0 <= i < |players.rows| ==>
        players.rows[i] == if old(players.rows[i].id) == id
                           then Row(id as nat, data.ApplyTo(old(players.rows[i].fields), now))
                           else old(players.rows[i])
    {
      if handle.None? {
        return Err(DatabaseNotAvailable);
      }
      if id >= 0 {
        players := players.Update(id, (p: Player) => data.ApplyTo(p, now));
      }
      r := Ok(());
    }

    /** deletePlayer: the row with that id goes, the rest keep their order. */
    method DeletePlayer(id: int) returns (r: Result<(), DbError>)
      requires Valid()
      modifies this`players
      ensures Valid()
      ensures handle.None? ==> r == Err(DatabaseNotAvailable) && players == old(players)
      ensures handle.Some? ==> r == Ok(()) && players.rows == Filter(old(players.rows), (p: Row<Player>) => p.id != id)
      ensures players.nextId == old(players.nextId)
      ensures handle.Some? ==> forall i :: 0 <= i < |players.rows| ==> players.rows[i].id != id
      ensures handle.Some? ==> |players.rows| == |old(players.rows)| - (if old(GetPlayerById(id)).Some? then 1 else 0)
    {
      if handle.None? {
        return Err(DatabaseNotAvailable);
      }
      if id >= 0 {
        players := players.Delete(id);
      } else {
        FilterKeepsAll(players.rows, (p: Row<Player>) => p.id != id);
      }
      r := Ok(());
    }

    // ----- trainings -----

    /** createTraining */
    method CreateTraining(training: InsertTraining, now: Timestamp) returns (r: Result<nat, DbError>)
      requires Valid()
      modifies this`trainings
      ensures Valid()
      ensures handle.None? ==> r == Err(DatabaseNotAvailable) && trainings == old(trainings)
      ensures handle.Some? ==> r == Ok(old(trainings.nextId)) && trainings == old(trainings).Insert(training.ToRow(now))
      ensures handle.Some? ==> trainings.Find(r.value) == Some(training.ToRow(now))
    {
      if handle.None? {
        return Err(DatabaseNotAvailable);
      }
      r := Ok(trainings.nextId);
      trainings := trainings.Insert(training.ToRow(now));
    }

    /** getTrainingsByCategory: the category's trainings, latest first. */
    function TrainingsByCategory(category: Category): (r: seq<Row<Training>>)
      reads this
      ensures handle.None? ==> r == []
      ensures handle.Some? ==> multiset(r) == multiset(Filter(trainings.rows, TrainingInCategory(category)))
      ensures Sorted(r, TrainingLaterFirst)
    {
      if handle.None? then []
      else
        DateOrders();
        SortedBy(Filter(trainings.rows, TrainingInCategory(category)), TrainingLaterFirst)
    }

    /** getAllTrainings: every training, latest first. */
    function AllTrainings(): (r: seq<Row<Training>>)
      reads this
      ensures handle.None? ==> r == []
      ensures handle.Some? ==> multiset(r) == multiset(trainings.rows)
      ensures Sorted(r, TrainingLaterFirst)
    {
      if handle.None? then []
      else
        DateOrders();
        SortedBy(trainings.rows, TrainingLaterFirst)
    }

    /** getTrainingById */
    function GetTrainingById(id: int): (r: Option<Training>)
      reads this
      ensures r.Some? <==> handle.Some? && exists i :: 0 <= i < |trainings.rows| && trainings.rows[i].id == id
      ensures r.Some? ==> Row(id as nat, r.value) in trainings.rows
    {
      if handle.None? || id < 0 then None else trainings.Find(id)
    }

    /** updateTraining */
    method UpdateTraining(id: int, data: TrainingChanges, now: Timestamp) returns (r: Result<(), DbError>)
      requires Valid()
      modifies this`trainings
      ensures Valid()
      ensures handle.None? ==> r == Err(DatabaseNotAvailable) && trainings == old(trainings)
      ensures handle.Some? ==> r == Ok(()) && |trainings.rows| == |old(trainings.rows)| && trainings.nextId == old(trainings.nextId)
      ensures handle.Some? ==> forall i :: 0 <= i < |trainings.rows| ==>
        trainings.rows[i] == if old(trainings.rows[i].id) == id
                             then Row(id as nat, data.ApplyTo(old(trainings.rows[i].fields), now))
                             else old(trainings.rows[i])
    {
      if handle.None? {
        return Err(DatabaseNotAvailable);
      }
      if id >= 0 {
        trainings := trainings.Update(id, (t: Training) => data.ApplyTo(t, now));
      }
      r := Ok(());
    }

    /** deleteTraining: the training goes; its attendance rows stay (no cascade). */
    method DeleteTraining(id: int) returns (r: Result<(), DbError>)
      requires Valid()
      modifies this`trainings
      ensures Valid()
      ensures handle.None? ==> r == Err(DatabaseNotAvailable) && trainings == old(trainings)
      ensures handle.Some? ==> r == Ok(()) && trainings.rows == Filter(old(trainings.rows), (t: Row<Training>) => t.id != id)
      ensures trainings.nextId == old(trainings.nextId)
      ensures handle.Some? ==> forall i :: 0 <= i < |trainings.rows| ==> trainings.rows[i].id != id
      ensures handle.Some? ==> |trainings.rows| == |old(trainings.rows)| - (if old(GetTrainingById(id)).Some? then 1 else 0)
    {
      if handle.None? {
        return Err(DatabaseNotAvailable);
      }
      if id >= 0 {
        trainings := trainings.Delete(id);
      } else {
        FilterKeepsAll(trainings.rows, (t: Row<Training>) => t.id != id);
      }
      r := Ok(());
    }

    // ----- attendance -----

    /** markAttendance: the pair's row gets the new `present`, or is created with it; the
        table keeps one row per pair and no other pair changes. */
    method MarkAttendance(trainingId: int, playerId: int, present: bool, now: Timestamp) returns (r: Result<(), DbError>)
      requires Valid()
      modifies this`attendance
      ensures Valid()
      ensures handle.None? ==> r == Err(DatabaseNotAvailable) && attendance == old(attendance)
      ensures handle.Some? ==> r == Ok(()) && attendance == Mark(old(attendance), trainingId, playerId, present, now)
      ensures handle.Some? ==> PresentOf(attendance.rows, trainingId, playerId) == Some(present)
      ensures handle.Some? ==> Count(attendance.rows, HasKey(PairOf, (trainingId, playerId))) == 1
      ensures handle.Some? ==> forall tid, pid :: (tid, pid) != (trainingId, playerId) ==>
        PresentOf(attendance.rows, tid, pid) == old(PresentOf(attendance.rows, tid, pid))
    {
      if handle.None? {
        return Err(DatabaseNotAvailable);
      }
      MarkKeepsOneRowPerPair(attendance, trainingId, playerId, present, now);
      MarkKeepsOtherPairs(attendance, trainingId, playerId, present, now);
      attendance := Mark(attendance, trainingId, playerId, present, now);
      r := Ok(());
    }

    /** getAttendanceByTraining: exactly the rows of the training, in table order. */
    function AttendanceByTraining(trainingId: int): (r: seq<Row<Attendance>>)
      reads this
      ensures handle.None? ==> r == []
      ensures forall i :: 0 <= i < |r| ==> r[i] in attendance.rows && r[i].fields.trainingId == trainingId
      ensures handle.Some? ==>
        forall i :: 0 <= i < |attendance.rows| && attendance.rows[i].fields.trainingId == trainingId ==> attendance.rows[i] in r
      ensures multiset(r) <= multiset(attendance.rows)
    {
      if handle.None? then [] else Filter(attendance.rows, (a: Row<Attendance>) => a.fields.trainingId == trainingId)
    }

    /** getAttendanceByPlayer: exactly the rows of the player, in table order. */
    function AttendanceByPlayer(playerId: int): (r: seq<Row<Attendance>>)
      reads this
      ensures handle.None? ==> r == []
      ensures forall i :: 0 <= i < |r| ==> r[i] in attendance.rows && r[i].fields.playerId == playerId
      ensures handle.Some? ==>
        forall i :: 0 <= i < |attendance.rows| && attendance.rows[i].fields.playerId == playerId ==> attendance.rows[i] in r
      ensures multiset(r) <= multiset(attendance.rows)
    {
      if handle.None? then [] else Filter(attendance.rows, (a: Row<Attendance>) => a.fields.playerId == playerId)
    }

    /** getAttendanceStats: zeros without a handle, otherwise `Stats` over the stored rows. */
    function GetAttendanceStats(playerId: int, startDate: Option<Timestamp>, endDate: Option<Timestamp>): (r: AttendanceStats)
      reads this
      ensures r.present <= r.total && r.percentage <= 100
      ensures handle.None? ==> r == NoStats
      ensures handle.Some? ==> r == Stats(attendance.rows, trainings.rows, playerId, startDate, endDate)
      ensures handle.Some? && startDate.None? && endDate.None? ==>
        r.total == |AttendanceByPlayer(playerId)|
        && r.present == Count(attendance.rows, (a: Row<Attendance>) => a.fields.playerId == playerId && a.fields.present)
    {
      if handle.None? then NoStats
      else
        StatsWithoutRange(attendance.rows, trainings.rows, playerId);
        CountIsFilterLength(attendance.rows, (a: Row<Attendance>) => a.fields.playerId == playerId && a.fields.present);
        Stats(attendance.rows, trainings.rows, playerId, startDate, endDate)
    }

    // ----- news -----

    /** createNews */
    method CreateNews(item: InsertNews, now: Timestamp) returns (r: Result<nat, DbError>)
      requires Valid()
      modifies this`news
      ensures Valid()
      ensures handle.None? ==> r == Err(DatabaseNotAvailable) && news == old(news)
      ensures handle.Some? ==> r == Ok(old(news.nextId)) && news == old(news).Insert(item.ToRow(now))
      ensures handle.Some? ==> news.Find(r.value) == Some(item.ToRow(now))
    {
      if handle.None? {
        return Err(DatabaseNotAvailable);
      }
      r := Ok(news.nextId);
      news := news.Insert(item.ToRow(now));
    }

    /** getPublishedNews: `NewestPublished` over the stored items, or nothing without a handle. */
    function PublishedNews(limit: Option<nat>): (r: seq<Row<News>>)
      reads this
      ensures handle.None? ==> r == []
      ensures handle.Some? ==> r == NewestPublished(news.rows, limit)
    {
      if handle.None? then [] else NewestPublished(news.rows, limit)
    }

    /** getAllNews: every item, newest first. */
    function AllNews(): (r: seq<Row<News>>)
      reads this
      ensures handle.None? ==> r == []
      ensures handle.Some? ==> multiset(r) == multiset(news.rows)
      ensures Sorted(r, NewsNewestFirst)
    {
      if handle.None? then []
      else
        DateOrders();
        SortedBy(news.rows, NewsNewestFirst)
    }

    /** getNewsById */
    function GetNewsById(id: int): (r: Option<News>)
      reads this
      ensures r.Some? <==> handle.Some? && exists i :: 0 <= i < |news.rows| && news.rows[i].id == id
      ensures r.Some? ==> Row(id as nat, r.value) in news.rows
    {
      if handle.None? || id < 0 then None else news.Find(id)
    }

    /** updateNews */
    method UpdateNews(id: int, data: NewsChanges, now: Timestamp) returns (r: Result<(), DbError>)
      requires Valid()
      modifies this`news
      ensures Valid()
      ensures handle.None? ==> r == Err(DatabaseNotAvailable) && news == old(news)
      ensures handle.Some? ==> r == Ok(()) && |news.rows| == |old(news.rows)| && news.nextId == old(news.nextId)
      ensures handle.Some? ==> forall i :: 0 <= i < |news.rows| ==>
        news.rows[i] == if old(news.rows[i].id) == id
                        then Row(id as nat, data.ApplyTo(old(news.rows[i].fields), now))
                        else old(news.rows[i])
    {
      if handle.None? {
        return Err(DatabaseNotAvailable);
      }
      if id >= 0 {
        news := news.Update(id, (n: News) => data.ApplyTo(n, now));
      }
      r := Ok(());
    }

    /** deleteNews */
    method DeleteNews(id: int) returns (r: Result<(), DbError>)
      requires Valid()
      modifies this`news
      ensures Valid()
      ensures handle.None? ==> r == Err(DatabaseNotAvailable) && news == old(news)
      ensures handle.Some? ==> r == Ok(()) && news.rows == Filter(old(news.rows), (n: Row<News>) => n.id != id)
      ensures news.nextId == old(news.nextId)
      ensures handle.Some? ==> forall i :: 0 <= i < |news.rows| ==> news.rows[i].id != id
      ensures handle.Some? ==> |news.rows| == |old(news.rows)| - (if old(GetNewsById(id)).Some? then 1 else 0)
    {
      if handle.None? {
        return Err(DatabaseNotAvailable);
      }
      if id >= 0 {
        news := news.Delete(id);
      } else {
        FilterKeepsAll(news.rows, (n: Row<News>) => n.id != id);
      }
      r := Ok(());
    }

    // ----- gallery -----

    /** createGalleryItem */
    method CreateGalleryItem(item: InsertGallery, now: Timestamp) returns (r: Result<nat, DbError>)
      requires Valid()
      modifies this`gallery
      ensures Valid()
      ensures handle.None? ==> r == Err(DatabaseNotAvailable) && gallery == old(gallery)
      ensures handle.Some? ==> r == Ok(old(gallery.nextId)) && gallery == old(gallery).Insert(item.ToRow(now))
      ensures handle.Some? ==> gallery.Find(r.value) == Some(item.ToRow(now))
    {
      if handle.None? {
        return Err(DatabaseNotAvailable);
      }
      r := Ok(gallery.nextId);
      gallery := gallery.Insert(item.ToRow(now));
    }

    /** getGalleryByCategory: newest first; an absent or empty category means every item,
        otherwise the items whose category is that value (an item without one never matches). */
    function GalleryByCategory(category: Option<string>): (r: seq<Row<GalleryItem>>)
      reads this
      ensures handle.None? ==> r == []
      ensures handle.Some? && (category.None? || category.value == "") ==> multiset(r) == multiset(gallery.rows)
      ensures handle.Some? && category.Some? && category.value != "" ==>
        multiset(r) == multiset(Filter(gallery.rows, InGalleryCategory(category.value)))
      ensures Sorted(r, GalleryNewestFirst)
    {
      if handle.None? then []
      else
        DateOrders();
        if category.Some? && category.value != "" then
          SortedBy(Filter(gallery.rows, InGalleryCategory(category.value)), GalleryNewestFirst)
        else
          SortedBy(gallery.rows, GalleryNewestFirst)
    }

    /** deleteGalleryItem */
    method DeleteGalleryItem(id: int) returns (r: Result<(), DbError>)
      requires Valid()
      modifies this`gallery
      ensures Valid()
      ensures handle.None? ==> r == Err(DatabaseNotAvailable) && gallery == old(gallery)
      ensures handle.Some? ==> r == Ok(()) && gallery.rows == Filter(old(gallery.rows), (g: Row<GalleryItem>) => g.id != id)
      ensures gallery.nextId == old(gallery.nextId)
      ensures handle.Some? ==> forall i :: 0 <= i < |gallery.rows| ==> gallery.rows[i].id != id
    {
      if handle.None? {
        return Err(DatabaseNotAvailable);
      }
      if id >= 0 {
        gallery := gallery.Delete(id);
      } else {
        FilterKeepsAll(gallery.rows, (g: Row<GalleryItem>) => g.id != id);
      }
      r := Ok(());
    }
  }

  lemma {:induction false} FilterKeepsAll<T>(s: seq<T>, keep: T -> bool)
    requires forall i :: 0 <= i < |s| ==> keep(s[i])
    ensures Filter(s, keep) == s
  {
    if s != [] {
      FilterKeepsAll(s[1..], keep);
    }
  }

  /** A prefix holds each element at most as often as the whole sequence does. */
  lemma PrefixSubMultiset<T>(s: seq<T>, n: nat)
    requires n <= |s|
    ensures multiset(s[..n]) <= multiset(s)
  {
    assert s == s[..n] + s[n..];
  }

  /** The first `n` of a sorted permutation of the selected rows are no older than any selected
      row left out. */
  lemma TopOfSorted(rows: seq<Row<News>>, keep: Row<News> -> bool, ordered: seq<Row<News>>, n: nat)
    requires multiset(ordered) == multiset(Filter(rows, keep)) && Sorted(ordered, NewsNewestFirst)
    requires n <= |ordered|
    ensures forall i :: 0 <= i < n ==> ordered[i] in rows && keep(ordered[i])
    ensures forall j :: 0 <= j < |rows| && keep(rows[j]) && rows[j] !in ordered[..n] ==>
      forall i :: 0 <= i < n ==> ordered[i].fields.createdAt >= rows[j].fields.createdAt
  {
    var selected := Filter(rows, keep);
    forall i | 0 <= i < n ensures ordered[i] in rows && keep(ordered[i]) {
      assert ordered[i] in multiset(selected);
    }
    forall j | 0 <= j < |rows| && keep(rows[j]) && rows[j] !in ordered[..n]
      ensures forall i :: 0 <= i < n ==> ordered[i].fields.createdAt >= rows[j].fields.createdAt
    {
      assert rows[j] in multiset(ordered);
      var k :| 0 <= k < |ordered| && ordered[k] == rows[j];
    }
  }

  /** `WHERE published ORDER BY createdAt DESC LIMIT n`: published items only, newest first,
      at most `limit` of them when a positive limit is given (all of them otherwise), and never
      an older item in place of a newer one. */
  function NewestPublished(rows: seq<Row<News>>, limit: Option<nat>): (r: seq<Row<News>>)
    ensures forall i :: 0 <= i < |r| ==> r[i] in rows && r[i].fields.published
    ensures Sorted(r, NewsNewestFirst)
    ensures |r| == LimitOf(limit, Count(rows, IsPublished()))
    ensures LimitOf(limit, Count(rows, IsPublished())) == Count(rows, IsPublished()) ==>
      multiset(r) == multiset(Filter(rows, IsPublished()))
    ensures multiset(r) <= multiset(Filter(rows, IsPublished()))
    ensures forall j :: 0 <= j < |rows| && rows[j].fields.published && rows[j] !in r ==>
      forall i :: 0 <= i < |r| ==> r[i].fields.createdAt >= rows[j].fields.createdAt
  {
    var published := Filter(rows, IsPublished());
    DateOrders();
    var ordered := SortedBy(published, NewsNewestFirst);
    CountIsFilterLength(rows, IsPublished());
    var n := LimitOf(limit, |published|);
    SortedPrefix(ordered, n, NewsNewestFirst);
    TopOfSorted(rows, IsPublished(), ordered, n);
    assert ordered[..n] == ordered ==> multiset(ordered[..n]) == multiset(published);
    PrefixSubMultiset(ordered, n);
    ordered[..n]
  }
}
