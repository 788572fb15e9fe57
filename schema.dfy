/** The tables of drizzle/schema.ts as datatypes. Each entity's `id` column lives in
    `Tables.Row`; the datatypes here hold the other columns. A `NOT NULL` column is a plain
    field, a nullable one an `Option`. The `Insert...` records are what a caller passes to an
    `INSERT`: columns with a default are optional there and `ToRow` fills them in. The
    `...Changes` records are the partial rows an `UPDATE ... SET` takes: `None` leaves the
    column alone, and for a nullable column `Some(None)` sets it to NULL. */
module Schema {
  import opened Wrappers

  /** Milliseconds since the epoch: a MySQL TIMESTAMP as the driver hands it to JavaScript. */
  type Timestamp = int

  /** The five-value ENUM shared by `players.category` and `trainings.category`. */
  datatype Category = U8U9 | U10U11 | U13 | U15 | A

  const CategoryNames: seq<string> := ["U8-U9", "U10-U11", "U13", "U15", "A"]

  function CategoryName(c: Category): string {
    match c
    case U8U9 => "U8-U9"
    case U10U11 => "U10-U11"
    case U13 => "U13"
    case U15 => "U15"
    case A => "A"
  }

  /** The position of the value in the ENUM declaration, by which MySQL sorts the column. */
  function CategoryIndex(c: Category): (i: nat)
    ensures i < |CategoryNames| && CategoryNames[i] == CategoryName(c)
  {
    match c
    case U8U9 => 0
    case U10U11 => 1
    case U13 => 2
    case U15 => 3
    case A => 4
  }

  /** Distinct values sort to distinct positions. */
  lemma CategoryIndexInjective(c: Category, d: Category)
    ensures CategoryIndex(c) == CategoryIndex(d) ==> c == d
  {
  }

  /** The ENUM accepts exactly its five spellings. */
  function ParseCategory(s: string): (r: Option<Category>)
    ensures r.Some? <==> s in CategoryNames
    ensures r.Some? ==> CategoryName(r.value) == s
  {
    if s == "U8-U9" then Some(U8U9)
    else if s == "U10-U11" then Some(U10U11)
    else if s == "U13" then Some(U13)
    else if s == "U15" then Some(U15)
    else if s == "A" then Some(A)
    else None
  }

  lemma CategoryRoundTrip(c: Category)
    ensures ParseCategory(CategoryName(c)) == Some(c)
  {
  }

  /** `gallery.category`: the five team categories plus "general". */
  datatype GalleryCategory = Team(team: Category) | General

  function GalleryCategoryName(g: GalleryCategory): string {
    match g
    case Team(c) => CategoryName(c)
    case General => "general"
  }

  function ParseGalleryCategory(s: string): (r: Option<GalleryCategory>)
    ensures r.Some? <==> s in CategoryNames || s == "general"
    ensures r.Some? ==> GalleryCategoryName(r.value) == s
    ensures ParseCategory(s).Some? ==> r == Some(Team(ParseCategory(s).value))
  {
    if s == "general" then Some(General)
    else match ParseCategory(s)
      case Some(c) => Some(Team(c))
      case None => None
  }

  /** `users.role`, ENUM('user', 'admin') DEFAULT 'user'. */
  datatype Role = UserRole | AdminRole

  const DefaultRole: Role := UserRole

  /** users: `openId` is UNIQUE; name, email and loginMethod are nullable. */
  datatype User = User(
    openId: string,
    name: Option<string>,
    email: Option<string>,
    loginMethod: Option<string>,
    role: Role,
    createdAt: Timestamp,
    updatedAt: Timestamp,
    lastSignedIn: Timestamp)

  /** players: name and category required; dateOfBirth and position nullable. */
  datatype Player = Player(
    name: string,
    dateOfBirth: Option<Timestamp>,
    category: Category,
    position: Option<string>,
    createdAt: Timestamp,
    updatedAt: Timestamp)

  datatype InsertPlayer = InsertPlayer(
    name: string,
    dateOfBirth: Option<Timestamp>,
    category: Category,
    position: Option<string>)
  {
    /** The row an INSERT creates: the timestamps default to the time of the statement. */
    function ToRow(now: Timestamp): (p: Player)
      ensures p.createdAt == now && p.updatedAt == now
    {
      Player(name, dateOfBirth, category, position, now, now)
    }
  }

  datatype PlayerChanges = PlayerChanges(
    name: Option<string>,
    dateOfBirth: Option<Option<Timestamp>>,
    category: Option<Category>,
    position: Option<Option<string>>)
  {
    /** The row after `UPDATE players SET ...`. `updatedAt` is ON UPDATE CURRENT_TIMESTAMP:
        it moves to the time of the statement when another column changes value, and is kept
        when every column keeps its value. */
    function ApplyTo(p: Player, now: Timestamp): (q: Player)
      ensures q.name == name.GetOr(p.name) && q.dateOfBirth == dateOfBirth.GetOr(p.dateOfBirth)
      ensures q.category == category.GetOr(p.category) && q.position == position.GetOr(p.position)
      ensures q.createdAt == p.createdAt
      ensures q.(updatedAt := p.updatedAt) == p ==> q == p
      ensures q.(updatedAt := p.updatedAt) != p ==> q.updatedAt == now
    {
      var written := Player(
        name.GetOr(p.name),
        dateOfBirth.GetOr(p.dateOfBirth),
        category.GetOr(p.category),
        position.GetOr(p.position),
        p.createdAt,
        p.updatedAt);
      if written == p then p else written.(updatedAt := now)
    }
  }

  /** trainings: date, category and createdById required; location and notes nullable. */
  datatype Training = Training(
    date: Timestamp,
    category: Category,
    location: Option<string>,
    notes: Option<string>,
    createdById: int,
    createdAt: Timestamp,
    updatedAt: Timestamp)

  datatype InsertTraining = InsertTraining(
    date: Timestamp,
    category: Category,
    location: Option<string>,
    notes: Option<string>,
    createdById: int)
  {
    function ToRow(now: Timestamp): (t: Training)
      ensures t.createdAt == now && t.updatedAt == now
    {
      Training(date, category, location, notes, createdById, now, now)
    }
  }

  datatype TrainingChanges = TrainingChanges(
    date: Option<Timestamp>,
    category: Option<Category>,
    location: Option<Option<string>>,
    notes: Option<Option<string>>,
    createdById: Option<int>)
  {
    /** The row after `UPDATE trainings SET ...`, with `updatedAt` moved as for players. */
    function ApplyTo(t: Training, now: Timestamp): (u: Training)
      ensures u.date == date.GetOr(t.date) && u.category == category.GetOr(t.category)
      ensures u.location == location.GetOr(t.location) && u.notes == notes.GetOr(t.notes)
      ensures u.createdById == createdById.GetOr(t.createdById)
      ensures u.createdAt == t.createdAt
      ensures u.(updatedAt := t.updatedAt) == t ==> u == t
      ensures u.(updatedAt := t.updatedAt) != t ==> u.updatedAt == now
    {
      var written := Training(
        date.GetOr(t.date),
        category.GetOr(t.category),
        location.GetOr(t.location),
        notes.GetOr(t.notes),
        createdById.GetOr(t.createdById),
        t.createdAt,
        t.updatedAt);
      if written == t then t else written.(updatedAt := now)
    }
  }

  /** attendance: only `id` is a key; nothing makes (trainingId, playerId) unique.
      `present` is NOT NULL DEFAULT false. */
  datatype Attendance = Attendance(
    trainingId: int,
    playerId: int,
    present: bool,
    createdAt: Timestamp,
    updatedAt: Timestamp)

  datatype InsertAttendance = InsertAttendance(trainingId: int, playerId: int, present: Option<bool>) {
    function ToRow(now: Timestamp): (a: Attendance)
      ensures a.trainingId == trainingId && a.playerId == playerId
      ensures present.None? ==> !a.present
      ensures present.Some? ==> a.present == present.value
    {
      Attendance(trainingId, playerId, present.GetOr(false), now, now)
    }
  }

  /** news: title, content and authorId required; `published` NOT NULL DEFAULT false. */
  datatype News = News(
    title: string,
    content: string,
    imageUrl: Option<string>,
    authorId: int,
    published: bool,
    createdAt: Timestamp,
    updatedAt: Timestamp)

  datatype InsertNews = InsertNews(
    title: string,
    content: string,
    imageUrl: Option<string>,
    authorId: int,
    published: Option<bool>)
  {
    function ToRow(now: Timestamp): (n: News)
      ensures n.title == title && n.content == content && n.authorId == authorId
      ensures published.None? ==> !n.published
      ensures published.Some? ==> n.published == published.value
    {
      News(title, content, imageUrl, authorId, published.GetOr(false), now, now)
    }
  }

  datatype NewsChanges = NewsChanges(
    title: Option<string>,
    content: Option<string>,
    imageUrl: Option<Option<string>>,
    authorId: Option<int>,
    published: Option<bool>)
  {
    /** The row after `UPDATE news SET ...`, with `updatedAt` moved as for players. */
    function ApplyTo(n: News, now: Timestamp): (m: News)
      ensures m.title == title.GetOr(n.title) && m.content == content.GetOr(n.content)
      ensures m.imageUrl == imageUrl.GetOr(n.imageUrl) && m.authorId == authorId.GetOr(n.authorId)
      ensures m.published == published.GetOr(n.published)
      ensures m.createdAt == n.createdAt
      ensures m.(updatedAt := n.updatedAt) == n ==> m == n
      ensures m.(updatedAt := n.updatedAt) != n ==> m.updatedAt == now
    {
      var written := News(
        title.GetOr(n.title),
        content.GetOr(n.content),
        imageUrl.GetOr(n.imageUrl),
        authorId.GetOr(n.authorId),
        published.GetOr(n.published),
        n.createdAt,
        n.updatedAt);
      if written == n then n else written.(updatedAt := now)
    }
  }

  /** gallery: imageUrl, imageKey and uploadedById required; title and category nullable;
      no updatedAt column. */
  datatype GalleryItem = GalleryItem(
    title: Option<string>,
    imageUrl: string,
    imageKey: string,
    category: Option<GalleryCategory>,
    uploadedById: int,
    createdAt: Timestamp)

  datatype InsertGallery = InsertGallery(
    title: Option<string>,
    imageUrl: string,
    imageKey: string,
    category: Option<GalleryCategory>,
    uploadedById: int)
  {
    function ToRow(now: Timestamp): (g: GalleryItem)
      ensures g.createdAt == now
    {
      GalleryItem(title, imageUrl, imageKey, category, uploadedById, now)
    }
  }
}
