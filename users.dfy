/** upsertUser and getUserByOpenId (server/db.ts): building the INSERT values and the
    ON DUPLICATE KEY UPDATE set from a partial user, and applying both to the `users` table,
    whose `openId` column is UNIQUE. */
module Users {
  import opened Wrappers
  import opened Seqs
  import opened Tables
  import opened Schema

  /** A nullable text column as JavaScript passes it: `None` is `undefined` (leave it alone),
      `Some(None)` is `null`, `Some(Some(s))` a string. */
  type NullableText = Option<Option<string>>

  /** The three nullable text columns the upsert copies, in the order it visits them. */
  datatype TextField = NameField | EmailField | LoginMethodField

  const TextFields: seq<TextField> := [NameField, EmailField, LoginMethodField]

  lemma TextFieldsListsEveryField(f: TextField)
    ensures f in TextFields
  {
  }

  /** The argument of upsertUser: `openId` is required, the rest may be undefined. */
  datatype InsertUser = InsertUser(
    openId: string,
    name: NullableText,
    email: NullableText,
    loginMethod: NullableText,
    role: Option<Role>,
    lastSignedIn: Option<Timestamp>)
  {
    function Text(f: TextField): NullableText {
      match f
      case NameField => name
      case EmailField => email
      case LoginMethodField => loginMethod
    }
  }

  /** The object passed to `db.insert(users).values(...)` and the one passed as
      `onDuplicateKeyUpdate({ set })`: a column that is `None` is not a key of the object. */
  datatype UserValues = UserValues(
    openId: string,
    name: NullableText,
    email: NullableText,
    loginMethod: NullableText,
    role: Option<Role>,
    lastSignedIn: Option<Timestamp>)
  {
    function Text(f: TextField): NullableText {
      match f
      case NameField => name
      case EmailField => email
      case LoginMethodField => loginMethod
    }

    function WithText(f: TextField, v: NullableText): (r: UserValues)
      ensures r.Text(f) == v
      ensures forall g :: g != f ==> r.Text(g) == Text(g)
      ensures r.openId == openId && r.role == role && r.lastSignedIn == lastSignedIn
    {
      match f
      case NameField => this.(name := v)
      case EmailField => this.(email := v)
      case LoginMethodField => this.(loginMethod := v)
    }

    /** The new row when no user has this openId yet: missing columns take their defaults. */
    function ToRow(now: Timestamp): (u: User)
      ensures u.openId == openId && u.createdAt == now && u.updatedAt == now
      ensures u.role == role.GetOr(DefaultRole)
      ensures u.lastSignedIn == lastSignedIn.GetOr(now)
      ensures forall f :: UserText(u, f) == Text(f).GetOr(None)
    {
      User(openId, name.GetOr(None), email.GetOr(None), loginMethod.GetOr(None),
           role.GetOr(DefaultRole), now, now, lastSignedIn.GetOr(now))
    }
  }

  datatype UpdateSet = UpdateSet(
    name: NullableText,
    email: NullableText,
    loginMethod: NullableText,
    role: Option<Role>,
    lastSignedIn: Option<Timestamp>)
  {
    function Text(f: TextField): NullableText {
      match f
      case NameField => name
      case EmailField => email
      case LoginMethodField => loginMethod
    }

    function WithText(f: TextField, v: NullableText): (r: UpdateSet)
      ensures r.Text(f) == v
      ensures forall g :: g != f ==> r.Text(g) == Text(g)
      ensures r.role == role && r.lastSignedIn == lastSignedIn
    {
      match f
      case NameField => this.(name := v)
      case EmailField => this.(email := v)
      case LoginMethodField => this.(loginMethod := v)
    }

    /** `Object.keys(updateSet).length === 0` */
    predicate IsEmpty() {
      name.None? && email.None? && loginMethod.None? && role.None? && lastSignedIn.None?
    }

    /** The existing row after the UPDATE branch: only the keys present change, and
        `updatedAt` (ON UPDATE CURRENT_TIMESTAMP) moves to now exactly when one of them
        changes value. */
    function ApplyTo(u: User, now: Timestamp): (v: User)
      ensures v.openId == u.openId && v.createdAt == u.createdAt
      ensures forall f :: UserText(v, f) == Text(f).GetOr(UserText(u, f))
      ensures v.role == role.GetOr(u.role) && v.lastSignedIn == lastSignedIn.GetOr(u.lastSignedIn)
      ensures v.(updatedAt := u.updatedAt) == u ==> v == u
      ensures v.(updatedAt := u.updatedAt) != u ==> v.updatedAt == now
    {
      var written := User(u.openId, name.GetOr(u.name), email.GetOr(u.email), loginMethod.GetOr(u.loginMethod),
                          role.GetOr(u.role), u.createdAt, u.updatedAt, lastSignedIn.GetOr(u.lastSignedIn));
      if written == u then u else written.(updatedAt := now)
    }
  }

  function UserText(u: User, f: TextField): Option<string> {
    match f
    case NameField => u.name
    case EmailField => u.email
    case LoginMethodField => u.loginMethod
  }

  /** The role both objects carry: the given one, else 'admin' for the owner, else none. */
  function UpsertRole(user: InsertUser, ownerOpenId: string): Option<Role> {
    if user.role.Some? then user.role
    else if user.openId == ownerOpenId then Some(AdminRole)
    else None
  }

  /** The insert values and the update set upsertUser builds from `user`: the given text
      columns in both, the role rule in both, `lastSignedIn` given or now in the values, and
      in the update set `lastSignedIn` given, or now exactly when no other column was given. */
  predicate BuiltFrom(values: UserValues, updateSet: UpdateSet, user: InsertUser, ownerOpenId: string, now: Timestamp) {
    && values.openId == user.openId
    && (forall f :: values.Text(f) == user.Text(f) && updateSet.Text(f) == user.Text(f))
    && values.role == UpsertRole(user, ownerOpenId) && updateSet.role == UpsertRole(user, ownerOpenId)
    && values.lastSignedIn == Some(user.lastSignedIn.GetOr(now))
    && (user.lastSignedIn.Some? ==> updateSet.lastSignedIn == user.lastSignedIn)
    && (user.lastSignedIn.None? ==>
         (updateSet.lastSignedIn == Some(now) <==>
           (forall f :: user.Text(f).None?) && UpsertRole(user, ownerOpenId).None?))
    && (user.lastSignedIn.None? && updateSet.lastSignedIn.Some? ==> updateSet.lastSignedIn == Some(now))
  }

  /** upsertUser's construction of `values` and `updateSet`, after the openId and storage
      checks; the update set is never empty. */
  method BuildUpsert(user: InsertUser, ownerOpenId: string, now: Timestamp)
    returns (values: UserValues, updateSet: UpdateSet)
    ensures BuiltFrom(values, updateSet, user, ownerOpenId, now)
    ensures !updateSet.IsEmpty()
  {
    values := UserValues(user.openId, None, None, None, None, None);
    updateSet := UpdateSet(None, None, None, None, None);
    // textFields.forEach(assignNullable)
    for k := 0 to |TextFields|
      invariant values.openId == user.openId && values.role.None? && values.lastSignedIn.None?
      invariant updateSet.role.None? && updateSet.lastSignedIn.None?
      invariant forall j :: 0 <= j < k ==> values.Text(TextFields[j]) == user.Text(TextFields[j])
      invariant forall j :: 0 <= j < k ==> updateSet.Text(TextFields[j]) == user.Text(TextFields[j])
      invariant forall j :: k <= j < |TextFields| ==> values.Text(TextFields[j]).None? && updateSet.Text(TextFields[j]).None?
    {
      var field := TextFields[k];
      var value := user.Text(field);
      if value.Some? {
        values := values.WithText(field, value);
        updateSet := updateSet.WithText(field, value);
      }
    }
    forall f ensures values.Text(f) == user.Text(f) && updateSet.Text(f) == user.Text(f) {
      TextFieldsListsEveryField(f);
    }
    if user.lastSignedIn.Some? {
      values := values.(lastSignedIn := user.lastSignedIn);
      updateSet := updateSet.(lastSignedIn := user.lastSignedIn);
    }
    if user.role.Some? {
      values := values.(role := user.role);
      updateSet := updateSet.(role := user.role);
    } else if user.openId == ownerOpenId {
      values := values.(role := Some(AdminRole));
      updateSet := updateSet.(role := Some(AdminRole));
    }
    if values.lastSignedIn.None? {
      values := values.(lastSignedIn := Some(now));
    }
    assert (forall f :: user.Text(f).None?) <==>
      user.Text(NameField).None? && user.Text(EmailField).None? && user.Text(LoginMethodField).None?;
    if updateSet.IsEmpty() {
      updateSet := updateSet.(lastSignedIn := Some(now));
    }
  }

  function OpenIdOf(u: User): string {
    u.openId
  }

  /** The `openId` UNIQUE index. */
  ghost predicate UniqueOpenIds(rows: seq<Row<User>>) {
    UniqueKeys(rows, OpenIdOf)
  }

  /** A valid users table: ids and openIds unique. */
  ghost predicate ValidUsers(t: Table<User>) {
    t.Valid() && UniqueOpenIds(t.rows)
  }

  /** getUserByOpenId once a handle exists: `WHERE openId = ? LIMIT 1`. */
  function UserByOpenId(rows: seq<Row<User>>, openId: string): (r: Option<User>)
    ensures r.Some? ==> r.value.openId == openId && exists i :: 0 <= i < |rows| && rows[i].fields == r.value
    ensures r.None? <==> forall i :: 0 <= i < |rows| ==> rows[i].fields.openId != openId
  {
    Lookup(rows, OpenIdOf, openId)
  }

  function ApplyUpdateSet(updateSet: UpdateSet, now: Timestamp): User -> User {
    (u: User) => updateSet.ApplyTo(u, now)
  }

  /** `INSERT ... ON DUPLICATE KEY UPDATE`: the row with the same openId is updated by the
      update set, and a new row is inserted when there is none. */
  function Upsert(t: Table<User>, values: UserValues, updateSet: UpdateSet, now: Timestamp): Table<User> {
    UpsertBy(t, OpenIdOf, values.openId, ApplyUpdateSet(updateSet, now), values.ToRow(now))
  }

  /** The upsert keeps the table valid and openIds unique, leaves exactly one row for the
      openId, holding the updated old user or the inserted values. */
  lemma UpsertKeepsOpenIdsUnique(t: Table<User>, values: UserValues, updateSet: UpdateSet, now: Timestamp)
    requires t.Valid() && UniqueOpenIds(t.rows)
    ensures var r := Upsert(t, values, updateSet, now);
      var before := UserByOpenId(t.rows, values.openId);
      && r.Valid() && UniqueOpenIds(r.rows)
      && UserByOpenId(r.rows, values.openId)
           == Some(if before.Some? then updateSet.ApplyTo(before.value, now) else values.ToRow(now))
      && Count(r.rows, HasKey(OpenIdOf, values.openId)) == 1
  {
    var change := ApplyUpdateSet(updateSet, now);
    assert forall i :: 0 <= i < |t.rows| ==> OpenIdOf(change(t.rows[i].fields)) == OpenIdOf(t.rows[i].fields);
    UpsertByKeepsKeysUnique(t, OpenIdOf, values.openId, change, values.ToRow(now));
    var before := UserByOpenId(t.rows, values.openId);
    assert before.Some? ==> change(before.value) == updateSet.ApplyTo(before.value, now);
  }

  /** The upsert leaves the user of every other openId as it was. */
  lemma UpsertKeepsOtherUsers(t: Table<User>, values: UserValues, updateSet: UpdateSet, now: Timestamp)
    requires t.Valid()
    ensures var r := Upsert(t, values, updateSet, now);
      forall o :: o != values.openId ==> UserByOpenId(r.rows, o) == UserByOpenId(t.rows, o)
  {
    var change := ApplyUpdateSet(updateSet, now);
    assert forall i :: 0 <= i < |t.rows| ==> OpenIdOf(change(t.rows[i].fields)) == OpenIdOf(t.rows[i].fields);
    UpsertByKeepsOtherKeys(t, OpenIdOf, values.openId, change, values.ToRow(now));
  }

  /** The user upsertUser leaves stored under `user.openId`, given the one stored before: a
      new user takes the given columns and the defaults; an existing one takes the given
      columns and keeps the rest, and its `lastSignedIn` moves to now when nothing else was
      given. `updatedAt` is now for a new user, and for an existing one exactly when some
      column changed value. */
  function UpsertedUser(before: Option<User>, user: InsertUser, ownerOpenId: string, now: Timestamp): (u: User)
    ensures u.openId == (if before.Some? then before.value.openId else user.openId)
    ensures before.None? ==> u.updatedAt == now
    ensures before.Some? && u.(updatedAt := before.value.updatedAt) == before.value ==> u == before.value
    ensures before.Some? && u.(updatedAt := before.value.updatedAt) != before.value ==> u.updatedAt == now
    ensures before.None? ==> u.createdAt == now && u.role == UpsertRole(user, ownerOpenId).GetOr(DefaultRole)
    ensures before.Some? ==> u.createdAt == before.value.createdAt && u.role == UpsertRole(user, ownerOpenId).GetOr(before.value.role)
    ensures user.lastSignedIn.Some? ==> u.lastSignedIn == user.lastSignedIn.value
  {
    var role := UpsertRole(user, ownerOpenId);
    match before
    case None =>
      User(user.openId, user.name.GetOr(None), user.email.GetOr(None), user.loginMethod.GetOr(None),
           role.GetOr(DefaultRole), now, now, user.lastSignedIn.GetOr(now))
    case Some(b) =>
      var nothingElse := user.name.None? && user.email.None? && user.loginMethod.None? && role.None?;
      var written := User(b.openId, user.name.GetOr(b.name), user.email.GetOr(b.email), user.loginMethod.GetOr(b.loginMethod),
                          role.GetOr(b.role), b.createdAt, b.updatedAt,
                          if user.lastSignedIn.Some? then user.lastSignedIn.value
                          else if nothingElse then now else b.lastSignedIn);
      if written == b then b else written.(updatedAt := now)
  }

  /** Update and insert sets built as upsertUser builds them store `UpsertedUser`. */
  lemma UpsertStoresUpsertedUser(t: Table<User>, user: InsertUser, ownerOpenId: string, now: Timestamp,
                                 values: UserValues, updateSet: UpdateSet)
    requires t.Valid() && UniqueOpenIds(t.rows)
    requires BuiltFrom(values, updateSet, user, ownerOpenId, now)
    ensures UserByOpenId(Upsert(t, values, updateSet, now).rows, user.openId)
         == Some(UpsertedUser(UserByOpenId(t.rows, user.openId), user, ownerOpenId, now))
  {
    UpsertKeepsOpenIdsUnique(t, values, updateSet, now);
    var before := UserByOpenId(t.rows, user.openId);
    var stored := if before.Some? then updateSet.ApplyTo(before.value, now) else values.ToRow(now);
    assert UserByOpenId(Upsert(t, values, updateSet, now).rows, user.openId) == Some(stored);
    StoredIsUpsertedUser(before, user, ownerOpenId, now, values, updateSet);
  }

  /** What upsertUser leaves in the table `after`, from the table `before`: still valid with
      unique openIds, exactly one row for `user.openId`, holding `UpsertedUser`, and every other
      user as it was. */
  ghost predicate UpsertedUsers(before: Table<User>, after: Table<User>, user: InsertUser, ownerOpenId: string, now: Timestamp) {
    && ValidUsers(after)
    && UserByOpenId(after.rows, user.openId) == Some(UpsertedUser(UserByOpenId(before.rows, user.openId), user, ownerOpenId, now))
    && Count(after.rows, HasKey(OpenIdOf, user.openId)) == 1
    && forall o :: o != user.openId ==> UserByOpenId(after.rows, o) == UserByOpenId(before.rows, o)
  }

  /** Sets built as upsertUser builds them make the upsert leave `UpsertedUsers`. */
  lemma UpsertUserEffect(t: Table<User>, user: InsertUser, ownerOpenId: string, now: Timestamp,
                         values: UserValues, updateSet: UpdateSet)
    requires ValidUsers(t)
    requires BuiltFrom(values, updateSet, user, ownerOpenId, now)
    ensures UpsertedUsers(t, Upsert(t, values, updateSet, now), user, ownerOpenId, now)
  {
    UpsertKeepsOpenIdsUnique(t, values, updateSet, now);
    UpsertKeepsOtherUsers(t, values, updateSet, now);
    UpsertStoresUpsertedUser(t, user, ownerOpenId, now, values, updateSet);
  }

  /** upsertUser on the `users` table, once the openId is non-empty and a handle exists:
      build both objects, then `INSERT ... ON DUPLICATE KEY UPDATE`. */
  method UpsertUsers(t: Table<User>, user: InsertUser, ownerOpenId: string, now: Timestamp) returns (after: Table<User>)
    requires ValidUsers(t)
    ensures UpsertedUsers(t, after, user, ownerOpenId, now)
  {
    var values, updateSet := BuildUpsert(user, ownerOpenId, now);
    UpsertUserEffect(t, user, ownerOpenId, now, values, updateSet);
    after := Upsert(t, values, updateSet, now);
  }

  lemma StoredIsUpsertedUser(before: Option<User>, user: InsertUser, ownerOpenId: string, now: Timestamp,
                             values: UserValues, updateSet: UpdateSet)
    requires BuiltFrom(values, updateSet, user, ownerOpenId, now)
    ensures (if before.Some? then updateSet.ApplyTo(before.value, now) else values.ToRow(now))
         == UpsertedUser(before, user, ownerOpenId, now)
  {
    assert values.Text(NameField) == user.Text(NameField) && updateSet.Text(NameField) == user.Text(NameField);
    assert values.Text(EmailField) == user.Text(EmailField) && updateSet.Text(EmailField) == user.Text(EmailField);
    assert values.Text(LoginMethodField) == user.Text(LoginMethodField) && updateSet.Text(LoginMethodField) == user.Text(LoginMethodField);
    if before.Some? {
      UpdateSetStoresUpsertedUser(before.value, user, ownerOpenId, now, updateSet);
    }
  }

  lemma UpdateSetStoresUpsertedUser(b: User, user: InsertUser, ownerOpenId: string, now: Timestamp, updateSet: UpdateSet)
    requires updateSet.name == user.name && updateSet.email == user.email && updateSet.loginMethod == user.loginMethod
    requires updateSet.role == UpsertRole(user, ownerOpenId)
    requires user.lastSignedIn.Some? ==> updateSet.lastSignedIn == user.lastSignedIn
    requires user.lastSignedIn.None? ==>
      (updateSet.lastSignedIn == Some(now) <==>
        (forall f :: user.Text(f).None?) && UpsertRole(user, ownerOpenId).None?)
    requires user.lastSignedIn.None? && updateSet.lastSignedIn.Some? ==> updateSet.lastSignedIn == Some(now)
    ensures updateSet.ApplyTo(b, now) == UpsertedUser(Some(b), user, ownerOpenId, now)
  {
    assert (forall f :: user.Text(f).None?) <==>
      user.Text(NameField).None? && user.Text(EmailField).None? && user.Text(LoginMethodField).None?;
  }
}
