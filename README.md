# A verified model of the CFK Pezinok-Cajla club application core

The club's web application keeps players, trainings, attendance, news, a photo gallery,
site users, trainers and monthly membership payments. This project models its core in Dafny:

- the persistence layer (`server/db.ts`): a `Db.Database` object holding the tables and
  the optional storage handle, which stands for what `getDb()` returns when an operation
  calls it;
- the table declarations (`drizzle/schema.ts`): enums, defaults, required and nullable
  columns;
- the procedures (`server/routers.ts`): input schemas, the stamps they add, listing dispatch,
  the membership month bound, trainer login, logout and password change;
- four small client-side calculations:
  - the membership fee statistics;
  - the attendance date range and colour bands;
  - the change-password form;
  - the gallery image key.

Module layout, one file each:

- `Wrappers`, `Seqs`, `Sorting`, `Percent`;
- `Schema`, `Tables`, `Users`, `AttendanceRules`, `Db`;
- `Trainers`, `Payments`, `Routers`;
- `MembershipFees`, `AttendancePage`, `ChangePasswordPage`, `GalleryPage`.

A table is a value `Tables.Table<T>`: its rows in insertion order, with an auto-increment
counter. The statements the persistence layer issues by id are defined once, on that value.

`Db.Database` is a class whose methods replace its table fields. Each method is specified
against the pure functions of `Tables`, `Users` and `AttendanceRules`, and the lemmas there
prove the properties of those functions. The trainer store and the payment store are
classes of their own. The client pages are functions over their inputs. The one exception
is the change-password form: it is a class whose `Submit` method changes its state as
`handleChangePassword` does, and it is proved against the function `AfterSubmit`.

getAttendanceStats selects the ids of the trainings inside the given range, but never adds
them to the conditions of its count (server/db.ts:227-245). So a range only decides whether
the result is all zeros. The counts always cover every attendance row of the player
(`AttendanceRules.StatsIgnoreRange`, `AttendanceRules.StatsCountRowsOutsideRange`).

## Model

| member | source | states |
|---|---|---|
| Percent.RoundedPercent | server/db.ts:250 | `Math.round(100·part/total)`, or 0 when total is 0. The result is the nearest integer to 100·part/total, a half rounding up, and at most 100 when part ≤ total. |
| Percent.RoundedPercentMonotone | server/db.ts:250 | Over the same total, a larger share never gives a smaller percentage. |
| Percent.RoundedPercentExtremes | server/db.ts:250 | For a non-empty total, the whole is 100 % and nothing is 0 %. |
| Sorting.SortedBy | server/db.ts:112 | `ORDER BY`: a permutation of the selected rows, sorted by the key. |
| Schema.CategoryIndex | drizzle/schema.ts:28-34 | A category's position in the ENUM declaration, by which the column sorts; the position spells the category. |
| Schema.ParseCategory | drizzle/schema.ts:28-34 | The player/training ENUM admits exactly its five spellings. |
| Schema.CategoryRoundTrip | drizzle/schema.ts:49-55 | Parsing a category's name gives the category back. |
| Schema.ParseGalleryCategory | drizzle/schema.ts:106-113 | The gallery ENUM admits the five categories and "general", and agrees with the team ENUM on the five. |
| Schema.InsertPlayer.ToRow | drizzle/schema.ts:36-37 | A new player's createdAt and updatedAt default to the time of the INSERT. |
| Schema.PlayerChanges.ApplyTo | drizzle/schema.ts:36-37 | An UPDATE sets the given columns and keeps the rest and createdAt. updatedAt (ON UPDATE CURRENT_TIMESTAMP) becomes now when a column changes value; when none does, the row stays as it was. |
| Schema.InsertTraining.ToRow | drizzle/schema.ts:59-60 | A new training's timestamps default to now. |
| Schema.TrainingChanges.ApplyTo | drizzle/schema.ts:59-60 | As PlayerChanges.ApplyTo, for trainings: given columns set, updatedAt moved only when a column changes value. |
| Schema.InsertAttendance.ToRow | drizzle/schema.ts:71-73 | `present` defaults to false; the pair is as given. |
| Schema.InsertNews.ToRow | drizzle/schema.ts:86-90 | `published` defaults to false; title, content and author are as given. |
| Schema.NewsChanges.ApplyTo | drizzle/schema.ts:91-92 | As PlayerChanges.ApplyTo, for news: given columns set, updatedAt moved only when a column changes value. |
| Schema.InsertGallery.ToRow | drizzle/schema.ts:115 | createdAt defaults to now. |
| Tables.Table.Find | server/db.ts:120-121 | `WHERE id = ? LIMIT 1`: a row exactly when some row has the id, and in a valid table it is that row. |
| Tables.Table.Insert | server/db.ts:96 | The new row is appended under the next id, the table stays valid, and the row is found by that id. |
| Tables.Table.Update | server/db.ts:128 | `change` applies to the row with the id; every other row, every id and the counter are kept. |
| Tables.Table.Delete | server/db.ts:135 | Exactly the rows with the id go: one in a valid table that has it, none otherwise. The rest stay, ids stay unique. |
| Tables.Lookup | server/db.ts:86 | `WHERE key = k LIMIT 1`: a row with the key when one exists, none otherwise. |
| Tables.UpsertByFound | server/db.ts:196-199 | With a row for the key, only that row changes and the table keeps its size. |
| Tables.UpsertByMissing | server/db.ts:200-202 | Without a row for the key, exactly the new row is appended under the next id. |
| Tables.UpsertByKeepsKeysUnique | server/db.ts:190-202 | A keyed read-then-update-or-insert keeps the table valid and the keys unique. It leaves one row for the key, holding the changed old row or the inserted one. |
| Tables.UpsertByKeepsOtherKeys | server/db.ts:190-202 | That upsert leaves the row of every other key as it was. |
| AttendanceRules.MarkUpdatesFoundRow | server/db.ts:196-199 | markAttendance with a row for the pair changes only that row, and the size is unchanged. A row already holding `present` stays as it was. Any other takes `present`, with updatedAt now (drizzle/schema.ts:75). |
| AttendanceRules.RemarkChangesNothing | server/db.ts:196-199 | Marking a pair with the flag it already holds leaves the table exactly as it was, updatedAt included. |
| AttendanceRules.MarkAppendsMissingRow | server/db.ts:200-202 | markAttendance without a row for the pair appends exactly one row with the given values. |
| AttendanceRules.MarkKeepsOneRowPerPair | server/db.ts:186-203 | From one row per pair, a mark keeps one row per pair and leaves exactly one row for its pair, holding `present`. |
| AttendanceRules.MarkKeepsOtherPairs | server/db.ts:190-202 | A mark leaves every other pair's `present` as it was. |
| AttendanceRules.ApplyMarksKeepsOneRowPerPair | server/db.ts:186-203 | Any sequence of marks keeps the table valid with one row per pair. |
| AttendanceRules.ApplyMarksLastWins | server/db.ts:186-203 | After a sequence of marks, a pair's `present` is the last mark's for it, or the original value if no mark named the pair. |
| AttendanceRules.TrueThenFalse | server/db.ts:186-203 | Marking true, then false, leaves one row for the pair, with false. |
| AttendanceRules.Stats | server/db.ts:225-252 | Returns present ≤ total and percentage ≤ 100. It is {0,0,0} when a bound is given and no training date lies in the inclusive bounds, and when the player has no rows. |
| AttendanceRules.StatsWithoutRange | server/db.ts:242-250 | Without bounds: total counts the player's rows, present those marked present, percentage is their rounded share. |
| AttendanceRules.StatsIgnoreRange | server/db.ts:227-245 | Once one training lies in the bounds, the result equals the unbounded one: the range is never applied to the count. |
| AttendanceRules.StatsCountRowsOutsideRange | server/db.ts:227-245 | Example: a January range counts the player's March row in full, giving 1 of 1. |
| Users.UserValues.ToRow | drizzle/schema.ts:8-15 | A new user: the given columns. Role defaults to 'user', lastSignedIn to now, timestamps to now. |
| Users.UpdateSet.ApplyTo | server/db.ts:70-72 | ON DUPLICATE KEY UPDATE: the columns present in the set change, and openId and createdAt are kept. updatedAt (drizzle/schema.ts:14) becomes now exactly when a column changes value. |
| Users.BuildUpsert | server/db.ts:32-68 | Every given text column (null included) goes into both objects, and so does a given lastSignedIn. The role is the given one, else admin for the owner. The insert always has lastSignedIn (now if not given). The update set is never empty: lastSignedIn = now exactly when nothing else was given. |
| Users.UserByOpenId | server/db.ts:86-88 | The user with that openId, or none exactly when no row has it. |
| Users.UpsertKeepsOpenIdsUnique | server/db.ts:70-72 | The upsert keeps openIds unique and leaves one row for the openId: the updated old user or the inserted one. |
| Users.UpsertKeepsOtherUsers | server/db.ts:70-72 | The upsert leaves every other openId's user as it was. |
| Users.UpsertedUser | server/db.ts:32-72 | The stored user, given the one before. A new user takes the role rule or the default, with updatedAt now. An existing one keeps createdAt and its role unless a role is given; its updatedAt moves to now exactly when a column changes. A given lastSignedIn is stored. |
| Users.UpsertStoresUpsertedUser | server/db.ts:32-72 | Sets built as upsertUser builds them store exactly `UpsertedUser` under the openId. |
| Users.UpsertUserEffect | server/db.ts:20-72 | The whole effect of upsertUser on a valid users table. |
| Users.UpsertUsers | server/db.ts:32-72 | The upsert on the users table, once the openId and the handle checks pass: the table it leaves is `UpsertedUsers` of the old one. |
| Db.PlayerNameOrder | server/db.ts:104 | `ORDER BY players.name` is a total preorder. |
| Db.PlayerCategoryNameOrder | server/db.ts:112 | `ORDER BY category, name` (ENUM position, then name) is a total preorder. |
| Db.DateOrders | server/db.ts:151 | The descending date orders of trainings, news and gallery are total preorders. |
| Db.Database.constructor | server/db.ts:6 | Before the first getDb: no handle, valid empty tables. |
| Db.Database.GetDb | server/db.ts:8-18 | The handle is created once: on the first call that finds a non-empty URL and a driver that accepts it. A failure leaves none; an existing handle is kept. |
| Db.Database.UpsertUser | server/db.ts:20-77 | An empty openId is rejected with the users table untouched. Without a handle the call returns and changes nothing. Otherwise the table becomes `UpsertedUsers` of the old one. |
| Db.Database.GetUserByOpenId | server/db.ts:79-89 | Undefined without a handle; otherwise the user with that openId, or undefined exactly when none has it. |
| Db.Database.CreatePlayer | server/db.ts:92-98 | "Database not available" without a handle, with nothing changed. Otherwise one row is inserted under the next id, which is returned and finds the row. |
| Db.Database.PlayersByCategory | server/db.ts:100-106 | [] without a handle; otherwise exactly the category's players (as a multiset), sorted by name. |
| Db.Database.AllPlayers | server/db.ts:108-114 | [] without a handle; otherwise every player, sorted by category and then name. |
| Db.Database.GetPlayerById | server/db.ts:116-122 | A player exactly when a handle exists and a row has the id, and then that row's. |
| Db.Database.UpdatePlayer | server/db.ts:124-129 | Throws without a handle and changes nothing. Otherwise only the row with the id changes, by the given columns. |
| Db.Database.DeletePlayer | server/db.ts:131-136 | Throws without a handle. Otherwise exactly the row with the id goes and the others keep their order. The auto-increment counter is kept, so a later create never hands out the deleted id again. |
| Db.Database.CreateTraining | server/db.ts:139-145 | As CreatePlayer, for trainings. |
| Db.Database.TrainingsByCategory | server/db.ts:147-153 | [] without a handle; otherwise exactly the category's trainings, latest first. |
| Db.Database.AllTrainings | server/db.ts:155-161 | [] without a handle; otherwise every training, latest first. |
| Db.Database.GetTrainingById | server/db.ts:163-169 | As GetPlayerById, for trainings. |
| Db.Database.UpdateTraining | server/db.ts:171-176 | As UpdatePlayer, for trainings. |
| Db.Database.DeleteTraining | server/db.ts:178-183 | As DeletePlayer, for trainings, counter kept; attendance rows are kept. |
| Db.Database.MarkAttendance | server/db.ts:186-203 | Throws without a handle. Otherwise the table is `Mark` of the old one: it stays valid with one row per pair, the pair holds `present` in exactly one row, and every other pair is unchanged. |
| Db.Database.AttendanceByTraining | server/db.ts:205-211 | [] without a handle; otherwise exactly the training's rows, each stored row listed at most as often as it is stored. |
| Db.Database.AttendanceByPlayer | server/db.ts:213-219 | [] without a handle; otherwise exactly the player's rows, each stored row listed at most as often as it is stored. |
| Db.Database.GetAttendanceStats | server/db.ts:221-253 | Zeros without a handle; otherwise exactly `AttendanceRules.Stats` of the stored rows, with all its proved properties. Always present ≤ total and percentage ≤ 100. Without bounds it counts the player's rows and those present. |
| Db.Database.CreateNews | server/db.ts:256-262 | As CreatePlayer, for news. |
| Db.NewestPublished | server/db.ts:264-275 | Only published items, newest first. Capped at a positive limit, or every published item when the limit is absent or 0. No older item is returned in place of a newer one left out, and no item is listed twice (the result is a sub-multiset of the published items). |
| Db.Database.PublishedNews | server/db.ts:264-275 | [] without a handle; otherwise `NewestPublished` of the stored items. |
| Db.Database.AllNews | server/db.ts:277-283 | [] without a handle; otherwise every item, newest first. |
| Db.Database.GetNewsById | server/db.ts:285-291 | As GetPlayerById, for news. |
| Db.Database.UpdateNews | server/db.ts:293-298 | As UpdatePlayer, for news. |
| Db.Database.DeleteNews | server/db.ts:300-305 | As DeletePlayer, for news, counter kept. |
| Db.Database.CreateGalleryItem | server/db.ts:308-314 | As CreatePlayer, for gallery items. |
| Db.Database.GalleryByCategory | server/db.ts:316-327 | [] without a handle. An absent or empty category gives every item; otherwise exactly the items of that category (an item without one never matches). Newest first. |
| Db.Database.DeleteGalleryItem | server/db.ts:329-334 | As DeletePlayer, for gallery items, counter kept. |
| Trainers.TrainerStore.GetTrainerById | server/routers.ts:364-370 | The trainer with that id, or none exactly when no trainer has it. |
| Trainers.TrainerStore.GetTrainerByUsername | server/trainer.test.ts:37-41 | The trainer with exactly that username, or none exactly when none has it. |
| Trainers.TrainerStore.UsernameLookupFindsTrainer | server/routers.ts:372 | With unique usernames, a stored trainer is found by its own username. |
| Trainers.TrainerStore.VerifyTrainerPassword | server/trainer.test.ts:21-35 | The trainer exactly when the username exists and the password verifies for it; null for an unknown user and a wrong password alike. |
| Trainers.TrainerStore.UpdateTrainerPassword | server/routers.ts:380 | Afterwards exactly the new password verifies for that trainer; every other trainer's passwords are unchanged. |
| Trainers.TrainerStore.PasswordChangeTakesEffect | server/trainer.test.ts:43-56 | After the change the new password verifies and any other, the old one included, does not. |
| Routers.CategoryInput | server/routers.ts:9 | `categoryEnum` accepts exactly "U8-U9", "U10-U11", "U13", "U15", "A", and refuses the rest as bad input. |
| Routers.OptionalCategoryInput | server/routers.ts:43 | The optional category: absent stays absent; a present one must pass `categoryEnum`. |
| Routers.GalleryCategoryInput | server/routers.ts:248 | `gallery.create` accepts the five categories, "general" and no category. |
| Routers.GalleryCategoryWidensCategory | server/routers.ts:248 | The gallery schema accepts every team category, and "general", which the team schema refuses. |
| Routers.OptionalDate | server/routers.ts:36 | An absent or empty date string gives no date; otherwise the parsed one. |
| Routers.PlayerCreateRecord | server/routers.ts:27-37 | Accepted exactly when the name is non-empty and the category valid. The record carries the input's fields. |
| Routers.PlayersCreate | server/routers.ts:26-39 | Bad input changes nothing. A storage failure changes nothing. Otherwise the player is inserted. |
| Routers.PlayersList | server/routers.ts:41-50 | A valid category lists that category by name; no category lists everyone; an invalid one is refused. |
| Routers.TrainingCreateRecord | server/routers.ts:86-97 | Accepted exactly when the category is valid; the training is stamped with the caller's id as createdById. |
| Routers.TrainingsCreate | server/routers.ts:85-99 | As PlayersCreate; the stored training's createdById is the caller's id. |
| Routers.TrainingsList | server/routers.ts:101-110 | The dispatch of PlayersList, for trainings. |
| Routers.NewsCreateRecord | server/routers.ts:186-196 | Accepted exactly when title and content are non-empty. `published` is false unless given, and the author is the caller. |
| Routers.NewsCreate | server/routers.ts:185-198 | As PlayersCreate; the stored item has the caller as author and published false unless given. |
| Routers.GalleryCreateRecord | server/routers.ts:244-254 | Accepted exactly when the category is absent or one of the six; the uploader is the caller. |
| Routers.GalleryCreate | server/routers.ts:243-256 | As PlayersCreate; the stored item's uploadedById is the caller's id. |
| Routers.SetPaymentProcedure | server/routers.ts:276-293 | A month outside 1..12 is refused before the store is touched. Otherwise the key's payment holds 1/0 for `paid`. |
| Routers.GetByYearMonth | server/routers.ts:301-308 | A month outside 1..12 is refused; otherwise exactly the month's payments. |
| Routers.LoginOutcome | server/routers.ts:317-329 | Empty fields are bad input. An unknown username and a wrong password both give UNAUTHORIZED "Invalid username or password". Success exactly when the password verifies for the username. |
| Routers.Login | server/routers.ts:317-348 | On success one `trainer_session` cookie is set for 7·24·60·60·1000 ms, carrying the returned trainer's id, username and full name. On failure no cookie is written. |
| Routers.TrainerLogout | server/routers.ts:350-355 | Clears `trainer_session` with maxAge -1. |
| Routers.AuthLogout | server/routers.ts:15-21 | Clears the application's session cookie with maxAge -1. |
| Routers.Utf16Length | server/routers.ts:361 | The length zod's `min` measures, JavaScript's `.length`: between the character count and twice it, and 0 exactly for "". |
| Routers.ThreeEmojiAreSixUnits | server/routers.ts:361 | Three characters beyond U+FFFF measure 6. |
| Routers.ChangePasswordRefusal | server/routers.ts:357-378 | The refusals in their order. First the schema: a current password of length ≥ 1 and a new one of length ≥ 6, in UTF-16 code units. Then NOT_FOUND for an unknown trainer, before any password check. Then UNAUTHORIZED for a wrong current password. |
| Routers.ChangePassword | server/routers.ts:357-382 | A refusal changes no password. Only an accepted call runs updateTrainerPassword, which replaces exactly that trainer's password. |
| Routers.LoginAfterPasswordChange | server/trainer.test.ts:43-56 | After the change, login with the new password succeeds and with any other fails as a wrong password. |
| Payments.PaidFlag | server/membership.test.ts:70 | `paid` is stored as 1 or 0, and 1 exactly for true. |
| Payments.SetPaymentKeepsOneRowPerKey | server/routers.ts:285-291 | setMembershipPayment keeps one row per (playerId, year, month), and the key's row holds the flag. |
| Payments.SetPaymentKeepsOtherKeys | server/routers.ts:285-291 | Every other key's payment is unchanged. |
| Payments.PaidThenUnpaid | server/membership.test.ts:110-147 | Paid, then unpaid, for one key leaves one row with `paid` 0. |
| Payments.PaymentStore.SetMembershipPayment | server/routers.ts:285-291 | The store after the call: the flag stored under the key in exactly one row, every other key unchanged. |
| Payments.PaymentStore.ByPlayer | server/routers.ts:298 | Exactly the player's payments. |
| Payments.PaymentStore.ByYearMonth | server/routers.ts:307 | Exactly the month's payments. |
| MembershipFees.PaymentStatus | client/src/pages/TrainerMembershipFees.tsx:60-65 | True exactly when the first payment for the player, year and month has paid = 1; no such payment gives false. |
| MembershipFees.PaymentStatusIsStoredFlag | client/src/pages/TrainerMembershipFees.tsx:60-65 | The page's status agrees with the store: true exactly when the key's row holds 1. |
| MembershipFees.StatusAfterToggle | client/src/pages/TrainerMembershipFees.tsx:50-57 | Once the toggle's arguments are stored, the page shows the switch as it was put. |
| MembershipFees.ToggleLeavesOtherStatuses | client/src/pages/TrainerMembershipFees.tsx:50-57 | A toggle changes the status of no other player or month. |
| MembershipFees.ToggleIsAccepted | client/src/pages/TrainerMembershipFees.tsx:50-57 | A toggle sent with a month from the dropdown passes the server's month bound. |
| MembershipFees.Statistics | client/src/pages/TrainerMembershipFees.tsx:68-71 | total is the player count; paid is the number of listed players whose status is paid; paid + unpaid = total. paid is 0 exactly when nobody paid, unpaid is 0 exactly when everybody did. The rate is the rounded share, at most 100, and 0 for no players. |
| MembershipFees.AllPaidIsHundredPercent | client/src/pages/TrainerMembershipFees.tsx:71 | When everybody listed paid, the rate is 100. |
| MembershipFees.MonthOptionsAreServerMonths | client/src/pages/TrainerMembershipFees.tsx:11-24 | The month options are exactly the months 1..12 that the server admits. |
| MembershipFees.DefaultMonth | client/src/pages/TrainerMembershipFees.tsx:27 | The default month is one of the options. |
| MembershipFees.YearOptions | client/src/pages/TrainerMembershipFees.tsx:126 | Three increasing consecutive years around the current one. |
| AttendancePage.DaysInMonth | client/src/pages/TrainerAttendance.tsx:51 | The calendar length of a month: 28 to 31; February has 29 exactly in leap years. |
| AttendancePage.YearLength | client/src/pages/TrainerAttendance.tsx:51 | The twelve month lengths add up to 366 days in a leap year and 365 otherwise. |
| AttendancePage.MakeDate | client/src/pages/TrainerAttendance.tsx:50-51 | `new Date(y, m, d)` is always a real date, and the one given when that is already real. |
| AttendancePage.DayZeroIsLastDay | client/src/pages/TrainerAttendance.tsx:51 | Day 0 of the next month is the last day of the month of day 1 of this one. |
| AttendancePage.LeadingDigits | client/src/pages/TrainerAttendance.tsx:49 | The length of the digit prefix. |
| AttendancePage.ParseInt | client/src/pages/TrainerAttendance.tsx:49 | NaN (None) exactly when the string does not start with a digit. |
| AttendancePage.PeriodOptionsParse | client/src/pages/TrainerAttendance.tsx:19-33 | The options after "all" parse to the zero-based months 0..11, in order. |
| AttendancePage.GetDateRange | client/src/pages/TrainerAttendance.tsx:46-57 | "all" exactly when no bounds; NaN exactly for a non-numeric option. Otherwise both dates are real, start < end, start is day 1 at 00:00:00 and end the last day of start's month at 23:59:59. Month m < 12 starts in month m of the current year. |
| AttendancePage.OptionRanges | client/src/pages/TrainerAttendance.tsx:46-57 | Every dropdown entry gives its month of the current year, from the 1st to the month's length. February ends on the 29th exactly in leap years. |
| AttendancePage.PercentageColor | client/src/pages/TrainerAttendance.tsx:166-170 | Green exactly for ≥ 80, yellow exactly for 60..79, red exactly for < 60. |
| AttendancePage.PercentageColorMonotone | client/src/pages/TrainerAttendance.tsx:166-170 | A higher percentage never gets a worse band. |
| AttendancePage.CategoryLabel | client/src/pages/TrainerAttendance.tsx:172-190 | "A" is shown as "A tím"; every other category, known or not, as itself. |
| ChangePasswordPage.FormError | client/src/pages/TrainerChangePassword.tsx:36-49 | The first failing check wins, in the order required → equal → length, with its message. No error exactly when the current and new password are filled in, the new equals the confirmation and its `.length` (UTF-16 code units) is ≥ 6. |
| ChangePasswordPage.EmojiPasswordLongEnough | client/src/pages/TrainerChangePassword.tsx:46 | A new password of three emoji passes the form's length check and the server's `min(6)`. |
| ChangePasswordPage.FormChecksCoverSchema | client/src/pages/TrainerChangePassword.tsx:46-49 | A form passing its checks passes the server's schema, so the server never refuses it as bad input. |
| ChangePasswordPage.DisplayedError | client/src/pages/TrainerChangePassword.tsx:75-77 | The server's message when it has one, else the fallback; never empty. |
| ChangePasswordPage.AfterSubmit | client/src/pages/TrainerChangePassword.tsx:31-81 | Success exactly when the checks pass, a session exists and the server accepts; then the fields are empty and the dashboard is scheduled. Otherwise the fields are kept and the error is, in order, the check's, the lost session's or the server's. Loading is off after a call was attempted. |
| ChangePasswordPage.AcceptedView | client/src/pages/TrainerChangePassword.tsx:65-74 | An accepted call empties the form and schedules the dashboard; nothing else moves. |
| ChangePasswordPage.RefusedView | client/src/pages/TrainerChangePassword.tsx:75-80 | A refused call shows the server's message and keeps the fields. |
| ChangePasswordPage.ResubmitAfterSuccess | client/src/pages/TrainerChangePassword.tsx:36-39 | Submitting again after a success stops at the required-fields check. |
| ChangePasswordPage.ChangePasswordForm.constructor | client/src/pages/TrainerChangePassword.tsx:12-27 | Empty fields; without a stored session the page moves to the login route. |
| ChangePasswordPage.ChangePasswordForm.Submit | client/src/pages/TrainerChangePassword.tsx:31-81 | The form ends as `AfterSubmit` says. Only when the call is made and accepted is a password changed: exactly that trainer's. |
| GalleryPage.Split | client/src/pages/TrainerGallery.tsx:61 | `split('/')` gives at least one piece, and no piece holds the separator. |
| GalleryPage.JoinSplit | client/src/pages/TrainerGallery.tsx:61 | Joining the pieces gives the string back. |
| GalleryPage.LastPieceIsTail | client/src/pages/TrainerGallery.tsx:61 | `pop()` is the text after the last '/', or the whole string without one. It is empty exactly when the string is empty or ends in '/'. |
| GalleryPage.ImageKey | client/src/pages/TrainerGallery.tsx:61 | The key is never empty and never holds '/'. It is the text after the last '/', or "image" when that text is empty; a URL without '/' is its own key. |
| GalleryPage.EmptyToNone | client/src/pages/TrainerGallery.tsx:64 | An empty or missing form field becomes undefined. |
| GalleryPage.GalleryPayload | client/src/pages/TrainerGallery.tsx:63-68 | The payload carries the URL, its key, and the title and category with empty ones left out. |
| GalleryPage.FormCategories | client/src/pages/TrainerGallery.tsx:138 | The dropdown offers every category button but "all". |
| GalleryPage.FormCategoryIsGalleryCategory | client/src/pages/TrainerGallery.tsx:14-22 | Every dropdown value is a team category or "general". |
| GalleryPage.FormCategoriesAccepted | client/src/pages/TrainerGallery.tsx:55-71 | Whatever the dropdown holds, or nothing, `gallery.create` accepts the payload. |
| GalleryPage.AllCategoryRefused | client/src/pages/TrainerGallery.tsx:15 | The "all" value, which the dropdown leaves out, would be refused. |

## Left out

- The MySQL driver and SQL text: tables are in-memory sequences of rows.
- Payments.PaymentStore.SetMembershipPayment: its contract (and that of `Routers.SetPaymentProcedure`) pins the assumed store `Payments.SetPayment`, where two rules are assumptions, not source. A call without an amount keeps a stored amount, and a new row goes at the end. The toggle lemmas use only the flag and the one-row-per-key properties.
- Db.Database: the methods read `handle` and do not call `GetDb` themselves. `handle` stands for what getDb() returns at the time of the call, so an operation's own first connection attempt is the preceding `GetDb`. A fresh `Database` with DATABASE_URL set answers "Database not available" until `GetDb` has run, where the source would connect first.
- Storage errors other than a missing handle. Once a handle exists, no statement fails in this model, so the error paths of upsertUser's `catch` and a failing `drizzle(url)` are not modelled. `Db.Database.GetDb` takes as a parameter whether `drizzle(url)` returns.
- Environment lookups: `process.env.DATABASE_URL`, `ENV.ownerOpenId` and `COOKIE_NAME` (a shared constant) are parameters.
- The clock: `new Date()` and the column defaults use a `now` parameter.
- Date parsing: `new Date(string)` in the procedures is a parameter `toDate`.
- Console warnings, which have no effect on results.
- The read-then-write race in markAttendance and setMembershipPayment. It is about concurrency, and every operation here runs on its own.
- MySQL collation: names sort by code point, and text equality compares exact code points. Under the default case-insensitive collation:
  - `gallery.list({category: "u13"})` would match U13 items;
  - `eq(users.openId, …)` (server/db.ts:86) and the UNIQUE index on openId (drizzle/schema.ts:8) would treat two openIds that differ only in case as one user, and upsertUser would update that user's row.
  `Users.UserByOpenId`, `Users.UpsertKeepsOpenIdsUnique` and `Db.Database.GalleryByCategory` do not model this.
- The order of rows whose sort keys tie: it may be any order.
- The width of MySQL INT columns: ids and counters are unbounded.
- The bodies of setMembershipPayment, the payment queries, getTrainerById, getTrainerByUsername, verifyTrainerPassword and updateTrainerPassword are not part of this model. The stores are assumed implementations with the properties the procedures and the tests rely on.
  - Password hashing (bcrypt) is an abstract relation that compares whole passwords. bcrypt reads only the first 72 bytes, so two passwords that agree there both verify. The "any other password fails" of `Trainers.TrainerStore.PasswordChangeTakesEffect` and `Routers.LoginAfterPasswordChange` holds only under this abstraction.
  - The `paidAt` column and the initializeTrainers seeding are not modelled.
- The procedures that only forward their input to one storage function are the `Db` members they call, not separate members:
  - `getById`, `update` and `delete` for each entity;
  - `news.listAll`, `news.getById` and `gallery.list`;
  - `attendance.mark`, `getByTraining`, `getByPlayer` and `getStats`;
  - `membershipPayments.getByPlayer` and `getAll`;
  - `auth.me`.
  The mapping of a partial `update` input to the `...Changes` record is not modelled separately.
- The `protectedProcedure` middleware: the caller's id is a parameter, and authorization is not modelled.
- zod's number checks: ids are integers, and a `news.list` limit is a natural number, so negative or fractional limits are not modelled.
- ChangePasswordPage.ServerMessage: gives "" for every failure that is not a refusal, so the form shows its fallback message. In the source, a refused input carries zod's text, and a storage failure carries "Database not available" from the thrown `Error`. Inside `ChangePasswordForm.Submit`, only refusals reach it: `FormChecksCoverSchema` rules out bad input, and the trainer store does not fail.
- In the client pages:
  - rendering, toasts and `localStorage`: the stored session is the form's constructor argument;
  - the two-second timer, which is modelled as the scheduled route `scheduledRedirect`;
  - React's batching of state updates: the form state is one record.
- `Date.prototype.toISOString` and time zones: dates are local calendar tuples, and the range is returned before it is converted to ISO text.
- `AttendancePage.ParseInt`: models `parseInt` for strings that start with their digits. Leading blanks, signs and radix prefixes never come from the dropdown and are left out.
- `AttendancePage.CategoryLabel`: a category spelled like an `Object.prototype` key (such as "constructor") would look up an inherited member in JavaScript; that case is left out.
- Percent.RoundedPercent: rounds 100·part/total exactly, half up, where the source rounds the double `(part / total) * 100` with `Math.round`. The two differ where the double falls just below a half. For 23 of 40, the double is 57.49999999999999, so the source gives 57 and the model 58; 29 of 200 gives 14 in the source and 15 in the model. The same holds for `AttendanceRules.Stats` and `MembershipFees.Statistics`, which use it.
- `GalleryPage.GalleryPayload`: takes the image URL as a string. A form submitted without the required URL field, where `formData.get` gives null, is left out.
