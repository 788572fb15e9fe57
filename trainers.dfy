/** The trainer store behind `trainer.login` and `trainer.changePassword`. Its storage
    functions (getTrainerById, getTrainerByUsername, verifyTrainerPassword,
    updateTrainerPassword) are called from server/routers.ts and server/trainer.test.ts but
    their bodies are not part of this model; so password hashing is an abstract relation
    `verifies(trainerId, password)`, and what is stated of these operations is only what
    their callers rely on. */
module Trainers {
  import opened Wrappers
  import opened Seqs

  /** The trainer record the router reads: id, username and full name. */
  datatype Trainer = Trainer(id: int, username: string, fullName: string)

  predicate HasId(t: Trainer, id: int) { t.id == id }

  predicate HasUsername(t: Trainer, username: string) { t.username == username }

  /** `after` is `before` with trainer `id`'s password replaced: exactly `newPassword` verifies
      for that trainer, and every other trainer's passwords are as they were. */
  ghost predicate PasswordReplaced(before: (int, string) -> bool, after: (int, string) -> bool, id: int, newPassword: string) {
    && (forall p :: after(id, p) <==> p == newPassword)
    && (forall i, p :: i != id ==> after(i, p) == before(i, p))
  }

  class TrainerStore {
    var trainers: seq<Trainer>
    /** Whether a password matches the stored hash of the trainer with that id. */
    var verifies: (int, string) -> bool

    /** Ids and usernames are unique. */
    ghost predicate Valid()
      reads this
    {
      forall i, j :: 0 <= i < j < |trainers| ==>
        trainers[i].id != trainers[j].id && trainers[i].username != trainers[j].username
    }

    constructor (trainers: seq<Trainer>, verifies: (int, string) -> bool)
      ensures this.trainers == trainers && this.verifies == verifies
    {
      this.trainers := trainers;
      this.verifies := verifies;
    }

    /** getTrainerById */
    function GetTrainerById(id: int): (r: Option<Trainer>)
      reads this
      ensures r.Some? ==> r.value in trainers && r.value.id == id
      ensures r.None? <==> forall i :: 0 <= i < |trainers| ==> trainers[i].id != id
    {
      First(trainers, (t: Trainer) => HasId(t, id))
    }

    /** getTrainerByUsername: the exact, case-sensitive username. */
    function GetTrainerByUsername(username: string): (r: Option<Trainer>)
      reads this
      ensures r.Some? ==> r.value in trainers && r.value.username == username
      ensures r.None? <==> forall i :: 0 <= i < |trainers| ==> trainers[i].username != username
    {
      First(trainers, (t: Trainer) => HasUsername(t, username))
    }

    /** With unique usernames, looking a stored trainer up by its username finds it. */
    lemma UsernameLookupFindsTrainer(t: Trainer)
      ensures Valid() && t in trainers ==> GetTrainerByUsername(t.username) == Some(t)
    {
      if Valid() && t in trainers {
        var i :| 0 <= i < |trainers| && trainers[i] == t;
        assert forall j :: 0 <= j < |trainers| && j != i ==> trainers[j].username != t.username;
        FirstOfUnique(trainers, (x: Trainer) => HasUsername(x, t.username), i);
      }
    }

    /** verifyTrainerPassword: the trainer when the username exists and the password matches
        its hash, and null (`None`) for an unknown username or a wrong password alike. */
    function VerifyTrainerPassword(username: string, password: string): (r: Option<Trainer>)
      reads this
      ensures r.Some? <==> GetTrainerByUsername(username).Some? && verifies(GetTrainerByUsername(username).value.id, password)
      ensures r.Some? ==> r == GetTrainerByUsername(username) && r.value.username == username
    {
      match GetTrainerByUsername(username)
      case None => None
      case Some(t) => if verifies(t.id, password) then Some(t) else None
    }

    /** updateTrainerPassword: afterwards exactly `newPassword` verifies for that trainer,
        and every other trainer's passwords are as before. */
    method UpdateTrainerPassword(id: int, newPassword: string)
      modifies this`verifies
      ensures PasswordReplaced(old(verifies), verifies, id, newPassword)
    {
      var before := verifies;
      verifies := (i: int, p: string) => if i == id then p == newPassword else before(i, p);
    }

    /** What trainer.test.ts checks after a password change: looked up by username, the new
        password verifies and any other (the old one included) does not. */
    lemma PasswordChangeTakesEffect(username: string, newPassword: string, other: string)
      requires GetTrainerByUsername(username).Some?
      requires forall p :: verifies(GetTrainerByUsername(username).value.id, p) <==> p == newPassword
      requires other != newPassword
      ensures VerifyTrainerPassword(username, newPassword) == GetTrainerByUsername(username)
      ensures VerifyTrainerPassword(username, other).None?
    {
    }
  }
}
