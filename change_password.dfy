/** The trainer's change-password form (client/src/pages/TrainerChangePassword.tsx): the
    checks it makes before it calls `trainer.changePassword`, and what the form shows after
    the call, with the server side as modelled in module Routers. */
module ChangePasswordPage {
  import opened Wrappers
  import opened Trainers
  import opened Routers

  const AllFieldsRequired := "Všetky polia sú povinné"
  const PasswordsDiffer := "Nové heslá sa nezhodujú"
  const PasswordTooShort := "Nové heslo musí mať aspoň 6 znakov"
  const SessionLost := "Trénerská relácia sa stratila. Prihláste sa znova."
  const ChangeFailed := "Zmena hesla zlyhala. Skúste znova."
  const LoginRoute := "/trainer-login"
  const DashboardRoute := "/trainer-dashboard"

  /** The form's checks, in their order: every field filled in, the two new passwords equal,
      the new one at least 6 long as `.length` counts (UTF-16 code units). */
  function FormError(currentPassword: string, newPassword: string, confirmPassword: string): (r: Option<string>)
    ensures currentPassword == "" || newPassword == "" || confirmPassword == "" ==> r == Some(AllFieldsRequired)
    ensures currentPassword != "" && newPassword != "" && confirmPassword != "" && newPassword != confirmPassword ==>
      r == Some(PasswordsDiffer)
    ensures currentPassword != "" && newPassword != "" && newPassword == confirmPassword && Utf16Length(newPassword) < 6 ==>
      r == Some(PasswordTooShort)
    ensures r.None? <==> currentPassword != "" && newPassword == confirmPassword && Utf16Length(newPassword) >= 6
  {
    if currentPassword == "" || newPassword == "" || confirmPassword == "" then Some(AllFieldsRequired)
    else if newPassword != confirmPassword then Some(PasswordsDiffer)
    else if Utf16Length(newPassword) < 6 then Some(PasswordTooShort)
    else None
  }

  /** A form that passes its own checks also passes the server's input schema, so the server
      can only refuse it for the trainer or the current password. */
  lemma FormChecksCoverSchema(store: TrainerStore, trainerId: int, currentPassword: string, newPassword: string, confirmPassword: string)
    requires FormError(currentPassword, newPassword, confirmPassword).None?
    ensures MinLength(currentPassword, 1) && MinLength(newPassword, 6)
    ensures ChangePasswordRefusal(store, trainerId, currentPassword, newPassword) != Some(BadInput)
  {
  }

  /** The length check counts code units as the page does: a new password of three emoji is
      long enough for the form and for the server's schema. */
  lemma EmojiPasswordLongEnough(currentPassword: string)
    requires currentPassword != ""
    ensures var e := "\U{1F600}\U{1F600}\U{1F600}";
      FormError(currentPassword, e, e).None? && MinLength(e, 6)
  {
    ThreeEmojiAreSixUnits();
  }

  /** `err.message` of the error the mutation throws: the text of a refusal; the text tRPC
      builds for the other failures is not part of this model. */
  function ServerMessage(f: Failure): string {
    if f.Rejected? then f.message else ""
  }

  /** `err.message || "Zmena hesla zlyhala. Skúste znova."` */
  function DisplayedError(f: Failure): (m: string)
    ensures m != ""
    ensures f.Rejected? && f.message != "" ==> m == f.message
    ensures ServerMessage(f) == "" ==> m == ChangeFailed
  {
    var message := ServerMessage(f);
    if message != "" then message else ChangeFailed
  }

  /** What the form shows: its fields, messages and routes. */
  datatype FormView = FormView(
    currentPassword: string, newPassword: string, confirmPassword: string,
    error: string, success: bool, isLoading: bool,
    location: Option<string>, scheduledRedirect: Option<string>)

  /** The form after handleChangePassword has run to its end, given whether a session was
      found and, when the call was made, the server's refusal (None when it accepted). */
  function AfterSubmit(v: FormView, hasSession: bool, refusal: Option<Failure>): (w: FormView)
    // the redirect to the login page and the timer are the only route changes
    ensures w.location == (if FormError(v.currentPassword, v.newPassword, v.confirmPassword).None? && !hasSession then Some(LoginRoute) else v.location)
    // success exactly when the checks pass, a session exists and the server accepts
    ensures w.success <==> FormError(v.currentPassword, v.newPassword, v.confirmPassword).None? && hasSession && refusal.None?
    ensures w.success ==> w.error == "" && w.scheduledRedirect == Some(DashboardRoute)
    ensures w.success ==> w.currentPassword == "" && w.newPassword == "" && w.confirmPassword == ""
    ensures !w.success ==> w.error != "" && w.scheduledRedirect == v.scheduledRedirect
    ensures !w.success ==> w.currentPassword == v.currentPassword && w.newPassword == v.newPassword && w.confirmPassword == v.confirmPassword
    // the first failing check, the lost session, or the server's message
    ensures FormError(v.currentPassword, v.newPassword, v.confirmPassword).Some? ==>
      w.error == FormError(v.currentPassword, v.newPassword, v.confirmPassword).value && w.isLoading == v.isLoading
    ensures FormError(v.currentPassword, v.newPassword, v.confirmPassword).None? ==> !w.isLoading
    ensures FormError(v.currentPassword, v.newPassword, v.confirmPassword).None? && !hasSession ==> w.error == SessionLost
    ensures FormError(v.currentPassword, v.newPassword, v.confirmPassword).None? && hasSession && refusal.Some? ==>
      w.error == DisplayedError(refusal.value)
  {
    var cleared := v.(error := "", success := false);
    match FormError(v.currentPassword, v.newPassword, v.confirmPassword)
    case Some(message) => cleared.(error := message)
    case None =>
      if !hasSession then cleared.(error := SessionLost, location := Some(LoginRoute), isLoading := false)
      else match refusal
        case Some(f) => cleared.(error := DisplayedError(f), isLoading := false)
        case None =>
          cleared.(success := true, currentPassword := "", newPassword := "", confirmPassword := "",
                   scheduledRedirect := Some(DashboardRoute), isLoading := false)
  }

  /** An accepted call: the form is emptied and the dashboard is scheduled; nothing else moves. */
  lemma AcceptedView(v: FormView)
    requires FormError(v.currentPassword, v.newPassword, v.confirmPassword).None?
    ensures AfterSubmit(v, true, None) ==
      FormView("", "", "", "", true, false, v.location, Some(DashboardRoute))
  {
  }

  /** A refused call: the form shows the server's message and keeps its fields. */
  lemma RefusedView(v: FormView, f: Failure)
    requires FormError(v.currentPassword, v.newPassword, v.confirmPassword).None?
    ensures AfterSubmit(v, true, Some(f)) == v.(error := DisplayedError(f), success := false, isLoading := false)
  {
  }

  /** Submitting again after a success finds empty fields and stops at the first check. */
  lemma ResubmitAfterSuccess(v: FormView, hasSession: bool, refusal: Option<Failure>, again: Option<Failure>)
    requires AfterSubmit(v, hasSession, refusal).success
    ensures var w := AfterSubmit(AfterSubmit(v, hasSession, refusal), hasSession, again);
      !w.success && w.error == AllFieldsRequired
  {
  }

  class ChangePasswordForm {
    /** The component's `useState` slots; each `setX` call replaces one field of it. */
    var state: FormView
    /** The trainer record (`id`, `username`, `fullName`) the login page stored and this page
        read from local storage when it was mounted. */
    const trainer: Option<Trainer>

    /** The mounted page: empty fields, and a move to the login page when there is no session. */
    constructor (session: Option<Trainer>)
      ensures state == FormView("", "", "", "", false, false, if session.None? then Some(LoginRoute) else None, None)
      ensures trainer == session
    {
      state := FormView("", "", "", "", false, false, if session.None? then Some(LoginRoute) else None, None);
      trainer := session;
    }

    /** The server's answer when the form makes the call: None when it accepts. */
    function Refusal(store: TrainerStore): Option<Failure>
      reads this, store
    {
      if trainer.Some? then ChangePasswordRefusal(store, trainer.value.id, state.currentPassword, state.newPassword) else None
    }

    /** The call is made: the checks pass and a session exists. */
    predicate Calls()
      reads this
    {
      FormError(state.currentPassword, state.newPassword, state.confirmPassword).None? && trainer.Some?
    }

    /** handleChangePassword, with the server's `trainer.changePassword` as modelled. */
    method Submit(store: TrainerStore)
      requires store.Valid()
      modifies this, store`verifies
      ensures state == AfterSubmit(old(state), trainer.Some?, old(Refusal(store)))
      // only an accepted call changes a password: exactly the new one verifies for the
      // trainer afterwards and every other trainer keeps theirs
      ensures !(old(Calls()) && old(Refusal(store)).None?) ==> store.verifies == old(store.verifies)
      ensures old(Calls()) && old(Refusal(store)).None? ==>
        PasswordReplaced(old(store.verifies), store.verifies, trainer.value.id, old(state.newPassword))
    {
      ghost var before, refusal := state, Refusal(store);
      state := state.(error := "");
      state := state.(success := false);
      var refused := FormError(state.currentPassword, state.newPassword, state.confirmPassword);
      if refused.Some? {
        state := state.(error := refused.value);
        return;
      }
      state := state.(isLoading := true);
      if trainer.None? {
        state := state.(error := SessionLost);
        state := state.(location := Some(LoginRoute));
        state := state.(isLoading := false);
        return;
      }
      var result := ChangePassword(store, trainer.value.id, state.currentPassword, state.newPassword);
      if result.Ok? {
        state := state.(success := true);
        state := state.(currentPassword := "", newPassword := "", confirmPassword := "");
        state := state.(scheduledRedirect := Some(DashboardRoute));
        AcceptedView(before);
      } else {
        state := state.(error := DisplayedError(result.error));
        RefusedView(before, result.error);
      }
      state := state.(isLoading := false);
    }
  }
}
