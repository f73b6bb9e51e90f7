/**
 * The `profileCheck` middleware (src/middleware/profileCheck.js): students
 * pass only with a completed profile; everybody else passes.
 */
module ProfileGate {
  import opened Wrappers
  import opened Http
  import opened UserModel

  /** Either `next()` or a reply that ends the request. */
  datatype Gate = Next | Stop(reason: Reason)

  /** `req.user.userId` is None when the token carried none. */
  function ProfileCheck(userId: Option<string>, users: map<string, User>): (g: Gate)
    ensures g == Next <==>
      userId.Some? && userId.value != "" && userId.value in users
      && (users[userId.value].role != Student || users[userId.value].hasCompletedProfile)
    ensures g == Stop(NoUserIdInToken) <==> userId.None? || userId.value == ""
    ensures g == Stop(ProfileRequiredToAccess) <==>
      userId.Some? && userId.value in users && userId.value != ""
      && users[userId.value].role == Student && !users[userId.value].hasCompletedProfile
    ensures g.Stop? ==> g.reason in {NoUserIdInToken, UserNotFound, ProfileRequiredToAccess}
  {
    if userId.None? || userId.value == "" then Stop(NoUserIdInToken)
    else if userId.value !in users then Stop(UserNotFound)
    else
      var u := users[userId.value];
      if u.role != Student then Next
      else if !u.hasCompletedProfile then Stop(ProfileRequiredToAccess)
      else Next
  }

  /** Only the refusal of an incomplete student carries the `profileRequired` flag. */
  lemma ProfileFlagOnlyForIncompleteStudents(userId: Option<string>, users: map<string, User>)
    ensures var g := ProfileCheck(userId, users);
      g.Stop? ==> (CarriesProfileRequired(g.reason) <==>
        userId.Some? && userId.value != "" && userId.value in users && users[userId.value].role == Student && !users[userId.value].hasCompletedProfile)
  {
  }
}
