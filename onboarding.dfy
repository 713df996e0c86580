/**
 * `completeOnboarding`: a one-time transition of the caller's users row,
 * guarded by the onboarding flag and by the onboarding schema.
 */
module Onboarding {
  import opened Common
  import opened Validation
  import opened Store

  /** The users row after `prisma.user.update` with the validated data. A
      field that was absent from the body is `undefined` in `data`, which
      leaves the column as it was. */
  function Apply(u: User, o: Validation.Onboarding): User
  {
    u.(hearingStatus := Some(o.hearingStatus),
       lsmVariant := Some(o.lsmVariant),
       ageRange := if o.ageRange.Some? then o.ageRange else u.ageRange,
       gender := if o.gender.Some? then o.gender else u.gender,
       onboardingCompleted := true)
  }

  /** The outcome of onboarding user `u` with `body`: 403 once onboarding is
      completed (checked before the body is looked at), 400 for a body the
      schema refuses, otherwise the updated row. */
  function Onboard(u: User, body: Json): (r: Result<User>)
    ensures u.onboardingCompleted ==> r == Err(Forbidden)
    ensures !u.onboardingCompleted && !ValidOnboardingBody(body) ==> r == Err(BadRequest)
    ensures r.Ok? <==> !u.onboardingCompleted && ValidOnboardingBody(body)
    ensures r.Ok? ==>
      && r.value.onboardingCompleted
      && r.value.hearingStatus.Some? && r.value.lsmVariant.Some?
      && HearingStatusName(r.value.hearingStatus.value) == body.fields["hearingStatus"].s
      && body.fields["lsmVariant"] == JString(r.value.lsmVariant.value)
      && ("ageRange" in body.fields ==> r.value.ageRange.Some? && body.fields["ageRange"] == JString(r.value.ageRange.value))
      && ("ageRange" !in body.fields ==> r.value.ageRange == u.ageRange)
      && ("gender" in body.fields ==> r.value.gender.Some? && body.fields["gender"] == JString(r.value.gender.value))
      && ("gender" !in body.fields ==> r.value.gender == u.gender)
      && r.value.name == u.name && r.value.role == u.role
      && r.value.currentStreak == u.currentStreak && r.value.lastContributionDay == u.lastContributionDay
      && r.value.reputationScore == u.reputationScore
  {
    if u.onboardingCompleted then Err(Forbidden)
    else
      match ParseOnboarding(body)
      case Err(e) => Err(e)
      case Ok(o) => Ok(Apply(u, o))
  }

  /** A successful onboarding closes the door: every later call is refused,
      whatever its body. */
  lemma OnboardingIsOneShot(u: User, first: Json, second: Json)
    requires Onboard(u, first).Ok?
    ensures Onboard(Onboard(u, first).value, second) == Err(Forbidden)
  {
  }

  /** A refused call leaves the row able to onboard later. */
  lemma RefusedBodyCanBeRetried(u: User, bad: Json, good: Json)
    requires !u.onboardingCompleted && !ValidOnboardingBody(bad)
    requires ValidOnboardingBody(good)
    ensures Onboard(u, bad).Err? && Onboard(u, good).Ok?
  {
  }

  /** Onboarding with the body built from an answer stores that answer. */
  lemma OnboardingStoresTheAnswer(u: User, o: Validation.Onboarding)
    requires !u.onboardingCompleted && |o.lsmVariant| >= 1
    ensures Onboard(u, OnboardingBody(o)) == Ok(Apply(u, o))
  {
    ParseOnboardingBody(o);
  }

  /** `POST /users/onboarding` for the authenticated user `userId`. */
  method CompleteOnboarding(db: Database, userId: string, body: Json) returns (r: Result<User>)
    requires db.Valid() && userId in db.users
    modifies db
    ensures db.Valid()
    ensures r == Onboard(old(db.users[userId]), body)
    ensures r.Ok? ==> db.users == old(db.users)[userId := r.value]
    ensures r.Err? ==> db.users == old(db.users)
    ensures db.recordings == old(db.recordings) && db.order == old(db.order)
  {
    var user := db.users[userId];
    if user.onboardingCompleted {
      return Err(Forbidden);
    }
    var parsed := ParseOnboarding(body);
    if parsed.Err? {
      return Err(BadRequest);
    }
    var updated := Apply(user, parsed.value);
    db.UpdateUser(userId, updated);
    r := Ok(updated);
  }
}
