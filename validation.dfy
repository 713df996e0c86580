/**
 * The onboarding schema: a request body is a JSON value, and the schema
 * accepts an object whose `hearingStatus` is one of four names, whose
 * `lsmVariant` is a non-empty string, and whose `ageRange` and `gender` are
 * strings when present. Unknown keys are stripped, as an object schema does
 * by default.
 */
module Validation {
  import opened Common

  datatype Json =
    | JNull
    | JBool(b: bool)
    | JNumber(n: int)
    | JString(s: string)
    | JArray(items: seq<Json>)
    | JObject(fields: map<string, Json>)

  /** The enum `['deaf', 'hard_of_hearing', 'hearing', 'coda']`. */
  function HearingStatusName(h: HearingStatus): string
  {
    match h
    case Deaf => "deaf"
    case HardOfHearing => "hard_of_hearing"
    case Hearing => "hearing"
    case Coda => "coda"
  }

  /** The enum member spelled `s`, if any. */
  function ParseHearingStatus(s: string): (r: Option<HearingStatus>)
    ensures r.Some? <==> exists h :: HearingStatusName(h) == s
    ensures r.Some? ==> HearingStatusName(r.value) == s
  {
    if s == "deaf" then assert HearingStatusName(Deaf) == s; Some(Deaf)
    else if s == "hard_of_hearing" then assert HearingStatusName(HardOfHearing) == s; Some(HardOfHearing)
    else if s == "hearing" then assert HearingStatusName(Hearing) == s; Some(Hearing)
    else if s == "coda" then assert HearingStatusName(Coda) == s; Some(Coda)
    else
      assert forall h :: HearingStatusName(h) != s;
      None
  }

  /** A key that `.optional()` accepts: absent, or a string. JSON has no
      `undefined`, so an explicit `null` is refused. */
  predicate OptionalString(fields: map<string, Json>, key: string)
  {
    key !in fields || fields[key].JString?
  }

  /** `onboardingSchema` as a predicate on the body. */
  predicate ValidOnboardingBody(body: Json)
  {
    && body.JObject?
    && "hearingStatus" in body.fields
    && body.fields["hearingStatus"].JString?
    && (exists h :: HearingStatusName(h) == body.fields["hearingStatus"].s)
    && "lsmVariant" in body.fields
    && body.fields["lsmVariant"].JString?
    && |body.fields["lsmVariant"].s| >= 1
    && OptionalString(body.fields, "ageRange")
    && OptionalString(body.fields, "gender")
  }

  /** `validationResult.data` on success. */
  datatype Onboarding = Onboarding(
    hearingStatus: HearingStatus,
    lsmVariant: string,
    ageRange: Option<string>,
    gender: Option<string>)

  function OptionalField(fields: map<string, Json>, key: string): (r: Option<string>)
    requires OptionalString(fields, key)
    ensures r.Some? <==> key in fields
    ensures r.Some? ==> fields[key] == JString(r.value)
  {
    if key in fields then Some(fields[key].s) else None
  }

  /** `onboardingSchema.safeParse(body)`: the parsed fields, or 400. */
  function ParseOnboarding(body: Json): (r: Result<Onboarding>)
    ensures r.Ok? <==> ValidOnboardingBody(body)
    ensures r.Err? ==> r.error == BadRequest
    ensures r.Ok? ==>
      && HearingStatusName(r.value.hearingStatus) == body.fields["hearingStatus"].s
      && body.fields["lsmVariant"] == JString(r.value.lsmVariant)
      && (r.value.ageRange.Some? <==> "ageRange" in body.fields)
      && (r.value.ageRange.Some? ==> body.fields["ageRange"] == JString(r.value.ageRange.value))
      && (r.value.gender.Some? <==> "gender" in body.fields)
      && (r.value.gender.Some? ==> body.fields["gender"] == JString(r.value.gender.value))
  {
    match body
    case JObject(fields) =>
      if "hearingStatus" !in fields || !fields["hearingStatus"].JString? then Err(BadRequest)
      else
        var hs := ParseHearingStatus(fields["hearingStatus"].s);
        if hs.None? then Err(BadRequest)
        else if "lsmVariant" !in fields || !fields["lsmVariant"].JString? || |fields["lsmVariant"].s| < 1 then Err(BadRequest)
        else if !OptionalString(fields, "ageRange") || !OptionalString(fields, "gender") then Err(BadRequest)
        else Ok(Onboarding(hs.value, fields["lsmVariant"].s, OptionalField(fields, "ageRange"), OptionalField(fields, "gender")))
    case _ => Err(BadRequest)
  }

  /** The body a client sends for `o`. */
  function OnboardingBody(o: Onboarding): (body: Json)
  {
    var base := map["hearingStatus" := JString(HearingStatusName(o.hearingStatus)),
                    "lsmVariant" := JString(o.lsmVariant)];
    var withAge := if o.ageRange.Some? then base["ageRange" := JString(o.ageRange.value)] else base;
    JObject(if o.gender.Some? then withAge["gender" := JString(o.gender.value)] else withAge)
  }

  /** Every onboarding answer with a non-empty LSM variant can be sent and is
      read back unchanged. */
  lemma ParseOnboardingBody(o: Onboarding)
    requires |o.lsmVariant| >= 1
    ensures ParseOnboarding(OnboardingBody(o)) == Ok(o)
  {
    var body := OnboardingBody(o);
    assert ValidOnboardingBody(body);
    var r := ParseOnboarding(body).value;
    HearingStatusNameInjective(r.hearingStatus, o.hearingStatus);
  }

  lemma HearingStatusNameInjective(a: HearingStatus, b: HearingStatus)
    requires HearingStatusName(a) == HearingStatusName(b)
    ensures a == b
  {
  }

  /** Keys outside the schema neither make a body invalid nor reach the
      parsed data. */
  lemma UnknownKeysStripped(fields: map<string, Json>, key: string, v: Json)
    requires key !in {"hearingStatus", "lsmVariant", "ageRange", "gender"}
    ensures ParseOnboarding(JObject(fields[key := v])) == ParseOnboarding(JObject(fields))
  {
  }

  /** The schema is an object schema: no other JSON value passes. */
  lemma OnlyObjectsPass(body: Json)
    requires !body.JObject?
    ensures ParseOnboarding(body) == Err(BadRequest)
  {
  }

  /** `.min(1)`: an empty LSM variant is refused even when everything else is
      in order. */
  lemma EmptyVariantRefused(fields: map<string, Json>)
    ensures ParseOnboarding(JObject(fields["lsmVariant" := JString("")])).Err?
  {
  }

  /** `.optional()` is not `.nullable()`: an explicit `null` age range is refused. */
  lemma NullAgeRangeRefused(fields: map<string, Json>)
    ensures ParseOnboarding(JObject(fields["ageRange" := JNull])).Err?
  {
  }
}
