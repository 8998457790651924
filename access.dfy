/**
 The access decisions of the itinerary page: when the membership lookup and
 the token validation are issued, how their answers set the `membership`
 flag and the `membership` cookie, and what a render does to the flags.
 Each transition is a function on the part of the page state it touches.
 */
module Access {
  import opened JsString

  /** The `membership` cookie as the page reads it back: never written, or
      holding the boolean last written. */
  datatype Cookie = Unset | Stored(value: bool)

  /** The cookie value is truthy only when `true` was stored: an unset
      cookie and a stored `false` are both falsy. */
  function Truthy(c: Cookie): (truthy: bool)
    ensures c == Unset ==> !truthy
    ensures c == Stored(false) ==> !truthy
    ensures c == Stored(true) ==> truthy
  {
    c == Stored(true)
  }

  /** The state behind the access decisions. */
  datatype AccessState = AccessState(membership: bool, fetchUser: bool, cookie: Cookie)

  /** The two plan ids read from the environment; either may be unset. */
  datatype PlanIds = PlanIds(recommended: Option<string>, paidRecommended: Option<string>)

  /** The flag says what the cookie says. */
  predicate Agrees(s: AccessState)
  {
    s.membership == Truthy(s.cookie)
  }

  /** A page load: both flags start false, the cookie is whatever the browser
      kept. Flag and cookie then disagree exactly when the kept cookie is truthy. */
  function Initial(cookie: Cookie): (s: AccessState)
    ensures !s.membership && !s.fetchUser && s.cookie == cookie
    ensures Agrees(s) <==> !Truthy(cookie)
  {
    AccessState(false, false, cookie)
  }

  /** One pass of the component body. Both guards read the flags as they were
      when the pass began: a truthy cookie turns `membership` on, and a signed-in
      user turns `fetch_user` on while `membership` and `fetch_user` are off.
      No cookie is written. */
  function AfterRender(s: AccessState, userPresent: bool): (r: AccessState)
    ensures r.cookie == s.cookie
    ensures r.membership != s.membership ==> !s.membership && Truthy(s.cookie)
    ensures Truthy(s.cookie) ==> r.membership
    ensures r.fetchUser != s.fetchUser ==> !s.fetchUser && userPresent && !s.membership
    ensures userPresent && !s.membership ==> r.fetchUser
    ensures Agrees(s) ==> Agrees(r)
  {
    var membership := if Truthy(s.cookie) && !s.membership then true else s.membership;
    var fetchUser := if userPresent && !s.membership && !s.fetchUser then true else s.fetchUser;
    AccessState(membership, fetchUser, s.cookie)
  }

  /** The membership-id effect issues a lookup only for a non-empty
      `membershipId` while `membership` is off. */
  function LookupFires(membershipId: Option<string>, membership: bool): (fires: bool)
    ensures fires ==> membershipId.Some? && membershipId.value != "" && !membership
    ensures membershipId.Some? && membershipId.value != "" && !membership ==> fires
  {
    !(membershipId.None? || membershipId.value == "" || membership)
  }

  /** The `fetch_user` effect validates the token unless there is neither a
      user nor a membership; with `membership` on it validates even without
      a user. */
  function ValidationFires(userPresent: bool, membership: bool): (fires: bool)
    ensures !userPresent && !membership ==> !fires
    ensures userPresent ==> fires
    ensures membership ==> fires
  {
    !(!userPresent && !membership)
  }

  /** The returned plan grants membership when it equals (`===`) either
      configured id; an absent plan equals an unset id. */
  function PlanGrants(plan: Option<string>, ids: PlanIds): (granted: bool)
    ensures granted <==> plan == ids.recommended || plan == ids.paidRecommended
    ensures plan.None? && (ids.recommended.None? || ids.paidRecommended.None?) ==> granted
  {
    plan == ids.recommended || plan == ids.paidRecommended
  }

  /** The lookup's answer writes the cookie and the flag with the same value. */
  function AfterPlan(s: AccessState, plan: Option<string>, ids: PlanIds): (r: AccessState)
    ensures Agrees(r) && r.fetchUser == s.fetchUser
    ensures r.membership == PlanGrants(plan, ids)
    ensures r.cookie == Stored(r.membership)
  {
    if PlanGrants(plan, ids) then AccessState(true, s.fetchUser, Stored(true))
    else AccessState(false, s.fetchUser, Stored(false))
  }

  /** The validation's answer, as the page has it: a truthy `valid` turns
      membership off and a falsy one turns it on, cookie alongside. */
  function AfterValidation(s: AccessState, valid: bool): (r: AccessState)
    ensures Agrees(r) && r.fetchUser == s.fetchUser
    ensures r.membership == !valid
    ensures r.cookie == Stored(r.membership)
  {
    if valid then AccessState(false, s.fetchUser, Stored(false))
    else AccessState(true, s.fetchUser, Stored(true))
  }

  /** What can happen to the access state, in whatever order the event loop
      delivers it. */
  datatype Event =
    | Render(userPresent: bool)
    | PlanAnswer(plan: Option<string>)
    | ValidityAnswer(valid: bool)

  predicate IsAnswer(e: Event)
  {
    e.PlanAnswer? || e.ValidityAnswer?
  }

  function Step(s: AccessState, e: Event, ids: PlanIds): AccessState
  {
    match e
    case Render(userPresent) => AfterRender(s, userPresent)
    case PlanAnswer(plan) => AfterPlan(s, plan, ids)
    case ValidityAnswer(valid) => AfterValidation(s, valid)
  }

  /** The state after the events, first event first. */
  function Run(s: AccessState, events: seq<Event>, ids: PlanIds): AccessState
    decreases |events|
  {
    if events == [] then s else Run(Step(s, events[0], ids), events[1..], ids)
  }

  /** Once flag and cookie agree, every later event keeps them agreeing. */
  lemma {:induction false} RunKeepsAgreement(s: AccessState, events: seq<Event>, ids: PlanIds)
    requires Agrees(s)
    ensures Agrees(Run(s, events, ids))
    decreases |events|
  {
    if events != [] {
      RunKeepsAgreement(Step(s, events[0], ids), events[1..], ids);
    }
  }

  /** Whatever cookie the browser kept, flag and cookie agree from the first
      render of the page on. */
  lemma AgreementFromFirstRender(cookie: Cookie, userPresent: bool, events: seq<Event>, ids: PlanIds)
    ensures Agrees(Run(Initial(cookie), [Render(userPresent)] + events, ids))
  {
    var first := AfterRender(Initial(cookie), userPresent);
    assert ([Render(userPresent)] + events)[1..] == events;
    RunKeepsAgreement(first, events, ids);
  }

  /** `fetch_user` is never turned off, by any event. */
  lemma {:induction false} FetchUserSticky(s: AccessState, events: seq<Event>, ids: PlanIds)
    requires s.fetchUser
    ensures Run(s, events, ids).fetchUser
    decreases |events|
  {
    if events != [] {
      FetchUserSticky(Step(s, events[0], ids), events[1..], ids);
    }
  }

  /** Without a render that sees a user, `fetch_user` stays as it was. */
  lemma {:induction false} FetchUserNeedsUser(s: AccessState, events: seq<Event>, ids: PlanIds)
    requires forall k :: 0 <= k < |events| ==> events[k] != Render(true)
    ensures Run(s, events, ids).fetchUser == s.fetchUser
    decreases |events|
  {
    if events != [] {
      assert forall k :: 0 <= k < |events| - 1 ==> events[1..][k] == events[k + 1];
      FetchUserNeedsUser(Step(s, events[0], ids), events[1..], ids);
    }
  }

  /** Only an answer from the server turns `membership` off: renders alone
      (the truthy-cookie guard included) never do. */
  lemma {:induction false} RendersKeepMembership(s: AccessState, events: seq<Event>, ids: PlanIds)
    requires s.membership
    requires forall k :: 0 <= k < |events| ==> !IsAnswer(events[k])
    ensures Run(s, events, ids).membership
    decreases |events|
  {
    if events != [] {
      assert forall k :: 0 <= k < |events| - 1 ==> events[1..][k] == events[k + 1];
      RendersKeepMembership(Step(s, events[0], ids), events[1..], ids);
    }
  }

  /** The last answer decides: after it, renders leave flag and cookie as the
      answer set them. */
  lemma {:induction false} LastAnswerWins(s: AccessState, answer: Event, renders: seq<Event>, ids: PlanIds)
    requires IsAnswer(answer)
    requires forall k :: 0 <= k < |renders| ==> !IsAnswer(renders[k])
    ensures Run(s, [answer] + renders, ids).membership == Step(s, answer, ids).membership
    ensures Run(s, [answer] + renders, ids).cookie == Step(s, answer, ids).cookie
  {
    var t := Step(s, answer, ids);
    assert ([answer] + renders)[1..] == renders;
    RendersKeepCookie(t, renders, ids);
    if t.membership {
      RendersKeepMembership(t, renders, ids);
    } else {
      RunKeepsAgreement(t, renders, ids);
    }
  }

  /** Renders never write the cookie. */
  lemma {:induction false} RendersKeepCookie(s: AccessState, events: seq<Event>, ids: PlanIds)
    requires forall k :: 0 <= k < |events| ==> !IsAnswer(events[k])
    ensures Run(s, events, ids).cookie == s.cookie
    decreases |events|
  {
    if events != [] {
      assert forall k :: 0 <= k < |events| - 1 ==> events[1..][k] == events[k + 1];
      RendersKeepCookie(Step(s, events[0], ids), events[1..], ids);
    }
  }
}
