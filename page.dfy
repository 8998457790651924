/**
 The state of the `Home` component and the handlers that change it: render,
 the two server answers about access, the form inputs and `hitAPI`. Network
 answers and encodeURIComponent come in as parameters.
 */
module Page {
  import opened JsString
  import opened Access
  import opened Itinerary

  /** The form's `{ days?: string, city?: string }`. */
  datatype Request = Request(days: Option<string>, city: Option<string>)

  /** `hitAPI` goes on only when both fields are present and non-empty. */
  function CanBuild(r: Request): (ok: bool)
    ensures ok ==> r.city.Some? && r.city.value != "" && r.days.Some? && r.days.value != ""
    ensures r.city.Some? && r.city.value != "" && r.days.Some? && r.days.value != "" ==> ok
    ensures r.city == None || r.city == Some("") || r.days == None || r.days == Some("") ==> !ok
  {
    !(r.city.None? || r.city.value == "" || r.days.None? || r.days.value == "")
  }

  const BuildingMessage := "Building itinerary..."

  class Home {
    var membership: bool
    var fetchUser: bool
    var cookie: Cookie
    var request: Request
    var itinerary: string
    var loading: bool
    var message: string

    /** The part of the state the access decisions work on. */
    function Flags(): AccessState
      reads this
    {
      AccessState(membership, fetchUser, cookie)
    }

    /** A page load with the cookie the browser kept. */
    constructor (storedCookie: Cookie)
      ensures Flags() == Initial(storedCookie)
      ensures request == Request(None, None)
      ensures itinerary == "" && !loading && message == ""
    {
      membership, fetchUser, cookie := false, false, storedCookie;
      request := Request(None, None);
      itinerary, loading, message := "", false, "";
    }

    /** One pass of the component body: the two render-time guards, both on
        the flags as they were at the start, then the day sections of the
        current itinerary. */
    method Render(userPresent: bool) returns (days: seq<string>)
      modifies this
      ensures Flags() == AfterRender(old(Flags()), userPresent)
      ensures request == old(request) && itinerary == old(itinerary)
      ensures loading == old(loading) && message == old(message)
      ensures days == DaySections(itinerary)
    {
      var wasMember := membership;
      if Truthy(cookie) && !wasMember {
        membership := true;
      }
      if userPresent && !wasMember && !fetchUser {
        fetchUser := true;
      }
      days := SplitDays(itinerary);
    }

    /** The membership-id effect: whether it issues the lookup. Written with
        the effect's early return; `LookupFires` is the condition it must
        agree with. */
    method MembershipEffect(membershipId: Option<string>) returns (issued: bool)
      ensures issued == LookupFires(membershipId, membership)
    {
      if membershipId.None? || membershipId.value == "" || membership {
        return false;
      }
      issued := true;
    }

    /** The `fetch_user` effect: whether it issues the token validation.
        Written with the effect's early return; `ValidationFires` is the
        condition it must agree with. */
    method UserAccessEffect(userPresent: bool) returns (issued: bool)
      ensures issued == ValidationFires(userPresent, membership)
    {
      if !userPresent && !membership {
        return false;
      }
      issued := true;
    }

    /** `fetchMembership`'s success handler. */
    method ReceivePlan(plan: Option<string>, ids: PlanIds)
      modifies this
      ensures Flags() == AfterPlan(old(Flags()), plan, ids)
      ensures request == old(request) && itinerary == old(itinerary)
      ensures loading == old(loading) && message == old(message)
    {
      if PlanGrants(plan, ids) {
        cookie := Stored(true);
        membership := true;
      } else {
        cookie := Stored(false);
        membership := false;
      }
    }

    /** `fetchUserAccess`'s success handler, branches as the page has them. */
    method ReceiveValidity(valid: bool)
      modifies this
      ensures Flags() == AfterValidation(old(Flags()), valid)
      ensures request == old(request) && itinerary == old(itinerary)
      ensures loading == old(loading) && message == old(message)
    {
      if valid {
        cookie := Stored(false);
        membership := false;
      } else {
        cookie := Stored(true);
        membership := true;
      }
    }

    /** The city input's change handler. */
    method SetCity(value: string)
      modifies this`request
      ensures request == old(request).(city := Some(value))
    {
      request := request.(city := Some(value));
    }

    /** The days input's change handler. */
    method SetDays(value: string)
      modifies this`request
      ensures request == old(request).(days := Some(value))
    {
      request := request.(days := Some(value));
    }

    /** `hitAPI` run to completion, with `generated` the itinerary text the
        first endpoint returned and `points` the list the second one did.
        With a field missing or empty nothing is requested and nothing
        changes; otherwise the linked itinerary is published and loading ends. */
    method HitApi(generated: string, points: seq<string>, enc: string -> string)
      returns (issued: bool)
      modifies this`itinerary, this`loading, this`message
      ensures issued == CanBuild(request)
      ensures !issued ==> itinerary == old(itinerary) && loading == old(loading) && message == old(message)
      ensures issued ==> itinerary == LinkAll(generated, points, request.city.value, enc)
      ensures issued ==> !loading && message == BuildingMessage
    {
      if !CanBuild(request) {
        return false;
      }
      message := BuildingMessage;
      loading := true;
      itinerary := "";
      var linked := LinkPoints(generated, points, request.city.value, enc);
      itinerary := linked;
      loading := false;
      issued := true;
    }
  }
}
