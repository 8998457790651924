# GPTravel Advisor page logic, in Dafny

A verified model of the small amount of sequential logic inside the `Home`
component of the GPTravel Advisor single-page app (`app/page.tsx`):

- **Day splitter.** The generated itinerary is cut on every literal `"Day"`,
  non-overlapping, left to right, as `String.prototype.split` does. With more
  than one part, the preamble before the first `"Day"` is dropped
  (`days.shift()`). Otherwise the single part gets a `"1"` in front. Each
  section is shown as `"Day " + section`, and nothing is shown while the
  itinerary is empty.
- **Point-of-interest linker.** `hitAPI` folds over the list of place names.
  Each step replaces only the first occurrence of the name in the running
  text with the Markdown link
  `[point](https://www.google.com/search?q=ENC(point + ' ' + city))`.
- **Access decisions.** These cover:
  - when the membership lookup and the token validation are issued;
  - how the returned plan id and the `valid` answer set the `membership`
    flag and the `membership` cookie;
  - what each render does to `membership` and `fetch_user`.

Modules:

- `JsString` (js_string.dfy): the ECMAScript string operations the page relies
  on, for string patterns: `indexOf`, `split` (also as ECMAScript's
  loop) and `replace` with its `$` replacement patterns. It also holds the
  split/join round trips in both directions.
- `Itinerary` (itinerary.dfy): the day sections, how they are rendered, and
  the link fold with its loop.
- `Access` (access.dfy): the access state (`membership`, `fetch_user`, the
  cookie) as a value. It has one function per transition, a `Run` over any
  sequence of events, and the invariants over such runs.
- `Page` (page.dfy): class `Home` with the component's state as fields. Its
  handlers are methods whose postconditions tie the new state to the
  transition functions.

Network answers are parameters: the plan string, the `valid` flag, the
generated itinerary text and the list of points. `encodeURIComponent` is a
parameter `enc: string -> string`, so nothing depends on its exact output;
the link lemmas assume only that it contains no `$`, which holds of
encodeURIComponent (it escapes `$` as `%24`). The two
plan ids from the environment are the `PlanIds` parameter. Either id may be
unset.

Behaviours of the code as written that the model keeps:

- Token validation. app/page.tsx:95-103 sets membership off, cookie
  included, for a truthy `valid`, and on for a falsy one.
  `Access.AfterValidation` and `Page.Home.ReceiveValidity` keep this.
- Validation trigger. On each run of its effect, the guard at
  app/page.tsx:45 lets the validation go on whenever a user is present or
  `membership` is on, so it also runs with
  `membership` on and no user (`Access.ValidationFires`).
- Split sections. Splitting `"PreambleDay 1: textDay 2: text"` gives the
  sections `" 1: text"` and `" 2: text"`; the space after each marker is
  kept (`Itinerary.SectionsExample`).
- Sign out. `signOutButton` (app/page.tsx:14-17) writes the cookie as
  `false` without touching the `membership` flag, the one place where the
  two are not written together. Until `signOut()` navigates away the flag
  can stay on while the cookie reads false, so the agreement proved below
  holds after every sequence of renders and server answers, not across a
  Sign Out click.

One behaviour of the code as written: the plan comparison uses `===` on
values that may be `undefined`. So when a configured plan id is unset, an
answer without a `plan` grants membership (`Access.PlanGrants`).

## Model

| member | source | states |
|---|---|---|
| `JsString.IndexOf` | app/page.tsx:151 | the result is the leftmost occurrence at or after the start index, and None means there is no occurrence there; an empty pattern is found at the start index (the search `replace` and `split` use) |
| `JsString.Split` | app/page.tsx:158 | `split('Day')` gives at least one part, and exactly the one part equal to the whole text iff the text contains no `"Day"` |
| `JsString.SplitOn` | app/page.tsx:158 | the split loop (collect the text between consecutive leftmost occurrences, then the rest) computes exactly `Split` |
| `JsString.SplitJoinFrom` | app/page.tsx:158 | joining the parts of a split with the separator gives back the text |
| `JsString.SplitFromPartsFree` | app/page.tsx:158 | no part of a split contains the separator |
| `JsString.SplitCountFrom` | app/page.tsx:158 | a split has one part more than there are non-overlapping, left-to-right occurrences of the separator |
| `JsString.JoinSplitFrom` | app/page.tsx:158 | from any index, text that is parts joined with the separator splits back into those parts, when each part is separable: it does not contain the separator, and either lacks its first character or that character does not recur in the separator |
| `JsString.JoinSplit` | app/page.tsx:158 | joining separable parts and splitting again gives the parts back (the converse round trip) |
| `JsString.Substitute` | app/page.tsx:151 | the replacement template is inserted verbatim when it holds no `$`; the two-character templates `$$`, `$&`, `` $` `` and `$'` give a dollar sign, the match, the text before it and the text after it, as ECMAScript's GetSubstitution says |
| `JsString.ReplaceFirst` | app/page.tsx:151 | `replace` with a string pattern leaves the text unchanged when the pattern is absent; at the first occurrence, the text before and after it is kept verbatim and only that occurrence is substituted; an empty pattern puts the substitution in front |
| `Itinerary.DaySections` | app/page.tsx:158-164 | always at least one section; without `"Day"` the single section is `"1"` followed by the whole, unmodified text |
| `Itinerary.SplitDays` | app/page.tsx:158-164 | split, then `shift()` when there is more than one part, else `days[0] = "1" + days[0]`, yields `DaySections` |
| `Itinerary.DaysWithMarker` | app/page.tsx:158-161 | with `"Day"` first at `i`: one section per non-overlapping occurrence; the dropped preamble `text[..i]`, then `"Day"`, then the sections joined with `"Day"`, rebuild the text exactly; no section contains `"Day"` |
| `Itinerary.SectionsFromDays` | app/page.tsx:158-161 | a preamble and sections that do not contain `"Day"`, put together with `"Day"`, give back exactly those sections (the preamble is discarded) |
| `Itinerary.SectionsExample` | app/page.tsx:158-161 | `"PreambleDay 1: textDay 2: text"` gives the sections `" 1: text"` and `" 2: text"` |
| `Itinerary.Rendered` | app/page.tsx:207-225 | nothing is shown for an empty itinerary; otherwise one block per section, each `"Day "` followed by the section |
| `Itinerary.RenderedWithoutMarker` | app/page.tsx:162-163 | a non-empty itinerary without `"Day"` shows as the single block `"Day 1"` followed by the whole text |
| `Itinerary.LinkFor` | app/page.tsx:151 | the link's text is the point itself, in brackets; with no `$` in the point or its encoded search text the link holds no `$`, so `replace` inserts it verbatim (see `LinkStepAt`) |
| `Itinerary.LinkStep` | app/page.tsx:151 | `itinerary.replace(point, link)`: a point that does not occur leaves the text unchanged; `LinkStepAt`, `LinkStepEmptyPoint` and `JsString.ReplaceFirst` state the other cases |
| `Itinerary.LinkAll` | app/page.tsx:149-152 | no points leave the text as it is; `LinkPoints`, `FoldPointsAppend`, `LinkAllFirstStep` and `LinkAllAbsent` state the fold |
| `Itinerary.LinkAllAbsent` | app/page.tsx:149-152 | when none of the points occurs in the text, the whole fold leaves it unchanged |
| `Itinerary.LinkPoints` | app/page.tsx:145-152 | the loop that reassigns the running itinerary once per point yields the fold `LinkAll` |
| `Itinerary.FoldPointsAppend` | app/page.tsx:149-152 | folding the steps over one list of points and then another equals folding over their concatenation: each step works on the running result |
| `Itinerary.LinkAllFirstStep` | app/page.tsx:145-152 | the first point is replaced in the original text and all later points in its result (left fold of single steps) |
| `Itinerary.LinkStepAt` | app/page.tsx:151 | a step whose point first occurs at `i` gives the text before `i`, the Markdown link, then the text after the occurrence, provided the point and its encoded search text hold no `$` |
| `Itinerary.LinkStepEmptyPoint` | app/page.tsx:151 | an empty point matches at index 0, so the link is put in front of the text |
| `Itinerary.LinkAfterPrefix` | app/page.tsx:151 | a point appearing after a prefix without its first letter (`"Visit Eiffel Tower today"`) is replaced by its link there; prefix and suffix stay |
| `Access.Truthy` | app/page.tsx:25-26 | the truthiness of `cookieVal`: an unset cookie and a stored `false` are falsy, a stored `true` truthy |
| `Access.Initial` | app/page.tsx:23-24 | both flags start off with the kept cookie, so flag and cookie disagree exactly when that cookie is truthy |
| `Access.AfterRender` | app/page.tsx:25-111 | a render never writes the cookie; `membership` changes only from off to on and only with a truthy cookie; `fetch_user` changes only from off to on, and only with a user present and `membership` off at the start of the render; a render keeps flag and cookie agreeing |
| `Access.LookupFires` | app/page.tsx:38-41 | each run of the membership-id effect issues the lookup exactly when `membershipId` is present and non-empty and `membership` is off |
| `Access.ValidationFires` | app/page.tsx:44-47 | each run of the `fetch_user` effect skips the validation exactly when there is neither a user nor membership, and issues it otherwise |
| `Access.PlanGrants` | app/page.tsx:64-67 | a plan grants membership iff it equals one of the two configured ids; a missing plan matches an unset id |
| `Access.AfterPlan` | app/page.tsx:64-73 | after the lookup's answer the flag is on iff the plan matches, the cookie holds the same value, and `fetch_user` is untouched |
| `Access.AfterValidation` | app/page.tsx:95-103 | after the validation's answer the flag is the negation of `valid`, the cookie holds the same value, and `fetch_user` is untouched |
| `Access.RunKeepsAgreement` | app/page.tsx:64-103 | once flag and cookie agree, every sequence of renders and answers keeps them agreeing |
| `Access.AgreementFromFirstRender` | app/page.tsx:25-28 | from a page load with any stored cookie, flag and cookie agree after the first render and after every later sequence of renders and server answers |
| `Access.FetchUserSticky` | app/page.tsx:109-111 | no event ever turns `fetch_user` off |
| `Access.FetchUserNeedsUser` | app/page.tsx:109-111 | without a render that sees a user, `fetch_user` never changes |
| `Access.RendersKeepMembership` | app/page.tsx:25-28 | renders alone never turn `membership` off; only an answer does |
| `Access.RendersKeepCookie` | app/page.tsx:25-28 | renders never change the cookie |
| `Access.LastAnswerWins` | app/page.tsx:64-103 | after the last answer, renders leave flag and cookie as that answer set them |
| `Page.CanBuild` | app/page.tsx:114 | the build goes on exactly when city and days are both present and non-empty; a missing or empty field stops it |
| `Page.Home.constructor` | app/page.tsx:23-36 | a page load starts with both flags off, the stored cookie, an empty request, an empty itinerary and no loading |
| `Page.Home.Render` | app/page.tsx:25-164 | the flags become `AfterRender` of the old flags; nothing else changes; the returned sections are `DaySections` of the itinerary |
| `Page.Home.MembershipEffect` | app/page.tsx:38-41 | a run of the membership-id effect issues the lookup exactly when `LookupFires` |
| `Page.Home.UserAccessEffect` | app/page.tsx:44-47 | a run of the `fetch_user` effect issues the validation exactly when `ValidationFires` |
| `Page.Home.ReceivePlan` | app/page.tsx:63-74 | the flags become `AfterPlan` of the old ones; form, itinerary and status are untouched |
| `Page.Home.ReceiveValidity` | app/page.tsx:94-104 | the flags become `AfterValidation` of the old ones; form, itinerary and status are untouched |
| `Page.Home.SetCity` | app/page.tsx:184-186 | the city input replaces only the request's `city` |
| `Page.Home.SetDays` | app/page.tsx:187-189 | the days input replaces only the request's `days` |
| `Page.Home.HitApi` | app/page.tsx:113-156 | with city or days missing or empty nothing is requested and nothing changes; otherwise the itinerary becomes the fold of link steps over the points, loading ends and the status message is "Building itinerary..." |

## Left out

- All `fetch` calls, HTTP status checks, `response.json()` and `JSON.parse` (app/page.tsx:50-62, 81-93, 127-144). Their results are parameters. The catch-and-log paths of the two access lookups leave the state unchanged, so they are the absence of an answer event.
- `hitAPI` has no catch (app/page.tsx:127-144): a failed `fetch`, `response.json()` or `JSON.parse` leaves `loading` on, the itinerary `''` and the status message set, with no further change. `Page.Home.HitApi` models only the run that completes.
- `encodeURIComponent` is the opaque parameter `enc`: its percent-encoding is a library function, not this page's logic. `Itinerary.LinkStepAt`, `Itinerary.LinkStepEmptyPoint` and `Itinerary.LinkAfterPrefix` assume only that `enc`'s output contains no `$`, which holds of encodeURIComponent (it escapes `$` as `%24`).
- The `pointsOfInterestPrompt` hand-off between the two endpoints: it is forwarded untouched.
- `setTimeout` status messages (app/page.tsx:119-125): timing-only feedback. The timers are not cancelled and may overwrite `message` before or after `hitAPI` finishes; `Page.Home.HitApi` states `message` as if neither had fired.
- The intermediate state of `hitAPI` while it awaits (`loading` on, empty itinerary): the model runs the handler to completion.
- When the two effects run: their dependency arrays (`[membershipId]` at app/page.tsx:41, `[fetch_user]` at app/page.tsx:47) make each run only after mount and when that value changes. The model does not track this: `Access.LookupFires` and `Access.ValidationFires` describe one run of each effect, and `Access.Run` lets answers arrive at any time, an over-approximation under which the lemmas about runs stay sound.
- Overlap between the asynchronous effects and handlers: the model takes events one at a time, in any order (`Access.Run`), which covers every interleaving of completed handlers.
- next-auth `signIn`/`signOut` (app/page.tsx:14-17): library behaviour. The page's own `setCookie('membership', false)` at line 16 in `signOutButton` is not an event of `Access.Run`: it writes the cookie without the flag, so flag and cookie can disagree after a Sign Out click until `signOut()` navigates away; `Access.AgreementFromFirstRender` covers renders and server answers only. The session user is the boolean `userPresent`; the `Identity` shape of types.d.ts is not needed for any decision.
- cookies-next coercion: the cookie is modelled as read back as the boolean last written, or unset. A library version that returns the raw string `"false"` would make it truthy; that is not modelled.
- React rendering, `ReactMarkdown`/`remarkGfm` link handling, the purchase link, and styles (app/page.tsx:166-263): UI. Only the text of each day block is modelled.
- `JsString.Split` does not model `split`'s limit argument: the page passes none, and the default limit of 2^32-1 parts cannot be reached by a real itinerary.
- Strings are sequences of `char`, one per Unicode scalar value; JavaScript's UTF-16 code-unit indices and lone surrogates are not modelled. Split and replace give the same parts for well-formed text.
- Rate limiting and code redemption: they do not appear in app/page.tsx.
