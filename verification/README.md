# Ultra sound money front end: the pure logic, in Dafny

The front end is mostly rendering. Five small pieces of it are pure logic, and this project models them:

- **Supply decoding and exact supply arithmetic** (`src/api/eth-supply.ts`). A wire snapshot carries three decimal strings. The beacon deposit and beacon balance sums are in Gwei and the execution balance sum is in Wei. Decoding parses them as exact integers and multiplies the two Gwei sums by 10^9. The supply numerator is `execution + beacon balances - beacon deposits`, in Wei.
- **The supply refresh throttle** inside `useImpreciseEthSupply`. This is a two-field state (last refresh time, last supply) and one step per arriving snapshot.
- **Stepper geometry** (`src/components/Navigation/helpers.ts`):
  - `getIconOffset` maps a scroll position to a 0-100 progress value.
  - The numeric core of `setScrollPosition` computes the segment index, the in-block offset, the scroll target and the "active last dot" flag.
  - The numeric core of `showHideNavBar` decides sticky-header visibility.
- **Time-frame cycling** (`handleClickTimeFrame` in `src/components/Dashboard/BurnSection.tsx`). This is a cyclic successor over any sequence.
- **The POAP claim widget** (`src/components/FamPage/PoapSection.tsx`):
  - the claim status a submit or a sign-out leaves behind;
  - which panel is shown for an authentication status;
  - the wallet-id `pattern` of the input.

Everything the source reads from `window`, the DOM or `Date` is a parameter. The scroll position and viewport height are parameters. So are the block heights and line heights, the siblings' ids and heights, and the wall-clock time in milliseconds. `undefined` is `None`.

Files and modules:

| file | module | models |
|---|---|---|
| `wrappers.dfy` | `Wrappers` | `Option`, `Result` |
| `decimal.dfy` | `Decimal` | strict decimal literals: parse, print, round trip, the digit-by-digit parse loop |
| `eth_supply.dfy` | `EthSupply` | `decodeEthSupply`, the exact numerator of `getEthSupplyImprecise` |
| `supply_throttle.dfy` | `SupplyThrottle` | the 60-second recompute rule of `useImpreciseEthSupply` |
| `navigation_helpers.dfy` | `NavigationHelpers` | `getIconOffset`, `setScrollPosition`, `showHideNavBar` |
| `time_frames.dfy` | `TimeFrames` | `handleClickTimeFrame` |
| `poap_claim.dfy` | `PoapClaim` | `handleSubmit`, `handleSignOut`, the panel branch, the wallet-id pattern |

In a few places the code does something a reader may not expect; the model follows the code:

- `getIconOffset` skips a waypoint whose `offsetY` is `0`, because `0` is falsy. On points `[0, 100, 200]` at position 50 the result is therefore `0`, not `25` (`ZeroOffsetSkipsSegment`).
- `getIconOffset` does not fail on a single point. No segment can match, so it returns `0`, or `100` past that point.
- `showHideNavBar`'s lower bound is strict. At `scrollY == first - innerHeight/2` the header hides (`StickyLowerEdgeExclusive`).
- The throttle recomputes only when the truncated whole-second difference exceeds 60. That is at least 61 000 ms, not "at least 60 seconds" (`SupplyThrottle.Due`).
- Decoding reports which field failed. The source throws the big-integer library's own error instead, and checks the fields in the object literal's order: deposits, then beacon balances, then execution balances.

## Model

| member | source | states |
|---|---|---|
| Decimal.Parse | src/api/eth-supply.ts:43 | a quantity string parses iff it is a non-empty run of decimal digits |
| Decimal.ParseDigits | src/api/eth-supply.ts:43 | the left-to-right digit accumulation returns exactly the strict parse of the string, failure included |
| Decimal.ParsePrint | src/api/eth-supply.ts:43 | parsing the canonical spelling of any natural number gives that number back |
| Decimal.PrintParse | src/api/eth-supply.ts:43 | a digit string without leading zeros is the canonical spelling of the number it parses to |
| Decimal.LeadingZero | src/api/eth-supply.ts:43 | a leading zero does not change the parsed value |
| EthSupply.Decode | src/api/eth-supply.ts:39-58 | decoding succeeds iff all three strings are decimal; the deposit and beacon balance sums are the parsed Gwei times 10^9 with no rounding; the execution sum is passed through unscaled; both slots and the block number are copied; a failure names the first malformed field in evaluation order |
| EthSupply.DecodeEncode | src/api/eth-supply.ts:39-58 | every non-negative snapshot with whole-Gwei beacon fields survives encode-then-decode unchanged: decoding loses nothing |
| EthSupply.DecodeIsEncodable | src/api/eth-supply.ts:42-52 | every decoded snapshot is non-negative and its two beacon fields are whole multiples of 10^9 Wei |
| EthSupply.SupplyWeiOfWire | src/api/eth-supply.ts:94-103 | the exact numerator is execution Wei plus 10^9 times (beacon balance Gwei minus deposit Gwei), in terms of the wire strings |
| EthSupply.SupplyMayBeNegative | src/api/eth-supply.ts:96-102 | the numerator is not clamped: deposits above balances give a negative value |
| EthSupply.SupplyLinearInExecution | src/api/eth-supply.ts:96-102 | raising the wire execution balance by delta Wei raises the numerator by exactly delta |
| EthSupply.SupplyLinearInDeposits | src/api/eth-supply.ts:96-102 | raising the wire deposit sum by delta Gwei lowers the numerator by exactly delta times 10^9 |
| EthSupply.SupplyLinearInBeaconBalances | src/api/eth-supply.ts:96-102 | raising the wire beacon balance by delta Gwei raises the numerator by exactly delta times 10^9 |
| SupplyThrottle.DifferenceInSeconds | src/api/eth-supply.ts:84 | the whole-second difference truncates the millisecond difference toward zero |
| SupplyThrottle.Step | src/api/eth-supply.ts:77-89 | an absent snapshot changes nothing; a snapshot that is not due changes nothing; a due, well-formed snapshot records `now` and the snapshot's exact supply; a due, malformed one records `now`, keeps the old supply and raises the decode error |
| SupplyThrottle.Due | src/api/eth-supply.ts:82-85 | a recompute is due iff there was no refresh yet or the truncated whole-second difference exceeds 60, which is exactly: at least 61 000 ms have passed since it |
| SupplyThrottle.FirstSnapshotRecomputes | src/api/eth-supply.ts:74-88 | from the mount state (no refresh yet) the first snapshot always records `now`; it sets a supply iff it is well-formed and raises iff it is not |
| SupplyThrottle.RunWithinCooldown | src/api/eth-supply.ts:72-92 | any number of snapshots arriving within 61 s of the last refresh keep the hook mounted and leave both refresh time and supply unchanged |
| SupplyThrottle.RunKeepsRefresh | src/api/eth-supply.ts:82-88 | with clock readings in order, a run of well-formed snapshots keeps the hook mounted; while mounted a recorded refresh time is never lost and never moves backwards |
| SupplyThrottle.MalformedDueUnmounts | src/api/eth-supply.ts:82-88 | a malformed snapshot arriving when a recompute is due unmounts the hook, so its refresh time and supply are lost |
| NavigationHelpers.Ceil | src/components/Navigation/helpers.ts:46 | `Math.ceil` returns the integer k with k - 1 < x <= k |
| NavigationHelpers.DistanceBetweenPoints | src/components/Navigation/helpers.ts:12 | with N >= 2 points each of the N - 1 segments is worth a positive share, and the shares sum to 100 |
| NavigationHelpers.MatchInRange | src/components/Navigation/helpers.ts:17-24 | a matching segment has both endpoints inside the array, so it needs at least two points |
| NavigationHelpers.IconOffset | src/components/Navigation/helpers.ts:3-36 | before page load the progress is 0 whatever the input; past a defined last point it is exactly 100 |
| NavigationHelpers.LastMatchFrom | src/components/Navigation/helpers.ts:16-32 | finds the last segment whose endpoints are both truthy and which strictly contains the position, or reports that none does |
| NavigationHelpers.Scan | src/components/Navigation/helpers.ts:13-33 | the loop from index i returns either its running value or the percent of some matching segment at or after i, and the running value when none matches |
| NavigationHelpers.ScanIsLastMatch | src/components/Navigation/helpers.ts:13-33 | the loop never breaks, so its result is the last matching segment's value, or the initial 0 if none matches |
| NavigationHelpers.SegmentPercentIsInterpolation | src/components/Navigation/helpers.ts:25-30 | the source's percent arithmetic equals d*i + d*(pos - p_i)/(p_(i+1) - p_i) |
| NavigationHelpers.IconOffsetClosedForm | src/components/Navigation/helpers.ts:13-33 | after page load and not past the last point, the progress is the interpolation in the last matching segment, else 0 |
| NavigationHelpers.InterpolateBounds | src/components/Navigation/helpers.ts:25-30 | interpolation in segment i lies strictly between d*i and d*(i+1), and d*(i+1) <= 100 |
| NavigationHelpers.IconOffsetWithinRange | src/components/Navigation/helpers.ts:7-35 | for every track and position the progress lies in [0, 100] |
| NavigationHelpers.RisingMatchUnique | src/components/Navigation/helpers.ts:19-24 | on strictly increasing positive offsets at most one segment matches a position |
| NavigationHelpers.RisingSegmentBounds | src/components/Navigation/helpers.ts:16-31 | on strictly increasing positive offsets, a position in segment i gives a progress strictly between d*i and d*(i+1) |
| NavigationHelpers.RisingCovers | src/components/Navigation/helpers.ts:16-31 | on strictly increasing positive offsets, a position strictly inside the track and on no waypoint falls in some segment |
| NavigationHelpers.ZeroOffsetSkipsSegment | src/components/Navigation/helpers.ts:19-20 | a waypoint at offset 0 is falsy: points [0,100,200] at position 50 give 0 |
| NavigationHelpers.ZeroOffsetTrackExamples | src/components/Navigation/helpers.ts:15-31 | the same points give 75 at position 150 and 100 at position 250 |
| NavigationHelpers.OnWaypointGivesZero | src/components/Navigation/helpers.ts:22-23 | a position exactly on a waypoint matches no segment and gives 0; points [100,200,300] at 150 give 25 |
| NavigationHelpers.OffsetInBlock | src/components/Navigation/helpers.ts:57-62 | for every segment index k >= 1 (the `k > 1` branch and the `else` agree at k = 1) the in-block offset is the icon offset minus k - 1 segment widths; below 1 it is the icon offset |
| NavigationHelpers.ScrollPosition | src/components/Navigation/helpers.ts:38-79 | no tracking block: no scroll and false; a tracking block without children: the TypeError of reading its first child; one point or a zero-width track: no numeric target; otherwise the dot is active iff k = N - 1 and the in-block offset exceeds 3/4 of a segment width, and a target exists iff k - 1 indexes both the points and the block heights |
| NavigationHelpers.ScrollSegment | src/components/Navigation/helpers.ts:44-71 | for an icon on the track, k = ceil(icon/width) lies in 1..N-1, the in-block offset in (0, width], and the target is p_(k-1) plus that fraction of block k-1's height, minus the line height |
| NavigationHelpers.ActiveDotIffFinalQuarter | src/components/Navigation/helpers.ts:74-76 | for an icon on the track the active-dot flag holds iff the icon is in the last quarter of the last segment |
| NavigationHelpers.ScrollExample | src/components/Navigation/helpers.ts:44-77 | four points, a 300 px track and the icon at 250 px select segment 3, halfway in, with the dot inactive |
| NavigationHelpers.FirstOffsetFrom | src/components/Navigation/helpers.ts:86-90 | once the loop is past index 0 no entry changes the running value; started at index 0 it ends with entry 0's offset when that entry is defined |
| NavigationHelpers.FirstOffset | src/components/Navigation/helpers.ts:85-90 | the `forEach` over all entries, started from the default 2, ends with entry 0's offset when that entry is defined, and with 2 when it is undefined or the list is empty |
| NavigationHelpers.MaxOffset | src/components/Navigation/helpers.ts:91-95 | the reduction from 0 is non-negative, bounds every defined offset, and is 0 or one of them |
| NavigationHelpers.FindIndex | src/components/Navigation/helpers.ts:98-100 | `findIndex` returns the first sibling with the id, or -1 when none has it |
| NavigationHelpers.StickyHeader | src/components/Navigation/helpers.ts:81-115 | a decision is made iff the `next-merge` sibling and the sibling after it have non-zero heights and the maximum offset is positive; when made, the header shows iff first offset - innerHeight/2 < scrollY < maximum offset + those two heights, strictly on both sides, for any mix of defined and undefined points |
| NavigationHelpers.NoNextMergeNoDecision | src/components/Navigation/helpers.ts:98-107 | without a `next-merge` sibling the header's class is left alone |
| NavigationHelpers.RisingMaxIsLast | src/components/Navigation/helpers.ts:91-95 | on strictly increasing positive offsets the maximum offset is the last point's |
| NavigationHelpers.RisingStickyWindow | src/components/Navigation/helpers.ts:85-111 | on strictly increasing positive offsets the header shows iff p_0 - vh/2 < scrollY < p_last + last section height + next line height |
| NavigationHelpers.StickyLowerEdgeExclusive | src/components/Navigation/helpers.ts:108-111 | exactly at the lower edge the header hides |
| TimeFrames.IndexOfFinds | src/components/Dashboard/BurnSection.tsx:39 | `indexOf` returns the first position holding the frame, and -1 exactly when the frame is not listed |
| TimeFrames.NextTimeFrame | src/components/Dashboard/BurnSection.tsx:38-46 | for a non-empty list the next frame is always one of the list |
| TimeFrames.IndexOfDistinct | src/components/Dashboard/BurnSection.tsx:39 | in a list without repeats a frame's index is its position |
| TimeFrames.LastWrapsToFirst | src/components/Dashboard/BurnSection.tsx:40-43 | from the last frame the next is the first |
| TimeFrames.AdvancesToFollowing | src/components/Dashboard/BurnSection.tsx:40-45 | from the frame at any other index i the next is the frame at i + 1 |
| TimeFrames.ClickStep | src/components/Dashboard/BurnSection.tsx:38-46 | in a list without repeats a click from position j lands on position j + 1, or on 0 from the last position |
| TimeFrames.UnlistedGoesToFirst | src/components/Dashboard/BurnSection.tsx:39-45 | a frame missing from the list advances to the first frame |
| TimeFrames.ClicksRotate | src/components/Dashboard/BurnSection.tsx:38-46 | in a list without repeats, k clicks (at most the list length) from position i reach position i + k, wrapped once past the end |
| TimeFrames.FullCycleReturns | src/components/Dashboard/BurnSection.tsx:38-46 | in a list without repeats, one click per listed frame returns to the starting frame |
| PoapClaim.Submit | src/components/FamPage/PoapSection.tsx:138-191 | without authentication the only status set is "error"; with it, "sending" is set first and then one final status; a refresh is asked for iff the final status is "sent" |
| PoapClaim.SubmitFinalStatus | src/components/FamPage/PoapSection.tsx:155-185 | final status "sent" iff authenticated and 200; "invalid-address" iff authenticated and 400; "error" otherwise, a rejected fetch included |
| PoapClaim.SubmitIgnoresBody | src/components/FamPage/PoapSection.tsx:166-185 | the reply body never affects the outcome, only the status code does |
| PoapClaim.WalletIdValid | src/components/FamPage/PoapSection.tsx:393 | the input's anchored two-alternative pattern: `0x` followed by exactly 40 hex digits of either case, or one or more characters other than line terminators followed by `.eth` |
| PoapClaim.MatchWalletId | src/components/FamPage/PoapSection.tsx:393 | a wallet id is accepted iff the whole value is `0x` plus exactly 40 hex digits, or at least one non-line-terminator character followed by `.eth` |
| PoapClaim.AlternativesDisjoint | src/components/FamPage/PoapSection.tsx:393 | no value matches both pattern alternatives |
| PoapClaim.EnsNameExamples | src/components/FamPage/PoapSection.tsx:393 | `vitalik.eth` and `a.eth` are accepted; `.eth` and a value with a trailing newline are rejected |
| PoapClaim.HexAddressAccepted | src/components/FamPage/PoapSection.tsx:393 | a mixed-case address of `0x` and 40 hex digits is accepted by the pattern |
| PoapClaim.HexAddressRejected | src/components/FamPage/PoapSection.tsx:393 | a 39-digit address and `0xd4nk` (non-hex digit, no `.eth`) are rejected |
| PoapClaim.SubmitForm | src/components/FamPage/PoapSection.tsx:379-395 | an invalid wallet id stops the submit and changes nothing; otherwise the claim status becomes the submit's final status; auth and wallet id are untouched |
| PoapClaim.SentRequiresEverything | src/components/FamPage/PoapSection.tsx:138-191 | a claim turns "sent" only for a valid wallet id, an authenticated user and a 200 reply |
| PoapClaim.SignOut | src/components/FamPage/PoapSection.tsx:193-219 | a 200 reply resets wallet id to "", claim to "init" and auth to init; another status records the sign-out error and keeps the rest; a rejected fetch leaves "signing-out" |
| PoapClaim.SignOutKeepsClaimUnlessOk | src/components/FamPage/PoapSection.tsx:199-211 | only a successful sign-out changes the wallet id or the claim status, and no sign-out leaves the user authenticated |
| PoapClaim.SignOutShowsDisabledForm | src/components/FamPage/PoapSection.tsx:199-203 | after a successful sign-out the disabled form is shown with a blank claim status |
| PoapClaim.ShownPanel | src/components/FamPage/PoapSection.tsx:343-377 | "not eligible" iff authenticated and not eligible; "claimed" iff authenticated, eligible and claimed; otherwise the form, usable iff authenticated |
| PoapClaim.PanelPrecedence | src/components/FamPage/PoapSection.tsx:343-349 | "not eligible" takes precedence over "claimed"; an eligible unclaimed user gets a usable form; an unauthenticated user gets a disabled form |

## Left out

- Decimal.Parse: stricter than the source's big-integer constructor. That constructor also accepts surrounding whitespace, the empty string (as 0), a sign, and `0x`/`0o`/`0b` prefixes. Here only non-empty digit strings parse; anything else is a decode error.
- EthSupply.Decode: inherits the strict parser above. The source throws the library's own syntax error rather than naming a field.
- SupplyThrottle.Step: remembers the exact Wei numerator, not the IEEE double `numerator / 1e18`. Double rounding is not modelled.
- JavaScript numbers in the geometry are exact `real`s. IEEE double rounding is not modelled, so for example `Math.ceil(iconOffset / width)` can pick a different segment at a waypoint boundary than the exact quotient does.
- The float conversion in `getEthSupplyImprecise` (`toNumber(...) / 1e18`) is not modelled. It is IEEE rounding.
- Data fetching is not modelled: `useSWR`, `fetchJson`, the 4-second refresh interval, `fetch`, `mutate`. These are network plumbing behind libraries outside this model. The model takes a reply as a parameter. "Refresh the claim count" is a boolean output.
- React lifecycle is not modelled: refs, state setters and effect scheduling. The error boundary that catches a throwing effect is reduced to one fact: a raised decode error unmounts the hook (`Unmounted`), and the model does not follow a remount.
- `Date` reads are not modelled. Wall-clock time is a millisecond parameter.
- SupplyThrottle.Step: uses one `now` both for the cooldown comparison and for the recorded refresh time. The source calls `new Date()` twice (eth-supply.ts lines 84 and 86), so its recorded time can be a few milliseconds later than the one it compared.
- DOM access is not modelled: `parentElement`, `children`, the `data-navigationtrackingblock` lookup, `getBoundingClientRect`, `window.scrollTo`, `classList`, `window.scrollY`/`innerHeight`. These become parameters (`TrackingBlock`, `Sibling`, `scrollY`, `innerHeight`, and the track position `pos`, which the caller derives as `scrollY + innerHeight / 2`) or outputs (`ScrollOutcome`, the `Option<bool>` header decision).
- A tracking block with no children throws a TypeError in `setScrollPosition` (helpers.ts line 66); the model returns `NoChildError` for it. A first child that itself has no child also throws there; that case is not modelled, because `TrackingBlock` always carries a connector-line height.
- NaN and infinite inputs are not modelled. The only non-finite cases modelled are those `setScrollPosition` itself creates: a one-point track and a zero-width track. A NaN scroll target is represented as `None`.
- The concrete `timeFramesNext` list and the initial frame `"d1"` are not modelled. The list is defined in a file that is not part of this model, so the rule is stated for any sequence.
- Several `PoapSection.tsx` parts are UI only and not modelled: the "authenticate" link (sets "authenticating" and the auth-from-section marker), `handleWalletIdInputChange` (stores the typed value), `ClaimStatusText` rendering, the tooltip, GIF timers, the intersection observer, the claimed-age display, the eligible-handles search (Fuse), the virtualised list, and Sentry/console logging.
- Interleavings of concurrent async handlers are not modelled, for example a second submit while one is in flight. Each handler is one atomic step.
- `src/components/Landing/beforeGenesis.tsx` is purely presentational and is not part of this model.
