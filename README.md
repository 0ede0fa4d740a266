# Diwali blessings: the blessing selector

This project models `generateBlessing`, the function that builds the blessing
on a Diwali blessings card. It takes a GitHub user record and the user's
recent public events, and works in four steps:

- It scores three counts, each capped at 1: public repositories out of 20,
  followers out of 50 and events out of 10.
- It combines the scores with weights 0.4, 0.3 and 0.3 into a total in [0, 1].
- It turns the total into the index of one of four fixed greetings
  (`floor(total * 3)`), and falls back to the first greeting if that lookup
  misses.
- It appends one space and a personal sentence that repeats the repository
  and follower counts.

The model is two modules:

- `Decimal` (`decimal.dfy`) renders a count the way a JavaScript template
  literal prints a whole number below 10^21. It also has a reading-back function
  with a round-trip lemma.
- `Blessing` (`blessing.dfy`) holds the scores, the total, the index, the
  fallback lookup and the message, with lemmas about each.

The source is pure: expressions, a constant array and string interpolation.
So the model uses functions and lemmas only. Scores are exact `real`
numbers, counts are `nat`, and `events` is a sequence of any element type,
because only its length is read.

## Model

| member | source | states |
|---|---|---|
| `Blessing.ClampedRatio` | src/App.tsx:9-11 | Each score `min(1, count / cap)` is within [0, 1]. It is exactly 1 iff the count has reached its cap (20, 50, 10). Times the cap, it equals the count capped at the cap. |
| `Blessing.ClampedRatioMonotone` | src/App.tsx:9-11 | A larger count never gives a smaller score. |
| `Blessing.Total` | src/App.tsx:9-13 | The weighted total lies in [0, 1]. It is 1 iff all three counts are saturated, and 0 iff all three counts are 0. |
| `Blessing.TotalMonotone` | src/App.tsx:9-13 | Raising any count, the others fixed or raised too, never lowers the total. |
| `Blessing.TotalClosedForm` | src/App.tsx:9-13 | The total is a whole number of 500ths: 10 per repository up to 20, 3 per follower up to 50 and 15 per event up to 10. |
| `Blessing.NoInteriorBoundary` | src/App.tsx:13-22 | `total * 3` is a whole number only when the total is 0 or 1. No total falls exactly on the 1/3 or 2/3 boundary between templates. |
| `Blessing.TemplateIndex` | src/App.tsx:22 | The index is the whole part of `total * (templates.length - 1)`. For a total in [0, 1] it is a valid position in the four-element list, and a total of 1 gives the last position. |
| `Blessing.TemplateIndexMonotone` | src/App.tsx:22 | A larger total never gives a smaller index. |
| `Blessing.Base` | src/App.tsx:23 | `templates[idx] \|\| templates[0]` yields the template at `idx` for every position of the list, because no template is empty. For any other index it yields the first template. |
| `Blessing.ChosenIndex` | src/App.tsx:9-22 | For any counts, the computed index is a valid position in the template list. |
| `Blessing.Personal` | src/App.tsx:26 | The personal sentence is "You have ", the digits of the repository count, " public repos and ", the digits of the follower count, then " followers — keep shining!". Each run of digits reads back as its count. |
| `Blessing.GenerateBlessing` | src/App.tsx:7-28 | The message is never empty. It ends with the personal sentence, which is preceded by one space, and everything before that space is one of the four templates. |
| `Blessing.FallbackNeverFires` | src/App.tsx:15-27 | For natural-number counts, the `\|\| templates[0]` fallback never changes the result: the message is the template at the computed index, one space, then the personal sentence. |
| `Blessing.FirstTemplateExactly` | src/App.tsx:9-22 | The first template is chosen iff the total is below 1/3. Zero repositories, zero followers and zero events get the first template. |
| `Blessing.LastTemplateExactly` | src/App.tsx:9-22 | The last template is chosen iff there are at least 20 repositories, at least 50 followers and at least 10 events. |
| `Blessing.ChosenIndexMonotone` | src/App.tsx:9-22 | Raising any one of the three counts, the others fixed, never lowers the chosen index. |
| `Blessing.OnlyEventCountMatters` | src/App.tsx:7-27 | Two event lists of the same length give the same message, whatever their contents. |
| `Decimal.NatToString` | src/App.tsx:26 | A count is interpolated as a non-empty string of decimal digits with no leading zero. The string is "0" iff the count is 0. |
| `Decimal.ValueOfNatToString` | src/App.tsx:26 | Reading the interpolated digits back gives the count that was interpolated. |
| `Decimal.NatToStringInjective` | src/App.tsx:26 | Different counts are interpolated as different strings. |
| `Blessing.PersonalDeterminesCounts` | src/App.tsx:26-27 | Whatever greeting comes before it, the personal sentence determines both the repository count and the follower count. |
| `Blessing.CountsRecoverable` | src/App.tsx:23-27 | Two users receive the same message only if they have the same repository and follower counts. The message reports both counts faithfully. |

## Left out

- IEEE-754 arithmetic: the source computes the scores and the total in JavaScript doubles. The model uses exact reals and does not model double rounding. In exact arithmetic the total is a whole number of 500ths, and `total * 3` is a whole number only for totals 0 and 1 (`Blessing.NoInteriorBoundary`). So the only totals that sit exactly on a `Math.floor` boundary are 0 and 1.
- JavaScript counts are doubles. `${n}` prints a whole number in plain decimal only below 10^21; from there on it uses exponent notation (`1e+21`). Above 2^53 the counts are not even exact. `Decimal.NatToString` renders every `nat` in plain decimal. `Decimal.NatToStringInjective` and `Blessing.CountsRecoverable` therefore hold for the source only for counts below 2^53.
- Missing or non-numeric `public_repos`/`followers` fields: in the source these give `NaN` and reach the `|| templates[0]` fallback through an undefined lookup. The model's counts are `nat`, so the model's `Base` covers the fallback only for out-of-range integer indices.
- `Blessing.User` keeps only the two fields the selector reads. Only `public_repos`, `followers` and `events.length` feed the selector (src/App.tsx:9-11,26). The record's other fields (`login`, `name`, `avatar_url`) and the events' contents are used only for display.
- The `App` component (src/App.tsx:30-64): React state and layout, no logic beyond calling the selector.
- `src/components/GithubForm.tsx`: the two sequential `fetch` calls against the GitHub REST API, the empty-username guard, the "User not found" error and the empty-events fallback. This is network I/O and React state.
- `src/components/BlessingCard.tsx`: rendering only.
- `src/components/DiwaliBackground.tsx`: a canvas particle animation driven by `requestAnimationFrame`, `Math.random` and the window size.
- `vite.config.ts`: build configuration.
