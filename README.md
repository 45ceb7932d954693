# Portfolio index page: language, localized names and award subtitles

A Dafny model of the rules in the index route of a personal portfolio site
(a Remix app). The page shows projects and awards fetched from a portfolio
API. The model covers four things:

- the loader's reduction of a parsed `Accept-Language` header to Korean or
  English;
- the page's language toggle;
- the choice between `name`/`name_en` and `description`/`description_en`;
- the subtitle line of each award, and the Notion links built from entity ids.

Modules, one file each:

- `Wrappers` (`wrappers.dfy`): `Option`, standing for a value or `undefined`.
- `Api` (`api.dfy`): the `Project`, `Team`, `Award`, `Portfolio` and
  `ProjectDetail` records of `app/models/api.server.ts`. It adds the optional
  `name_en`/`description_en` keys the page reads. A datatype member `Field`
  models the page's dynamic property access `entity[key]`.
- `Js` (`js.dfy`): the JavaScript built-ins that the page chains together:
  `filter((v) => v)`, `join`, `String.replace` with a string pattern and a
  replacement without `$` patterns (first occurrence only) and `replaceAll("-", "")`.
- `Locale` (`locale.dfy`): `Language`, `Negotiate`, the flip used on click and
  the `LanguageSwitch` class that holds the `currentLanguage` state.
- `Fields` (`fields.dfy`): the key tables `strings.key_name` and
  `strings.key_description`, and the localized reads they drive.
- `AwardLine` (`award_line.dfy`): the affiliation, the date with the sentinel
  `"0000-00-00"` removed, the filtered segment list and the " / " layout.
- `Links` (`links.dfy`): `https://notion.isamin.kr/` followed by the id with
  its hyphens removed.

The page has no fallback from `name_en` to `name`. When `name_en` is
missing, `project["name_en"]` is `undefined`. A project card then renders
nothing in that place, and an award affiliation drops the name.
`Fields.NoFallback` states this.

A subtitle can still show the sentinel date, because `replace` removes only
its first occurrence. A date that is the sentinel written twice
(`Sentinel + Sentinel`) shows it once (`AwardLine.DateSegmentFirstOnly`). Two
overlapping copies, as in `"0000-00-0000-00-00"`, leave `"00-00-00"`
(`AwardLine.DateSegmentOverlap`). That the sentinel never shows is proved
for dates shorter than two sentinels (`AwardLine.DateSegmentNeverSentinel`).
A date that does not contain the sentinel is shown unchanged
(`AwardLine.DateSegment`).

## Model

| member | source | states |
|---|---|---|
| `Locale.Negotiate` | app/routes/_index.tsx:27-31 | English only when there is a first entry whose code is present, non-empty and not "ko" |
| `Locale.NegotiateDefault` | app/routes/_index.tsx:27-31 | an empty list, or a first entry with an absent or empty code, gives Korean |
| `Locale.NegotiateFirstCode` | app/routes/_index.tsx:27-31 | with a usable first code, the result is Korean exactly when that code is "ko" |
| `Locale.NegotiateIgnoresLaterEntries` | app/routes/_index.tsx:27-31 | entries after the first never change the result |
| `Locale.NegotiateExamples` | app/routes/_index.tsx:24-31 | `en-US,en;q=0.9` gives English, `ko-KR` gives Korean, no entries gives Korean |
| `Locale.Flip` | app/routes/_index.tsx:98 | the click handler always changes the language |
| `Locale.FlipTwice` | app/routes/_index.tsx:98 | two clicks give back the original language |
| `Locale.FlipTimes` | app/routes/_index.tsx:98 | after n clicks the language is the original one when n is even and its flip when n is odd |
| `Locale.LanguageSwitch.constructor` | app/routes/_index.tsx:83-84 | the state starts at the negotiated language |
| `Locale.LanguageSwitch.Toggle` | app/routes/_index.tsx:97-99 | a click replaces the state with its flip, which differs from it |
| `Api.Project.Field` | app/routes/_index.tsx:205-217 | for the string-valued own keys, `project[k]` is undefined exactly for an absent `name_en`/`description_en` |
| `Api.Team.Field` | app/routes/_index.tsx:249-251 | for the string-valued own keys, `team[k]` is undefined exactly for an absent `name_en` |
| `Fields.NameKey` | app/routes/_index.tsx:206 | `strings.key_name`: "name" for Korean, the same key with the suffix "_en" for English |
| `Fields.DescriptionKey` | app/routes/_index.tsx:213-215 | `strings.key_description`: "description" for Korean, the same key with the suffix "_en" for English |
| `Fields.ProjectName` | app/routes/_index.tsx:204-208 | the dynamic read `project[key_name[lang]]` is `name` for Korean and the optional `name_en` for English |
| `Fields.ProjectDescription` | app/routes/_index.tsx:210-217 | the dynamic read `project[key_description[lang]]` is `description` for Korean and the optional `description_en` for English |
| `Fields.TeamName` | app/routes/_index.tsx:249-251 | the dynamic read `team[key_name[lang]]` is `name` for Korean and the optional `name_en` for English |
| `Fields.NoFallback` | app/routes/_index.tsx:205-207 | in English a missing `name_en` or `description_en` reads as undefined, never as the base field |
| `Js.Truthy` | app/routes/_index.tsx:256 | the only falsy string-or-undefined values are undefined and "" |
| `Js.FilterTruthy` | app/routes/_index.tsx:256 | the filter drops undefined and "": no result is empty, each result came from the input, and the result is no longer than the input |
| `Js.FilterTruthyKeeps` | app/routes/_index.tsx:256 | every truthy element of the input is in the result |
| `Js.FilterTruthyAppend` | app/routes/_index.tsx:261 | filtering a concatenation gives the concatenation of the filtered parts, so relative order is kept |
| `Js.FilterTruthySingle` | app/routes/_index.tsx:261 | a single element is kept exactly when it is truthy |
| `Js.FilterTruthyIdempotent` | app/routes/_index.tsx:256-261 | filtering strings that are all non-empty returns them unchanged |
| `Js.Join` | app/routes/_index.tsx:257 | `join` gives "" for no parts, the part itself for one, and in general the parts plus one separator per neighbouring pair |
| `Js.JoinTruthyPair` | app/routes/_index.tsx:256-257 | filtering two values and joining gives both with the separator between them, the one truthy value, or "" |
| `Js.JoinAsPrefixed` | app/routes/_index.tsx:257 | a non-empty join is the first part followed by each other part preceded by the separator |
| `Js.ReplaceFirst` | app/routes/_index.tsx:259 | `replace` with a string pattern, and a replacement without `$` patterns, gives a result whose length is either unchanged or changed by the replacement's length minus the pattern's |
| `Js.ReplaceFirstAbsent` | app/routes/_index.tsx:259 | `replace` leaves a string without the pattern unchanged |
| `Js.ReplaceFirstAt` | app/routes/_index.tsx:259 | `replace` with a replacement without `$` patterns substitutes the replacement, taken literally, for the first occurrence of the pattern and leaves the rest of the string unchanged |
| `Js.ReplaceFirstCases` | app/routes/_index.tsx:259 | replacing in the pattern itself gives the replacement, replacing in a string without the pattern gives the string back, and otherwise only the first occurrence is replaced |
| `Js.RemoveAll` | app/routes/_index.tsx:184-187 | `replaceAll("-", "")` leaves no hyphen and never lengthens the string |
| `Js.RemoveAllAppend` | app/routes/_index.tsx:184-187 | the removal distributes over concatenation, so kept characters stay in order |
| `Js.RemoveAllKeepsOthers` | app/routes/_index.tsx:237-240 | every other character is kept as often as it occurs |
| `Js.RemoveAllAbsent` | app/routes/_index.tsx:184-187 | a string without hyphens is unchanged |
| `Js.RemoveAllIdempotent` | app/routes/_index.tsx:184-187 | removing twice is the same as removing once |
| `AwardLine.LeadTeamName` | app/routes/_index.tsx:249-251 | `award.teams[0]?.[key]`: undefined without a team, else the first team's `name` in Korean or its optional `name_en` in English |
| `AwardLine.LeadProjectName` | app/routes/_index.tsx:252-254 | `award.projects[0]?.[key]`: undefined without a project, else the first project's `name` in Korean or its optional `name_en` in English |
| `AwardLine.Affiliation` | app/routes/_index.tsx:248-257 | the affiliation is "team - project" when both names are usable, otherwise the one usable name, otherwise ""; the team name always comes first |
| `AwardLine.AffiliationEmpty` | app/routes/_index.tsx:248-257 | the affiliation is empty exactly when neither the first team's nor the first project's name is usable |
| `AwardLine.DateSegment` | app/routes/_index.tsx:259 | the sentinel date becomes "", a date not containing the sentinel is kept as it is, and otherwise only the first occurrence of the sentinel is cut out |
| `AwardLine.DateSegmentFirstOnly` | app/routes/_index.tsx:259 | a date that is the sentinel written twice (`Sentinel + Sentinel`) shows it once |
| `AwardLine.DateSegmentOverlap` | app/routes/_index.tsx:259 | a date with overlapping copies at indices 0 and 8 loses the first copy and shows `"00-00-00"` |
| `AwardLine.DateSegmentNeverSentinel` | app/routes/_index.tsx:259 | a date shorter than two sentinels never yields the sentinel |
| `AwardLine.Segments` | app/routes/_index.tsx:247-261 | at most three segments, none empty |
| `AwardLine.SegmentsLayout` | app/routes/_index.tsx:247-261 | the segments are the non-empty ones of affiliation, awarding body and date, in that order |
| `AwardLine.FilterKeepsThree` | app/routes/_index.tsx:261 | filtering three strings keeps exactly the non-empty ones, in order |
| `AwardLine.Render` | app/routes/_index.tsx:262-275 | one item per segment with the same value, and a divider on every item except index 0 |
| `AwardLine.RenderDividers` | app/routes/_index.tsx:262-275 | n segments draw max(n - 1, 0) dividers |
| `AwardLine.RenderReadsAsJoin` | app/routes/_index.tsx:262-275 | the rendered line reads as the segments joined by " / " |
| `AwardLine.Subtitle` | app/routes/_index.tsx:247-275 | at most three rendered items, none empty |
| `AwardLine.FullSubtitleExample` | app/routes/_index.tsx:247-261 | team "Alpha", project "Beta", body "ACME", date "2021-05-01" give "Alpha - Beta", "ACME", "2021-05-01" |
| `AwardLine.EmptySubtitleExample` | app/routes/_index.tsx:247-261 | no team, no project, no body and the sentinel date give no segment and nothing rendered |
| `Links.NotionLink` | app/routes/_index.tsx:184-187 | the link is the Notion origin followed by the id with its hyphens removed, the other characters kept in order |
| `Links.ProjectLink` | app/routes/_index.tsx:184-187 | a project card links to the origin followed by the project id without hyphens |
| `Links.AwardLink` | app/routes/_index.tsx:237-240 | an award card links to the origin followed by the award id without hyphens |
| `Links.NotionLinkOfPlainId` | app/routes/_index.tsx:184-187 | an id without hyphens is appended verbatim |
| `Links.NotionLinkExample` | app/routes/_index.tsx:237-240 | "ab-cd" links to the origin followed by "abcd" |

## Left out

- Fetching the portfolio and a project detail (`getPortfolio`, `getProject` in app/models/api.server.ts): network I/O and JSON decoding. Only the record shapes are modelled.
- The `accept-language-parser` library: it is foreign code. Its output is a parameter of `Negotiate`, a list of entries with an optional code, best entry first. That a missing header parses to an empty list is the library's behaviour and is not modelled.
- `meta` and `app/root.tsx`: static tag tables, logging and the HTML shell.
- `app/routes/project.$key.tsx`: its loader throws when the route has no `key`, and it turns every failure of `getProject` into a 404 response. That covers a network error, a body that is not JSON and a non-ok status. This error mapping depends on the fetch, which is not modelled; the page's meta tags and Markdown rendering are markup.
- `strings.json`, `skills.json` and `links.json`: these tables are not part of this model. `NameKey` and `DescriptionKey` stand for the two key entries the page reads.
- The JSX markup and CSS classes. The award subtitle's markup is reduced to `Lead`/`Divided` items and their visible text.
- Image and cover URLs built from `project.key`, and the award title line `{award.name} {award.period}`: plain string concatenation with no rules.
- `Api.Project.Field` and `Api.Team.Field` accept only the string-valued own keys. The page passes only `name`, `name_en`, `description` and `description_en`. Reads of the array fields or of inherited keys such as `constructor` are not modelled.
- The `Team` record has no `description_en`, because the page never reads one.
