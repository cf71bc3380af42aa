# EchoDAO frontend core, modelled in Dafny

EchoDAO is a Next.js front end for a DAO where developers post open-source
projects, the community votes on them, and voted projects raise funds. This
project models the parts of the front end that compute something:

- **The projects page's list** (`js.dfy`, `array_sort.dfy`, `projects_page.dfy`).
  The `activeFilter` switch chooses which projects to keep. The `sortBy`
  comparator, handed to `Array.prototype.sort`, orders them. The sort works
  in place. Under the filter `all`, the array it reorders is the shared
  `mockProjects` list itself. Under any other filter, it reorders a fresh
  filtered copy. `FilteredAndSortedProjects` is a method over an `array`
  that keeps exactly this aliasing. `SortInPlace` is an in-place insertion
  sort, proved to leave `InsertionSort` of the old contents. The lemmas
  prove the following about that function:
  - it is a permutation;
  - under `most-voted` and `newest` it is ordered;
  - under `most-voted` and `newest` it is stable;
  - under `near-goal` with only funding projects it is ordered;
  - under a key the switch does not name, the order does not change.
- **The derived mock data** (`mock_data.dfy`). These are the projections
  `mockVotingProjects` and `mockFundingProjects`, with their `||` defaults,
  and `postedProjects`, an exact, case-sensitive owner match. Each projection
  is a function of the project list.
- **The post-project form** (`post_project.dfy`). `PostProjectForm` is a class
  holding the React state `formData`, `errors` and `showSuccess`.
  - `ValidateForm` builds the error map field by field, in the source's
    order, and proves that map equal, field for field, to the rule
    `FieldError`.
  - `HandleInputChange` sets one field and clears that field's message.
  - `HandleSubmit` is the validation gate. It normalises the tags
    (`split(',')`, `trim`, `filter(Boolean)`) and resets the form.
  - Lemmas restate each field's rule in terms of blank text and state when a
    form passes.
  - The tag normalisation is proved to give clean tags, to keep exactly the
    non-empty trimmed pieces, and to undo a comma join.
- **`formatAddress`** (`contracts.dfy`): the first six characters, `...`,
  then the last four. It uses JavaScript's `slice`, including its
  negative-index and clamping rules.

The JavaScript built-ins these lean on are written out in `js.dfy`:
- `x || d` on numbers and strings;
- `trim`, with the ECMAScript WhiteSpace and LineTerminator set;
- `includes`, `split` with a one-character separator, `join`, `slice`;
- `toLowerCase` on ASCII;
- UTF-16 `length`;
- `filter` and `map`.

Two calls the code makes are parameters of the model:
- `Number(s)` is a function `string -> Option<real>`, with `None` for NaN.
- `new Date(createdAt).getTime()` is a function `string -> int`.

## Model

| member | source | states |
|---|---|---|
| Js.OrNumber | src/lib/mockData.ts:216-217 | `x \|\| d` on an optional number: the value when present and non-zero, otherwise the default; with default 0 it is the value or 0 |
| Js.OrString | src/lib/mockData.ts:220 | `x \|\| d` on an optional string: the value when present and non-empty, otherwise the default |
| Js.Trim | src/app/post-project/page.tsx:41 | `s.trim()`, defined as white space dropped from the start and then from the end; its meaning is stated by the shape lemmas below |
| Js.TrimStartShape | src/app/post-project/page.tsx:41 | the start of `trim` keeps a suffix, removes only white space, and stops at a non-white-space character |
| Js.TrimEndShape | src/app/post-project/page.tsx:41 | the end of `trim` keeps a prefix, removes only white space, and stops at a non-white-space character |
| Js.TrimEmptyIffBlank | src/app/post-project/page.tsx:41 | `!s.trim()` holds exactly when every character of `s` is white space |
| Js.TrimShape | src/app/post-project/page.tsx:91 | `s.trim()` is a contiguous piece of `s` that neither starts nor ends with white space |
| Js.TrimIdempotent | src/app/post-project/page.tsx:91 | trimming a trimmed string changes nothing |
| Js.Includes | src/app/post-project/page.tsx:47 | `s.includes(sub)`, defined as a match tried at every position in turn; see IncludesIff |
| Js.IncludesIff | src/app/post-project/page.tsx:47 | `s.includes(sub)` holds exactly when `sub` occurs at some index of `s` |
| Js.Utf16Length | src/app/post-project/page.tsx:53 | `length` counts UTF-16 code units: between one and two per character, exactly one per character when all are in the Basic Multilingual Plane |
| Js.Utf16LengthOfChar | src/app/post-project/page.tsx:53 | one character is one code unit up to U+FFFF and two above it |
| Js.Utf16LengthAppend | src/app/post-project/page.tsx:53 | `length` of a concatenation is the sum of the lengths, so with the one-character values it fixes `length` of every string |
| Js.Split | src/app/post-project/page.tsx:91 | `split(sep)` gives at least one piece and no piece contains the separator |
| Js.SplitThenJoin | src/app/post-project/page.tsx:91 | joining the pieces of a split with the same separator gives back the string |
| Js.JoinThenSplit | src/app/post-project/page.tsx:91 | splitting a join of separator-free pieces gives back the pieces |
| Js.RelativeIndex | src/lib/contracts.ts:63 | a `slice` argument resolves into `[0, len]`: indices within range are kept, negative ones count from the end, an index past the end gives `len` and one before the start gives 0 |
| Js.Slice | src/lib/contracts.ts:63 | `slice(start, end)` within range is that substring; an end past the string is clamped to it; a negative start counts from the end, clamped to 0; an end not after a non-negative start gives the empty string |
| Js.ToLowerChar | src/app/projects/page.tsx:30 | an upper-case ASCII letter becomes its lower-case letter, 32 code points on; any other character is unchanged |
| Js.ToLowerCase | src/app/projects/page.tsx:30 | `toLowerCase` keeps the length, lowers each character on its own, and leaves no upper-case ASCII letter |
| Js.EqualsIgnoringCase | src/app/projects/page.tsx:30 | `a.toLowerCase() === b.toLowerCase()`; see EqualsIgnoringCaseIff |
| Js.ToLowerCharEqual | src/app/projects/page.tsx:30 | two characters lower to the same character exactly when they are equal or the two cases of one ASCII letter |
| Js.EqualsIgnoringCaseIff | src/app/projects/page.tsx:30 | two strings are equal after lowering exactly when they have the same length and pair up character by character, ignoring ASCII case |
| Js.Filter | src/app/projects/page.tsx:21 | `filter` returns no more elements than it was given, each passing the test |
| Js.Map | src/lib/mockData.ts:211 | `map` returns one element per input, each the callback applied to the input at that index |
| Js.FilterMembership | src/app/projects/page.tsx:21 | `filter` keeps an element exactly when it is in the input and passes the test |
| Js.FilterAppend | src/lib/mockData.ts:210 | `filter` keeps input order: it distributes over concatenation |
| Js.FilterAll | src/app/projects/page.tsx:32 | a test every element passes keeps the whole input unchanged |
| Js.FilterNone | src/app/projects/page.tsx:30 | a test no element passes keeps nothing |
| Js.MapAppend | src/lib/mockData.ts:211 | `map` distributes over concatenation |
| ArraySort.Insert | src/app/projects/page.tsx:38-52 | one pass of the sort: the new element moves left past every element that compares after it; the result is one longer; see InsertPermutation, InsertInOrder, InsertStable |
| ArraySort.InsertionSort | src/app/projects/page.tsx:38-52 | the order the sort leaves: each element in turn inserted into the sorted prefix; see SortPermutation, SortInOrder, SortStable |
| ArraySort.InsertPermutation | src/app/projects/page.tsx:38-52 | one insertion step adds exactly the inserted element to the multiset |
| ArraySort.InsertLast | src/app/projects/page.tsx:38-52 | after an insertion step the last element is the inserted one or the previous last |
| ArraySort.InsertInOrder | src/app/projects/page.tsx:38-52 | with an antisymmetric comparator, inserting into a list with no out-of-order neighbours keeps it so |
| ArraySort.SortPermutation | src/app/projects/page.tsx:38-52 | `sort` only reorders: the result has the same multiset of elements |
| ArraySort.SortInOrder | src/app/projects/page.tsx:38-52 | with an antisymmetric comparator, no neighbouring pair of the model's insertion-sort result is one the comparator would swap |
| ArraySort.SortWithoutSwaps | src/app/projects/page.tsx:49-50 | a comparator that never returns a positive number leaves the order as it is |
| ArraySort.InsertStable | src/app/projects/page.tsx:38-52 | an insertion step never reorders two elements that the comparator does not swap |
| ArraySort.SortStable | src/app/projects/page.tsx:38-52 | the model's insertion sort is stable: elements that are never swapped with one another keep their relative order |
| ArraySort.InsertPast | src/app/projects/page.tsx:38-52 | moving the inserted element past a larger neighbour is one unfolding of the insertion step |
| ArraySort.InsertStop | src/app/projects/page.tsx:38-52 | where the inserted element stops, the insertion step puts it |
| ArraySort.InsertIntoPrefix | src/app/projects/page.tsx:38-52 | shifting larger elements right in place leaves the array equal to one insertion step on the prefix, with the rest untouched |
| ArraySort.Place | src/app/projects/page.tsx:38-52 | writing the held element into the gap gives the sequence the insertion step describes |
| ArraySort.ShiftRight | src/app/projects/page.tsx:38-52 | copying an element one place right moves the gap one place left |
| ArraySort.SortInPlace | src/app/projects/page.tsx:38 | `filtered.sort(compare)` rearranges the array in place into the insertion sort of its old contents |
| MockData.ToVotingView | src/lib/mockData.ts:211-221 | a voting view copies the identifying fields; votes default to 0, the vote target to 500 (also in place of 0), and the repository to "" |
| MockData.ToFundingView | src/lib/mockData.ts:226-239 | a funding view copies the identifying fields, and every missing number defaults to 0 and the repository to "" |
| MockData.VotingProjects | src/lib/mockData.ts:209-221 | `mockVotingProjects`, defined as the voting view of each Voting-stage project in order; see VotingProjectsOfOne, VotingProjectsAppend, VotingProjectsMembership |
| MockData.FundingProjects | src/lib/mockData.ts:224-239 | `mockFundingProjects`, defined as the funding view of each Funding-stage project in order; see FundingProjectsOfOne, FundingProjectsAppend, FundingProjectsMembership |
| MockData.PostedProjects | src/lib/mockData.ts:344 | the owner filter, defined as an exact string comparison; see PostedProjectsMembership |
| MockData.MockPostedProjects | src/lib/mockData.ts:344 | `mockUserActivity.postedProjects`, the owner filter for the demo address; see MockPostedProjectsMembership |
| MockData.VotingProjectsOfOne | src/lib/mockData.ts:209-221 | a single project yields its voting view when it is in the Voting stage, and nothing otherwise |
| MockData.VotingProjectsAppend | src/lib/mockData.ts:209-221 | the voting projection keeps source order |
| MockData.FundingProjectsOfOne | src/lib/mockData.ts:224-239 | a single project yields its funding view when it is in the Funding stage, and nothing otherwise |
| MockData.FundingProjectsAppend | src/lib/mockData.ts:224-239 | the funding projection keeps source order |
| MockData.VotingProjectsMembership | src/lib/mockData.ts:209-221 | every Voting-stage project has its view in `mockVotingProjects`, and every entry is the view of such a project |
| MockData.FundingProjectsMembership | src/lib/mockData.ts:224-239 | every Funding-stage project has its view in `mockFundingProjects`, and every entry is the view of such a project |
| MockData.VotingAndFundingDisjoint | src/lib/mockData.ts:209-239 | with distinct project ids, no id appears in both projections |
| MockData.PostedProjectsMembership | src/lib/mockData.ts:344 | `postedProjects` keeps exactly the projects whose owner equals the address character for character |
| MockData.MockPostedProjectsMembership | src/lib/mockData.ts:344 | the profile lists exactly the projects owned by `0x742d35Cc6634C0532925a3b8D4C9db96C4b4d8b6`, in that letter case |
| ProjectsPage.Keep | src/app/projects/page.tsx:22-33 | the filter switch, defined case by case as in the source; see StageFilterMembership, MyProjectsMembership, UnknownFilterKeepsAll |
| ProjectsPage.FilterProjects | src/app/projects/page.tsx:21 | `mockProjects.filter(...)` with the switch as callback; see the membership lemmas below |
| ProjectsPage.StageFilterMembership | src/app/projects/page.tsx:23-28 | `voting`, `funding` and `active` keep exactly the projects of that stage |
| ProjectsPage.MyProjectsMembership | src/app/projects/page.tsx:29-30 | `my-projects` keeps exactly the projects whose owner equals the connected, non-empty address ignoring case |
| ProjectsPage.MyProjectsDisconnected | src/app/projects/page.tsx:30 | with no wallet connected, `my-projects` shows nothing |
| ProjectsPage.UnknownFilterKeepsAll | src/app/projects/page.tsx:17-35 | `all`, and any key the switch does not name, keeps every project in order |
| ProjectsPage.PostedProjectsWithinMyProjects | src/app/projects/page.tsx:30 | every project in the profile's `postedProjects` for an address is also shown by `my-projects` for it |
| ProjectsPage.MyProjectsWiderThanPosted | src/app/projects/page.tsx:30 | an owner written in other letter case is shown by `my-projects` but not listed in `postedProjects` |
| ProjectsPage.Compare | src/app/projects/page.tsx:39-51 | the comparator switch, defined case by case as in the source; see CompareAntisymmetric, CompareByRank, NearGoalIgnoresOtherStages |
| ProjectsPage.SortProjects | src/app/projects/page.tsx:38 | the order `filtered.sort(...)` leaves, the model's insertion sort under Compare; see SortProjectsPermutation, RankedSortOrdered, RankedSortStable |
| ProjectsPage.CompareAntisymmetric | src/app/projects/page.tsx:39-51 | swapping the two projects negates the comparator, under every key |
| ProjectsPage.CompareByRank | src/app/projects/page.tsx:40-47 | `most-voted` and `newest`, and `near-goal` between two funding projects, compare by votes, date or percentage, largest first |
| ProjectsPage.SortProjectsPermutation | src/app/projects/page.tsx:38-52 | sorting the filtered list only reorders it |
| ProjectsPage.AdjacentRanksToAll | src/app/projects/page.tsx:38-52 | a list whose neighbours are in rank order is in rank order throughout |
| ProjectsPage.SortProjectsAdjacentInOrder | src/app/projects/page.tsx:38-52 | no neighbouring pair of the model's sorted list is one the comparator would swap; for mixed-stage `near-goal` this describes the insertion sort, not every engine's order |
| ProjectsPage.RankedSortOrdered | src/app/projects/page.tsx:40-43 | under `most-voted` and `newest` the sorted list is in rank order, largest first |
| ProjectsPage.MostVotedNonIncreasing | src/app/projects/page.tsx:40-41 | under `most-voted` the vote counts never increase along the list, a missing count reading as 0 |
| ProjectsPage.NewestFirst | src/app/projects/page.tsx:42-43 | under `newest` the creation dates never increase along the list |
| ProjectsPage.NearGoalAllFundingOrdered | src/app/projects/page.tsx:44-47 | under `near-goal` a list of funding projects comes out by funding percentage, largest first |
| ProjectsPage.NearGoalIgnoresOtherStages | src/app/projects/page.tsx:44-48 | under `near-goal` a pair that is not both funding projects compares equal |
| ProjectsPage.UnknownSortKeepsOrder | src/app/projects/page.tsx:49-50 | a sort key the switch does not name leaves the filtered order unchanged |
| ProjectsPage.RankedSortStable | src/app/projects/page.tsx:38-52 | under `most-voted` and `newest` projects of equal rank keep their relative order |
| ProjectsPage.FilteredAndSortedProjects | src/app/projects/page.tsx:16-55 | with `all` the shared array itself is sorted and returned; otherwise a fresh array is sorted and the shared one is untouched; the result is the sorted filter of the old list |
| Contracts.FormatAddress | src/lib/contracts.ts:62-64 | the display is the first six characters (or all, if fewer), `...`, then the last four (or all) |
| Contracts.FormatAddressLength | src/lib/contracts.ts:62-64 | an address of six characters or more displays in 13 characters |
| Contracts.FormatAddressSameDisplay | src/lib/contracts.ts:62-64 | two addresses of six characters or more display alike exactly when their first six and last four characters agree |
| PostProject.FormData.With | src/app/post-project/page.tsx:68 | `{ ...prev, [field]: value }` sets that field and leaves the other five as they were |
| PostProject.Message.Text | src/app/post-project/page.tsx:41-61 | every message the form records is a non-empty (truthy) string |
| PostProject.FieldError | src/app/post-project/page.tsx:41-61 | the four `if` chains of `validateForm`, one field at a time, with no message for vision and tags; see TitleRule, GithubRepoRule, DescriptionRule, FundingGoalRule |
| PostProject.TitleRule | src/app/post-project/page.tsx:41-43 | the title gets "Project title is required" exactly when it is blank |
| PostProject.GithubRepoRule | src/app/post-project/page.tsx:45-49 | the link gets "required" when blank, "invalid" when it does not contain `github.com`, and no message otherwise |
| PostProject.DescriptionRule | src/app/post-project/page.tsx:51-55 | the description gets "required" when blank, "too short" below 50 UTF-16 code units, and no message otherwise |
| PostProject.FundingGoalRule | src/app/post-project/page.tsx:57-61 | the goal gets "required" when blank, "invalid" unless `Number` reads it as a positive number, and no message otherwise |
| PostProject.HostedLinkNotBlank | src/app/post-project/page.tsx:45-49 | a link containing `github.com` is never blank, so only the second check can reject it |
| PostProject.NoErrorsIffNoFieldError | src/app/post-project/page.tsx:63-64 | the recorded map has no keys exactly when no field has a message |
| PostProject.ValidIff | src/app/post-project/page.tsx:38-65 | a form validates exactly when the title is not blank, the link contains `github.com`, the description is not blank and has at least 50 code units, and the goal is not blank and is a positive number |
| PostProject.NormalizeTags | src/app/post-project/page.tsx:91 | `tags.split(',').map(tag => tag.trim()).filter(Boolean)`; see NormalizedTagsAreClean, NormalizeTagsMembership, NormalizeJoinedTags |
| PostProject.NormalizedTagsAreClean | src/app/post-project/page.tsx:91 | every submitted tag is non-empty, already trimmed and comma-free |
| PostProject.NormalizeTagsMembership | src/app/post-project/page.tsx:91 | a tag is submitted exactly when it is the non-empty trim of one comma-separated piece |
| PostProject.NormalizeJoinedTags | src/app/post-project/page.tsx:91 | clean tags joined with commas come back unchanged, the empty list included |
| PostProject.PostProjectForm.constructor | src/app/post-project/page.tsx:21-30 | the form starts with six empty fields, no errors and no success banner |
| PostProject.PostProjectForm.ValidateForm | src/app/post-project/page.tsx:38-65 | the stored error map holds, for each field, exactly the message its rule gives; the result is true exactly when the map is empty |
| PostProject.PostProjectForm.HandleInputChange | src/app/post-project/page.tsx:67-73 | the edited field takes the new value, its message is cleared, and every other field and message is unchanged |
| PostProject.PostProjectForm.HandleSubmit | src/app/post-project/page.tsx:75-113 | errors are always revalidated. On failure nothing else changes. On success the submission copies the text fields, normalises the tags and carries the positive funding goal, and the form is reset with the success banner shown |

## Left out

- The Solidity contracts, the Hardhat scripts, the funding page's RPC calls, `parseCORE`/`formatCORE` (floating point), the display percentages and all rendering are not part of this model.
- `Number(s)` and `new Date(s).getTime()` are parameters (`toNumber`, `dateKey`). The model does not fix their parsing rules. An invalid date giving NaN, which makes the comparator return NaN, is not modelled.
- Numeric fields of `Project` are integers. JavaScript numbers are doubles; the mock data holds only whole numbers.
- Strings are sequences of Unicode scalar values. `Slice`, `Includes` and `Trim` index by character. JavaScript indexes by UTF-16 code unit, which differs only for characters above U+FFFF. `Utf16Length` counts code units as `length` does.
- Js.ToLowerCase: lowers ASCII letters only, because hex addresses hold no other letters; full Unicode case mapping is not modelled.
- Js.Split: handles a one-character separator only, the only form the code uses.
- ProjectsPage.SortProjects: the order `Array.prototype.sort` leaves is modelled as a stable insertion sort. For a consistent comparator (`most-voted`, `newest`, and `near-goal` over funding projects only) every stable sort gives this order. Under `near-goal` with mixed stages the comparator is inconsistent, and the order JavaScript leaves depends on the engine. For that case only the permutation and the mixed-pair rule are claimed of JavaScript. SortInOrder, SortProjectsAdjacentInOrder and SortStable describe the model's insertion sort in that case, not the engine's order.
- The `mockProjects` literal is not transcribed. The projections are functions of any project list.
- `useMemo` caching and the re-render cycle are not modelled. A React state update is modelled as taking effect at once. `showSuccess` going back to false after five seconds, `isSubmitting`, and the 1.5-second delay are not modelled.
- PostProject.PostProjectForm.HandleInputChange: a cleared message is removed from the map. The source sets it to `undefined`, which every later read treats the same way.
- PostProject.PostProjectForm.HandleSubmit: the console log's `submittedAt` and `walletAddress` (a clock and a placeholder) are not part of the submission. The redirect when no wallet is connected is left out.
