# The Gray Order points bot, modelled in Dafny

This project models the core of `grayboty.py`, the Discord bot of "The Gray Order". The bot keeps a per-guild ledger of training (TP), mission (MP), raid (RP), war (WP) and event (EVE) points. Officers grant points with `/addtp`, `/addmp`, `/addra`, `/addwar`, `/addeve` and `/addall`. Full officers remove them with `/deltp` and `/delmp`, and the removal is clamped at zero. The bot also resolves a member's group rank and Level-Tier from their Discord roles, shows the next-rank notice in `/showprofile`, and builds the `/tierlist` leaderboard, which has pages of 15 rows and Prev/Next buttons.

The modules follow the program's structure:

- `Base`: `Option`, `IndexOf` (Python's `list.index` with a fallback), `Count`, `Min`, and `Collect`, a filter-map standing for a list comprehension with an `if`.
- `Text`: the ASCII subset of `str.strip`, `startswith`, `in` and `split` that the bot uses.
- `Mentions`: `MENTION_RE.findall` for the pattern `<@!?(\d+)>`, and `int(uid)`.
- `Ledger`: the collection of `(guild, user)` documents, `add_points` as an upsert-increment, and the clamped removal step.
- `Grants`: the `add_points` calls each granting command makes, as lists of increments.
- `Access`: `has_basic_permission`, `has_full_permission` and the roll-call link check.
- `Commands`: every point command end to end. This covers its rejections in the order the code checks them and its effect on the ledger.
- `Tiers`: `get_member_tier`, the `/showprofile` tier walk and `parse_tier_components`.
- `Ranks`: `get_highest_rank`, `get_member_rank`, the rank-name recovery, `rank_requirements` and the next-rank notice.
- `Sorting`: a stable insertion sort on keyed rows, standing in for Python's stable `list.sort(key=...)`.
- `Leaderboard`: `members_with_tier`, the sort key, `invoker_pos` and the paging.
- `View`: `TierListView` as a state machine over immutable values.

Discord and MongoDB are outside the model. Wherever they answer, the model takes their answer as a parameter:

- the guild's resolvable member ids (`guild.get_member`);
- the caller's role ids and role names;
- the outcome of deleting the leaderboard message;
- the collection itself, as a `map` from `(guild, user)` keys to documents.

## Model

| member | source | states |
|---|---|---|
| Ledger.AddPoints | grayboty.py:94-101 | The returned total is the old value of the field (0 when the document or field is missing) plus the amount. The document exists afterwards (upsert). No other document or field changes. |
| Ledger.AddPointsNonNegative | grayboty.py:94-101 | An increment that does not drive its own field below zero keeps every stored field non-negative. |
| Ledger.ApplyAllValue | grayboty.py:94-101 | After a sequence of `add_points` calls, each field holds its old value plus the sum of the increments addressed to it. Other guilds are untouched. |
| Ledger.ApplyAllTotals | grayboty.py:94-101 | The `i`-th total the calls return is the field's old value plus everything the first `i + 1` increments added to that field. |
| Ledger.ApplyAllKeys | grayboty.py:94-101 | A document exists afterwards exactly when it existed before or some increment addressed it in the command's guild. |
| Ledger.ApplyAllNonNegative | grayboty.py:94-101 | Non-negative increments keep every field non-negative. |
| Ledger.TotalAppend | grayboty.py:94-101 | The points added by two runs of increments add up. |
| Ledger.GetUserData | grayboty.py:90-92 | A plain lookup, with no contract of its own. A missing document reads as `None`, and `Ledger.RemoveAsWritten` states what the removal does with it. |
| Ledger.ApplyAll | grayboty.py:94-101 | One total per increment. Its contents are stated by `Ledger.ApplyAllValue`, `Ledger.ApplyAllTotals` and `Ledger.ApplyAllKeys`. |
| Ledger.RemoveAsWritten | grayboty.py:959-967 | The step as written raises exactly when the member has no document. Otherwise it is the corrected step `Ledger.Remove`. |
| Ledger.RemoveAsWrittenCrashes | grayboty.py:959-960 | For a member without a document, the removal step as written raises on `None.get`, while the corrected step reports nothing to remove and leaves the collection alone. |
| Ledger.RemoveAsWrittenCrashesOnEmptyStore | grayboty.py:1012-1013 | A concrete input, an empty collection with one point to remove, on which the step as written raises. |
| Ledger.Remove | grayboty.py:959-967 | Points are removed exactly when the field is positive. The amount removed is between 1 and `points`, and is either all of `points` or everything there was. The new total is the old value minus the amount and is never negative. Nothing else changes. |
| Ledger.RemoveAgreesWithRecord | grayboty.py:959-967 | Whenever the document exists, the corrected step is exactly the step as written. |
| Ledger.RemoveNonNegative | grayboty.py:961-963 | Removal keeps every field non-negative. |
| Ledger.RemoveEach | grayboty.py:954-967 | The loop writes one summary line per mentioned id, in order. Ids the guild does not resolve get "not found". Every positive removal takes between 1 and `points` and leaves a non-negative total. |
| Ledger.RemoveEachValue | grayboty.py:954-967 | A member mentioned `n` times ends at `max(0, value - n * points)`. Non-members, other fields and other guilds are unchanged. |
| Ledger.RemoveEachKeeps | grayboty.py:954-967 | The corrected loop keeps exactly the documents that were there. It never deletes one, and since a missing document is never written, it creates none either. |
| Ledger.RemoveEachTook | grayboty.py:952-965 | Some summary line reports points taken (`found_any`) exactly when some resolved mention had points of the field. |
| Ledger.RemoveEachDropsAt | grayboty.py:954-967 | A mention's points go down exactly when the id resolves and the member had points. |
| Ledger.RemoveEachFoundIff | grayboty.py:952-970 | `found_any` is set exactly when some mentioned member's points went down. |
| Ledger.RemoveEachAsWritten | grayboty.py:954-967 | The loop as written. It stops at the first resolved mention without a document, keeping the removals already made. |
| Ledger.RemoveEachAsWrittenAgrees | grayboty.py:954-967 | When every resolved mention has a document, the loop as written completes and equals the corrected loop, with the same lines and the same store. |
| Ledger.RemoveEachAsWrittenRaises | grayboty.py:954-967 | When the first resolved mention without a document is at position `i`, the loop as written raises. Its store is the corrected loop's store over the first `i` mentions. |
| Ledger.RemoveEachAsWrittenStopsEarly | grayboty.py:954-967 | A concrete input: for mentions of a member without a document and then of a member with 5 TP, the loop as written raises and leaves the 5 TP alone. The corrected loop takes 1 point from the second member. |
| Ledger.DrainClosedForm | grayboty.py:961-963 | `n` successive clamped removals of `points` equal one removal of `n * points`, clamped at 0. |
| Grants.GrantTotal | grayboty.py:446-450 | A resolved member mentioned `n` times receives `n` times the award. An id that does not resolve receives nothing. |
| Grants.AwardToTotal | grayboty.py:555-560 | An award given to one user adds its per-field amounts to that user and nothing to anyone else. |
| Grants.TpIncrementsTotal | grayboty.py:437-451 | `/addtp` adds 1 TP to the caller and, to each resolved member, 3, 2 and 1 TP per mvp, promo and attended mention (`POINT_VALUES`). It adds nothing to any other field. |
| Grants.TpIncrementsOnlyCaller | grayboty.py:437-455 | When no mention resolves, the only write is the caller's own training point. |
| Grants.RaIncrementsTotal | grayboty.py:555-569 | `/addra` adds +1 RP and +2 MP per raid mention and +1 MP per extra mention, for resolved members only. |
| Grants.WarIncrementsTotal | grayboty.py:619-622 | `/addwar` adds +1 WP per resolved mention. |
| Grants.EveIncrementsTotal | grayboty.py:670-674 | `/addeve` adds +1 EVE and +1 MP per resolved mention. |
| Grants.AllIncrementsTotal | grayboty.py:1063-1069 | `/addall` adds exactly `tp` TP and `mp` MP to the member. |
| Access.HasFull | grayboty.py:1086-1102 | Full permission implies basic permission, because every full role is a basic role. |
| Access.StaffIsBasicOnly | grayboty.py:1086-1102 | A member with basic but not full permission holds the "TGO \| Staff" role. |
| Access.NoRolesNoPermission | grayboty.py:1098-1102 | A member without roles has neither permission. |
| Access.RollcallMeaning | grayboty.py:429 | A link passes exactly when some position holds `https://discord.com` with only whitespace before it (`Access.PrefixAfterBlanks`). The lenient check (`if rollcall and ...`) and the strict check (`/addeve`, line 654) differ only on the empty link. The strict check rejects the empty link. |
| Access.PrefixAfterBlanksPasses | grayboty.py:429 | A link holding `https://discord.com` after a run of whitespace passes the check. |
| Access.BlankRollcallRejected | grayboty.py:429 | Every non-empty link made only of whitespace is neither empty nor valid, so both checks reject it. |
| Commands.AddTp | grayboty.py:416-455 | Computes the outcome of `/addtp`, with no contract of its own. `Commands.AddTpEffect` and `Commands.AddTpNonNegative` state it. |
| Commands.AddMp | grayboty.py:478-500 | Computes the outcome of `/addmp`, with no contract of its own. `Commands.AddMpEffect` and `Commands.AddMpNonNegative` state it. |
| Commands.AddRa | grayboty.py:525-569 | Computes the outcome of `/addra`, with no contract of its own. `Commands.AddRaEffect` and `Commands.AddRaNonNegative` state it. |
| Commands.AddWar | grayboty.py:592-622 | Computes the outcome of `/addwar`, with no contract of its own. `Commands.AddWarEffect` and `Commands.AddWarNonNegative` state it. |
| Commands.AddEve | grayboty.py:643-674 | Computes the outcome of `/addeve`, with no contract of its own. `Commands.AddEveEffect` and `Commands.AddEveNonNegative` state it. |
| Commands.AddAll | grayboty.py:1043-1069 | Computes the outcome of `/addall`, with no contract of its own. `Commands.AddAllEffect` and `Commands.AddAllNonNegative` state it. |
| Commands.DelPoints | grayboty.py:936-967 | Computes the outcome of `/deltp` and `/delmp` with the corrected removal step, and has no contract of its own. `Commands.DelPointsEffect`, `Commands.DelPointsNonNegative` and `Commands.FoundAnyMeaning` state it. |
| Commands.AddTpEffect | grayboty.py:416-451 | `/addtp` writes exactly when the caller has basic permission and the link is empty or valid. It then adds the promised training points and nothing else. |
| Commands.AddTpNoValidMentions | grayboty.py:437-455 | When the reply is "No valid member mentions found", the caller's training point has already been added. |
| Commands.AddMpEffect | grayboty.py:478-500 | `/addmp` writes exactly when the caller has basic permission, at most 4 points are asked for and the link passes. It adds that many MP to the member only. |
| Commands.AddRaEffect | grayboty.py:525-569 | `/addra` writes exactly when the caller has permission, the link passes and some mention is found in `members`. It then adds the raid and mission points per mention. |
| Commands.AddWarEffect | grayboty.py:592-622 | `/addwar` writes under the same conditions as `/addra` and adds +1 WP per resolved mention. |
| Commands.AddEveEffect | grayboty.py:643-674 | `/addeve` writes only with a non-empty valid link. It adds +1 EVE and +1 MP per resolved mention. |
| Commands.AddAllEffect | grayboty.py:1043-1069 | `/addall` writes exactly when the caller has full permission and one amount is positive. It adds both amounts to the member. |
| Commands.AddTpNonNegative | grayboty.py:437-451 | `/addtp` keeps every stored value non-negative. |
| Commands.AddMpNonNegative | grayboty.py:499-500 | `/addmp` keeps every stored value non-negative. |
| Commands.AddRaNonNegative | grayboty.py:555-569 | `/addra` keeps every stored value non-negative. |
| Commands.AddWarNonNegative | grayboty.py:619-622 | `/addwar` keeps every stored value non-negative. |
| Commands.AddEveNonNegative | grayboty.py:670-674 | `/addeve` keeps every stored value non-negative. |
| Commands.AddAllNonNegative | grayboty.py:1063-1069 | `/addall` keeps every stored value non-negative. |
| Commands.DelPointsEffect | grayboty.py:936-967 | `/deltp` and `/delmp` write exactly when the caller has full permission and some mention is found. A resolved member mentioned `n` times ends at `max(0, value - n * points)`. Nothing else changes. |
| Commands.DelPointsNonNegative | grayboty.py:954-967 | Removal keeps every stored value non-negative. |
| Commands.FoundAnyMeaning | grayboty.py:952-970 | The command is logged (`found_any`) exactly when some mentioned member's points went down. |
| Commands.DelPointsAsWritten | grayboty.py:936-967 | `/deltp` and `/delmp` as written: the same rejections, then the loop that may raise. |
| Commands.DelPointsAsWrittenAgrees | grayboty.py:936-967 | When every resolved mention has a document, the commands as written reject exactly when the corrected ones do. Otherwise they send the same summary and leave the same store. |
| Commands.DelPointsAsWrittenRaises | grayboty.py:954-967 | The command as written raises at the first resolved mention without a document, after the removals for the mentions before it. |
| Mentions.FindMentionFirst | grayboty.py:115 | A leading `<@digits>` is captured and the scan resumes right after it. |
| Mentions.FindNickMentionFirst | grayboty.py:115 | A leading `<@!digits>` is captured with the same digits. |
| Mentions.FindMentionsSkip | grayboty.py:115 | A character other than `<` never starts a match. |
| Mentions.FindMentions | grayboty.py:115 | Every captured id is a non-empty run of digits. |
| Mentions.FindMentionsRender | grayboty.py:115 | Scanning mentions written one after another returns the ids in order, repetitions included. |
| Mentions.MentionIds | grayboty.py:446-447 | `int` over `MENTION_RE.findall`, with no contract of its own. `Mentions.MentionIdsRoundTrip` and `Mentions.FindMentions` state it. |
| Mentions.MentionIdsRoundTrip | grayboty.py:446-447 | Mentioning a list of user ids and parsing the text with `findall` and `int` gives back the same list. |
| Mentions.ParseNatToString | grayboty.py:447 | `int` of the decimal spelling of an id is the id. |
| Tiers.MemberTier | grayboty.py:843-857 | No tier exactly when no base-tier role is held, whatever star roles the member has. Otherwise the result is the first base tier held, followed by ⁂ if that star role is held, else ⁑, else nothing. |
| Tiers.BaseTierMeaning | grayboty.py:846-849 | The resolved base tier is held, and every tier above it is not. |
| Tiers.ProfileAgreesWithTierlist | grayboty.py:305-316 | The Level-Tier text of `/showprofile` equals the tier `/tierlist` resolves for the same roles. |
| Tiers.ParseTier | grayboty.py:877-885 | `parse_tier_components`, with no contract of its own. `Tiers.ParseTierString` and `Tiers.ParseMemberTier` state it. |
| Tiers.ParseTierString | grayboty.py:877-885 | Parsing any tier text the bot produces gives back its base position and its negated star count. |
| Tiers.ParseMemberTier | grayboty.py:877-885 | For every member with a tier, the parsed key is the member's base position and negated star count, so the fallback position is never used. |
| Tiers.TierStringStars | grayboty.py:879-882 | The star test of `parse_tier_components` finds ⁂ in a produced tier text exactly when it has three stars, and ⁑ exactly when it has two. |
| Tiers.TierStringHead | grayboty.py:883 | The part of a produced tier text before ` [` is the base-tier name. |
| Ranks.GetHighestRank | grayboty.py:169-176 | `get_highest_rank`, with no contract of its own. `Ranks.HighestRankMeaning` and `Ranks.RecoverDisplay` state it. |
| Ranks.MemberRank | grayboty.py:859-864 | `get_member_rank`, with no contract of its own. `Ranks.MemberRankIsHighest` states it. |
| Ranks.HighestRankMeaning | grayboty.py:169-174 | A rank is chosen exactly when the member holds it and holds no rank later in `rank_list`. "No Rank" exactly when no rank is held. |
| Ranks.HighestInMeaning | grayboty.py:171-174 | The same for `max(found, key=order.index)` over any list of distinct names. |
| Ranks.MaxByPosition | grayboty.py:174 | Python's `max` picks an element of the list whose position is not below any other's. |
| Ranks.MemberRankIsHighest | grayboty.py:859-864 | The leaderboard's first match over `group_ranks_order` always agrees with `get_highest_rank`'s maximum over `rank_list`. |
| Ranks.FirstHeldIsHighestOfReverse | grayboty.py:859-864 | For any list of distinct names, the first element held in the list's reverse is the held element with the largest position. |
| Ranks.GroupOrderIsReverse | grayboty.py:223-238 | `group_ranks_order` is `rank_list` read backwards. |
| Ranks.RecoverDisplay | grayboty.py:261 | Splitting a decorated rank `emoji \| rank` on `\|` and stripping gives back the rank, for any emoji text. |
| Ranks.CurrentRankIsHighest | grayboty.py:260-261 | `current_rank` in `/showprofile` is the plain name of the highest rank, or "No Rank". |
| Ranks.RequirementsRise | grayboty.py:179-186 | A fact about the `rank_requirements` table rather than about any code path: read in `rank_list` order, its TP and MP entries both strictly increase. |
| Ranks.RequiredTiersAreTierTexts | grayboty.py:179-186 | Every Level-Tier requirement is a text `get_member_tier` can produce. |
| Ranks.NextRankNotice | grayboty.py:319-356 | The next-rank notice, with no contract of its own. `Ranks.NoticeByPosition` and `Ranks.NoticeWithoutRank` state it. |
| Ranks.NoticeByPosition | grayboty.py:319-356 | The notice for each listed rank follows from its position: the two emperors see their title even when retired. Otherwise retired members see the remembrance line, the lords the council line and the masters the HR line. Silver Knight sees the HR line naming Master - On trial, and every lower rank sees the requirements of the rank directly above it. |
| Ranks.NoticeWithoutRank | grayboty.py:319-356 | A member without a rank sees only the retired line, if retired. |
| Base.CollectAppend | grayboty.py:866-871 | Collecting the rows of two runs of members one after the other gives the two results in order. |
| Leaderboard.Entries | grayboty.py:866-871 | `members_with_tier`, written as `Base.Collect(RowOf, members)`, with no contract of its own. `Leaderboard.EntriesExactly` and `Leaderboard.EntriesInGuildOrder` state it. |
| Leaderboard.EntriesInGuildOrder | grayboty.py:866-871 | Rows keep guild order: the rows of an earlier run of members come, in full, before the rows of a later run. |
| Leaderboard.EntriesExactly | grayboty.py:866-871 | The board holds exactly the members with a tier, each with their own tier text and rank. It is empty exactly when nobody has a tier. |
| Leaderboard.KeysUseNoFallback | grayboty.py:877-888 | Every row's key uses a listed base tier and a listed rank, "Initiate" included. |
| Leaderboard.RowKeyInRange | grayboty.py:870 | The key of a member's row has a listed base position, a listed rank position and a star count of 0, 2 or 3. |
| Leaderboard.SortRows | grayboty.py:890-893 | The sort by tier key and rank position, with no contract of its own. `Leaderboard.SortRowsMeaning` states it. |
| Leaderboard.SortRowsMeaning | grayboty.py:890-893 | The sorted rows are a permutation of the rows and are in key order. For every key they keep the rows of that key in their original order, so the sort is stable. |
| Sorting.SortStable | grayboty.py:890-893 | For every key, the rows carrying it keep their relative order. |
| Sorting.SortSorted | grayboty.py:890-893 | The sorted list is ordered by Python's tuple order on keys. |
| Sorting.SortPermutesItems | grayboty.py:890-893 | Sorting keyed rows and dropping the keys is a permutation of the rows. |
| Sorting.InsertWithKey | grayboty.py:890-893 | Inserting into a sorted list puts the new row behind every earlier row of its own key. |
| Leaderboard.InvokerPos | grayboty.py:895-900 | `invoker_pos`, with no contract of its own. `Leaderboard.InvokerPosMeaning` states it. |
| Leaderboard.InvokerPosMeaning | grayboty.py:895-900 | `invoker_pos` is `p` exactly when row `p` (1-based) is the invoker's and no earlier row is. It is absent exactly when the invoker has no row. |
| Leaderboard.Pages | grayboty.py:923-924 | There are `ceil(n / 15)` pages, and page `p` is rows `15p` up to `min(15p + 15, n)`. |
| Leaderboard.PagesFlatten | grayboty.py:923-924 | The pages read in order are the whole list. |
| Leaderboard.PagesShape | grayboty.py:923-924 | Every page but the last has 15 rows and the last has 1 to 15. There are no pages exactly when there are no rows. |
| Leaderboard.PagesLocate | grayboty.py:923-924 | Row `i` is row `i % 15` of page `i / 15`. |
| Leaderboard.TierlistOf | grayboty.py:866-924 | The whole `/tierlist` computation, with no contract of its own. `Leaderboard.TierlistExists`, `Leaderboard.TierlistPages` and `Leaderboard.TierlistPosition` state it. |
| Leaderboard.TierlistExists | grayboty.py:873-875 | `/tierlist` answers "No members with Tier roles found." exactly when no member has a tier. |
| Leaderboard.TierlistPages | grayboty.py:890-924 | The board's pages, read in order, are the sorted rows, and there is at least one page. |
| Leaderboard.TierlistPosition | grayboty.py:895-900 | The board's position names a row of the invoker in the sorted rows. It is absent exactly when the invoker has no row. |
| Leaderboard.BoardViewStarts | grayboty.py:781-800 | The view built from a board starts valid on page 0, and its footer shows the invoker's position exactly when the invoker has one. |
| View.New | grayboty.py:781-786 | A new view is on page 0 with no message, and is valid when there is a page. |
| View.Prev | grayboty.py:810-814 | The Prev button, with no contract of its own. `View.PressKeepsValid`, `View.PressMoves` and `View.PrevUndoesNext` state it. |
| View.Next | grayboty.py:817-821 | The Next button, with no contract of its own. The same lemmas as for `View.Prev` state it. |
| View.PressKeepsValid | grayboty.py:804-821 | Prev and Next keep the view valid and change only the page. They edit the message only when the page changed. |
| View.PressMoves | grayboty.py:810-821 | Prev on the first page and Next on the last do nothing. Elsewhere each moves exactly one page. |
| View.PrevUndoesNext | grayboty.py:810-821 | Next then Prev, or Prev then Next, returns to the same view whenever the first press moved. |
| View.PressAllValid | grayboty.py:810-821 | Any run of presses keeps the view valid and leaves its pages, position and message alone. |
| View.Timeout | grayboty.py:823-828 | `on_timeout`, with no contract of its own. `View.TimeoutMeaning` states it. |
| View.TimeoutMeaning | grayboty.py:823-828 | The timeout raises only on a shown message whose deletion fails with an error other than `NotFound`. It touches nothing but the message, and a second timeout changes nothing. |
| View.FooterShowsBoardPosition | grayboty.py:796-800 | For a 1-based position, the truthiness test of the footer shows it exactly when it exists. |

## Left out

- The MongoDB and Discord I/O is not modelled: connections, embeds, emojis in rendered lines, deferred replies, message deletion after 15 seconds, `log_command_use`, the error handlers, the Flask keep-alive server and the monitor thread. Pages hold the sorted rows, not the formatted text lines built at lines 902-921.
- Concurrency is not modelled. Each `add_points` is one atomic upsert, and the model applies a command's calls in sequence, with no other command interleaved.
- `/addtier`, `/showprofile`'s embed fields other than the tier and the notice, the medal roles and `tier_emojis` are display or role management outside the core.
- Text operations cover ASCII whitespace (blank, tab, line and page breaks, and the separators 0x1C to 0x1F) and ASCII digits only. Python's `str.strip` and `\d` also accept non-ASCII Unicode whitespace and digits.
- Discord ids are unbounded naturals rather than 64-bit snowflakes. Nothing in the core does arithmetic on them.
- `Commands.AddMp` and `Commands.DelPoints` require `points >= 1`, and `AddAll` takes naturals. These are the `app_commands.Range` bounds Discord enforces before the handler runs.
- The view's 60-second timeout clock is not modelled; the timeout is an input. After the timeout the view stops receiving button presses. For that reason `View.Prev` and `View.Next` treat a deleted message as one they do not edit, while the code would still try the edit and fail.
- The code has no first, last or jump-to-own-page button, no tier filter on the leaderboard and no lock around a view or a guild. Star validity is checked only in `/addtier`: `get_member_tier` lets any base tier take ⁂ or ⁑, and so does the model.
- Ledger.RemoveEach models the corrected `/deltp` and `/delmp` loop, which reads a missing document as zero points. The code as written raises at the first resolved member without a document. `Ledger.RemoveEachAsWritten` models that loop, and `Ledger.RemoveEachAsWrittenAgrees` and `Ledger.RemoveEachAsWrittenRaises` relate the two.
- Ledger.RemoveEachValue states the corrected loop's effect. The code as written has that effect only when every resolved mention has a document (`Ledger.RemoveEachAsWrittenAgrees`).
- Commands.DelPoints uses the corrected loop. `Commands.DelPointsAsWritten` is the command as written, and `Commands.DelPointsAsWrittenAgrees` and `Commands.DelPointsAsWrittenRaises` relate the two.
- Commands.DelPointsEffect states the corrected command's effect. The code as written has it only when every resolved mention has a document, and otherwise stops with a partial store (`Commands.DelPointsAsWrittenRaises`).
- The early return of `/showprofile` (grayboty.py:252-258) is not modelled. When the member has no document, or TP, MP, RP and WP are all 0, the profile shows only the "has not yet woven their story" line, with no tier and no notice. EVE points are not tested there. `Tiers.ProfileAgreesWithTierlist`, `Ranks.CurrentRankIsHighest` and the notice lemmas describe the profile past that return only. So a member with a tier role and no document appears in `/tierlist` but gets no tier in their profile.
- A second timeout in the code deletes the message again, and Discord's `NotFound` answer is swallowed. `View.Timeout` folds this into the `Gone` state, where a timeout does nothing.

## Findings

| source | as written | input that shows it | evidently intended | confidence | as-written member | corrected member |
|---|---|---|---|---|---|---|
| grayboty.py:959-960 and grayboty.py:1012-1013 | `get_user_data` returns `None` for a member who never received points, and `.get("tp", 0)` / `.get("mp", 0)` is then called on `None` | `/deltp` or `/delmp` mentioning a guild member who has no document (for example an empty collection) | report "has no TP/MP to remove" for that member, reading a missing document as all zeros | high, not executed | Ledger.RemoveAsWritten, Ledger.RemoveEachAsWritten and Commands.DelPointsAsWritten (shown by Ledger.RemoveAsWrittenCrashes, Ledger.RemoveAsWrittenCrashesOnEmptyStore, Ledger.RemoveEachAsWrittenStopsEarly and Commands.DelPointsAsWrittenRaises) | Ledger.Remove (used by Ledger.RemoveEach and Commands.DelPoints) |
