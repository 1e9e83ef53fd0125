# Alliance-tag bot: nickname and trigger logic

This project models the decision logic of a single-guild chat bot (`bot.py`).
The bot has three event handlers:

- **Startup pass (`on_ready`).** It walks every member of the guild and every role of that member. For each alliance role whose tag the member's display name lacks, it asks the platform to set the nickname to `"{tag} {name}"`.
- **Role change (`on_member_update`).** When the role list changes, it computes the added and removed roles. It then requests prepends for added alliance roles whose tag the display name lacks, followed by resets to the bare name for removed alliance roles whose tag the display name carries. Every decision reads the nickname of the `after` member, and the model takes that nickname to stay as it was when the handler started (see "## Left out").
- **Messages (`on_message`).** It ignores the bot's own messages. For any other message it sends one canned reply when the lower-cased text contains a trigger keyword. It then hands the message on to command processing, unless sending the reply raised: that send is not guarded, so an error there ends the handler before the hand-off.

Layout:

- `text.dfy` (`Text`): `startswith`, substring search (`in`) with a positional reference definition, and ASCII lower-casing.
- `roles.dfy` (`Roles`): the alliance tag table and the order-preserving role-list difference.
- `nicknames.dfy` (`Nicknames`): member snapshots and edit requests. It holds the plan functions (`TagPlan`, `UntagPlan`, `MemberPlan`, `ReadyPlan`, `UpdatePlan`) and the handlers as loop methods proved against them.
- `nickname_properties.dfy` (`NicknameProperties`): what the plans contain, the order of edits, the results after the platform applies the edits, and idempotence.
- `scenarios.dfy` (`Scenarios`): concrete runs on a member called Alex.
- `messages.dfy` (`Messages`): the message handler.

Modelling choices:

- Each handler returns a log of attempts, with one `Attempt(request, outcome)` per edit call, in call order. The platform's answer to the k-th call is `respond(k)`, a parameter. Because the planned requests do not depend on `respond`, a failed edit never stops or changes a later one.
- An empty nickname counts as unset, as Python's truthiness does.
- `ApplyLog` describes how the platform changes a member after the edits: every applied edit of that member sets its nickname, so the last one wins. The handlers never read it. It is used only to state what a member ends up with.
- Two results show behaviour a reader might not expect:
  - The startup pass is idempotent for a member with one alliance role once one of its edits is applied (`ReadyIdempotentSingleAlliance`, `SingleAllianceShowsTag`). If every edit is refused, the refusal is only logged and the next pass requests the edit again (`FailedEditReplans`). It is never idempotent for a member with two alliance roles: a display name begins with at most one tag, so every later pass plans an edit again, whatever was applied before (`TwoAlliancesNeverSettle`). In the concrete run, both prepends are planned against the same nickname, and a second pass asks for the first tag again (`TwoAlliancesReplanned`).
  - Swapping one alliance role for another in a single update ends with a request for the bare name (`AllianceSwapEndsBare`, `AlexSwapsMobForKat`). This result assumes the member's nickname is not refreshed while the handler runs.
- The role-change handler diffs ordered role lists, not sets. The guard compares the lists themselves, so a reordering with the same roles passes the guard but plans nothing (`UpdatePlanSameRoles`).

## Model

| member | source | states |
|---|---|---|
| `Roles.AllianceTagsShape` | bot.py:14-20 | the table maps exactly the five castle-emoji roles MOB, MOS, KAT, TAN and SHH, each to its three letters in brackets |
| `Roles.TagsDistinct` | bot.py:14-20 | every alliance tag has five characters and no two alliance roles share a tag |
| `Roles.RoleDiff` | bot.py:54-55 | the filtered list is never longer than the list it filters (its contents and order are stated by the two lemmas below) |
| `Roles.RoleDiffContents` | bot.py:54-55 | the role difference holds exactly the roles of the first list that are absent from the second, each with its multiplicity in the first list |
| `Roles.RoleDiffKeepsOrder` | bot.py:54-55 | the role difference is a subsequence of the list it filters, in that list's order |
| `Roles.RoleChanges` | bot.py:53-55 | added and removed roles are disjoint, and both are empty when the two lists hold the same roles |
| `Text.StartsWithIffConcat` | bot.py:40 | `startswith` holds exactly when the text is the prefix followed by some rest |
| `Text.Contains` | bot.py:102 | a word is found only in a text at least as long as it |
| `Text.ContainsIffOccurs` | bot.py:102 | the left-to-right substring search succeeds exactly when the keyword occurs at some position of the text |
| `Text.ContainsPrefixOf` | bot.py:99-102 | a text that contains a string also contains every prefix of that string |
| `Text.Lower` | bot.py:100 | the lower-cased text has the same length, every upper-case ASCII letter becomes its lower-case counterpart, no upper-case ASCII letter remains, and every other character is kept |
| `Text.LowerSlice` | bot.py:100 | lower-casing works character by character, so it commutes with slicing |
| `Text.ContainsLowered` | bot.py:100-102 | if a text contains a word, its lower-cased form contains the lower-cased word |
| `Nicknames.DisplayName` | bot.py:37 | the display name is the nickname when that is non-empty, and otherwise the base name |
| `Nicknames.TaggedNick` | bot.py:41 | `"{tag} {name}"` starts with the tag, then one space, then the base name, which can be read back from it |
| `Nicknames.TagPlan` | bot.py:34-41 | the prepend plan has at most one edit per visited role (its contents: `TagPlanContents`) |
| `Nicknames.UntagPlan` | bot.py:79-85 | the reset plan has at most one edit per removed role (its contents: `UntagPlanContents`) |
| `Nicknames.MemberPlan` | bot.py:30-41 | one member's startup plan has at most one edit per role of the member |
| `Nicknames.UpdatePlan` | bot.py:53-92 | nothing is planned when the role lists are equal, and never more edits than the two lists have roles |
| `Nicknames.PrependTags` | bot.py:34-48 | the per-role loop attempts exactly the prepend plan's edits, in order, each with the platform's answer for its call |
| `Nicknames.StripTags` | bot.py:79-92 | the removed-role loop attempts exactly the reset plan's edits, in order, each with the platform's answer for its call |
| `Nicknames.OnReady` | bot.py:29-48 | the startup pass attempts every edit of the roster plan in order, whatever earlier calls answered |
| `Nicknames.OnMemberUpdate` | bot.py:51-92 | the role-change handler attempts every edit of the update plan in order, prepends before resets, whatever earlier calls answered |
| `NicknameProperties.TaggedNickInjective` | bot.py:14-20 | two tagged nicknames of one base name are equal only for the same alliance role |
| `NicknameProperties.TagPlanContents` | bot.py:34-41 | a prepend edit is planned exactly for an alliance role in the list whose tag the display name lacks, and its nickname is that tag, a space and the base name, never the old nickname |
| `NicknameProperties.NoPrependWhenTagged` | bot.py:37-40 | no prepend to a tag is planned when the display name already starts with that tag (exact, case-sensitive) |
| `NicknameProperties.UntagPlanContents` | bot.py:79-85 | every reset edit sets the bare base name, and one is planned exactly when some removed alliance role's tag begins the display name |
| `NicknameProperties.ReadyPlanContents` | bot.py:29-34 | the roster plan holds exactly the edits that some member of the roster plans for itself |
| `NicknameProperties.ReadyPlanEdits` | bot.py:29-41 | every startup edit tags some member's base name with one of that member's alliance tags that its display name lacks, and every such member and role gets one |
| `NicknameProperties.UpdatePlanSameRoles` | bot.py:53-55 | no edit is planned when the role lists hold the same roles, in whatever order |
| `NicknameProperties.UpdatePlanShape` | bot.py:62-92 | every update edit targets the updated member and is either a prepend for an added alliance role the display name lacks or a reset for a removed alliance role it carries; all prepends precede all resets; conversely every added alliance role whose tag the display name lacks gets its prepend, and a reset is planned whenever a removed alliance role's tag begins the display name |
| `NicknameProperties.AllianceSwapEndsBare` | bot.py:62-92 | when an alliance role the nickname carries is removed and another is added, the new tag is requested and is followed by a final request for the bare name |
| `NicknameProperties.RemovedAllianceShowsBareName` | bot.py:78-88 | after removing an alliance role whose tag the nickname carries, once the last planned edit is applied the member shows its bare name |
| `NicknameProperties.SingleAllianceTagged` | bot.py:34-40 | a member whose display name carries the tag of its only alliance role needs no startup edit |
| `NicknameProperties.TwoAlliancesNeverSettle` | bot.py:29-41 | a member with two different alliance roles gets a startup edit planned again whatever edits were applied before |
| `NicknameProperties.FailedEditReplans` | bot.py:38-48 | when every startup edit of a member was refused, the next startup pass plans the same prepend again |
| `NicknameProperties.SingleAllianceShowsTag` | bot.py:34-43 | a member with one alliance role whose tag it lacks shows `"{tag} {name}"` once any of its startup edits is applied |
| `NicknameProperties.ReadyIdempotentSingleAlliance` | bot.py:29-48 | for a member with one alliance role, once any startup edit is applied, a second startup pass plans nothing |
| `Scenarios.AlexJoinsAndLeavesMob` | bot.py:29-92 | Alex with no nickname gets "[MOB] Alex" at startup or on joining MOB, and gets "Alex" back on leaving it |
| `Scenarios.TwoAlliancesReplanned` | bot.py:29-48 | with MOB and KAT, the startup pass requests both tags, the KAT request wins, and the next pass requests MOB again |
| `Scenarios.AlexSwapsMobForKat` | bot.py:62-92 | swapping MOB for KAT while tagged MOB requests "[KAT] Alex" and then "Alex" |
| `Messages.AnyKeywordIff` | bot.py:102 | the keyword scan succeeds exactly when some keyword of the list occurs in the text |
| `Messages.TriggersIffSnor` | bot.py:99-102 | the three trigger keywords match exactly when the lower-cased text contains "snor" |
| `Messages.TriggerIgnoresCase` | bot.py:100-102 | any upper/lower-case spelling of "snor" in the message triggers the reply |
| `Messages.AnyCaseSnorTriggers` | bot.py:100-102 | a message containing "snor" spelled in any mix of upper and lower case triggers the reply |
| `Messages.OnMessage` | bot.py:94-111 | the bot's own messages produce nothing; any other message produces at most one reply, exactly when the lower-cased text contains "snor"; the hand-off to command processing comes once and last, exactly when there was no reply or its send succeeded |
| `Messages.MessageExamples` | bot.py:94-111 | "Snor" from a member gets one reply and the hand-off, or only the reply when its send fails; "hi" gets only the hand-off, and the bot's own "snorlax" gets nothing at all |

## Left out

- Client setup is not modelled: intents, the command prefix, `bot.run` and the `DISCORD_TOKEN` environment read. These are library plumbing.
- The `edit` and `send` network calls and their async scheduling are not modelled. Each handler returns its calls as a log. The answers to edit calls are the `respond` parameter, and the answer to the reply's send is the `sent` parameter of `OnMessage`.
- `discord.Forbidden` and other exceptions are not distinguished. Both are `Failed`, because they differ only in the log level.
- Logging is not modelled: neither its configuration nor its messages.
- The reply embed's title, description, colour and image URL are not modelled. The reply is the single action `Reply`.
- `process_commands` is modelled only as the `ProcessCommands` action, not as what it does.
- Full Unicode `str.lower()` is not modelled, only ASCII letters. This matters only for a non-ASCII character whose lower-case form contains one of the keyword letters s, n, o, r.
- Roles are identified by name. The platform compares role objects by id, so two distinct roles with the same name are one role here.
- Authors are compared by user id (`Message.author` against the bot's id).
- The roster is a parameter. The lookup `bot.guilds[0]` is not modelled, and neither is the `IndexError` it raises when the bot is in no guild.
- Updates of the cached member while a handler runs are not modelled. Each handler awaits every edit, and the client may refresh `member` or `after` in place before the next nickname read. The model assumes no such refresh arrives, so every decision reads the nickname the member had when the handler started. `AllianceSwapEndsBare`, `AlexSwapsMobForKat` and the plans of `OnReady` and `OnMemberUpdate` with more than one edit for the same member depend on that assumption. For example, if the new tag lands before the reset check, no bare-name reset is sent.
- `ApplyLog` is an assumption about the platform (applied edits set the nickname, the last one wins), not code of the bot. Only the properties about the state after the handler run depend on it.
