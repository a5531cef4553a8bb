# togglebot custom commands, modelled in Dafny

togglebot is a chat bot for Discord and Twitch. Users send it commands such as
`!links`, `!schedule`, `!crate name`, `!ban target` or any configured custom
command. Admins configure the schedule and the custom commands. This project
models the core of that bot as pure Dafny functions and proves properties of
it. The core covers:

- **Argument types** (`Type` in `src/commands.rs`): reading a type name,
  counting the tokens a type binds, and testing and formatting a bound value
  through a URL template.
- **Configuration records** (`src/settings/config_parsing.rs`,
  `src/settings/config.rs`):
  - the argument descriptor parser (`Argument::from_str`, a regular expression
    analysed by hand);
  - the command record and its platform default;
  - named function references.
- **`Command::respond`** (`src/commands.rs`): the platform filter, the
  cooldown gate, template selection, greedy binding of whitespace-separated
  tokens to the declared arguments, per-role processing and the final fill.
- **The schedule and state** (`src/settings/mod.rs`): rendering time ranges
  on the 12-hour clock, the default schedule and the default state.
- **The earlier configuration generation** (`src/settings.rs`), which the
  user handlers still use: its `respond`, its state and its range rendering.
- **The user handlers** (`src/handler/user.rs`): the command listing, links,
  the schedule with named weekdays, crate lookup, ban, and the lookup of a
  custom command by name or alias.
- **Message routing** (`src/handler/mod.rs`) for user messages and admin
  messages.
- **Platform replies**: the reply texts the Twitch adapter (`src/twitch.rs`)
  and the Discord adapter (`src/discord/user.rs`) build from a response.

Effects the bot's code cannot decide for itself are parameters of the model:

| effect | modelled as |
|---|---|
| template filler (`SimpleCurlyFormat`) | `fill: (string, seq<string>) -> Option<string>` |
| HTTP GET | `fetch: string -> Option<nat>`: the status, or `None` when the request fails |
| clock | `now`, in nanoseconds |
| hash map iteration order | a sequence of pairs |
| hash set iteration order | an `order` sequence |

Rust panics (`expect`, `unwrap`, `todo!`, `usize` underflow) become the
`Panic` case of `Base.Result`, with a `Fault` naming the cause.

Some behaviours of the code are easy to miss. The model keeps them as the
code has them:

- The type name "url" is matched exactly. "URL" is not a URL type, and it
  aborts because it does not start with "string".
- Too few argument tokens are not an error. The arguments that run short are
  bound to the empty string (or to fewer tokens), and only a failing test or
  format gives `WrongArgs`.
- `!commands`, `!links` and `!schedule` answer only when they are the whole
  message. A trailing space gives an empty remainder, and the message becomes
  a custom command.
- The "message without content" error of `user_message` is unreachable,
  because `splitn` always yields a first part.
- Two range ends are "the same time" only when their seconds agree too. Ends
  that differ only in their seconds are rendered as a range of two equal
  readings. The sub-second part of a time is not modelled (see "Left out").
- The handlers and the adapters are modelled as written, including the two
  defects listed under "Findings": a custom command is looked up by comparing
  each alias with its own entry's key, and a single off day is written after
  " and ". The corrected behaviour is modelled beside them.

## Model

| member | source | states |
|---|---|---|
| CommandTypes.Parse | src/commands.rs:19-30 | "url" with a primary template gives a URL type, and "url" without one aborts. A name starting with "string" binds as many tokens as it has dots, but at least one. Any other name aborts. |
| CommandTypes.TypeNameRoundTrip | src/commands.rs:19-30 | Parsing the canonical name of any type ("string" plus one dot per token, or "url" with its templates) gives that type back. |
| CommandTypes.WantedArgs | src/commands.rs:32-37 | A string type binds its token count, and a URL type binds exactly one token. |
| CommandTypes.ParsedTypesWantTokens | src/commands.rs:26 | Every type the parser accepts binds at least one token. |
| CommandTypes.Test | src/commands.rs:64-92 | Free text is always valid. A URL value is valid exactly when its link can be built and answers 200 OK. A link that cannot be built is invalid. |
| CommandTypes.Format | src/commands.rs:39-63 | Valid free text is kept verbatim, and a valid URL value becomes its link. An invalid value uses the error template if there is one, and an error template that cannot be filled aborts. |
| CommandTypes.FormatAbsentIffNoFallback | src/commands.rs:39-63 | Formatting yields nothing exactly when the value is invalid and there is no error template. It aborts exactly when the error template cannot be filled. |
| ConfigParsing.AllPlatforms | src/settings/config_parsing.rs:36-38 | The default platform list contains both Discord and Twitch. |
| ConfigParsing.MakeCommand | src/settings/config_parsing.rs:56-63 | A command that names no platforms runs on both, and given platforms are kept. |
| ConfigParsing.GetType | src/settings/config.rs:26-31 | The type of an argument is the type it carries in whichever role it has. |
| ConfigParsing.Match | src/settings/config_parsing.rs:108-125 | The descriptor pattern fails exactly on empty text, text not starting with an ASCII letter, and text containing a line feed. |
| ConfigParsing.ParseArgument | src/settings/config_parsing.rs:104-153 | A descriptor that the pattern cannot match aborts instead of yielding an argument. |
| ConfigParsing.MatchRender | src/settings/config_parsing.rs:108-125 | Matching the canonical text of any well-formed captures gives those captures back. |
| ConfigParsing.MatchWellFormed | src/settings/config_parsing.rs:108-125 | Every match is well formed. The type group starts with a letter and holds no separator. The parse argument holds no `<!>`. An error argument needs a parse argument. |
| ConfigParsing.MatchSplitsText | src/settings/config_parsing.rs:108-125 | A matched descriptor is exactly its captures put back together. The only exception is a `:<!>` delimiter whose colon the short form would absorb. |
| ConfigParsing.ParseDescribe | src/settings/config_parsing.rs:146-151 | Parsing the descriptor written for any describable argument gives that argument back, with the same role and type. |
| ConfigParsing.ParseArgumentRoles | src/settings/config_parsing.rs:146-151 | No separator gives a simple argument parsed without templates. '!' gives a format argument and '?' a test argument, both parsed with the captured templates. |
| ConfigParsing.BareUrlAborts | src/commands.rs:21-22 | The descriptor "url" has no template, so parsing it aborts. |
| ConfigParsing.PlainStringDescriptor | src/settings/config_parsing.rs:147 | A separator-free descriptor starting with "string" is a simple string argument that binds max(1, dots) tokens. |
| ConfigParsing.NoBangNoDelimiter | src/settings/config_parsing.rs:114-116 | Text without '!' can never contain the `<!>` delimiter. |
| ConfigParsing.ExampleColonDelimiter | src/settings/config_parsing.rs:114-117 | "url?a:<!>b" is a test argument with primary template "a" and error template "b". The colon belongs to the delimiter. |
| ConfigParsing.ParseNamedFunction | src/settings/config_parsing.rs:155-173 | A reference is accepted exactly when it starts with '@' and holds exactly one '/'. Its path and name put back together around the '/' are the text. |
| ConfigParsing.NamedFunctionRoundTrip | src/settings/config_parsing.rs:155-173 | A path starting with '@' and a name, neither containing '/', joined by '/' parse back to that path and name. |
| ConfigParsing.PrefixBeforeSlash | src/settings/config_parsing.rs:160-162 | Splitting at the only '/' is unambiguous: two path/name pairs whose paths have no '/' and which give the same text are equal. |
| Cooldown.Check | src/commands.rs:106-114 | A command without cooldown always passes and changes nothing. One with a cooldown is refused exactly while it cools down. On passing, exactly its own entry is set to now, and every other entry is kept. |
| Cooldown.OncePerWindow | src/commands.rs:106-114 | After a run passes, the same command is refused until the cooldown has elapsed, and passes from then on. |
| Cooldown.OtherCommandsUntouched | src/commands.rs:113 | Gating one command never adds, removes or changes another command's record. |
| Cooldown.TenSecondScenario | src/commands.rs:106-114 | With a 10 s cooldown, a first run passes, a run 5 s later is refused, and runs 10 s or 11 s after the first pass. |
| Respond.SelectTemplate | src/commands.rs:115-125 | A universal format serves every platform. A per-platform format has a template exactly for the platforms it maps, and the template is the mapped text. |
| Respond.ProcessOne | src/commands.rs:140-156 | A simple argument keeps its text. A test argument keeps it when the type's test passes and otherwise rejects it. A format argument gives what the type formats it to. |
| Respond.ProcessArgs | src/commands.rs:126-157 | Successful processing gives exactly one value per declared argument. |
| Respond.ProcessArgsByBindings | src/commands.rs:130-139 | The greedy token loop equals processing each argument with its closed-form binding: the tokens after the earlier arguments' share, as many as it wants, joined by spaces. |
| Respond.ProcessAllValues | src/commands.rs:140-157 | On success, every value is what the argument's role makes of its bound text. |
| Respond.ProcessAllWrong | src/commands.rs:140-157 | Processing reports wrong arguments exactly when some argument is the first to reject its text while all earlier ones accept theirs. |
| Respond.Fill | src/commands.rs:158-162 | The answer aborts exactly when processing aborted. Otherwise it is either a custom text or WrongArgs. |
| Respond.RespondTo | src/commands.rs:96-169 | A foreign platform gets Unknown with the state unchanged. Without a cooldown the record is never touched. Otherwise at most the command's own entry becomes now. Every answer is Custom, Unknown or WrongArgs. |
| Respond.UnknownCases | src/commands.rs:96-169 | Unknown comes exactly from a foreign platform, a gate that refuses, a missing format, or a per-platform format lacking the platform. |
| Respond.NoDeclaredArgsVerbatim | src/commands.rs:163-165 | An admitted command with a template and no declared arguments answers with the template verbatim, whatever argument text came along. |
| Respond.AnswerWrongArgs | src/commands.rs:126-162 | With a template and declared arguments, the answer is WrongArgs exactly in three cases: the argument text is missing, an argument rejects its binding, or the template cannot be filled with the values. |
| Respond.WrongArgsCases | src/commands.rs:126-162 | For an admitted invocation the same three cases, and only they, give WrongArgs. |
| Respond.CustomAnswerFillsBindings | src/commands.rs:126-160 | A custom answer to a command with declared arguments means three things: the invocation was admitted, every argument accepted its binding, and the answer is the template filled with those values. |
| Respond.AdmittedRunIsRecorded | src/commands.rs:106-114 | An admitted run of a command with a cooldown records now for the command, whatever the answer is, even WrongArgs. |
| Respond.RefusedRunLeavesState | src/commands.rs:103-111 | An invocation that is not admitted answers Unknown and leaves the record alone. |
| Respond.WantedIgnoresRole | src/commands.rs:133 | How many tokens an argument binds depends on its type, not its role. |
| Respond.BindingsIgnoreRoles | src/commands.rs:132-139 | Argument lists with the same types bind the same texts, whatever the roles. |
| Respond.ShortageBindsEmpty | src/commands.rs:134-139 | An argument whose turn comes after the tokens ran out is bound to the empty string. |
| Respond.ExcessIgnored | src/commands.rs:130-139 | Tokens beyond those the declared arguments want change no binding. |
| Respond.TwoArgumentScenario | src/commands.rs:130-139 | Arguments wanting 2 and 1 tokens bind "a b c" as "a b" and "c", and "a b" as "a b" and "". |
| Text.SplitWhitespace | src/commands.rs:128 | Every token is non-empty and free of whitespace. |
| Text.SplitWhitespaceWeaves | src/commands.rs:128 | Every text is its tokens woven with whitespace runs: one run before the first token, one between each pair of neighbours and one after the last. The runs between tokens are non-empty; the runs at the ends may be empty. |
| Text.WeaveSplits | src/commands.rs:128 | Conversely, weaving any non-empty whitespace-free tokens with such runs gives a text that splits into exactly those tokens. So the tokens are the maximal whitespace-free runs of the text, and the split is unique. |
| Text.SplitJoinRoundTrip | src/handler/mod.rs:44 | Splitting words joined by single spaces gives the words back. |
| Text.NoWordsIffBlank | src/handler/mod.rs:44-49 | A text has no tokens exactly when it is all whitespace. |
| Text.Trim | src/handler/mod.rs:37 | The trimmed text neither starts nor ends with whitespace, and the original text is the trimmed text with only whitespace before and after it. |
| Schedule.FormatRange | src/settings/mod.rs:81-87 | Equal ends render as one 7-character time with its suffix. Different ends render as a 13-character range around '~'. A '~' appears exactly when the ends differ. |
| Schedule.TimeRoundTrip | src/settings/mod.rs:83 | A rendered time with its am/pm suffix reads back to the hour of the day and the minute. |
| Schedule.FormatRangeRoundTrip | src/settings/mod.rs:81-87 | A rendered range shows the first time on the 12-hour clock without a suffix, and the end time in full. |
| Schedule.SecondsSplitARange | src/settings/mod.rs:82-85 | Ends that differ only in their seconds are rendered as a range of two equal readings. |
| Schedule.DefaultState | src/settings/mod.rs:53-62 | The default state has Saturday and Sunday off, no custom commands and no executions. |
| Schedule.DefaultRendering | src/settings/mod.rs:90-97 | The default schedule renders as "07:00~08:00am" to start and "04:00pm" to finish. |
| LegacySettings.RespondTo | src/settings.rs:50-73 | The cooldown gate decides as in the current generation. A passing run answers with the format text, or Unknown without one. A refused run answers Unknown and changes nothing. |
| LegacySettings.ArgumentsAndSourceIgnored | src/settings.rs:50-56 | The answer depends neither on the argument text nor on the platform. |
| LegacySettings.FormatlessRunIsRecorded | src/settings.rs:57-71 | A command without format that passes its gate still records its execution. |
| LegacySettings.AgreesWithCurrentGeneration | src/settings.rs:50-73 | The current generation answers as this one does and leaves the same record, given a command with no declared arguments, one format for every platform and the default platforms. |
| LegacySettings.RangeRendering | src/settings.rs:159-165 | Equal ends give one time with its suffix. Different ends give the first clock reading, '~' and the end time, which reads back in full. |
| UserHandler.ListCommandNames | src/handler/user.rs:17-35 | The listing has no more names than there are entries. |
| UserHandler.ListedIffLabelled | src/handler/user.rs:17-35 | A name is listed exactly when some entry has it as its label. |
| UserHandler.ListingConcatenates | src/handler/user.rs:17-35 | The listing keeps the iteration order: listing two runs of entries gives the two listings one after the other. |
| UserHandler.LabelShape | src/handler/user.rs:21-31 | A label starts with the entry's name. It is the bare name unless the entry is a custom command with aliases, which shows as "name (or a, b)". |
| UserHandler.HiddenIffDisabled | src/handler/user.rs:21-32 | Exactly the disabled switches are left out of the listing. |
| UserHandler.CommandsResponse | src/handler/user.rs:12-15 | The commands response always succeeds, and it names exactly the labelled entries. |
| UserHandler.LinksResponse | src/handler/user.rs:37-43 | Both platforms get the configured links unchanged. |
| UserHandler.WeekdayNameRoundTrip | src/handler/user.rs:57-65 | Weekday names are distinct, and each reads back to its day. Only the seven names name a day. |
| UserHandler.ScheduleResponse | src/handler/user.rs:45-70 | The schedule response carries the rendered start and finish, and one name per off day in iteration order, each naming its day. |
| UserHandler.ScheduleNamesOffDays | src/handler/user.rs:53-68 | Whatever the set's iteration order, every off day is named once and nothing else is named. |
| UserHandler.CrateLink | src/handler/user.rs:81 | The link is the lib.rs crates prefix followed by the crate name. |
| UserHandler.CrateResponse | src/handler/user.rs:77-97 | 200 OK gives the lib.rs link and 404 says the crate does not exist. Any other status, or a failed request, gives no text. |
| UserHandler.BanResponse | src/handler/user.rs:72-75 | The ban names its target as given. |
| UserHandler.Find | src/handler/user.rs:108-122 | The lookup finds the first entry in iteration order that answers to the name, or none. |
| UserHandler.CustomResponse | src/handler/user.rs:99-134 | A name without '!' is unknown, and so is one that no entry answers to. Otherwise the first answering entry decides: a switch is unknown, a message is answered, and a custom command responds under its configuration key. |
| UserHandler.OnlyMatchIsFound | src/handler/user.rs:108-122 | An entry that alone answers to the name is found wherever it sits in the iteration order. |
| UserHandler.AliasEqualToKeyAnswersAll | src/handler/user.rs:112-118 | As written, an entry with an alias equal to its own key answers to every typed name. |
| UserHandler.AliasUnreachableAsWritten | src/handler/user.rs:108-122 | As written, "!hello" does not reach the only command "hi", aliased "hello". The corrected lookup answers it. |
| UserHandler.AliasRunsUnderKey | src/handler/user.rs:123-126 | With the corrected lookup, typing an alias runs its command under the configuration key, so aliases share the key's cooldown record. |
| Dispatch.SplitCommand | src/handler/mod.rs:25-30 | The command word holds no whitespace. There is a remainder exactly when the message contains whitespace, and the message is the word, one whitespace character and the remainder. |
| Dispatch.RouteUser | src/handler/mod.rs:32-39 | A crate lookup gets the remainder and a ban the trimmed remainder. Everything else goes to the custom lookup under the lowercased word, with the remainder. |
| Dispatch.CrateAndBanNeedRemainder | src/handler/mod.rs:36-37 | "!crate" and "!ban", in any ASCII case, reach their handlers exactly when a remainder follows the command word. |
| Dispatch.CommandsAlone | src/handler/mod.rs:33 | "!commands" is answered exactly when the whole message lowercases to it. |
| Dispatch.LinksAlone | src/handler/mod.rs:34 | "!links" is answered exactly when the whole message lowercases to it. |
| Dispatch.ScheduleAlone | src/handler/mod.rs:35 | "!schedule" is answered exactly when the whole message lowercases to it. |
| Dispatch.TrailingSpaceIsCustom | src/handler/mod.rs:25-38 | "!commands" followed by whitespace goes to the custom lookup with an empty remainder. |
| Dispatch.SplitAtSpace | src/handler/mod.rs:25-27 | A whitespace-free word, one whitespace character and any text split into the word and exactly that text as the remainder. |
| Dispatch.HandleUser | src/handler/mod.rs:20-40 | Built-in handlers leave the execution record alone. A custom command answers as the lookup is written: each alias is compared with its own entry's key. |
| Dispatch.ListingMessages | src/handler/mod.rs:32-35 | A message that is "!commands", "!links" or "!schedule" alone, in any ASCII case, gets the command list, the links or the schedule in the set's weekday order, and leaves the execution record alone. |
| Dispatch.OneWordIsCustom | src/handler/mod.rs:25-38 | A message without whitespace that is not a listing word goes to the lookup as written, under the lowercased message and without arguments. |
| Dispatch.WordWithArgumentsIsCustom | src/handler/mod.rs:25-38 | A word, a whitespace character and a remainder go to the lookup as written, under the lowercased word with that remainder as arguments, unless the word is "!crate" or "!ban". |
| Dispatch.RouteAdmin | src/handler/mod.rs:43-72 | Routing an admin message fails exactly when the message is all whitespace. The custom-commands handler is handed the whole message. |
| Dispatch.RouteAdminOfWords | src/handler/mod.rs:44-58 | Words joined by spaces are routed on the lowercased first word and the words after it. |
| Dispatch.AdminRouting | src/handler/mod.rs:58-72 | Each admin handler is chosen exactly by its command word and word count. "!help" takes 0 more words, "!off_days" exactly 2, "!custom_commands list" exactly 1, "!schedule set" at least 4, and other "!custom_commands" forms at least 3. |
| Dispatch.AdminIgnoresExtraWords | src/handler/mod.rs:52-72 | Words after the fifth never change which handler an admin message goes to, nor the words it is given. Only the custom-commands handler sees them, through the whole message it is handed. |
| Listing.FoldIsJoin | src/twitch.rs:150-162 | The adapters' enumerated fold appends the entries, joined by the separator, to its start. |
| Listing.PrefixedJoin | src/twitch.rs:127 | A leading "!" and the separator ", !" give the same text as prefixing each name with "!" and joining with ", ". |
| Listing.ExceptAsWritten | src/twitch.rs:178-194 | The off-days sentence aborts exactly on an empty list, because the last index underflows. |
| Listing.ExceptSeveral | src/twitch.rs:178-194 | With two or more days, the sentence is every day but the last joined by ", ", then " and " and the last day. |
| Listing.ExceptSingleAsWritten | src/twitch.rs:178-194 | A single day, being also the last, is written after " and ". |
| Listing.EntryLines | src/twitch.rs:150-162 | Both adapters' link lists are the "name, separator, url, closing text" entries joined by the adapter's separator. No links give the empty text. |
| Listing.ExceptAsWrittenClosedForm | src/twitch.rs:178-194 | For every non-empty list the sentence as written is "Every day, except " and then all days but the last joined by ", ", " and " and the last day. A single day keeps the " and " in front of it. |
| Listing.ExceptClosedForm | src/twitch.rs:178-194 | The corrected sentence lists a single day alone and longer lists as "A, B and C". |
| TwitchReplies.CommandsReply | src/twitch.rs:126-132 | A failed listing gives the apology. An empty listing still gets the leading '!': "Available commands: !". |
| TwitchReplies.CommandsListed | src/twitch.rs:127 | The listing line names each command behind a '!', separated by ", ", after "Available commands: ". |
| TwitchReplies.LinksReply | src/twitch.rs:150-162 | The links line is every "name: url" entry, separated by a space, a vertical bar and a space. No links give an empty line. |
| TwitchReplies.Days | src/twitch.rs:178-194 | The corrected off-days text aborts exactly on no days, gives "Every day, except D" for one day, and is as written for two or more. |
| TwitchReplies.SingleDayAsWritten | src/twitch.rs:178-194 | One off day is written "Every day, except  and D", and the corrected text is "Every day, except D". |
| TwitchReplies.ScheduleReply | src/twitch.rs:178-200 | The schedule line aborts exactly on no off days. Otherwise it is the off-days text as written, the start and finish times and "Timezone CET", separated by a space, a vertical bar and a space. |
| TwitchReplies.ScheduleClosedForm | src/twitch.rs:178-200 | For every non-empty list of off days the line is "Every day, except A, B and C", "Starting around S, finishing around F" and "Timezone CET" joined as above. A single day D gives " and D" after "except ". |
| TwitchReplies.ReplyCases | src/twitch.rs:85-118 | Admin responses, unknown commands, wrong arguments, crate lookups and bans get no line. A schedule without off days aborts. A custom answer is sent verbatim, and links as their joined line. |
| DiscordReplies.CommandsReply | src/discord/user.rs:12-40 | The list is the fixed header followed by each name as "`!name`", separated by ", ". A failed listing gives the apology. |
| DiscordReplies.NoCustomCommands | src/discord/user.rs:14-25 | With no custom commands the list is the header alone. |
| DiscordReplies.LinksReply | src/discord/user.rs:50-72 | The links text is every "name: <url>", one per line. |
| DiscordReplies.Days | src/discord/user.rs:81-99 | The corrected off-days field aborts exactly on no days. It gives "Every day, except **D**" for one day, and the as-written text for two or more. |
| DiscordReplies.SingleDayAsWritten | src/discord/user.rs:81-99 | One off day is written "Every day, except  and **D**", and the corrected text is "Every day, except **D**". |
| DiscordReplies.ScheduleReply | src/discord/user.rs:81-115 | The schedule message aborts exactly on no off days. Otherwise it carries the fixed intro and the fields Days (the off-days text as written), Time (bold start and finish) and Timezone "CET", in that order. |
| DiscordReplies.ScheduleClosedForm | src/discord/user.rs:81-115 | For every non-empty list of off days the Days field is "Every day, except **A**, **B** and **C**". A single day D gives " and **D**" after "except ". The Time field is "starting around **S**, finishing around **F**". |
| DiscordReplies.CrateReply | src/discord/user.rs:119-134 | A found text is sent as is, and a failed lookup gives the apology. |
| DiscordReplies.CrateLookupReply | src/discord/user.rs:119-126 | On Discord a crate lookup says one of three things: the lib.rs link on 200, that the crate does not exist on 404, or the apology for any other status or a failed request. |

## Left out

- Sending and receiving messages, the async runtime, locking, logging, and the platform clients: the model computes the response and the reply text only.
- src/handler/admin.rs (the admin handlers) and src/discord/mod.rs (Discord's routing) are not part of this model. Admin routing stops at the chosen handler, its words and, for the custom-commands handler, the whole message.
- Loading and saving the configuration and state (TOML and JSON files, serde defaults), and the platform login records of the configuration.
- The template filler `SimpleCurlyFormat` and the HTTP client are not modelled. They are the `fill` and `fetch` parameters.
- The clock is read twice per gated run in the source and once (`now`) in the model. The two readings differ only by the time between them.
- chrono's date arithmetic cannot overflow in the model, because instants are unbounded integers.
- The exact Debug printout of regex captures (`println!`) is output only and is not modelled.
- Dispatch.RouteUser: lowercases ASCII letters only. Rust's `to_lowercase` also folds other Unicode letters.
- Listing.ExceptAsWritten: an empty off-day list underflows `len() - 1`. The model takes the debug-build abort; a release build would wrap and print "Every day, except " alone.
- Schedule.FormatRange: times carry hours, minutes and seconds only. chrono's `NaiveTime` also has a nanosecond part, and the source's equality test of the two ends compares it too. So ends that differ only below the second render as a range in the source and as one time here.
- TwitchReplies.Reply: the Twitch adapter has no arm for crate lookups and bans, so the model gives them no reply.
- The Discord `custom` reply sends its content verbatim. It is an identity on the text and is not modelled separately.
- The earlier generation's state and schedule (src/settings.rs:120-175) are the same as the current ones and are modelled once, in `Schedule`.

## Findings

| source | as written | input that shows it | evidently intended | confidence | as-written member | corrected member |
|---|---|---|---|---|---|---|
| src/handler/user.rs:112-118 | an alias is compared with the entry's own key (`a.eq_ignore_ascii_case(key)`) | only entry "hi" with alias "hello"; message "!hello" | an alias is compared with the typed name, so "!hello" runs "hi" | not executed; high | UserHandler.AliasUnreachableAsWritten | UserHandler.AliasRunsUnderKey |
| src/twitch.rs:178-194 | the last day always gets " and " in front, even when it is also the first | off days ["Sunday"] gives "Every day, except  and Sunday" | "Every day, except Sunday" | not executed; high | TwitchReplies.SingleDayAsWritten | TwitchReplies.Days |
| src/discord/user.rs:81-99 | the same fold with bold days | off days ["Sunday"] gives "Every day, except  and **Sunday**" | "Every day, except **Sunday**" | not executed; high | DiscordReplies.SingleDayAsWritten | DiscordReplies.Days |
