# Config channel ingestion, modelled in Dafny

The bot reads its configuration from a chat channel. A moderator posts a
markdown message with three sections ("our bot config", "channel pruning",
"member inactivity"). The bot parses that text into a `Config` of channel
pruning policies, validates it, caches the last valid one, and reloads when a
moderator posts a new message. This project models that ingestion path and
proves its contracts:

- `wrappers.dfy`, module `Wrappers`: `Option` and `Result`. An exception the
  parser raises becomes an `Err`. An exception the validators raise becomes a
  `Fail` outcome of `Validation.Validate`, and `ConfigChannels.Load` turns that
  into `Err(ValidationFailed(..))`.
- `text.dfy`, module `Text`: the string operations the parser relies on.
  `strip`, `lower`, `split()` with `" ".join`, and `split("\n")` are written
  out over ASCII whitespace and ASCII letters. `split()` with `" ".join` and
  `split("\n")` with `"\n".join` have round-trip lemmas. `strip` and its two
  halves have lemmas saying what they cut and what they keep. `lower` has
  lemmas saying it distributes over concatenation, is idempotent and ignores
  letter case.
- `config_models.dfy`, module `ConfigModels`: the two frozen dataclasses of
  `models/config.py`.
- `validation.dfy`, module `Validation`: `_validate_config` and its two
  helpers. The two loops with their `seen` set are a `method`, proved equal to
  the function `Validate`, and the error-order properties are lemmas.
- `config_parsing.dfy`, module `ConfigParsing`: `_ConfigParser` with
  `_LineType` and `_NormalizedLine`. The steps are line normalization, the
  section map (a loop, as documented), bullet splitting in document order,
  channel-mention extraction, the member-inactivity field check, "N day(s)"
  parsing and the two section parsers.
- `config_channels.dfy`, module `ConfigChannels`: the `ConfigChannel` class.
  It has two mutable fields. `latestValidConfig` is the source's cached
  config. `events` records the requests and messages sent to the outside
  world: hot reload requests, success messages and error replies. Its methods
  are `get_config`, `load_latest_config` and `handle_possible_config_update`.

The parser's bodies in the source are TODO comments. The model takes its
steps in the order those comments list them, and the section and field names
are the source's constants. Where the comments leave a detail open, the model
settles it as follows:
- A line is a heading when its stripped text is a run of `#` followed by
  whitespace or the end of the line.
- A line is a bullet item when its stripped text is `-` or `*` followed by
  whitespace or the end of the line.

These are markdown's rules. So "#tag", "**Note**" and "---" are ignored. Three capabilities are parameters, not
modelled behaviour: the test for html-like tags, the lookup of a channel by its
id, and the resolver that turns a role mention into an id and a name.

A line is rejected when its stripped text contains "```" anywhere, as
channels/config_channel.py:197 says ("found"), not only when it begins with one.

## Model

| member | source | states |
|---|---|---|
| ConfigModels.PolicyEquality | models/config.py:12-16 | two policies are equal exactly when their name, id and day count are equal (frozen dataclass equality) |
| ConfigModels.ConfigEquality | models/config.py:7-9 | two configs are equal exactly when their policy lists have the same length and equal elements in order |
| Validation.CheckPolicy | channels/config_channel.py:122-131 | a policy is accepted exactly when its id and its days are positive; a non-positive id is reported before non-positive days, each with the offending value |
| Validation.FirstBadFrom | channels/config_channel.py:105-111 | the index found is the first policy at or after the start that fails its own checks, or there is none |
| Validation.FirstRepeatFrom | channels/config_channel.py:113-120 | the index found is the first policy whose id occurs among the policies before it, or there is none |
| Validation.NoRepeatIffDistinct | channels/config_channel.py:113-120 | the `seen`-set scan finds no repeat exactly when the ids are pairwise distinct |
| Validation.Validate | channels/config_channel.py:104-131 | the verdict on a policy list: the first policy failing its own checks, else the first repeated id, else a pass; specified by `ValidateSucceedsIff`, `FirstBadPolicyReported` and `LaterDuplicateReported` |
| Validation.ValidateSucceedsIff | channels/config_channel.py:104-131 | validation passes exactly when every id and every day count is positive and the ids are pairwise distinct, so the empty list passes |
| Validation.FirstBadPolicyReported | channels/config_channel.py:105-111 | the first policy in list order that fails its own checks decides the error, whatever duplicates the list also holds |
| Validation.LaterDuplicateReported | channels/config_channel.py:113-120 | with all policies accepted and the first `j` ids distinct, a policy at `j` that repeats an earlier id is reported by its own (the later) id and name |
| Validation.FirstRepeatSameIds | channels/config_channel.py:113-120 | the repeat scan depends on the ids alone |
| Validation.DuplicateCheckIgnoresDays | channels/config_channel.py:113-120 | two lists of accepted policies with the same ids and names in the same order get the same verdict, whatever their days |
| Validation.ValidateChannelPruningPolicies | channels/config_channel.py:104-120 | the two loops and the `seen` set compute `Validate`'s verdict, which passes exactly when all values are positive and the ids are distinct |
| Validation.ValidateConfig | channels/config_channel.py:91-101 | validating a config is validating its policy list; it passes exactly when the config is valid |
| Text.TrimStartIsSuffix | channels/config_channel.py:191 | stripping from the left removes a whitespace prefix and keeps the rest unchanged |
| Text.TrimEndIsPrefix | channels/config_channel.py:191 | stripping from the right removes a whitespace suffix and keeps the rest unchanged |
| Text.StripIsInfix | channels/config_channel.py:191 | `strip` keeps an infix of its input, cutting only whitespace from either end, and its result neither starts nor ends with whitespace |
| Text.StripPadded | channels/config_channel.py:191 | whitespace padding around a stripped string is exactly what `strip` removes |
| Text.LowerConcat | channels/config_channel.py:195 | lower-casing distributes over concatenation |
| Text.Lower | channels/config_channel.py:195 | the result has the input's length, and each character is that character lower-cased |
| Text.LowerOfLower | channels/config_channel.py:195 | lower-casing a lower-case string changes nothing |
| Text.LowerIgnoresCase | channels/config_channel.py:195 | upper-casing before lower-casing changes nothing, and the result holds no upper-case letter: headings are compared case-insensitively |
| Text.IndexOf | channels/config_channel.py:212 | the index found holds the character and is its first occurrence; there is none exactly when the character does not occur |
| Text.WordsOfJoin | channels/config_channel.py:258 | splitting words joined by single spaces gives back the words |
| Text.WordsSkipSpace | channels/config_channel.py:258 | leading whitespace does not change the words of a string |
| Text.WordsOfLower | channels/config_channel.py:257-258 | the words of a lower-case string are lower case |
| Text.JoinSplitLines | channels/config_channel.py:187-188 | joining the split lines with newlines gives back the text |
| Text.SplitJoinLines | channels/config_channel.py:187-188 | splitting newline-joined lines that hold no newline gives back the lines |
| Text.NumeralOfNat | channels/config_channel.py:238-239 | the decimal numeral written for a count reads back as that count |
| ConfigParsing.DropHashes | channels/config_channel.py:196 | the heading marks are removed, and what is left does not start with `#` |
| ConfigParsing.NormalizeLine | channels/config_channel.py:190-197 | a line is rejected exactly when its stripped text holds a code fence or a tag, the code fence reported first, with line number and raw text; otherwise it is kept exactly when it is a markdown heading (a `#` run, then whitespace or the end) or bullet item (`-` or `*`, then whitespace or the end), a heading exactly in the first case, with lower-case heading text |
| ConfigParsing.BulletItemKept | channels/config_channel.py:193-194 | a `-` or `*` marker, whitespace and an item give a bullet whose text is the item |
| ConfigParsing.MarkerWithoutSpaceIgnored | channels/config_channel.py:192-194 | a `#`, `-` or `*` that is not followed by whitespace starts no heading or bullet item, so the line is ignored |
| ConfigParsing.HashRunWithoutSpaceIgnored | channels/config_channel.py:192-196 | a `#` run of any length that is not followed by whitespace starts no heading ("##tag"), so the line is ignored |
| ConfigParsing.NonMarkdownLinesIgnored | channels/config_channel.py:192-194 | "#tag", "**Note**" and "---" are ignored, not read as a heading or bullets |
| ConfigParsing.DropHashesOf | channels/config_channel.py:196 | any number of `#` marks before a title is removed |
| ConfigParsing.HeadingLevelAndCaseIgnored | channels/config_channel.py:195-196 | any heading level, any whitespace after the marks and any letter case give the same lower-case heading text |
| ConfigParsing.CollectFrom | channels/config_channel.py:187-197 | gathering the per-line outcomes succeeds exactly when no line is rejected, reports the first rejected line's error, and otherwise yields the kept lines |
| ConfigParsing.KeptFromSource | channels/config_channel.py:187-188 | every kept line carries the number of the line it came from |
| ConfigParsing.KeptFromIncreasing | channels/config_channel.py:187-188 | kept lines come in increasing line-number order |
| ConfigParsing.KeptFromComplete | channels/config_channel.py:192-194 | no heading or bullet line is lost |
| ConfigParsing.CollectLinesSucceedsIff | channels/config_channel.py:187-197 | gathering the outcomes of a list of lines succeeds exactly when no line holds a code fence or an html-like tag |
| ConfigParsing.CollectLinesReportsFirstOffence | channels/config_channel.py:197 | a rejected list of lines reports the first offending line, by its number and raw text |
| ConfigParsing.NormalizeLines | channels/config_channel.py:187-197 | splitting the text into numbered lines and normalizing each; specified by `NormalizeLinesSucceedsIff`, `NormalizeLinesReportsFirstOffence` and `NormalizeLinesKeepsMarkedLines` |
| ConfigParsing.NormalizeLinesSucceedsIff | channels/config_channel.py:197 | normalization succeeds exactly when no line of the text holds a code fence or an html-like tag |
| ConfigParsing.NormalizeLinesReportsFirstOffence | channels/config_channel.py:197 | a rejected text reports the first offending line, by its number and raw text |
| ConfigParsing.NormalizeLinesKeepsMarkedLines | channels/config_channel.py:187-197 | a normalized text holds exactly its heading and bullet lines, in document order, each as normalizing that line alone gives it |
| ConfigParsing.HeadingKeyOfNormalized | channels/config_channel.py:195-203 | the section map's lower-casing of a section name changes nothing on a heading normalization produced |
| ConfigParsing.FirstBadHeadingFrom | channels/config_channel.py:205-207 | the index found is the first heading that names an unknown section or one already opened, or there is none |
| ConfigParsing.SectionMapOf | channels/config_channel.py:199-208 | the section map as a function of the lines: the first unknown or repeated heading, then the missing sections, else each required section's bullets; specified by `SectionMapSucceedsIff` and `SectionLinesWithoutHeading`, and computed by `BuildSectionMap` |
| ConfigParsing.SectionMapSucceedsIff | channels/config_channel.py:199-208 | the section map is built exactly when every heading names a required section and each required section has exactly one heading |
| ConfigParsing.SectionLinesWithoutHeading | channels/config_channel.py:199-200 | a section without a heading holds no bullets |
| ConfigParsing.HeadingStep | channels/config_channel.py:199-207 | a heading for a required section not yet opened opens an empty list for it and makes it the current section, keeping the scan's invariant |
| ConfigParsing.BulletStep | channels/config_channel.py:199-200 | a bullet is appended to the current section, if there is one, keeping the scan's invariant |
| ConfigParsing.BadHeadingStops | channels/config_channel.py:205-207 | a heading naming an unknown section, or one already opened, is the error of the whole map |
| ConfigParsing.ScanFinishes | channels/config_channel.py:205-208 | once every line is scanned, the map is the result unless a required section is missing, and then the missing ones are reported |
| ConfigParsing.BuildSectionMap | channels/config_channel.py:199-208 | the documented scan (current section, a new list at each heading, each bullet appended to the current section) yields `SectionMapOf`'s map or error: the first unknown or duplicate heading, then the set of missing sections |
| ConfigParsing.SplitBullet | channels/config_channel.py:210-215 | a bullet without `=` is malformed; otherwise the key holds no `=`, and key and value are stripped |
| ConfigParsing.SplitBulletRoundTrip | channels/config_channel.py:210-215 | a bullet written as key, whitespace, `=`, whitespace, value splits back into that key and value, with later `=` signs kept in the value |
| ConfigParsing.FirstMalformedFrom | channels/config_channel.py:215 | the index found is the first bullet at or after the start without `=`, or there is none |
| ConfigParsing.SplitBullets | channels/config_channel.py:210-215 | splitting a section succeeds exactly when every bullet holds `=`, keeps one split per bullet in order, and otherwise reports the first malformed bullet |
| ConfigParsing.NormalizeFieldName | channels/config_channel.py:256-258 | lower-case the key and rejoin its words with single spaces; specified by `NormalizeFieldNameWords`, `NormalizeFieldNameIdempotent` and `NormalizeTwoWordFieldName` |
| ConfigParsing.NormalizeFieldNameWords | channels/config_channel.py:256-258 | a normalized field name is lower case and has the same words as the lower-cased key |
| ConfigParsing.NormalizeFieldNameIdempotent | channels/config_channel.py:256-258 | normalizing a normalized field name changes nothing |
| ConfigParsing.NormalizeTwoWordFieldName | channels/config_channel.py:256-260 | for a two-word name, case is dropped and the whitespace run between the words becomes one space ("Active   Role" to "active role") |
| ConfigParsing.FieldMap | channels/config_channel.py:253-254 | the dictionary's keys are the normalized field names, and each entry is one of the bullets with that name |
| ConfigParsing.FieldMapKeepsLast | channels/config_channel.py:253-254 | a repeated field name keeps its last bullet |
| ConfigParsing.FirstUnknownFieldFrom | channels/config_channel.py:264 | the index found is the first bullet whose field name is not a member-inactivity field, or there is none |
| ConfigParsing.CheckMemberActivityFields | channels/config_channel.py:262-264 | on success the dictionary holds exactly the three fields, each with one of its bullets; every failure is a missing or an unknown field |
| ConfigParsing.MemberActivityFieldsAccepted | channels/config_channel.py:262-264 | the field check passes exactly when the set of normalized names equals the three member-inactivity fields |
| ConfigParsing.MissingFieldsReported | channels/config_channel.py:263 | a missing field is reported, with all missing names, before any unknown field |
| ConfigParsing.UnknownFieldReported | channels/config_channel.py:264 | with all fields present, the first bullet in document order with an unknown name is reported |
| ConfigParsing.ParseDays | channels/config_channel.py:238-239 | a day count is read only from a numeral followed by "day" or "days", in any letter case |
| ConfigParsing.ParseDaysOf | channels/config_channel.py:238-239 | any numeral (leading zeros included), a whitespace gap and "day" or "days" in any letter case, with any whitespace padding, reads as the numeral's value |
| ConfigParsing.ParseDaysRoundTrip | channels/config_channel.py:238-239 | "N day" or "N days", in any letter case, reads back as N |
| ConfigParsing.ChannelMention | channels/config_channel.py:237 | an id is extracted only from a key of the form `<#digits>`, and it is the digits' value |
| ConfigParsing.ChannelMentionOf | channels/config_channel.py:237 | every `<#digits>` key is a channel mention whose id is the digits' value |
| ConfigParsing.ChannelMentionRoundTrip | channels/config_channel.py:237 | a channel id written as `<#id>` is extracted back |
| ConfigParsing.ParsePruningBullet | channels/config_channel.py:235-243 | a pruning bullet becomes a policy exactly when its key is a channel mention, its value is a day count and the mentioned channel is found; the policy holds the channel's id and name and the count; errors come in the documented order: malformed mention, then malformed days, then unknown channel |
| ConfigParsing.FirstUnparsedFrom | channels/config_channel.py:235-246 | the index found is the first pruning bullet at or after the start that does not parse, or there is none |
| ConfigParsing.ParseChannelPruningSection | channels/config_channel.py:230-246 | one policy per bullet in order, exactly when every bullet parses; otherwise the first failing bullet's error |
| ConfigParsing.ReadMemberActivityFields | channels/config_channel.py:266-270 | a policy is read exactly when both role mentions resolve and the day count parses; errors come in the order active role, inactive role, day count, each naming its bullet; the values come from the three fields' bullets |
| ConfigParsing.ParseMemberActivitySection | channels/config_channel.py:248-273 | a failed field check is reported as such; a passed one hands its dictionary to the field reader, and on success both roles and the day count come from the bullets named by the three fields |
| ConfigParsing.Parse | channels/config_channel.py:162-224 | `parse`: line normalization, the section map, the document-order bullet split, then the section parsers, each step's error winning over the later ones; specified by `ParseReportsLineErrorsFirst`, `ParseReportsSectionErrors`, `FirstMalformedBulletReported`, `PruningErrorReported`, `MemberSectionErrorReported`, `ParsedMemberSectionAccepted` and `ParsePoliciesFollowPruningBullets` |
| ConfigParsing.ParseReportsLineErrorsFirst | channels/config_channel.py:187-197 | a code fence or tag anywhere in the text is reported before any section error |
| ConfigParsing.ParseReportsSectionErrors | channels/config_channel.py:199-208 | a document whose headings are not the three sections once each is rejected with the section map's error |
| ConfigParsing.FirstMalformedSectionedBullet | channels/config_channel.py:210-215 | splitting the bullets that lie under a heading reports the first one in document order without `=` |
| ConfigParsing.FirstMalformedBulletReported | channels/config_channel.py:199-215 | once the section map is built, the first bullet in the document without `=` is the parse error, whichever section holds it |
| ConfigParsing.SectionBulletsSplit | channels/config_channel.py:199-215 | every bullet of a section is a bullet under a heading, so it holds `=` when all of those do |
| ConfigParsing.SectionSplitsSucceed | channels/config_channel.py:210-221 | once every bullet under a heading has been split, the split of the channel-pruning and member-inactivity sections cannot fail |
| ConfigParsing.ParseSections | channels/config_channel.py:217-221 | the two section parsers on their sections' bullets, channel pruning first, giving the Config of pruning policies; specified by `SectionsParseOrder` and `ParseSectionsPolicies` |
| ConfigParsing.SectionsParseOrder | channels/config_channel.py:217-221 | once the bullet split has passed, both sections' splits succeed, and the section step is the channel-pruning parser, then the member-inactivity parser, with the first error as the result and the pruning policies as the Config |
| ConfigParsing.ParseSectionsPolicies | channels/config_channel.py:217-221 | a parsed config holds one policy per channel-pruning bullet, in order |
| ConfigParsing.ReachedSectionsParse | channels/config_channel.py:162-224 | for a document whose lines, section map and bullet split passed, the parse is the channel-pruning parser, then the member-inactivity parser, each on its own section's split bullets |
| ConfigParsing.PruningErrorReported | channels/config_channel.py:217-219 | with the earlier steps passed, a failing channel-pruning section is the parse error, whatever the member-inactivity section holds |
| ConfigParsing.MemberSectionErrorReported | channels/config_channel.py:248-273 | with the channel-pruning section parsed, a failing member-inactivity section (missing or unknown field, unresolved role, bad day count) is the parse error |
| ConfigParsing.ParsedMemberSectionAccepted | channels/config_channel.py:248-273 | a parsed document's member-inactivity bullets all split, and the member-inactivity parser accepts them |
| ConfigParsing.ParsePoliciesFollowPruningBullets | channels/config_channel.py:162-224 | a parsed config comes from a document with each section heading exactly once, and holds one policy per channel-pruning bullet, in document order, each from that bullet's key and value |
| ConfigChannels.Load | channels/config_channel.py:47-52 | whatever is loaded passed validation |
| ConfigChannels.LoadOutcome | channels/config_channel.py:43-50 | a config is loaded exactly when there is a message text, it parses and the result is valid, and it is the parsed config; otherwise the missing text, the parse error or the validation error is reported, in that order |
| ConfigChannels.LoadedConfigIsValid | channels/config_channel.py:50-52 | whatever is loaded has positive ids and days and distinct ids |
| ConfigChannels.ConfigChannel.constructor | channels/config_channel.py:19-24 | a new channel has an empty cache and no events |
| ConfigChannels.ConfigChannel.Attempt | channels/config_channel.py:43-50 | parsing then running the validator computes `Load` and changes nothing |
| ConfigChannels.ConfigChannel.LoadStartupConfig | channels/config_channel.py:43-52 | the startup text is loaded; a loaded config is cached, a failure leaves the cache as it was, and no event is recorded |
| ConfigChannels.ConfigChannel.GetConfig | channels/config_channel.py:26-53 | whatever is returned passed validation; a cached config is returned and nothing changes; otherwise the startup text is loaded, and the cache is assigned only when loading succeeds |
| ConfigChannels.ConfigChannel.LoadLatestConfig | channels/config_channel.py:65-85 | on success the config is cached, one hot reload is requested and then one success message is posted; on failure the cache is kept and one error reply is recorded |
| ConfigChannels.ConfigChannel.HandlePossibleConfigUpdate | channels/config_channel.py:55-63 | the result is true exactly for a message in the config channel from a non-bot; any other message changes nothing; a handled one loads the latest message |
| ConfigChannels.GetConfigTwice | channels/config_channel.py:40-41 | once a call has cached a config, the next call returns it whatever candidate it is given |

## Left out

- main.py: client setup, event wiring, the sleep loop and the lock shared by
  sweeps and hot reload are I/O and concurrency, not ingestion logic.
- Discord I/O: scanning the config channel's history, finding the last success
  message, fetching the latest message, posting replies and the success message,
  and calling `request_hot_reload`. The message text these would yield is a
  parameter. The reply, the reload request and the success message (promised by
  the class docstring, channels/config_channel.py:15) are recorded as events.
- ConfigChannels.ConfigChannel.GetConfig: the startup placeholder
  (`config = None`, then validating it) is replaced by a startup text parameter.
  `None` stands for "no message found" and gives `NoCandidate`.
- ConfigChannels.ConfigChannel.LoadLatestConfig: the source body is `pass`.
  The model follows its docstring and TODO lines.
- Discord lookups: finding a channel by id and resolving a role mention are
  parameter functions, which stand in for the Discord client. Channel-mention
  extraction (`<#id>`) is modelled; role-mention extraction and resolution are
  one parameter, as the source lists them as one step.
- The html-like tag test is a parameter. The rule conflicts with the `<#id>`
  mention syntax, and the model does not resolve that conflict.
- Text: `strip` and `split()` treat as whitespace the ten ASCII characters
  `str.isspace()` accepts (tab to carriage return, U+001C to U+001F, and
  space). Non-ASCII whitespace, such as U+0085 and U+00A0, is not modelled.
  `lower` maps ASCII letters only, so Unicode case mapping is not modelled.
- Text.SplitLines: splits on `\n` only, like `str.split("\n")`. It is not
  `str.splitlines()`.
- Exact error message texts: each error carries its kind and identifying
  fields (ids, names, offending value, line), not the formatted string.
- `MemberActivityPolicy` is built by the member-inactivity parser, but it is
  not a field of `Config`, as in models/config.py.
- The docstring example heading `# Bot Config` does not match the constant
  "our bot config"; the model uses the constant.
- Bullets above the first heading belong to no section and are dropped.
- ConfigParsing.NormalizeLine: any number of `#` makes a heading, not only one
  to six as in CommonMark, because the source calls the heading level
  irrelevant. "- - -" and "* * *" are read as bullet items, not as thematic
  breaks.
- ConfigParsing.ParseDays: the source does not say whether leading zeros or a
  sign are accepted; the model accepts any run of ASCII digits.
- Dataclass immutability (`frozen=True`) holds by construction for Dafny
  datatypes, so it needs no lemma.
