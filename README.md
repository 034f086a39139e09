# Witnet price bot, modelled in Dafny

The bot (`app.js`) does two things on one event loop. A ticker loop asks an
exchange feed for the WIT/USDT ticker, and on an answer sets the Discord
presence to `"$<price> (<sign><change>%)"` and stores the price and its change
in two module variables; every round ends with a sleep of the configured
number of minutes (as the timer takes it: a delay outside 1 to 2147483647 ms
becomes 1 ms, so a setting of 0 or fewer minutes, or of 35792 or more, makes
the loop poll back to back). A message handler answers the commands `price`, `links`
and `help` (after a configurable prefix, in channels on an allow-list) and
deletes its reply and the user's message after 30 or 60 seconds.

The model keeps the decisions and texts of that code and replaces every
network call by its outcome:

- `PriceFormat` (`price_format.dfy`): the status text and the `price` reply.
  The change is the feed's raw text plus the outcome of the code's `> 0` and
  `< 0` comparisons (`Positive`, `Negative`, or `Neither` for zero or a text
  that is not a number). Readers of both texts give round trips.
- `PriceTicker` (`price_ticker.dfy`): the loop as a class `Ticker` whose
  fields are the two module variables; `Tick` is one round for one fetch
  outcome (the answer's records, or `null`). Ghost state records the
  outcomes and the events (fetch, set activity, sleep) of every round.
- `Commands` (`commands.dfy`): the early filter, the allow-list scan, the
  parsing of the command word and the choice of reply (`Respond` specifies,
  `HandleMessage` runs the code's steps).
- `EphemeralReply` (`ephemeral_reply.dfy`): the send / timer / delete-reply /
  delete-trigger chain as a class `Chain` stepped by the outcomes of the
  platform calls.
- `Bot` (`bot.dfy`): one message against the ticker's state, through the chain.
- `Strings` (`strings.dfy`): `startsWith`, ASCII lower-casing, `split(',')`
  and `split(/ +/)`.

The model follows the code in three places where a reader might expect
otherwise:

- The "no price yet" check is part of the first filter, so before the first
  successful fetch not even `links` or `help` is answered.
- The trigger is deleted only when deleting the reply succeeded; a failed
  reply deletion ends the chain.
- The sign character is put in front of the raw change text. The feed sends
  a negative change as text starting with `-`, so the bot shows it with two
  minus signs (`"(--2.1%)"`); `NegativeTextShowsTwoMinusSigns` states this.

## Model

| member | source | states |
|---|---|---|
| PriceTicker.Ticker.constructor | app.js:6-18 | both variables start as `null`; the configured interval is the setting in minutes times 60 times 1000 |
| PriceTicker.Ticker.Tick | app.js:33-67 | on `null` nothing is stored and no status is set; on an answer the status is built from the first record and both variables take its `last` and `change_percentage`; the round's events (fetch, set activity, sleep) are recorded where each step happens and the sleep is the configured interval as the timer takes it; the stored pair is the last successful fetch |
| PriceTicker.Ticker.Run | app.js:31-69 | after any run of rounds the stored pair is the last successful fetch of all outcomes so far, or `null` if none succeeded |
| PriceTicker.LastSuccessIsLastFetched | app.js:35-65 | nothing is stored exactly when every fetch failed; otherwise the stored pair is the first record of some successful fetch after which every fetch failed |
| PriceTicker.FailuresKeepSnapshot | app.js:63-65 | failed fetches leave the stored price and change unchanged |
| PriceTicker.StaysInitialized | app.js:61-62 | once a price is stored, later rounds never return to "no price" |
| PriceTicker.TimerDelay | app.js:15 | a timer waits a delay between 1 and 2147483647 ms: the requested one when it lies in that range, otherwise 1 ms |
| PriceTicker.SleepTakesEffectIff | app.js:6-15 | the loop waits the configured interval exactly for settings of 1 to 35791 minutes; any other setting gives a 1 ms sleep |
| PriceTicker.RoundsNeverOverlap | app.js:32-33 | the loop starts with a fetch, each later fetch directly follows a sleep of the same length, the last event is such a sleep, and the fetches are the outcomes one per round in order |
| PriceFormat.Status | app.js:42-51 | the status starts with `$` and the price and ends with `%)`, its length is the price's plus the signed change's plus 5; the full layout is read back by `StatusRoundTrip` |
| PriceFormat.PriceReply | app.js:92-101 | the reply starts with the label `Current price: ` and ends with `%*)`, one character longer when the change has no sign; the full layout is read back by `PriceReplyRoundTrip` |
| PriceFormat.StatusRoundTrip | app.js:42-51 | for a price without a space: the status reads back as `$`, the price, ` (`, the sign character followed by the raw change text, `%)` |
| PriceFormat.PriceReplyRoundTrip | app.js:92-101 | for a price without `*`: the reply reads back as the label, a line break exactly when the change is neither above nor below zero, then the price and the signed change |
| PriceFormat.StatusAgreesWithReply | app.js:44-51 | status and reply carry the same price and the same sign rule applied to the same change text |
| PriceFormat.SignedChangeLayout | app.js:44-50 | for every change: a positive one is shown as `+` then its raw text, a negative one as `-` then its raw text, any other as its raw text alone |
| PriceFormat.SignedChangeLeadIff | app.js:44-50 | when the raw text does not itself start with `+` or `-`: the shown change starts with `+` exactly for a positive change and with `-` exactly for a negative one |
| PriceFormat.UnsignedTextMayLeadWithMinus | app.js:44-50 | without that condition the first character does not tell the sign: `"-0"`, neither above nor below zero, is shown with a leading `-` |
| PriceFormat.NegativeTextShowsTwoMinusSigns | app.js:46-50 | a negative change whose text starts with `-` is shown as `--` |
| PriceFormat.PriceReplyLineBreakIff | app.js:94-101 | for a price and a change text without line breaks: the reply holds a line break if and only if the change has no sign |
| PriceFormat.StatusExamples | app.js:42-51 | changes 3.5, -2.1 and 0 give `(+3.5%)`, `(--2.1%)`, `(0%)`, and the zero reply has the line break |
| Strings.StartsWith | app.js:72 | a text starts with the prefix exactly when it is the prefix followed by some rest |
| Strings.Lower | app.js:89 | lower-casing keeps the length, maps each ASCII capital to its small letter and the KELVIN SIGN to `k`; `LowerIsWordIff` gives what matching a command word means |
| Strings.LowerIsWordIff | app.js:89-91 | a word lower-cases to `price`, `links` or `help` exactly when it spells it with each letter in either case (a `k` also as the KELVIN SIGN) |
| Strings.SplitSpaces | app.js:88 | the first piece is the text before the first space and no piece holds a space |
| Strings.JoinSplitSpaces | app.js:88 | with single spaces, joining the pieces with a space gives the text back |
| Strings.SplitOn | app.js:7 | the first piece is the text before the first comma and no piece holds a comma |
| Strings.JoinSplitOn | app.js:7 | joining the comma-split pieces with commas gives the setting back |
| Commands.Ttl | app.js:115-166 | a reply stays 60000 ms exactly for `links`, 30000 ms for `price` and `help` |
| Commands.PassesFilter | app.js:72 | a message passes exactly when its author is not a bot, a price is stored and it is the prefix followed by some rest |
| Commands.AllowsAllIff | app.js:7 | the allow-list lets every channel through exactly when the setting is empty or starts with a comma |
| Commands.Listening | app.js:74-85 | the scan accepts exactly when the first entry is empty or `"guildId/channelId"` equals some entry |
| Commands.ParseCommand | app.js:88-91 | the command found is the one whose name is the lower-cased first word after the prefix; no command when that word names none |
| Commands.ParseIgnoresCase | app.js:89-91 | a command is found exactly when the first word spells its name in any case |
| Commands.ParseIgnoresArguments | app.js:88-89 | words after the first space do not change the command |
| Commands.LeadingSpaceIsNoCommand | app.js:88-91 | a space right after the prefix gives an empty word and no command |
| Commands.KelvinSignSpellsLinks | app.js:88-119 | `links` written with the KELVIN SIGN for `k` is recognised as `links` |
| Commands.ParseSeesFirstWordOnly | app.js:88-89 | two texts with the same first word name the same command |
| Commands.Respond | app.js:72-170 | no answer to a bot or while no price is stored; an answer comes only from an accepted channel, with its command's delay, and carries the price text exactly for `price`; both directions are in `ReplyMeans` and `ReplyWhenAllowed` |
| Commands.HandleMessage | app.js:72-170 | the handler's answer is the specified one: filter, allow-list, parse, and the reply of the command found |
| Commands.ReplyMeans | app.js:72-170 | a reply implies a non-bot author, a stored price, the prefix, an accepted channel and a matching word; its delay is 60000 for `links` and 30000 otherwise; only `price` replies with the price text |
| Commands.ReplyWhenAllowed | app.js:72-170 | a message passing filter and allow-list whose first word names a command gets that command's reply |
| Commands.NoReplyWithoutPrice | app.js:72 | with no stored price no message is answered, `links` and `help` included |
| Commands.NoReplyBeforeFirstFetch | app.js:17-18 | before any successful fetch no message is answered |
| Commands.AllowAllIgnoresChannel | app.js:75-85 | with the empty first entry the channel makes no difference to the answer |
| Commands.OtherChannelIgnored | app.js:76-82 | with only `G1/C1` listed, a message from `G1/C2` gets no answer |
| EphemeralReply.DeletionsOnceReplyFirst | app.js:103-118 | each message is deleted at most once, the reply first; the reply exactly when the send succeeded, the trigger exactly when the reply's deletion succeeded too |
| EphemeralReply.Chain.constructor | app.js:103 | a chain starts with no timer and no deletion |
| EphemeralReply.Chain.SendSettled | app.js:103-105 | a successful send starts the timer with the command's delay; a failed one ends the chain without deletions |
| EphemeralReply.Chain.TimerFired | app.js:105-106 | the timer firing deletes the reply, and nothing is deleted before it |
| EphemeralReply.Chain.ReplyDeleteSettled | app.js:106-114 | the trigger is deleted only after the reply's deletion succeeded; a failure ends the chain |
| EphemeralReply.Chain.TriggerDeleteSettled | app.js:108-111 | the trigger's deletion outcome ends the chain without a retry |
| EphemeralReply.Send | app.js:103-118 | a whole chain starts the timer exactly when the send succeeds and issues the deletions `Deletions` gives |
| Bot.OnMessage | app.js:71-172 | a message is answered from the ticker's stored pair; a reply starts the timer with its command's delay (30000 or 60000) only if sent, and nothing is answered before the first successful fetch |

## Left out

- The feed request (`requestGateIo`, app.js:20-29) and its logging: each round is given the outcome, the answer's records or `null`.
- The Discord client, login, intents and the `setActivity` call with its `try`/`catch` (app.js:13, 53-59, 174-179): `Tick` returns the status text that would be set; a failure to set it changes nothing the model tracks.
- The embeds of `links` and `help` (app.js:120-130, 149-152): only which command replied and its delay are modelled.
- Real timers and the interleaving of the ticker with message handling (app.js:15, 67, 105, 134, 156): the sleep is an event in the ticker's trace, the deletion timer an explicit step of the chain, and a message is handled against whatever the ticker has stored.
- The numeric coercion of the change text in `> 0` and `< 0` (app.js:44-46, 94-96): the change carries its comparison outcome beside its text.
- `toLocaleString` on the price (app.js:101): the feed sends the price as text, on which it returns the text unchanged; a numeric price and locale formatting are not modelled.
- `toLocaleLowerCase` (app.js:89): the model lower-cases the ASCII capitals and the KELVIN SIGN (U+212A, which lowers to `k` in every locale, so `LIN\u212AS` is answered as `links`) and leaves every other character as it is, where the bot would lower-case other non-ASCII letters too. No other character lowers to ASCII letters only, so which word names a command is the same as in the bot, for a host locale other than Turkish or Azeri (where `I` lowers to a dotless `ı`, so `PRICE` would not match `price`).
- `dotenv` loading, `parseInt` of the interval (a non-number gives `NaN`), and the signal handlers (app.js:4-9, 182-189): the interval is an integer number of minutes and the allow-list setting a string.
- A message outside a guild, whose `guildId` is `null` (app.js:77): guild and channel ids are texts.
- An answer with an empty record list, on which the code throws (app.js:38-39): `Tick` requires a non-empty list.
- PriceTicker.Ticker.Tick: the first record is assumed to carry `last` as text. A `last` of `null` would put the state back to "no price" (so `StaysInitialized` would not hold), and a missing `last` would store `undefined`, which passes the `null` check at app.js:72 and makes the `price` reply throw at app.js:101; neither case is modelled.
- PriceTicker.StaysInitialized: holds under the same assumption that every successful answer's first record carries `last` as text.
- PriceTicker.Ticker.Run: covers a finite number of rounds of the endless loop.
