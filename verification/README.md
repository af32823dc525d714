# Hype-Tracker chat bot: message pipeline model

A Dafny model of the message-processing core of `SimpleTwitchBot`
(`src/simple_bot.py`). The bot reads raw IRC lines from Twitch chat, picks
out chat messages, labels each one's sentiment, keeps the newest 1000 in a
table and reports "hype" metrics over the newest 50. The model covers the
four pure steps of that pipeline:

- **Line classification and parsing** (`IrcParse`, on top of `PyStr`).
  `handle_message` skips lines starting with `PING`, ignores lines without
  `PRIVMSG`, and otherwise cuts out the user name and the text with Python's
  `split` and `strip`. A missing `:` raises `IndexError`, which the bot
  swallows. `PyStr` gives `str.find`, `split(sep)`, `split(sep, 1)`,
  `strip()` (with Python's whitespace set), `startswith`, `in`, and ASCII
  `lower()` their CPython meaning on sequences of Unicode scalar values.
- **Sentiment labelling** (`Sentiment`). The lexicon scorer is a function
  parameter. The label is a three-way partition of the compound score at
  +0.05 and -0.05.
- **Bounded message store** (`MessageStore`). The table is an immutable
  `seq<Row>`. `store_message` appends one row, then keeps the last 1000.
- **Hype metrics** (`Hype`). This is the mean score over the newest 50 rows,
  rounded to three decimals, plus the row count and the per-label counts.
  An empty store has its own result.

`TwitchBot` ties these together as the bot's state (channel and store),
`store_message`, `handle_message`, and a run of `handle_message` over a
sequence of received lines.

Scores are exact `real`s, not floats. The clock reading that
`datetime.now()` provides is a parameter (`Instant`). So is the scorer
(`Scorer = string -> Polarity`, standing for VADER's `polarity_scores`).

Two facts about the code that the model keeps:

- The code accepts an empty user name or text after stripping. It does not
  discard such lines.
- The code has no neutral fallback when the scorer fails. An exception
  raised before `store_message` (src/simple_bot.py:148) drops the line
  (src/simple_bot.py:164-165); one raised after it, in the console output,
  leaves the row stored.

## Model

`PyStr.StartsWith` and `PyStr.Contains` are Python's `startswith` (src/simple_bot.py:126) and `in` (src/simple_bot.py:130) on strings. They are predicates defined directly by slicing, and every contract below is stated with them.

| member | source | states |
|---|---|---|
| `PyStr.Strip` | src/simple_bot.py:139-142 | `strip()` returns the infix of its input that is left after removing only whitespace (Python's `isspace` set) from both ends, and the result has no whitespace at either end |
| `PyStr.StripOfPadded` | src/simple_bot.py:139-142 | the infix is unique: stripping any whitespace padding of an already stripped string gives that string back |
| `PyStr.StripIdempotent` | src/simple_bot.py:139-142 | stripping twice is stripping once |
| `PyStr.Before` | src/simple_bot.py:133-135 | `split(sep)[0]` is a prefix of the string that ends exactly where the first occurrence of `sep` starts, or the whole string when `sep` does not occur |
| `PyStr.Find` | src/simple_bot.py:133 | `find` returns -1 exactly when the separator does not occur, and otherwise the index of its first occurrence |
| `PyStr.Split` | src/simple_bot.py:133-139 | `split(sep)` yields at least one piece, and more than one exactly when `sep` occurs; piece 0 is the text before the first occurrence, and piece 1 is the text between the first and the second occurrence (or the end) |
| `PyStr.SplitJoin` | src/simple_bot.py:133 | joining the pieces with the separator gives back the original string |
| `PyStr.SplitPiecesAreFree` | src/simple_bot.py:133 | no piece of a split contains the separator |
| `PyStr.SplitOnce` | src/simple_bot.py:142 | `split(sep, 1)` yields two pieces exactly when `sep` occurs: the text before and the text after its first occurrence; otherwise it yields the whole string |
| `PyStr.ContainsAcross` | src/simple_bot.py:130 | a separator occurs in `x + c + y` (for a character `c` not in it) exactly when it occurs in `x` or in `y` |
| `PyStr.Lower` | src/simple_bot.py:11 | lower-casing keeps the length, leaves no upper-case ASCII letter, maps each upper-case ASCII letter to its lower-case form, and keeps every other character |
| `PyStr.LowerIdempotent` | src/simple_bot.py:11 | lower-casing an already lower-cased channel name changes nothing |
| `Sentiment.LabelOf` | src/simple_bot.py:72-77 | positive exactly when compound >= 0.05, negative exactly when compound <= -0.05, neutral exactly when strictly between; so exactly one label for every score |
| `Sentiment.LabelMonotone` | src/simple_bot.py:72-77 | a higher compound score never gets a lower label |
| `Sentiment.LabelSymmetric` | src/simple_bot.py:72-77 | negating the score mirrors the label (positive and negative swap, neutral stays) |
| `Sentiment.LabelBoundaries` | src/simple_bot.py:72-77 | 0.05 is positive, -0.05 is negative, 0.0 and ±0.049 are neutral |
| `Sentiment.Analyze` | src/simple_bot.py:67-85 | compound, pos, neg and neu pass through from the scorer unchanged; the label is the partition of the compound score |
| `Sentiment.LabelDependsOnlyOnCompound` | src/simple_bot.py:69-85 | two texts with equal compound scores get the same label, whatever their other scores |
| `MessageStore.Last` | src/simple_bot.py:102 | `tail(n)` has length min(len, n) and is the suffix of that length |
| `MessageStore.Append` | src/simple_bot.py:98-102 | after an append the length is min(old + 1, 1000), the new row is last, the rows before it are the newest survivors of the old store in order, and below capacity nothing is evicted |
| `MessageStore.AppendAllKeepsNewest` | src/simple_bot.py:98-102 | any sequence of appends to a store within capacity leaves exactly the newest 1000 rows of old store followed by the new rows, in arrival order |
| `MessageStore.AppendAllBounded` | src/simple_bot.py:98-102 | however many rows are appended, a store within capacity never holds more than 1000 rows |
| `MessageStore.LastOfLastMany` | src/simple_bot.py:102 | cutting to the newest n before appending more does not change the newest n afterwards |
| `Hype.CountPositiveIffPresent` | src/simple_bot.py:116 | a label's count is positive exactly when some row carries it |
| `Hype.CountsCoverRows` | src/simple_bot.py:116 | the three label counts add up to the number of rows |
| `Hype.Breakdown` | src/simple_bot.py:116 | `value_counts().to_dict()` has a key for exactly the labels that occur, each mapped to its count |
| `Hype.Round3` | src/simple_bot.py:119 | `round(x, 3)` is a multiple of 0.001 within 0.0005 of x, and at an exact tie it is the even multiple (round half to even) |
| `Hype.Round3Exact` | src/simple_bot.py:119 | a value already at three decimals is not changed by rounding |
| `Hype.GetHypeMetrics` | src/simple_bot.py:104-122 | an empty store gives hype 0, count 0 and an empty breakdown; otherwise the count is min(len, 50), the breakdown's keys are exactly the labels among the newest min(len, 50) rows, each mapped to the number of those rows carrying it, with positive counts that sum to the count, and the hype is within rounding distance of those rows' mean score |
| `Hype.SumBounds` | src/simple_bot.py:113 | the sum of n scores lies between n times any lower bound and n times any upper bound |
| `Hype.Mean` | src/simple_bot.py:113 | the mean of the window's scores times the number of rows is their sum |
| `Hype.MeanWithinScores` | src/simple_bot.py:113 | the mean score lies between any lower and upper bound of the scores, so between their minimum and maximum |
| `Hype.MetricsDependOnWindowOnly` | src/simple_bot.py:110-121 | two stores with the same newest 50 rows give the same metrics |
| `Hype.OlderRowsIgnored` | src/simple_bot.py:110 | rows older than the newest 50 have no effect on the metrics |
| `Hype.ThreeMessageExample` | src/simple_bot.py:104-122 | scores 0.8, -0.2 and 0.0 give hype 0.2, count 3, and one of each label |
| `IrcParse.ParseLine` | src/simple_bot.py:124-165 | a keep-alive exactly for lines starting with `PING`; "not chat" exactly for other lines without `PRIVMSG`; a chat message exactly when the text before the first `PRIVMSG` and the text between the first and second `PRIVMSG` both hold a `:`; its user name is the stripped piece after the first `:` and before the next `:` (or the end), cut at the first `!`; its text is everything after the first `:` of the message part, stripped; every other line is malformed (the swallowed `IndexError`) |
| `IrcParse.BeforeIsFree` | src/simple_bot.py:133-136 | the text before the first occurrence of a separator never holds it |
| `IrcParse.UserPart` | src/simple_bot.py:133-135 | `parts[0]` is the prefix of the line up to the first `PRIVMSG` (the whole line when there is none), and never holds `PRIVMSG` |
| `IrcParse.MessagePart` | src/simple_bot.py:133-136 | `parts[1]` is the prefix of the text after the first `PRIVMSG` that runs up to the second `PRIVMSG`, or to the end when there is no second one, and never holds `PRIVMSG` |
| `IrcParse.NameFieldCut` | src/simple_bot.py:139 | `split(":")[1].split("!")[0]` on the text after the first `:` is its leading piece up to the first `:` or `!`, or all of it when neither occurs |
| `IrcParse.UsernameOf` | src/simple_bot.py:139 | the user name is the stripped leading piece of the text after the first `:`, running up to the next `:` or `!` (or the end); it holds neither `:` nor `!` and is stripped |
| `IrcParse.ChatFieldsShape` | src/simple_bot.py:133-142 | a parsed user name and text carry no surrounding whitespace, and the text never contains `PRIVMSG` |
| `IrcParse.CutAtChar` | src/simple_bot.py:139-142 | cutting `x + c + y` at a character `c` that is not in `x` gives `x` and `y` |
| `IrcParse.LineAnatomy` | src/simple_bot.py:133-136 | a server line `:nick!ident PRIVMSG #channel :text` is not a keep-alive, holds the marker, has user part `:nick!ident ` and everything after the marker as trailer |
| `IrcParse.UserPartNick` | src/simple_bot.py:139 | the user part of a server line yields exactly the nick |
| `IrcParse.ChatFromParts` | src/simple_bot.py:133-148 | a line with a `:` in both its user part and message part parses to the user name and text read off those parts |
| `IrcParse.ParseLineRoundTrip` | src/simple_bot.py:133-142 | a well-formed server line whose text holds no `PRIVMSG` parses to exactly its nick and its stripped text (so a trailing `\r\n` is dropped) |
| `IrcParse.ParseLineTruncates` | src/simple_bot.py:133-136 | as written, a text `head PRIVMSG tail` is stored as `head` alone |
| `IrcParse.SecondMarkerCut` | src/simple_bot.py:133-135 | the message part `split("PRIVMSG")[1]` ends at a marker inside the text |
| `IrcParse.TextOfPaddedTrailer` | src/simple_bot.py:140-142 | the text cut after the first `:` of the message part and stripped drops the padding space |
| `IrcParse.TruncationExample` | src/simple_bot.py:133-136 | the line `:bob!bob@tv PRIVMSG #chan :hi PRIVMSG there` is stored with text `hi` |
| `IrcParse.ParseLineFixed` | src/simple_bot.py:133-142 | with a single cut at the first `PRIVMSG`, the message part is everything after the first marker; otherwise the same classification and field cuts as `ParseLine` |
| `IrcParse.ParseLineFixedRoundTrip` | src/simple_bot.py:133-142 | the corrected parser returns every well-formed server line's nick and stripped text, whatever the text contains, a trailing `\r\n` included |
| `IrcParse.FixedAgreesOnSingleMarker` | src/simple_bot.py:133-136 | on lines with at most one `PRIVMSG` the parser as written and the corrected one agree |
| `TwitchBot.NewBot` | src/simple_bot.py:10-22 | a new bot has an empty store and its channel name lower-cased: same length, each upper-case ASCII letter replaced by its lower-case form, other characters kept; the default channel is `ninja` |
| `TwitchBot.StoreMessage` | src/simple_bot.py:87-102 | the appended row holds the clock reading, the user name and message as passed, the compound score, the label and the bot's channel; it is last, the store length is min(old + 1, 1000), and the earlier surviving rows are the old newest rows, unchanged |
| `TwitchBot.StoreMessageKeepsValid` | src/simple_bot.py:87-102 | storing keeps the store within capacity, every row in the bot's channel, and every row's label consistent with its score |
| `TwitchBot.Dispatch` | src/simple_bot.py:144-148 | anything but a chat message leaves the bot unchanged; a chat message appends one row with the parsed user name and text, the scorer's compound score and its label, the clock reading and the bot's channel, and keeps the newest older rows |
| `TwitchBot.DispatchChat` | src/simple_bot.py:144-148 | a chat message appends exactly the row it becomes |
| `TwitchBot.HandleMessage` | src/simple_bot.py:124-165 | the channel never changes; a line that does not parse as chat leaves the bot unchanged; a chat line grows the store to min(old + 1, 1000) |
| `TwitchBot.NonChatLinesIgnored` | src/simple_bot.py:126-130 | `PING` lines and lines without `PRIVMSG` leave the bot unchanged |
| `TwitchBot.DispatchKeepsValid` | src/simple_bot.py:144-148 | storing a parsed chat message, or ignoring any other line, keeps the bot valid |
| `TwitchBot.HandleMessageKeepsValid` | src/simple_bot.py:124-165 | handling any line keeps the bot valid |
| `TwitchBot.HandleAll` | src/simple_bot.py:50-53 | the read loop handles each received line in turn: the channel never changes, the store stays within 1000 rows and never shrinks below min(old length, 1000) |
| `TwitchBot.HandleAllKeepsNewest` | src/simple_bot.py:98-102 | after any sequence of received lines, the store is exactly the newest 1000 of the old rows followed by the chat lines' rows, in arrival order, and the bot stays valid |
| `TwitchBot.MetricsSeeNewestChats` | src/simple_bot.py:104-122 | once at least 50 chat lines have arrived, the metrics are those of the newest 50 chat messages alone |

## Left out

- `connect`, `start` and the `running` flag (src/simple_bot.py:25-65, 167-182): the websocket connection, the anonymous login, the channel join, the 300-second receive timeout with its `PING`, and the 5-second reconnect loop are network I/O and scheduling with no state of the pipeline. `TwitchBot.HandleAll` stands in for the read loop's effect on the store. The bot never answers a server `PING` with `PONG`; that belongs to the connection and is not modelled either.
- VADER's lexicon (src/simple_bot.py:5, 16, 69): a foreign library, modelled as the `Scorer` function parameter. A scorer that raises is not modelled; in the code such an exception is swallowed and the line dropped.
- `datetime.now()` (src/simple_bot.py:90): a clock, modelled as the `Instant` parameter.
- Console output and the emoji table (src/simple_bot.py:23, 150-162): display only. The `get_hype_metrics` call at line 151 only feeds that output and changes nothing.
- Floating point: scores, their mean and the rounding are exact reals. pandas' float `mean` and Python's `round` of a binary float can differ from the exact value in the last places.
- `Hype.GetHypeMetrics`: states the hype score to within the rounding distance (0.0005) of the exact mean, not Python's `round` of a binary float. The empty store's hype is the integer `0` in the code and `0.0` here.
- `TwitchBot.NewBot`: lower-cases ASCII letters only. Python's full Unicode `lower()` is not modelled; Twitch channel names are ASCII.
- `PyStr.Lower`: ASCII letters only, for the same reason.
- `TwitchBot.HandleMessage`: its contract states only the length for chat lines. The appended row's fields are stated on `TwitchBot.Dispatch`, which `HandleMessage` applies to the result of `IrcParse.ParseLine`.
- `IrcParse.ParseLineRoundTrip`: holds for lines whose nick, ident and channel hold no `:` and no `PRIVMSG`, whose nick has no `!` and no surrounding whitespace, and whose text holds no `PRIVMSG` (the finding below). Other lines are covered by `IrcParse.ParseLine`'s own contract.
- The DataFrame's columns and dtypes: the store is a `seq<Row>` with one field per column.
- `src/dashboard.py`, `src/simple_dashboard.py` (Streamlit UI, file upload, random sample data, a UI thread reading the table while the bot writes it) and `src/bot.py` (a thin twitchio wrapper with no logic of its own) are not part of this model.

## Findings

| source | as written | input that shows it | evidently intended | confidence | as-written member | corrected member |
|---|---|---|---|---|---|---|
| src/simple_bot.py:133-136 | `split("PRIVMSG")` cuts at every occurrence, and `parts[1]` keeps only the text up to a second `PRIVMSG` | `:bob!bob@tv PRIVMSG #chan :hi PRIVMSG there` is stored with text `hi` | the whole text after the first marker, `hi PRIVMSG there`, as `split("PRIVMSG", 1)` gives | medium; not executed | `IrcParse.ParseLineTruncates` | `IrcParse.ParseLineFixed` |

`IrcParse.TruncationExample` instantiates the as-written lemma on the line
above. `IrcParse.ParseLineFixedRoundTrip` proves that the corrected parser
returns the full text. `IrcParse.FixedAgreesOnSingleMarker` proves that the
two parsers agree on every line with at most one marker. The pipeline in
`TwitchBot` keeps the parser as written. That way it states what the
deployed bot stores, and the corrected parser's difference from it is
exactly the lines with a second marker.
