/**
 The message pipeline of `SimpleTwitchBot`: each raw line received from the
 chat server is classified and parsed, chat messages are scored and appended
 to the bounded store, and everything else leaves the bot as it was.
 */
module TwitchBot {
  import opened PyStr
  import opened Sentiment
  import opened MessageStore
  import opened Hype
  import opened IrcParse

  const DefaultChannel: string := "ninja"

  /** The bot's state: the channel it reads and the stored messages. */
  datatype Bot = Bot(channel: string, messages: seq<Row>)

  /** What every reachable bot satisfies: the store is within capacity, and
      each row belongs to the bot's channel and carries the label its score
      calls for. */
  ghost predicate Valid(bot: Bot) {
    && |bot.messages| <= Capacity
    && forall i :: 0 <= i < |bot.messages| ==> RowFits(bot.channel, bot.messages[i])
  }

  ghost predicate RowFits(channel: string, row: Row) {
    row.channel == channel && row.sentimentLabel == LabelOf(row.sentimentScore)
  }

  /** A new bot: the channel name is lower-cased and the store is empty. */
  function NewBot(channel: string := DefaultChannel): (b: Bot)
    ensures Valid(b)
    ensures b.messages == []
    ensures |b.channel| == |channel|
    ensures forall i :: 0 <= i < |b.channel| ==> !IsAsciiUpper(b.channel[i])
    ensures forall i :: 0 <= i < |channel| && !IsAsciiUpper(channel[i]) ==> b.channel[i] == channel[i]
    ensures forall i :: 0 <= i < |channel| && IsAsciiUpper(channel[i]) ==> b.channel[i] as int == channel[i] as int + 32
  {
    Bot(Lower(channel), [])
  }

  /** `store_message`: builds the row from the arguments, the sentiment data,
      the bot's channel and the clock, appends it and evicts down to the
      newest `Capacity` rows. */
  function StoreMessage(bot: Bot, username: string, message: string,
                        sentiment: SentimentData, now: Instant): (r: Bot)
    ensures r.channel == bot.channel
    ensures |r.messages| == Min(|bot.messages| + 1, Capacity)
    ensures r.messages[|r.messages| - 1]
         == Row(now, username, message, sentiment.compound, sentiment.sentimentLabel, bot.channel)
    ensures r.messages[..|r.messages| - 1] == bot.messages[|bot.messages| + 1 - |r.messages|..]
  {
    var row := Row(now, username, message, sentiment.compound, sentiment.sentimentLabel, bot.channel);
    Bot(bot.channel, Append(bot.messages, row))
  }

  /** The row a chat message becomes. */
  function ChatRow(channel: string, scorer: Scorer, now: Instant, username: string, text: string): Row {
    var d := Analyze(scorer, text);
    Row(now, username, text, d.compound, d.sentimentLabel, channel)
  }

  /** Appending a row built by `store_message` keeps a bot valid. */
  lemma StoreMessageKeepsValid(bot: Bot, username: string, message: string,
                               sentiment: SentimentData, now: Instant)
    requires Valid(bot)
    requires sentiment.sentimentLabel == LabelOf(sentiment.compound)
    ensures Valid(StoreMessage(bot, username, message, sentiment, now))
  {
    var r := StoreMessage(bot, username, message, sentiment, now);
    var n := |r.messages|;
    var older := r.messages[..n - 1];
    assert older == bot.messages[|bot.messages| + 1 - n..];
    forall i | 0 <= i < n
      ensures RowFits(bot.channel, r.messages[i])
    {
      if i < n - 1 {
        assert r.messages[i] == older[i] == bot.messages[|bot.messages| + 1 - n + i];
      }
    }
  }

  /** What `handle_message` does with a parsed line: anything but a chat
      message changes nothing; a chat message is scored and appends one row
      holding the user name, the text and the compound score. */
  function Dispatch(bot: Bot, scorer: Scorer, now: Instant, p: Parsed): (r: Bot)
    ensures r.channel == bot.channel
    ensures !p.Chat? ==> r == bot
    ensures p.Chat? ==>
      && |r.messages| == Min(|bot.messages| + 1, Capacity)
      && r.messages[|r.messages| - 1].username == p.username
      && r.messages[|r.messages| - 1].message == p.text
      && r.messages[|r.messages| - 1].sentimentScore == scorer(p.text).compound
      && r.messages[|r.messages| - 1].sentimentLabel == LabelOf(scorer(p.text).compound)
      && r.messages[|r.messages| - 1].timestamp == now
      && r.messages[|r.messages| - 1].channel == bot.channel
      && r.messages[..|r.messages| - 1] == bot.messages[|bot.messages| + 1 - |r.messages|..]
  {
    match p
    case Chat(username, text) => StoreMessage(bot, username, text, Analyze(scorer, text), now)
    case _ => bot
  }

  /** `handle_message`: keep-alives, lines without the chat marker and chat
      lines whose fields cannot be cut out leave the bot as it was; a chat
      line grows the store by one row up to capacity. */
  function HandleMessage(bot: Bot, scorer: Scorer, now: Instant, raw: string): (r: Bot)
    ensures r.channel == bot.channel
    ensures !ParseLine(raw).Chat? ==> r == bot
    ensures ParseLine(raw).Chat? ==> |r.messages| == Min(|bot.messages| + 1, Capacity)
  {
    Dispatch(bot, scorer, now, ParseLine(raw))
  }

  /** Keep-alive lines and lines without `PRIVMSG` leave the bot unchanged. */
  lemma NonChatLinesIgnored(bot: Bot, scorer: Scorer, now: Instant, raw: string)
    requires StartsWith(raw, Ping) || !Contains(raw, Marker)
    ensures HandleMessage(bot, scorer, now, raw) == bot
  {
  }

  /** Acting on any parsed line keeps a bot valid. */
  lemma DispatchKeepsValid(bot: Bot, scorer: Scorer, now: Instant, p: Parsed)
    requires Valid(bot)
    ensures Valid(Dispatch(bot, scorer, now, p))
  {
    if p.Chat? {
      StoreMessageKeepsValid(bot, p.username, p.text, Analyze(scorer, p.text), now);
    }
  }

  /** Handling any line keeps a bot valid. */
  lemma HandleMessageKeepsValid(bot: Bot, scorer: Scorer, now: Instant, raw: string)
    requires Valid(bot)
    ensures Valid(HandleMessage(bot, scorer, now, raw))
  {
    DispatchKeepsValid(bot, scorer, now, ParseLine(raw));
  }

  /** One line as delivered by the connection, with the time it was handled. */
  datatype Delivery = Delivery(at: Instant, line: string)

  /** The read loop's effect on the store: every delivered line in turn. */
  function HandleAll(bot: Bot, scorer: Scorer, lines: seq<Delivery>): (r: Bot)
    ensures r.channel == bot.channel
    ensures |bot.messages| <= Capacity ==> |r.messages| <= Capacity
    ensures |r.messages| >= Min(|bot.messages|, Capacity)
    decreases |lines|
  {
    if |lines| == 0 then bot
    else HandleAll(HandleMessage(bot, scorer, lines[0].at, lines[0].line), scorer, lines[1..])
  }

  /** The rows the chat lines among `lines` become, in order. */
  function ChatRows(channel: string, scorer: Scorer, lines: seq<Delivery>): seq<Row>
    decreases |lines|
  {
    if |lines| == 0 then []
    else
      var rest := ChatRows(channel, scorer, lines[1..]);
      var p := ParseLine(lines[0].line);
      if p.Chat? then [ChatRow(channel, scorer, lines[0].at, p.username, p.text)] + rest else rest
  }

  lemma AppendThenRest(s: seq<Row>, row: Row, rest: seq<Row>)
    ensures s + [row] + rest == s + ([row] + rest)
  {
  }

  /** A chat message appends exactly the row it becomes. */
  lemma DispatchChat(bot: Bot, scorer: Scorer, now: Instant, p: Parsed)
    requires p.Chat?
    ensures Dispatch(bot, scorer, now, p).messages
         == Append(bot.messages, ChatRow(bot.channel, scorer, now, p.username, p.text))
  {
  }

  /** Whatever lines arrive, the store ends up holding exactly the newest
      `Capacity` rows of the old store followed by the chat lines' rows, in
      arrival order, and the bot stays valid. */
  lemma {:induction false} HandleAllKeepsNewest(bot: Bot, scorer: Scorer, lines: seq<Delivery>)
    requires Valid(bot)
    ensures HandleAll(bot, scorer, lines).messages
         == Last(bot.messages + ChatRows(bot.channel, scorer, lines), Capacity)
    ensures HandleAll(bot, scorer, lines).channel == bot.channel
    ensures Valid(HandleAll(bot, scorer, lines))
    decreases |lines|
  {
    if |lines| == 0 {
      assert bot.messages + [] == bot.messages;
    } else {
      var d := lines[0];
      var p := ParseLine(d.line);
      var next := HandleMessage(bot, scorer, d.at, d.line);
      var rest := ChatRows(bot.channel, scorer, lines[1..]);
      HandleMessageKeepsValid(bot, scorer, d.at, d.line);
      HandleAllKeepsNewest(next, scorer, lines[1..]);
      if p.Chat? {
        var row := ChatRow(bot.channel, scorer, d.at, p.username, p.text);
        assert next == Dispatch(bot, scorer, d.at, p);
        DispatchChat(bot, scorer, d.at, p);
        AppendIsLast(bot.messages, row);
        LastOfLastMany(bot.messages + [row], rest, Capacity);
        AppendThenRest(bot.messages, row, rest);
      }
    }
  }

  /** Once at least 50 chat lines have arrived, the metrics are those of the
      newest 50 chat messages: nothing older, and no other kind of line, has
      any effect. */
  lemma MetricsSeeNewestChats(bot: Bot, scorer: Scorer, lines: seq<Delivery>)
    requires Valid(bot)
    requires |ChatRows(bot.channel, scorer, lines)| >= WindowSize
    ensures GetHypeMetrics(HandleAll(bot, scorer, lines).messages)
         == GetHypeMetrics(ChatRows(bot.channel, scorer, lines))
  {
    var rows := ChatRows(bot.channel, scorer, lines);
    HandleAllKeepsNewest(bot, scorer, lines);
    LastNested(bot.messages + rows, Capacity, WindowSize);
    LastOfSuffix(bot.messages, rows, WindowSize);
    MetricsDependOnWindowOnly(HandleAll(bot, scorer, lines).messages, rows);
  }
}
