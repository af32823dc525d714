/**
 Classification and parsing of one raw line from the chat server, as the bot
 does it with Python string operations. A chat line has the shape
 `:nick!user@host PRIVMSG #channel :text` (the prefix of section 2.3.1 and
 the PRIVMSG command of section 4.4.1 of RFC 1459).
 */
module IrcParse {
  import opened PyStr

  const Ping: string := "PING"
  const Marker: string := "PRIVMSG"

  /** What the bot makes of a line: a keep-alive it skips, a line without
      the chat marker, a chat line whose fields cannot be cut out (the
      `IndexError` the bot swallows), or a chat message. */
  datatype Parsed = KeepAlive | NotChat | Malformed | Chat(username: string, text: string)

  /** The text before the first marker: `raw.split("PRIVMSG")[0]`. */
  function UserPart(raw: string): (r: string)
    ensures StartsWith(raw, r)
    ensures !Contains(r, Marker)
    ensures Contains(raw, Marker) ==> OccursAt(raw, Marker, |r|)
    ensures !Contains(raw, Marker) ==> r == raw
  {
    BeforeIsFree(raw, Marker);
    Before(raw, Marker)
  }

  /** The text between the first and the second marker (or the end of the
      line): `raw.split("PRIVMSG")[1]`. */
  function MessagePart(raw: string): (r: string)
    requires Contains(raw, Marker)
    ensures StartsWith(After(raw, Marker), r)
    ensures !Contains(r, Marker)
    ensures Contains(After(raw, Marker), Marker) ==> OccursAt(After(raw, Marker), Marker, |r|)
    ensures !Contains(After(raw, Marker), Marker) ==> r == After(raw, Marker)
  {
    BeforeIsFree(After(raw, Marker), Marker);
    Before(After(raw, Marker), Marker)
  }

  /** `p` is the leading piece of `a` that runs up to the first `:` or `!`,
      or to the end when neither occurs. */
  predicate NameFieldOf(a: string, p: string) {
    && StartsWith(a, p)
    && ':' !in p && '!' !in p
    && (|p| == |a| || a[|p|] == ':' || a[|p|] == '!')
  }

  /** Cutting at the first `:` and then at the first `!` leaves the leading
      piece up to the first of either. */
  lemma NameFieldCut(a: string)
    ensures NameFieldOf(a, Before(Before(a, ":"), "!"))
  {
    var f := Before(a, ":");
    var p := Before(f, "!");
    assert a[..|p|] == p by {
      assert f[..|p|] == p;
      assert a[..|f|] == f;
    }
    forall k | 0 <= k < |p|
      ensures p[k] != ':' && p[k] != '!'
    {
      assert p[k] == f[k] == a[k];
      assert a[k..k + 1][0] == a[k];
      assert f[k..k + 1][0] == f[k];
      assert !OccursAt(a, ":", k) && !OccursAt(f, "!", k);
    }
    if |p| < |a| {
      if Contains(f, "!") {
        assert f[|p|..|p| + 1] == "!";
        assert f[|p|] == a[|p|];
      } else {
        assert p == f;
        assert Contains(a, ":");
        assert a[|f|..|f| + 1] == ":";
      }
    }
  }

  /** The user name as the bot cuts it from the part before the marker:
      after the first `:`, up to the next `:`, up to the first `!`, stripped. */
  function UsernameOf(userPart: string): (r: string)
    requires Contains(userPart, ":")
    ensures IsStripped(r)
    ensures !Contains(r, ":") && !Contains(r, "!")
    ensures exists p :: NameFieldOf(After(userPart, ":"), p) && r == Strip(p)
  {
    var field := Before(After(userPart, ":"), ":");
    var nick := Before(field, "!");
    NameFieldCut(After(userPart, ":"));
    assert !Contains(nick, ":") && !Contains(nick, "!") by {
      ContainsChar(nick, ':');
      ContainsChar(nick, '!');
    }
    StripKeepsAbsence(nick, ":");
    StripKeepsAbsence(nick, "!");
    Strip(nick)
  }

  /** `handle_message`'s classification and field extraction, as written. */
  function ParseLine(raw: string): (r: Parsed)
    ensures r == KeepAlive <==> StartsWith(raw, Ping)
    ensures r == NotChat <==> !StartsWith(raw, Ping) && !Contains(raw, Marker)
    ensures r.Chat? <==>
      && !StartsWith(raw, Ping)
      && Contains(raw, Marker)
      && Contains(UserPart(raw), ":")
      && Contains(MessagePart(raw), ":")
    ensures r.Chat? ==>
      && r.username == UsernameOf(UserPart(raw))
      && r.text == Strip(After(MessagePart(raw), ":"))
  {
    if StartsWith(raw, Ping) then KeepAlive
    else if !Contains(raw, Marker) then NotChat
    else
      var parts := Split(raw, Marker);
      var userPart := parts[0];
      var messagePart := parts[1];
      var userFields := Split(userPart, ":");
      if |userFields| < 2 then Malformed
      else
        var username := Strip(Split(userFields[1], "!")[0]);
        var messageFields := SplitOnce(messagePart, ":");
        if |messageFields| < 2 then Malformed
        else Chat(username, Strip(messageFields[1]))
  }

  /** The text before a separator never holds the separator. */
  lemma BeforeIsFree(s: string, sep: string)
    requires |sep| > 0
    ensures !Contains(Before(s, sep), sep)
  {
    var i := Find(s, sep);
    if i >= 0 {
      NoOccurrenceInPrefix(s, sep, i);
    }
  }

  /** Both fields of a parsed chat message come back stripped, and the text
      never contains the marker: the bot keeps only what precedes a second
      `PRIVMSG`. */
  lemma ChatFieldsShape(raw: string)
    requires ParseLine(raw).Chat?
    ensures IsStripped(ParseLine(raw).username) && IsStripped(ParseLine(raw).text)
    ensures !Contains(ParseLine(raw).text, Marker)
  {
    var m := MessagePart(raw);
    BeforeIsFree(After(raw, Marker), Marker);
    AfterKeepsAbsence(m, ":", Marker);
    StripKeepsAbsence(After(m, ":"), Marker);
  }

  /** A chat line as the server sends it. */
  function PrivmsgLine(nick: string, ident: string, channel: string, text: string): string {
    ":" + nick + "!" + ident + " PRIVMSG #" + channel + " :" + text
  }

  /** Field values a server line can carry without confusing the cuts: no
      `:` before the text, no `!` in the nick, no marker before the text,
      and a nick without surrounding whitespace. */
  predicate WellFormedFields(nick: string, ident: string, channel: string) {
    && ':' !in nick && '!' !in nick && IsStripped(nick) && !Contains(nick, Marker)
    && ':' !in ident && !Contains(ident, Marker)
    && ':' !in channel && !Contains(channel, Marker)
  }

  /** Cutting at a one-character separator whose first occurrence is known. */
  lemma CutAtChar(x: string, c: char, y: string)
    requires c !in x
    ensures Contains(x + [c] + y, [c])
    ensures Before(x + [c] + y, [c]) == x
    ensures After(x + [c] + y, [c]) == y
  {
    var s := x + [c] + y;
    assert s[|x|..|x| + 1] == [c];
    forall j | 0 <= j < |x|
      ensures !OccursAt(s, [c], j)
    {
      assert s[j..j + 1][0] == x[j];
    }
    FindIsFirst(s, [c], |x|);
    assert s[..|x|] == x;
    assert s[|x| + 1..] == y;
  }

  lemma ShortHasNone(s: string, sep: string)
    requires |s| < |sep|
    ensures !Contains(s, sep)
  {
  }

  /** The text after the marker of a server line. */
  function Trailer(channel: string, text: string): string {
    " #" + channel + " :" + text
  }

  /** The marker does not occur in the trailer's head when neither the
      channel nor the given text holds it. */
  lemma TrailerIsFree(channel: string, t: string)
    requires !Contains(channel, Marker) && !Contains(t, Marker)
    ensures !Contains(Trailer(channel, t), Marker)
  {
    ShortHasNone([], Marker);
    ContainsAcross([], ':', t, Marker);
    assert [':'] + t == [] + [':'] + t;
    ContainsAcross(channel, ' ', [':'] + t, Marker);
    ContainsAcross([], '#', channel + [' '] + ([':'] + t), Marker);
    ContainsAcross([], ' ', [] + ['#'] + (channel + [' '] + ([':'] + t)), Marker);
    assert Trailer(channel, t) == [] + [' '] + ([] + ['#'] + (channel + [' '] + ([':'] + t)));
  }

  /** The text after the first `:` of the trailer is the message text. */
  lemma TrailerText(channel: string, text: string)
    requires ':' !in channel
    ensures Contains(Trailer(channel, text), ":")
    ensures After(Trailer(channel, text), ":") == text
  {
    assert Trailer(channel, text) == (" #" + channel + " ") + [':'] + text;
    CutAtChar(" #" + channel + " ", ':', text);
  }

  /** The head of a server line, up to the space before the marker. */
  function Head(nick: string, ident: string): string {
    ":" + nick + "!" + ident
  }

  lemma HeadIsFree(nick: string, ident: string)
    requires !Contains(nick, Marker) && !Contains(ident, Marker)
    ensures !Contains(Head(nick, ident), Marker)
  {
    ShortHasNone([], Marker);
    ContainsAcross(nick, '!', ident, Marker);
    ContainsAcross([], ':', nick + ['!'] + ident, Marker);
    assert Head(nick, ident) == [] + [':'] + (nick + ['!'] + ident);
  }

  lemma LineShape(nick: string, ident: string, channel: string, text: string)
    ensures PrivmsgLine(nick, ident, channel, text)
         == Head(nick, ident) + [' '] + (Marker + Trailer(channel, text))
  {
  }

  /** Where the first marker of `x + " " + "PRIVMSG" + y` sits when `x` holds none. */
  lemma MarkerAfter(x: string, y: string)
    requires !Contains(x, Marker)
    ensures Contains(x + [' '] + (Marker + y), Marker)
    ensures Before(x + [' '] + (Marker + y), Marker) == x + [' ']
    ensures After(x + [' '] + (Marker + y), Marker) == y
  {
    var s := x + [' '] + (Marker + y);
    FindAtStart(Marker, y);
    FindAcross(x, ' ', Marker + y, Marker);
    ContainsAcross(x, ' ', Marker + y, Marker);
    assert s[..|x| + 1] == x + [' '];
    assert s[|x| + 1 + |Marker|..] == y;
  }

  /** How a server line falls apart at the marker. */
  lemma LineAnatomy(nick: string, ident: string, channel: string, text: string)
    requires WellFormedFields(nick, ident, channel)
    ensures var raw := PrivmsgLine(nick, ident, channel, text);
      && !StartsWith(raw, Ping)
      && Contains(raw, Marker)
      && UserPart(raw) == ":" + nick + "!" + ident + " "
      && After(raw, Marker) == Trailer(channel, text)
  {
    var raw := PrivmsgLine(nick, ident, channel, text);
    var h := Head(nick, ident);
    assert raw == h + [' '] + (Marker + Trailer(channel, text)) by {
      LineShape(nick, ident, channel, text);
    }
    assert !StartsWith(raw, Ping) by {
      assert raw[0] == ':';
    }
    assert Contains(raw, Marker) && Before(raw, Marker) == h + [' ']
        && After(raw, Marker) == Trailer(channel, text) by {
      HeadIsFree(nick, ident);
      MarkerAfter(h, Trailer(channel, text));
    }
  }

  /** The user part of a server line yields the nick. */
  lemma UserPartNick(nick: string, ident: string)
    requires ':' !in nick && '!' !in nick && IsStripped(nick) && ':' !in ident
    ensures Contains(":" + nick + "!" + ident + " ", ":")
    ensures UsernameOf(":" + nick + "!" + ident + " ") == nick
  {
    var u := ":" + nick + "!" + ident + " ";
    var rest := nick + "!" + ident + " ";
    assert u == [] + [':'] + rest;
    CutAtChar([], ':', rest);
    assert ':' !in rest;
    ContainsChar(rest, ':');
    assert rest == nick + ['!'] + (ident + " ");
    CutAtChar(nick, '!', ident + " ");
    StripFixpoint(nick);
  }

  /** Parser round trip: a server line whose text holds no second marker
      parses to exactly its nick and its (stripped) text. */
  lemma {:induction false} ParseLineRoundTrip(nick: string, ident: string, channel: string, text: string)
    requires WellFormedFields(nick, ident, channel)
    requires !Contains(text, Marker)
    ensures ParseLine(PrivmsgLine(nick, ident, channel, text)) == Chat(nick, Strip(text))
  {
    var raw := PrivmsgLine(nick, ident, channel, text);
    LineAnatomy(nick, ident, channel, text);
    UserPartNick(nick, ident);
    TrailerIsFree(channel, text);
    assert MessagePart(raw) == Trailer(channel, text);
    TrailerText(channel, text);
  }

  /** As written, a text that itself contains `PRIVMSG` is cut short: only
      the words before it are kept. */
  lemma {:induction false} ParseLineTruncates(nick: string, ident: string, channel: string, head: string, tail: string)
    requires WellFormedFields(nick, ident, channel)
    requires IsStripped(head) && !Contains(head, Marker)
    ensures ParseLine(PrivmsgLine(nick, ident, channel, head + " " + Marker + tail)) == Chat(nick, head)
  {
    var text := head + " " + Marker + tail;
    var raw := PrivmsgLine(nick, ident, channel, text);
    var u := ":" + nick + "!" + ident + " ";
    var m := Trailer(channel, head + " ");
    LineAnatomy(nick, ident, channel, text);
    UserPartNick(nick, ident);
    SecondMarkerCut(channel, head, tail);
    assert MessagePart(raw) == m;
    TextOfPaddedTrailer(channel, head);
    ChatFromParts(raw, u, m);
  }

  /** The second cut at the marker ends the message part at a marker inside
      the text. */
  lemma SecondMarkerCut(channel: string, head: string, tail: string)
    requires !Contains(channel, Marker) && !Contains(head, Marker)
    ensures Before(Trailer(channel, head + " " + Marker + tail), Marker) == Trailer(channel, head + " ")
  {
    TrailerIsFree(channel, head);
    TrailerAtSecondMarker(channel, head, tail);
    MarkerAfter(Trailer(channel, head), tail);
  }

  /** The text read off a trailer whose text is `head` and a space. */
  lemma TextOfPaddedTrailer(channel: string, head: string)
    requires ':' !in channel
    requires IsStripped(head)
    ensures Contains(Trailer(channel, head + " "), ":")
    ensures Strip(After(Trailer(channel, head + " "), ":")) == head
  {
    TrailerText(channel, head + " ");
    StripOfPadded([], head, " ");
    assert [] + head + " " == head + " ";
  }

  lemma TrailerAtSecondMarker(channel: string, head: string, tail: string)
    ensures Trailer(channel, head + " " + Marker + tail)
         == Trailer(channel, head) + [' '] + (Marker + tail)
    ensures Trailer(channel, head) + [' '] == Trailer(channel, head + " ")
  {
  }

  /** The parse of a chat line, read off its two parts. */
  lemma ChatFromParts(raw: string, u: string, m: string)
    requires !StartsWith(raw, Ping) && Contains(raw, Marker)
    requires UserPart(raw) == u && Contains(u, ":")
    requires MessagePart(raw) == m && Contains(m, ":")
    ensures ParseLine(raw) == Chat(UsernameOf(u), Strip(After(m, ":")))
  {
  }

  /** The line `:bob!bob@tv PRIVMSG #chan :hi PRIVMSG there` shows the
      truncation: the stored text is just "hi". */
  lemma TruncationExample()
    ensures ParseLine(PrivmsgLine("bob", "bob@tv", "chan", "hi PRIVMSG there"))
         == Chat("bob", "hi")
  {
    assert WellFormedFields("bob", "bob@tv", "chan") by {
      ShortHasNone("bob", Marker);
      ShortHasNone("bob@tv", Marker);
      ShortHasNone("chan", Marker);
    }
    assert !Contains("hi", Marker) by {
      ShortHasNone("hi", Marker);
    }
    ExampleText();
    ParseLineTruncates("bob", "bob@tv", "chan", "hi", " there");
  }

  lemma ExampleText()
    ensures "hi" + " " + Marker + " there" == "hi PRIVMSG there"
  {
  }

  /** The parser with the marker cut made once (`split("PRIVMSG", 1)`), so
      that everything after the first marker belongs to the message. */
  function ParseLineFixed(raw: string): (r: Parsed)
    ensures r == KeepAlive <==> StartsWith(raw, Ping)
    ensures r == NotChat <==> !StartsWith(raw, Ping) && !Contains(raw, Marker)
    ensures r.Chat? <==>
      && !StartsWith(raw, Ping)
      && Contains(raw, Marker)
      && Contains(UserPart(raw), ":")
      && Contains(After(raw, Marker), ":")
    ensures r.Chat? ==>
      && r.username == UsernameOf(UserPart(raw))
      && r.text == Strip(After(After(raw, Marker), ":"))
  {
    if StartsWith(raw, Ping) then KeepAlive
    else if !Contains(raw, Marker) then NotChat
    else
      var parts := SplitOnce(raw, Marker);
      var userFields := Split(parts[0], ":");
      if |userFields| < 2 then Malformed
      else
        var username := Strip(Split(userFields[1], "!")[0]);
        var messageFields := SplitOnce(parts[1], ":");
        if |messageFields| < 2 then Malformed
        else Chat(username, Strip(messageFields[1]))
  }

  /** The corrected parser returns every server line's nick and text, whatever
      the text contains. */
  lemma {:induction false} ParseLineFixedRoundTrip(nick: string, ident: string, channel: string, text: string)
    requires WellFormedFields(nick, ident, channel)
    ensures ParseLineFixed(PrivmsgLine(nick, ident, channel, text)) == Chat(nick, Strip(text))
  {
    LineAnatomy(nick, ident, channel, text);
    UserPartNick(nick, ident);
    TrailerText(channel, text);
  }

  /** On a line with at most one marker the two parsers agree. */
  lemma FixedAgreesOnSingleMarker(raw: string)
    requires Contains(raw, Marker) ==> !Contains(After(raw, Marker), Marker)
    ensures ParseLine(raw) == ParseLineFixed(raw)
  {
  }
}
