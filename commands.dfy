/**
 * The chat-message handler: the early filter (bots, no price yet, missing
 * prefix), the channel allow-list, the command parser and the choice of
 * reply.  Sending the reply and deleting it later is in EphemeralReply.
 */
module Commands {
  import opened Wrappers
  import opened Strings
  import opened PriceFormat
  import opened PriceTicker

  /** An incoming chat message, reduced to the fields the handler reads. */
  datatype Message = Message(authorIsBot: bool, guildId: string, channelId: string, content: string)

  /** The allow-list (the comma-split setting) and the command prefix. */
  datatype Config = Config(listen: seq<string>, prefix: string)

  datatype Command = Price | Links | Help

  /** What the handler replies with: the price text, or one of the two static embeds. */
  datatype Body = PriceText(text: string) | LinksEmbed | HelpEmbed

  /** A reply and the delay after which it and its trigger are deleted. */
  datatype Response = Response(command: Command, body: Body, ttl: nat)

  function Name(c: Command): string
  {
    match c
    case Price => "price"
    case Links => "links"
    case Help => "help"
  }

  /** How long a reply stays up, in milliseconds. */
  function Ttl(c: Command): (ms: nat)
    ensures ms == 60000 <==> c == Links
    ensures ms != 60000 ==> ms == 30000
  {
    match c
    case Price => 30000
    case Links => 60000
    case Help => 30000
  }

  /** The allow-list setting, split on commas. */
  function ListenList(setting: string): seq<string>
  {
    SplitOn(setting, ',')
  }

  /** The allow-list lets every channel through when its first entry is empty. */
  predicate AllowsAll(listen: seq<string>)
  {
    listen != [] && listen[0] == ""
  }

  /** The first allow-list entry is empty exactly when the setting is empty or starts with a comma. */
  lemma AllowsAllIff(setting: string)
    ensures AllowsAll(ListenList(setting)) <==> setting == [] || setting[0] == ','
  {
    var i := IndexOf(setting, ',');
    if i > 0 {
      assert setting[..i][0] == setting[0];
    }
  }

  /** `"guildId/channelId"`, the form the allow-list entries take. */
  function ChannelKey(msg: Message): string
  {
    msg.guildId + "/" + msg.channelId
  }

  predicate Accepts(listen: seq<string>, key: string)
  {
    AllowsAll(listen) || key in listen
  }

  /** The early filter: not from a bot, a price has been stored, and the content starts with the prefix. */
  predicate PassesFilter(msg: Message, priceKnown: bool, prefix: string): (b: bool)
    ensures b ==> !msg.authorIsBot && priceKnown && |prefix| <= |msg.content|
    ensures b ==> msg.content == prefix + msg.content[|prefix|..]
    ensures forall rest :: msg.content == prefix + rest ==> (b <==> !msg.authorIsBot && priceKnown)
  {
    !msg.authorIsBot && priceKnown && StartsWith(msg.content, prefix)
  }

  /** The allow-list scan: every channel when the first entry is empty, otherwise only a listed `"guildId/channelId"`. */
  method Listening(allowList: seq<string>, msg: Message) returns (listen: bool)
    ensures listen == Accepts(allowList, ChannelKey(msg))
  {
    listen := false;
    if allowList == [] || allowList[0] != "" {
      var i := 0;
      while i < |allowList|
        invariant 0 <= i <= |allowList|
        invariant !listen
        invariant forall k :: 0 <= k < i ==> allowList[k] != ChannelKey(msg)
      {
        var chatGuildChannel := ChannelKey(msg);
        if chatGuildChannel == allowList[i] {
          listen := true;
          break;
        }
        i := i + 1;
      }
    } else {
      listen := true;
    }
  }

  /** The command named by the first space-separated word after the prefix, lower-cased. */
  function ParseCommand(rest: string): (r: Option<Command>)
    ensures r.Some? ==> Lower(FirstWord(rest)) == Name(r.value)
    ensures r.None? ==> forall c :: Lower(FirstWord(rest)) != Name(c)
  {
    var cmd := Lower(SplitSpaces(rest)[0]);
    if cmd == "price" then Some(Price)
    else if cmd == "links" then Some(Links)
    else if cmd == "help" then Some(Help)
    else None
  }

  /** A command is recognised whatever the case of its letters. */
  lemma ParseIgnoresCase(rest: string, c: Command)
    ensures ParseCommand(rest) == Some(c) <==> SpellsIgnoringCase(FirstWord(rest), Name(c))
  {
    LowerIsWordIff(FirstWord(rest), Name(c));
    if ParseCommand(rest).Some? && ParseCommand(rest) != Some(c) {
      assert Name(ParseCommand(rest).value) != Name(c);
    }
  }

  /** The command depends on the first word alone. */
  lemma ParseSeesFirstWordOnly(a: string, b: string)
    requires FirstWord(a) == FirstWord(b)
    ensures ParseCommand(a) == ParseCommand(b)
  {
    assert SplitSpaces(a)[0] == SplitSpaces(b)[0];
  }

  /** Whatever follows the first space is ignored. */
  lemma ParseIgnoresArguments(word: string, args: string)
    requires ' ' !in word
    ensures ParseCommand(word + " " + args) == ParseCommand(word)
  {
    FirstWordBeforeSpace(word, args);
    ParseSeesFirstWordOnly(word + " " + args, word);
  }

  /** `links` written with the KELVIN SIGN for its `k` is still recognised, as the bot's lower-casing makes it `links`. */
  lemma KelvinSignSpellsLinks()
    ensures ParseCommand("LIN" + [KelvinSign] + "S") == Some(Links)
  {
    var t := "LIN" + [KelvinSign] + "S";
    assert FirstWord(t) == t by {
      assert ' ' !in t;
      FirstWordBeforeSpace(t, "");
    }
    assert SpellsIgnoringCase(t, "links") by {
      assert SameLetterAt(t, 3, 'k');
    }
    ParseIgnoresCase(t, Links);
  }

  /** A space right after the prefix makes the command word empty, so nothing is recognised. */
  lemma LeadingSpaceIsNoCommand(rest: string)
    requires rest != [] && rest[0] == ' '
    ensures ParseCommand(rest) == None
  {
    assert FirstWord(rest) == [];
  }

  /** The reply a recognised command produces from the stored snapshot. */
  function Answer(c: Command, snap: Snapshot): Response
  {
    match c
    case Price => Response(Price, PriceText(PriceReply(snap.price, snap.change)), Ttl(Price))
    case Links => Response(Links, LinksEmbed, Ttl(Links))
    case Help => Response(Help, HelpEmbed, Ttl(Help))
  }

  /** The text the command word is taken from: the content after the prefix. */
  function AfterPrefix(cfg: Config, msg: Message): string
  {
    if |cfg.prefix| <= |msg.content| then msg.content[|cfg.prefix|..] else []
  }

  /** What the handler answers to `msg`, given the stored snapshot `held`, if anything. */
  function Respond(cfg: Config, held: Option<Snapshot>, msg: Message): (r: Option<Response>)
    ensures held.None? || msg.authorIsBot ==> r.None?
    ensures r.Some? ==> r.value.ttl == Ttl(r.value.command) && Accepts(cfg.listen, ChannelKey(msg))
    ensures r.Some? ==> (r.value.command == Price <==> r.value.body.PriceText?)
  {
    if !PassesFilter(msg, held.Some?, cfg.prefix) then None
    else if !Accepts(cfg.listen, ChannelKey(msg)) then None
    else match ParseCommand(AfterPrefix(cfg, msg))
      case None => None
      case Some(c) => Some(Answer(c, held.value))
  }

  /** The handler, in the order the code runs: filter, allow-list scan, parse, dispatch. */
  method HandleMessage(cfg: Config, held: Option<Snapshot>, msg: Message) returns (r: Option<Response>)
    ensures r == Respond(cfg, held, msg)
  {
    if msg.authorIsBot || held.None? || !StartsWith(msg.content, cfg.prefix) {
      return None;
    }
    var listen := Listening(cfg.listen, msg);
    r := None;
    if listen {
      var args := SplitSpaces(msg.content[|cfg.prefix|..]);
      var cmd := Lower(args[0]);
      if cmd == "price" {
        r := Some(Answer(Price, held.value));
      } else if cmd == "links" {
        r := Some(Answer(Links, held.value));
      } else if cmd == "help" {
        r := Some(Answer(Help, held.value));
      }
    }
  }

  /**
   * A reply means: the message passed the filter and the allow-list, its
   * command word spells the command in some mix of cases, the reply stays
   * 60 seconds for `links` and 30 for the others, and a `price` reply is the
   * price text built from the stored snapshot.
   */
  lemma ReplyMeans(cfg: Config, held: Option<Snapshot>, msg: Message)
    requires Respond(cfg, held, msg).Some?
    ensures !msg.authorIsBot && held.Some? && StartsWith(msg.content, cfg.prefix)
    ensures AllowsAll(cfg.listen) || ChannelKey(msg) in cfg.listen
    ensures var r := Respond(cfg, held, msg).value;
      SpellsIgnoringCase(FirstWord(AfterPrefix(cfg, msg)), Name(r.command))
      && r.ttl == (if r.command == Links then 60000 else 30000)
      && (r.command == Price <==> r.body == PriceText(PriceReply(held.value.price, held.value.change)))
  {
    var c := ParseCommand(AfterPrefix(cfg, msg)).value;
    ParseIgnoresCase(AfterPrefix(cfg, msg), c);
  }

  /** Conversely, a message that passes the filter and the allow-list and names a command gets that command's reply. */
  lemma ReplyWhenAllowed(cfg: Config, snap: Snapshot, msg: Message, c: Command)
    requires !msg.authorIsBot && StartsWith(msg.content, cfg.prefix)
    requires Accepts(cfg.listen, ChannelKey(msg))
    requires SpellsIgnoringCase(FirstWord(AfterPrefix(cfg, msg)), Name(c))
    ensures Respond(cfg, Some(snap), msg) == Some(Answer(c, snap))
  {
    ParseIgnoresCase(AfterPrefix(cfg, msg), c);
  }

  /** No message is answered while no price is stored, whatever its command, `links` and `help` included. */
  lemma NoReplyWithoutPrice(cfg: Config, msg: Message)
    ensures Respond(cfg, None, msg) == None
  {
  }

  /** Before any fetch has succeeded, no message gets a reply. */
  lemma NoReplyBeforeFirstFetch(cfg: Config, h: seq<FetchOutcome>, msg: Message)
    requires AllReadable(h)
    requires forall i :: 0 <= i < |h| ==> h[i].Failed?
    ensures Respond(cfg, LastSuccess(h), msg) == None
  {
    LastSuccessIsLastFetched(h);
  }

  /** With the allow-all entry first, the channel a message comes from makes no difference. */
  lemma AllowAllIgnoresChannel(cfg: Config, held: Option<Snapshot>, msg: Message, guildId: string, channelId: string)
    requires AllowsAll(cfg.listen)
    ensures Respond(cfg, held, msg) == Respond(cfg, held, msg.(guildId := guildId, channelId := channelId))
  {
  }

  /** A list holding only `"G1/C1"` keeps out a message from channel C2 of the same guild. */
  lemma OtherChannelIgnored(prefix: string, held: Option<Snapshot>, content: string)
    ensures Respond(Config(["G1/C1"], prefix), held, Message(false, "G1", "C2", content)) == None
  {
    assert ChannelKey(Message(false, "G1", "C2", content)) != "G1/C1" by {
      assert ChannelKey(Message(false, "G1", "C2", content))[4] == '2';
    }
  }
}
