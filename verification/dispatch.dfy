/**
 * The entry points of message handling (src/handler/mod.rs): a user message
 * is cut at its first whitespace character into a command word and an
 * optional remainder and routed to a built-in handler or to the custom
 * command lookup; an admin message is split into whitespace-separated words
 * and routed by its first five.
 *
 * The admin handlers themselves (src/handler/admin.rs) are not part of this
 * model: routing yields the handler and the words it is given.
 */
module Dispatch {
  import opened Base
  import opened Text
  import Schedule
  import LegacySettings
  import UserHandler

  // ---------------------------------------------------------------------------
  // User messages

  /** A user message as the platform adapters hand it over. */
  datatype Message = Message(source: Source, content: string)

  /**
   * `splitn(2, char::is_whitespace)`: the text before the first whitespace
   * character, and the text after that one character if there is one.
   */
  function SplitCommand(content: string): (parts: (string, Option<string>))
    ensures NoWhitespace(parts.0)
    ensures parts.1.None? <==> NoWhitespace(content)
    ensures parts.1.None? ==> parts.0 == content
    ensures parts.1.Some? ==>
      |parts.0| < |content| && IsWhitespace(content[|parts.0|]) &&
      content == parts.0 + [content[|parts.0|]] + parts.1.value
  {
    var k := FirstWhitespace(content);
    if k == |content| then
      assert content[..k] == content;
      (content, None)
    else
      assert content == content[..k] + [content[k]] + content[k + 1..];
      assert !NoWhitespace(content) by { assert IsWhitespace(content[k]); }
      (content[..k], Some(content[k + 1..]))
  }

  /** Where a user message goes. */
  datatype UserCommand =
    | ListCommands
    | ListLinks
    | ShowSchedule
    | LookUpCrate(name: string)
    | BanUser(target: string)
    | RunCustom(name: string, args: Option<string>)

  /**
   * `user_message` routing: the lowercased command word selects a built-in
   * handler; "!commands", "!links" and "!schedule" only without remainder,
   * "!crate" and "!ban" only with one. Anything else is a custom command.
   */
  function RouteUser(content: string): (c: UserCommand)
    ensures c.RunCustom? ==> c.name == ToLower(SplitCommand(content).0) && c.args == SplitCommand(content).1
    ensures c.LookUpCrate? ==> SplitCommand(content).1 == Some(c.name)
    ensures c.BanUser? ==> SplitCommand(content).1.Some? && c.target == Trim(SplitCommand(content).1.value)
  {
    var (word, rest) := SplitCommand(content);
    var lower := ToLower(word);
    if lower == "!commands" && rest.None? then ListCommands
    else if lower == "!links" && rest.None? then ListLinks
    else if lower == "!schedule" && rest.None? then ShowSchedule
    else if lower == "!crate" && rest.Some? then LookUpCrate(rest.value)
    else if lower == "!ban" && rest.Some? then BanUser(Trim(rest.value))
    else RunCustom(lower, rest)
  }

  /**
   * "!crate" and "!ban", in any ASCII case, are the built-ins exactly when
   * a remainder follows the command word.
   */
  lemma CrateAndBanNeedRemainder(content: string)
    ensures RouteUser(content).LookUpCrate? <==>
      ToLower(SplitCommand(content).0) == "!crate" && SplitCommand(content).1.Some?
    ensures RouteUser(content).BanUser? <==>
      ToLower(SplitCommand(content).0) == "!ban" && SplitCommand(content).1.Some?
  {
  }

  /** Lowercasing keeps whitespace where it was. */
  lemma LowerKeepsWhitespace(s: string)
    ensures NoWhitespace(ToLower(s)) <==> NoWhitespace(s)
  {
    if !NoWhitespace(s) {
      var i :| 0 <= i < |s| && IsWhitespace(s[i]);
      assert ToLower(s)[i] == s[i];
    }
    if !NoWhitespace(ToLower(s)) {
      var i :| 0 <= i < |s| && IsWhitespace(ToLower(s)[i]);
      assert ToLower(s)[i] == s[i];
    }
  }

  /**
   * A whitespace-free word is the lowercased command word of a message
   * without remainder exactly when it is the whole message lowercased.
   */
  lemma WholeMessageWord(content: string, w: string)
    requires NoWhitespace(w)
    ensures (ToLower(SplitCommand(content).0) == w && SplitCommand(content).1.None?) <==> ToLower(content) == w
  {
    LowerKeepsWhitespace(content);
  }

  /**
   * The listing built-ins answer exactly to the whole message being their
   * word, in any ASCII case: any remainder, even a lone trailing space,
   * makes the message a custom command.
   */
  lemma CommandsAlone(content: string, w: string)
    requires w == "!commands"
    ensures RouteUser(content) == ListCommands <==> ToLower(content) == w
  {
    assert RouteUser(content) == ListCommands <==> ToLower(SplitCommand(content).0) == w && SplitCommand(content).1.None?;
    assert NoWhitespace(w) by { VisibleHasNoWhitespace(w); }
    WholeMessageWord(content, w);
  }

  lemma LinksAlone(content: string, w: string)
    requires w == "!links"
    ensures RouteUser(content) == ListLinks <==> ToLower(content) == w
  {
    assert RouteUser(content) == ListLinks <==> ToLower(SplitCommand(content).0) == w && SplitCommand(content).1.None?;
    assert NoWhitespace(w) by { VisibleHasNoWhitespace(w); }
    WholeMessageWord(content, w);
  }

  lemma ScheduleAlone(content: string, w: string)
    requires w == "!schedule"
    ensures RouteUser(content) == ShowSchedule <==> ToLower(content) == w
  {
    assert RouteUser(content) == ShowSchedule <==> ToLower(SplitCommand(content).0) == w && SplitCommand(content).1.None?;
    assert NoWhitespace(w) by { VisibleHasNoWhitespace(w); }
    WholeMessageWord(content, w);
  }

  /** Printable ASCII characters other than the space are not whitespace. */
  lemma VisibleHasNoWhitespace(w: string)
    requires forall c | c in w :: '!' <= c <= '~'
    ensures NoWhitespace(w)
  {
    forall i | 0 <= i < |w| ensures !IsWhitespace(w[i]) {
      assert w[i] in w;
    }
  }

  /**
   * A listing word followed by whitespace is not the built-in: it goes to
   * the custom command lookup with the empty remainder.
   */
  lemma TrailingSpaceIsCustom(word: string, space: char, w: string)
    requires w == "!commands" && ToLower(word) == w && IsWhitespace(space)
    ensures RouteUser(word + [space]) == RunCustom(w, Some([]))
  {
    assert NoWhitespace(word) by { LowerKeepsWhitespace(word); }
    SplitBeforeSpace(word, space);
    assert w != "!crate" && w != "!ban" by { assert |w| == 9; }
  }

  /** A whitespace-free word and one whitespace character split into the word and an empty remainder. */
  lemma SplitBeforeSpace(word: string, space: char)
    requires NoWhitespace(word) && IsWhitespace(space)
    ensures SplitCommand(word + [space]) == (word, Some([]))
  {
    SplitAtSpace(word, space, []);
    assert word + [space] + [] == word + [space];
  }

  /**
   * A whitespace-free word, one whitespace character and any text split
   * into the word and that text as the remainder.
   */
  lemma SplitAtSpace(word: string, space: char, rest: string)
    requires NoWhitespace(word) && IsWhitespace(space)
    ensures SplitCommand(word + [space] + rest) == (word, Some(rest))
  {
    var content := word + [space] + rest;
    assert content == word + ([space] + rest);
    FirstWhitespaceOfWord(word, [space] + rest);
    assert content[..|word|] == word;
    assert content[|word| + 1..] == rest;
  }

  /**
   * `user_message`: the routed handler's answer and the map of last
   * executions after it. Custom commands are looked up as the code is
   * written, comparing an alias with its own entry's key; the off days are
   * listed in `order`, the iteration order of the set.
   */
  function HandleUser(config: LegacySettings.Config, st: Schedule.State, order: seq<Schedule.Weekday>,
                      message: Message, now: int, fetch: string -> Option<nat>): (r: LegacySettings.Reply)
    requires UserHandler.Enumerates(order, st.offDays)
    ensures !RouteUser(message.content).RunCustom? ==> r.lastExecuted == st.lastExecuted
    ensures RouteUser(message.content).RunCustom? ==>
      r == UserHandler.CustomResponse(UserHandler.AsWritten, config, RouteUser(message.content).name,
                                      RouteUser(message.content).args, st.lastExecuted, now, message.source)
  {
    match RouteUser(message.content)
    case ListCommands => LegacySettings.Reply(UserHandler.CommandsResponse(config), st.lastExecuted)
    case ListLinks => LegacySettings.Reply(UserHandler.LinksResponse(config, message.source), st.lastExecuted)
    case ShowSchedule => LegacySettings.Reply(UserHandler.ScheduleResponse(st, order), st.lastExecuted)
    case LookUpCrate(name) => LegacySettings.Reply(UserHandler.CrateResponse(name, fetch), st.lastExecuted)
    case BanUser(target) => LegacySettings.Reply(UserHandler.BanResponse(target), st.lastExecuted)
    case RunCustom(name, args) =>
      UserHandler.CustomResponse(UserHandler.AsWritten, config, name, args, st.lastExecuted, now, message.source)
  }

  /**
   * The listing built-ins answer a message that is their word alone, in any
   * ASCII case, and leave the execution record as it was.
   */
  lemma ListingMessages(config: LegacySettings.Config, st: Schedule.State, order: seq<Schedule.Weekday>,
                        message: Message, now: int, fetch: string -> Option<nat>)
    requires UserHandler.Enumerates(order, st.offDays)
    ensures ToLower(message.content) == "!commands" ==>
      HandleUser(config, st, order, message, now, fetch) ==
      LegacySettings.Reply(UserHandler.CommandsResponse(config), st.lastExecuted)
    ensures ToLower(message.content) == "!links" ==>
      HandleUser(config, st, order, message, now, fetch) ==
      LegacySettings.Reply(UserHandler.LinksResponse(config, message.source), st.lastExecuted)
    ensures ToLower(message.content) == "!schedule" ==>
      HandleUser(config, st, order, message, now, fetch) ==
      LegacySettings.Reply(UserHandler.ScheduleResponse(st, order), st.lastExecuted)
  {
    CommandsAlone(message.content, "!commands");
    LinksAlone(message.content, "!links");
    ScheduleAlone(message.content, "!schedule");
  }

  /**
   * A one-word message other than the listing words goes to the custom
   * command lookup as written, under its lowercased word and without
   * arguments.
   */
  lemma OneWordIsCustom(config: LegacySettings.Config, st: Schedule.State, order: seq<Schedule.Weekday>,
                        message: Message, now: int, fetch: string -> Option<nat>)
    requires UserHandler.Enumerates(order, st.offDays)
    requires NoWhitespace(message.content)
    requires ToLower(message.content) != "!commands" && ToLower(message.content) != "!links"
    requires ToLower(message.content) != "!schedule"
    ensures HandleUser(config, st, order, message, now, fetch) ==
      UserHandler.CustomResponse(UserHandler.AsWritten, config, ToLower(message.content), None,
                                 st.lastExecuted, now, message.source)
  {
    assert SplitCommand(message.content) == (message.content, None);
  }

  /**
   * A command word followed by whitespace and a remainder goes to the custom
   * command lookup as written, with the remainder as its arguments, unless
   * the word is "!crate" or "!ban".
   */
  lemma WordWithArgumentsIsCustom(config: LegacySettings.Config, st: Schedule.State, order: seq<Schedule.Weekday>,
                                  source: Source, word: string, space: char, rest: string,
                                  now: int, fetch: string -> Option<nat>)
    requires UserHandler.Enumerates(order, st.offDays)
    requires NoWhitespace(word) && IsWhitespace(space)
    requires ToLower(word) != "!crate" && ToLower(word) != "!ban"
    ensures HandleUser(config, st, order, Message(source, word + [space] + rest), now, fetch) ==
      UserHandler.CustomResponse(UserHandler.AsWritten, config, ToLower(word), Some(rest),
                                 st.lastExecuted, now, source)
  {
    SplitAtSpace(word, space, rest);
  }

  // ---------------------------------------------------------------------------
  // Admin messages

  /**
   * Where an admin message goes, with the words the handler is given; the
   * custom-commands handler is also given the whole message, from which it
   * takes the response text.
   */
  datatype AdminCommand =
    | Help
    | ScheduleSet(field: string, begin: string, end: string)
    | OffDays(action: string, weekday: string)
    | CustomCommandsList
    | CustomCommands(action: string, source: string, name: string, content: string)
    | UnknownAdmin

  /**
   * `admin_message` routing on the words of the message: `None` for a
   * message without words (an error in the bot), otherwise the handler
   * selected by the lowercased first word and the number of words after it,
   * looking at no more than four of them. The custom-commands handler gets
   * the message itself as well.
   */
  function RouteAdmin(content: string): (r: Option<AdminCommand>)
    ensures r.None? <==> AllWhitespace(content)
    ensures r.Some? && r.value.CustomCommands? ==> r.value.content == content
  {
    NoWordsIffBlank(content);
    var words := SplitWhitespace(content);
    if words == [] then None
    else Some(RouteWords(ToLower(words[0]), words[1..], content))
  }

  /**
   * The admin handler for a lowercased command word and the words after it,
   * with the whole message for the custom-commands handler.
   */
  function RouteWords(command: string, rest: seq<string>, content: string): (r: AdminCommand)
    ensures r.CustomCommands? ==> r.content == content
  {
    var n := |rest|;
    if command == "!help" && n == 0 then Help
    else if command == "!schedule" && n >= 4 && rest[0] == "set" then ScheduleSet(rest[1], rest[2], rest[3])
    else if command == "!off_days" && n == 2 then OffDays(rest[0], rest[1])
    else if command == "!custom_commands" && n == 1 && rest[0] == "list" then CustomCommandsList
    else if command == "!custom_commands" && n >= 3 then CustomCommands(rest[0], rest[1], rest[2], content)
    else UnknownAdmin
  }

  /** A message of words joined by single spaces is routed on those words. */
  lemma RouteAdminOfWords(words: seq<string>)
    requires AreWords(words) && words != []
    ensures RouteAdmin(Join(" ", words)) == Some(RouteWords(ToLower(words[0]), words[1..], Join(" ", words)))
  {
    SplitJoinRoundTrip(words);
  }

  /**
   * The admin handlers by the number of words after the command word:
   * "!help" alone, "!off_days" with exactly two more, "!custom_commands
   * list" alone, "!schedule set" and the other "!custom_commands" forms
   * with at least three more.
   */
  lemma AdminRouting(command: string, rest: seq<string>, content: string)
    ensures var r := RouteWords(command, rest, content);
      && (r == Help <==> command == "!help" && |rest| == 0)
      && (r.OffDays? <==> command == "!off_days" && |rest| == 2)
      && (r == CustomCommandsList <==> command == "!custom_commands" && |rest| == 1 && rest[0] == "list")
      && (r.ScheduleSet? <==> command == "!schedule" && |rest| >= 4 && rest[0] == "set")
      && (r.CustomCommands? <==> command == "!custom_commands" && |rest| >= 3)
  {
  }

  /**
   * Words after the fifth never change which handler an admin message goes
   * to, nor the words it is given; only the custom-commands handler sees
   * them, through the whole message it is handed.
   */
  lemma AdminIgnoresExtraWords(words: seq<string>)
    requires AreWords(words) && |words| >= 5
    ensures var full := RouteAdmin(Join(" ", words));
      var short := RouteAdmin(Join(" ", words[..5]));
      && full.Some? && short.Some?
      && (!full.value.CustomCommands? ==> full == short)
      && (full.value.CustomCommands? <==> short.value.CustomCommands?)
      && (full.value.CustomCommands? ==>
            && full.value.action == short.value.action
            && full.value.source == short.value.source
            && full.value.name == short.value.name
            && full.value.content == Join(" ", words))
  {
    AreWordsPrefix(words, 5);
    RouteAdminOfWords(words);
    RouteAdminOfWords(words[..5]);
    FirstFourDecide(ToLower(words[0]), words, Join(" ", words), Join(" ", words[..5]));
  }

  /** A prefix of words is words. */
  lemma AreWordsPrefix(words: seq<string>, n: nat)
    requires AreWords(words) && n <= |words|
    ensures AreWords(words[..n])
  {
    forall i | 0 <= i < n ensures words[..n][i] != [] && NoWhitespace(words[..n][i]) {
      assert words[..n][i] == words[i];
    }
  }

  /**
   * The words after the command word are routed on the first four of them;
   * the two messages differ only in the text handed to custom commands.
   */
  lemma FirstFourDecide(command: string, words: seq<string>, content: string, shorter: string)
    requires |words| >= 5
    ensures words[..5][0] == words[0]
    ensures var full := RouteWords(command, words[1..], content);
      var short := RouteWords(command, words[..5][1..], shorter);
      && (!full.CustomCommands? ==> full == short)
      && (full.CustomCommands? <==> short.CustomCommands?)
      && (full.CustomCommands? ==>
            full.action == short.action && full.source == short.source && full.name == short.name)
  {
    var rest := words[1..];
    var other := words[..5][1..];
    assert rest[0] == other[0] && rest[1] == other[1] && rest[2] == other[2] && rest[3] == other[3];
  }
}
