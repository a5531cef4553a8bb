/**
 * The Discord adapter's replies to user commands (src/discord/user.rs):
 * message texts built from the response's parts, and the schedule as a
 * message with an embed of three fields. Sending them is not part of this
 * model, and neither is the adapter's routing of responses (src/discord/mod.rs).
 */
module DiscordReplies {
  import opened Base
  import opened Text
  import opened Listing
  import UserHandler

  /** The fixed description of the built-in commands that opens the command list. */
  const Header: string :=
    "Available commands:\n"
    + "`!help` (or `!bot`) gives a short info about this bot.\n"
    + "`!lark` tells **togglebit** that he's a lark.\n"
    + "`!links` gives you a list of links to sites where **togglebit** is present.\n"
    + "`!schedule` tells you the Twitch streaming schedule of **togglebit**.\n"
    + "`!crate` get the link for any existing crate.\n"
    + "`!ban` refuse anything with the power of Gandalf.\n"
    + "\n"
    + "Further custom commands:\n"

  const CommandsApology: string := "Sorry, something went wrong fetching the list of commands"
  const CrateApology: string := "Sorry, something went wrong looking up the crate"

  /**
   * The command list: the header, then every name as inline code behind a
   * '!', separated by ", "; or an apology when the names could not be listed.
   */
  function CommandsReply(names: Option<seq<string>>): (r: string)
    ensures names.None? ==> r == CommandsApology
    ensures names.Some? ==> r == Header + Join(", ", Wrapped(names.value, "`!", "`"))
  {
    match names
    case Some(list) =>
      FoldIsJoin(Wrapped(list, "`!", "`"), ", ", Header);
      Fold(Wrapped(list, "`!", "`"), ", ", Header)
    case None => CommandsApology
  }

  /** With no custom commands the list is the header alone. */
  lemma NoCustomCommands()
    ensures CommandsReply(Some([])) == Header
  {
  }

  /** The links: "name: <url>" for every entry, one per line. */
  function LinksReply(links: seq<(string, string)>): (r: string)
    ensures r == Join("\n", Entries(links, ": <", ">"))
    ensures links == [] ==> r == []
  {
    EntryLines(links, ": <", ">", "\n")
  }

  /** The off days in bold as the adapter writes them. */
  function DaysAsWritten(offDays: seq<string>): (r: Result<string>)
    ensures r.Panic? <==> offDays == []
  {
    ExceptAsWritten(offDays, "**")
  }

  /** The off days in bold with a single day standing alone. */
  function Days(offDays: seq<string>): (r: Result<string>)
    ensures r.Panic? <==> offDays == []
    ensures |offDays| == 1 ==> r == Ok(ExceptPrefix + ("**" + offDays[0] + "**"))
    ensures |offDays| >= 2 ==> r == DaysAsWritten(offDays)
  {
    Except(offDays, "**")
  }

  /** A single off day is written "Every day, except  and **Sun**". */
  lemma SingleDayAsWritten(day: string)
    ensures DaysAsWritten([day]) == Ok(ExceptPrefix + " and " + ("**" + day + "**"))
    ensures Days([day]) == Ok(ExceptPrefix + ("**" + day + "**"))
  {
    ExceptSingleAsWritten(day, "**");
    assert ExceptPrefix + (" and " + ("**" + day + "**")) == ExceptPrefix + " and " + ("**" + day + "**");
  }

  /** A reply with an embed of named fields. */
  datatype Embedded = Embedded(content: string, fields: seq<(string, string)>)

  /** The time field: start and finish in bold. */
  function TimeField(start: string, finish: string): string {
    "starting around **" + start + "**, finishing around **" + finish + "**"
  }

  /**
   * The schedule reply: a short text with the fields "Days" (the off days
   * as the adapter writes them), "Time" and "Timezone" (always "CET").
   */
  function ScheduleReply(start: string, finish: string, offDays: seq<string>): (r: Result<Embedded>)
    ensures r.Panic? <==> offDays == []
    ensures r.Ok? ==> r.value.content == "Here is togglebit's stream schedule:"
    ensures r.Ok? ==> r.value.fields == [("Days", DaysAsWritten(offDays).value), ("Time", TimeField(start, finish)), ("Timezone", "CET")]
  {
    match DaysAsWritten(offDays)
    case Panic(f) => Panic(f)
    case Ok(days) =>
      Ok(Embedded("Here is togglebit's stream schedule:",
                  [("Days", days), ("Time", TimeField(start, finish)), ("Timezone", "CET")]))
  }

  /**
   * The schedule reply for every non-empty list of off days, spelled out:
   * the "Days" field reads "Every day, except **A**, **B** and **C**", with
   * " and **D**" as the list of a single day D.
   */
  lemma ScheduleClosedForm(start: string, finish: string, offDays: seq<string>)
    requires offDays != []
    ensures ScheduleReply(start, finish, offDays) ==
      Ok(Embedded("Here is togglebit's stream schedule:",
                  [("Days", ExceptPrefix + AndList(Wrapped(offDays, "**", "**"))),
                   ("Time", "starting around **" + start + "**, finishing around **" + finish + "**"),
                   ("Timezone", "CET")]))
  {
    ExceptAsWrittenClosedForm(offDays, "**");
  }

  /** The crate reply: the text found, or an apology when the lookup failed. */
  function CrateReply(link: Option<string>): (r: string)
    ensures link.Some? ==> r == link.value
    ensures link.None? ==> r == CrateApology
  {
    match link
    case Some(text) => text
    case None => CrateApology
  }

  /**
   * What a crate lookup says on Discord: the lib.rs link when the page is
   * there, that the crate does not exist on a 404, an apology otherwise.
   */
  lemma CrateLookupReply(name: string, fetch: string -> Option<nat>)
    ensures var r := CrateReply(UserHandler.CrateResponse(name, fetch).link);
      var status := fetch(UserHandler.CrateLink(name));
      && (status == Some(200) ==> r == UserHandler.CratesPrefix + name)
      && (status == Some(UserHandler.StatusNotFound) ==> r == "Crate `" + name + "` doesn't exist")
      && (status != Some(200) && status != Some(UserHandler.StatusNotFound) ==> r == CrateApology)
  {
  }
}
