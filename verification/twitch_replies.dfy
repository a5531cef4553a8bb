/**
 * The Twitch adapter's replies (src/twitch.rs): each user response becomes
 * at most one chat line, built from the response's parts. Sending the line
 * is not part of this model.
 */
module TwitchReplies {
  import opened Base
  import opened Text
  import opened Listing

  const CommandsApology: string := "Sorry, something went wrong fetching the list of commands"

  /**
   * The command list: every name behind a '!' after "Available commands: ",
   * or an apology when the names could not be listed.
   */
  function CommandsReply(names: Option<seq<string>>): (r: string)
    ensures names.None? ==> r == CommandsApology
    ensures names == Some([]) ==> r == "Available commands: !"
  {
    match names
    case Some(list) => "Available commands: !" + Join(", !", list)
    case None => CommandsApology
  }

  /** The listed names are the names, each behind a '!', separated by ", ". */
  lemma CommandsListed(names: seq<string>)
    requires names != []
    ensures CommandsReply(Some(names)) == "Available commands: " + Join(", ", Wrapped(names, "!", ""))
  {
    PrefixedJoin("!", ", ", names);
    assert ", " + "!" == ", !";
    assert "Available commands: " + "!" == "Available commands: !";
  }

  /** The links: "name: url" for every entry, separated by " | ". */
  function LinksReply(links: seq<(string, string)>): (r: string)
    ensures r == Join(" | ", Entries(links, ": ", ""))
    ensures links == [] ==> r == []
  {
    EntryLines(links, ": ", "", " | ")
  }

  /** The off days as the adapter writes them: "Every day, except A, B and C". */
  function DaysAsWritten(offDays: seq<string>): (r: Result<string>)
    ensures r.Panic? <==> offDays == []
  {
    ExceptAsWritten(offDays, "")
  }

  /** The off days with a single day standing alone. */
  function Days(offDays: seq<string>): (r: Result<string>)
    ensures r.Panic? <==> offDays == []
    ensures |offDays| == 1 ==> r == Ok(ExceptPrefix + offDays[0])
    ensures |offDays| >= 2 ==> r == DaysAsWritten(offDays)
  {
    assert |offDays| == 1 ==> "" + offDays[0] + "" == offDays[0];
    Except(offDays, "")
  }

  /** A single off day is written "Every day, except  and Sun". */
  lemma SingleDayAsWritten(day: string)
    ensures DaysAsWritten([day]) == Ok(ExceptPrefix + " and " + day)
    ensures Days([day]) == Ok(ExceptPrefix + day)
  {
    ExceptSingleAsWritten(day, "");
    assert "" + day + "" == day;
    assert ExceptPrefix + (" and " + day) == ExceptPrefix + " and " + day;
  }

  /** The times part of the schedule line. */
  function TimeLine(start: string, finish: string): string {
    "Starting around " + start + ", finishing around " + finish
  }

  /**
   * The schedule line: the off days as the adapter writes them, the start
   * and finish times and the time zone, separated by " | ".
   */
  function ScheduleReply(start: string, finish: string, offDays: seq<string>): (r: Result<string>)
    ensures r.Panic? <==> offDays == []
    ensures r.Ok? ==> r.value == DaysAsWritten(offDays).value + " | " + TimeLine(start, finish) + " | Timezone CET"
  {
    match DaysAsWritten(offDays)
    case Panic(f) => Panic(f)
    case Ok(days) => Ok(days + " | " + TimeLine(start, finish) + " | Timezone CET")
  }

  /**
   * The schedule line for every non-empty list of off days, spelled out:
   * "Every day, except A, B and C", the times line and "Timezone CET",
   * separated by " | ", with " and D" as the list of a single day D.
   */
  lemma ScheduleClosedForm(start: string, finish: string, offDays: seq<string>)
    requires offDays != []
    ensures ScheduleReply(start, finish, offDays) ==
      Ok(ExceptPrefix + AndList(offDays) + " | " + TimeLine(start, finish) + " | Timezone CET")
  {
    ExceptAsWrittenClosedForm(offDays, "");
    Unmarked(offDays);
  }

  /**
   * `handle_message` and `handle_user_message`: the line a response
   * becomes, if any. Admin responses, unknown commands, wrong arguments
   * and, having no arm here, crate lookups and bans get no reply.
   */
  function Reply(resp: Response): (r: Result<Option<string>>)
  {
    match resp
    case Admin => Ok(None)
    case User(user) =>
      match user
      case Commands(names) => Ok(Some(CommandsReply(names)))
      case Links(links) => Ok(Some(LinksReply(links)))
      case Schedule(start, finish, offDays) =>
        (match ScheduleReply(start, finish, offDays)
         case Panic(f) => Panic(f)
         case Ok(line) => Ok(Some(line)))
      case Custom(content) => Ok(Some(content))
      case _ => Ok(None)
  }

  /** Which responses get a line, which one a custom command gets, and when the adapter aborts. */
  lemma ReplyCases(resp: Response)
    ensures Reply(resp) == Ok(None) <==>
      resp.Admin? || resp.user.Unknown? || resp.user.WrongArgs? || resp.user.Crate? || resp.user.Ban?
    ensures Reply(resp).Panic? <==> resp.User? && resp.user.Schedule? && resp.user.offDays == []
    ensures resp.User? && resp.user.Custom? ==> Reply(resp) == Ok(Some(resp.user.content))
    ensures resp.User? && resp.user.Links? ==> Reply(resp) == Ok(Some(Join(" | ", Entries(resp.user.links, ": ", ""))))
  {
  }
}
