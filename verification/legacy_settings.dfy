/**
 * The earlier generation of the configuration (src/settings.rs), which the
 * user handler still uses: command entries are switches, plain messages or
 * custom commands whose answer is their format text, gated by the same
 * cooldown as the current generation. Its state and schedule records are
 * those of the `Schedule` module, which this file repeats word for word.
 */
module LegacySettings {
  import opened Base
  import Cooldown
  import Schedule
  import ConfigParsing
  import Respond

  /** A custom command of this generation: its arguments are declared but never used. */
  datatype Command = Command(
    args: Option<seq<string>>,
    format: Option<string>,
    cooldown: Option<NonZeroU32>,
    aliases: Option<seq<string>>)

  /** An entry of the `commands` table. */
  datatype CommandItem = Enabled(on: bool) | Message(text: string) | Custom(command: Command)

  /**
   * The configuration. Both tables are hash maps in the bot; here each is
   * the sequence of its entries in iteration order. The platform login
   * records are not part of this model.
   */
  datatype Config = Config(links: seq<(string, string)>, commands: seq<(string, CommandItem)>)

  /** The answer of one invocation and the map of last executions after it. */
  datatype Reply = Reply(response: UserResponse, lastExecuted: map<string, int>)

  /**
   * `Command::respond` of this generation: the cooldown gate, then the
   * format text verbatim, or `Unknown` without one. The argument text and
   * the platform are accepted and ignored.
   */
  function RespondTo(c: Command, name: string, args: Option<string>, lastExecuted: map<string, int>, now: int,
                     source: Source): (r: Reply)
    ensures c.cooldown.None? ==> r.lastExecuted == lastExecuted
    ensures c.cooldown.Some? && Cooldown.CoolingDown(c.cooldown.value, name, lastExecuted, now) ==>
      r == Reply(Unknown, lastExecuted)
    ensures c.cooldown.Some? && !Cooldown.CoolingDown(c.cooldown.value, name, lastExecuted, now) ==>
      r.lastExecuted == lastExecuted[name := now]
    ensures r.response.Custom? <==>
      c.format.Some? && !(c.cooldown.Some? && Cooldown.CoolingDown(c.cooldown.value, name, lastExecuted, now))
    ensures r.response.Custom? ==> r.response.content == c.format.value
    ensures !r.response.Custom? ==> r.response == Unknown
  {
    var gate := Cooldown.Check(c.cooldown, name, lastExecuted, now);
    if !gate.allowed then Reply(Unknown, lastExecuted)
    else
      match c.format
      case Some(text) => Reply(UserResponse.Custom(text), gate.lastExecuted)
      case None => Reply(Unknown, gate.lastExecuted)
  }

  /** The answer depends neither on the argument text nor on the platform. */
  lemma ArgumentsAndSourceIgnored(c: Command, name: string, args1: Option<string>, args2: Option<string>,
                                  lastExecuted: map<string, int>, now: int, source1: Source, source2: Source)
    ensures RespondTo(c, name, args1, lastExecuted, now, source1) == RespondTo(c, name, args2, lastExecuted, now, source2)
  {
  }

  /**
   * A command without format that passes its gate answers `Unknown` and
   * still records the execution.
   */
  lemma FormatlessRunIsRecorded(c: Command, name: string, args: Option<string>, lastExecuted: map<string, int>,
                                now: int, source: Source)
    requires c.format.None? && c.cooldown.Some?
    requires !Cooldown.CoolingDown(c.cooldown.value, name, lastExecuted, now)
    ensures RespondTo(c, name, args, lastExecuted, now, source) == Reply(Unknown, lastExecuted[name := now])
  {
  }

  /**
   * The current generation, given a command without declared arguments,
   * one format for every platform and the default platforms, answers
   * exactly as this generation does and leaves the same record behind.
   */
  lemma AgreesWithCurrentGeneration(c: Command, name: string, args: Option<string>, lastExecuted: map<string, int>,
                                    now: int, source: Source, fill: (string, seq<string>) -> Option<string>,
                                    fetch: string -> Option<nat>)
    ensures var current := ConfigParsing.Command(
        None,
        match c.format case Some(text) => Some(ConfigParsing.Universal(text)) case None => None,
        c.cooldown, c.aliases, ConfigParsing.AllPlatforms());
      var r := Respond.RespondTo(current, name, args, lastExecuted, now, source, fill, fetch);
      var legacy := RespondTo(c, name, args, lastExecuted, now, source);
      r.outcome == Ok(legacy.response) && r.lastExecuted == legacy.lastExecuted
  {
  }

  /**
   * This generation's `format_range`: one time with its suffix when both
   * ends agree, otherwise two readings around '~' with the suffix only on
   * the second, which shows the end time in full.
   */
  lemma RangeRendering(range: (Schedule.Time, Schedule.Time))
    ensures var s := Schedule.FormatRange(range);
      && (range.0 == range.1 ==> s == Schedule.Clock(range.0) + Schedule.Meridiem(range.0.hour))
      && (range.0 != range.1 ==>
            && s[..5] == Schedule.Clock(range.0)
            && s[5] == '~'
            && Schedule.ReadTime(s[6..]) == Some((range.1.hour, range.1.minute)))
  {
    var s := Schedule.FormatRange(range);
    if range.0 != range.1 {
      var b := Schedule.Clock(range.1) + Schedule.Meridiem(range.1.hour);
      assert s == Schedule.Clock(range.0) + "~" + b;
      assert s[6..] == b;
      Schedule.TimeRoundTrip(range.1);
    }
  }
}
