/**
 * The cooldown gate of custom commands (src/commands.rs and the legacy
 * src/settings.rs share it word for word): a command with a cooldown runs at
 * most once per cooldown window, keyed by its name in the `last_executed`
 * map of the bot state.
 *
 * Instants are whole nanoseconds since the epoch, as chrono counts them; the
 * clock is a parameter, read once per call.
 */
module Cooldown {
  import opened Base

  const NanosPerSecond: int := 1_000_000_000

  /** The verdict of the gate and the map of last executions it leaves behind. */
  datatype Gate = Gate(allowed: bool, lastExecuted: map<string, int>)

  /** The command `name` last ran less than `cooldown` seconds before `now`. */
  predicate CoolingDown(cooldown: NonZeroU32, name: string, lastExecuted: map<string, int>, now: int) {
    name in lastExecuted && now < lastExecuted[name] + cooldown * NanosPerSecond
  }

  /**
   * The gate: a command without cooldown always passes and leaves the map
   * alone; one with a cooldown is refused while it cools down and otherwise
   * passes and records `now` as its last execution.
   */
  function Check(cooldown: Option<NonZeroU32>, name: string, lastExecuted: map<string, int>, now: int): (g: Gate)
    ensures !g.allowed <==> cooldown.Some? && CoolingDown(cooldown.value, name, lastExecuted, now)
    ensures cooldown.None? || !g.allowed ==> g.lastExecuted == lastExecuted
    ensures cooldown.Some? && g.allowed ==> name in g.lastExecuted && g.lastExecuted[name] == now
    ensures g.lastExecuted.Keys == lastExecuted.Keys + (if g.lastExecuted == lastExecuted then {} else {name})
    ensures forall k :: k in lastExecuted && k != name ==> g.lastExecuted[k] == lastExecuted[k]
  {
    match cooldown
    case None => Gate(true, lastExecuted)
    case Some(seconds) =>
      if name in lastExecuted && lastExecuted[name] + seconds * NanosPerSecond > now then
        Gate(false, lastExecuted)
      else
        Gate(true, lastExecuted[name := now])
  }

  /**
   * Rate limit: once the gate lets a command through, it refuses the same
   * command for the rest of the window, and lets it through again as soon as
   * the window has passed.
   */
  lemma OncePerWindow(cooldown: NonZeroU32, name: string, lastExecuted: map<string, int>, now: int, later: int)
    requires Check(Some(cooldown), name, lastExecuted, now).allowed
    requires now <= later
    ensures var after := Check(Some(cooldown), name, lastExecuted, now).lastExecuted;
      Check(Some(cooldown), name, after, later).allowed <==> later >= now + cooldown * NanosPerSecond
  {
  }

  /** The gate of one command never changes the record of another. */
  lemma OtherCommandsUntouched(cooldown: Option<NonZeroU32>, name: string, other: string,
                               lastExecuted: map<string, int>, now: int)
    requires other != name
    ensures var after := Check(cooldown, name, lastExecuted, now).lastExecuted;
      (other in after <==> other in lastExecuted) && (other in after ==> after[other] == lastExecuted[other])
  {
  }

  /**
   * A ten-second cooldown: a first run passes, a run five seconds later is
   * refused, and runs ten or eleven seconds after the first pass again.
   */
  lemma TenSecondScenario(name: string, t0: int)
    ensures var first := Check(Some(10), name, map[], t0);
      && first.allowed
      && !Check(Some(10), name, first.lastExecuted, t0 + 5 * NanosPerSecond).allowed
      && Check(Some(10), name, first.lastExecuted, t0 + 10 * NanosPerSecond).allowed
      && Check(Some(10), name, first.lastExecuted, t0 + 11 * NanosPerSecond).allowed
  {
  }
}
