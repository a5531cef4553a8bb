/**
 * The user-facing command handlers (src/handler/user.rs): the listing of
 * command names, the links, the schedule with named weekdays, the crate
 * lookup, the ban, and the lookup of a configured command by name or alias.
 * The handlers work on the earlier generation of the configuration.
 *
 * The crate lookup's HTTP request is the `fetch` oracle: the status of a GET
 * request, or `None` when the request could not be made.
 */
module UserHandler {
  import opened Base
  import opened Text
  import opened Schedule
  import opened LegacySettings

  // ---------------------------------------------------------------------------
  // Listing command names

  /**
   * How an entry shows in the listing: disabled switches are hidden; a
   * custom command with aliases shows them after its name.
   */
  function Label(name: string, item: CommandItem): Option<string> {
    match item
    case Enabled(on) => if on then Some(name) else None
    case Message(_) => Some(name)
    case Custom(c) =>
      match c.aliases
      case None => Some(name)
      case Some(aliases) => if |aliases| == 0 then Some(name) else Some(name + " (or " + Join(", ", aliases) + ")")
  }

  /** `list_command_names`: the labels of the entries, in iteration order. */
  function ListCommandNames(commands: seq<(string, CommandItem)>): (names: seq<string>)
    ensures |names| <= |commands|
  {
    if commands == [] then []
    else
      var rest := ListCommandNames(commands[1..]);
      match Label(commands[0].0, commands[0].1)
      case Some(l) => [l] + rest
      case None => rest
  }

  /** The listing holds exactly the labels of the entries that have one. */
  lemma {:induction false} ListedIffLabelled(commands: seq<(string, CommandItem)>, x: string)
    ensures x in ListCommandNames(commands) <==>
      exists i :: 0 <= i < |commands| && Label(commands[i].0, commands[i].1) == Some(x)
    decreases |commands|
  {
    if commands != [] {
      ListedIffLabelled(commands[1..], x);
      if x in ListCommandNames(commands[1..]) {
        var i :| 0 <= i < |commands[1..]| && Label(commands[1..][i].0, commands[1..][i].1) == Some(x);
        assert commands[i + 1] == commands[1..][i];
      }
      if exists i :: 0 <= i < |commands| && Label(commands[i].0, commands[i].1) == Some(x) {
        var i :| 0 <= i < |commands| && Label(commands[i].0, commands[i].1) == Some(x);
        if i > 0 {
          assert commands[1..][i - 1] == commands[i];
        }
      }
    }
  }

  /** Listing keeps the iteration order: the listing of two runs of entries is the concatenation of theirs. */
  lemma {:induction false} ListingConcatenates(a: seq<(string, CommandItem)>, b: seq<(string, CommandItem)>)
    ensures ListCommandNames(a + b) == ListCommandNames(a) + ListCommandNames(b)
    decreases |a|
  {
    if a == [] {
      assert a + b == b;
    } else {
      assert (a + b)[0] == a[0];
      assert (a + b)[1..] == a[1..] + b;
      ListingConcatenates(a[1..], b);
    }
  }

  /**
   * A label starts with the entry's name, and is the bare name unless the
   * entry is a custom command with at least one alias, in which case it
   * reads "name (or a1, a2, …)".
   */
  lemma LabelShape(name: string, item: CommandItem)
    requires Label(name, item).Some?
    ensures StartsWith(Label(name, item).value, name)
    ensures Label(name, item).value == name <==>
      !(item.Custom? && item.command.aliases.Some? && |item.command.aliases.value| > 0)
    ensures item.Custom? && item.command.aliases.Some? && |item.command.aliases.value| > 0 ==>
      Label(name, item).value == name + " (or " + Join(", ", item.command.aliases.value) + ")"
  {
    var l := Label(name, item).value;
    assert l[..|name|] == name;
  }

  /** Exactly the disabled switches are left out of the listing. */
  lemma HiddenIffDisabled(name: string, item: CommandItem)
    ensures Label(name, item).None? <==> item == Enabled(false)
  {
  }

  /** `commands`: the listing, which never fails here. */
  function CommandsResponse(config: Config): (r: UserResponse)
    ensures r.Commands? && r.names.Some?
    ensures forall x :: x in r.names.value <==>
      exists i :: 0 <= i < |config.commands| && Label(config.commands[i].0, config.commands[i].1) == Some(x)
  {
    forall x ensures x in ListCommandNames(config.commands) <==>
      exists i :: 0 <= i < |config.commands| && Label(config.commands[i].0, config.commands[i].1) == Some(x)
    {
      ListedIffLabelled(config.commands, x);
    }
    Commands(Some(ListCommandNames(config.commands)))
  }

  /** `links`: the configured links, the same for every platform. */
  function LinksResponse(config: Config, source: Source): (r: UserResponse)
    ensures r.Links? && r.links == config.links
  {
    match source
    case Discord => Links(config.links)
    case Twitch => Links(config.links)
  }

  // ---------------------------------------------------------------------------
  // Schedule

  /** The English name of a weekday. */
  function WeekdayName(d: Weekday): string {
    match d
    case Mon => "Monday"
    case Tue => "Tuesday"
    case Wed => "Wednesday"
    case Thu => "Thursday"
    case Fri => "Friday"
    case Sat => "Saturday"
    case Sun => "Sunday"
  }

  /** The weekday an English name stands for. */
  function DayNamed(s: string): Option<Weekday> {
    if s == "Monday" then Some(Mon)
    else if s == "Tuesday" then Some(Tue)
    else if s == "Wednesday" then Some(Wed)
    else if s == "Thursday" then Some(Thu)
    else if s == "Friday" then Some(Fri)
    else if s == "Saturday" then Some(Sat)
    else if s == "Sunday" then Some(Sun)
    else None
  }

  /** Naming a weekday can be undone, and only the seven names name a weekday. */
  lemma WeekdayNameRoundTrip(d: Weekday, s: string)
    ensures DayNamed(WeekdayName(d)) == Some(d)
    ensures DayNamed(s) == Some(d) <==> s == WeekdayName(d)
  {
  }

  /**
   * `schedule`: the rendered start and finish ranges and the names of the
   * off days, listed in `order`, the iteration order of the set.
   */
  function ScheduleResponse(st: State, order: seq<Weekday>): (r: UserResponse)
    ensures r.Schedule?
    ensures r.start == FormatStart(st.schedule) && r.finish == FormatFinish(st.schedule)
    ensures |r.offDays| == |order|
    ensures forall i :: 0 <= i < |order| ==> DayNamed(r.offDays[i]) == Some(order[i])
  {
    var names := seq(|order|, i requires 0 <= i < |order| => WeekdayName(order[i]));
    assert forall i :: 0 <= i < |order| ==> DayNamed(names[i]) == Some(order[i]) by {
      forall i | 0 <= i < |order| ensures DayNamed(names[i]) == Some(order[i]) {
        WeekdayNameRoundTrip(order[i], names[i]);
      }
    }
    Schedule(FormatStart(st.schedule), FormatFinish(st.schedule), names)
  }

  /** `order` visits every element of `days` exactly once. */
  predicate Enumerates(order: seq<Weekday>, days: set<Weekday>) {
    && (forall d :: d in order <==> d in days)
    && (forall i, j :: 0 <= i < j < |order| ==> order[i] != order[j])
  }

  /**
   * Whatever the iteration order, the schedule names each off day once and
   * names nothing else.
   */
  lemma ScheduleNamesOffDays(st: State, order: seq<Weekday>)
    requires Enumerates(order, st.offDays)
    ensures var names := ScheduleResponse(st, order).offDays;
      && (forall d :: d in st.offDays <==> WeekdayName(d) in names)
      && (forall i :: 0 <= i < |names| ==> DayNamed(names[i]).Some? && DayNamed(names[i]).value in st.offDays)
      && (forall i, j :: 0 <= i < j < |names| ==> names[i] != names[j])
  {
    var names := ScheduleResponse(st, order).offDays;
    forall d ensures d in st.offDays <==> WeekdayName(d) in names {
      if d in st.offDays {
        var i :| 0 <= i < |order| && order[i] == d;
        WeekdayNameRoundTrip(d, names[i]);
      }
      if WeekdayName(d) in names {
        var i :| 0 <= i < |names| && names[i] == WeekdayName(d);
        WeekdayNameRoundTrip(d, names[i]);
      }
    }
  }

  // ---------------------------------------------------------------------------
  // Crate lookup and ban

  const CratesPrefix: string := "https://lib.rs/crates/"
  const StatusNotFound: nat := 404

  /** The lib.rs page of a crate. */
  function CrateLink(name: string): (link: string)
    ensures StartsWith(link, CratesPrefix) && link[|CratesPrefix|..] == name
  {
    CratesPrefix + name
  }

  /**
   * `crate_`: the crate's lib.rs page when it answers `200 OK`, a note that
   * the crate does not exist on `404 Not Found`, and a failure on any other
   * status or when the request cannot be made.
   */
  function CrateResponse(name: string, fetch: string -> Option<nat>): (r: UserResponse)
    ensures r.Crate?
    ensures fetch(CrateLink(name)) == Some(200) ==> r.link == Some(CrateLink(name))
    ensures fetch(CrateLink(name)) == Some(StatusNotFound) ==> r.link == Some("Crate `" + name + "` doesn't exist")
    ensures r.link.None? <==> fetch(CrateLink(name)) != Some(200) && fetch(CrateLink(name)) != Some(StatusNotFound)
  {
    var link := CrateLink(name);
    match fetch(link)
    case Some(status) =>
      if status == 200 then Crate(Some(link))
      else if status == StatusNotFound then Crate(Some("Crate `" + name + "` doesn't exist"))
      else Crate(None)
    case None => Crate(None)
  }

  /** `ban`: the target, as given. */
  function BanResponse(target: string): (r: UserResponse)
    ensures r.Ban? && r.target == target
  {
    Ban(target)
  }

  // ---------------------------------------------------------------------------
  // Custom commands

  /**
   * The two ways of matching an entry against a typed name: as the bot
   * does it, with aliases compared against the entry's own key, and as it
   * is evidently meant, with aliases compared against the typed name.
   */
  datatype Lookup = AsWritten | Corrected

  /** Some alias of the entry equals `s`, ignoring ASCII case. */
  predicate HasAlias(item: CommandItem, s: string) {
    item.Custom? && item.command.aliases.Some? &&
    exists a :: a in item.command.aliases.value && EqIgnoreAsciiCase(a, s)
  }

  /** Whether the entry `(key, item)` answers to the typed name. */
  predicate Matches(lookup: Lookup, typed: string, entry: (string, CommandItem)) {
    || EqIgnoreAsciiCase(typed, entry.0)
    || HasAlias(entry.1, match lookup case AsWritten => entry.0 case Corrected => typed)
  }

  /** The first entry in iteration order that answers to the typed name, or the number of entries. */
  function Find(lookup: Lookup, commands: seq<(string, CommandItem)>, typed: string): (k: nat)
    ensures k <= |commands|
    ensures k < |commands| ==> Matches(lookup, typed, commands[k])
    ensures forall j :: 0 <= j < k ==> !Matches(lookup, typed, commands[j])
  {
    if commands == [] then 0
    else if Matches(lookup, typed, commands[0]) then 0
    else 1 + Find(lookup, commands[1..], typed)
  }

  /**
   * `custom`: a word without the leading '!' is unknown; otherwise the
   * first entry answering to the rest of the word decides: a switch is
   * unknown, a message is the answer, and a custom command responds under
   * its configuration key.
   */
  function CustomResponse(lookup: Lookup, config: Config, name: string, args: Option<string>,
                          lastExecuted: map<string, int>, now: int, source: Source): (r: Reply)
    ensures !StartsWith(name, "!") ==> r == Reply(Unknown, lastExecuted)
    ensures StartsWith(name, "!") ==>
      var k := Find(lookup, config.commands, name[1..]);
      && (k == |config.commands| ==> r == Reply(Unknown, lastExecuted))
      && (k < |config.commands| ==>
            match config.commands[k].1
            case Enabled(_) => r == Reply(Unknown, lastExecuted)
            case Message(m) => r == Reply(UserResponse.Custom(m), lastExecuted)
            case Custom(c) => r == LegacySettings.RespondTo(c, config.commands[k].0, args, lastExecuted, now, source))
  {
    if !StartsWith(name, "!") then Reply(Unknown, lastExecuted)
    else
      var k := Find(lookup, config.commands, name[1..]);
      if k == |config.commands| then Reply(Unknown, lastExecuted)
      else
        match config.commands[k].1
        case Enabled(_) => Reply(Unknown, lastExecuted)
        case Message(m) => Reply(UserResponse.Custom(m), lastExecuted)
        case Custom(c) => LegacySettings.RespondTo(c, config.commands[k].0, args, lastExecuted, now, source)
  }

  /**
   * The lookup does not depend on the iteration order when one entry alone
   * answers to the typed name: that entry is found wherever it sits.
   */
  lemma {:induction false} OnlyMatchIsFound(lookup: Lookup, commands: seq<(string, CommandItem)>, typed: string, j: nat)
    requires j < |commands| && Matches(lookup, typed, commands[j])
    requires forall i :: 0 <= i < |commands| && i != j ==> !Matches(lookup, typed, commands[i])
    ensures Find(lookup, commands, typed) == j
    decreases j
  {
    if j > 0 {
      assert !Matches(lookup, typed, commands[0]);
      forall i | 0 <= i < |commands[1..]| && i != j - 1
        ensures !Matches(lookup, typed, commands[1..][i])
      {
        assert commands[1..][i] == commands[i + 1];
      }
      OnlyMatchIsFound(lookup, commands[1..], typed, j - 1);
    }
  }

  /**
   * As written, an alias is compared with its own entry's key, so an entry
   * with an alias equal to its key answers to every typed name.
   */
  lemma AliasEqualToKeyAnswersAll(typed: string, key: string, c: Command, a: string)
    requires c.aliases.Some? && a in c.aliases.value && EqIgnoreAsciiCase(a, key)
    ensures Matches(AsWritten, typed, (key, CommandItem.Custom(c)))
  {
  }

  /**
   * As written, typing an alias does not reach its command: with the only
   * entry "hi" aliased "hello", "!hello" is unknown, while the corrected
   * lookup answers with the command's message.
   */
  lemma AliasUnreachableAsWritten(config: Config, typed: string, now: int, source: Source)
    requires config == Config([], [("hi", CommandItem.Custom(Command(None, Some("Hi!"), None, Some(["hello"]))))])
    requires typed == "!hello"
    ensures CustomResponse(AsWritten, config, typed, None, map[], now, source) == Reply(Unknown, map[])
    ensures CustomResponse(Corrected, config, typed, None, map[], now, source) ==
      Reply(UserResponse.Custom("Hi!"), map[])
  {
    var entry := config.commands[0];
    assert typed[1..] == "hello";
    assert ToLower("hello") != ToLower("hi") by {
      assert |ToLower("hello")| == 5 && |ToLower("hi")| == 2;
    }
    assert !HasAlias(entry.1, "hi") by {
      forall a | a in entry.1.command.aliases.value ensures !EqIgnoreAsciiCase(a, "hi") {
        assert a == "hello";
      }
    }
    assert !Matches(AsWritten, "hello", entry);
    assert Matches(Corrected, "hello", entry) by {
      assert "hello" in entry.1.command.aliases.value;
    }
  }

  /**
   * With the corrected lookup, typing "!" and an alias of the only entry
   * answering to it runs that entry's command under the entry's key, so
   * aliases share the key's cooldown record.
   */
  lemma AliasRunsUnderKey(config: Config, j: nat, a: string, args: Option<string>,
                          lastExecuted: map<string, int>, now: int, source: Source)
    requires j < |config.commands| && config.commands[j].1.Custom?
    requires HasAlias(config.commands[j].1, a)
    requires forall i :: 0 <= i < |config.commands| && i != j ==> !Matches(Corrected, a, config.commands[i])
    ensures CustomResponse(Corrected, config, "!" + a, args, lastExecuted, now, source) ==
      LegacySettings.RespondTo(config.commands[j].1.command, config.commands[j].0, args, lastExecuted, now, source)
  {
    var name := "!" + a;
    assert name[1..] == a;
    assert StartsWith(name, "!") by { assert name[..1] == "!"; }
    OnlyMatchIsFound(Corrected, config.commands, a, j);
  }
}
