/**
 * The configuration records of custom commands (src/settings/config_parsing.rs
 * and src/settings/config.rs): argument descriptors and their parser, the
 * command record with its platform default, and named functions.
 */
module ConfigParsing {
  import opened Base
  import opened Text
  import CT = CommandTypes

  /** An argument of a command: a type in one of three roles. */
  datatype Argument = Simple(ty: CT.Type) | Test(ty: CT.Type) | Format(ty: CT.Type)

  /** One response for every platform, or one per platform. */
  datatype FormatString = Universal(text: string) | Specific(bySource: map<Source, string>)

  /** A configured custom command. */
  datatype Command = Command(
    args: Option<seq<Argument>>,
    format: Option<FormatString>,
    cooldown: Option<NonZeroU32>,
    aliases: Option<seq<string>>,
    platforms: seq<Source>)

  /** A built-in function reference `@path/name`. */
  datatype NamedFunction = NamedFunction(path: string, name: string)

  /** An entry of the `commands` table. */
  datatype CommandItem = Function(named: NamedFunction) | Message(message: string) | Custom(command: Command)

  /** The outcome of a `FromStr` that reports errors as text. */
  datatype Parsed<+T> = Accepted(value: T) | Rejected(message: string)

  /** `all_platforms`: the platforms a command runs on when it names none. */
  function AllPlatforms(): (ps: seq<Source>)
    ensures Discord in ps && Twitch in ps
  {
    [Discord, Twitch]
  }

  /** A command as deserialised, with `platforms` defaulting to `AllPlatforms`. */
  function MakeCommand(args: Option<seq<Argument>>, format: Option<FormatString>, cooldown: Option<NonZeroU32>,
                       aliases: Option<seq<string>>, platforms: Option<seq<Source>>): (c: Command)
    ensures platforms.Some? ==> c.platforms == platforms.value
    ensures platforms.None? ==> Discord in c.platforms && Twitch in c.platforms
  {
    Command(args, format, cooldown, aliases, match platforms case Some(ps) => ps case None => AllPlatforms())
  }

  /** `Argument::get_type`: the type under any role. */
  function GetType(a: Argument): (t: CT.Type)
    ensures a == Simple(t) || a == Test(t) || a == Format(t)
  {
    match a
    case Simple(t) => t
    case Test(t) => t
    case Format(t) => t
  }

  // ---------------------------------------------------------------------------
  // The descriptor grammar `type[?|!parsearg[<!>errorarg]]`

  predicate IsAsciiLetter(c: char) {
    ('a' <= c <= 'z') || ('A' <= c <= 'Z')
  }

  predicate IsSeparator(c: char) {
    c == '?' || c == '!'
  }

  /** The named groups of the descriptor regex. */
  datatype Captures = Captures(typeName: string, separator: Option<char>, parseArg: Option<string>, errorArg: Option<string>)

  /** Index of the first separator in `s`, or `|s|`. */
  function SeparatorIndex(s: string): (k: nat)
    ensures k <= |s|
    ensures forall i :: 0 <= i < k ==> !IsSeparator(s[i])
    ensures k < |s| ==> IsSeparator(s[k])
  {
    if s == [] || IsSeparator(s[0]) then 0 else 1 + SeparatorIndex(s[1..])
  }

  /** `<!>` starts at index `i` of `s`. */
  predicate DelimAt(s: string, i: int) {
    0 <= i && i + 3 <= |s| && s[i] == '<' && s[i + 1] == '!' && s[i + 2] == '>'
  }

  /** Width of the error-argument delimiter (`:<!>` or `<!>`) starting at `j`, or 0. */
  function DelimiterWidth(rest: string, j: nat): (w: nat)
    requires j <= |rest|
    ensures w == 0 || w == 3 || w == 4
    ensures j + w <= |rest|
    ensures w == 4 <==> j < |rest| && rest[j] == ':' && DelimAt(rest, j + 1)
    ensures w == 3 <==> !(j < |rest| && rest[j] == ':' && DelimAt(rest, j + 1)) && DelimAt(rest, j)
  {
    if j < |rest| && rest[j] == ':' && DelimAt(rest, j + 1) then 4
    else if DelimAt(rest, j) then 3
    else 0
  }

  /** The first position at or after `j` where a delimiter starts, or `|rest|`. */
  function DelimiterIndex(rest: string, j: nat): (k: nat)
    requires j <= |rest|
    ensures j <= k <= |rest|
    ensures forall i :: j <= i < k ==> DelimiterWidth(rest, i) == 0
    ensures k < |rest| ==> DelimiterWidth(rest, k) > 0
    decreases |rest| - j
  {
    if j == |rest| || DelimiterWidth(rest, j) > 0 then j else DelimiterIndex(rest, j + 1)
  }

  /**
   * The parse argument and the error argument in the text after the
   * separator. The parse argument is lazy, so it ends at the first `:<!>` or
   * `<!>`; without a delimiter there is no error argument.
   */
  function SplitArgs(rest: string): (string, Option<string>) {
    var j := DelimiterIndex(rest, 0);
    var w := DelimiterWidth(rest, j);
    (rest[..j], if w == 0 then None else Some(rest[j + w..]))
  }

  /**
   * The match of the descriptor regex, `None` when it has no match. The type
   * group is lazy, so the type name ends at the first `?` or `!` after the
   * leading letter. No group matches a line feed, and the pattern is
   * anchored at both ends, so a line feed anywhere rules out a match.
   */
  function Match(s: string): (c: Option<Captures>)
    ensures c.None? <==> (s == [] || !IsAsciiLetter(s[0]) || '\n' in s)
  {
    if s == [] || !IsAsciiLetter(s[0]) || '\n' in s then None
    else
      var k := 1 + SeparatorIndex(s[1..]);
      if k == |s| then Some(Captures(s, None, None, None))
      else
        var (p, e) := SplitArgs(s[k + 1..]);
        Some(Captures(s[..k], Some(s[k]), Some(p), e))
  }

  /** `Argument::from_str`: the role comes from the separator, the type from `Type::parse`. */
  function ParseArgument(s: string): (r: Result<Argument>)
    ensures Match(s).None? ==> r == Panic(NoDescriptorMatch)
  {
    match Match(s)
    case None => Panic(NoDescriptorMatch)
    case Some(Captures(name, sep, a, e)) =>
      match sep
      case None =>
        (match CT.Parse(name, None, None)
         case Ok(t) => Ok(Simple(t))
         case Panic(f) => Panic(f))
      case Some(c) =>
        match CT.Parse(name, a, e)
        case Ok(t) => Ok(if c == '!' then Format(t) else Test(t))
        case Panic(f) => Panic(f)
  }

  // ---------------------------------------------------------------------------
  // Rendering descriptors, the reference the parser is checked against

  /** `p` holds no `<!>`. */
  predicate NoDelimiter(p: string) {
    forall i :: 0 <= i < |p| ==> !DelimAt(p, i)
  }

  /** A type group: a leading ASCII letter, then no separator and no line feed. */
  predicate ValidTypeGroup(name: string) {
    && name != [] && IsAsciiLetter(name[0])
    && forall i :: 0 <= i < |name| ==> !IsSeparator(name[i]) && name[i] != '\n'
  }

  /** Captures that a descriptor can produce. */
  predicate WellFormed(c: Captures) {
    && ValidTypeGroup(c.typeName)
    && (c.separator.Some? <==> c.parseArg.Some?)
    && (c.separator.Some? ==> IsSeparator(c.separator.value))
    && (c.errorArg.Some? ==> c.parseArg.Some?)
    && (c.parseArg.Some? ==> NoDelimiter(c.parseArg.value) && '\n' !in c.parseArg.value)
    && (c.errorArg.Some? ==> '\n' !in c.errorArg.value)
  }

  predicate EndsWithColon(p: string) {
    p != [] && p[|p| - 1] == ':'
  }

  /**
   * The delimiter written after a parse argument: `<!>`, or `:<!>` when the
   * parse argument ends with a colon, which the short form would absorb.
   */
  function DelimiterFor(p: string): string {
    if EndsWithColon(p) then ":<!>" else "<!>"
  }

  /** The text after the separator: the parse argument, then the delimited error argument. */
  function ArgsText(p: string, e: Option<string>): string {
    p + (match e case Some(x) => DelimiterFor(p) + x case None => [])
  }

  /** The canonical descriptor text of some captures. */
  function Render(c: Captures): string {
    c.typeName
    + match c.separator
      case None => []
      case Some(sep) => [sep] + ArgsText(match c.parseArg case Some(p) => p case None => [], c.errorArg)
  }

  /** Every element of a slice is an element of the whole. */
  lemma SliceMembers(s: string, a: nat, b: nat)
    requires a <= b <= |s|
    ensures forall x :: x in s[a..b] ==> x in s
  {
    forall x | x in s[a..b]
      ensures x in s
    {
      var i :| 0 <= i < b - a && s[a..b][i] == x;
      assert s[a + i] == x;
    }
  }

  /** The separator search stops right after a separator-free name. */
  lemma {:induction false} SeparatorIndexAfterName(name: string, after: string)
    requires forall i :: 0 <= i < |name| ==> !IsSeparator(name[i])
    requires after == [] || IsSeparator(after[0])
    ensures SeparatorIndex(name + after) == |name|
    decreases |name|
  {
    if name == [] {
      assert name + after == after;
    } else {
      assert (name + after)[1..] == name[1..] + after;
      SeparatorIndexAfterName(name[1..], after);
    }
  }

  /** The delimiter search stops at the first delimiter. */
  lemma DelimiterIndexIsFirst(rest: string, j: nat, k: nat)
    requires j <= k <= |rest|
    requires forall i :: j <= i < k ==> DelimiterWidth(rest, i) == 0
    requires k == |rest| || DelimiterWidth(rest, k) > 0
    ensures DelimiterIndex(rest, j) == k
    decreases k - j
  {
    if j < k {
      DelimiterIndexIsFirst(rest, j + 1, k);
    }
  }

  /** Where a delimiter-free `p` may be followed by `tail` without a delimiter starting inside `p`. */
  predicate TailFits(p: string, tail: string) {
    || tail == []
    || (DelimAt(tail, 0) && !EndsWithColon(p))
    || (tail[0] == ':' && DelimAt(tail, 1))
  }

  /** No `<!>` starts inside `p` when `p` is followed by a fitting tail. */
  lemma NoDelimAtBefore(p: string, tail: string, i: int)
    requires NoDelimiter(p) && TailFits(p, tail)
    requires 0 <= i < |p|
    ensures !DelimAt(p + tail, i)
  {
    var s := p + tail;
    if i + 3 <= |p| {
      assert !DelimAt(p, i);
      assert s[i] == p[i] && s[i + 1] == p[i + 1] && s[i + 2] == p[i + 2];
    } else if tail != [] && i + 1 == |p| {
      assert s[i + 1] == tail[0];
    } else if tail != [] {
      assert s[i + 2] == tail[0];
    }
  }

  /** No delimiter starts inside a delimiter-free `p` when `p` is followed by a fitting tail. */
  lemma NoDelimiterBefore(p: string, tail: string, i: nat)
    requires NoDelimiter(p) && TailFits(p, tail)
    requires i < |p|
    ensures DelimiterWidth(p + tail, i) == 0
  {
    NoDelimAtBefore(p, tail, i);
    if i + 1 < |p| {
      NoDelimAtBefore(p, tail, i + 1);
    } else if tail != [] {
      assert (p + tail)[i] == p[|p| - 1];
      assert (p + tail)[i + 1] == tail[0];
    }
  }

  /** The arguments text of a delimiter-free parse argument and an error argument splits back into them. */
  lemma SplitArgsOf(p: string, e: Option<string>)
    requires NoDelimiter(p)
    ensures SplitArgs(ArgsText(p, e)) == (p, e)
  {
    var tail := match e case Some(x) => DelimiterFor(p) + x case None => [];
    var rest := p + tail;
    assert rest == ArgsText(p, e);
    forall i | 0 <= i < |p|
      ensures DelimiterWidth(rest, i) == 0
    {
      NoDelimiterBefore(p, tail, i);
    }
    if e.Some? {
      var w := |DelimiterFor(p)|;
      assert rest[|p| + w..] == e.value;
      assert DelimiterWidth(rest, |p|) == w;
    }
    DelimiterIndexIsFirst(rest, 0, |p|);
    assert rest[..|p|] == p;
  }

  /** The parse argument holds no delimiter. */
  lemma SplitArgsParseArg(rest: string)
    ensures NoDelimiter(SplitArgs(rest).0)
  {
    var j := DelimiterIndex(rest, 0);
    var p := rest[..j];
    forall i | 0 <= i < |p|
      ensures !DelimAt(p, i)
    {
      assert DelimiterWidth(rest, i) == 0;
      if i + 3 <= |p| {
        assert p[i] == rest[i] && p[i + 1] == rest[i + 1] && p[i + 2] == rest[i + 2];
      }
    }
  }

  /** A colon that ends the parse argument is followed by the long delimiter. */
  lemma SplitArgsColon(rest: string)
    ensures var j := DelimiterIndex(rest, 0);
      EndsWithColon(rest[..j]) && j < |rest| ==> DelimiterWidth(rest, j) == 4
  {
    var j := DelimiterIndex(rest, 0);
    if EndsWithColon(rest[..j]) && j < |rest| {
      assert rest[j - 1] == ':';
      assert DelimiterWidth(rest, j - 1) == 0;
      assert !DelimAt(rest, j);
    }
  }

  /** The text after the separator reads back from its parse and error argument. */
  lemma SplitArgsRejoin(rest: string)
    ensures var (p, e) := SplitArgs(rest);
      rest == ArgsText(p, e) || (e.Some? && rest == p + ":<!>" + e.value)
  {
    var j := DelimiterIndex(rest, 0);
    var w := DelimiterWidth(rest, j);
    var (p, e) := SplitArgs(rest);
    assert p == rest[..j] && e == (if w == 0 then None else Some(rest[j + w..]));
    SplitArgsColon(rest);
    if w == 3 {
      DelimiterText(rest, j, "<!>");
      assert DelimiterFor(p) == "<!>";
      assert rest == ArgsText(p, e);
    } else if w == 4 {
      DelimiterText(rest, j, ":<!>");
      assert rest == p + ":<!>" + e.value;
    } else {
      assert rest == p + [];
      assert rest == ArgsText(p, e);
    }
  }

  /** A text that holds `d` at `j` is the text before, `d`, and the text after. */
  lemma DelimiterText(rest: string, j: nat, d: string)
    requires j + |d| <= |rest| && rest[j..j + |d|] == d
    ensures rest == rest[..j] + (d + rest[j + |d|..])
  {
    assert rest == rest[..j] + rest[j..j + |d|] + rest[j + |d|..];
  }

  /** The type group of a descriptor ends at its first separator. */
  lemma TypeGroupEnds(name: string, after: string)
    requires ValidTypeGroup(name)
    requires after == [] || IsSeparator(after[0])
    ensures 1 + SeparatorIndex((name + after)[1..]) == |name|
    ensures '\n' !in name
  {
    assert forall i :: 0 <= i < |name| - 1 ==> name[1..][i] == name[i + 1];
    assert (name + after)[1..] == name[1..] + after;
    SeparatorIndexAfterName(name[1..], after);
  }

  /** A character in neither part is not in their concatenation. */
  lemma NotInConcat(a: string, b: string, x: char)
    requires x !in a && x !in b
    ensures x !in a + b
  {
    forall i | 0 <= i < |a + b|
      ensures (a + b)[i] != x
    {
      if i < |a| {
        assert (a + b)[i] == a[i];
      } else {
        assert (a + b)[i] == b[i - |a|];
      }
    }
  }

  /** A descriptor that is only a type group matches without separator. */
  lemma MatchPlain(name: string)
    requires ValidTypeGroup(name)
    ensures Match(name) == Some(Captures(name, None, None, None))
  {
    TypeGroupEnds(name, []);
    assert name + [] == name;
  }

  /** A type group, a separator and the arguments text match group by group. */
  lemma MatchSeparated(name: string, sep: char, args: string)
    requires ValidTypeGroup(name) && IsSeparator(sep) && '\n' !in args
    ensures Match(name + ([sep] + args))
      == Some(Captures(name, Some(sep), Some(SplitArgs(args).0), SplitArgs(args).1))
  {
    var s := name + ([sep] + args);
    TypeGroupEnds(name, [sep] + args);
    NotInConcat([sep], args, '\n');
    NotInConcat(name, [sep] + args, '\n');
    assert s[..|name|] == name;
    assert s[|name|] == sep;
    assert s[|name| + 1..] == args;
  }

  /** The arguments text of well-formed captures holds no line feed. */
  lemma ArgsTextNoNewline(p: string, e: Option<string>)
    requires '\n' !in p && (e.Some? ==> '\n' !in e.value)
    ensures '\n' !in ArgsText(p, e)
  {
    if e.Some? {
      NotInConcat(DelimiterFor(p), e.value, '\n');
      NotInConcat(p, DelimiterFor(p) + e.value, '\n');
    } else {
      assert ArgsText(p, e) == p + [];
    }
  }

  /**
   * Parse stability of descriptors: rendering well-formed captures and
   * matching the text gives the same captures back.
   */
  lemma MatchRender(c: Captures)
    requires WellFormed(c)
    ensures Match(Render(c)) == Some(c)
  {
    if c.separator.None? {
      assert Render(c) == c.typeName + [] == c.typeName;
      MatchPlain(c.typeName);
    } else {
      var args := ArgsText(c.parseArg.value, c.errorArg);
      ArgsTextNoNewline(c.parseArg.value, c.errorArg);
      MatchSeparated(c.typeName, c.separator.value, args);
      SplitArgsOf(c.parseArg.value, c.errorArg);
    }
  }

  /** Every match of the descriptor regex is well formed. */
  lemma MatchWellFormed(s: string)
    requires Match(s).Some?
    ensures WellFormed(Match(s).value)
  {
    var c := Match(s).value;
    var k := 1 + SeparatorIndex(s[1..]);
    assert forall i :: 1 <= i < k ==> s[i] == s[1..][i - 1];
    assert '\n' !in s;
    if k < |s| {
      var rest := s[k + 1..];
      SplitArgsParseArg(rest);
      SliceMembers(s, k + 1, |s|);
      var j := DelimiterIndex(rest, 0);
      SliceMembers(rest, 0, j);
      if c.errorArg.Some? {
        SliceMembers(rest, j + DelimiterWidth(rest, j), |rest|);
      }
    }
  }

  /**
   * Matching only splits the text: it reads back as the rendered captures,
   * or with `:<!>` in place of `<!>` when the colon was absorbed.
   */
  lemma MatchSplitsText(s: string)
    requires Match(s).Some?
    ensures var c := Match(s).value;
      || s == Render(c)
      || (c.errorArg.Some? && s == c.typeName + [c.separator.value] + c.parseArg.value + ":<!>" + c.errorArg.value)
  {
    var k := 1 + SeparatorIndex(s[1..]);
    if k < |s| {
      var rest := s[k + 1..];
      var (p, e) := SplitArgs(rest);
      assert Match(s) == Some(Captures(s[..k], Some(s[k]), Some(p), e));
      assert s == s[..k] + ([s[k]] + rest);
      RejoinSeparated(s[..k], s[k], rest);
    } else {
      assert s == s + [];
    }
  }

  /** A type group, a separator and the text after it read back from the captures split off that text. */
  lemma RejoinSeparated(name: string, sep: char, rest: string)
    ensures var (p, e) := SplitArgs(rest);
      var s := name + ([sep] + rest);
      || s == Render(Captures(name, Some(sep), Some(p), e))
      || (e.Some? && s == name + [sep] + p + ":<!>" + e.value)
  {
    var (p, e) := SplitArgs(rest);
    SplitArgsRejoin(rest);
    if rest != ArgsText(p, e) {
      assert name + ([sep] + rest) == name + [sep] + p + ":<!>" + e.value;
    }
  }

  // ---------------------------------------------------------------------------
  // Descriptors of whole arguments

  /** Types that a descriptor with a separator can denote. */
  predicate DescribableType(t: CT.Type) {
    match t
    case String(n) => n >= 1
    case Url(p, e) => WellFormed(Captures("url", Some('?'), Some(p), e))
  }

  /** Arguments that a descriptor can denote: a bare `url` cannot. */
  predicate Describable(a: Argument) {
    match a
    case Simple(t) => t.String? && t.count >= 1
    case Test(t) => DescribableType(t)
    case Format(t) => DescribableType(t)
  }

  function TemplateOf(t: CT.Type): string {
    match t case Url(p, _) => p case String(_) => []
  }

  function ErrorTemplateOf(t: CT.Type): Option<string> {
    match t case Url(_, e) => e case String(_) => None
  }

  /** The captures that denote type `t` after separator `sep`. */
  function CapturesOf(t: CT.Type, sep: char): Captures {
    Captures(CT.TypeName(t), Some(sep), Some(TemplateOf(t)), ErrorTemplateOf(t))
  }

  /** The canonical descriptor of an argument. */
  function Describe(a: Argument): string {
    match a
    case Simple(t) => Render(Captures(CT.TypeName(t), None, None, None))
    case Test(t) => Render(CapturesOf(t, '?'))
    case Format(t) => Render(CapturesOf(t, '!'))
  }

  lemma {:induction false} DotsAreDots(n: nat)
    ensures forall i :: 0 <= i < n ==> CT.Dots(n)[i] == '.'
  {
    if n > 0 {
      DotsAreDots(n - 1);
    }
  }

  /** A canonical type name is a valid type group. */
  lemma TypeNameIsValid(t: CT.Type)
    ensures ValidTypeGroup(CT.TypeName(t))
  {
    if t.String? {
      var d := CT.Dots(t.count);
      DotsAreDots(t.count);
      var name := "string" + d;
      assert CT.TypeName(t) == name;
      forall i | 0 <= i < |name|
        ensures !IsSeparator(name[i]) && name[i] != '\n'
      {
        if i >= 6 {
          assert name[i] == d[i - 6];
        }
      }
    }
  }

  /** The captures of a describable type after a separator are well formed. */
  lemma CapturesOfWellFormed(t: CT.Type, sep: char)
    requires DescribableType(t) && IsSeparator(sep)
    ensures WellFormed(CapturesOf(t, sep))
  {
    TypeNameIsValid(t);
  }

  /** A describable type after a separator parses back to itself. */
  lemma ParseWithSeparator(t: CT.Type, sep: char)
    requires DescribableType(t) && IsSeparator(sep)
    ensures Match(Render(CapturesOf(t, sep))) == Some(CapturesOf(t, sep))
    ensures CT.Parse(CT.TypeName(t), Some(TemplateOf(t)), ErrorTemplateOf(t)) == Ok(t)
  {
    CapturesOfWellFormed(t, sep);
    MatchRender(CapturesOf(t, sep));
    CT.TypeNameRoundTrip(t, Some(TemplateOf(t)), ErrorTemplateOf(t));
  }

  /**
   * Parse stability of arguments: the canonical descriptor of a describable
   * argument parses back to that argument.
   */
  lemma ParseDescribe(a: Argument)
    requires Describable(a)
    ensures ParseArgument(Describe(a)) == Ok(a)
  {
    match a
    case Simple(t) =>
      var c := Captures(CT.TypeName(t), None, None, None);
      TypeNameIsValid(t);
      MatchRender(c);
      CT.TypeNameRoundTrip(t, None, None);
    case Test(t) =>
      ParseWithSeparator(t, '?');
    case Format(t) =>
      ParseWithSeparator(t, '!');
  }

  function ResultMap(r: Result<CT.Type>, role: CT.Type -> Argument): Result<Argument> {
    match r
    case Ok(t) => Ok(role(t))
    case Panic(f) => Panic(f)
  }

  /**
   * The role follows the separator: none gives `Simple`, `!` gives `Format`
   * and `?` gives `Test`; the type is `Type::parse` of the captured groups,
   * where a descriptor without separator passes no templates and one with a
   * separator always passes a parse argument, possibly empty.
   */
  lemma ParseArgumentRoles(s: string)
    requires Match(s).Some?
    ensures var c := Match(s).value;
      && (c.separator.None? ==> ParseArgument(s) == ResultMap(CT.Parse(c.typeName, None, None), t => Simple(t)))
      && (c.separator == Some('!') ==> ParseArgument(s) == ResultMap(CT.Parse(c.typeName, c.parseArg, c.errorArg), t => Format(t)))
      && (c.separator == Some('?') ==> ParseArgument(s) == ResultMap(CT.Parse(c.typeName, c.parseArg, c.errorArg), t => Test(t)))
      && (c.separator.Some? ==> c.parseArg.Some? && IsSeparator(c.separator.value))
  {
    MatchWellFormed(s);
  }

  /** A bare `url` descriptor has no template and aborts. */
  lemma BareUrlAborts()
    ensures ParseArgument("url") == Panic(UrlWithoutArgument)
  {
    var c := Captures("url", None, None, None);
    assert Render(c) == "url";
    MatchRender(c);
  }

  /**
   * A descriptor that is only a `string…` type name binds as many tokens as
   * it has dots, and at least one.
   */
  lemma PlainStringDescriptor(s: string)
    requires ValidTypeGroup(s) && StartsWith(s, "string")
    ensures ParseArgument(s) == Ok(Simple(CT.String(CT.Max(1, Count(s, '.')))))
  {
    MatchPlain(s);
  }

  /** A parse argument without `!` holds no delimiter. */
  lemma NoBangNoDelimiter(p: string)
    requires '!' !in p
    ensures NoDelimiter(p)
  {
    forall i | 0 <= i < |p|
      ensures !DelimAt(p, i)
    {
      if i + 1 < |p| {
        assert p[i + 1] in p;
      }
    }
  }

  /** The colon before `<!>` is absorbed into the delimiter. */
  lemma ExampleColonDelimiter(s: string, rest: string)
    requires s == "url?a:<!>b" && rest == "a:<!>b"
    ensures ParseArgument(s) == Ok(Test(CT.Url("a", Some("b"))))
  {
    ColonExampleMatch(s, "url", rest);
    assert CT.Parse("url", Some("a"), Some("b")) == Ok(CT.Url("a", Some("b")));
  }

  /** "url?a:<!>b" matches as the type "url", a test argument "a" and an error argument "b". */
  lemma ColonExampleMatch(s: string, name: string, rest: string)
    requires s == "url?a:<!>b" && name == "url" && rest == "a:<!>b"
    ensures Match(s) == Some(Captures(name, Some('?'), Some("a"), Some("b")))
  {
    assert ValidTypeGroup(name) by {
      assert |name| == 3 && name[0] == 'u' && name[1] == 'r' && name[2] == 'l';
    }
    assert '\n' !in rest by {
      assert forall c | c in rest :: c != '\n';
    }
    assert s == name + (['?'] + rest) by {
      assert |s| == 10 && s[..3] == name && s[3] == '?' && s[4..] == rest;
    }
    MatchSeparated(name, '?', rest);
    ColonExampleSplit(rest);
  }

  /** In "a:<!>b" the parse argument "a" ends at the colon of `:<!>`. */
  lemma ColonExampleSplit(rest: string)
    requires rest == "a:<!>b"
    ensures SplitArgs(rest) == ("a", Some("b"))
  {
    assert DelimiterWidth(rest, 0) == 0;
    assert DelimiterWidth(rest, 1) == 4;
    DelimiterIndexIsFirst(rest, 0, 1);
    assert rest[..1] == "a" && rest[5..] == "b";
  }

  // ---------------------------------------------------------------------------
  // Named functions

  /** `NamedFunction::from_str`: `@path/name`, split at its only `/`. */
  function ParseNamedFunction(s: string): (r: Parsed<NamedFunction>)
    ensures r.Accepted? <==> StartsWith(s, "@") && Count(s, '/') == 1
    ensures r.Accepted? ==> StartsWith(r.value.path, "@") && s == r.value.path + "/" + r.value.name
  {
    if StartsWith(s, "@") then
      var split := SplitN(s, '/', 3);
      SplitNIntoTwo(s, '/');
      if |split| == 2 then
        Accepted(NamedFunction(split[0], split[1]))
      else
        Rejected("Function name should contain two path elements `" + s + "`")
    else
      Rejected("Function name should start with @: `" + s + "`")
  }

  /** `splitn(3, c)` gives two pieces exactly when `c` occurs once, and they rejoin to `s`. */
  lemma SplitNIntoTwo(s: string, c: char)
    ensures |SplitN(s, c, 3)| == 2 <==> Count(s, c) == 1
    ensures |SplitN(s, c, 3)| == 2 ==> s == SplitN(s, c, 3)[0] + [c] + SplitN(s, c, 3)[1] && c !in SplitN(s, c, 3)[0]
  {
    var i := IndexOf(s, c);
    if i < |s| {
      var tail := s[i + 1..];
      assert s == s[..i] + [c] + tail;
      CountAppend(s[..i] + [c], tail, c);
      CountAppend(s[..i], [c], c);
      assert Count(s[..i], c) == 0;
      var j := IndexOf(tail, c);
      if j < |tail| {
        assert Count(tail, c) > 0;
      }
    } else {
      assert s[..i] == s;
    }
  }

  /** A function reference built from a slash-free path and name parses back to its parts. */
  lemma NamedFunctionRoundTrip(path: string, name: string)
    requires StartsWith(path, "@") && '/' !in path && '/' !in name
    ensures ParseNamedFunction(path + "/" + name) == Accepted(NamedFunction(path, name))
  {
    var s := path + "/" + name;
    assert s[..|path|] == path;
    assert s[..1] == path[..1];
    CountAppend(path + "/", name, '/');
    CountAppend(path, "/", '/');
    var r := ParseNamedFunction(s);
    assert r.Accepted?;
    assert r.value.path + "/" + r.value.name == s;
    assert '/' !in r.value.path by { SplitNIntoTwo(s, '/'); }
    PrefixBeforeSlash(path, name, r.value.path, r.value.name);
  }

  /** The first `c` of a text that starts with a `c`-free part comes right after that part. */
  lemma {:induction false} IndexAfterFreePart(p: string, rest: string, c: char)
    requires c !in p && rest != [] && rest[0] == c
    ensures IndexOf(p + rest, c) == |p|
    decreases |p|
  {
    if p == [] {
      assert p + rest == rest;
    } else {
      assert (p + rest)[1..] == p[1..] + rest;
      IndexAfterFreePart(p[1..], rest, c);
    }
  }

  /** Two slash-free splits of the same text at a slash agree. */
  lemma PrefixBeforeSlash(p1: string, n1: string, p2: string, n2: string)
    requires '/' !in p1 && '/' !in p2
    requires p1 + "/" + n1 == p2 + "/" + n2
    ensures p1 == p2 && n1 == n2
  {
    var s := p1 + "/" + n1;
    IndexAfterFreePart(p1, "/" + n1, '/');
    IndexAfterFreePart(p2, "/" + n2, '/');
    assert s == p1 + ("/" + n1) == p2 + ("/" + n2);
    assert p1 == s[..|p1|];
    assert p2 == s[..|p2|];
    assert n1 == s[|p1| + 1..];
    assert n2 == s[|p2| + 1..];
  }
}
