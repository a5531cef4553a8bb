/**
 * The argument types of custom commands (`Type` in src/commands.rs): how a
 * type name is read, how many whitespace-separated tokens a type consumes,
 * and how a bound value is validated and transformed.
 *
 * Two collaborators are parameters. `fill` stands for the positional template
 * formatter (`SimpleCurlyFormat`): it either yields the filled text or fails.
 * `fetch` stands for an HTTP GET issued with the bot's user agent: it yields
 * the response status, or `None` when the request could not be made.
 */
module CommandTypes {
  import opened Base
  import opened Text

  /** Fills the positional slots of a template; `None` when it cannot. */
  type Fill = (string, seq<string>) -> Option<string>

  /** The status of a GET request to a link; `None` on a transport failure. */
  type Fetch = string -> Option<nat>

  /** The HTTP status `200 OK`. */
  const StatusOk: nat := 200

  /**
   * `String(count)` binds `count` tokens as free text; `Url(primary, error)`
   * binds one token that is put into the primary template to build a link,
   * and into the error template when that link is unreachable.
   */
  datatype Type = String(count: nat) | Url(primary: string, error: Option<string>)

  function Max(a: int, b: int): int {
    if a < b then b else a
  }

  /**
   * `Type::parse`: the exact name "url" needs its primary template; a name
   * starting with "string" counts its dots (at least one token); anything
   * else aborts.
   */
  function Parse(name: string, arg: Option<string>, earg: Option<string>): (r: Result<Type>)
    ensures name == "url" && arg.Some? ==> r == Ok(Url(arg.value, earg))
    ensures name == "url" && arg.None? ==> r == Panic(UrlWithoutArgument)
    ensures name != "url" && StartsWith(name, "string") ==> r.Ok? && r.value.String?
    ensures name != "url" && !StartsWith(name, "string") ==> r == Panic(UnknownTypeName)
    ensures r.Ok? && r.value.String? ==> r.value.count >= 1 && r.value.count == Max(1, Count(name, '.'))
  {
    if name == "url" then
      match arg
      case None => Panic(UrlWithoutArgument)
      case Some(a) => Ok(Url(a, earg))
    else if StartsWith(name, "string") then
      Ok(String(Max(1, Count(name, '.'))))
    else
      Panic(UnknownTypeName)
  }

  /** `n` dots. */
  function Dots(n: nat): (r: string)
    ensures |r| == n && Count(r, '.') == n
  {
    if n == 0 then []
    else
      CountAppend(Dots(n - 1), ['.'], '.');
      Dots(n - 1) + ['.']
  }

  /** The canonical type name of a type: "string" with one dot per token, or "url". */
  function TypeName(t: Type): string {
    match t
    case String(n) => "string" + Dots(n)
    case Url(_, _) => "url"
  }

  /**
   * Parse stability of type names: the canonical name of a type, with the
   * templates it carries, parses back to the same type.
   */
  lemma TypeNameRoundTrip(t: Type, arg: Option<string>, earg: Option<string>)
    requires t.String? ==> t.count >= 1
    requires t.Url? ==> arg == Some(t.primary) && earg == t.error
    ensures Parse(TypeName(t), arg, earg) == Ok(t)
  {
    match t
    case String(n) =>
      var name := "string" + Dots(n);
      assert name[..6] == "string";
      assert name != "url" by { assert |name| >= 6; }
      CountAppend("string", Dots(n), '.');
      assert Count("string", '.') == 0;
    case Url(_, _) =>
  }

  /** `Type::wanted_args`: how many tokens a value of this type binds. */
  function WantedArgs(t: Type): (n: nat)
    ensures t.Url? ==> n == 1
    ensures t.String? ==> n == t.count
  {
    match t
    case String(n) => n
    case Url(_, _) => 1
  }

  /** Every type that `Parse` yields binds at least one token. */
  lemma ParsedTypesWantTokens(name: string, arg: Option<string>, earg: Option<string>)
    requires Parse(name, arg, earg).Ok?
    ensures WantedArgs(Parse(name, arg, earg).value) >= 1
  {
  }

  /**
   * `Type::test`: free text is always valid; a URL-backed value is valid when
   * the primary template can be filled with it and the resulting link
   * answers `200 OK`.
   */
  function Test(t: Type, s: string, fill: Fill, fetch: Fetch): (valid: bool)
    ensures t.String? ==> valid
    ensures t.Url? && fill(t.primary, [s]).None? ==> !valid
    ensures t.Url? && fill(t.primary, [s]).Some? ==>
      (valid <==> fetch(fill(t.primary, [s]).value) == Some(StatusOk))
  {
    match t
    case String(_) => true
    case Url(format, _) =>
      match fill(format, [s])
      case None => false
      case Some(link) => fetch(link) == Some(StatusOk)
  }

  /**
   * `Type::format`: runs `test`; on success free text is kept verbatim and a
   * URL-backed value becomes its filled primary template; on failure the
   * filled error template is used when there is one and nothing otherwise.
   * Filling the error template is unwrapped, so a failure there aborts.
   */
  function Format(t: Type, s: string, fill: Fill, fetch: Fetch): (r: Result<Option<string>>)
    ensures t.String? ==> r == Ok(Some(s))
    ensures t.Url? && Test(t, s, fill, fetch) ==> r == Ok(fill(t.primary, [s])) && r.value.Some?
    ensures t.Url? && !Test(t, s, fill, fetch) && t.error.None? ==> r == Ok(None)
    ensures t.Url? && !Test(t, s, fill, fetch) && t.error.Some? ==>
      (if fill(t.error.value, [s]).Some? then r == Ok(fill(t.error.value, [s])) else r == Panic(FillUnwrapFailed))
  {
    if Test(t, s, fill, fetch) then
      match t
      case String(_) => Ok(Some(s))
      case Url(format, _) =>
        match fill(format, [s])
        case Some(v) => Ok(Some(v))
        case None => Panic(FillUnwrapFailed)
    else
      match t
      case Url(_, Some(format)) =>
        (match fill(format, [s])
         case Some(v) => Ok(Some(v))
         case None => Panic(FillUnwrapFailed))
      case _ => Ok(None)
  }

  /**
   * `format` yields no value exactly when the value is invalid and there is
   * no error template; it never yields a partially filled string, and it
   * aborts only when the error template itself cannot be filled.
   */
  lemma FormatAbsentIffNoFallback(t: Type, s: string, fill: Fill, fetch: Fetch)
    ensures Format(t, s, fill, fetch) == Ok(None) <==> (!Test(t, s, fill, fetch) && t.Url? && t.error.None?)
    ensures Format(t, s, fill, fetch).Panic? <==>
      (!Test(t, s, fill, fetch) && t.Url? && t.error.Some? && fill(t.error.value, [s]).None?)
  {
  }
}
