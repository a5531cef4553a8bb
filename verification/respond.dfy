/**
 * `Command::respond` of src/commands.rs: how a configured custom command
 * answers one invocation. The pipeline filters on the platform, passes the
 * cooldown gate, selects the template for the platform, binds the
 * whitespace-separated tokens of the argument text greedily and in order to
 * the declared arguments, processes each according to its role, and fills
 * the template with the results.
 */
module Respond {
  import opened Base
  import opened Text
  import CT = CommandTypes
  import opened ConfigParsing
  import Cooldown

  /** The answer of one invocation and the map of last executions after it. */
  datatype Responded = Responded(outcome: Result<UserResponse>, lastExecuted: map<string, int>)

  function Min(a: int, b: int): int {
    if a < b then a else b
  }

  /** The template a format string has for `source`, if any. */
  function SelectTemplate(f: FormatString, source: Source): (t: Option<string>)
    ensures f.Universal? ==> t == Some(f.text)
    ensures f.Specific? ==> (t.Some? <==> source in f.bySource)
    ensures f.Specific? && t.Some? ==> t.value == f.bySource[source]
  {
    match f
    case Universal(text) => Some(text)
    case Specific(bySource) => if source in bySource then Some(bySource[source]) else None
  }

  /** How many tokens an argument binds. */
  function Wanted(a: Argument): nat {
    CT.WantedArgs(GetType(a))
  }

  // ---------------------------------------------------------------------------
  // Binding tokens to arguments

  /** Tokens the first `i` arguments bind between them when enough are given. */
  function Offset(specs: seq<Argument>, i: nat): nat
    requires i <= |specs|
  {
    if i == 0 then 0 else Offset(specs, i - 1) + Wanted(specs[i - 1])
  }

  /** The tokens from index `a` up to index `b`, both clipped to the tokens available. */
  function Clip(tokens: seq<string>, a: nat, b: nat): (r: seq<string>)
    requires a <= b
    ensures |r| <= b - a
  {
    tokens[Min(a, |tokens|)..Min(b, |tokens|)]
  }

  /**
   * The text argument `i` is bound to, in closed form: the tokens after
   * those of the earlier arguments, as many as it wants and as are left,
   * joined by single spaces.
   */
  function Binding(specs: seq<Argument>, tokens: seq<string>, i: nat): string
    requires i < |specs|
  {
    Join(" ", Clip(tokens, Offset(specs, i), Offset(specs, i) + Wanted(specs[i])))
  }

  /** What one argument makes of its bound text: its value, `None` for wrong arguments, or an abort. */
  function ProcessOne(a: Argument, text: string, fill: CT.Fill, fetch: CT.Fetch): (r: Result<Option<string>>)
    ensures a.Simple? ==> r == Ok(Some(text))
    ensures a.Test? ==> r == (if CT.Test(a.ty, text, fill, fetch) then Ok(Some(text)) else Ok(None))
    ensures a.Format? ==> r == CT.Format(a.ty, text, fill, fetch)
  {
    match a
    case Simple(_) => Ok(Some(text))
    case Test(t) => if CT.Test(t, text, fill, fetch) then Ok(Some(text)) else Ok(None)
    case Format(t) => CT.Format(t, text, fill, fetch)
  }

  /** `v` in front of the values of a successful rest, or the rest's failure. */
  function Prepend(v: string, rest: Result<Option<seq<string>>>): (r: Result<Option<seq<string>>>)
    ensures rest.Ok? && rest.value.Some? ==> r == Ok(Some([v] + rest.value.value))
    ensures !(rest.Ok? && rest.value.Some?) ==> r == rest
  {
    match rest
    case Ok(Some(vs)) => Ok(Some([v] + vs))
    case _ => rest
  }

  /**
   * The loop over the declared arguments: each takes up to its wanted
   * number of the tokens still unconsumed, joined by single spaces, and is
   * processed in turn. The first argument that is wrong stops the loop with
   * `None`, and an abort stops it with the abort.
   */
  function ProcessArgs(specs: seq<Argument>, tokens: seq<string>, fill: CT.Fill, fetch: CT.Fetch)
    : (r: Result<Option<seq<string>>>)
    ensures r.Ok? && r.value.Some? ==> |r.value.value| == |specs|
    decreases |specs|
  {
    if specs == [] then Ok(Some([]))
    else
      var k := Min(Wanted(specs[0]), |tokens|);
      match ProcessOne(specs[0], Join(" ", tokens[..k]), fill, fetch)
      case Panic(f) => Panic(f)
      case Ok(None) => Ok(None)
      case Ok(Some(v)) => Prepend(v, ProcessArgs(specs[1..], tokens[k..], fill, fetch))
  }

  /**
   * The same processing over texts bound in advance: the first failure among
   * the arguments, in order, decides; otherwise every value.
   */
  function ProcessAll(specs: seq<Argument>, texts: seq<string>, fill: CT.Fill, fetch: CT.Fetch)
    : (r: Result<Option<seq<string>>>)
    requires |texts| == |specs|
    decreases |specs|
  {
    if specs == [] then Ok(Some([]))
    else
      match ProcessOne(specs[0], texts[0], fill, fetch)
      case Panic(f) => Panic(f)
      case Ok(None) => Ok(None)
      case Ok(Some(v)) => Prepend(v, ProcessAll(specs[1..], texts[1..], fill, fetch))
  }

  /** The texts every argument is bound to. */
  function Bindings(specs: seq<Argument>, tokens: seq<string>): (texts: seq<string>)
    ensures |texts| == |specs|
    ensures forall i :: 0 <= i < |specs| ==> texts[i] == Binding(specs, tokens, i)
  {
    seq(|specs|, i requires 0 <= i < |specs| => Binding(specs, tokens, i))
  }

  /** The offsets of a tail are those of the whole, less the first argument's tokens. */
  lemma {:induction false} OffsetOfTail(specs: seq<Argument>, i: nat)
    requires 0 < |specs| && i < |specs|
    ensures Offset(specs, i + 1) == Wanted(specs[0]) + Offset(specs[1..], i)
  {
    if i > 0 {
      OffsetOfTail(specs, i - 1);
      assert specs[1..][i - 1] == specs[i];
    }
  }

  /** Clipping the tokens left after `k` is clipping the whole shifted by `k`. */
  lemma ClipShift(tokens: seq<string>, k: nat, a: nat, b: nat)
    requires k <= |tokens| && a <= b
    ensures Clip(tokens[k..], a, b) == Clip(tokens, k + a, k + b)
  {
  }

  /** Argument `i + 1` is bound to what argument `i` of the tail gets from the tokens the first one leaves. */
  lemma BindingOfTail(specs: seq<Argument>, tokens: seq<string>, i: nat)
    requires i + 1 < |specs|
    ensures var k := Min(Wanted(specs[0]), |tokens|);
      Binding(specs, tokens, i + 1) == Binding(specs[1..], tokens[k..], i)
  {
    var k := Min(Wanted(specs[0]), |tokens|);
    OffsetOfTail(specs, i);
    var o := Offset(specs[1..], i);
    var w := Wanted(specs[i + 1]);
    assert specs[1..][i] == specs[i + 1];
    if k == Wanted(specs[0]) {
      ClipShift(tokens, k, o, o + w);
    } else {
      assert Clip(tokens[k..], o, o + w) == [] == Clip(tokens, Wanted(specs[0]) + o, Wanted(specs[0]) + o + w);
    }
  }

  /** The bindings of the arguments after the first are those of the tokens it leaves. */
  lemma BindingsStep(specs: seq<Argument>, tokens: seq<string>)
    requires specs != []
    ensures var k := Min(Wanted(specs[0]), |tokens|);
      && Bindings(specs, tokens)[0] == Join(" ", tokens[..k])
      && Bindings(specs, tokens)[1..] == Bindings(specs[1..], tokens[k..])
  {
    var k := Min(Wanted(specs[0]), |tokens|);
    assert Clip(tokens, 0, Wanted(specs[0])) == tokens[..k];
    forall i | 0 <= i < |specs| - 1
      ensures Bindings(specs, tokens)[1..][i] == Bindings(specs[1..], tokens[k..])[i]
    {
      BindingOfTail(specs, tokens, i);
    }
  }

  /**
   * Greedy sequential binding in closed form: the loop processes every
   * argument with the text its offset gives it.
   */
  lemma {:induction false} ProcessArgsByBindings(specs: seq<Argument>, tokens: seq<string>, fill: CT.Fill, fetch: CT.Fetch)
    ensures ProcessArgs(specs, tokens, fill, fetch) == ProcessAll(specs, Bindings(specs, tokens), fill, fetch)
    decreases |specs|
  {
    if specs != [] {
      var k := Min(Wanted(specs[0]), |tokens|);
      BindingsStep(specs, tokens);
      ProcessArgsByBindings(specs[1..], tokens[k..], fill, fetch);
    }
  }

  /** Argument `a` accepts `text` and yields a value. */
  predicate Accepts(a: Argument, text: string, fill: CT.Fill, fetch: CT.Fetch) {
    ProcessOne(a, text, fill, fetch).Ok? && ProcessOne(a, text, fill, fetch).value.Some?
  }

  /** Argument `i` is the first wrong one: it yields no value and every earlier one accepts its text. */
  predicate FirstWrongAt(specs: seq<Argument>, texts: seq<string>, i: int, fill: CT.Fill, fetch: CT.Fetch)
    requires |texts| == |specs|
  {
    && 0 <= i < |specs|
    && ProcessOne(specs[i], texts[i], fill, fetch) == Ok(None)
    && forall j :: 0 <= j < i ==> Accepts(specs[j], texts[j], fill, fetch)
  }

  /** Successful processing gives every argument the value its role makes of its text. */
  lemma {:induction false} ProcessAllValues(specs: seq<Argument>, texts: seq<string>, fill: CT.Fill, fetch: CT.Fetch)
    requires |texts| == |specs|
    requires ProcessAll(specs, texts, fill, fetch).Ok? && ProcessAll(specs, texts, fill, fetch).value.Some?
    ensures var values := ProcessAll(specs, texts, fill, fetch).value.value;
      && |values| == |specs|
      && forall i :: 0 <= i < |specs| ==> ProcessOne(specs[i], texts[i], fill, fetch) == Ok(Some(values[i]))
    decreases |specs|
  {
    if specs != [] {
      ProcessAllValues(specs[1..], texts[1..], fill, fetch);
      var values := ProcessAll(specs, texts, fill, fetch).value.value;
      forall i | 1 <= i < |specs|
        ensures ProcessOne(specs[i], texts[i], fill, fetch) == Ok(Some(values[i]))
      {
        assert specs[1..][i - 1] == specs[i] && texts[1..][i - 1] == texts[i];
      }
    }
  }

  /** Processing fails with wrong arguments exactly when some argument is the first wrong one. */
  lemma {:induction false} ProcessAllWrong(specs: seq<Argument>, texts: seq<string>, fill: CT.Fill, fetch: CT.Fetch)
    requires |texts| == |specs|
    ensures ProcessAll(specs, texts, fill, fetch) == Ok(None) <==> exists i :: FirstWrongAt(specs, texts, i, fill, fetch)
    decreases |specs|
  {
    if specs != [] {
      ProcessAllWrong(specs[1..], texts[1..], fill, fetch);
      if ProcessOne(specs[0], texts[0], fill, fetch) == Ok(None) {
        assert FirstWrongAt(specs, texts, 0, fill, fetch);
      } else if Accepts(specs[0], texts[0], fill, fetch) {
        if ProcessAll(specs, texts, fill, fetch) == Ok(None) {
          var i :| FirstWrongAt(specs[1..], texts[1..], i, fill, fetch);
          ShiftFirstWrong(specs, texts, i, fill, fetch);
        }
        if i :| FirstWrongAt(specs, texts, i, fill, fetch) {
          assert i > 0;
          UnshiftFirstWrong(specs, texts, i, fill, fetch);
        }
      } else {
        forall i
          ensures !FirstWrongAt(specs, texts, i, fill, fetch)
        {
          if 0 < i < |specs| {
            assert !Accepts(specs[0], texts[0], fill, fetch);
          }
        }
      }
    }
  }

  /** The first wrong argument of the tail is the next one of the whole, when the first accepts. */
  lemma ShiftFirstWrong(specs: seq<Argument>, texts: seq<string>, i: int, fill: CT.Fill, fetch: CT.Fetch)
    requires |texts| == |specs| && specs != []
    requires Accepts(specs[0], texts[0], fill, fetch)
    requires FirstWrongAt(specs[1..], texts[1..], i, fill, fetch)
    ensures FirstWrongAt(specs, texts, i + 1, fill, fetch)
  {
    assert specs[1..][i] == specs[i + 1] && texts[1..][i] == texts[i + 1];
    forall j | 1 <= j < i + 1
      ensures Accepts(specs[j], texts[j], fill, fetch)
    {
      assert specs[1..][j - 1] == specs[j] && texts[1..][j - 1] == texts[j];
    }
  }

  /** A first wrong argument after the first is the previous one of the tail. */
  lemma UnshiftFirstWrong(specs: seq<Argument>, texts: seq<string>, i: int, fill: CT.Fill, fetch: CT.Fetch)
    requires |texts| == |specs|
    requires FirstWrongAt(specs, texts, i, fill, fetch) && i > 0
    ensures FirstWrongAt(specs[1..], texts[1..], i - 1, fill, fetch)
  {
    assert specs[1..][i - 1] == specs[i] && texts[1..][i - 1] == texts[i];
    forall j | 0 <= j < i - 1
      ensures Accepts(specs[1..][j], texts[1..][j], fill, fetch)
    {
      assert specs[1..][j] == specs[j + 1] && texts[1..][j] == texts[j + 1];
    }
  }

  // ---------------------------------------------------------------------------
  // The whole pipeline

  /**
   * The answer once the platform and the gate have let the invocation
   * through: no template gives `Unknown`; without declared arguments the
   * template is the answer verbatim; declared arguments need argument text
   * and successful processing, and the filled template is the answer.
   */
  function Answer(c: Command, args: Option<string>, source: Source, fill: CT.Fill, fetch: CT.Fetch)
    : (r: Result<UserResponse>)
  {
    match c.format
    case None => Ok(Unknown)
    case Some(f) =>
      match SelectTemplate(f, source)
      case None => Ok(Unknown)
      case Some(template) =>
        match c.args
        case None => Ok(UserResponse.Custom(template))
        case Some(specs) =>
          match args
          case None => Ok(WrongArgs)
          case Some(text) => Fill(template, ProcessArgs(specs, SplitWhitespace(text), fill, fetch), fill)
  }

  /**
   * The answer from the outcome of processing the arguments: a fault is
   * passed on, a wrong argument or a template that cannot be filled is
   * `WrongArgs`, and the filled template is the custom answer.
   */
  function Fill(template: string, processed: Result<Option<seq<string>>>, fill: CT.Fill): (r: Result<UserResponse>)
    ensures processed.Panic? <==> r.Panic?
    ensures r.Ok? ==> r.value.Custom? || r.value == WrongArgs
  {
    match processed
    case Panic(fault) => Panic(fault)
    case Ok(None) => Ok(WrongArgs)
    case Ok(Some(values)) =>
      match fill(template, values)
      case Some(filled) => Ok(UserResponse.Custom(filled))
      case None => Ok(WrongArgs)
  }

  /**
   * `Command::respond`: a command answers only on its platforms and only
   * when its cooldown gate lets it through; a gate that lets it through has
   * recorded `now` whatever the answer turns out to be.
   */
  function RespondTo(c: Command, name: string, args: Option<string>, lastExecuted: map<string, int>, now: int,
                     source: Source, fill: CT.Fill, fetch: CT.Fetch): (r: Responded)
    ensures source !in c.platforms ==> r == Responded(Ok(Unknown), lastExecuted)
    ensures c.cooldown.None? ==> r.lastExecuted == lastExecuted
    ensures r.lastExecuted == lastExecuted || r.lastExecuted == lastExecuted[name := now]
    ensures r.outcome.Ok? ==> r.outcome.value.Custom? || r.outcome.value == Unknown || r.outcome.value == WrongArgs
  {
    if source !in c.platforms then Responded(Ok(Unknown), lastExecuted)
    else
      var gate := Cooldown.Check(c.cooldown, name, lastExecuted, now);
      if !gate.allowed then Responded(Ok(Unknown), lastExecuted)
      else Responded(Answer(c, args, source, fill, fetch), gate.lastExecuted)
  }

  /** The invocation reaches the template stage: right platform, gate open. */
  predicate Admitted(c: Command, name: string, lastExecuted: map<string, int>, now: int, source: Source) {
    source in c.platforms && !(c.cooldown.Some? && Cooldown.CoolingDown(c.cooldown.value, name, lastExecuted, now))
  }

  /**
   * `Unknown` comes from exactly four places: a foreign platform, a
   * cooling-down command, a command without format, and a per-platform
   * format without an entry for the source.
   */
  lemma UnknownCases(c: Command, name: string, args: Option<string>, lastExecuted: map<string, int>, now: int,
                     source: Source, fill: CT.Fill, fetch: CT.Fetch)
    ensures RespondTo(c, name, args, lastExecuted, now, source, fill, fetch).outcome == Ok(Unknown) <==>
      || !Admitted(c, name, lastExecuted, now, source)
      || c.format.None?
      || SelectTemplate(c.format.value, source).None?
  {
  }

  /**
   * A command that declares no arguments answers with its template
   * verbatim, whatever argument text came along.
   */
  lemma NoDeclaredArgsVerbatim(c: Command, name: string, args: Option<string>, lastExecuted: map<string, int>, now: int,
                               source: Source, fill: CT.Fill, fetch: CT.Fetch)
    requires Admitted(c, name, lastExecuted, now, source)
    requires c.format.Some? && SelectTemplate(c.format.value, source).Some? && c.args.None?
    ensures RespondTo(c, name, args, lastExecuted, now, source, fill, fetch).outcome
      == Ok(UserResponse.Custom(SelectTemplate(c.format.value, source).value))
  {
  }

  /** What the declared arguments make of the argument text, by their closed-form bindings. */
  function BoundValues(specs: seq<Argument>, text: string, fill: CT.Fill, fetch: CT.Fetch): Result<Option<seq<string>>> {
    ProcessAll(specs, Bindings(specs, SplitWhitespace(text)), fill, fetch)
  }

  /** The answer's wrong-argument cases, for a selected template and declared arguments. */
  lemma AnswerWrongArgs(c: Command, args: Option<string>, source: Source, fill: CT.Fill, fetch: CT.Fetch)
    requires c.format.Some? && SelectTemplate(c.format.value, source).Some? && c.args.Some?
    ensures var template := SelectTemplate(c.format.value, source).value;
      Answer(c, args, source, fill, fetch) == Ok(WrongArgs) <==>
        || args.None?
        || BoundValues(c.args.value, args.value, fill, fetch) == Ok(None)
        || (&& BoundValues(c.args.value, args.value, fill, fetch).Ok?
            && BoundValues(c.args.value, args.value, fill, fetch).value.Some?
            && fill(template, BoundValues(c.args.value, args.value, fill, fetch).value.value).None?)
  {
    if args.Some? {
      AnswerWithText(c, args.value, source, fill, fetch);
      FillWrongArgs(SelectTemplate(c.format.value, source).value, BoundValues(c.args.value, args.value, fill, fetch), fill);
    }
  }

  /** With argument text, the answer fills the template from the closed-form bindings. */
  lemma AnswerWithText(c: Command, text: string, source: Source, fill: CT.Fill, fetch: CT.Fetch)
    requires c.format.Some? && SelectTemplate(c.format.value, source).Some? && c.args.Some?
    ensures Answer(c, Some(text), source, fill, fetch) ==
      Fill(SelectTemplate(c.format.value, source).value, BoundValues(c.args.value, text, fill, fetch), fill)
  {
    var template := SelectTemplate(c.format.value, source).value;
    var tokens := SplitWhitespace(text);
    var processed := ProcessArgs(c.args.value, tokens, fill, fetch);
    assert processed == BoundValues(c.args.value, text, fill, fetch) by {
      ProcessArgsByBindings(c.args.value, tokens, fill, fetch);
    }
    assert Answer(c, Some(text), source, fill, fetch) == Fill(template, processed, fill);
  }

  /** Filling answers `WrongArgs` for a wrong argument and for a template that cannot be filled. */
  lemma FillWrongArgs(template: string, processed: Result<Option<seq<string>>>, fill: CT.Fill)
    ensures Fill(template, processed, fill) == Ok(WrongArgs) <==>
      || processed == Ok(None)
      || (processed.Ok? && processed.value.Some? && fill(template, processed.value.value).None?)
  {
  }

  /**
   * `WrongArgs` comes from exactly three places once a template is selected
   * for a command that declares arguments: no argument text, an argument that
   * is wrong for its binding (see `ProcessAllWrong`), and a template that
   * cannot be filled.
   */
  lemma WrongArgsCases(c: Command, name: string, args: Option<string>, lastExecuted: map<string, int>, now: int,
                       source: Source, fill: CT.Fill, fetch: CT.Fetch)
    requires Admitted(c, name, lastExecuted, now, source)
    requires c.format.Some? && SelectTemplate(c.format.value, source).Some? && c.args.Some?
    ensures var template := SelectTemplate(c.format.value, source).value;
      RespondTo(c, name, args, lastExecuted, now, source, fill, fetch).outcome == Ok(WrongArgs) <==>
        || args.None?
        || BoundValues(c.args.value, args.value, fill, fetch) == Ok(None)
        || (&& BoundValues(c.args.value, args.value, fill, fetch).Ok?
            && BoundValues(c.args.value, args.value, fill, fetch).value.Some?
            && fill(template, BoundValues(c.args.value, args.value, fill, fetch).value.value).None?)
  {
    assert RespondTo(c, name, args, lastExecuted, now, source, fill, fetch).outcome == Answer(c, args, source, fill, fetch);
    AnswerWrongArgs(c, args, source, fill, fetch);
  }

  /**
   * A successful answer of a command with declared arguments is the
   * template filled with the values the arguments make of their bindings,
   * one per argument (see `ProcessAllValues`).
   */
  lemma CustomAnswerFillsBindings(c: Command, name: string, args: Option<string>, lastExecuted: map<string, int>, now: int,
                                  source: Source, fill: CT.Fill, fetch: CT.Fetch, answer: string)
    requires c.args.Some? && args.Some?
    requires RespondTo(c, name, args, lastExecuted, now, source, fill, fetch).outcome == Ok(UserResponse.Custom(answer))
    ensures Admitted(c, name, lastExecuted, now, source)
    ensures c.format.Some? && SelectTemplate(c.format.value, source).Some?
    ensures var r := BoundValues(c.args.value, args.value, fill, fetch);
      && r.Ok? && r.value.Some?
      && fill(SelectTemplate(c.format.value, source).value, r.value.value) == Some(answer)
  {
    ProcessArgsByBindings(c.args.value, SplitWhitespace(args.value), fill, fetch);
  }

  /**
   * The gate's record stays even when the answer is `Unknown` or
   * `WrongArgs`: an admitted command with a cooldown always leaves `now`.
   */
  lemma AdmittedRunIsRecorded(c: Command, name: string, args: Option<string>, lastExecuted: map<string, int>, now: int,
                              source: Source, fill: CT.Fill, fetch: CT.Fetch)
    requires Admitted(c, name, lastExecuted, now, source) && c.cooldown.Some?
    ensures RespondTo(c, name, args, lastExecuted, now, source, fill, fetch).lastExecuted == lastExecuted[name := now]
  {
  }

  /** A refused invocation leaves the map of last executions as it was. */
  lemma RefusedRunLeavesState(c: Command, name: string, args: Option<string>, lastExecuted: map<string, int>, now: int,
                              source: Source, fill: CT.Fill, fetch: CT.Fetch)
    requires !Admitted(c, name, lastExecuted, now, source)
    ensures RespondTo(c, name, args, lastExecuted, now, source, fill, fetch) == Responded(Ok(Unknown), lastExecuted)
  {
  }

  // ---------------------------------------------------------------------------
  // Properties of binding

  /** The tokens an argument binds depend on its type only, never on its role. */
  lemma WantedIgnoresRole(t: CT.Type)
    ensures Wanted(Simple(t)) == Wanted(Test(t)) == Wanted(Format(t)) == CT.WantedArgs(t)
  {
  }

  /** Arguments with the same types in the same order bind the same texts, whatever their roles. */
  lemma {:induction false} BindingsIgnoreRoles(specs1: seq<Argument>, specs2: seq<Argument>, tokens: seq<string>)
    requires |specs1| == |specs2|
    requires forall i :: 0 <= i < |specs1| ==> GetType(specs1[i]) == GetType(specs2[i])
    ensures Bindings(specs1, tokens) == Bindings(specs2, tokens)
  {
    forall i | 0 <= i <= |specs1|
      ensures Offset(specs1, i) == Offset(specs2, i)
    {
      OffsetsAgree(specs1, specs2, i);
    }
  }

  lemma {:induction false} OffsetsAgree(specs1: seq<Argument>, specs2: seq<Argument>, i: nat)
    requires |specs1| == |specs2| && i <= |specs1|
    requires forall j :: 0 <= j < |specs1| ==> GetType(specs1[j]) == GetType(specs2[j])
    ensures Offset(specs1, i) == Offset(specs2, i)
  {
    if i > 0 {
      OffsetsAgree(specs1, specs2, i - 1);
    }
  }

  /**
   * Running short is no error: an argument whose tokens all lie beyond the
   * given ones is bound to the empty text.
   */
  lemma ShortageBindsEmpty(specs: seq<Argument>, tokens: seq<string>, i: nat)
    requires i < |specs| && |tokens| <= Offset(specs, i)
    ensures Binding(specs, tokens, i) == ""
  {
  }

  /** Tokens past those the arguments want are ignored. */
  lemma ExcessIgnored(specs: seq<Argument>, tokens: seq<string>, extra: seq<string>)
    requires Offset(specs, |specs|) <= |tokens|
    ensures Bindings(specs, tokens + extra) == Bindings(specs, tokens)
  {
    forall i | 0 <= i < |specs|
      ensures Bindings(specs, tokens + extra)[i] == Bindings(specs, tokens)[i]
    {
      OffsetWithin(specs, i);
      ExcessIgnoredAt(specs, tokens, extra, i, Offset(specs, i), Wanted(specs[i]));
    }
  }

  lemma ExcessIgnoredAt(specs: seq<Argument>, tokens: seq<string>, extra: seq<string>, i: nat, o: nat, w: nat)
    requires i < |specs| && o == Offset(specs, i) && w == Wanted(specs[i]) && o + w <= |tokens|
    ensures Binding(specs, tokens + extra, i) == Binding(specs, tokens, i)
  {
    ClipOfPrefix(tokens, extra, o, o + w);
    BindingIs(specs, tokens, i, o, w);
    BindingIs(specs, tokens + extra, i, o, w);
  }

  /** A stretch within the first part of a concatenation is the same stretch of that part. */
  lemma ClipOfPrefix(tokens: seq<string>, extra: seq<string>, lo: nat, hi: nat)
    requires lo <= hi <= |tokens|
    ensures Clip(tokens + extra, lo, hi) == Clip(tokens, lo, hi)
  {
    SliceOfPrefix(tokens, extra, lo, hi);
  }

  /** Argument `i` is bound to the joined tokens of its own stretch. */
  lemma BindingIs(specs: seq<Argument>, tokens: seq<string>, i: nat, o: nat, w: nat)
    requires i < |specs| && o == Offset(specs, i) && w == Wanted(specs[i])
    ensures Binding(specs, tokens, i) == Join(" ", Clip(tokens, o, o + w))
  {
  }

  /** A slice within the first part of a concatenation is a slice of that part. */
  lemma SliceOfPrefix(a: seq<string>, b: seq<string>, lo: nat, hi: nat)
    requires lo <= hi <= |a|
    ensures (a + b)[lo..hi] == a[lo..hi]
  {
    assert forall j :: 0 <= j < hi - lo ==> (a + b)[lo..hi][j] == a[lo + j];
  }

  /** The tokens of an argument end no later than those of all arguments. */
  lemma {:induction false} OffsetWithin(specs: seq<Argument>, i: nat)
    requires i < |specs|
    ensures Offset(specs, i) + Wanted(specs[i]) <= Offset(specs, |specs|)
  {
    OffsetMonotone(specs, i + 1, |specs|);
  }

  lemma {:induction false} OffsetMonotone(specs: seq<Argument>, i: nat, j: nat)
    requires i <= j <= |specs|
    ensures Offset(specs, i) <= Offset(specs, j)
    decreases j - i
  {
    if i < j {
      OffsetMonotone(specs, i, j - 1);
    }
  }

  /**
   * Two free-text arguments of two and one tokens: "a b c" binds "a b" and
   * "c", and "a b" binds "a b" and the empty text rather than failing.
   */
  lemma TwoArgumentScenario(specs: seq<Argument>, three: seq<string>, two: seq<string>)
    requires specs == [Simple(CT.String(2)), Simple(CT.String(1))]
    requires three == ["a", "b", "c"] && two == ["a", "b"]
    ensures Bindings(specs, three) == ["a b", "c"]
    ensures Bindings(specs, two) == ["a b", ""]
  {
    assert Offset(specs, 1) == 2;
    assert Join(" ", ["a", "b"]) == "a b" by {
      assert ["a", "b"][1..] == ["b"];
    }
    assert Clip(three, 0, 2) == ["a", "b"];
    assert Clip(three, 2, 3) == ["c"];
    assert Clip(two, 0, 2) == ["a", "b"];
    assert Clip(two, 2, 3) == [];
    assert Bindings(specs, three)[0] == "a b" && Bindings(specs, three)[1] == "c";
    assert Bindings(specs, two)[0] == "a b" && Bindings(specs, two)[1] == "";
  }
}
