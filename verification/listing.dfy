/**
 * The list sentences both platform adapters build (src/twitch.rs and
 * src/discord/user.rs) by folding over an enumerated list: a separator
 * before every entry but the first, and the off-days sentence "Every day,
 * except A, B and C", which puts " and " before the entry at the last index.
 */
module Listing {
  import opened Base
  import opened Text

  /**
   * The enumerated fold from index `i` on, with `acc` built so far: each
   * entry is appended, preceded by `sep` unless it is the first.
   */
  function FoldFrom(parts: seq<string>, sep: string, i: nat, acc: string): string
    requires i <= |parts|
    decreases |parts| - i
  {
    if i == |parts| then acc
    else FoldFrom(parts, sep, i + 1, acc + (if i > 0 then sep else []) + parts[i])
  }

  /** The fold started on `start`: the adapters' way of joining a list. */
  function Fold(parts: seq<string>, sep: string, start: string): string {
    FoldFrom(parts, sep, 0, start)
  }

  /** Partway through, the fold has the join of the entries seen so far. */
  lemma {:induction false} FoldFromJoin(parts: seq<string>, sep: string, i: nat, start: string)
    requires 1 <= i <= |parts|
    ensures FoldFrom(parts, sep, i, start + Join(sep, parts[..i])) == start + Join(sep, parts)
    decreases |parts| - i
  {
    if i == |parts| {
      assert parts[..i] == parts;
    } else {
      JoinSnoc(sep, parts[..i], parts[i]);
      assert parts[..i + 1] == parts[..i] + [parts[i]];
      assert start + Join(sep, parts[..i]) + sep + parts[i] == start + Join(sep, parts[..i + 1]);
      FoldFromJoin(parts, sep, i + 1, start);
    }
  }

  /** The fold appends the entries joined by the separator to its start. */
  lemma FoldIsJoin(parts: seq<string>, sep: string, start: string)
    ensures Fold(parts, sep, start) == start + Join(sep, parts)
  {
    if parts == [] {
      assert start + [] == start;
    } else {
      assert parts[..1] == [parts[0]];
      assert start + [] + parts[0] == start + Join(sep, parts[..1]);
      FoldFromJoin(parts, sep, 1, start);
    }
  }

  /** Each item between `open` and `close`. */
  function Wrapped(items: seq<string>, open: string, close: string): (r: seq<string>)
    ensures |r| == |items|
    ensures forall i :: 0 <= i < |items| ==> r[i] == open + items[i] + close
  {
    seq(|items|, i requires 0 <= i < |items| => open + items[i] + close)
  }

  /** Each pair as its first part, `between`, its second part and `after`. */
  function Entries(pairs: seq<(string, string)>, between: string, after: string): (r: seq<string>)
    ensures |r| == |pairs|
    ensures forall i :: 0 <= i < |pairs| ==> r[i] == pairs[i].0 + between + pairs[i].1 + after
  {
    seq(|pairs|, i requires 0 <= i < |pairs| => pairs[i].0 + between + pairs[i].1 + after)
  }

  /**
   * The adapters' list of pairs: each pair as an entry, folded with `sep`
   * between neighbours.
   */
  function EntryLines(pairs: seq<(string, string)>, between: string, after: string, sep: string): (r: string)
    ensures r == Join(sep, Entries(pairs, between, after))
    ensures pairs == [] ==> r == []
  {
    FoldIsJoin(Entries(pairs, between, after), sep, "");
    Fold(Entries(pairs, between, after), sep, "")
  }

  /** Wrapping in nothing leaves the items as they are. */
  lemma Unmarked(items: seq<string>)
    ensures Wrapped(items, "", "") == items
  {
    var w := Wrapped(items, "", "");
    forall i | 0 <= i < |items| ensures w[i] == items[i] {
      assert "" + items[i] + "" == items[i];
    }
  }

  /**
   * Joining with a separator that ends in `p`, after a leading `p`, is
   * joining the items each prefixed with `p`.
   */
  lemma {:induction false} PrefixedJoin(p: string, sep: string, items: seq<string>)
    requires items != []
    ensures p + Join(sep + p, items) == Join(sep, Wrapped(items, p, ""))
    decreases |items|
  {
    var w := Wrapped(items, p, "");
    assert w[0] == p + items[0];
    if |items| > 1 {
      PrefixedJoin(p, sep, items[1..]);
      assert Wrapped(items[1..], p, "") == w[1..];
      JoinCons(sep + p, items);
      JoinCons(sep, w);
      assert p + (items[0] + ((sep + p) + Join(sep + p, items[1..]))) ==
        (p + items[0]) + (sep + (p + Join(sep + p, items[1..])));
    }
  }

  /**
   * The off-days fold over the marked days from index `i` on: " and "
   * before the entry at index `last`, ", " before the other entries but the
   * first.
   */
  function ExceptFrom(parts: seq<string>, last: int, i: nat, acc: string): string
    requires i <= |parts|
    decreases |parts| - i
  {
    if i == |parts| then acc
    else
      var before := if i == last then " and " else if i > 0 then ", " else "";
      ExceptFrom(parts, last, i + 1, acc + before + parts[i])
  }

  const ExceptPrefix: string := "Every day, except "

  /**
   * The off-days sentence as the adapters build it, each day wrapped in
   * `mark`. The index of the last day is computed first, which aborts on an
   * empty list.
   */
  function ExceptAsWritten(days: seq<string>, mark: string): (r: Result<string>)
    ensures r.Panic? <==> days == []
    ensures r.Panic? ==> r.fault == NoOffDays
  {
    if days == [] then Panic(NoOffDays)
    else Ok(ExceptPrefix + ExceptFrom(Wrapped(days, mark, mark), |days| - 1, 0, []))
  }

  /** Before the last entry, the off-days fold is the join with ", ". */
  lemma {:induction false} ExceptFromJoin(parts: seq<string>, i: nat)
    requires 1 <= i < |parts|
    ensures ExceptFrom(parts, |parts| - 1, i, Join(", ", parts[..i])) ==
      Join(", ", parts[..|parts| - 1]) + " and " + parts[|parts| - 1]
    decreases |parts| - i
  {
    var last := |parts| - 1;
    if i == last {
      var acc := Join(", ", parts[..i]) + " and " + parts[i];
      assert ExceptFrom(parts, last, i + 1, acc) == acc;
    } else {
      JoinSnoc(", ", parts[..i], parts[i]);
      assert parts[..i + 1] == parts[..i] + [parts[i]];
      ExceptFromJoin(parts, i + 1);
    }
  }

  /**
   * With two days or more, the sentence lists all days but the last
   * separated by ", ", then " and " and the last day.
   */
  lemma ExceptSeveral(days: seq<string>, mark: string)
    requires |days| >= 2
    ensures var m := Wrapped(days, mark, mark);
      ExceptAsWritten(days, mark) == Ok(ExceptPrefix + (Join(", ", m[..|days| - 1]) + " and " + m[|days| - 1]))
  {
    var m := Wrapped(days, mark, mark);
    assert m[..1] == [m[0]];
    assert [] + "" + m[0] == Join(", ", m[..1]);
    ExceptFromJoin(m, 1);
  }

  /**
   * A single day is also the last one, so the sentence as written puts
   * " and " right after "except ": "Every day, except  and Sunday".
   */
  lemma ExceptSingleAsWritten(day: string, mark: string)
    ensures ExceptAsWritten([day], mark) == Ok(ExceptPrefix + (" and " + (mark + day + mark)))
  {
    var m := Wrapped([day], mark, mark);
    var acc := [] + " and " + m[0];
    assert acc == " and " + (mark + day + mark);
    assert ExceptFrom(m, 0, 1, acc) == acc;
    assert ExceptFrom(m, 0, 0, []) == ExceptFrom(m, 0, 1, acc);
  }

  /**
   * The list part of the off-days sentence in closed form, as the adapters
   * write it: all entries but the last joined by ", ", then " and " and the
   * last entry, which for a single entry leaves " and " in front of it.
   */
  function AndList(items: seq<string>): string
    requires items != []
  {
    if |items| == 1 then " and " + items[0]
    else Join(", ", items[..|items| - 1]) + " and " + items[|items| - 1]
  }

  /** The sentence as written, for every non-empty list of days, in closed form. */
  lemma ExceptAsWrittenClosedForm(days: seq<string>, mark: string)
    requires days != []
    ensures ExceptAsWritten(days, mark) == Ok(ExceptPrefix + AndList(Wrapped(days, mark, mark)))
  {
    if |days| == 1 {
      ExceptSingleAsWritten(days[0], mark);
      assert days == [days[0]];
    } else {
      ExceptSeveral(days, mark);
    }
  }

  /**
   * The off-days sentence as evidently intended: a single day stands
   * alone; longer lists are built as the adapters build them.
   */
  function Except(days: seq<string>, mark: string): (r: Result<string>)
    ensures r.Panic? <==> days == []
    ensures |days| == 1 ==> r == Ok(ExceptPrefix + (mark + days[0] + mark))
    ensures |days| >= 2 ==> r == ExceptAsWritten(days, mark)
  {
    if |days| == 1 then Ok(ExceptPrefix + (mark + days[0] + mark))
    else ExceptAsWritten(days, mark)
  }

  /**
   * The corrected sentence in closed form: every day but the last joined
   * by ", ", then " and " and the last day, or the single day alone.
   */
  lemma ExceptClosedForm(days: seq<string>, mark: string)
    requires days != []
    ensures var m := Wrapped(days, mark, mark);
      Except(days, mark) == Ok(ExceptPrefix + (if |days| == 1 then m[0] else Join(", ", m[..|days| - 1]) + " and " + m[|days| - 1]))
  {
    if |days| >= 2 {
      ExceptSeveral(days, mark);
    }
  }
}
