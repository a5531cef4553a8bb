/**
 * The string operations of Rust's `str` that the bot relies on: Unicode
 * whitespace, `split_whitespace`, `trim`, `join`, ASCII case folding and
 * prefix tests, each stated on `seq<char>`.
 */
module Text {

  /** Rust's `char::is_whitespace`: the Unicode White_Space property. */
  predicate IsWhitespace(c: char) {
    || ('\t' <= c <= '\r')
    || c == ' '
    || c == '\U{85}'
    || c == '\U{A0}'
    || c == '\U{1680}'
    || ('\U{2000}' <= c <= '\U{200A}')
    || c == '\U{2028}'
    || c == '\U{2029}'
    || c == '\U{202F}'
    || c == '\U{205F}'
    || c == '\U{3000}'
  }

  predicate NoWhitespace(s: string) {
    forall i :: 0 <= i < |s| ==> !IsWhitespace(s[i])
  }

  predicate AllWhitespace(s: string) {
    forall i :: 0 <= i < |s| ==> IsWhitespace(s[i])
  }

  /** Every element is a non-empty run of non-whitespace characters. */
  predicate AreWords(words: seq<string>) {
    forall i :: 0 <= i < |words| ==> words[i] != [] && NoWhitespace(words[i])
  }

  predicate StartsWith(s: string, prefix: string) {
    |prefix| <= |s| && s[..|prefix|] == prefix
  }

  /** Number of occurrences of `c` in `s`. */
  function Count(s: string, c: char): (n: nat)
    ensures n <= |s|
    ensures n == 0 <==> c !in s
  {
    if s == [] then 0
    else (if s[0] == c then 1 else 0) + Count(s[1..], c)
  }

  /** Index of the first `c` in `s`, or `|s|` when there is none. */
  function IndexOf(s: string, c: char): (k: nat)
    ensures k <= |s|
    ensures c !in s[..k]
    ensures k < |s| ==> s[k] == c
  {
    if s == [] || s[0] == c then 0 else 1 + IndexOf(s[1..], c)
  }

  /**
   * Rust's `str::splitn(n, c)`: at most `n` pieces, the last one holding the
   * unsplit remainder.
   */
  function SplitN(s: string, c: char, n: nat): (parts: seq<string>)
    requires n >= 1
    ensures 1 <= |parts| <= n
    decreases n
  {
    var i := IndexOf(s, c);
    if n == 1 || i == |s| then [s] else [s[..i]] + SplitN(s[i + 1..], c, n - 1)
  }

  /** Counting is additive over concatenation. */
  lemma {:induction false} CountAppend(a: string, b: string, c: char)
    ensures Count(a + b, c) == Count(a, c) + Count(b, c)
    decreases |a|
  {
    if a != [] {
      assert (a + b)[1..] == a[1..] + b;
      CountAppend(a[1..], b, c);
    } else {
      assert a + b == b;
    }
  }

  /** Rust's `char::to_ascii_lowercase`. */
  function LowerChar(c: char): char {
    if 'A' <= c <= 'Z' then (c as int - 'A' as int + 'a' as int) as char else c
  }

  /** Lowercases the ASCII letters of `s` and leaves every other character. */
  function ToLower(s: string): (r: string)
    ensures |r| == |s|
    ensures forall i :: 0 <= i < |s| ==> r[i] == LowerChar(s[i])
  {
    if s == [] then [] else [LowerChar(s[0])] + ToLower(s[1..])
  }

  /** Rust's `str::eq_ignore_ascii_case`. */
  predicate EqIgnoreAsciiCase(a: string, b: string) {
    ToLower(a) == ToLower(b)
  }

  /** Index of the first whitespace character, or `|s|` when there is none. */
  function FirstWhitespace(s: string): (k: nat)
    ensures k <= |s|
    ensures NoWhitespace(s[..k])
    ensures k < |s| ==> IsWhitespace(s[k])
  {
    if s == [] || IsWhitespace(s[0]) then 0 else 1 + FirstWhitespace(s[1..])
  }

  /** `s` without its leading whitespace (Rust's `trim_start`). */
  function TrimStart(s: string): (r: string)
    ensures |r| <= |s| && r == s[|s| - |r|..]
    ensures AllWhitespace(s[..|s| - |r|])
    ensures r == [] || !IsWhitespace(r[0])
  {
    if s != [] && IsWhitespace(s[0]) then
      var r := TrimStart(s[1..]);
      LeadingWhitespace(s, r);
      r
    else s
  }

  /** `s` without its trailing whitespace (Rust's `trim_end`). */
  function TrimEnd(s: string): (r: string)
    ensures |r| <= |s| && r == s[..|r|]
    ensures AllWhitespace(s[|r|..])
    ensures r == [] || !IsWhitespace(r[|r| - 1])
  {
    if s != [] && IsWhitespace(s[|s| - 1]) then
      var r := TrimEnd(s[..|s| - 1]);
      TrailingWhitespace(s, r);
      r
    else s
  }

  /** A suffix after whitespace in the tail of `s` is one after whitespace in `s`, when `s` starts with whitespace. */
  lemma LeadingWhitespace(s: string, r: string)
    requires s != [] && IsWhitespace(s[0])
    requires |r| <= |s| - 1 && r == s[1..][|s| - 1 - |r|..] && AllWhitespace(s[1..][..|s| - 1 - |r|])
    ensures r == s[|s| - |r|..] && AllWhitespace(s[..|s| - |r|])
  {
    assert s[1..][|s| - 1 - |r|..] == s[|s| - |r|..];
    forall i | 0 < i < |s| - |r|
      ensures IsWhitespace(s[i])
    {
      assert s[i] == s[1..][..|s| - 1 - |r|][i - 1];
    }
  }

  /** A prefix before whitespace in `s` minus its last character, when that character is whitespace. */
  lemma TrailingWhitespace(s: string, r: string)
    requires s != [] && IsWhitespace(s[|s| - 1])
    requires |r| <= |s| - 1 && r == s[..|s| - 1][..|r|] && AllWhitespace(s[..|s| - 1][|r|..])
    ensures r == s[..|r|] && AllWhitespace(s[|r|..])
  {
    forall i | |r| <= i < |s| - 1
      ensures IsWhitespace(s[i])
    {
      assert s[i] == s[..|s| - 1][|r|..][i - |r|];
    }
  }

  /** `r` sits at offset `i` of `s` with only whitespace before and after it. */
  predicate SurroundedByWhitespace(s: string, r: string, i: int) {
    && 0 <= i <= |s| - |r|
    && s[i..i + |r|] == r
    && AllWhitespace(s[..i])
    && AllWhitespace(s[i + |r|..])
  }

  /** Rust's `str::trim`: both ends stripped of whitespace. */
  function Trim(s: string): (r: string)
    ensures exists i :: SurroundedByWhitespace(s, r, i)
    ensures r == [] || (!IsWhitespace(r[0]) && !IsWhitespace(r[|r| - 1]))
  {
    TrimSurrounded(s);
    TrimEnd(TrimStart(s))
  }

  /** Trimming both ends leaves whitespace only around the result. */
  lemma TrimSurrounded(s: string)
    ensures SurroundedByWhitespace(s, TrimEnd(TrimStart(s)), |s| - |TrimStart(s)|)
  {
    SurroundedByParts(s, TrimStart(s), TrimEnd(TrimStart(s)));
  }

  /** A whitespace-led suffix `t` of `s` and a prefix `r` of `t` followed by whitespace. */
  lemma SurroundedByParts(s: string, t: string, r: string)
    requires |t| <= |s| && t == s[|s| - |t|..] && AllWhitespace(s[..|s| - |t|])
    requires |r| <= |t| && r == t[..|r|] && AllWhitespace(t[|r|..])
    ensures SurroundedByWhitespace(s, r, |s| - |t|)
  {
    var i := |s| - |t|;
    assert s[i..][..|r|] == s[i..i + |r|];
    assert s[i..][|r|..] == s[i + |r|..];
  }

  /** Rust's `str::split_whitespace`: the maximal runs of non-whitespace characters. */
  function SplitWhitespace(s: string): (words: seq<string>)
    ensures AreWords(words)
    decreases |s|
  {
    var t := TrimStart(s);
    if t == [] then []
    else
      var k := FirstWhitespace(t);
      assert k > 0;
      var first := t[..k];
      var rest := SplitWhitespace(t[k..]);
      AreWordsCons(first, rest);
      [first] + rest
  }

  /** A word before words makes words. */
  lemma AreWordsCons(first: string, rest: seq<string>)
    requires first != [] && NoWhitespace(first) && AreWords(rest)
    ensures AreWords([first] + rest)
  {
    forall i | 0 <= i < |rest| + 1
      ensures ([first] + rest)[i] != [] && NoWhitespace(([first] + rest)[i])
    {
      if i > 0 {
        assert ([first] + rest)[i] == rest[i - 1];
      }
    }
  }

  /** A string has no words exactly when it is all whitespace. */
  lemma NoWordsIffBlank(s: string)
    ensures SplitWhitespace(s) == [] <==> AllWhitespace(s)
  {
    var t := TrimStart(s);
    if t == [] {
      assert s[..|s|] == s;
    } else {
      assert s[|s| - |t|] == t[0];
    }
  }

  /** Rust's `[String]::join`: the parts with `sep` between neighbours. */
  function Join(sep: string, parts: seq<string>): (r: string)
    ensures parts == [] ==> r == []
  {
    if parts == [] then []
    else if |parts| == 1 then parts[0]
    else parts[0] + sep + Join(sep, parts[1..])
  }

  /** Joining two or more parts puts the first part, then a separator, before the rest. */
  lemma JoinCons(sep: string, parts: seq<string>)
    requires |parts| > 1
    ensures Join(sep, parts) == parts[0] + (sep + Join(sep, parts[1..]))
  {
  }

  /** Joining one more part appends a separator and that part. */
  lemma {:induction false} JoinSnoc(sep: string, parts: seq<string>, last: string)
    ensures Join(sep, parts + [last]) == if parts == [] then last else Join(sep, parts) + sep + last
    decreases |parts|
  {
    if |parts| > 1 {
      assert (parts + [last])[1..] == parts[1..] + [last];
      JoinSnoc(sep, parts[1..], last);
    } else if |parts| == 1 {
      assert parts + [last] == [parts[0], last];
    }
  }

  /** Leading whitespace does not change the words of a string. */
  lemma SplitSkipsSpace(c: char, s: string)
    requires IsWhitespace(c)
    ensures SplitWhitespace([c] + s) == SplitWhitespace(s)
  {
    assert ([c] + s)[1..] == s;
  }

  /** A word followed by whitespace (or nothing) is the first word. */
  lemma SplitLeadingWord(w: string, tail: string)
    requires w != [] && NoWhitespace(w)
    requires tail == [] || IsWhitespace(tail[0])
    ensures SplitWhitespace(w + tail) == [w] + SplitWhitespace(tail)
  {
    var s := w + tail;
    assert s[0] == w[0];
    assert TrimStart(s) == s;
    FirstWhitespaceOfWord(w, tail);
    assert s[..|w|] == w;
    assert s[|w|..] == tail;
  }

  /** The words of a tail are the words of its elements. */
  lemma AreWordsTail(words: seq<string>)
    requires AreWords(words) && words != []
    ensures AreWords(words[1..])
  {
    forall i | 0 <= i < |words| - 1
      ensures words[1..][i] != [] && NoWhitespace(words[1..][i])
    {
      assert words[1..][i] == words[i + 1];
    }
  }

  /** A word, a space and a joined tail split into the word and the tail's words. */
  lemma SplitJoinStep(w: string, rest: string, restWords: seq<string>)
    requires w != [] && NoWhitespace(w)
    requires SplitWhitespace(rest) == restWords
    ensures SplitWhitespace(w + ([' '] + rest)) == [w] + restWords
  {
    SplitSkipsSpace(' ', rest);
    SplitLeadingWord(w, [' '] + rest);
  }

  /**
   * Splitting undoes joining with single spaces, for words that are
   * non-empty and free of whitespace.
   */
  lemma {:induction false} SplitJoinRoundTrip(words: seq<string>)
    requires AreWords(words)
    ensures SplitWhitespace(Join(" ", words)) == words
    decreases |words|
  {
    if words == [] {
      assert AllWhitespace(Join(" ", words));
    } else if |words| == 1 {
      assert words[0] + [] == words[0];
      SplitLeadingWord(words[0], []);
    } else if |words| > 1 {
      AreWordsTail(words);
      SplitJoinRoundTrip(words[1..]);
      var rest := Join(" ", words[1..]);
      JoinCons(" ", words);
      SplitJoinStep(words[0], rest, words[1..]);
      assert [words[0]] + words[1..] == words;
    }
  }

  // ---------------------------------------------------------------------------
  // Words and the whitespace between them

  /** The text `gaps[0] + words[0] + gaps[1] + ... + words[n-1] + gaps[n]`. */
  function Weave(gaps: seq<string>, words: seq<string>): string
    requires |gaps| == |words| + 1
    decreases |words|
  {
    if words == [] then gaps[0]
    else gaps[0] + (words[0] + Weave(gaps[1..], words[1..]))
  }

  /**
   * Runs of whitespace that can stand between words: every run is all
   * whitespace, and every run but the first and the last is non-empty.
   */
  predicate Separates(gaps: seq<string>) {
    && (forall i :: 0 <= i < |gaps| ==> AllWhitespace(gaps[i]))
    && (forall i :: 0 < i < |gaps| - 1 ==> gaps[i] != [])
  }

  /** A run that can open a text, before runs that can separate words. */
  lemma SeparatesCons(first: string, gaps: seq<string>)
    requires AllWhitespace(first) && Separates(gaps)
    requires |gaps| > 1 ==> gaps[0] != []
    ensures Separates([first] + gaps)
  {
    forall i | 0 < i < |gaps| + 1 ensures AllWhitespace(([first] + gaps)[i]) {
      assert ([first] + gaps)[i] == gaps[i - 1];
    }
    forall i | 0 < i < |gaps| ensures ([first] + gaps)[i] != [] {
      assert ([first] + gaps)[i] == gaps[i - 1];
    }
  }

  /** Runs after the first still separate. */
  lemma SeparatesTail(gaps: seq<string>)
    requires Separates(gaps) && gaps != []
    ensures Separates(gaps[1..])
    ensures |gaps| > 2 ==> gaps[1] != []
  {
    forall i | 0 <= i < |gaps| - 1 ensures AllWhitespace(gaps[1..][i]) {
      assert gaps[1..][i] == gaps[i + 1];
    }
    forall i | 0 < i < |gaps| - 2 ensures gaps[1..][i] != [] {
      assert gaps[1..][i] == gaps[i + 1];
    }
  }

  /**
   * The whitespace runs of a string, in the same steps as `SplitWhitespace`
   * takes its words: the leading run, then the runs of the rest after the
   * first word.
   */
  function Gaps(s: string): (gaps: seq<string>)
    ensures |gaps| == |SplitWhitespace(s)| + 1
    decreases |s|
  {
    var t := TrimStart(s);
    if t == [] then [s]
    else
      var k := FirstWhitespace(t);
      assert k > 0;
      [s[..|s| - |t|]] + Gaps(t[k..])
  }

  /** The first run of a string is its leading whitespace. */
  lemma GapsHead(s: string)
    ensures Gaps(s)[0] == s[..|s| - |TrimStart(s)|]
  {
    if TrimStart(s) == [] {
      assert s[..|s|] == s;
    }
  }

  /** Whitespace before the rest of a weave leaves it starting with whitespace, or empty. */
  lemma WeaveStart(gaps: seq<string>, words: seq<string>)
    requires |gaps| == |words| + 1 && AllWhitespace(gaps[0])
    requires words != [] ==> gaps[0] != []
    ensures var s := Weave(gaps, words); s == [] || IsWhitespace(s[0])
  {
    if gaps[0] != [] {
      assert Weave(gaps, words)[0] == gaps[0][0];
    }
  }

  /** Leading whitespace of any length does not change the words of a string. */
  lemma {:induction false} SplitSkipsBlank(ws: string, s: string)
    requires AllWhitespace(ws)
    ensures SplitWhitespace(ws + s) == SplitWhitespace(s)
    decreases |ws|
  {
    if ws != [] {
      var more := ws[1..];
      BlankTail(ws);
      assert ws + s == [ws[0]] + (more + s);
      SplitSkipsSpace(ws[0], more + s);
      SplitSkipsBlank(more, s);
    } else {
      assert ws + s == s;
    }
  }

  /** What follows a whitespace character in a run of whitespace is whitespace. */
  lemma BlankTail(ws: string)
    requires AllWhitespace(ws) && ws != []
    ensures IsWhitespace(ws[0]) && AllWhitespace(ws[1..])
  {
    forall i | 0 <= i < |ws| - 1 ensures IsWhitespace(ws[1..][i]) {
      assert ws[1..][i] == ws[i + 1];
    }
  }

  /**
   * Every string is its words woven with its whitespace runs: the runs
   * between words are non-empty, those at the ends may be empty.
   */
  lemma {:induction false} SplitWhitespaceWeaves(s: string)
    ensures Separates(Gaps(s))
    ensures Weave(Gaps(s), SplitWhitespace(s)) == s
    decreases |s|
  {
    var t := TrimStart(s);
    if t == [] {
      assert s[..|s|] == s;
    } else {
      var k := FirstWhitespace(t);
      assert k > 0;
      var lead := s[..|s| - |t|];
      var rest := t[k..];
      SplitWhitespaceWeaves(rest);
      assert Gaps(s) == [lead] + Gaps(rest);
      assert SplitWhitespace(s) == [t[..k]] + SplitWhitespace(rest);
      assert rest == [] || IsWhitespace(rest[0]) by {
        if rest != [] { assert rest[0] == t[k]; }
      }
      GapAfterWord(rest);
      Reassemble(s, t, k);
      WeaveStep(s, lead, t[..k], rest, Gaps(rest), SplitWhitespace(rest));
    }
  }

  /** A leading run and a word before a weave of the rest weave the whole. */
  lemma WeaveStep(s: string, lead: string, word: string, rest: string, gaps: seq<string>, words: seq<string>)
    requires s == lead + (word + rest) && AllWhitespace(lead)
    requires |gaps| == |words| + 1 && Separates(gaps) && Weave(gaps, words) == rest
    requires |gaps| > 1 ==> gaps[0] != []
    ensures Separates([lead] + gaps) && Weave([lead] + gaps, [word] + words) == s
  {
    SeparatesCons(lead, gaps);
    assert ([lead] + gaps)[1..] == gaps;
    assert ([word] + words)[1..] == words;
  }

  /** A string is its leading part and the two pieces of the rest. */
  lemma Reassemble(s: string, t: string, k: nat)
    requires |t| <= |s| && t == s[|s| - |t|..] && k <= |t|
    ensures s == s[..|s| - |t|] + (t[..k] + t[k..])
  {
    assert t[..k] + t[k..] == t;
  }

  /** Where words follow, the run opening a string that starts with whitespace is not empty. */
  lemma GapAfterWord(rest: string)
    requires rest == [] || IsWhitespace(rest[0])
    ensures |Gaps(rest)| > 1 ==> Gaps(rest)[0] != []
  {
    if |Gaps(rest)| > 1 {
      NoWordsIffBlank(rest);
      GapsHead(rest);
      assert TrimStart(rest) != rest;
    }
  }

  /** Whitespace, a word and whitespace-led text split into the word and the text's words. */
  lemma SplitWordAfterBlank(ws: string, w: string, tail: string)
    requires AllWhitespace(ws) && w != [] && NoWhitespace(w)
    requires tail == [] || IsWhitespace(tail[0])
    ensures SplitWhitespace(ws + (w + tail)) == [w] + SplitWhitespace(tail)
  {
    SplitSkipsBlank(ws, w + tail);
    SplitLeadingWord(w, tail);
  }

  /**
   * Conversely, weaving words with runs that can separate them gives a
   * string whose words are exactly those words: the decomposition is unique.
   */
  lemma {:induction false} WeaveSplits(gaps: seq<string>, words: seq<string>)
    requires |gaps| == |words| + 1 && Separates(gaps) && AreWords(words)
    ensures SplitWhitespace(Weave(gaps, words)) == words
    decreases |words|
  {
    if words == [] {
      NoWordsIffBlank(gaps[0]);
    } else {
      SeparatesTail(gaps);
      AreWordsTail(words);
      WeaveSplits(gaps[1..], words[1..]);
      var tail := Weave(gaps[1..], words[1..]);
      WeaveStart(gaps[1..], words[1..]);
      SplitWordAfterBlank(gaps[0], words[0], tail);
      assert [words[0]] + words[1..] == words;
    }
  }

  /** A whitespace-free word followed by whitespace (or nothing) ends at its length. */
  lemma {:induction false} FirstWhitespaceOfWord(w: string, tail: string)
    requires NoWhitespace(w)
    requires tail == [] || IsWhitespace(tail[0])
    ensures FirstWhitespace(w + tail) == |w|
    decreases |w|
  {
    if w != [] {
      assert (w + tail)[1..] == w[1..] + tail;
      FirstWhitespaceOfWord(w[1..], tail);
    } else {
      assert w + tail == tail;
    }
  }
}
