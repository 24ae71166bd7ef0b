/**
 The three pieces of Go's standard library that the chirp validator is built
 from: `strings.Split` and `strings.Join` with a one-character separator,
 `strings.ToLower` restricted to ASCII, and `slices.Contains` on a list of
 strings. A Go string is a sequence of bytes; here every `char` stands for one
 byte, so `|s|` is Go's `len(s)`.
 */
module GoStrings {

  /** The tokens of `s` between occurrences of `sep`, as `strings.Split(s, sep)`
      returns them: one more token than there are separators, empty tokens
      included, and never a separator inside a token. */
  function Split(s: string, sep: char): (r: seq<string>)
    ensures |r| >= 1
    ensures forall i :: 0 <= i < |r| ==> sep !in r[i]
    decreases |s|
  {
    if s == [] then [[]]
    else
      var rest := Split(s[1..], sep);
      if s[0] == sep then [[]] + rest
      else [[s[0]] + rest[0]] + rest[1..]
  }

  /** The concatenation of `tokens` with `sep` between neighbours, as
      `strings.Join(tokens, sep)`: the empty string for no tokens, the single
      token itself for one. */
  function Join(tokens: seq<string>, sep: char): (r: string)
    ensures |tokens| == 1 ==> r == tokens[0]
    ensures |tokens| > 0 ==> |r| >= |tokens| - 1
  {
    if |tokens| == 0 then []
    else if |tokens| == 1 then tokens[0]
    else tokens[0] + [sep] + Join(tokens[1..], sep)
  }

  /** Lower-case of one byte: ASCII `A`..`Z` become `a`..`z`, every other byte
      is kept. */
  function LowerAscii(c: char): (r: char)
    ensures 'A' <= c <= 'Z' ==> 'a' <= r <= 'z' && r as int - c as int == 32
    ensures !('A' <= c <= 'Z') ==> r == c
  {
    if 'A' <= c <= 'Z' then (c as int + 32) as char else c
  }

  /** `strings.ToLower` on ASCII text. */
  function ToLower(s: string): (r: string)
    ensures |r| == |s|
    ensures forall i :: 0 <= i < |s| ==>
              r[i] == s[i] || ('A' <= s[i] <= 'Z' && r[i] as int == s[i] as int + 32)
    ensures forall i :: 0 <= i < |r| ==> !('A' <= r[i] <= 'Z')
    ensures (forall i :: 0 <= i < |s| ==> !('A' <= s[i] <= 'Z')) ==> r == s
  {
    seq(|s|, i requires 0 <= i < |s| => LowerAscii(s[i]))
  }

  /** `slices.Contains(list, x)`: a linear scan from the front. */
  function Contains(list: seq<string>, x: string): (r: bool)
    ensures r <==> exists i :: 0 <= i < |list| && list[i] == x
  {
    if list == [] then false
    else list[0] == x || Contains(list[1..], x)
  }

  /** Splitting a token that holds no separator, followed by any tail, glues
      the token onto the tail's first piece. */
  lemma {:induction false} SplitPrefix(token: string, tail: string, sep: char)
    requires sep !in token
    ensures Split(token + tail, sep)
         == [token + Split(tail, sep)[0]] + Split(tail, sep)[1..]
    decreases |token|
  {
    if token != [] {
      assert (token + tail)[1..] == token[1..] + tail;
      SplitPrefix(token[1..], tail, sep);
      assert [token[0]] + (token[1..] + Split(tail, sep)[0]) == token + Split(tail, sep)[0];
    } else {
      var pieces := Split(tail, sep);
      assert token + tail == tail;
      assert token + pieces[0] == pieces[0];
      assert pieces == [pieces[0]] + pieces[1..];
    }
  }

  /** Split of a string given by its first byte. */
  lemma SplitCons(c: char, tail: string, sep: char)
    ensures Split([c] + tail, sep)
         == if c == sep then [[]] + Split(tail, sep)
            else [[c] + Split(tail, sep)[0]] + Split(tail, sep)[1..]
  {
    assert ([c] + tail)[1..] == tail;
  }

  /** Join of at least two tokens given by the first one. */
  lemma JoinCons(token: string, tokens: seq<string>, sep: char)
    requires |tokens| >= 1
    ensures Join([token] + tokens, sep) == token + [sep] + Join(tokens, sep)
  {
    assert ([token] + tokens)[1..] == tokens;
  }

  /** Gluing a byte onto the first of several tokens glues it onto their
      join. */
  lemma JoinGlue(c: char, tokens: seq<string>, sep: char)
    requires |tokens| >= 1
    ensures Join([[c] + tokens[0]] + tokens[1..], sep) == [c] + Join(tokens, sep)
  {
    if |tokens| > 1 {
      assert tokens == [tokens[0]] + tokens[1..];
      JoinCons(tokens[0], tokens[1..], sep);
      JoinCons([c] + tokens[0], tokens[1..], sep);
    }
  }

  /** One step of the round trip: it survives putting a byte in front. */
  lemma JoinSplitStep(c: char, tail: string, sep: char)
    requires Join(Split(tail, sep), sep) == tail
    ensures Join(Split([c] + tail, sep), sep) == [c] + tail
  {
    SplitCons(c, tail, sep);
    if c == sep {
      JoinCons([], Split(tail, sep), sep);
    } else {
      JoinGlue(c, Split(tail, sep), sep);
    }
  }

  /** Joining the pieces of a split with the same separator gives the string
      back: `strings.Join(strings.Split(s, sep), sep) == s`. */
  lemma {:induction false} JoinSplit(s: string, sep: char)
    ensures Join(Split(s, sep), sep) == s
    decreases |s|
  {
    if s != [] {
      JoinSplit(s[1..], sep);
      JoinSplitStep(s[0], s[1..], sep);
      assert s == [s[0]] + s[1..];
    }
  }

  /** A separator-free token, a separator and a tail split into the token
      followed by the tail's pieces. */
  lemma SplitAfterToken(token: string, tail: string, sep: char)
    requires sep !in token
    ensures Split(token + [sep] + tail, sep) == [token] + Split(tail, sep)
  {
    var after := [sep] + tail;
    assert token + [sep] + tail == token + after;
    SplitCons(sep, tail, sep);
    var pieces := Split(after, sep);
    assert pieces[0] == [] && pieces[1..] == Split(tail, sep);
    SplitPrefix(token, after, sep);
    assert token + pieces[0] == token;
  }

  /** One step of the other round trip: it survives putting a
      separator-free token in front. */
  lemma SplitJoinStep(token: string, tokens: seq<string>, sep: char)
    requires sep !in token && |tokens| >= 1
    requires Split(Join(tokens, sep), sep) == tokens
    ensures Split(Join([token] + tokens, sep), sep) == [token] + tokens
  {
    JoinCons(token, tokens, sep);
    SplitAfterToken(token, Join(tokens, sep), sep);
  }

  /** Splitting a join of separator-free tokens gives the tokens back: the
      other half of the round trip. */
  lemma {:induction false} SplitJoin(tokens: seq<string>, sep: char)
    requires |tokens| >= 1
    requires forall i :: 0 <= i < |tokens| ==> sep !in tokens[i]
    ensures Split(Join(tokens, sep), sep) == tokens
    decreases |tokens|
  {
    if |tokens| == 1 {
      SplitPrefix(tokens[0], [], sep);
      assert tokens[0] + [] == tokens[0];
    } else {
      SplitJoin(tokens[1..], sep);
      SplitJoinStep(tokens[0], tokens[1..], sep);
      assert tokens == [tokens[0]] + tokens[1..];
    }
  }

  /** A split has one more token than the string has separators. */
  lemma {:induction false} SplitCount(s: string, sep: char)
    ensures |Split(s, sep)| == multiset(s)[sep] + 1
    decreases |s|
  {
    if s != [] {
      SplitCount(s[1..], sep);
      assert s == [s[0]] + s[1..];
    }
  }

  /** Joining n separator-free tokens puts exactly n - 1 separators in. */
  lemma {:induction false} JoinCount(tokens: seq<string>, sep: char)
    requires |tokens| >= 1
    requires forall i :: 0 <= i < |tokens| ==> sep !in tokens[i]
    ensures multiset(Join(tokens, sep))[sep] == |tokens| - 1
    decreases |tokens|
  {
    if |tokens| > 1 {
      JoinCount(tokens[1..], sep);
    }
  }

  /** A join of tokens that are each no longer than their counterparts is no
      longer than the join of the counterparts. */
  lemma {:induction false} JoinNoLonger(short: seq<string>, long: seq<string>, sep: char)
    requires |short| == |long|
    requires forall i :: 0 <= i < |short| ==> |short[i]| <= |long[i]|
    ensures |Join(short, sep)| <= |Join(long, sep)|
    decreases |short|
  {
    if |short| > 1 {
      JoinNoLonger(short[1..], long[1..], sep);
    }
  }
}
