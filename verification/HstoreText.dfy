/** The text form of an hstore: the printer, and the parser with its two automata. */
module HstoreText {
  import opened Optional
  import opened ByteStrings
  import opened HstoreLayout

  const QUOTE: int := 34
  const BACKSLASH: int := 92
  const EQUALS: int := 61
  const GREATER: int := 62
  const COMMA: int := 44
  const SPACE: int := 32

  predicate IsSpace(ch: int) { ch == SPACE || 9 <= ch <= 13 }

  // ------------------------------------------------------------------- printing

  /** What `cpw` writes. */
  function Escaped(s: Octets): Octets {
    if s == [] then []
    else (if s[0] == QUOTE || s[0] == BACKSLASH then [BACKSLASH, s[0]] else [s[0]]) + Escaped(s[1..])
  }

  function Quoted(s: Octets): Octets { [QUOTE] + Escaped(s) + [QUOTE] }

  const NULL_TEXT: Octets := [78, 85, 76, 76]

  function ValueText(v: Option<Octets>): Octets {
    if v.Some? then Quoted(v.value) else NULL_TEXT
  }

  function PairText(p: Pair): Octets { Quoted(p.key) + [EQUALS, GREATER] + ValueText(p.val) }

  function Separator(more: bool): Octets { if more then [COMMA, SPACE] else [] }

  /** The text of the pairs from `i` on. */
  function Text(ps: seq<Pair>, i: nat): Octets
    requires i <= |ps|
    decreases |ps| - i
  {
    if i == |ps| then [] else PairText(ps[i]) + Separator(i + 1 < |ps|) + Text(ps, i + 1)
  }

  // -------------------------------------------------------------------- parsing

  datatype ValState = WaitVal | InVal | InEscVal | WaitEscIn | WaitEscEscIn

  /** The outcome of `get_val`: a word and the input from which parsing goes on, the
      end of the input, or an error. */
  datatype Val = Got(word: Octets, escaped: bool, rest: Octets) | AtEnd | Bad

  /** The next character, 0 at the end of the string. */
  function Head(t: Octets): int { if t == [] then 0 else t[0] }

  function GetVal(t: Octets, st: ValState, ignoreeq: bool, word: Octets, escaped: bool): (r: Val)
    ensures r.Got? ==> |r.rest| <= |t| && (st.WaitVal? ==> |r.rest| < |t|)
    decreases |t|
  {
    var ch := Head(t);
    match st
    case WaitVal =>
      if ch == QUOTE then GetVal(t[1..], InEscVal, ignoreeq, word, true)
      else if ch == 0 then AtEnd
      else if ch == EQUALS && !ignoreeq then Bad
      else if ch == BACKSLASH then GetVal(t[1..], WaitEscIn, ignoreeq, word, escaped)
      else if !IsSpace(ch) then GetVal(t[1..], InVal, ignoreeq, word + [ch], escaped)
      else GetVal(t[1..], WaitVal, ignoreeq, word, escaped)
    case InVal =>
      if ch == BACKSLASH then GetVal(t[1..], WaitEscIn, ignoreeq, word, escaped)
      else if (ch == EQUALS && !ignoreeq) || (ch == COMMA && ignoreeq) then Got(word, escaped, t)
      else if IsSpace(ch) then Got(word, escaped, t[1..])
      else if ch == 0 then Got(word, escaped, t)
      else GetVal(t[1..], InVal, ignoreeq, word + [ch], escaped)
    case InEscVal =>
      if ch == BACKSLASH then GetVal(t[1..], WaitEscEscIn, ignoreeq, word, escaped)
      else if ch == QUOTE then Got(word, escaped, t[1..])
      else if ch == 0 then Bad
      else GetVal(t[1..], InEscVal, ignoreeq, word + [ch], escaped)
    case WaitEscIn =>
      if ch == 0 then Bad else GetVal(t[1..], InVal, ignoreeq, word + [ch], escaped)
    case WaitEscEscIn =>
      if ch == 0 then Bad else GetVal(t[1..], InEscVal, ignoreeq, word + [ch], escaped)
  }

  function Lower(ch: int): int { if 65 <= ch <= 90 then ch + 32 else ch }

  /** `pg_strcasecmp` with "null". */
  predicate SpellsNull(w: Octets) {
    |w| == 4 && Lower(w[0]) == 110 && Lower(w[1]) == 117 && Lower(w[2]) == 108 && Lower(w[3]) == 108
  }

  datatype ParseState = WaitKey | WaitEq(key: Octets) | WaitGt(key: Octets) | WaitValue(key: Octets) | WaitDel

  datatype Parsed = Pairs(pairs: seq<Pair>) | SyntaxError | TooLong

  /** `parse_hstore` on what remains of the input, after the pairs `done`. */
  function Parse(t: Octets, st: ParseState, done: seq<Pair>): Parsed
    decreases |t|
  {
    var ch := Head(t);
    match st
    case WaitKey =>
      (match GetVal(t, WaitVal, false, [], false)
       case AtEnd => Pairs(done)
       case Bad => SyntaxError
       case Got(key, _, rest) => if |key| > MAX_LEN then TooLong else Parse(rest, WaitEq(key), done))
    case WaitEq(key) =>
      if ch == EQUALS then Parse(t[1..], WaitGt(key), done)
      else if ch == 0 || !IsSpace(ch) then SyntaxError
      else Parse(t[1..], WaitEq(key), done)
    case WaitGt(key) =>
      if ch == GREATER then Parse(t[1..], WaitValue(key), done) else SyntaxError
    case WaitValue(key) =>
      (match GetVal(t, WaitVal, true, [], false)
       case AtEnd => SyntaxError
       case Bad => SyntaxError
       case Got(val, escaped, rest) =>
         if |val| > MAX_LEN then TooLong
         else Parse(rest, WaitDel, done + [Pair(key, if SpellsNull(val) && !escaped then None else Some(val))]))
    case WaitDel =>
      if ch == COMMA then Parse(t[1..], WaitKey, done)
      else if ch == 0 then Pairs(done)
      else if !IsSpace(ch) then SyntaxError
      else Parse(t[1..], WaitDel, done)
  }

  // ---------------------------------------------------------------- the round trip

  predicate NoNul(s: Octets) { forall i :: 0 <= i < |s| ==> s[i] != 0 }

  /** The keys and values are short enough, and have no byte 0, as in every text. */
  predicate Printable(p: Pair) {
    NoNul(p.key) && |p.key| <= MAX_LEN && NoNul(ValueBytes(p)) && |ValueBytes(p)| <= MAX_LEN
  }

  /** One character of a quoted string, plain or behind a backslash. */
  lemma PlainRead(ch: int, more: Octets, ignoreeq: bool, word: Octets)
    requires ch != 0 && ch != QUOTE && ch != BACKSLASH
    ensures GetVal([ch] + more, InEscVal, ignoreeq, word, true) == GetVal(more, InEscVal, ignoreeq, word + [ch], true)
  {
    assert ([ch] + more)[1..] == more;
  }

  lemma EscapeRead(ch: int, more: Octets, ignoreeq: bool, word: Octets)
    requires ch != 0
    ensures GetVal([BACKSLASH, ch] + more, InEscVal, ignoreeq, word, true) ==
            GetVal(more, InEscVal, ignoreeq, word + [ch], true)
  {
    assert ([BACKSLASH, ch] + more)[1..] == [ch] + more && ([ch] + more)[1..] == more;
    assert GetVal([ch] + more, WaitEscEscIn, ignoreeq, word, true) == GetVal(more, InEscVal, ignoreeq, word + [ch], true);
  }

  lemma EscapedSplits(s: Octets, tail: Octets)
    requires s != []
    ensures Escaped(s) + tail ==
      if s[0] == QUOTE || s[0] == BACKSLASH then [BACKSLASH, s[0]] + (Escaped(s[1..]) + tail)
      else [s[0]] + (Escaped(s[1..]) + tail)
  {
  }

  lemma QuoteRead(rest: Octets, ignoreeq: bool, word: Octets)
    ensures GetVal([QUOTE] + rest, InEscVal, ignoreeq, word, true) == Got(word, true, rest)
  {
    assert ([QUOTE] + rest)[1..] == rest;
  }

  lemma {:induction false} QuotedReads(s: Octets, rest: Octets, ignoreeq: bool, word: Octets)
    requires NoNul(s)
    ensures GetVal(Escaped(s) + ([QUOTE] + rest), InEscVal, ignoreeq, word, true) == Got(word + s, true, rest)
    decreases |s|
  {
    var tail := [QUOTE] + rest;
    if s == [] {
      assert Escaped(s) + tail == tail && word + s == word;
      QuoteRead(rest, ignoreeq, word);
    } else {
      QuotedReads(s[1..], rest, ignoreeq, word + [s[0]]);
      assert (word + [s[0]]) + s[1..] == word + s;
      EscapedSplits(s, tail);
      if s[0] == QUOTE || s[0] == BACKSLASH {
        EscapeRead(s[0], Escaped(s[1..]) + tail, ignoreeq, word);
      } else {
        PlainRead(s[0], Escaped(s[1..]) + tail, ignoreeq, word);
      }
    }
  }

  /** A quoted string is read back whole, whatever is in it and behind it. */
  lemma QuotedRoundTrip(s: Octets, rest: Octets, ignoreeq: bool)
    requires NoNul(s)
    ensures GetVal(Quoted(s) + rest, WaitVal, ignoreeq, [], false) == Got(s, true, rest)
  {
    var t := Quoted(s) + rest;
    assert t[0] == QUOTE && t[1..] == Escaped(s) + ([QUOTE] + rest);
    QuotedReads(s, rest, ignoreeq, []);
    assert [] + s == s;
  }

  /** The word NULL is read as such before a comma and at the end. */
  lemma NullReads(more: Octets)
    requires more == [] || more[0] == COMMA
    ensures GetVal(NULL_TEXT + more, WaitVal, true, [], false) == Got(NULL_TEXT, false, more)
  {
    var t := NULL_TEXT + more;
    assert t[1..] == [85, 76, 76] + more;
    assert t[1..][1..] == [76, 76] + more;
    assert t[1..][1..][1..] == [76] + more;
    assert t[1..][1..][1..][1..] == more;
    var (a, b, c, d) := ([78], [78, 85], [78, 85, 76], NULL_TEXT);
    assert GetVal(more, InVal, true, d, false) == Got(d, false, more);
    assert c + [76] == d && b + [76] == c && a + [85] == b && [] + [78] == a;
    assert GetVal([76] + more, InVal, true, c, false) == GetVal(more, InVal, true, d, false);
    assert GetVal([76, 76] + more, InVal, true, b, false) == GetVal([76] + more, InVal, true, c, false);
    assert GetVal([85, 76, 76] + more, InVal, true, a, false) == GetVal([76, 76] + more, InVal, true, b, false);
  }

  /** What follows a pair in the text. */
  function Behind(ps: seq<Pair>, i: nat): Octets
    requires i < |ps|
  {
    Separator(i + 1 < |ps|) + Text(ps, i + 1)
  }

  lemma ValueRoundTrip(p: Pair, more: Octets)
    requires Printable(p) && (more == [] || more[0] == COMMA)
    ensures
      var r := GetVal(ValueText(p.val) + more, WaitVal, true, [], false);
      && r.Got? && r.rest == more && |r.word| <= MAX_LEN
      && p.val == if SpellsNull(r.word) && !r.escaped then None else Some(r.word)
  {
    if p.val.Some? {
      QuotedRoundTrip(p.val.value, more, true);
    } else {
      NullReads(more);
    }
  }

  /** One pair of the text is parsed. */
  lemma PairRoundTrip(p: Pair, more: Octets, done: seq<Pair>)
    requires Printable(p) && (more == [] || more[0] == COMMA)
    ensures Parse(PairText(p) + more, WaitKey, done) == Parse(more, WaitDel, done + [p])
  {
    var t3 := ValueText(p.val) + more;
    var t2 := [GREATER] + t3;
    var t1 := [EQUALS] + t2;
    assert PairText(p) + more == Quoted(p.key) + t1;
    QuotedRoundTrip(p.key, t1, false);
    assert t1[1..] == t2 && t2[1..] == t3;
    ValueRoundTrip(p, more);
    assert Pair(p.key, p.val) == p;
    assert Parse(t3, WaitValue(p.key), done) == Parse(more, WaitDel, done + [p]);
    assert Parse(t2, WaitGt(p.key), done) == Parse(t3, WaitValue(p.key), done);
    assert Parse(t1, WaitEq(p.key), done) == Parse(t2, WaitGt(p.key), done);
  }

  lemma SeparatorRead(t: Octets, done: seq<Pair>)
    ensures Parse([COMMA, SPACE] + t, WaitDel, done) == Parse([SPACE] + t, WaitKey, done)
    ensures t != [] && t[0] == QUOTE ==> Parse([SPACE] + t, WaitKey, done) == Parse(t, WaitKey, done)
  {
    assert ([COMMA, SPACE] + t)[1..] == [SPACE] + t && ([SPACE] + t)[1..] == t;
    assert GetVal([SPACE] + t, WaitVal, false, [], false) == GetVal(t, WaitVal, false, [], false);
  }

  lemma BehindStarts(ps: seq<Pair>, i: nat)
    requires i < |ps|
    ensures Text(ps, i) == PairText(ps[i]) + Behind(ps, i)
    ensures Behind(ps, i) == [] || Behind(ps, i)[0] == COMMA
  {
  }

  lemma TextStep(ps: seq<Pair>, i: nat)
    requires i < |ps| && Printable(ps[i])
    ensures Parse(Text(ps, i), WaitKey, ps[..i]) == Parse(Behind(ps, i), WaitDel, ps[..i + 1])
  {
    BehindStarts(ps, i);
    assert ps[..i] + [ps[i]] == ps[..i + 1];
    PairRoundTrip(ps[i], Behind(ps, i), ps[..i]);
  }

  lemma TextNext(ps: seq<Pair>, i: nat)
    requires i + 1 < |ps|
    ensures Parse(Behind(ps, i), WaitDel, ps[..i + 1]) == Parse(Text(ps, i + 1), WaitKey, ps[..i + 1])
  {
    BehindStarts(ps, i + 1);
    assert Text(ps, i + 1)[0] == QUOTE;
    SeparatorRead(Text(ps, i + 1), ps[..i + 1]);
  }

  lemma TextEnd(ps: seq<Pair>)
    requires ps != []
    ensures Parse(Behind(ps, |ps| - 1), WaitDel, ps[..|ps|]) == Pairs(ps)
  {
    assert Behind(ps, |ps| - 1) == [] && ps[..|ps|] == ps;
  }

  lemma {:induction false} TextParses(ps: seq<Pair>, i: nat)
    requires i < |ps| && forall j :: 0 <= j < |ps| ==> Printable(ps[j])
    ensures Parse(Text(ps, i), WaitKey, ps[..i]) == Pairs(ps)
    decreases |ps| - i
  {
    TextStep(ps, i);
    if i + 1 < |ps| {
      TextParses(ps, i + 1);
      TextNext(ps, i);
    } else {
      TextEnd(ps);
    }
  }

  /** Printing and then parsing gives the same pairs, in the same order, for all pairs
      without a byte 0: quotes and backslashes may stand anywhere, and a null value is
      told from the string NULL. */
  lemma RoundTrip(ps: seq<Pair>)
    requires forall j :: 0 <= j < |ps| ==> Printable(ps[j])
    ensures Parse(Text(ps, 0), WaitKey, []) == Pairs(ps)
  {
    if ps != [] {
      TextParses(ps, 0);
      assert ps[..0] == [];
    }
  }

  // ------------------------------------------------------------------ the printer

  lemma {:induction false} EscapedLength(s: Octets)
    ensures |s| <= |Escaped(s)| <= 2 * |s|
  {
    if s == [] {
    } else {
      EscapedLength(s[1..]);
    }
  }

  /** What the first loop of `hstore_out` reserves for a pair. */
  function Reserved(p: Pair): nat {
    6 + 2 * |p.key| + 2 + if p.val.None? then 2 else 2 * |p.val.value|
  }

  lemma PairTextLength(p: Pair)
    ensures |PairText(p)| + 2 <= Reserved(p)
  {
    EscapedLength(p.key);
    if p.val.Some? {
      EscapedLength(p.val.value);
    }
  }

  function ReservedFrom(ps: seq<Pair>, i: nat): nat
    requires i <= |ps|
    decreases |ps| - i
  {
    if i == |ps| then 0 else Reserved(ps[i]) + ReservedFrom(ps, i + 1)
  }

  /** The text and the byte 0 behind it fit in the buffer. */
  lemma {:induction false} TextFits(ps: seq<Pair>, i: nat)
    requires i <= |ps|
    ensures |Text(ps, i)| + (if i < |ps| then 2 else 0) <= ReservedFrom(ps, i)
    decreases |ps| - i
  {
    if i == |ps| {
    } else {
      PairTextLength(ps[i]);
      TextFits(ps, i + 1);
    }
  }
}
