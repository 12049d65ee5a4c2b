/** The parser and the printer as the program runs them. */
module HstoreInput {
  import opened MachineWords
  import opened Optional
  import opened ByteStrings
  import opened HstoreLayout
  import opened HstorePack
  import opened HstoreText

  datatype Found = Word(escaped: bool) | NoWord | Error

  /** What `get_val` does on one character: it goes on, stops on the character or before
      it, meets the end of the input, or fails. */
  datatype Move = Go | Stop | Back | End | Fail

  /** One iteration of the loop of `get_val`. */
  method Advance(st: ValState, ch: int, ignoreeq: bool, word: Octets, escaped: bool, ghost t: Octets)
    returns (move: Move, st': ValState, word': Octets, escaped': bool)
    requires ch == Head(t)
    ensures
      var goal := GetVal(t, st, ignoreeq, word, escaped);
      match move
      case Go => t != [] && goal == GetVal(t[1..], st', ignoreeq, word', escaped') && (st.WaitVal? || !st'.WaitVal?)
      case Stop => t != [] && !st.WaitVal? && goal == Got(word', escaped', t[1..])
      case Back => !st.WaitVal? && goal == Got(word', escaped', t)
      case End => goal == AtEnd
      case Fail => goal == Bad
  {
    move, st', word', escaped' := Go, st, word, escaped;
    match st
    case WaitVal =>
      if ch == QUOTE {
        escaped', st' := true, InEscVal;
      } else if ch == 0 {
        move := End;
      } else if ch == EQUALS && !ignoreeq {
        move := Fail;
      } else if ch == BACKSLASH {
        st' := WaitEscIn;
      } else if !IsSpace(ch) {
        word', st' := word + [ch], InVal;
      }
    case InVal =>
      if ch == BACKSLASH {
        st' := WaitEscIn;
      } else if (ch == EQUALS && !ignoreeq) || (ch == COMMA && ignoreeq) {
        move := Back;
      } else if IsSpace(ch) {
        move := Stop;
      } else if ch == 0 {
        move := Back;
      } else {
        word' := word + [ch];
      }
    case InEscVal =>
      if ch == BACKSLASH {
        st' := WaitEscEscIn;
      } else if ch == QUOTE {
        move := Stop;
      } else if ch == 0 {
        move := Fail;
      } else {
        word' := word + [ch];
      }
    case WaitEscIn =>
      if ch == 0 {
        move := Fail;
      } else {
        word', st' := word + [ch], InVal;
      }
    case WaitEscEscIn =>
      if ch == 0 {
        move := Fail;
      } else {
        word', st' := word + [ch], InEscVal;
      }
  }

  /** `HSParser`: a pointer into the input, the word being read, and the pairs. */
  class Parser {
    const begin: Octets
    var ptr: nat
    var word: Octets
    var pairs: seq<Pair>

    constructor (text: Octets)
      ensures begin == text && ptr == 0 && pairs == []
    {
      begin, ptr, word, pairs := text, 0, [], [];
    }

    /** `get_val`.  On success the pointer is left on the last character consumed. */
    method GetWord(ignoreeq: bool) returns (r: Found)
      requires ptr <= |begin|
      modifies this`ptr, this`word
      ensures ptr <= |begin|
      ensures match GetVal(begin[old(ptr)..], WaitVal, ignoreeq, [], false)
              case Got(w, escaped, rest) =>
                r == Word(escaped) && word == w && ptr < |begin| && begin[ptr + 1..] == rest && old(ptr) <= ptr
              case AtEnd => r == NoWord
              case Bad => r == Error
    {
      var st, escaped := WaitVal, false;
      word := [];
      while true
        invariant old(ptr) <= ptr <= |begin| && (!st.WaitVal? ==> ptr > old(ptr))
        invariant GetVal(begin[ptr..], st, ignoreeq, word, escaped) == GetVal(begin[old(ptr)..], WaitVal, ignoreeq, [], false)
        decreases |begin| - ptr
      {
        var ch := if ptr < |begin| then begin[ptr] else 0;
        assert ptr < |begin| ==> begin[ptr..][1..] == begin[ptr + 1..];
        var step;
        step, st, word, escaped := Advance(st, ch, ignoreeq, word, escaped, begin[ptr..]);
        if step.Fail? {
          return Error;
        } else if step.End? {
          return NoWord;
        } else if step.Back? {
          ptr := ptr - 1;
          return Word(escaped);
        } else if step.Stop? {
          return Word(escaped);
        }
        ptr := ptr + 1;
      }
    }

    /** `parse_hstore`. */
    method ParseAll() returns (r: Parsed)
      requires ptr == 0 && pairs == []
      modifies this
      ensures r == Parse(begin, WaitKey, [])
    {
      var st := WaitKey;
      assert begin[0..] == begin;
      while true
        invariant ptr <= |begin| && Parse(begin[ptr..], st, pairs) == Parse(begin, WaitKey, [])
        decreases |begin| - ptr
      {
        var ch := if ptr < |begin| then begin[ptr] else 0;
        assert ptr < |begin| ==> begin[ptr..][1..] == begin[ptr + 1..];
        match st {
          case WaitKey =>
            var v := GetWord(false);
            if !v.Word? {
              return if v.NoWord? then Pairs(pairs) else SyntaxError;
            }
            if |word| > MAX_LEN {
              return TooLong;
            }
            st := WaitEq(word);
          case WaitEq(key) =>
            if ch == EQUALS {
              st := WaitGt(key);
            } else if ch == 0 || !IsSpace(ch) {
              return SyntaxError;
            }
          case WaitGt(key) =>
            if ch != GREATER {
              return SyntaxError;
            }
            st := WaitValue(key);
          case WaitValue(key) =>
            var v := GetWord(true);
            if !v.Word? {
              return SyntaxError;
            }
            if |word| > MAX_LEN {
              return TooLong;
            }
            pairs := pairs + [Pair(key, if SpellsNull(word) && !v.escaped then None else Some(word))];
            st := WaitDel;
          case WaitDel =>
            if ch == COMMA {
              st := WaitKey;
            } else if ch == 0 {
              return Pairs(pairs);
            } else if !IsSpace(ch) {
              return SyntaxError;
            }
        }
        ptr := ptr + 1;
      }
    }
  }

  // ------------------------------------------------------------------ the printer

  /** `cpw`: copies a string, putting a backslash before quotes and backslashes. */
  method CopyEscaped(dst: array<int>, at: nat, src: Octets) returns (pos: nat)
    requires at + |Escaped(src)| <= dst.Length
    modifies dst
    ensures pos == at + |Escaped(src)| && dst[..pos] == old(dst[..at]) + Escaped(src)
  {
    pos := at;
    assert src[0..] == src;
    for i := 0 to |src|
      invariant at <= pos && pos + |Escaped(src[i..])| == at + |Escaped(src)|
      invariant dst[..pos] + Escaped(src[i..]) == old(dst[..at]) + Escaped(src)
    {
      assert src[i..][1..] == src[i + 1..];
      if src[i] == QUOTE || src[i] == BACKSLASH {
        pos := Emit(dst, pos, [BACKSLASH]);
      }
      pos := Emit(dst, pos, [src[i]]);
    }
  }

  /** A few characters written one after the other. */
  method Emit(dst: array<int>, at: nat, s: Octets) returns (pos: nat)
    requires at + |s| <= dst.Length
    modifies dst
    ensures pos == at + |s| && dst[..pos] == old(dst[..at]) + s
  {
    pos := at;
    for i := 0 to |s|
      invariant pos == at + i && dst[..pos] == old(dst[..at]) + s[..i]
    {
      dst[pos] := s[i];
      pos := pos + 1;
      assert s[..i + 1] == s[..i] + [s[i]];
    }
    assert s[..|s|] == s;
  }

  method EmitQuoted(dst: array<int>, at: nat, s: Octets) returns (pos: nat)
    requires at + |Quoted(s)| <= dst.Length
    modifies dst
    ensures pos == at + |Quoted(s)| && dst[..pos] == old(dst[..at]) + Quoted(s)
  {
    ghost var start := dst[..at];
    pos := Emit(dst, at, [QUOTE]);
    pos := CopyEscaped(dst, pos, s);
    pos := Emit(dst, pos, [QUOTE]);
    Join4(start, [QUOTE], Escaped(s), [QUOTE]);
  }

  lemma Join4(a: Octets, b: Octets, c: Octets, d: Octets)
    ensures a + b + c + d == a + (b + c + d)
  {
  }

  /** One pair, read from the packed hstore `mem`, is written to the buffer. */
  method PrintPair(c: Codec, mem: Octets, n: nat, i: nat, ghost ps: seq<Pair>, dst: array<int>, at: nat) returns (pos: nat)
    requires n == |ps| && Reads(c, mem, ps) && i < n && at + |PairText(ps[i])| <= dst.Length
    modifies dst
    ensures pos == at + |PairText(ps[i])| && dst[..pos] == old(dst[..at]) + PairText(ps[i])
  {
    ReadsAt(c, mem, ps, i);
    pos := PrintBoth(StringAt(c, mem, n, 2 * i), EntryAt(c, mem, 2 * i + 1).isnull, StringAt(c, mem, n, 2 * i + 1), dst, at, ps[i]);
  }

  /** A pair, and what separates it from the next. */
  method PrintItem(c: Codec, mem: Octets, n: nat, i: nat, ghost ps: seq<Pair>, dst: array<int>, at: nat) returns (pos: nat)
    requires n == |ps| && Reads(c, mem, ps) && i < n
    requires at + |PairText(ps[i])| + |Separator(i + 1 < n)| <= dst.Length
    modifies dst
    ensures pos == at + |PairText(ps[i])| + |Separator(i + 1 < n)|
    ensures dst[..pos] == old(dst[..at]) + PairText(ps[i]) + Separator(i + 1 < n)
  {
    pos := PrintPair(c, mem, n, i, ps, dst, at);
    if i + 1 != n {
      pos := Emit(dst, pos, [COMMA, SPACE]);
    }
  }

  method PrintBoth(key: Octets, isnull: bool, val: Octets, dst: array<int>, at: nat, ghost p: Pair) returns (pos: nat)
    requires p == Pair(key, if isnull then None else Some(val)) && at + |PairText(p)| <= dst.Length
    modifies dst
    ensures pos == at + |PairText(p)| && dst[..pos] == old(dst[..at]) + PairText(p)
  {
    ghost var start := dst[..at];
    pos := EmitQuoted(dst, at, key);
    pos := Emit(dst, pos, [EQUALS, GREATER]);
    if isnull {
      pos := Emit(dst, pos, NULL_TEXT);
    } else {
      pos := EmitQuoted(dst, pos, val);
    }
    Join4(start, Quoted(key), [EQUALS, GREATER], ValueText(p.val));
  }

  /** The size of the buffer, an overestimate. */
  method BufferLength(c: Codec, mem: Octets, n: nat, ghost ps: seq<Pair>) returns (buflen: nat)
    requires n == |ps| && Reads(c, mem, ps)
    ensures buflen == ReservedFrom(ps, 0)
  {
    buflen := 0;
    for i := 0 to n
      invariant buflen + ReservedFrom(ps, i) == ReservedFrom(ps, 0)
    {
      ReadsAt(c, mem, ps, i);
      buflen := buflen + 6 + 2 * |StringAt(c, mem, n, 2 * i)|;
      buflen := buflen + 2 + if EntryAt(c, mem, 2 * i + 1).isnull then 2 else 2 * |StringAt(c, mem, n, 2 * i + 1)|;
    }
  }

  /** `hstore_out`; nothing if the buffer cannot be had. */
  method Print(c: Codec, hs: HStore, ghost ps: seq<Pair>) returns (text: Option<Octets>)
    requires Good(c) && hs.Packs(c, ps)
    ensures text.Some? <==> ReservedFrom(ps, 0) <= MAX_ALLOC
    ensures text.Some? ==> text.value == Text(ps, 0)
  {
    var mem, n := hs.data[..], hs.count;
    if n == 0 {
      return Some([]);
    }
    HeldReads(c, mem, ps);
    text := PrintPairs(c, mem, n, ps);
  }

  method PrintPairs(c: Codec, mem: Octets, n: nat, ghost ps: seq<Pair>) returns (text: Option<Octets>)
    requires n == |ps| > 0 && Reads(c, mem, ps)
    ensures text.Some? <==> ReservedFrom(ps, 0) <= MAX_ALLOC
    ensures text.Some? ==> text.value == Text(ps, 0)
  {
    var buflen := BufferLength(c, mem, n, ps);
    if buflen > MAX_ALLOC {
      return None;
    }
    var out := new int[buflen];
    TextFits(ps, 0);
    assert [] + Text(ps, 0) == Text(ps, 0);
    var pos := FillBuffer(c, mem, n, ps, out, Text(ps, 0));
    out[pos] := 0;
    return Some(out[..pos]);
  }

  /** The second loop of `hstore_out`. */
  method FillBuffer(c: Codec, mem: Octets, n: nat, ghost ps: seq<Pair>, out: array<int>, ghost text: Octets) returns (pos: nat)
    requires n == |ps| && Reads(c, mem, ps) && Printed(ps, 0, [], text) && |text| <= out.Length
    modifies out
    ensures pos == |text| && out[..pos] == text
  {
    pos := 0;
    assert out[..0] == [];
    for i := 0 to n
      invariant pos <= out.Length && Printed(ps, i, out[..pos], text)
    {
      PrintedMore(ps, i, out[..pos], text);
      pos := PrintItem(c, mem, n, i, ps, out, pos);
    }
    assert out[..pos] + [] == out[..pos];
  }

  /** The text is what stands before pair `i`, and the text from there on. */
  ghost predicate Printed(ps: seq<Pair>, i: nat, s: Octets, text: Octets)
    requires i <= |ps|
  {
    s + Text(ps, i) == text
  }

  lemma PrintedMore(ps: seq<Pair>, i: nat, s: Octets, text: Octets)
    requires i < |ps| && Printed(ps, i, s, text)
    ensures |s| + |PairText(ps[i])| + |Separator(i + 1 < |ps|)| <= |text|
    ensures Printed(ps, i + 1, s + PairText(ps[i]) + Separator(i + 1 < |ps|), text)
  {
    Join4(s, PairText(ps[i]), Separator(i + 1 < |ps|), Text(ps, i + 1));
  }
}
