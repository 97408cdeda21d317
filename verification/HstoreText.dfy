/** The text form of an hstore: what hstore_out prints and what the parser reads. */
module HstoreText {
  import opened Optional
  import opened ByteStrings
  import opened Hstore

  const SPACE: byte := 32
  const QUOTE: byte := 34
  const COMMA: byte := 44
  const EQUALS: byte := 61
  const GREATER: byte := 62
  const BACKSLASH: byte := 92
  const NULL_TEXT: Bytes := [78, 85, 76, 76]

  /** A C string: no zero byte before its end. */
  predicate CString(s: Bytes) {
    forall i | 0 <= i < |s| :: s[i] != 0
  }

  function CharAt(s: Bytes, i: nat): byte {
    if i < |s| then s[i] else 0
  }

  /** isspace in the C locale. */
  predicate IsSpace(c: byte) {
    c == SPACE || 9 <= c <= 13
  }

  // ---------- get_val ----------

  datatype GvState = WaitVal | InVal | InEscVal | WaitEscIn | WaitEscEscIn

  /** next is where the caller goes on reading. */
  datatype Got = Word(word: Bytes, escaped: bool, next: nat) | NoWord | SyntaxError(at: nat) | UnexpectedEnd

  /** The state machine of get_val from position ptr on. */
  function GetVal(s: Bytes, ptr: nat, st: GvState, word: Bytes, escaped: bool, ignoreeq: bool): Got
    requires ptr <= |s|
    decreases |s| - ptr
  {
    var c := CharAt(s, ptr);
    match st
    case WaitVal =>
      if ptr == |s| then NoWord
      else if c == QUOTE then GetVal(s, ptr + 1, InEscVal, word, true, ignoreeq)
      else if c == EQUALS && !ignoreeq then SyntaxError(ptr)
      else if c == BACKSLASH then GetVal(s, ptr + 1, WaitEscIn, word, escaped, ignoreeq)
      else if !IsSpace(c) then GetVal(s, ptr + 1, InVal, word + [c], escaped, ignoreeq)
      else GetVal(s, ptr + 1, WaitVal, word, escaped, ignoreeq)
    case InVal =>
      if ptr == |s| then Word(word, escaped, ptr)
      else if c == BACKSLASH then GetVal(s, ptr + 1, WaitEscIn, word, escaped, ignoreeq)
      else if c == (if ignoreeq then COMMA else EQUALS) then Word(word, escaped, ptr)
      else if IsSpace(c) then Word(word, escaped, ptr + 1)
      else GetVal(s, ptr + 1, InVal, word + [c], escaped, ignoreeq)
    case InEscVal =>
      if ptr == |s| then UnexpectedEnd
      else if c == BACKSLASH then GetVal(s, ptr + 1, WaitEscEscIn, word, escaped, ignoreeq)
      else if c == QUOTE then Word(word, escaped, ptr + 1)
      else GetVal(s, ptr + 1, InEscVal, word + [c], escaped, ignoreeq)
    case WaitEscIn =>
      if ptr == |s| then UnexpectedEnd
      else GetVal(s, ptr + 1, InVal, word + [c], escaped, ignoreeq)
    case WaitEscEscIn =>
      if ptr == |s| then UnexpectedEnd
      else GetVal(s, ptr + 1, InEscVal, word + [c], escaped, ignoreeq)
  }

  /** A word ends inside the input, after where it started. */
  lemma {:induction false} GetValMoves(s: Bytes, ptr: nat, st: GvState, word: Bytes, escaped: bool, ignoreeq: bool)
    requires ptr <= |s|
    ensures var g := GetVal(s, ptr, st, word, escaped, ignoreeq);
            g.Word? ==> ptr <= g.next <= |s| && (st == WaitVal ==> ptr < g.next)
    decreases |s| - ptr
  {
    if ptr < |s| {
      var c := s[ptr];
      match st
      case WaitVal =>
        GetValMoves(s, ptr + 1, if c == QUOTE then InEscVal else if c == BACKSLASH then WaitEscIn
                                else if !IsSpace(c) then InVal else WaitVal,
                    if c != QUOTE && c != BACKSLASH && !IsSpace(c) then word + [c] else word,
                    escaped || c == QUOTE, ignoreeq);
      case InVal =>
        GetValMoves(s, ptr + 1, if c == BACKSLASH then WaitEscIn else InVal,
                    if c == BACKSLASH then word else word + [c], escaped, ignoreeq);
      case InEscVal =>
        GetValMoves(s, ptr + 1, if c == BACKSLASH then WaitEscEscIn else InEscVal,
                    if c == BACKSLASH then word else word + [c], escaped, ignoreeq);
      case WaitEscIn => GetValMoves(s, ptr + 1, InVal, word + [c], escaped, ignoreeq);
      case WaitEscEscIn => GetValMoves(s, ptr + 1, InEscVal, word + [c], escaped, ignoreeq);
    }
  }

  // ---------- parse_hstore ----------

  datatype ParseState = WKey | WEq | WGt | WVal | WDel

  datatype Parsed = Pairs(pairs: seq<Pair>) | BadSyntax(at: nat) | EndOfString | TooLong

  function Lower(c: byte): byte {
    if 65 <= c <= 90 then c + 32 else c
  }

  /** An unescaped null in any case. */
  predicate IsNullWord(w: Bytes, escaped: bool) {
    && |w| == 4 && !escaped
    && Lower(w[0]) == 110 && Lower(w[1]) == 117 && Lower(w[2]) == 108 && Lower(w[3]) == 108
  }

  /** The state machine of parse_hstore. */
  function Parse(s: Bytes, ptr: nat, st: ParseState, key: Bytes, pairs: seq<Pair>): Parsed
    requires ptr <= |s|
    decreases |s| - ptr
  {
    var c := CharAt(s, ptr);
    match st
    case WKey =>
      GetValMoves(s, ptr, WaitVal, [], false, false);
      (match GetVal(s, ptr, WaitVal, [], false, false)
       case NoWord => Pairs(pairs)
       case SyntaxError(at) => BadSyntax(at)
       case UnexpectedEnd => EndOfString
       case Word(w, _, next) =>
         if |w| > 0x3FFF_FFFF then TooLong else Parse(s, next, WEq, w, pairs))
    case WEq =>
      if ptr == |s| then EndOfString
      else if c == EQUALS then Parse(s, ptr + 1, WGt, key, pairs)
      else if !IsSpace(c) then BadSyntax(ptr)
      else Parse(s, ptr + 1, WEq, key, pairs)
    case WGt =>
      if ptr == |s| then EndOfString
      else if c == GREATER then Parse(s, ptr + 1, WVal, key, pairs)
      else BadSyntax(ptr)
    case WVal =>
      GetValMoves(s, ptr, WaitVal, [], false, true);
      (match GetVal(s, ptr, WaitVal, [], false, true)
       case NoWord => EndOfString
       case SyntaxError(at) => BadSyntax(at)
       case UnexpectedEnd => EndOfString
       case Word(w, escaped, next) =>
         if |w| > 0x3FFF_FFFF then TooLong
         else Parse(s, next, WDel, [], pairs + [Pair(key, if IsNullWord(w, escaped) then None else Some(w))]))
    case WDel =>
      if ptr == |s| then Pairs(pairs)
      else if c == COMMA then Parse(s, ptr + 1, WKey, [], pairs)
      else if !IsSpace(c) then BadSyntax(ptr)
      else Parse(s, ptr + 1, WDel, [], pairs)
  }

  // ---------- hstore_out ----------

  /** One byte as cpw writes it. */
  function EscapedByte(c: byte): Bytes {
    if c == QUOTE || c == BACKSLASH then [BACKSLASH, c] else [c]
  }

  /** The bytes of b from i on as cpw writes them. */
  function Escaped(b: Bytes, i: nat): Bytes
    requires i <= |b|
    decreases |b| - i
  {
    if i == |b| then [] else EscapedByte(b[i]) + Escaped(b, i + 1)
  }

  function Quoted(b: Bytes): Bytes {
    [QUOTE] + Escaped(b, 0) + [QUOTE]
  }

  function ValText(p: Pair): Bytes {
    if p.val.None? then NULL_TEXT else Quoted(p.val.value)
  }

  function PairText(p: Pair): Bytes {
    Quoted(p.key) + [EQUALS, GREATER] + ValText(p)
  }

  /** The text of the pairs from i on. */
  function Print(ps: seq<Pair>, i: nat): Bytes
    requires i <= |ps|
    decreases |ps| - i
  {
    if i == |ps| then []
    else PairText(ps[i]) + (if i + 1 < |ps| then [COMMA, SPACE] else []) + Print(ps, i + 1)
  }

  // ---------- What the printer escapes ----------

  /** Only quotes and backslashes take a second byte. */
  lemma {:induction false} EscapedLength(b: Bytes, i: nat)
    requires i <= |b|
    ensures |Escaped(b, i)| == |b| - i + multiset(b[i..])[QUOTE] + multiset(b[i..])[BACKSLASH]
    decreases |b| - i
  {
    if i < |b| {
      EscapedLength(b, i + 1);
      CountFrom(b, i, QUOTE);
      CountFrom(b, i, BACKSLASH);
    }
  }

  lemma CountFrom(b: Bytes, i: nat, c: byte)
    requires i < |b|
    ensures multiset(b[i..])[c] == multiset(b[i + 1..])[c] + if b[i] == c then 1 else 0
  {
    assert b[i..] == [b[i]] + b[i + 1..];
  }

  lemma {:induction false} EscapedFrom(b: Bytes, i: nat)
    requires i <= |b| && QUOTE !in b && BACKSLASH !in b
    ensures Escaped(b, i) == b[i..]
    decreases |b| - i
  {
    if i < |b| {
      EscapedFrom(b, i + 1);
      assert b[i..] == [b[i]] + b[i + 1..];
    }
  }

  /** What is printed between the quotes: as long as the string with its quotes and backslashes, else the string. */
  lemma EscapedIs(b: Bytes)
    ensures |Escaped(b, 0)| == |b| + multiset(b)[QUOTE] + multiset(b)[BACKSLASH]
    ensures QUOTE !in b && BACKSLASH !in b ==> Escaped(b, 0) == b
  {
    EscapedLength(b, 0);
    assert b[0..] == b;
    if QUOTE !in b && BACKSLASH !in b {
      EscapedFrom(b, 0);
    }
  }

  // ---------- Reading and parsing ----------

  /** The input continues with t at ptr. */
  predicate Reads(s: Bytes, ptr: nat, t: Bytes) {
    ptr + |t| <= |s| && forall k | 0 <= k < |t| :: s[ptr + k] == t[k]
  }

  lemma ReadsSplit(s: Bytes, ptr: nat, a: Bytes, b: Bytes)
    requires Reads(s, ptr, a + b)
    ensures Reads(s, ptr, a) && Reads(s, ptr + |a|, b)
  {
    forall k | 0 <= k < |b| ensures s[ptr + |a| + k] == b[k] {
      assert s[ptr + (|a| + k)] == (a + b)[|a| + k];
    }
    assert forall k | 0 <= k < |a| :: (a + b)[k] == a[k];
  }

  lemma ReadsFirst(s: Bytes, ptr: nat, c: byte, t: Bytes)
    requires Reads(s, ptr, [c] + t)
    ensures ptr < |s| && s[ptr] == c && Reads(s, ptr + 1, t)
  {
    ReadsSplit(s, ptr, [c], t);
    assert s[ptr + 0] == [c][0];
  }

  predicate Short(p: Pair) {
    |p.key| <= 0x3FFF_FFFF && |ValBytes(p)| <= 0x3FFF_FFFF
  }

  lemma AtEnd(s: Bytes, pairs: seq<Pair>)
    ensures Parse(s, |s|, WDel, [], pairs) == Pairs(pairs)
  {
  }

  lemma AtComma(s: Bytes, ptr: nat, pairs: seq<Pair>)
    requires ptr < |s| && s[ptr] == COMMA
    ensures Parse(s, ptr, WDel, [], pairs) == Parse(s, ptr + 1, WKey, [], pairs)
  {
  }
}
