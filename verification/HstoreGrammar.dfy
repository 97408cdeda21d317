/** The language the hstore parser accepts, defined without the parser, and proof that it is just that. */
module HstoreGrammar {
  import opened Optional
  import opened ByteStrings
  import opened Hstore
  import opened HstoreText

  // ---------- Texts and their meaning ----------

  /** A byte written as it is, or behind a backslash. */
  datatype Letter = Plain(c: byte) | Slashed(c: byte)

  datatype WordText = InQuotes(letters: seq<Letter>) | Bare(letters: seq<Letter>)

  /** A pair with the white space around its parts. */
  datatype Item = Item(
    before: Bytes, key: WordText, beforeArrow: Bytes, afterArrow: Bytes, val: WordText, after: Bytes)

  /** Items separated by commas; a comma may also stand behind the last one. */
  datatype Doc = Blank(space: Bytes) | Last(item: Item) | More(item: Item, rest: Doc)

  function LetterText(l: Letter): Bytes {
    if l.Plain? then [l.c] else [BACKSLASH, l.c]
  }

  function LettersText(ls: seq<Letter>): Bytes {
    if ls == [] then [] else LetterText(ls[0]) + LettersText(ls[1..])
  }

  function Spelled(ls: seq<Letter>): (r: Bytes)
    ensures |r| == |ls|
  {
    seq(|ls|, i requires 0 <= i < |ls| => ls[i].c)
  }

  function WordBytes(w: WordText): Bytes {
    if w.InQuotes? then [QUOTE] + LettersText(w.letters) + [QUOTE] else LettersText(w.letters)
  }

  function ItemText(t: Item): Bytes {
    t.before + WordBytes(t.key) + t.beforeArrow + [EQUALS, GREATER] + t.afterArrow + WordBytes(t.val) + t.after
  }

  function DocText(d: Doc): Bytes {
    match d
    case Blank(space) => space
    case Last(item) => ItemText(item)
    case More(item, rest) => ItemText(item) + [COMMA] + DocText(rest)
  }

  /** A bare null, in any case and however its letters are written. */
  predicate IsNullText(w: WordText) {
    IsNullWord(Spelled(w.letters), w.InQuotes?)
  }

  function ItemPair(t: Item): Pair {
    Pair(Spelled(t.key.letters), if IsNullText(t.val) then None else Some(Spelled(t.val.letters)))
  }

  function Meaning(d: Doc): seq<Pair> {
    match d
    case Blank(_) => []
    case Last(item) => [ItemPair(item)]
    case More(item, rest) => [ItemPair(item)] + Meaning(rest)
  }

  // ---------- Which texts are right ----------

  predicate AllSpace(s: Bytes) {
    forall i | 0 <= i < |s| :: IsSpace(s[i])
  }

  /** The byte that ends a bare word, besides white space. */
  function Stop(isVal: bool): byte {
    if isVal then COMMA else EQUALS
  }

  predicate QuotedLetter(l: Letter) {
    l.Plain? ==> l.c != QUOTE && l.c != BACKSLASH
  }

  predicate BareLetter(l: Letter, isVal: bool) {
    l.Plain? ==> l.c != BACKSLASH && l.c != Stop(isVal) && !IsSpace(l.c)
  }

  /** The first letter may not look like a quote or, in a key, like an arrow; but a value may begin with a comma. */
  predicate FirstLetter(l: Letter, isVal: bool) {
    l.Plain? ==> l.c != BACKSLASH && l.c != QUOTE && !IsSpace(l.c) && (isVal || l.c != EQUALS)
  }

  predicate WordOk(w: WordText, isVal: bool) {
    && |w.letters| <= 0x3FFF_FFFF
    && if w.InQuotes? then forall i | 0 <= i < |w.letters| :: QuotedLetter(w.letters[i])
       else && |w.letters| >= 1 && FirstLetter(w.letters[0], isVal)
            && forall i | 1 <= i < |w.letters| :: BareLetter(w.letters[i], isVal)
  }

  predicate ItemOk(t: Item) {
    && AllSpace(t.before) && AllSpace(t.beforeArrow) && AllSpace(t.afterArrow) && AllSpace(t.after)
    && WordOk(t.key, false) && WordOk(t.val, true)
  }

  predicate DocOk(d: Doc) {
    match d
    case Blank(space) => AllSpace(space)
    case Last(item) => ItemOk(item)
    case More(item, rest) => ItemOk(item) && DocOk(rest)
  }

  // ---------- Every right text is parsed as what it means ----------

  lemma LetterFirst(s: Bytes, ptr: nat, l: Letter)
    requires Reads(s, ptr, LetterText(l))
    ensures ptr + |LetterText(l)| <= |s|
    ensures if l.Plain? then s[ptr] == l.c else s[ptr] == BACKSLASH && s[ptr + 1] == l.c
  {
    assert s[ptr + 0] == LetterText(l)[0];
    if l.Slashed? {
      assert s[ptr + 1] == LetterText(l)[1];
    }
  }

  lemma QuotedStep(s: Bytes, ptr: nat, l: Letter, word: Bytes, isVal: bool)
    requires Reads(s, ptr, LetterText(l)) && QuotedLetter(l)
    ensures GetVal(s, ptr, InEscVal, word, true, isVal)
         == GetVal(s, ptr + |LetterText(l)|, InEscVal, word + [l.c], true, isVal)
  {
    LetterFirst(s, ptr, l);
    if l.Slashed? {
      assert GetVal(s, ptr + 1, WaitEscEscIn, word, true, isVal)
          == GetVal(s, ptr + 2, InEscVal, word + [l.c], true, isVal);
    }
  }

  lemma BareStep(s: Bytes, ptr: nat, l: Letter, word: Bytes, isVal: bool)
    requires Reads(s, ptr, LetterText(l)) && BareLetter(l, isVal)
    ensures GetVal(s, ptr, InVal, word, false, isVal)
         == GetVal(s, ptr + |LetterText(l)|, InVal, word + [l.c], false, isVal)
  {
    LetterFirst(s, ptr, l);
    if l.Slashed? {
      assert GetVal(s, ptr + 1, WaitEscIn, word, false, isVal)
          == GetVal(s, ptr + 2, InVal, word + [l.c], false, isVal);
    }
  }

  lemma FirstStep(s: Bytes, ptr: nat, l: Letter, isVal: bool)
    requires Reads(s, ptr, LetterText(l)) && FirstLetter(l, isVal)
    ensures GetVal(s, ptr, WaitVal, [], false, isVal)
         == GetVal(s, ptr + |LetterText(l)|, InVal, [l.c], false, isVal)
  {
    LetterFirst(s, ptr, l);
    assert [] + [l.c] == [l.c];
    if l.Slashed? {
      assert GetVal(s, ptr + 1, WaitEscIn, [], false, isVal)
          == GetVal(s, ptr + 2, InVal, [] + [l.c], false, isVal);
    }
  }

  lemma SpelledHead(ls: seq<Letter>, word: Bytes)
    requires ls != []
    ensures word + [ls[0].c] + Spelled(ls[1..]) == word + Spelled(ls)
  {
  }

  lemma {:induction false} QuotedLetters(s: Bytes, ptr: nat, ls: seq<Letter>, word: Bytes, isVal: bool)
    requires Reads(s, ptr, LettersText(ls)) && forall i | 0 <= i < |ls| :: QuotedLetter(ls[i])
    ensures GetVal(s, ptr, InEscVal, word, true, isVal)
         == GetVal(s, ptr + |LettersText(ls)|, InEscVal, word + Spelled(ls), true, isVal)
    decreases |ls|
  {
    hide GetVal, Reads, Spelled;
    if ls == [] {
      NoLetters(s, ptr, word);
    } else {
      var l, rest := ls[0], ls[1..];
      ReadsSplit(s, ptr, LetterText(l), LettersText(rest));
      QuotedStep(s, ptr, l, word, isVal);
      QuotedLetters(s, ptr + |LetterText(l)|, rest, word + [l.c], isVal);
      SpelledHead(ls, word);
    }
  }

  lemma {:induction false} BareLetters(s: Bytes, ptr: nat, ls: seq<Letter>, word: Bytes, isVal: bool)
    requires Reads(s, ptr, LettersText(ls)) && forall i | 0 <= i < |ls| :: BareLetter(ls[i], isVal)
    ensures GetVal(s, ptr, InVal, word, false, isVal)
         == GetVal(s, ptr + |LettersText(ls)|, InVal, word + Spelled(ls), false, isVal)
    decreases |ls|
  {
    hide GetVal, Reads, Spelled;
    if ls == [] {
      NoLetters(s, ptr, word);
    } else {
      var l, rest := ls[0], ls[1..];
      ReadsSplit(s, ptr, LetterText(l), LettersText(rest));
      BareStep(s, ptr, l, word, isVal);
      BareLetters(s, ptr + |LetterText(l)|, rest, word + [l.c], isVal);
      SpelledHead(ls, word);
    }
  }

  /** A bare word ends at the end of the input, before its stop, or at white space, which is read as well. */
  predicate EndsBare(s: Bytes, at: nat, isVal: bool, next: nat) {
    if at < |s| && IsSpace(s[at]) then next == at + 1
    else next == at && (at == |s| || (at < |s| && s[at] == Stop(isVal)))
  }

  lemma BareEnd(s: Bytes, at: nat, word: Bytes, isVal: bool, next: nat)
    requires EndsBare(s, at, isVal, next)
    ensures at <= |s| && GetVal(s, at, InVal, word, false, isVal) == Word(word, false, next)
  {
  }

  lemma QuoteBegins(s: Bytes, ptr: nat, isVal: bool)
    requires ptr < |s| && s[ptr] == QUOTE
    ensures GetVal(s, ptr, WaitVal, [], false, isVal) == GetVal(s, ptr + 1, InEscVal, [], true, isVal)
  {
  }

  lemma QuoteEnds(s: Bytes, ptr: nat, word: Bytes, isVal: bool)
    requires ptr < |s| && s[ptr] == QUOTE
    ensures GetVal(s, ptr, InEscVal, word, true, isVal) == Word(word, true, ptr + 1)
  {
  }

  /** Where reading goes on behind a word whose text ends at at. */
  predicate EndsWord(s: Bytes, at: nat, w: WordText, isVal: bool, next: nat) {
    if w.InQuotes? then next == at else EndsBare(s, at, isVal, next)
  }

  lemma WordRead(s: Bytes, ptr: nat, w: WordText, isVal: bool, next: nat)
    requires Reads(s, ptr, WordBytes(w)) && WordOk(w, isVal) && EndsWord(s, ptr + |WordBytes(w)|, w, isVal, next)
    ensures ptr <= |s| && GetVal(s, ptr, WaitVal, [], false, isVal) == Word(Spelled(w.letters), w.InQuotes?, next)
  {
    hide GetVal, Reads, Spelled, LettersText, EndsBare, QuotedLetter, BareLetter, FirstLetter;
    if w.InQuotes? {
      QuotedRead(s, ptr, w.letters, isVal);
    } else {
      BareRead(s, ptr, w.letters, isVal, next);
    }
  }

  lemma QuotedRead(s: Bytes, ptr: nat, ls: seq<Letter>, isVal: bool)
    requires Reads(s, ptr, WordBytes(InQuotes(ls))) && forall i | 0 <= i < |ls| :: QuotedLetter(ls[i])
    ensures ptr <= |s| && GetVal(s, ptr, WaitVal, [], false, isVal)
            == Word(Spelled(ls), true, ptr + |WordBytes(InQuotes(ls))|)
  {
    hide GetVal, Reads, Spelled, LettersText, QuotedLetter;
    var text := LettersText(ls);
    QuotesRead(s, ptr, text);
    QuoteBegins(s, ptr, isVal);
    QuotedLetters(s, ptr + 1, ls, [], isVal);
    assert [] + Spelled(ls) == Spelled(ls);
    QuoteEnds(s, ptr + 1 + |text|, Spelled(ls), isVal);
  }

  lemma QuotesRead(s: Bytes, ptr: nat, text: Bytes)
    requires Reads(s, ptr, [QUOTE] + text + [QUOTE])
    ensures ptr + 1 + |text| < |s| && s[ptr] == QUOTE && Reads(s, ptr + 1, text) && s[ptr + 1 + |text|] == QUOTE
  {
    hide Reads;
    assert [QUOTE] + text + [QUOTE] == [QUOTE] + (text + [QUOTE]);
    ReadsFirst(s, ptr, QUOTE, text + [QUOTE]);
    ReadsSplit(s, ptr + 1, text, [QUOTE]);
    assert [QUOTE] == [QUOTE] + [];
    ReadsFirst(s, ptr + 1 + |text|, QUOTE, []);
  }

  lemma BareRead(s: Bytes, ptr: nat, ls: seq<Letter>, isVal: bool, next: nat)
    requires Reads(s, ptr, LettersText(ls)) && WordOk(Bare(ls), isVal)
    requires EndsBare(s, ptr + |LettersText(ls)|, isVal, next)
    ensures ptr <= |s| && GetVal(s, ptr, WaitVal, [], false, isVal) == Word(Spelled(ls), false, next)
  {
    hide GetVal, Reads;
    var l, rest := ls[0], ls[1..];
    ReadsSplit(s, ptr, LetterText(l), LettersText(rest));
    FirstStep(s, ptr, l, isVal);
    BareLetters(s, ptr + |LetterText(l)|, rest, [l.c], isVal);
    SpelledHead(ls, []);
    BareEnd(s, ptr + |LettersText(ls)|, Spelled(ls), isVal, next);
    assert [] + [l.c] == [l.c] && [] + Spelled(ls) == Spelled(ls);
  }

  lemma {:induction false} SpacesRead(s: Bytes, ptr: nat, space: Bytes, isVal: bool)
    requires Reads(s, ptr, space) && AllSpace(space)
    ensures ptr <= |s| && GetVal(s, ptr, WaitVal, [], false, isVal)
            == GetVal(s, ptr + |space|, WaitVal, [], false, isVal)
    decreases |space|
  {
    if space != [] {
      assert s[ptr + 0] == space[0];
      assert space == [space[0]] + space[1..];
      ReadsFirst(s, ptr, space[0], space[1..]);
      SpacesRead(s, ptr + 1, space[1..], isVal);
    }
  }

  /** Behind the key there is white space or the arrow. */
  lemma KeyParsed(s: Bytes, ptr: nat, space: Bytes, w: WordText, old_: Bytes, pairs: seq<Pair>)
    requires Reads(s, ptr, space) && AllSpace(space) && Reads(s, ptr + |space|, WordBytes(w)) && WordOk(w, false)
    requires var at := ptr + |space| + |WordBytes(w)|; at < |s| && (s[at] == EQUALS || IsSpace(s[at]))
    ensures ptr <= |s|
    ensures Parse(s, ptr, WKey, old_, pairs)
         == Parse(s, ptr + |space| + |WordBytes(w)|, WEq, Spelled(w.letters), pairs)
  {
    hide GetVal, Reads, WordBytes, Spelled;
    var at := ptr + |space| + |WordBytes(w)|;
    var next := if w.Bare? && IsSpace(s[at]) then at + 1 else at;
    SpacesRead(s, ptr, space, false);
    WordRead(s, ptr + |space|, w, false, next);
  }

  lemma {:induction false} ArrowParsed(s: Bytes, ptr: nat, space: Bytes, key: Bytes, pairs: seq<Pair>)
    requires Reads(s, ptr, space + [EQUALS, GREATER]) && AllSpace(space)
    ensures ptr <= |s| && Parse(s, ptr, WEq, key, pairs) == Parse(s, ptr + |space| + 2, WVal, key, pairs)
    decreases |space|
  {
    if space == [] {
      assert space + [EQUALS, GREATER] == [EQUALS] + ([GREATER] + []);
      ReadsFirst(s, ptr, EQUALS, [GREATER] + []);
      ReadsFirst(s, ptr + 1, GREATER, []);
      assert Parse(s, ptr + 1, WGt, key, pairs) == Parse(s, ptr + 2, WVal, key, pairs);
    } else {
      assert space + [EQUALS, GREATER] == [space[0]] + (space[1..] + [EQUALS, GREATER]);
      ReadsFirst(s, ptr, space[0], space[1..] + [EQUALS, GREATER]);
      ArrowParsed(s, ptr + 1, space[1..], key, pairs);
    }
  }

  /** Behind the value there is white space, a comma or nothing. */
  lemma ValParsed(s: Bytes, ptr: nat, space: Bytes, w: WordText, key: Bytes, pairs: seq<Pair>)
    requires Reads(s, ptr, space) && AllSpace(space) && Reads(s, ptr + |space|, WordBytes(w)) && WordOk(w, true)
    requires var at := ptr + |space| + |WordBytes(w)|; at == |s| || (at < |s| && (s[at] == COMMA || IsSpace(s[at])))
    ensures ptr <= |s|
    ensures Parse(s, ptr, WVal, key, pairs)
         == Parse(s, ptr + |space| + |WordBytes(w)|, WDel, [],
                  pairs + [Pair(key, if IsNullText(w) then None else Some(Spelled(w.letters)))])
  {
    hide GetVal, Reads, WordBytes, Spelled, IsNullWord;
    var at := ptr + |space| + |WordBytes(w)|;
    var next := if w.Bare? && at < |s| && IsSpace(s[at]) then at + 1 else at;
    SpacesRead(s, ptr, space, true);
    WordRead(s, ptr + |space|, w, true, next);
  }

  lemma {:induction false} AfterParsed(s: Bytes, ptr: nat, space: Bytes, pairs: seq<Pair>)
    requires Reads(s, ptr, space) && AllSpace(space)
    ensures ptr <= |s| && Parse(s, ptr, WDel, [], pairs) == Parse(s, ptr + |space|, WDel, [], pairs)
    decreases |space|
  {
    if space != [] {
      assert space == [space[0]] + space[1..];
      ReadsFirst(s, ptr, space[0], space[1..]);
      AfterParsed(s, ptr + 1, space[1..], pairs);
    }
  }

  /** The byte behind a word, if white space and then t follow. */
  lemma BehindWord(s: Bytes, at: nat, space: Bytes, t: Bytes)
    requires Reads(s, at, space + t) && AllSpace(space) && (space != [] || t != [])
    ensures at < |s| && (if space == [] then s[at] == t[0] else IsSpace(s[at]))
  {
    assert s[at + 0] == (space + t)[0];
  }

  lemma ItemParsed(s: Bytes, ptr: nat, t: Item, old_: Bytes, pairs: seq<Pair>)
    requires Reads(s, ptr, ItemText(t)) && ItemOk(t)
    requires var end := ptr + |ItemText(t)|; end == |s| || s[end] == COMMA
    ensures ptr <= |s|
    ensures Parse(s, ptr, WKey, old_, pairs) == Parse(s, ptr + |ItemText(t)|, WDel, [], pairs + [ItemPair(t)])
  {
    hide Parse, Reads, WordBytes, Spelled, WordOk, IsNullWord, AllSpace;
    var key, val, arrow := WordBytes(t.key), WordBytes(t.val), t.beforeArrow + [EQUALS, GREATER];
    var tail := t.afterArrow + (val + t.after);
    assert ItemText(t) == t.before + (key + (arrow + tail));
    ReadsSplit(s, ptr, t.before, key + (arrow + tail));
    var k := ptr + |t.before|;
    ReadsSplit(s, k, key, arrow + tail);
    ReadsSplit(s, k + |key|, arrow, tail);
    BehindWord(s, k + |key|, t.beforeArrow, [EQUALS, GREATER]);
    KeyParsed(s, ptr, t.before, t.key, old_, pairs);
    ArrowParsed(s, k + |key|, t.beforeArrow, Spelled(t.key.letters), pairs);
    TailParsed(s, k + |key| + |arrow|, t, Spelled(t.key.letters), pairs);
  }

  lemma TailParsed(s: Bytes, ptr: nat, t: Item, key: Bytes, pairs: seq<Pair>)
    requires Reads(s, ptr, t.afterArrow + (WordBytes(t.val) + t.after)) && ItemOk(t)
    requires var end := ptr + |t.afterArrow| + |WordBytes(t.val)| + |t.after|; end == |s| || s[end] == COMMA
    ensures ptr <= |s|
    ensures var p := Pair(key, if IsNullText(t.val) then None else Some(Spelled(t.val.letters)));
            Parse(s, ptr, WVal, key, pairs)
            == Parse(s, ptr + |t.afterArrow| + |WordBytes(t.val)| + |t.after|, WDel, [], pairs + [p])
  {
    hide Parse, Reads, WordBytes, Spelled, WordOk, IsNullWord, AllSpace;
    var val := WordBytes(t.val);
    ReadsSplit(s, ptr, t.afterArrow, val + t.after);
    var v := ptr + |t.afterArrow|;
    ReadsSplit(s, v, val, t.after);
    if t.after != [] {
      assert t.after + [] == t.after;
      BehindWord(s, v + |val|, t.after, []);
    }
    ValParsed(s, ptr, t.afterArrow, t.val, key, pairs);
    var p := Pair(key, if IsNullText(t.val) then None else Some(Spelled(t.val.letters)));
    AfterParsed(s, v + |val|, t.after, pairs + [p]);
  }

  lemma BlankParsed(s: Bytes, ptr: nat, space: Bytes, old_: Bytes, pairs: seq<Pair>)
    requires Reads(s, ptr, space) && AllSpace(space) && ptr + |space| == |s|
    ensures Parse(s, ptr, WKey, old_, pairs) == Pairs(pairs)
  {
    SpacesRead(s, ptr, space, false);
  }

  lemma {:induction false} DocParsed(s: Bytes, ptr: nat, d: Doc, old_: Bytes, pairs: seq<Pair>)
    requires Reads(s, ptr, DocText(d)) && DocOk(d) && ptr + |DocText(d)| == |s|
    ensures Parse(s, ptr, WKey, old_, pairs) == Pairs(pairs + Meaning(d))
    decreases d
  {
    hide Parse, Reads, ItemText, ItemOk, ItemPair, AllSpace;
    match d {
      case Blank(space) =>
        BlankParsed(s, ptr, space, old_, pairs);
        assert pairs + [] == pairs;
      case Last(item) =>
        ItemParsed(s, ptr, item, old_, pairs);
        AtEnd(s, pairs + [ItemPair(item)]);
      case More(item, rest) =>
        var text := ItemText(item);
        assert DocText(d) == text + ([COMMA] + DocText(rest));
        ReadsSplit(s, ptr, text, [COMMA] + DocText(rest));
        ReadsFirst(s, ptr + |text|, COMMA, DocText(rest));
        ItemParsed(s, ptr, item, old_, pairs);
        AtComma(s, ptr + |text|, pairs + [ItemPair(item)]);
        DocParsed(s, ptr + |text| + 1, rest, [], pairs + [ItemPair(item)]);
        assert pairs + [ItemPair(item)] + Meaning(rest) == pairs + Meaning(d);
    }
  }

  // ---------- Every text that is parsed is a right one ----------

  lemma ReadsJoin(s: Bytes, ptr: nat, a: Bytes, b: Bytes)
    requires Reads(s, ptr, a) && Reads(s, ptr + |a|, b)
    ensures Reads(s, ptr, a + b)
  {
    forall k | 0 <= k < |a + b| ensures s[ptr + k] == (a + b)[k] {
      if k >= |a| {
        assert s[ptr + |a| + (k - |a|)] == b[k - |a|];
      }
    }
  }

  lemma ReadsByte(s: Bytes, ptr: nat)
    requires ptr < |s|
    ensures Reads(s, ptr, [s[ptr]]) && Reads(s, ptr, []) && (ptr + 1 < |s| ==> Reads(s, ptr, [s[ptr], s[ptr + 1]]))
  {
  }

  /** A letter in front of letters already read. */
  lemma LetterInFront(s: Bytes, ptr: nat, l: Letter, ls: seq<Letter>, t: Bytes)
    requires Reads(s, ptr, LetterText(l)) && Reads(s, ptr + |LetterText(l)|, LettersText(ls) + t)
    ensures LettersText([l] + ls) == LetterText(l) + LettersText(ls)
    ensures Reads(s, ptr, LettersText([l] + ls) + t)
  {
    hide Reads;
    assert ([l] + ls)[1..] == ls;
    ReadsJoin(s, ptr, LetterText(l), LettersText(ls) + t);
    assert LetterText(l) + (LettersText(ls) + t) == LettersText([l] + ls) + t;
  }

  lemma SpelledFront(l: Letter, ls: seq<Letter>, word: Bytes)
    ensures word + [l.c] + Spelled(ls) == word + Spelled([l] + ls)
  {
    SpelledHead([l] + ls, word);
    assert ([l] + ls)[1..] == ls;
  }

  lemma {:induction false} QuotedInverse(s: Bytes, ptr: nat, word: Bytes, isVal: bool) returns (ls: seq<Letter>)
    requires ptr <= |s| && GetVal(s, ptr, InEscVal, word, true, isVal).Word?
    ensures forall i | 0 <= i < |ls| :: QuotedLetter(ls[i])
    ensures Reads(s, ptr, LettersText(ls) + [QUOTE])
    ensures GetVal(s, ptr, InEscVal, word, true, isVal)
         == Word(word + Spelled(ls), true, ptr + |LettersText(ls)| + 1)
    decreases |s| - ptr
  {
    ReadsByte(s, ptr);
    if s[ptr] == QUOTE {
      ls := [];
      assert LettersText(ls) + [QUOTE] == [s[ptr]];
      assert word + Spelled(ls) == word;
      QuoteEnds(s, ptr, word, isVal);
    } else {
      var l := if s[ptr] == BACKSLASH then Slashed(CharAt(s, ptr + 1)) else Plain(s[ptr]);
      InsideQuotes(s, ptr, l, word, isVal);
      var rest := QuotedInverse(s, ptr + |LetterText(l)|, word + [l.c], isVal);
      ls := [l] + rest;
      LetterInFront(s, ptr, l, rest, [QUOTE]);
      SpelledFront(l, rest, word);
    }
  }

  lemma InsideQuotes(s: Bytes, ptr: nat, l: Letter, word: Bytes, isVal: bool)
    requires ptr < |s| && s[ptr] != QUOTE && GetVal(s, ptr, InEscVal, word, true, isVal).Word?
    requires l == if s[ptr] == BACKSLASH then Slashed(CharAt(s, ptr + 1)) else Plain(s[ptr])
    ensures QuotedLetter(l) && Reads(s, ptr, LetterText(l))
    ensures GetVal(s, ptr, InEscVal, word, true, isVal)
         == GetVal(s, ptr + |LetterText(l)|, InEscVal, word + [l.c], true, isVal)
  {
    ReadsByte(s, ptr);
    if s[ptr] == BACKSLASH {
      assert GetVal(s, ptr, InEscVal, word, true, isVal) == GetVal(s, ptr + 1, WaitEscEscIn, word, true, isVal);
    }
    QuotedStep(s, ptr, l, word, isVal);
  }

  lemma {:induction false} BareInverse(s: Bytes, ptr: nat, word: Bytes, isVal: bool) returns (ls: seq<Letter>)
    requires ptr <= |s| && GetVal(s, ptr, InVal, word, false, isVal).Word?
    ensures forall i | 0 <= i < |ls| :: BareLetter(ls[i], isVal)
    ensures Reads(s, ptr, LettersText(ls))
    ensures var g := GetVal(s, ptr, InVal, word, false, isVal);
            && g.word == word + Spelled(ls) && !g.escaped
            && EndsBare(s, ptr + |LettersText(ls)|, isVal, g.next)
    decreases |s| - ptr
  {
    hide GetVal, Reads, Spelled;
    if ptr == |s| || IsSpace(s[ptr]) || s[ptr] == Stop(isVal) {
      ls := [];
      NoLetters(s, ptr, word);
      BareEnd(s, ptr, word, isVal, if ptr < |s| && IsSpace(s[ptr]) then ptr + 1 else ptr);
    } else {
      var l := if s[ptr] == BACKSLASH then Slashed(CharAt(s, ptr + 1)) else Plain(s[ptr]);
      InsideBare(s, ptr, l, word, isVal);
      var rest := BareInverse(s, ptr + |LetterText(l)|, word + [l.c], isVal);
      ls := [l] + rest;
      assert LettersText(rest) + [] == LettersText(rest);
      LetterInFront(s, ptr, l, rest, []);
      assert LettersText(ls) + [] == LettersText(ls);
      SpelledFront(l, rest, word);
    }
  }

  lemma NoLetters(s: Bytes, ptr: nat, word: Bytes)
    ensures (ptr <= |s| ==> Reads(s, ptr, LettersText([]))) && word + Spelled([]) == word
  {
  }

  lemma InsideBare(s: Bytes, ptr: nat, l: Letter, word: Bytes, isVal: bool)
    requires ptr < |s| && !IsSpace(s[ptr]) && s[ptr] != Stop(isVal) && GetVal(s, ptr, InVal, word, false, isVal).Word?
    requires l == if s[ptr] == BACKSLASH then Slashed(CharAt(s, ptr + 1)) else Plain(s[ptr])
    ensures BareLetter(l, isVal) && Reads(s, ptr, LetterText(l))
    ensures GetVal(s, ptr, InVal, word, false, isVal)
         == GetVal(s, ptr + |LetterText(l)|, InVal, word + [l.c], false, isVal)
  {
    ReadsByte(s, ptr);
    if s[ptr] == BACKSLASH {
      assert GetVal(s, ptr, InVal, word, false, isVal) == GetVal(s, ptr + 1, WaitEscIn, word, false, isVal);
    }
    BareStep(s, ptr, l, word, isVal);
  }

  lemma {:induction false} WordInverse(s: Bytes, ptr: nat, isVal: bool) returns (space: Bytes, w: WordText)
    requires ptr <= |s|
    requires var g := GetVal(s, ptr, WaitVal, [], false, isVal); g.Word? && |g.word| <= 0x3FFF_FFFF
    ensures AllSpace(space) && WordOk(w, isVal) && Reads(s, ptr, space) && Reads(s, ptr + |space|, WordBytes(w))
    ensures var g := GetVal(s, ptr, WaitVal, [], false, isVal);
            && g.word == Spelled(w.letters) && g.escaped == w.InQuotes?
            && EndsWord(s, ptr + |space| + |WordBytes(w)|, w, isVal, g.next)
    decreases |s| - ptr
  {
    hide Spelled, EndsBare, GetVal, Reads, WordOk;
    space := [];
    BeforeWord(s, ptr, isVal);
    if s[ptr] == QUOTE {
      w := QuotedWord(s, ptr, isVal);
    } else if IsSpace(s[ptr]) {
      space, w := WordInverse(s, ptr + 1, isVal);
      ReadsByte(s, ptr);
      ReadsJoin(s, ptr, [s[ptr]], space);
      space := [s[ptr]] + space;
    } else {
      w := BareWord(s, ptr, isVal);
    }
  }

  lemma BeforeWord(s: Bytes, ptr: nat, isVal: bool)
    requires ptr <= |s| && GetVal(s, ptr, WaitVal, [], false, isVal).Word?
    ensures ptr < |s| && Reads(s, ptr, [])
    ensures IsSpace(s[ptr]) ==>
              GetVal(s, ptr, WaitVal, [], false, isVal) == GetVal(s, ptr + 1, WaitVal, [], false, isVal)
  {
  }

  lemma QuotedWord(s: Bytes, ptr: nat, isVal: bool) returns (w: WordText)
    requires ptr < |s| && s[ptr] == QUOTE
    requires var g := GetVal(s, ptr, WaitVal, [], false, isVal); g.Word? && |g.word| <= 0x3FFF_FFFF
    ensures w.InQuotes? && WordOk(w, isVal) && Reads(s, ptr, WordBytes(w))
    ensures GetVal(s, ptr, WaitVal, [], false, isVal) == Word(Spelled(w.letters), true, ptr + |WordBytes(w)|)
  {
    hide GetVal, Reads;
    QuoteBegins(s, ptr, isVal);
    var ls := QuotedInverse(s, ptr + 1, [], isVal);
    w := InQuotes(ls);
    ReadsByte(s, ptr);
    ReadsJoin(s, ptr, [QUOTE], LettersText(ls) + [QUOTE]);
    assert [QUOTE] + (LettersText(ls) + [QUOTE]) == WordBytes(w);
    assert [] + Spelled(ls) == Spelled(ls);
  }

  lemma BareWord(s: Bytes, ptr: nat, isVal: bool) returns (w: WordText)
    requires ptr < |s| && s[ptr] != QUOTE && !IsSpace(s[ptr])
    requires var g := GetVal(s, ptr, WaitVal, [], false, isVal); g.Word? && |g.word| <= 0x3FFF_FFFF
    ensures w.Bare? && WordOk(w, isVal) && Reads(s, ptr, WordBytes(w))
    ensures var g := GetVal(s, ptr, WaitVal, [], false, isVal);
            && g.word == Spelled(w.letters) && !g.escaped && EndsBare(s, ptr + |WordBytes(w)|, isVal, g.next)
  {
    hide GetVal, Reads, Spelled, EndsBare;
    var l := if s[ptr] == BACKSLASH then Slashed(CharAt(s, ptr + 1)) else Plain(s[ptr]);
    BeginsBare(s, ptr, l, isVal);
    var rest := BareInverse(s, ptr + |LetterText(l)|, [l.c], isVal);
    w := Bare([l] + rest);
    assert LettersText(rest) + [] == LettersText(rest);
    LetterInFront(s, ptr, l, rest, []);
    assert LettersText([l] + rest) + [] == LettersText([l] + rest);
    SpelledFront(l, rest, []);
    assert [] + [l.c] == [l.c] && [] + Spelled([l] + rest) == Spelled([l] + rest);
  }

  lemma BeginsBare(s: Bytes, ptr: nat, l: Letter, isVal: bool)
    requires ptr < |s| && s[ptr] != QUOTE && !IsSpace(s[ptr]) && GetVal(s, ptr, WaitVal, [], false, isVal).Word?
    requires l == if s[ptr] == BACKSLASH then Slashed(CharAt(s, ptr + 1)) else Plain(s[ptr])
    ensures FirstLetter(l, isVal) && Reads(s, ptr, LetterText(l))
    ensures GetVal(s, ptr, WaitVal, [], false, isVal)
         == GetVal(s, ptr + |LetterText(l)|, InVal, [l.c], false, isVal)
  {
    ReadsByte(s, ptr);
    if s[ptr] == BACKSLASH {
      assert GetVal(s, ptr, WaitVal, [], false, isVal) == GetVal(s, ptr + 1, WaitEscIn, [], false, isVal);
    }
    FirstStep(s, ptr, l, isVal);
  }

  lemma {:induction false} BlankInverse(s: Bytes, ptr: nat, isVal: bool)
    requires ptr <= |s| && GetVal(s, ptr, WaitVal, [], false, isVal).NoWord?
    ensures AllSpace(s[ptr..]) && Reads(s, ptr, s[ptr..])
    decreases |s| - ptr
  {
    if ptr < |s| {
      if s[ptr] == QUOTE {
        NeverBlank(s, ptr + 1, InEscVal, [], true, isVal);
      } else if s[ptr] == BACKSLASH {
        NeverBlank(s, ptr + 1, WaitEscIn, [], false, isVal);
      } else if !IsSpace(s[ptr]) {
        NeverBlank(s, ptr + 1, InVal, [] + [s[ptr]], false, isVal);
      } else {
        BlankInverse(s, ptr + 1, isVal);
        assert s[ptr..] == [s[ptr]] + s[ptr + 1..];
      }
    }
  }

  /** Once a word has begun, the outcome is a word or an error. */
  lemma {:induction false} NeverBlank(s: Bytes, ptr: nat, st: GvState, word: Bytes, escaped: bool, isVal: bool)
    requires ptr <= |s| && st != WaitVal
    ensures !GetVal(s, ptr, st, word, escaped, isVal).NoWord?
    decreases |s| - ptr
  {
    if ptr < |s| {
      var c := s[ptr];
      match st
      case InVal =>
        NeverBlank(s, ptr + 1, if c == BACKSLASH then WaitEscIn else InVal,
                   if c == BACKSLASH then word else word + [c], escaped, isVal);
      case InEscVal =>
        NeverBlank(s, ptr + 1, if c == BACKSLASH then WaitEscEscIn else InEscVal,
                   if c == BACKSLASH then word else word + [c], escaped, isVal);
      case WaitEscIn => NeverBlank(s, ptr + 1, InVal, word + [c], escaped, isVal);
      case WaitEscEscIn => NeverBlank(s, ptr + 1, InEscVal, word + [c], escaped, isVal);
    }
  }

  lemma {:induction false} ArrowInverse(s: Bytes, ptr: nat, key: Bytes, pairs: seq<Pair>) returns (space: Bytes)
    requires ptr <= |s| && Parse(s, ptr, WEq, key, pairs).Pairs?
    ensures AllSpace(space) && Reads(s, ptr, space + [EQUALS, GREATER])
    ensures Parse(s, ptr, WEq, key, pairs) == Parse(s, ptr + |space| + 2, WVal, key, pairs)
    decreases |s| - ptr
  {
    hide GetVal, IsNullWord;
    ReadsByte(s, ptr);
    if s[ptr] == EQUALS {
      assert Parse(s, ptr, WEq, key, pairs) == Parse(s, ptr + 1, WGt, key, pairs);
      space := [];
      assert space + [EQUALS, GREATER] == [s[ptr], s[ptr + 1]];
    } else {
      assert Parse(s, ptr, WEq, key, pairs) == Parse(s, ptr + 1, WEq, key, pairs);
      var rest := ArrowInverse(s, ptr + 1, key, pairs);
      space := [s[ptr]] + rest;
      ReadsJoin(s, ptr, [s[ptr]], rest + [EQUALS, GREATER]);
      assert [s[ptr]] + (rest + [EQUALS, GREATER]) == space + [EQUALS, GREATER];
    }
  }

  lemma {:induction false} AfterInverse(s: Bytes, ptr: nat, pairs: seq<Pair>) returns (space: Bytes)
    requires ptr <= |s| && Parse(s, ptr, WDel, [], pairs).Pairs?
    ensures AllSpace(space) && Reads(s, ptr, space)
    ensures var at := ptr + |space|;
            if at == |s| then Parse(s, ptr, WDel, [], pairs) == Pairs(pairs)
            else s[at] == COMMA && Parse(s, ptr, WDel, [], pairs) == Parse(s, at + 1, WKey, [], pairs)
    decreases |s| - ptr
  {
    hide GetVal, IsNullWord;
    space := [];
    if ptr < |s| && s[ptr] != COMMA {
      assert Parse(s, ptr, WDel, [], pairs) == Parse(s, ptr + 1, WDel, [], pairs);
      var rest := AfterInverse(s, ptr + 1, pairs);
      ReadsByte(s, ptr);
      ReadsJoin(s, ptr, [s[ptr]], rest);
      space := [s[ptr]] + rest;
    }
  }

  /** The white space read with a bare word belongs in front of what follows it. */
  lemma SpaceBehind(s: Bytes, at: nat, w: WordText, isVal: bool, next: nat, space: Bytes, t: Bytes) returns (all: Bytes)
    requires EndsWord(s, at, w, isVal, next) && Reads(s, next, space + t) && AllSpace(space)
    ensures AllSpace(all) && Reads(s, at, all + t) && at + |all| == next + |space|
  {
    all := space;
    if next == at + 1 {
      ReadsByte(s, at);
      ReadsJoin(s, at, [s[at]], space + t);
      all := [s[at]] + space;
      assert [s[at]] + (space + t) == all + t;
    }
  }

  lemma KeyInverse(s: Bytes, ptr: nat, old_: Bytes, pairs: seq<Pair>)
    returns (before: Bytes, key: WordText, beforeArrow: Bytes)
    requires ptr <= |s| && Parse(s, ptr, WKey, old_, pairs).Pairs?
    requires !GetVal(s, ptr, WaitVal, [], false, false).NoWord?
    ensures AllSpace(before) && WordOk(key, false) && AllSpace(beforeArrow)
    ensures Reads(s, ptr, before + WordBytes(key) + beforeArrow + [EQUALS, GREATER])
    ensures Parse(s, ptr, WKey, old_, pairs)
         == Parse(s, ptr + |before| + |WordBytes(key)| + |beforeArrow| + 2, WVal, Spelled(key.letters), pairs)
  {
    hide GetVal, Reads, AllSpace, WordBytes, WordOk, Spelled;
    var g := GetVal(s, ptr, WaitVal, [], false, false);
    before, key := WordInverse(s, ptr, false);
    GetValMoves(s, ptr, WaitVal, [], false, false);
    var space := ArrowInverse(s, g.next, g.word, pairs);
    var at := ptr + |before| + |WordBytes(key)|;
    beforeArrow := SpaceBehind(s, at, key, false, g.next, space, [EQUALS, GREATER]);
    ReadsJoin(s, ptr, before, WordBytes(key));
    ReadsJoin(s, ptr, before + WordBytes(key), beforeArrow + [EQUALS, GREATER]);
    assert before + WordBytes(key) + (beforeArrow + [EQUALS, GREATER])
        == before + WordBytes(key) + beforeArrow + [EQUALS, GREATER];
  }

  lemma ValInverse(s: Bytes, ptr: nat, key: Bytes, pairs: seq<Pair>)
    returns (afterArrow: Bytes, val: WordText, after: Bytes)
    requires ptr <= |s| && Parse(s, ptr, WVal, key, pairs).Pairs?
    ensures AllSpace(afterArrow) && WordOk(val, true) && AllSpace(after)
    ensures Reads(s, ptr, afterArrow + WordBytes(val) + after)
    ensures var all := pairs + [Pair(key, if IsNullText(val) then None else Some(Spelled(val.letters)))];
            var end := ptr + |afterArrow| + |WordBytes(val)| + |after|;
            if end == |s| then Parse(s, ptr, WVal, key, pairs) == Pairs(all)
            else s[end] == COMMA && Parse(s, ptr, WVal, key, pairs) == Parse(s, end + 1, WKey, [], all)
  {
    hide GetVal, Reads, AllSpace, WordBytes, WordOk, Spelled, IsNullWord;
    var g := GetVal(s, ptr, WaitVal, [], false, true);
    afterArrow, val := WordInverse(s, ptr, true);
    GetValMoves(s, ptr, WaitVal, [], false, true);
    var all := pairs + [Pair(key, if IsNullText(val) then None else Some(Spelled(val.letters)))];
    assert Parse(s, ptr, WVal, key, pairs) == Parse(s, g.next, WDel, [], all);
    hide Parse;
    var space := AfterInverse(s, g.next, all);
    var at := ptr + |afterArrow| + |WordBytes(val)|;
    assert space + [] == space;
    after := SpaceBehind(s, at, val, true, g.next, space, []);
    assert after + [] == after;
    ReadsJoin(s, ptr, afterArrow, WordBytes(val));
    ReadsJoin(s, ptr, afterArrow + WordBytes(val), after);
  }

  lemma {:induction false} DocInverse(s: Bytes, ptr: nat, old_: Bytes, pairs: seq<Pair>) returns (d: Doc)
    requires ptr <= |s| && Parse(s, ptr, WKey, old_, pairs).Pairs?
    ensures DocOk(d) && Reads(s, ptr, DocText(d)) && ptr + |DocText(d)| == |s|
    ensures Parse(s, ptr, WKey, old_, pairs) == Pairs(pairs + Meaning(d))
    decreases |s| - ptr
  {
    hide Parse, Reads, AllSpace, WordOk, WordBytes, Spelled, ItemPair, GetVal;
    if GetVal(s, ptr, WaitVal, [], false, false).NoWord? {
      BlankInverse(s, ptr, false);
      d := Blank(s[ptr..]);
      BlankParsed(s, ptr, s[ptr..], old_, pairs);
      assert pairs + [] == pairs;
    } else {
      var item, end, all := ItemInverse(s, ptr, old_, pairs);
      if end == |s| {
        d := Last(item);
      } else {
        var rest := DocInverse(s, end + 1, [], all);
        d := More(item, rest);
        CommaJoins(s, ptr, ItemText(item), DocText(rest));
        assert all + Meaning(rest) == pairs + Meaning(d);
      }
    }
  }

  lemma CommaJoins(s: Bytes, ptr: nat, a: Bytes, b: Bytes)
    requires Reads(s, ptr, a) && ptr + |a| < |s| && s[ptr + |a|] == COMMA && Reads(s, ptr + |a| + 1, b)
    ensures Reads(s, ptr, a + [COMMA] + b)
  {
    hide Reads;
    ReadsByte(s, ptr + |a|);
    ReadsJoin(s, ptr, a, [COMMA]);
    ReadsJoin(s, ptr, a + [COMMA], b);
  }

  lemma ItemInverse(s: Bytes, ptr: nat, old_: Bytes, pairs: seq<Pair>) returns (item: Item, end: nat, all: seq<Pair>)
    requires ptr <= |s| && Parse(s, ptr, WKey, old_, pairs).Pairs?
    requires !GetVal(s, ptr, WaitVal, [], false, false).NoWord?
    ensures ItemOk(item) && Reads(s, ptr, ItemText(item)) && end == ptr + |ItemText(item)| && ptr <= end <= |s|
    ensures all == pairs + [ItemPair(item)]
    ensures if end == |s| then Parse(s, ptr, WKey, old_, pairs) == Pairs(all)
            else s[end] == COMMA && Parse(s, ptr, WKey, old_, pairs) == Parse(s, end + 1, WKey, [], all)
  {
    hide Parse, Reads, AllSpace, WordOk, WordBytes, Spelled, GetVal, IsNullWord;
    var before, key, beforeArrow := KeyInverse(s, ptr, old_, pairs);
    var head := before + WordBytes(key) + beforeArrow + [EQUALS, GREATER];
    ReadsInside(s, ptr, head);
    var afterArrow, val, after := ValInverse(s, ptr + |head|, Spelled(key.letters), pairs);
    var tail := afterArrow + WordBytes(val) + after;
    item := Item(before, key, beforeArrow, afterArrow, val, after);
    ReadsJoin(s, ptr, head, tail);
    assert head + tail == ItemText(item);
    ReadsInside(s, ptr, ItemText(item));
    end, all := ptr + |ItemText(item)|, pairs + [ItemPair(item)];
  }

  lemma ReadsInside(s: Bytes, ptr: nat, t: Bytes)
    requires Reads(s, ptr, t)
    ensures ptr + |t| <= |s|
  {
  }

  // ---------- The language ----------

  /** s is a text that means these pairs. */
  ghost predicate Denotes(s: Bytes, ps: seq<Pair>) {
    exists d :: DocOk(d) && DocText(d) == s && Meaning(d) == ps
  }

  /** The parser returns pairs exactly for the texts that mean them. */
  lemma ParseIsMeaning(s: Bytes, ps: seq<Pair>)
    ensures Parse(s, 0, WKey, [], []) == Pairs(ps) <==> Denotes(s, ps)
  {
    hide Parse;
    if Denotes(s, ps) {
      var d :| DocOk(d) && DocText(d) == s && Meaning(d) == ps;
      DocParsed(s, 0, d, [], []);
      assert [] + ps == ps;
    }
    if Parse(s, 0, WKey, [], []) == Pairs(ps) {
      var d := DocInverse(s, 0, [], []);
      WholeText(s, DocText(d));
      assert [] + Meaning(d) == Meaning(d);
    }
  }

  lemma WholeText(s: Bytes, t: Bytes)
    requires Reads(s, 0, t) && |t| == |s|
    ensures s == t
  {
    forall k | 0 <= k < |s| ensures s[k] == t[k] {
      assert s[0 + k] == t[k];
    }
  }

  // ---------- Printed texts are in the language ----------

  function Escapes(b: Bytes): (r: seq<Letter>)
    ensures |r| == |b|
  {
    seq(|b|, i requires 0 <= i < |b| => if b[i] == QUOTE || b[i] == BACKSLASH then Slashed(b[i]) else Plain(b[i]))
  }

  lemma {:induction false} EscapesText(b: Bytes, i: nat)
    requires i <= |b|
    ensures LettersText(Escapes(b)[i..]) == Escaped(b, i)
    decreases |b| - i
  {
    if i < |b| {
      EscapesText(b, i + 1);
      assert Escapes(b)[i..][1..] == Escapes(b)[i + 1..];
    }
  }

  lemma EscapesOk(b: Bytes, isVal: bool)
    ensures WordBytes(InQuotes(Escapes(b))) == Quoted(b) && Spelled(Escapes(b)) == b
    ensures |b| <= 0x3FFF_FFFF ==> WordOk(InQuotes(Escapes(b)), isVal)
  {
    EscapesText(b, 0);
    assert Escapes(b)[0..] == Escapes(b);
  }

  const NULL_WORD := Bare([Plain(78), Plain(85), Plain(76), Plain(76)])

  lemma NullOk()
    ensures WordBytes(NULL_WORD) == NULL_TEXT && WordOk(NULL_WORD, true) && IsNullText(NULL_WORD)
  {
    var ls := NULL_WORD.letters;
    assert ls[1..] == [Plain(85), Plain(76), Plain(76)];
    assert ls[1..][1..] == [Plain(76), Plain(76)];
    assert ls[1..][1..][1..] == [Plain(76)];
    assert LettersText([Plain(76)]) == [76];
    assert LettersText(ls[1..][1..]) == [76] + [76];
    assert LettersText(ls[1..]) == [85] + [76, 76];
    assert Spelled(ls) == NULL_TEXT;
  }

  function PrintedItem(p: Pair, before: Bytes): Item {
    Item(before, InQuotes(Escapes(p.key)), [], [],
         if p.val.None? then NULL_WORD else InQuotes(Escapes(p.val.value)), [])
  }

  lemma PrintedItemOk(p: Pair, before: Bytes)
    requires Short(p) && AllSpace(before)
    ensures ItemOk(PrintedItem(p, before)) && ItemPair(PrintedItem(p, before)) == p
    ensures ItemText(PrintedItem(p, before)) == before + PairText(p)
  {
    hide WordOk, Spelled, WordBytes, Quoted, AllSpace;
    NullOk();
    EscapesOk(p.key, false);
    if p.val.Some? {
      EscapesOk(p.val.value, true);
      assert !IsNullText(InQuotes(Escapes(p.val.value)));
    }
    NoSpace();
    assert ItemText(PrintedItem(p, before)) == before + (Quoted(p.key) + [EQUALS, GREATER] + ValText(p));
  }

  lemma NoSpace()
    ensures AllSpace([]) && AllSpace([SPACE])
  {
  }

  function PrintedDoc(ps: seq<Pair>, i: nat): Doc
    requires i <= |ps|
    decreases |ps| - i
  {
    if i == |ps| then Blank([])
    else
      var item := PrintedItem(ps[i], if i == 0 then [] else [SPACE]);
      if i + 1 == |ps| then Last(item) else More(item, PrintedDoc(ps, i + 1))
  }

  lemma {:induction false} PrintedOk(ps: seq<Pair>, i: nat)
    requires i <= |ps| && (i == |ps| ==> i == 0) && forall j | 0 <= j < |ps| :: Short(ps[j])
    ensures DocOk(PrintedDoc(ps, i)) && Meaning(PrintedDoc(ps, i)) == ps[i..]
    ensures DocText(PrintedDoc(ps, i)) == (if i == 0 then [] else [SPACE]) + Print(ps, i)
    decreases |ps| - i
  {
    hide PrintedItem, ItemText, ItemPair, ItemOk, PairText, Short, AllSpace;
    NoSpace();
    if i < |ps| {
      var before := if i == 0 then [] else [SPACE];
      PrintedItemOk(ps[i], before);
      assert ps[i..] == [ps[i]] + ps[i + 1..];
      if i + 1 < |ps| {
        PrintedOk(ps, i + 1);
        var rest := Print(ps, i + 1);
        assert before + PairText(ps[i]) + [COMMA] + ([SPACE] + rest)
            == before + (PairText(ps[i]) + [COMMA, SPACE] + rest);
      } else {
        assert Print(ps, i) == PairText(ps[i]) + [] + [];
      }
    }
  }

  /** Parsing what was printed gives back exactly the pairs, nulls included. */
  lemma PrintParses(ps: seq<Pair>)
    requires forall j | 0 <= j < |ps| :: Short(ps[j])
    ensures Parse(Print(ps, 0), 0, WKey, [], []) == Pairs(ps)
  {
    hide Parse, DocOk, DocText, Meaning, Short, PrintedDoc;
    PrintedOk(ps, 0);
    assert [] + Print(ps, 0) == Print(ps, 0) && ps[0..] == ps;
    ParseIsMeaning(Print(ps, 0), ps);
  }

  /** How a short hstore is printed: "a"=>"\\"", "b"=>NULL. */
  lemma PrintedSample()
    ensures Print([Pair([97], Some([34])), Pair([98], None)], 0)
         == [34, 97, 34, 61, 62, 34, 92, 34, 34, 44, 32, 34, 98, 34, 61, 62, 78, 85, 76, 76]
  {
    hide PairText;
    var ps := [Pair([97], Some([34])), Pair([98], None)];
    SamplePairs();
    assert Print(ps, 2) == [];
    assert Print(ps, 1) == PairText(ps[1]) + [] + [];
    assert Print(ps, 0) == PairText(ps[0]) + [44, 32] + Print(ps, 1);
  }

  lemma SamplePairs()
    ensures PairText(Pair([97], Some([34]))) == [34, 97, 34, 61, 62, 34, 92, 34, 34]
    ensures PairText(Pair([98], None)) == [34, 98, 34, 61, 62, 78, 85, 76, 76]
  {
    hide Escaped;
    OneByte(97);
    OneByte(34);
    OneByte(98);
  }

  lemma OneByte(c: byte)
    ensures Escaped([c], 0) == EscapedByte(c)
  {
    assert Escaped([c], 1) == [];
  }
}
