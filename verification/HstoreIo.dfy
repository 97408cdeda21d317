/** hstore_in and hstore_out: the parser, the removal of duplicate keys, and the printer. */
module HstoreIo {
  import opened Optional
  import opened ByteStrings
  import opened Hstore
  import opened HstoreBuilder
  import opened HstoreText
  import opened HstoreGrammar

  // ---------- The parser ----------

  class HSParser {
    const begin: Bytes
    var ptr: int
    var word: Bytes
    var wordlen: nat
    var pairs: seq<Pair>
    var plen: nat

    constructor (s: Bytes)
      ensures begin == s
    {
      begin, ptr, word, wordlen, pairs, plen := s, 0, [], 32, [], 16;
    }

    /** RESIZEPRSBUF and the store of a byte; a terminating zero still fits behind it. */
    method Append(c: byte)
      requires |word| < wordlen && wordlen >= 32
      modifies this`word, this`wordlen
      ensures word == old(word) + [c] && |word| < wordlen && wordlen >= 32
    {
      if |word| + 1 >= wordlen {
        wordlen := wordlen * 2;
      }
      word := word + [c];
    }

    /** get_val. */
    method ReadVal(ignoreeq: bool) returns (g: Got)
      requires 0 <= ptr <= |begin| && CString(begin)
      modifies this`ptr, this`word, this`wordlen
      ensures g == GetVal(begin, old(ptr), WaitVal, [], false, ignoreeq)
      ensures g.Word? ==> ptr + 1 == g.next && word == g.word && |word| < wordlen && wordlen >= 32
    {
      var st, escaped := WaitVal, false;
      wordlen, word := 32, [];
      while true
        invariant 0 <= ptr <= |begin| && |word| < wordlen && wordlen >= 32
        invariant st == WaitVal ==> word == []
        invariant GetVal(begin, ptr, st, word, escaped, ignoreeq)
                 == GetVal(begin, old(ptr), WaitVal, [], false, ignoreeq)
        decreases |begin| - ptr
      {
        var c := CharAt(begin, ptr);
        match st {
        case WaitVal =>
          if c == QUOTE {
            escaped, st := true, InEscVal;
          } else if c == 0 {
            return NoWord;
          } else if c == EQUALS && !ignoreeq {
            return SyntaxError(ptr);
          } else if c == BACKSLASH {
            st := WaitEscIn;
          } else if !IsSpace(c) {
            word, st := word + [c], InVal;
          }
        case InVal =>
          if c == BACKSLASH {
            st := WaitEscIn;
          } else if (c == EQUALS && !ignoreeq) || (c == COMMA && ignoreeq) {
            ptr := ptr - 1;
            return Word(word, escaped, ptr + 1);
          } else if IsSpace(c) {
            return Word(word, escaped, ptr + 1);
          } else if c == 0 {
            ptr := ptr - 1;
            return Word(word, escaped, ptr + 1);
          } else {
            Append(c);
          }
        case InEscVal =>
          if c == BACKSLASH {
            st := WaitEscEscIn;
          } else if c == QUOTE {
            return Word(word, escaped, ptr + 1);
          } else if c == 0 {
            return UnexpectedEnd;
          } else {
            Append(c);
          }
        case WaitEscIn =>
          if c == 0 {
            return UnexpectedEnd;
          }
          Append(c);
          st := InVal;
        case WaitEscEscIn =>
          if c == 0 {
            return UnexpectedEnd;
          }
          Append(c);
          st := InEscVal;
        }
        ptr := ptr + 1;
      }
    }

    /** parse_hstore. */
    method ParseHstore() returns (r: Parsed)
      requires CString(begin)
      modifies this
      ensures r == Parse(begin, 0, WKey, [], [])
      ensures r.Pairs? ==> pairs == r.pairs
    {
      hide GetVal;
      var st, key: Bytes := WKey, [];
      plen, pairs, ptr := 16, [], 0;
      while true
        invariant 0 <= ptr <= |begin| && |pairs| <= plen && plen >= 16
        invariant st in {WEq, WGt, WVal} ==> |pairs| < plen
        invariant Parse(begin, ptr, st, key, pairs) == Parse(begin, 0, WKey, [], [])
        decreases |begin| - ptr
      {
        var c := CharAt(begin, ptr);
        GetValMoves(begin, ptr, WaitVal, [], false, st == WVal);
        match st {
        case WKey =>
          var g := ReadVal(false);
          match g {
          case NoWord => return Pairs(pairs);
          case SyntaxError(at) => return BadSyntax(at);
          case UnexpectedEnd => return EndOfString;
          case Word(w, _, _) =>
            if |pairs| >= plen {
              plen := plen * 2;
            }
            if |w| > 0x3FFF_FFFF {
              return TooLong;
            }
            key, st := w, WEq;
          }
        case WEq =>
          if c == EQUALS {
            st := WGt;
          } else if c == 0 {
            return EndOfString;
          } else if !IsSpace(c) {
            return BadSyntax(ptr);
          }
        case WGt =>
          if c == GREATER {
            st := WVal;
          } else if c == 0 {
            return EndOfString;
          } else {
            return BadSyntax(ptr);
          }
        case WVal =>
          var g := ReadVal(true);
          match g {
          case NoWord => return EndOfString;
          case SyntaxError(at) => return BadSyntax(at);
          case UnexpectedEnd => return EndOfString;
          case Word(w, escaped, _) =>
            if |w| > 0x3FFF_FFFF {
              return TooLong;
            }
            pairs := pairs + [Pair(key, if IsNullWord(w, escaped) then None else Some(w))];
            key, st := [], WDel;
          }
        case WDel =>
          if c == COMMA {
            st := WKey;
          } else if c == 0 {
            return Pairs(pairs);
          } else if !IsSpace(c) {
            return BadSyntax(ptr);
          }
        }
        ptr := ptr + 1;
      }
    }
  }

  // ---------- Duplicate keys ----------

  predicate Sorted(s: seq<Pair>) {
    forall i, j | 0 <= i < j < |s| :: !KeyLess(s[j].key, s[i].key)
  }

  /** What qsort may make of the pairs; the order of equal keys is left open. */
  predicate IsSorting(s: seq<Pair>, sorted: seq<Pair>) {
    multiset(s) == multiset(sorted) && Sorted(sorted)
  }

  /** The first pair of each run of equal keys among the first n. */
  function Firsts(s: seq<Pair>, n: nat): (r: seq<Pair>)
    requires n <= |s|
    ensures |r| <= n && (n > 0 ==> r != [] && r[|r| - 1].key == s[n - 1].key)
  {
    if n == 0 then []
    else
      var r := Firsts(s, n - 1);
      if n > 1 && r[|r| - 1].key == s[n - 1].key then r else r + [s[n - 1]]
  }

  /** Of a sorted list the result is canonical. */
  lemma {:induction false} FirstsCanonical(s: seq<Pair>, n: nat)
    requires Sorted(s) && n <= |s|
    ensures Canonical(Firsts(s, n))
  {
    hide KeyLess;
    if n > 1 {
      FirstsCanonical(s, n - 1);
      var r := Firsts(s, n - 1);
      if r[|r| - 1].key != s[n - 1].key {
        KeyLessTotal(s[n - 2].key, s[n - 1].key);
        forall i | 0 <= i < |r| - 1 ensures KeyLess(r[i].key, s[n - 1].key) {
          KeyLessTransitive(r[i].key, r[|r| - 1].key, s[n - 1].key);
        }
      }
    }
  }

  lemma HasKeySnoc(s: seq<Pair>, p: Pair, key: Bytes)
    ensures HasKey(s + [p], key) <==> HasKey(s, key) || p.key == key
  {
    var t := s + [p];
    if j :| 0 <= j < |s| && s[j].key == key {
      assert t[j].key == key;
    }
    if p.key == key {
      assert t[|s|].key == key;
    }
  }

  /** A key survives exactly if it was there. */
  lemma {:induction false} FirstsKeepKeys(s: seq<Pair>, n: nat, key: Bytes)
    requires n <= |s|
    ensures HasKey(Firsts(s, n), key) <==> HasKey(s[..n], key)
  {
    if n > 0 {
      FirstsKeepKeys(s, n - 1, key);
      var r := Firsts(s, n - 1);
      assert s[..n] == s[..n - 1] + [s[n - 1]];
      HasKeySnoc(s[..n - 1], s[n - 1], key);
      HasKeySnoc(r, s[n - 1], key);
      if n > 1 && r[|r| - 1].key == s[n - 1].key == key {
        assert HasKey(r, key);
      }
    }
  }

  /** Every pair that survives was there. */
  lemma {:induction false} FirstsWereThere(s: seq<Pair>, n: nat, i: nat)
    requires n <= |s| && i < |Firsts(s, n)|
    ensures Firsts(s, n)[i] in s
  {
    if n > 0 && i < |Firsts(s, n - 1)| {
      FirstsWereThere(s, n - 1, i);
    }
  }

  /** A canonical list has no duplicates to remove. */
  lemma {:induction false} FirstsOfCanonical(s: seq<Pair>, n: nat)
    requires Canonical(s) && n <= |s|
    ensures Firsts(s, n) == s[..n]
  {
    if n > 0 {
      FirstsOfCanonical(s, n - 1);
      if n > 1 {
        KeyLessTotal(s[n - 2].key, s[n - 2].key);
        assert s[n - 2].key != s[n - 1].key;
      }
      hide KeyLess;
      assert s[..n] == s[..n - 1] + [s[n - 1]];
    }
  }

  lemma CanonicalSorted(s: seq<Pair>)
    requires Canonical(s)
    ensures Sorted(s)
  {
    forall i, j | 0 <= i < j < |s| ensures !KeyLess(s[j].key, s[i].key) {
      KeyLessTotal(s[i].key, s[j].key);
    }
  }

  /** The greatest pair comes last in every sorting. */
  lemma LastAgrees(s: seq<Pair>, sorted: seq<Pair>)
    requires Canonical(s) && IsSorting(s, sorted) && s != []
    ensures |sorted| == |s| && sorted[|s| - 1] == s[|s| - 1]
  {
    hide KeyLess;
    assert |multiset(s)| == |multiset(sorted)|;
    var n := |s| - 1;
    assert sorted[n] in multiset(sorted) && s[n] in multiset(s);
    assert sorted[n] in s && s[n] in sorted;
    var j :| 0 <= j <= n && s[j] == sorted[n];
    var k :| 0 <= k <= n && sorted[k] == s[n];
    assert j < n ==> KeyLess(s[j].key, s[n].key);
    assert k < n ==> !KeyLess(sorted[n].key, sorted[k].key);
  }

  lemma MultisetCancel(a: seq<Pair>, b: seq<Pair>, x: Pair)
    requires multiset(a + [x]) == multiset(b + [x])
    ensures multiset(a) == multiset(b)
  {
    assert multiset(a + [x]) == multiset(a) + multiset{x};
    assert multiset(b + [x]) == multiset(b) + multiset{x};
    assert multiset(a) == multiset(a + [x]) - multiset{x};
    assert multiset(b) == multiset(b + [x]) - multiset{x};
  }

  lemma Shorter(s: seq<Pair>, sorted: seq<Pair>, n: nat)
    requires Canonical(s) && IsSorting(s, sorted) && |s| == |sorted| == n + 1 && sorted[n] == s[n]
    ensures Canonical(s[..n]) && IsSorting(s[..n], sorted[..n])
  {
    hide KeyLess;
    assert s == s[..n] + [s[n]] && sorted == sorted[..n] + [s[n]];
    MultisetCancel(s[..n], sorted[..n], s[n]);
  }

  /** Sorting leaves a canonical list as it is. */
  lemma {:induction false} SortingIsUnique(s: seq<Pair>, sorted: seq<Pair>)
    requires Canonical(s) && IsSorting(s, sorted)
    ensures sorted == s
  {
    if s == [] {
      assert |multiset(sorted)| == 0;
    } else {
      LastAgrees(s, sorted);
      hide Canonical, IsSorting;
      var n := |s| - 1;
      Shorter(s, sorted, n);
      SortingIsUnique(s[..n], sorted[..n]);
      assert s == s[..n] + [s[n]] && sorted == sorted[..n] + [s[n]];
    }
  }

  lemma SingleSorting(s: seq<Pair>, sorted: seq<Pair>)
    requires |s| < 2 && IsSorting(s, sorted)
    ensures sorted == s && Firsts(sorted, |sorted|) == s
  {
    assert Canonical(s);
    SortingIsUnique(s, sorted);
    FirstsOfCanonical(s, |s|);
    assert s[..|s|] == s;
  }

  lemma LengthNext(r: seq<Pair>, more: seq<Pair>, k: nat)
    requires r <= more && k < |r|
    ensures |Text(more, k + 1)| == |Text(r, k)| + |r[k].key| + |ValBytes(r[k])|
  {
    TextOfPrefix(r, more, k + 1);
    TextStep(r, k);
  }

  lemma FirstsNext(s: seq<Pair>, n: nat)
    requires 0 < n < |s|
    ensures var r := Firsts(s, n);
            Firsts(s, n + 1) == if r[|r| - 1].key == s[n].key then r else r + [s[n]]
  {
  }

  lemma FirstsOne(s: seq<Pair>)
    requires s != []
    ensures Firsts(s, 1) == [s[0]] && Text([s[0]], 0) == []
  {
    assert Firsts(s, 0) == [];
  }

  /** a starts with the pairs kept so far and ends with the part not yet looked at. */
  predicate Kept(a: seq<Pair>, r: seq<Pair>, sorted: seq<Pair>, ptr: nat) {
    && 0 < |r| <= ptr <= |a| == |sorted|
    && (forall k | 0 <= k < |r| :: a[k] == r[k])
    && (forall k | ptr <= k < |a| :: a[k] == sorted[k])
  }

  lemma KeptNext(a: seq<Pair>, r: seq<Pair>, sorted: seq<Pair>, ptr: nat)
    requires Kept(a, r, sorted, ptr) && ptr < |a|
    ensures Kept(a, r, sorted, ptr + 1)
    ensures Kept(a[|r| := a[ptr]], r + [sorted[ptr]], sorted, ptr + 1)
    ensures |r| == ptr ==> Kept(a, r + [sorted[ptr]], sorted, ptr + 1)
  {
  }

  lemma KeptAt(a: seq<Pair>, r: seq<Pair>, sorted: seq<Pair>, ptr: nat)
    requires Kept(a, r, sorted, ptr)
    ensures 0 < |r| <= ptr <= |a| == |sorted| && a[|r| - 1] == r[|r| - 1] && a[..|r|] == r
    ensures ptr < |a| ==> a[ptr] == sorted[ptr]
  {
  }

  /** One round of the loop that keeps the first of each run of equal keys. */
  method KeepNext(a: array<Pair>, ptr: nat, res: nat, buflen: nat, ghost r: seq<Pair>, ghost sorted: seq<Pair>)
    returns (res': nat, buflen': nat, ghost r': seq<Pair>)
    requires ptr < a.Length && Kept(a[..], r, sorted, ptr) && r == Firsts(sorted, ptr)
    requires res + 1 == |r| && buflen == |Text(r, res)|
    modifies a
    ensures Kept(a[..], r', sorted, ptr + 1) && r' == Firsts(sorted, ptr + 1)
    ensures res' + 1 == |r'| && buflen' == |Text(r', res')|
  {
    hide Text, Firsts, Kept;
    KeptAt(a[..], r, sorted, ptr);
    KeptNext(a[..], r, sorted, ptr);
    FirstsNext(sorted, ptr);
    res', buflen', r' := res, buflen, r;
    if a[ptr].key != a[res].key {
      r' := r + [sorted[ptr]];
      LengthNext(r, r', res);
      buflen' := buflen + |a[res].key| + |ValBytes(a[res])|;
      res' := res + 1;
      if res' != ptr {
        ghost var before := a[..];
        a[res'] := a[ptr];
        assert a[..] == before[res' := before[ptr]];
      }
    }
  }

  /** The loop of hstoreUniquePairs, in place. */
  method KeepFirsts(a: array<Pair>, ghost sorted: seq<Pair>) returns (n: nat, buflen: nat)
    requires a.Length >= 2 && a[..] == sorted
    modifies a
    ensures n <= a.Length && a[..n] == Firsts(sorted, |sorted|) && buflen == |Text(a[..n], n)|
  {
    hide Text, Firsts, Kept;
    var ptr, res := 1, 0;
    buflen := 0;
    ghost var r: seq<Pair> := [sorted[0]];
    FirstsOne(sorted);
    KeptBegins(sorted);
    while ptr < a.Length
      invariant 1 <= ptr <= a.Length && res + 1 == |r| && r == Firsts(sorted, ptr)
      invariant Kept(a[..], r, sorted, ptr) && buflen == |Text(r, res)|
    {
      res, buflen, r := KeepNext(a, ptr, res, buflen, r, sorted);
      ptr := ptr + 1;
    }
    KeptAt(a[..], r, sorted, ptr);
    LengthNext(r, r, res);
    buflen := buflen + |a[res].key| + |ValBytes(a[res])|;
    n := res + 1;
    assert a[..n] == a[..][..n];
  }

  lemma KeptBegins(sorted: seq<Pair>)
    requires sorted != []
    ensures Kept(sorted, [sorted[0]], sorted, 1)
  {
  }

  /** hstoreUniquePairs; sorted is what qsort leaves in the array. */
  method UniquePairs(a: array<Pair>, sorted: seq<Pair>) returns (n: nat, buflen: nat)
    requires IsSorting(a[..], sorted)
    modifies a
    ensures n <= a.Length && a[..n] == Firsts(sorted, |sorted|) && buflen == |Text(a[..n], n)|
  {
    hide Text, IsSorting;
    buflen := 0;
    var l := a.Length;
    if l < 2 {
      SingleSorting(a[..], sorted);
      NothingPacked(a[..]);
      if l == 1 {
        TextStep(a[..], 0);
        buflen := |a[0].key| + |ValBytes(a[0])|;
      }
      assert a[..l] == a[..];
      return l, buflen;
    }
    SortingLength(a[..], sorted);
    forall i | 0 <= i < l {
      a[i] := sorted[i];
    }
    assert a[..] == sorted;
    n, buflen := KeepFirsts(a, sorted);
  }

  lemma SortingLength(s: seq<Pair>, sorted: seq<Pair>)
    requires IsSorting(s, sorted)
    ensures |sorted| == |s|
  {
    assert |multiset(s)| == |multiset(sorted)|;
  }

  // ---------- Input ----------

  datatype InResult = Value(out: Builder) | ParseError(error: Parsed) | TooLarge

  /** hstore_in; sorted is what qsort makes of the pairs that were parsed. */
  method HstoreIn(s: Bytes, sorted: seq<Pair>) returns (r: InResult)
    requires CString(s)
    requires var p := Parse(s, 0, WKey, [], []); p.Pairs? ==> IsSorting(p.pairs, sorted)
    ensures r.ParseError? <==> !Parse(s, 0, WKey, [], []).Pairs?
    ensures r.ParseError? ==> r.error == Parse(s, 0, WKey, [], [])
    ensures !r.ParseError? ==> (r.TooLarge? <==> !Fits(Firsts(sorted, |sorted|)))
    ensures r.Value? ==> fresh(r.out) && fresh(r.out.mem) && r.out.Is(Pack(Firsts(sorted, |sorted|)))
  {
    hide Parse, Text, Words, IsSorting, Firsts;
    var state := new HSParser(s);
    var parsed := state.ParseHstore();
    if !parsed.Pairs? {
      return ParseError(parsed);
    }
    var pairs := parsed.pairs;
    var a := new Pair[|pairs|](i requires 0 <= i < |pairs| => pairs[i]);
    assert a[..] == pairs;
    var n, buflen := UniquePairs(a, sorted);
    var out := HstorePairs(a[..n], buflen);
    r := if out.Some? then Value(out.value) else TooLarge;
  }

  // ---------- Output ----------

  /** The buffer hstore_out allocates and the pointer it moves through it. */
  class OutText {
    const out: array<byte>
    var ptr: nat
    ghost var text: Bytes

    ghost predicate Valid()
      reads this, out
    {
      ptr == |text| <= out.Length && out[..ptr] == text
    }

    constructor (buflen: nat)
      ensures Valid() && fresh(out) && out.Length == buflen && text == []
    {
      out := new byte[buflen](_ => 0);
      ptr, text := 0, [];
    }

    method Put(c: byte)
      requires Valid() && |text| < out.Length
      modifies this, out
      ensures Valid() && text == old(text) + [c]
    {
      out[ptr] := c;
      ptr, text := ptr + 1, text + [c];
      assert out[..ptr] == text;
    }

    /** One round of cpw. */
    method PutEscaped(c: byte)
      requires Valid() && |text| + 2 <= out.Length
      modifies this, out
      ensures Valid() && text == old(text) + EscapedByte(c)
    {
      hide Valid;
      if c == QUOTE || c == BACKSLASH {
        Put(BACKSLASH);
      }
      Put(c);
    }

    /** cpw. */
    method Cpw(src: Bytes)
      requires Valid() && |text| + 2 * |src| <= out.Length
      modifies this, out
      ensures Valid() && text == old(text) + Escaped(src, 0)
    {
      hide Valid, EscapedByte, Escaped;
      EscapedEnd(src);
      for i := 0 to |src|
        invariant Valid() && |text| + 2 * (|src| - i) <= out.Length
        invariant text + Escaped(src, i) == old(text) + Escaped(src, 0)
      {
        EscapeNext(text, src, i);
        PutEscaped(src[i]);
      }
    }

    method Quote(src: Bytes)
      requires Valid() && |text| + 2 * |src| + 2 <= out.Length
      modifies this, out
      ensures Valid() && text == old(text) + Quoted(src)
    {
      hide Valid, Escaped;
      EscapedRoom(src, 0);
      Put(QUOTE);
      Cpw(src);
      Put(QUOTE);
    }
  }

  lemma EscapeNext(before: Bytes, src: Bytes, i: nat)
    requires i < |src|
    ensures before + Escaped(src, i) == before + EscapedByte(src[i]) + Escaped(src, i + 1)
    ensures |EscapedByte(src[i])| <= 2
  {
  }

  lemma EscapedEnd(src: Bytes)
    ensures Escaped(src, |src|) == []
  {
  }

  lemma {:induction false} EscapedRoom(src: Bytes, i: nat)
    requires i <= |src|
    ensures |Escaped(src, i)| <= 2 * (|src| - i)
    decreases |src| - i
  {
    if i < |src| {
      EscapedRoom(src, i + 1);
    }
  }

  /** The room one pair is given in the size computation of hstore_out. */
  function PairRoom(p: Pair): nat {
    6 + 2 * |p.key| + 2 + if p.val.None? then 2 else 2 * |p.val.value|
  }

  function Room(ps: seq<Pair>, n: nat): nat
    requires n <= |ps|
  {
    if n == 0 then 0 else Room(ps, n - 1) + PairRoom(ps[n - 1])
  }

  lemma {:induction false} RoomGrows(ps: seq<Pair>, i: nat, n: nat)
    requires i <= n <= |ps|
    ensures Room(ps, i) <= Room(ps, n)
  {
    if i < n {
      RoomGrows(ps, i, n - 1);
    }
  }

  /** The size computation of hstore_out. */
  method TextRoom(hs: HStore, ghost ps: seq<Pair>) returns (buflen: nat)
    requires Describes(hs, ps) && Count(hs) == |ps|
    ensures buflen == Room(ps, |ps|)
  {
    hide Describes, Off, Len, IsNull, Text;
    buflen := 0;
    for i := 0 to Count(hs)
      invariant buflen == Room(ps, i)
    {
      DescribedAt(hs, ps, i);
      DescribedEntries(hs, ps, i);
      buflen := buflen + 6 + 2 * Len(hs, 2 * i);
      buflen := buflen + 2 + if IsNull(hs.entries[2 * i + 1]) then 2 else 2 * Len(hs, 2 * i + 1);
    }
  }

  /** The text of one pair, with the separator unless it is the last. */
  function Piece(ps: seq<Pair>, i: nat): Bytes
    requires i < |ps|
  {
    PairText(ps[i]) + if i + 1 < |ps| then [COMMA, SPACE] else []
  }

  lemma PieceRoom(ps: seq<Pair>, i: nat)
    requires i < |ps|
    ensures |Piece(ps, i)| + (if i + 1 == |ps| then 1 else 0) <= PairRoom(ps[i])
  {
    EscapedRoom(ps[i].key, 0);
    if ps[i].val.Some? {
      EscapedRoom(ps[i].val.value, 0);
    }
  }

  method PutValue(b: OutText, hs: HStore, i: nat, ghost ps: seq<Pair>)
    requires b.Valid() && Describes(hs, ps) && i < |ps|
    requires |b.text| + 2 + (if ps[i].val.None? then 2 else 2 * |ps[i].val.value|) <= b.out.Length
    modifies b, b.out
    ensures b.Valid() && b.text == old(b.text) + ValText(ps[i])
  {
    hide Describes, Off, Len, Text, Quoted, IsNull;
    DescribedAt(hs, ps, i);
    DescribedBytes(hs, ps, i);
    DescribedEntries(hs, ps, i);
    if IsNull(hs.entries[2 * i + 1]) {
      hide b.Valid;
      b.Put(78);
      b.Put(85);
      b.Put(76);
      b.Put(76);
    } else {
      b.Quote(Stored(hs, 2 * i + 1));
    }
  }

  /** One round of the output loop. */
  method PutPair(b: OutText, hs: HStore, i: nat, ghost ps: seq<Pair>)
    requires b.Valid() && Describes(hs, ps) && Count(hs) == |ps| && i < |ps|
    requires |b.text| + PairRoom(ps[i]) <= b.out.Length
    modifies b, b.out
    ensures b.Valid() && b.text == old(b.text) + Piece(ps, i)
  {
    hide Describes, Text, Quoted, ValText, b.Valid, Piece, Stored, Escaped;
    DescribedBytes(hs, ps, i);
    DescribedEntries(hs, ps, i);
    QuotedRoom(ps[i]);
    PieceParts(b.text, ps, i);
    b.Quote(Stored(hs, 2 * i));
    b.Put(EQUALS);
    b.Put(GREATER);
    PutValue(b, hs, i, ps);
    if i + 1 != Count(hs) {
      b.Put(COMMA);
      b.Put(SPACE);
    }
  }

  lemma PieceParts(t: Bytes, ps: seq<Pair>, i: nat)
    requires i < |ps|
    ensures var pair := t + Quoted(ps[i].key) + [EQUALS] + [GREATER] + ValText(ps[i]);
            t + Piece(ps, i) == if i + 1 != |ps| then pair + [COMMA] + [SPACE] else pair
  {
    hide Quoted, ValText;
  }

  lemma QuotedRoom(p: Pair)
    ensures |Quoted(p.key)| <= 2 * |p.key| + 2
    ensures |ValText(p)| <= 2 + if p.val.None? then 2 else 2 * |p.val.value|
  {
    EscapedRoom(p.key, 0);
    if p.val.Some? {
      EscapedRoom(p.val.value, 0);
    }
  }

  /** hstore_out: the text and its terminating zero stay inside the buffer. */
  method HstoreOut(hs: HStore, ghost ps: seq<Pair>) returns (b: OutText)
    requires Describes(hs, ps) && Count(hs) == |ps|
    ensures fresh(b) && fresh(b.out) && b.ptr < b.out.Length
    ensures b.out[..b.ptr] == Print(ps, 0) && b.out[b.ptr] == 0
  {
    hide Describes, Partway, Print, Room;
    if Count(hs) == 0 {
      b := new OutText(1);
      b.out[0] := 0;
      NothingPrinted(ps);
      return;
    }
    var buflen := TextRoom(hs, ps);
    b := new OutText(buflen);
    NothingPrinted(ps);
    for i := 0 to Count(hs)
      invariant fresh(b) && fresh(b.out) && b.Valid() && b.out.Length == Room(ps, |ps|)
      invariant Partway(b.text, ps, i)
    {
      PartwayNext(b.text, ps, i);
      PutPair(b, hs, i, ps);
    }
    AllPrinted(b.text, ps);
    b.out[b.ptr] := 0;
    assert b.out[..b.ptr] == b.text;
  }

  /** The text of the first i pairs, with room for the terminating zero after the last. */
  predicate Partway(text: Bytes, ps: seq<Pair>, i: nat)
    requires i <= |ps|
  {
    && |text| + (if i == |ps| > 0 then 1 else 0) <= Room(ps, i)
    && text + Print(ps, i) == Print(ps, 0)
  }

  lemma NothingPrinted(ps: seq<Pair>)
    ensures Partway([], ps, 0) && (ps == [] ==> Print(ps, 0) == [])
  {
    assert [] + Print(ps, 0) == Print(ps, 0);
  }

  lemma PartwayNext(text: Bytes, ps: seq<Pair>, i: nat)
    requires i < |ps| && Partway(text, ps, i)
    ensures Partway(text + Piece(ps, i), ps, i + 1) && |text| + PairRoom(ps[i]) <= Room(ps, |ps|)
  {
    hide Piece, PairRoom;
    RoomGrows(ps, i + 1, |ps|);
    PieceRoom(ps, i);
    PrintNext(text, ps, i);
  }

  lemma PrintNext(before: Bytes, ps: seq<Pair>, i: nat)
    requires i < |ps|
    ensures before + Print(ps, i) == before + Piece(ps, i) + Print(ps, i + 1)
  {
  }

  lemma AllPrinted(text: Bytes, ps: seq<Pair>)
    requires Partway(text, ps, |ps|) && ps != []
    ensures text == Print(ps, 0) && |text| < Room(ps, |ps|)
  {
    hide Room;
    assert text + [] == text;
  }

  // ---------- Round trip ----------

  predicate NoZero(p: Pair) {
    CString(p.key) && CString(ValBytes(p))
  }

  /** What was printed from a canonical hstore reads back as the same packed value. */
  lemma TextRoundTrip(ps: seq<Pair>, sorted: seq<Pair>)
    requires Canonical(ps) && Fits(ps) && (forall i | 0 <= i < |ps| :: NoZero(ps[i]))
    ensures CString(Print(ps, 0))
    ensures Parse(Print(ps, 0), 0, WKey, [], []) == Pairs(ps)
    ensures IsSorting(ps, ps)
    ensures IsSorting(ps, sorted) ==> Firsts(sorted, |sorted|) == ps
  {
    hide Parse, KeyLess;
    forall i | 0 <= i < |ps| ensures Short(ps[i]) {
      TextAt(ps, |ps|, i);
      TextStep(ps, i);
    }
    PrintParses(ps);
    PrintIsCString(ps, 0);
    CanonicalSorted(ps);
    if IsSorting(ps, sorted) {
      SortingIsUnique(ps, sorted);
      FirstsOfCanonical(ps, |ps|);
      assert ps[..|ps|] == ps;
    }
  }

  lemma {:induction false} EscapedIsCString(b: Bytes, i: nat)
    requires CString(b) && i <= |b|
    ensures CString(Escaped(b, i))
    decreases |b| - i
  {
    if i < |b| {
      EscapedIsCString(b, i + 1);
    }
  }

  lemma {:induction false} PrintIsCString(ps: seq<Pair>, i: nat)
    requires (forall k | 0 <= k < |ps| :: NoZero(ps[k])) && i <= |ps|
    ensures CString(Print(ps, i))
    decreases |ps| - i
  {
    hide PairText, NoZero;
    if i < |ps| {
      PrintIsCString(ps, i + 1);
      PairIsCString(ps[i]);
      var sep: Bytes := if i + 1 < |ps| then [COMMA, SPACE] else [];
      assert CString(sep);
    }
  }

  lemma PairIsCString(p: Pair)
    requires NoZero(p)
    ensures CString(PairText(p))
  {
    EscapedIsCString(p.key, 0);
    if p.val.Some? {
      EscapedIsCString(p.val.value, 0);
    }
    hide Escaped;
  }
}
