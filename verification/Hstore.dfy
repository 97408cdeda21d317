/**
  The packed form of an hstore: an array of entries, two for each pair, that hold the end
  positions of the key and the value in one string area, and some flag bits.
 */
module Hstore {
  import opened Optional
  import opened ByteStrings

  /** None is a null value. */
  datatype Pair = Pair(key: Bytes, val: Option<Bytes>)

  const ISFIRST: nat := 0x8000_0000
  const ISNULL: nat := 0x4000_0000
  const NEWVERSION: nat := 0x8000_0000
  const MAX_ALLOC: nat := 0x3FFF_FFFF

  predicate IsFirst(e: nat) {
    e / 0x8000_0000 % 2 == 1
  }

  predicate IsNull(e: nat) {
    e / 0x4000_0000 % 2 == 1
  }

  function EndPos(e: nat): nat {
    e % 0x4000_0000
  }

  /** A datum: its varlena size, the word size_, the entries that size_ counts, and what follows them. */
  datatype HStore = HStore(varsize: nat, size: nat, entries: seq<nat>, str: Bytes)

  function Count(hs: HStore): nat {
    hs.size % 0x1000_0000
  }

  function DataSize(count: nat, lenstr: nat): nat {
    8 * count + 8 + lenstr
  }

  /** The word before entry j; before the first entry that is size_. */
  function Before(hs: HStore, j: nat): nat
    requires j < |hs.entries|
  {
    if j == 0 then hs.size else hs.entries[j - 1]
  }

  /** HSE_OFF. */
  function Off(hs: HStore, j: nat): nat
    requires j < |hs.entries|
  {
    if IsFirst(hs.entries[j]) then 0 else EndPos(Before(hs, j))
  }

  /** HSE_LEN, in unsigned 32-bit arithmetic. */
  function Len(hs: HStore, j: nat): nat
    requires j < |hs.entries|
  {
    var end := EndPos(hs.entries[j]);
    if IsFirst(hs.entries[j]) then end else (end - EndPos(Before(hs, j))) % 0x1_0000_0000
  }

  /** The bytes an entry stands for, if they lie in the datum. */
  function Stored(hs: HStore, j: nat): Bytes
    requires j < |hs.entries|
  {
    var off, len := Off(hs, j), Len(hs, j);
    if off + len <= |hs.str| then hs.str[off..off + len] else []
  }

  function PairAt(hs: HStore, i: nat): Pair
    requires 2 * i + 1 < |hs.entries|
  {
    Pair(Stored(hs, 2 * i), if IsNull(hs.entries[2 * i + 1]) then None else Some(Stored(hs, 2 * i + 1)))
  }

  /** The pairs of an hstore. */
  function Decode(hs: HStore): seq<Pair>
    requires |hs.entries| == 2 * Count(hs)
  {
    seq(Count(hs), i requires 0 <= i < Count(hs) => PairAt(hs, i))
  }

  // ---------- Order of keys ----------

  /** Shorter keys first, then bytewise. */
  predicate KeyLess(a: Bytes, b: Bytes) {
    |a| < |b| || (|a| == |b| && Lt(a, b))
  }

  predicate Canonical(ps: seq<Pair>) {
    forall i, j | 0 <= i < j < |ps| :: KeyLess(ps[i].key, ps[j].key)
  }

  lemma KeyLessTransitive(a: Bytes, b: Bytes, c: Bytes)
    requires KeyLess(a, b) && KeyLess(b, c)
    ensures KeyLess(a, c)
  {
    if |a| == |b| == |c| {
      LeTransitive(a, b, c);
      if a == c {
        LeAntisymmetric(a, b);
      }
    }
  }

  lemma KeyLessTotal(a: Bytes, b: Bytes)
    ensures KeyLess(a, b) || KeyLess(b, a) || a == b
    ensures !(KeyLess(a, b) && KeyLess(b, a)) && !KeyLess(a, a)
  {
    LeTotal(a, b);
    if Le(a, b) && Le(b, a) {
      LeAntisymmetric(a, b);
    }
  }

  function Memcmp(a: Bytes, b: Bytes): int {
    if a == b then 0 else if Lt(a, b) then -1 else 1
  }

  /** The comparison of two keys that hstore code makes: lengths first, then bytes. */
  function Difference(a: Bytes, b: Bytes): (d: int)
    ensures d < 0 <==> KeyLess(a, b)
    ensures d == 0 <==> a == b
  {
    if |a| == |b| then Memcmp(a, b) else if |a| > |b| then 1 else -1
  }

  predicate HasKey(ps: seq<Pair>, key: Bytes) {
    exists i | 0 <= i < |ps| :: ps[i].key == key
  }

  // ---------- The packed form of given pairs ----------

  function ValBytes(p: Pair): Bytes {
    if p.val.Some? then p.val.value else []
  }

  /** The string area of the first n pairs. */
  function Text(ps: seq<Pair>, n: nat): Bytes
    requires n <= |ps|
  {
    if n == 0 then [] else Text(ps, n - 1) + ps[n - 1].key + ValBytes(ps[n - 1])
  }

  function KeyEnd(ps: seq<Pair>, i: nat): nat
    requires i < |ps|
  {
    |Text(ps, i)| + |ps[i].key|
  }

  function NullFlag(p: Pair): nat {
    if p.val.None? then ISNULL else 0
  }

  /** The entries of the first n pairs before the first one is flagged. */
  function Words(ps: seq<Pair>, n: nat): seq<nat>
    requires n <= |ps|
  {
    if n == 0 then [] else Words(ps, n - 1) + [KeyEnd(ps, n - 1), |Text(ps, n)| + NullFlag(ps[n - 1])]
  }

  function Flagged(words: seq<nat>): seq<nat> {
    if words == [] then [] else words[0 := words[0] + ISFIRST]
  }

  function Pack(ps: seq<Pair>): HStore {
    var n := |ps|;
    HStore(DataSize(n, |Text(ps, n)|), n + NEWVERSION, Flagged(Words(ps, n)), Text(ps, n))
  }

  /** A packed hstore of these pairs fits a varlena. */
  predicate Fits(ps: seq<Pair>) {
    DataSize(|ps|, |Text(ps, |ps|)|) <= MAX_ALLOC
  }

  lemma {:induction false} WordsLength(ps: seq<Pair>, n: nat)
    requires n <= |ps|
    ensures |Words(ps, n)| == 2 * n
  {
    hide Text;
    if n > 0 {
      WordsLength(ps, n - 1);
    }
  }

  lemma {:induction false} WordsAt(ps: seq<Pair>, n: nat, i: nat)
    requires i < n <= |ps|
    ensures |Words(ps, n)| == 2 * n
    ensures Words(ps, n)[2 * i] == KeyEnd(ps, i)
    ensures Words(ps, n)[2 * i + 1] == |Text(ps, i + 1)| + NullFlag(ps[i])
  {
    hide Text, KeyEnd;
    WordsLength(ps, n);
    WordsLength(ps, n - 1);
    if i < n - 1 {
      WordsAt(ps, n - 1, i);
    }
  }

  lemma {:induction false} TextPrefix(ps: seq<Pair>, i: nat, n: nat)
    requires i <= n <= |ps|
    ensures Text(ps, i) <= Text(ps, n)
  {
    if i < n {
      TextPrefix(ps, i, n - 1);
    }
  }

  lemma SliceOfPrefix(a: Bytes, b: Bytes, lo: nat, hi: nat)
    requires a <= b && lo <= hi <= |a|
    ensures b[lo..hi] == a[lo..hi]
  {
  }

  lemma SliceOfSum(a: Bytes, k: Bytes, v: Bytes)
    ensures (a + k + v)[|a|..|a| + |k|] == k
    ensures (a + k + v)[|a| + |k|..|a + k + v|] == v
  {
  }

  /** Where a pair stands in the string area. */
  lemma TextAt(ps: seq<Pair>, n: nat, i: nat)
    requires i < n <= |ps|
    ensures |Text(ps, i)| <= KeyEnd(ps, i) <= |Text(ps, i + 1)| <= |Text(ps, n)|
    ensures Text(ps, n)[|Text(ps, i)|..KeyEnd(ps, i)] == ps[i].key
    ensures Text(ps, n)[KeyEnd(ps, i)..|Text(ps, i + 1)|] == ValBytes(ps[i])
  {
    var a, k, v := Text(ps, i), ps[i].key, ValBytes(ps[i]);
    var upto := Text(ps, i + 1);
    assert upto == a + k + v;
    TextPrefix(ps, i + 1, n);
    hide Text;
    SliceOfSum(a, k, v);
    SliceOfPrefix(upto, Text(ps, n), |a|, |a| + |k|);
    SliceOfPrefix(upto, Text(ps, n), |a| + |k|, |upto|);
  }

  lemma Bits(pos: nat)
    requires pos < 0x4000_0000
    ensures EndPos(pos) == EndPos(pos + ISNULL) == EndPos(pos + ISFIRST) == pos
    ensures !IsFirst(pos) && !IsFirst(pos + ISNULL) && IsFirst(pos + ISFIRST)
    ensures !IsNull(pos) && IsNull(pos + ISNULL) && !IsNull(pos + ISFIRST)
  {
  }

  /** Entry j ends at pos, with the flags as given. */
  predicate Entry(e: nat, pos: nat, first: bool, isNull: bool) {
    EndPos(e) == pos && (IsFirst(e) <==> first) && (isNull <==> IsNull(e))
  }

  /** The entries and the string area of a datum describe these pairs. */
  predicate Describes(hs: HStore, ps: seq<Pair>) {
    && |hs.entries| == 2 * |ps| && Text(ps, |ps|) <= hs.str
    && (forall i | 0 <= i < |ps| :: Entry(hs.entries[2 * i], KeyEnd(ps, i), i == 0, false))
    && (forall i | 0 <= i < |ps| :: Entry(hs.entries[2 * i + 1], |Text(ps, i + 1)|, false, ps[i].val.None?))
  }

  lemma PackDescribes(ps: seq<Pair>)
    requires Fits(ps)
    ensures Describes(Pack(ps), ps)
  {
    hide Text, Words, Entry, KeyEnd;
    WordsLength(ps, |ps|);
    forall i | 0 <= i < |ps|
      ensures Entry(Pack(ps).entries[2 * i], KeyEnd(ps, i), i == 0, false)
      ensures Entry(Pack(ps).entries[2 * i + 1], |Text(ps, i + 1)|, false, ps[i].val.None?)
    {
      PackAt(ps, i);
    }
  }

  lemma PackAt(ps: seq<Pair>, i: nat)
    requires Fits(ps) && i < |ps|
    ensures |Pack(ps).entries| == 2 * |ps|
    ensures Entry(Pack(ps).entries[2 * i], KeyEnd(ps, i), i == 0, false)
    ensures Entry(Pack(ps).entries[2 * i + 1], |Text(ps, i + 1)|, false, ps[i].val.None?)
  {
    hide Text, Words;
    WordsLength(ps, |ps|);
    WordsAt(ps, |ps|, i);
    TextAt(ps, |ps|, i);
    Bits(KeyEnd(ps, i));
    Bits(|Text(ps, i + 1)|);
  }

  lemma DescribedEntries(hs: HStore, ps: seq<Pair>, i: nat)
    requires Describes(hs, ps) && i < |ps|
    ensures |hs.entries| == 2 * |ps| && Entry(hs.entries[2 * i], KeyEnd(ps, i), i == 0, false)
    ensures Entry(hs.entries[2 * i + 1], |Text(ps, i + 1)|, false, ps[i].val.None?)
    ensures i > 0 ==> EndPos(hs.entries[2 * i - 1]) == |Text(ps, i)|
  {
    hide Text, IsFirst, IsNull, EndPos, KeyEnd;
    if i > 0 {
      var j := i - 1;
      assert Entry(hs.entries[2 * j + 1], |Text(ps, j + 1)|, false, ps[j].val.None?);
    }
  }

  lemma Extent(hs: HStore, j: nat, from: nat, to: nat, first: bool, isNull: bool)
    requires j < |hs.entries| && Entry(hs.entries[j], to, first, isNull) && from <= to
    requires if first then from == 0 else EndPos(Before(hs, j)) == from
    ensures Off(hs, j) == from && Len(hs, j) == to - from
  {
  }

  /** Position and length of a pair by the accessor macros. */
  lemma DescribedAt(hs: HStore, ps: seq<Pair>, i: nat)
    requires Describes(hs, ps) && i < |ps|
    ensures Off(hs, 2 * i) == |Text(ps, i)| && Len(hs, 2 * i) == |ps[i].key|
    ensures Off(hs, 2 * i + 1) == KeyEnd(ps, i) && Len(hs, 2 * i + 1) == |ValBytes(ps[i])|
    ensures IsNull(hs.entries[2 * i + 1]) <==> ps[i].val.None?
  {
    hide Text, IsFirst, IsNull, EndPos, Off, Len, Describes;
    DescribedEntries(hs, ps, i);
    TextStep(ps, i);
    Extent(hs, 2 * i, |Text(ps, i)|, KeyEnd(ps, i), i == 0, false);
    Extent(hs, 2 * i + 1, KeyEnd(ps, i), |Text(ps, i + 1)|, false, ps[i].val.None?);
  }

  lemma TextStep(ps: seq<Pair>, i: nat)
    requires i < |ps|
    ensures |Text(ps, 0)| == 0 && |Text(ps, i + 1)| == KeyEnd(ps, i) + |ValBytes(ps[i])|
  {
  }

  lemma DescribedBytes(hs: HStore, ps: seq<Pair>, i: nat)
    requires Describes(hs, ps) && i < |ps|
    ensures Stored(hs, 2 * i) == ps[i].key && Stored(hs, 2 * i + 1) == ValBytes(ps[i])
  {
    hide Text, Off, Len, IsNull, Entry;
    DescribedAt(hs, ps, i);
    TextAt(ps, |ps|, i);
    TextStep(ps, i);
    var text := Text(ps, |ps|);
    SliceOfPrefix(text, hs.str, |Text(ps, i)|, KeyEnd(ps, i));
    SliceOfPrefix(text, hs.str, KeyEnd(ps, i), |Text(ps, i + 1)|);
  }

  lemma DescribedPair(hs: HStore, ps: seq<Pair>, i: nat)
    requires Describes(hs, ps) && i < |ps|
    ensures PairAt(hs, i) == ps[i]
  {
    DescribedBytes(hs, ps, i);
    DescribedAt(hs, ps, i);
    hide Stored, Describes, IsNull;
  }

  /** A datum decodes to the pairs its entries describe. */
  lemma DescribedDecodes(hs: HStore, ps: seq<Pair>)
    requires Describes(hs, ps) && Count(hs) == |ps|
    ensures Decode(hs) == ps
  {
    hide PairAt;
    forall i | 0 <= i < |ps| ensures PairAt(hs, i) == ps[i] {
      DescribedPair(hs, ps, i);
    }
    hide Describes;
  }

  /** The packed form decodes to the pairs it was made of. */
  lemma Unpack(ps: seq<Pair>)
    requires Fits(ps)
    ensures var hs := Pack(ps); Count(hs) == |ps| && |hs.entries| == 2 * |ps| && Decode(hs) == ps
  {
    PackDescribes(ps);
    assert Count(Pack(ps)) == |ps|;
    DescribedDecodes(Pack(ps), ps);
  }
}
