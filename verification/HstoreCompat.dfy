/**
  The upgrade of hstore values in the layout of old versions, where an entry is two words:
  key length and value length in the first, null flag and position in the second.
  The layout of a little-endian machine that fills bit fields from the lowest bit is taken.
 */
module HstoreCompat {
  import opened CInts
  import opened Optional
  import opened ByteStrings
  import opened Hstore

  // ---------- The old layout ----------

  datatype OldEntry = OldEntry(keylen: nat, vallen: nat, isNull: bool, pos: nat)

  /** The two words as an old entry. */
  function OldOf(w0: nat, w1: nat): OldEntry {
    OldEntry(w0 % 0x1_0000, w0 / 0x1_0000 % 0x1_0000, w1 % 2 == 1, w1 / 2 % 0x8000_0000)
  }

  /** The entry array read as one of old entries. */
  function Olds(hs: HStore): seq<OldEntry>
    requires |hs.entries| == 2 * Count(hs)
  {
    seq(Count(hs), i requires 0 <= i < Count(hs) => OldOf(hs.entries[2 * i], hs.entries[2 * i + 1]))
  }

  /** What a value takes in the string area. */
  function OldValLen(e: OldEntry): nat {
    if e.isNull then 0 else e.vallen
  }

  /** The entries are 32-bit words as many as size_ says; the size is that of a varlena. */
  predicate IsDatum(hs: HStore) {
    && hs.size < 0x1_0000_0000 && |hs.entries| == 2 * Count(hs)
    && (forall j | 0 <= j < |hs.entries| :: hs.entries[j] < 0x1_0000_0000)
    && 8 <= hs.varsize < 0x4000_0000
    && (hs.varsize >= DataSize(Count(hs), 0) ==> hs.varsize == DataSize(Count(hs), |hs.str|))
  }

  /** The end of the string data after the first n entries, if they are contiguous. */
  function OldEnd(es: seq<OldEntry>, n: nat): nat
    requires n <= |es|
  {
    if n == 0 then 0 else OldEnd(es, n - 1) + es[n - 1].keylen + OldValLen(es[n - 1])
  }

  predicate InPlace(es: seq<OldEntry>, i: nat)
    requires i < |es|
  {
    es[i].pos == OldEnd(es, i)
  }

  predicate NotShorter(es: seq<OldEntry>, i: nat)
    requires 0 < i < |es|
  {
    es[i - 1].keylen <= es[i].keylen
  }

  /** Contiguous entries with key lengths that do not decrease. */
  predicate Regular(es: seq<OldEntry>) {
    (forall i | 0 <= i < |es| :: InPlace(es, i)) && (forall i | 0 < i < |es| :: NotShorter(es, i))
  }

  /** A value in the old layout that lies inside its datum. */
  predicate IsOld(hs: HStore) {
    && IsDatum(hs) && hs.size < 0x1000_0000
    && (hs.size > 0 ==> Regular(Olds(hs)) && DataSize(hs.size, OldEnd(Olds(hs), hs.size)) <= hs.varsize)
  }

  /** What an old value means. */
  function OldPair(e: OldEntry, str: Bytes): Pair {
    var v := e.pos + e.keylen;
    if v + OldValLen(e) <= |str| then
      Pair(str[e.pos..v], if e.isNull then None else Some(str[v..v + e.vallen]))
    else Pair([], None)
  }

  function OldPairs(es: seq<OldEntry>, str: Bytes): seq<Pair> {
    seq(|es|, i requires 0 <= i < |es| => OldPair(es[i], str))
  }

  function OldDecode(hs: HStore): seq<Pair>
    requires |hs.entries| == 2 * Count(hs)
  {
    OldPairs(Olds(hs), hs.str)
  }

  // ---------- Validity tests ----------

  /** The loop over positions; the result is the wrapped end of the string data. */
  method Positions(es: seq<OldEntry>) returns (ok: bool, lastpos: int)
    requires forall i | 0 <= i < |es| :: es[i].keylen < 0x1_0000 && es[i].vallen < 0x1_0000 && es[i].pos < 0x8000_0000
    ensures ok <==> forall i | 0 <= i < |es| :: InPlace(es, i)
    ensures ok ==> lastpos == ToInt32(OldEnd(es, |es|)) && OldEnd(es, |es|) < 0x8000_0000 + 0x2_0000
  {
    lastpos := 0;
    for i := 0 to |es|
      invariant lastpos == ToInt32(OldEnd(es, i))
      invariant forall j | 0 <= j < i :: InPlace(es, j)
      invariant OldEnd(es, i) < 0x8000_0000 + 0x2_0000
    {
      if es[i].pos != lastpos {
        Wrapped(OldEnd(es, i), es[i].pos);
        assert !InPlace(es, i);
        return false, lastpos;
      }
      lastpos := ToInt32(lastpos + es[i].keylen + OldValLen(es[i]));
    }
    ok := true;
  }

  lemma Wrapped(end: nat, pos: nat)
    requires end < 0x8000_0000 + 0x2_0000 && pos < 0x8000_0000
    ensures pos == ToInt32(end) <==> pos == end
  {
  }

  /** hstoreValidOldFormat: 0 is not valid, 1 valid with room left over, 2 exactly valid. */
  method ValidOldFormat(hs: HStore) returns (r: nat)
    requires IsDatum(hs)
    ensures r != 0 <==> IsOld(hs)
    ensures r <= 2
    ensures r == 2 && hs.size > 0 ==> hs.varsize == DataSize(hs.size, OldEnd(Olds(hs), hs.size))
  {
    hide InPlace, NotShorter, OldEnd, OldOf;
    if hs.size >= NEWVERSION {
      return 0;
    }
    var count := hs.size;
    if count == 0 {
      return 2;
    }
    if count > 0xFFF_FFFF {
      return 0;
    }
    if DataSize(count, 0) > hs.varsize {
      return 0;
    }
    var es := Olds(hs);
    OldRanges(hs);
    if es[0].pos != 0 {
      FirstPos(es);
      return 0;
    }
    for i := 1 to count
      invariant forall j | 0 < j < i :: NotShorter(es, j)
    {
      if !NotShorter(es, i) {
        return 0;
      }
    }
    var ok, lastpos := Positions(es);
    if !ok {
      return 0;
    }
    // The sum is taken and compared as an unsigned number.
    var vsize := (8 * count + 8 + lastpos) % 0x1_0000_0000;
    NoWrap(count, OldEnd(es, count), lastpos, hs.varsize);
    if vsize > hs.varsize {
      return 0;
    }
    r := if vsize != hs.varsize then 1 else 2;
  }

  lemma OldRanges(hs: HStore)
    requires IsDatum(hs)
    ensures var es := Olds(hs);
            forall i | 0 <= i < |es| :: es[i].keylen < 0x1_0000 && es[i].vallen < 0x1_0000 && es[i].pos < 0x8000_0000
  {
  }

  lemma FirstPos(es: seq<OldEntry>)
    requires es != [] && es[0].pos != 0
    ensures !Regular(es)
  {
    assert !InPlace(es, 0);
  }

  /** Wrap-around of the end position cannot make an oversized value look small. */
  lemma NoWrap(count: nat, end: nat, lastpos: int, varsize: nat)
    requires DataSize(count, 0) <= varsize < 0x4000_0000
    requires end < 0x8000_0000 + 0x2_0000 && lastpos == ToInt32(end)
    ensures var vsize := (8 * count + 8 + lastpos) % 0x1_0000_0000;
            (vsize <= varsize <==> DataSize(count, end) <= varsize)
            && (vsize <= varsize ==> vsize == DataSize(count, end))
  {
  }

  predicate Ascends(entries: seq<nat>, i: nat)
    requires 0 < i < |entries|
  {
    !IsFirst(entries[i]) && EndPos(entries[i - 1]) <= EndPos(entries[i])
  }

  predicate KeyFollows(hs: HStore, i: nat)
    requires 0 < 2 * i < |hs.entries|
  {
    Len(hs, 2 * (i - 1)) <= Len(hs, 2 * i) && !IsNull(hs.entries[2 * i])
  }

  /** The string length by the last entry. */
  function LastEnd(hs: HStore): nat
    requires |hs.entries| == 2 * Count(hs)
  {
    if Count(hs) > 0 then EndPos(hs.entries[2 * Count(hs) - 1]) else 0
  }

  /** A value of the new layout without its version flag. */
  predicate IsUnflagged(hs: HStore)
    requires |hs.entries| == 2 * Count(hs)
  {
    Count(hs) > 0 ==>
      && IsFirst(hs.entries[0]) && DataSize(Count(hs), LastEnd(hs)) <= hs.varsize
      && (forall i | 0 < i < 2 * Count(hs) :: Ascends(hs.entries, i))
      && (forall i | 0 < i < Count(hs) :: KeyFollows(hs, i))
  }

  /** hstoreValidNewFormat. */
  method ValidNewFormat(hs: HStore) returns (r: nat)
    requires IsDatum(hs)
    ensures r != 0 <==> hs.size >= NEWVERSION || IsUnflagged(hs)
    ensures r <= 2
  {
    hide Ascends, KeyFollows, IsFirst, EndPos;
    var count, buflen := Count(hs), LastEnd(hs);
    var vsize := DataSize(count, buflen);
    if hs.size >= NEWVERSION || count == 0 {
      return 2;
    }
    if !IsFirst(hs.entries[0]) || vsize > hs.varsize {
      return 0;
    }
    for i := 1 to 2 * count
      invariant forall j | 0 < j < i :: Ascends(hs.entries, j)
    {
      if !Ascends(hs.entries, i) {
        return 0;
      }
    }
    for i := 1 to count
      invariant forall j | 0 < j < i :: KeyFollows(hs, j)
    {
      if !KeyFollows(hs, i) {
        return 0;
      }
    }
    r := if vsize != hs.varsize then 1 else 2;
  }

  // ---------- The upgrade ----------

  /** HS_SETCOUNT and HS_FIXSIZE. */
  function Fixed(hs: HStore, entries: seq<nat>): (r: HStore)
    requires |hs.entries| == 2 * Count(hs) && |entries| == |hs.entries|
    ensures Count(r) == Count(hs) && |r.entries| == 2 * Count(r)
  {
    var n := LastEnd(hs.(entries := entries));
    HStore(DataSize(Count(hs), n), Count(hs) + NEWVERSION, entries, if n <= |hs.str| then hs.str[..n] else hs.str)
  }

  function KeyWord(e: OldEntry): nat {
    (e.pos + e.keylen) % 0x4000_0000
  }

  function ValWord(e: OldEntry): nat {
    (e.pos + e.keylen + OldValLen(e)) % 0x4000_0000 + if e.isNull then ISNULL else 0
  }

  /** The new entries for the first n old ones, with or without the flag on the first. */
  predicate Rewritten(es: seq<OldEntry>, words: seq<nat>, n: nat, flagged: bool)
    requires n <= |es| && |words| == 2 * |es|
  {
    forall i | 0 <= i < n ::
      && words[2 * i] == KeyWord(es[i]) + (if i == 0 && flagged then ISFIRST else 0)
      && words[2 * i + 1] == ValWord(es[i])
  }

  /** One round of the loop: the words of entry i. */
  method OverwriteOne(words: array<nat>, i: nat, e: OldEntry)
    requires 2 * i + 1 < words.Length
    modifies words
    ensures words[..] == old(words[..])[2 * i := KeyWord(e)][2 * i + 1 := ValWord(e)]
  {
    var vallen := if e.isNull then 0 else e.vallen;
    words[2 * i] := (e.pos + e.keylen) % 0x4000_0000;
    words[2 * i + 1] := (e.pos + e.keylen + vallen) % 0x4000_0000 + if e.isNull then ISNULL else 0;
  }

  /** The loop that overwrites the entry array in place. */
  method Overwrite(words: array<nat>, ghost es: seq<OldEntry>)
    requires words.Length == 2 * |es|
    requires forall i | 0 <= i < |es| :: es[i] == OldOf(words[2 * i], words[2 * i + 1])
    modifies words
    ensures Rewritten(es, words[..], |es|, true)
  {
    hide OldOf;
    var count := words.Length / 2;
    for i := 0 to count
      invariant Rewritten(es, words[..], i, false)
      invariant forall k | i <= k < |es| :: es[k] == OldOf(words[2 * k], words[2 * k + 1])
    {
      var e := OldOf(words[2 * i], words[2 * i + 1]);
      hide KeyWord, ValWord;
      OverwriteOne(words, i, e);
    }
    if count > 0 {
      words[0] := words[0] + ISFIRST;
    }
  }

  /** The value is small and its first word has the bit that flags the first entry of the new layout. */
  predicate LooksNew(hs: HStore)
    requires |hs.entries| == 2 * Count(hs)
  {
    hs.varsize < 32768 && Count(hs) > 0 && IsFirst(hs.entries[0])
  }

  /** A small value in the old layout whose first pair is null but has a large stored value length. */
  predicate Mistaken(hs: HStore)
    requires |hs.entries| == 2 * Count(hs)
  {
    hs.varsize < 32768 && Count(hs) > 0 && Olds(hs)[0].isNull && Olds(hs)[0].vallen >= 32768
  }

  /**
    hstoreUpgrade: None is an error.  A value of the old layout keeps its pairs and gets an
    exact size unless it is mistaken for one of the new layout.
   */
  method Upgrade(hs: HStore) returns (r: Option<HStore>)
    requires IsDatum(hs)
    ensures hs.size >= NEWVERSION ==> r == Some(hs)
    ensures r.None? <==> hs.size < NEWVERSION && !LooksNew(hs) && !IsOld(hs) && !IsUnflagged(hs)
    ensures r.Some? ==>
              |r.value.entries| == 2 * Count(r.value) && Count(r.value) == Count(hs) && r.value.size >= NEWVERSION
    ensures hs.size < NEWVERSION && r.Some? && (LooksNew(hs) || !IsOld(hs)) ==> r.value == Fixed(hs, hs.entries)
    ensures hs.size < NEWVERSION && IsUnflagged(hs) && !IsOld(hs) ==> Decode(r.value) == Decode(hs)
    ensures IsOld(hs) ==> (Decode(r.value) == OldDecode(hs) <==> !Mistaken(hs))
    ensures IsOld(hs) && !Mistaken(hs) ==> r.value.varsize == DataSize(hs.size, OldEnd(Olds(hs), Count(hs)))
  {
    hide Decode, OldDecode, IsUnflagged, Regular, IsFirst, OldEnd;
    if hs.size >= NEWVERSION {
      return Some(hs);
    }
    if IsUnflagged(hs) {
      UnflaggedDecodes(hs);
    }
    if hs.size == 0 || LooksNew(hs) {
      r := Some(Fixed(hs, hs.entries));
      if IsOld(hs) {
        TakenForNew(hs);
      }
      return;
    }
    var validNew := ValidNewFormat(hs);
    var validOld := ValidOldFormat(hs);
    if validOld == 0 {
      if validNew != 0 {
        return Some(Fixed(hs, hs.entries));
      }
      return None;
    }
    var words := new nat[|hs.entries|](i requires 0 <= i < |hs.entries| => hs.entries[i]);
    Overwrite(words, Olds(hs));
    r := Some(Fixed(hs, words[..]));
    NotTaken(hs);
    RewrittenDecodes(hs, words[..]);
  }

  // ---------- Why it keeps the pairs ----------

  lemma {:induction false} EndsInside(hs: HStore, i: nat, j: nat)
    requires |hs.entries| == 2 * Count(hs) && IsUnflagged(hs) && i <= j < 2 * Count(hs)
    ensures EndPos(hs.entries[i]) <= EndPos(hs.entries[j])
    decreases j - i
  {
    hide EndPos, IsFirst;
    if i < j {
      EndsInside(hs, i, j - 1);
      assert Ascends(hs.entries, j);
    }
  }

  lemma UnflaggedAt(hs: HStore, j: nat)
    requires IsDatum(hs) && IsUnflagged(hs) && j < 2 * Count(hs)
    ensures Stored(Fixed(hs, hs.entries), j) == Stored(hs, j)
  {
    var last := 2 * Count(hs) - 1;
    EndsInside(hs, j, last);
    if j > 0 {
      assert Ascends(hs.entries, j);
    }
    var r, n, off, end := Fixed(hs, hs.entries), LastEnd(hs), Off(hs, j), EndPos(hs.entries[j]);
    assert Off(r, j) == off && Len(r, j) == Len(hs, j) == end - off;
    assert end <= n <= |hs.str| && r.str == hs.str[..n];
    SliceOfTake(hs.str, n, off, end);
  }

  lemma SliceOfTake(s: Bytes, n: nat, from: nat, to: nat)
    requires from <= to <= n <= |s|
    ensures s[..n][from..to] == s[from..to]
  {
  }

  /** A value of the new layout without its flag keeps its pairs. */
  lemma UnflaggedDecodes(hs: HStore)
    requires IsDatum(hs) && IsUnflagged(hs)
    ensures Decode(Fixed(hs, hs.entries)) == Decode(hs)
  {
    hide Stored, IsUnflagged;
    var r := Fixed(hs, hs.entries);
    forall i | 0 <= i < Count(hs) ensures PairAt(r, i) == PairAt(hs, i) {
      UnflaggedAt(hs, 2 * i);
      UnflaggedAt(hs, 2 * i + 1);
    }
  }

  lemma HighBit(w: nat)
    requires w < 0x1_0000_0000
    ensures IsFirst(w) <==> w / 0x1_0000 % 0x1_0000 >= 32768
  {
  }

  lemma {:induction false} EndsAscend(es: seq<OldEntry>, i: nat, n: nat)
    requires i <= n <= |es|
    ensures OldEnd(es, i) <= OldEnd(es, n)
  {
    if i < n {
      EndsAscend(es, i, n - 1);
    }
  }

  /** An old value that looks new has a null first value with a large stored length. */
  lemma NotTaken(hs: HStore)
    requires IsOld(hs) && hs.size > 0
    ensures LooksNew(hs) <==> Mistaken(hs)
  {
    hide IsFirst, OldEnd, Regular;
    var es := Olds(hs);
    HighBit(hs.entries[0]);
    EndsAscend(es, 1, |es|);
    FirstEnd(es);
  }

  lemma FirstEnd(es: seq<OldEntry>)
    requires es != []
    ensures OldEnd(es, 1) == es[0].keylen + OldValLen(es[0])
  {
    assert OldEnd(es, 0) == 0;
  }

  /** The first value of such a value is null, but reads as present in the new layout. */
  lemma NullLost(hs: HStore)
    requires IsOld(hs) && hs.size > 0 && Mistaken(hs)
    ensures OldPair(Olds(hs)[0], hs.str).val == None && !IsNull(hs.entries[1])
  {
    var es := Olds(hs);
    assert InPlace(es, 0);
    assert hs.entries[1] == 1;
  }

  lemma SmallCount(hs: HStore)
    requires IsOld(hs)
    ensures Count(hs) == hs.size
  {
  }

  lemma FirstDiffers(hs: HStore, r: HStore)
    requires |hs.entries| == 2 * Count(hs) && |r.entries| == 2 * Count(r) && Count(hs) == Count(r) > 0
    requires OldPair(Olds(hs)[0], hs.str).val == None && !IsNull(r.entries[1])
    ensures Decode(r) != OldDecode(hs)
  {
    hide Count, OldPair, Stored, IsNull, OldOf;
    assert Decode(r)[0] == PairAt(r, 0) && OldDecode(hs)[0] == OldPair(Olds(hs)[0], hs.str);
  }

  /** Such a value loses the null, whatever else becomes of it. */
  lemma TakenForNew(hs: HStore)
    requires IsOld(hs) && (hs.size == 0 || LooksNew(hs))
    ensures var r := Fixed(hs, hs.entries);
            && (Decode(r) == OldDecode(hs) <==> !Mistaken(hs))
            && (!Mistaken(hs) ==> r.varsize == DataSize(hs.size, OldEnd(Olds(hs), Count(hs))))
  {
    hide Count, Regular, OldPair, Stored, IsNull, OldOf, PairAt;
    SmallCount(hs);
    if hs.size > 0 {
      NotTaken(hs);
      NullLost(hs);
      FirstDiffers(hs, Fixed(hs, hs.entries));
    }
  }

  /** The pair a => NULL in the old layout, with a stored value length of 32768. */
  function MistakenValue(): HStore {
    HStore(17, 1, [0x8000_0001, 1], [97])
  }

  lemma MistakenIsOld()
    ensures IsOld(MistakenValue()) && Mistaken(MistakenValue())
    ensures OldDecode(MistakenValue()) == [Pair([97], None)]
  {
    var hs := MistakenValue();
    var es := Olds(hs);
    assert es == [OldEntry(1, 32768, true, 0)];
    assert OldEnd(es, 0) == 0 && InPlace(es, 0);
    assert OldEnd(es, 1) == 1;
    assert hs.str[0..1] == [97];
  }

  /** The upgrade of that value makes the null a string. */
  method UpgradeMistaken() returns (r: Option<HStore>)
    ensures r.Some? && |r.value.entries| == 2 * Count(r.value) && Decode(r.value) != [Pair([97], None)]
  {
    hide Decode, OldDecode, Mistaken, IsUnflagged, Regular;
    MistakenIsOld();
    r := Upgrade(MistakenValue());
  }

  /** Contiguous entries over a string area that holds all of them. */
  predicate Inside(es: seq<OldEntry>, str: Bytes) {
    (forall i | 0 <= i < |es| :: InPlace(es, i)) && OldEnd(es, |es|) <= |str| < 0x4000_0000
  }

  lemma OldAt(es: seq<OldEntry>, str: Bytes, i: nat)
    requires Inside(es, str) && i < |es|
    ensures var from, p := OldEnd(es, i), OldPairs(es, str)[i];
            && from + es[i].keylen + OldValLen(es[i]) == OldEnd(es, i + 1) <= |str|
            && es[i].pos == from
            && p.key == str[from..from + es[i].keylen]
            && ValBytes(p) == str[from + es[i].keylen..OldEnd(es, i + 1)]
            && (p.val.None? <==> es[i].isNull)
  {
    assert InPlace(es, i);
    EndsAscend(es, i + 1, |es|);
    assert OldEnd(es, i + 1) == OldEnd(es, i) + es[i].keylen + OldValLen(es[i]);
    hide OldEnd;
  }

  lemma ThreePieces(s: Bytes, a: nat, b: nat, c: nat)
    requires a <= b <= c <= |s|
    ensures s[..c] == s[..a] + s[a..b] + s[b..c]
  {
  }

  lemma {:induction false} OldText(es: seq<OldEntry>, str: Bytes, n: nat)
    requires Inside(es, str) && n <= |es|
    ensures OldEnd(es, n) <= |str| && Text(OldPairs(es, str), n) == str[..OldEnd(es, n)]
  {
    hide OldPair, Inside;
    if n == 0 {
      assert Text(OldPairs(es, str), 0) == [];
    } else {
      OldText(es, str, n - 1);
      OldAt(es, str, n - 1);
      hide OldEnd, OldPairs;
      ThreePieces(str, OldEnd(es, n - 1), OldEnd(es, n - 1) + es[n - 1].keylen, OldEnd(es, n));
      assert n - 1 + 1 == n;
    }
  }

  /** Where the pairs of an old value end in the packed form. */
  lemma OldPositions(es: seq<OldEntry>, str: Bytes, i: nat)
    requires Inside(es, str) && i < |es|
    ensures var ps := OldPairs(es, str);
            && |ps| == |es| && KeyEnd(ps, i) == es[i].pos + es[i].keylen < 0x4000_0000
            && |Text(ps, i + 1)| == es[i].pos + es[i].keylen + OldValLen(es[i]) == OldEnd(es, i + 1) < 0x4000_0000
            && (ps[i].val.None? <==> es[i].isNull)
  {
    hide Text, OldEnd;
    OldAt(es, str, i);
    OldText(es, str, i);
    OldText(es, str, i + 1);
  }

  lemma RewrittenAt(es: seq<OldEntry>, str: Bytes, words: seq<nat>, i: nat)
    requires Inside(es, str) && |words| == 2 * |es| && Rewritten(es, words, |es|, true) && i < |es|
    ensures var ps := OldPairs(es, str);
            && |ps| == |es| && Entry(words[2 * i], KeyEnd(ps, i), i == 0, false)
            && Entry(words[2 * i + 1], |Text(ps, i + 1)|, false, ps[i].val.None?)
  {
    hide Text, OldPairs, OldEnd, Inside, KeyEnd;
    OldPositions(es, str, i);
    Bits(es[i].pos + es[i].keylen);
    Bits(es[i].pos + es[i].keylen + OldValLen(es[i]));
    hide IsFirst, IsNull;
  }

  lemma RewrittenEntries(es: seq<OldEntry>, str: Bytes, words: seq<nat>)
    requires Inside(es, str) && |words| == 2 * |es| && Rewritten(es, words, |es|, true)
    ensures var ps := OldPairs(es, str);
            && |ps| == |es|
            && (forall i | 0 <= i < |ps| :: Entry(words[2 * i], KeyEnd(ps, i), i == 0, false))
            && (forall i | 0 <= i < |ps| :: Entry(words[2 * i + 1], |Text(ps, i + 1)|, false, ps[i].val.None?))
  {
    hide Text, Rewritten, OldEnd, Inside, KeyEnd, Entry, OldPair;
    var ps := OldPairs(es, str);
    forall i | 0 <= i < |ps|
      ensures Entry(words[2 * i], KeyEnd(ps, i), i == 0, false)
      ensures Entry(words[2 * i + 1], |Text(ps, i + 1)|, false, ps[i].val.None?)
    {
      RewrittenAt(es, str, words, i);
    }
  }

  lemma RewrittenDescribes(hs: HStore, words: seq<nat>)
    requires |hs.entries| == 2 * Count(hs) && Count(hs) > 0 && Inside(Olds(hs), hs.str)
    requires |words| == |hs.entries| && Rewritten(Olds(hs), words, Count(hs), true)
    ensures Describes(Fixed(hs, words), OldDecode(hs))
    ensures LastEnd(hs.(entries := words)) == OldEnd(Olds(hs), Count(hs))
  {
    hide Text, KeyEnd, Rewritten, OldPairs, OldEnd, Inside, IsFirst, IsNull, EndPos, OldOf;
    var es, n := Olds(hs), Count(hs);
    RewrittenEntries(es, hs.str, words);
    RewrittenAt(es, hs.str, words, n - 1);
    OldPositions(es, hs.str, n - 1);
    OldText(es, hs.str, n);
  }

  lemma OldIsInside(hs: HStore)
    requires IsOld(hs) && hs.size > 0
    ensures Inside(Olds(hs), hs.str)
  {
    hide InPlace, NotShorter, OldEnd, OldOf;
  }

  lemma RewrittenDecodes(hs: HStore, words: seq<nat>)
    requires IsOld(hs) && hs.size > 0 && |words| == |hs.entries| && Rewritten(Olds(hs), words, Count(hs), true)
    ensures var r := Fixed(hs, words);
            Decode(r) == OldDecode(hs) && r.varsize == DataSize(hs.size, OldEnd(Olds(hs), Count(hs)))
  {
    hide Describes, Inside, Rewritten, Decode, OldDecode, OldEnd, Regular, LastEnd;
    OldIsInside(hs);
    RewrittenDescribes(hs, words);
    assert |OldDecode(hs)| == Count(hs) by { OldCount(hs); }
    DescribedDecodes(Fixed(hs, words), OldDecode(hs));
  }

  lemma OldCount(hs: HStore)
    requires |hs.entries| == 2 * Count(hs)
    ensures |OldDecode(hs)| == Count(hs)
  {
  }
}
