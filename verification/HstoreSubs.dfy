/** Assignment to one key of an hstore by merging the new pair into the packed value. */
module HstoreSubs {
  import opened Optional
  import opened ByteStrings
  import opened Hstore
  import opened HstoreBuilder

  // ---------- What the result should be ----------

  /** How many keys come before the given one. */
  function Rank(ps: seq<Pair>, key: Bytes, from: nat): (r: nat)
    requires from <= |ps|
    ensures from <= r <= |ps|
    ensures forall i | from <= i < r :: KeyLess(ps[i].key, key)
    ensures r < |ps| ==> !KeyLess(ps[r].key, key)
    decreases |ps| - from
  {
    if from < |ps| && KeyLess(ps[from].key, key) then Rank(ps, key, from + 1) else from
  }

  /** The first pair after the given key. */
  function After(ps: seq<Pair>, key: Bytes): (r: nat)
    ensures Rank(ps, key, 0) <= r <= |ps|
  {
    var k := Rank(ps, key, 0);
    if k < |ps| && ps[k].key == key then k + 1 else k
  }

  /** The pairs with one key set to a value. */
  function Updated(ps: seq<Pair>, p: Pair): seq<Pair> {
    ps[..Rank(ps, p.key, 0)] + [p] + ps[After(ps, p.key)..]
  }

  lemma UpdatedAt(ps: seq<Pair>, p: Pair, i: nat)
    requires Canonical(ps) && i < |Updated(ps, p)|
    ensures var u, k := Updated(ps, p)[i], Rank(ps, p.key, 0);
            if i < k then u == ps[i] && KeyLess(u.key, p.key)
            else if i == k then u == p
            else u == ps[i - k - 1 + After(ps, p.key)] && KeyLess(p.key, u.key)
  {
    var k, a := Rank(ps, p.key, 0), After(ps, p.key);
    if i > k {
      var j := i - k - 1 + a;
      KeyLessTotal(ps[k].key, p.key);
      if k < j {
        if KeyLess(p.key, ps[k].key) {
          KeyLessTransitive(p.key, ps[k].key, ps[j].key);
        }
      }
    }
  }

  /** The result is canonical again. */
  lemma UpdatedCanonical(ps: seq<Pair>, p: Pair)
    requires Canonical(ps)
    ensures Canonical(Updated(ps, p))
  {
    hide KeyLess;
    var u, k := Updated(ps, p), Rank(ps, p.key, 0);
    forall i, j | 0 <= i < j < |u| ensures KeyLess(u[i].key, u[j].key) {
      UpdatedAt(ps, p, i);
      UpdatedAt(ps, p, j);
      if i < k < j {
        KeyLessTransitive(u[i].key, p.key, u[j].key);
      }
    }
  }

  /** Pair (key, val) is among the pairs. */
  predicate Maps(ps: seq<Pair>, key: Bytes, val: Option<Bytes>) {
    exists i | 0 <= i < |ps| :: ps[i] == Pair(key, val)
  }

  /** As a map, the result is the old map updated at the one key. */
  lemma UpdatedMaps(ps: seq<Pair>, p: Pair, key: Bytes, val: Option<Bytes>)
    requires Canonical(ps)
    ensures Maps(Updated(ps, p), key, val) <==> if key == p.key then val == p.val else Maps(ps, key, val)
  {
    var u, k, a := Updated(ps, p), Rank(ps, p.key, 0), After(ps, p.key);
    KeyLessTotal(p.key, p.key);
    if key == p.key {
      assert u[k] == p;
    }
    if i :| 0 <= i < |u| && u[i] == Pair(key, val) {
      UpdatedAt(ps, p, i);
      if i != k {
        var j := if i < k then i else i - k - 1 + a;
        assert ps[j] == Pair(key, val);
      }
    }
    if j :| 0 <= j < |ps| && ps[j] == Pair(key, val) && key != p.key {
      var i := if j < k then j else j - a + k + 1;
      assert u[i] == ps[j];
    }
  }

  // ---------- The merge ----------

  datatype Result<T> = Done(value: T) | NullSubscript | TooLong | TooLarge

  /** The pairs written when the merge has read the first i, with or without the new one. */
  function Written(ps: seq<Pair>, p: Pair, i: nat, added: bool): seq<Pair>
    requires i <= |ps| && (added ==> After(ps, p.key) <= i)
  {
    if added then ps[..Rank(ps, p.key, 0)] + [p] + ps[After(ps, p.key)..i] else ps[..i]
  }

  lemma WrittenNext(ps: seq<Pair>, p: Pair, i: nat, added: bool)
    requires i < |ps| && (added ==> After(ps, p.key) <= i)
    ensures Written(ps, p, i, added) + [ps[i]] == Written(ps, p, i + 1, added)
  {
  }

  lemma WrittenNew(ps: seq<Pair>, p: Pair, i: nat)
    requires i == Rank(ps, p.key, 0)
    ensures Written(ps, p, i, false) + [p] == Written(ps, p, After(ps, p.key), true)
  {
  }

  lemma {:induction false} TextJoin(a: seq<Pair>, b: seq<Pair>, n: nat)
    requires n <= |b|
    ensures |Text(a + b, |a| + n)| == |Text(a, |a|)| + |Text(b, n)|
  {
    hide Text;
    if n == 0 {
      TextOfPrefix(a, a + b, |a|);
      NoText(b);
    } else {
      TextJoin(a, b, n - 1);
      TextStep(a + b, |a| + n - 1);
      TextStep(b, n - 1);
    }
  }

  /** What is written never takes more room than the old pairs and the new one. */
  lemma WrittenRoom(ps: seq<Pair>, p: Pair, i: nat, added: bool)
    requires i <= |ps| && (added ==> After(ps, p.key) <= i)
    ensures var w := Written(ps, p, i, added);
            |Text(w, |w|)| <= |Text(ps, i)| + if added then |p.key| + |ValBytes(p)| else 0
    ensures |Written(ps, p, i, added)| <= i + if added then 1 else 0
  {
    hide Text;
    if !added {
      TextOfPrefix(ps[..i], ps, i);
    } else {
      var k, a := Rank(ps, p.key, 0), After(ps, p.key);
      var left, right := ps[..k], ps[a..i];
      assert ps[..i] == ps[..a] + right;
      TextJoin(ps[..a], right, |right|);
      TextOfPrefix(ps[..i], ps, i);
      TextOfPrefix(ps[..a], ps, a);
      TextOfPrefix(left, ps, k);
      TextPrefix(ps, k, a);
      TextAround(left, p, right);
    }
  }

  lemma TextAround(left: seq<Pair>, p: Pair, right: seq<Pair>)
    ensures var all := left + [p] + right;
            |Text(all, |all|)| == |Text(left, |left|)| + |p.key| + |ValBytes(p)| + |Text(right, |right|)|
  {
    hide Text;
    TextJoin(left, [p], 1);
    TextStep([p], 0);
    TextJoin(left + [p], right, |right|);
  }

  lemma NoText(ps: seq<Pair>)
    ensures |Text(ps, 0)| == 0
  {
  }

  /** Key and value of a pair lie next to each other in the string area. */
  lemma Contiguous(hs: HStore, ps: seq<Pair>, i: nat)
    requires Describes(hs, ps) && i < |ps|
    ensures var off, klen, vlen := Off(hs, 2 * i), Len(hs, 2 * i), Len(hs, 2 * i + 1);
            && off + klen + vlen <= |hs.str|
            && klen == |ps[i].key| && vlen == |ValBytes(ps[i])|
            && hs.str[off..off + klen] == ps[i].key
            && hs.str[off..off + klen + vlen] == ps[i].key + ValBytes(ps[i])
            && (IsNull(hs.entries[2 * i + 1]) <==> ps[i].val.None?)
  {
    hide Text, Off, Len, IsNull, Entry;
    DescribedAt(hs, ps, i);
    TextAt(ps, |ps|, i);
    TextStep(ps, i);
    var text, a, b, c := Text(ps, |ps|), |Text(ps, i)|, KeyEnd(ps, i), |Text(ps, i + 1)|;
    SliceOfPrefix(text, hs.str, a, b);
    SliceOfPrefix(text, hs.str, a, c);
    assert text[a..c] == text[a..b] + text[b..c];
  }

  /** One old pair goes to the output. */
  method CopyPair(b: Builder, hs: HStore, i: nat, ghost ps: seq<Pair>, ghost w: seq<Pair>)
    requires b.Valid() && b.Has(w) && b.dent + 2 <= 2 * b.capacity
    requires Describes(hs, ps) && i < |ps|
    requires 8 * b.capacity + |Text(w, |w|)| + |ps[i].key| + |ValBytes(ps[i])| <= b.mem.Length
    modifies b`dent, b`dptr, b`words, b`text, b.mem
    ensures b.Valid() && b.Has(w + [ps[i]])
  {
    hide Text, Words, Describes, WordsIn, CharsIn, Off, Len, IsNull;
    Contiguous(hs, ps, i);
    PackNext(w, ps[i]);
    DescribedEntries(hs, ps, i);
    var off, klen, vlen := Off(hs, 2 * i), Len(hs, 2 * i), Len(hs, 2 * i + 1);
    b.CopyItem(hs.str[off..off + klen + vlen], klen, vlen, IsNull(hs.entries[2 * i + 1]));
  }

  /** The new pair goes to the output. */
  method AddPair(b: Builder, p: Pair, ghost w: seq<Pair>)
    requires b.Valid() && b.Has(w) && b.dent + 2 <= 2 * b.capacity
    requires 8 * b.capacity + |Text(w, |w|)| + |p.key| + |ValBytes(p)| <= b.mem.Length
    modifies b`dent, b`dptr, b`words, b`text, b.mem
    ensures b.Valid() && b.Has(w + [p])
  {
    hide Text, Words, WordsIn, CharsIn;
    PackNext(w, p);
    b.AddItem(p);
  }

  /** Where the merge stands. */
  ghost predicate At(b: Builder, ps: seq<Pair>, p: Pair, s1idx: nat, s2idx: nat, outcount: nat)
    reads b, b.mem
  {
    && b.Valid() && b.capacity == |ps| + 1 && s1idx <= |ps| && s2idx <= 1
    && b.mem.Length >= 8 * (|ps| + 1) + |Text(ps, |ps|)| + |p.key| + |ValBytes(p)|
    && (if s2idx == 0 then s1idx <= Rank(ps, p.key, 0) else After(ps, p.key) <= s1idx)
    && b.Has(Written(ps, p, s1idx, s2idx == 1)) && outcount == |Written(ps, p, s1idx, s2idx == 1)|
  }

  lemma RoomLeft(ps: seq<Pair>, p: Pair, i: nat, added: bool)
    requires i <= |ps| && (added ==> After(ps, p.key) <= i)
    ensures var w := Written(ps, p, i, added);
            && (!added ==> |w| <= |ps| && |Text(w, |w|)| <= |Text(ps, |ps|)|)
            && (i < |ps| ==>
                  && |w| <= |ps|
                  && |Text(w, |w|)| + |ps[i].key| + |ValBytes(ps[i])|
                     <= |Text(ps, |ps|)| + if added then |p.key| + |ValBytes(p)| else 0)
  {
    hide Text;
    WrittenRoom(ps, p, i, added);
    TextPrefix(ps, i, |ps|);
    if i < |ps| {
      TextStep(ps, i);
      TextPrefix(ps, i + 1, |ps|);
    }
  }

  /** HS_ADDITEM in the merge: the new pair comes where its key belongs, in place of the old one. */
  method AddStep(b: Builder, p: Pair, s1idx: nat, outcount: nat, ghost ps: seq<Pair>)
    requires At(b, ps, p, s1idx, 0, outcount) && s1idx == Rank(ps, p.key, 0)
    modifies b`dent, b`dptr, b`words, b`text, b.mem
    ensures At(b, ps, p, After(ps, p.key), 1, outcount + 1)
  {
    hide Text, Words, b.Valid, KeyLess;
    ghost var w := Written(ps, p, s1idx, false);
    RoomLeft(ps, p, s1idx, false);
    WordsLength(w, |w|);
    WrittenNew(ps, p, s1idx);
    BuilderAt(b, w);
    hide Written;
    AddPair(b, p, w);
  }

  /** HS_COPYITEM in the merge. */
  method CopyStep(b: Builder, hs: HStore, p: Pair, s1idx: nat, s2idx: nat, outcount: nat, ghost ps: seq<Pair>)
    requires Describes(hs, ps) && At(b, ps, p, s1idx, s2idx, outcount) && s1idx < |ps|
    requires s2idx == 0 ==> s1idx < Rank(ps, p.key, 0)
    modifies b`dent, b`dptr, b`words, b`text, b.mem
    ensures At(b, ps, p, s1idx + 1, s2idx, outcount + 1)
  {
    hide Text, Words, b.Valid, Describes, KeyLess;
    ghost var w := Written(ps, p, s1idx, s2idx == 1);
    RoomLeft(ps, p, s1idx, s2idx == 1);
    WordsLength(w, |w|);
    WrittenNext(ps, p, s1idx, s2idx == 1);
    BuilderAt(b, w);
    hide Written;
    CopyPair(b, hs, s1idx, ps, w);
  }

  lemma BuilderAt(b: Builder, w: seq<Pair>)
    requires b.Valid() && b.Has(w)
    ensures b.dent == |Words(w, |w|)|
  {
  }

  /** The comparison that decides which item comes next. */
  method Compare(hs: HStore, p: Pair, s1idx: nat, s2idx: nat, ghost ps: seq<Pair>) returns (difference: int)
    requires Describes(hs, ps) && Count(hs) == |ps| && s1idx <= |ps| && s2idx <= 1 && (s1idx < |ps| || s2idx == 0)
    ensures s1idx == |ps| ==> difference > 0
    ensures s2idx == 1 ==> difference < 0
    ensures s1idx < |ps| && s2idx == 0 ==>
              (difference < 0 <==> KeyLess(ps[s1idx].key, p.key)) && (difference == 0 <==> ps[s1idx].key == p.key)
  {
    hide Describes, Off, Len, IsNull, Text;
    if s1idx >= Count(hs) {
      difference := 1;
    } else if s2idx >= 1 {
      difference := -1;
    } else {
      Contiguous(hs, ps, s1idx);
      DescribedEntries(hs, ps, s1idx);
      var off, klen := Off(hs, 2 * s1idx), Len(hs, 2 * s1idx);
      difference := Difference(hs.str[off..off + klen], p.key);
    }
  }

  lemma RankAt(ps: seq<Pair>, key: Bytes, i: nat)
    requires i <= Rank(ps, key, 0)
    ensures i < |ps| ==> (KeyLess(ps[i].key, key) <==> i < Rank(ps, key, 0))
    ensures i == |ps| ==> i == Rank(ps, key, 0)
    ensures i == Rank(ps, key, 0) ==> After(ps, key) == if i < |ps| && ps[i].key == key then i + 1 else i
  {
  }

  /** The merge loop of hstore_subscript_assign. */
  method Merge(b: Builder, hs: HStore, p: Pair, ghost ps: seq<Pair>) returns (outcount: nat)
    requires Canonical(ps) && Describes(hs, ps) && Count(hs) == |ps|
    requires b.Valid() && b.words == [] && b.text == [] && b.capacity == |ps| + 1
    requires b.mem.Length >= 8 * (|ps| + 1) + |Text(ps, |ps|)| + |p.key| + |ValBytes(p)|
    modifies b, b.mem
    ensures b.Valid() && b.Has(Updated(ps, p)) && outcount == |Updated(ps, p)|
  {
    hide Text, Words, Describes, b.Valid, KeyLess, Canonical;
    NothingPacked(ps);
    var s1idx: nat, s2idx: nat := 0, 0;
    outcount := 0;
    while s1idx < Count(hs) || s2idx < 1
      invariant s1idx <= |ps| && s2idx <= 1 && (s2idx == 0 ==> s1idx <= Rank(ps, p.key, 0))
      invariant At(b, ps, p, s1idx, s2idx, outcount)
      decreases |ps| - s1idx + 1 - s2idx
    {
      hide At;
      var difference := Compare(hs, p, s1idx, s2idx, ps);
      if s2idx == 0 {
        RankAt(ps, p.key, s1idx);
      }
      if difference >= 0 {
        AddStep(b, p, s1idx, outcount, ps);
        s2idx := s2idx + 1;
        if difference == 0 {
          s1idx := s1idx + 1;
        }
      } else {
        CopyStep(b, hs, p, s1idx, s2idx, outcount, ps);
        s1idx := s1idx + 1;
      }
      outcount := outcount + 1;
    }
    assert ps[After(ps, p.key)..|ps|] == ps[After(ps, p.key)..];
  }

  /**
    hstore_subscript_assign.  None stands for a null container, a null subscript and a null
    replacement value.  ps are the pairs of the container.
   */
  method Assign(container: Option<HStore>, key: Option<Bytes>, val: Option<Bytes>, ghost ps: seq<Pair>)
    returns (r: Result<Builder>)
    requires container.None? ==> ps == []
    requires container.Some? ==>
               var hs := container.value;
               Canonical(ps) && Describes(hs, ps) && Count(hs) == |ps| && hs.varsize == DataSize(|ps|, |hs.str|)
    ensures r.NullSubscript? <==> key.None?
    ensures r.TooLong? <==> key.Some? && (|key.value| > 0x3FFF_FFFF || (val.Some? && |val.value| > 0x3FFF_FFFF))
    ensures r.TooLarge? <==> key.Some? && !r.TooLong? && NoRoom(container, Pair(key.value, val), |ps|)
    ensures r.Done? ==> fresh(r.value) && fresh(r.value.mem) && r.value.Is(Pack(Updated(ps, Pair(key.value, val))))
    ensures r.Done? ==> Canonical(Updated(ps, Pair(key.value, val))) && Fits(Updated(ps, Pair(key.value, val)))
  {
    if key.None? {
      return NullSubscript;
    }
    if |key.value| > 0x3FFF_FFFF || (val.Some? && |val.value| > 0x3FFF_FFFF) {
      return TooLong;
    }
    hide Text, Words, Describes, WordsIn, CharsIn, KeyLess;
    var p := Pair(key.value, val);
    UpdatedCanonical(ps, p);
    var vallen := if val.Some? then |val.value| else 0;
    if container.None? {
      OnlyPair(p);
      var out := HstorePairs([p], |key.value| + vallen);
      r := if out.Some? then Done(out.value) else TooLarge;
    } else {
      if DataSize(Count(container.value) + 1, container.value.varsize + |key.value| + vallen) > MAX_ALLOC {
        return TooLarge;
      }
      var b := Replaced(container.value, p, ps);
      r := Done(b);
    }
  }

  /** The space that the new value is given exceeds what can be allocated. */
  predicate NoRoom(container: Option<HStore>, p: Pair, count: nat) {
    DataSize(count + 1, (if container.Some? then container.value.varsize else 0) + |p.key| + |ValBytes(p)|) > MAX_ALLOC
  }

  /** The part of hstore_subscript_assign that builds the new value from a container. */
  method Replaced(hs: HStore, p: Pair, ghost ps: seq<Pair>) returns (b: Builder)
    requires Canonical(ps) && Describes(hs, ps) && Count(hs) == |ps| && hs.varsize == DataSize(|ps|, |hs.str|)
    requires !NoRoom(Some(hs), p, |ps|)
    ensures fresh(b) && fresh(b.mem) && b.Is(Pack(Updated(ps, p))) && Fits(Updated(ps, p))
  {
    hide Text, Words, Describes, WordsIn, CharsIn, KeyLess, Updated, Canonical, Flagged;
    TextInside(hs, ps);
    b := new Builder(Count(hs) + 1, hs.varsize + |p.key| + |ValBytes(p)|);
    var outcount := Merge(b, hs, p, ps);
    WordsLength(Updated(ps, p), |Updated(ps, p)|);
    b.Finalize(outcount);
  }

  lemma OnlyPair(p: Pair)
    ensures Updated([], p) == [p] && |Text([p], 1)| == |p.key| + |ValBytes(p)|
  {
    TextStep([p], 0);
  }

  lemma TextInside(hs: HStore, ps: seq<Pair>)
    requires Describes(hs, ps)
    ensures |Text(ps, |ps|)| <= |hs.str|
  {
  }
}
