/**
  An hstore under construction: one block of memory with the entries in front and the
  string area behind them, written item by item and finalized in place.
 */
module HstoreBuilder {
  import opened Optional
  import opened ByteStrings
  import opened Hstore

  /** A byte of memory: part k of an entry, or a character. */
  datatype Cell = Part(word: nat, k: nat) | Char(b: byte)

  predicate WordIn(mem: seq<Cell>, i: nat, w: nat) {
    4 * i + 4 <= |mem| && forall k | 0 <= k < 4 :: mem[4 * i + k] == Part(w, k)
  }

  predicate WordsIn(mem: seq<Cell>, words: seq<nat>) {
    forall i | 0 <= i < |words| :: WordIn(mem, i, words[i])
  }

  predicate CharsIn(mem: seq<Cell>, base: nat, s: Bytes) {
    base + |s| <= |mem| && forall k | 0 <= k < |s| :: mem[base + k] == Char(s[k])
  }

  /** The memory behind the header holds the entries and the string area of a datum. */
  predicate Holds(mem: seq<Cell>, hs: HStore) {
    WordsIn(mem, hs.entries) && CharsIn(mem, 4 * |hs.entries|, hs.str)
  }

  /** mem with the cells from position at on replaced. */
  predicate Overwritten(old_: seq<Cell>, new_: seq<Cell>, at: nat, cells: seq<Cell>) {
    && |new_| == |old_| && at + |cells| <= |old_|
    && (forall k | 0 <= k < |cells| :: new_[at + k] == cells[k])
    && (forall i | 0 <= i < |old_| && !(at <= i < at + |cells|) :: new_[i] == old_[i])
  }

  function Parts(w: nat): seq<Cell> {
    [Part(w, 0), Part(w, 1), Part(w, 2), Part(w, 3)]
  }

  function Chars(s: Bytes): (r: seq<Cell>)
    ensures |r| == |s|
  {
    seq(|s|, i requires 0 <= i < |s| => Char(s[i]))
  }

  lemma WordsAppend(m: seq<Cell>, n: seq<Cell>, words: seq<nat>, w: nat, base: nat, s: Bytes)
    requires WordsIn(m, words) && CharsIn(m, base, s) && 4 * |words| + 4 <= base
    requires Overwritten(m, n, 4 * |words|, Parts(w))
    ensures WordsIn(n, words + [w]) && CharsIn(n, base, s)
  {
    forall i | 0 <= i <= |words| ensures WordIn(n, i, (words + [w])[i]) {
      if i < |words| {
        assert WordIn(m, i, words[i]);
        forall k | 0 <= k < 4 ensures n[4 * i + k] == Part(words[i], k) {
          assert n[4 * i + k] == m[4 * i + k];
        }
      } else {
        forall k | 0 <= k < 4 ensures n[4 * i + k] == Part(w, k) {
          assert n[4 * |words| + k] == Parts(w)[k];
        }
      }
    }
    forall k | 0 <= k < |s| ensures n[base + k] == Char(s[k]) {
      assert n[base + k] == m[base + k];
    }
  }

  lemma CharsAppend(m: seq<Cell>, n: seq<Cell>, words: seq<nat>, base: nat, s: Bytes, t: Bytes)
    requires WordsIn(m, words) && CharsIn(m, base, s) && 4 * |words| <= base
    requires Overwritten(m, n, base + |s|, Chars(t))
    ensures WordsIn(n, words) && CharsIn(n, base, s + t)
  {
    forall i | 0 <= i < |words| ensures WordIn(n, i, words[i]) {
      assert WordIn(m, i, words[i]);
      forall k | 0 <= k < 4 ensures n[4 * i + k] == Part(words[i], k) {
        assert n[4 * i + k] == m[4 * i + k];
      }
    }
    forall k | 0 <= k < |s + t| ensures n[base + k] == Char((s + t)[k]) {
      if k >= |s| {
        assert n[base + |s| + (k - |s|)] == Chars(t)[k - |s|];
      }
    }
  }

  lemma FirstFlagged(m: seq<Cell>, n: seq<Cell>, words: seq<nat>, base: nat, s: Bytes)
    requires WordsIn(m, words) && CharsIn(m, base, s) && 4 * |words| <= base && words != []
    requires Overwritten(m, n, 0, Parts(words[0] + ISFIRST))
    ensures WordsIn(n, Flagged(words)) && CharsIn(n, base, s)
  {
    forall i | 0 <= i < |words| ensures WordIn(n, i, Flagged(words)[i]) {
      assert WordIn(m, i, words[i]);
      forall k | 0 <= k < 4 ensures n[4 * i + k] == Part(Flagged(words)[i], k) {
        if i == 0 {
          assert n[0 + k] == Parts(words[0] + ISFIRST)[k];
        } else {
          assert n[4 * i + k] == m[4 * i + k];
        }
      }
    }
    forall k | 0 <= k < |s| ensures n[base + k] == Char(s[k]) {
      assert n[base + k] == m[base + k];
    }
  }

  /** The string area moves down over unused entries; the entries in use stay. */
  lemma MovedDown(m: seq<Cell>, n: seq<Cell>, words: seq<nat>, base: nat, s: Bytes)
    requires WordsIn(m, words) && CharsIn(m, base, s) && 4 * |words| <= base
    requires Overwritten(m, n, 4 * |words|, m[base..base + |s|])
    ensures WordsIn(n, words) && CharsIn(n, 4 * |words|, s)
  {
    forall i | 0 <= i < |words| ensures WordIn(n, i, words[i]) {
      assert WordIn(m, i, words[i]);
      forall k | 0 <= k < 4 ensures n[4 * i + k] == Part(words[i], k) {
        assert n[4 * i + k] == m[4 * i + k];
      }
    }
    forall k | 0 <= k < |s| ensures n[4 * |words| + k] == Char(s[k]) {
      assert n[4 * |words| + k] == m[base..base + |s|][k] == m[base + k];
    }
  }

  lemma CharsInside(m: seq<Cell>, base: nat, s: Bytes)
    requires CharsIn(m, base, s)
    ensures base + |s| <= |m|
  {
  }

  lemma {:induction false} TextOfPrefix(ps: seq<Pair>, more: seq<Pair>, n: nat)
    requires n <= |ps| && ps <= more
    ensures Text(more, n) == Text(ps, n) && Words(more, n) == Words(ps, n)
  {
    if n > 0 {
      TextOfPrefix(ps, more, n - 1);
    }
  }

  /** The packed form grows by the two entries and the bytes of one more pair. */
  lemma PackNext(ps: seq<Pair>, p: Pair)
    ensures var n, more := |ps|, ps + [p];
            && Text(more, n + 1) == Text(ps, n) + p.key + ValBytes(p)
            && Words(more, n + 1) == Words(ps, n) + [|Text(ps, n)| + |p.key|, |Text(more, n + 1)| + NullFlag(p)]
  {
    TextOfPrefix(ps, ps + [p], |ps|);
  }

  class Builder {
    const capacity: nat
    const mem: array<Cell>
    var varsize: nat
    var size: nat
    var dent: nat
    var dptr: nat
    ghost var words: seq<nat>
    ghost var text: Bytes

    ghost predicate Valid()
      reads this, mem
    {
      && mem.Length + 8 <= MAX_ALLOC && size == capacity + NEWVERSION && capacity < 0x1000_0000
      && dent == |words| <= 2 * capacity && dptr == |text| && 8 * capacity + dptr <= mem.Length
      && WordsIn(mem[..], words) && CharsIn(mem[..], 8 * capacity, text)
    }

    /** The entries and the string area of these pairs have been written. */
    ghost predicate Has(ps: seq<Pair>)
      reads this
    {
      words == Words(ps, |ps|) && text == Text(ps, |ps|)
    }

    /** The finished value is this datum. */
    ghost predicate Is(hs: HStore)
      reads this, mem
    {
      varsize == hs.varsize && size == hs.size && Holds(mem[..], hs)
    }

    /** palloc of CALCDATASIZE(count, lenstr) bytes, SET_VARSIZE and HS_SETCOUNT. */
    constructor (count: nat, lenstr: nat)
      requires DataSize(count, lenstr) <= MAX_ALLOC
      ensures Valid() && fresh(mem) && capacity == count && mem.Length == 8 * count + lenstr
      ensures words == [] && text == [] && varsize == DataSize(count, lenstr)
    {
      capacity := count;
      mem := new Cell[8 * count + lenstr](_ => Char(0));
      varsize, size := DataSize(count, lenstr), count + NEWVERSION;
      dent, dptr := 0, 0;
      words, text := [], [];
    }

    /** The next entry. */
    method PutWord(w: nat)
      requires Valid() && dent < 2 * capacity
      modifies this`dent, this`words, mem
      ensures Valid() && words == old(words) + [w]
    {
      ghost var before := mem[..];
      mem[4 * dent], mem[4 * dent + 1], mem[4 * dent + 2], mem[4 * dent + 3] := Part(w, 0), Part(w, 1), Part(w, 2),
          Part(w, 3);
      WordsAppend(before, mem[..], words, w, 8 * capacity, text);
      dent, words := dent + 1, words + [w];
    }

    /** memcpy to the end of the string area. */
    method PutBytes(s: Bytes)
      requires Valid() && 8 * capacity + dptr + |s| <= mem.Length
      modifies this`dptr, this`text, mem
      ensures Valid() && text == old(text) + s
    {
      ghost var before := mem[..];
      var base := 8 * capacity + dptr;
      forall k | 0 <= k < |s| {
        mem[base + k] := Char(s[k]);
      }
      CharsAppend(before, mem[..], words, 8 * capacity, text, s);
      dptr, text := dptr + |s|, text + s;
    }

    /** HS_ADDITEM. */
    method AddItem(p: Pair)
      requires Valid() && dent + 2 <= 2 * capacity
      requires 8 * capacity + dptr + |p.key| + |ValBytes(p)| <= mem.Length
      modifies this`dent, this`dptr, this`words, this`text, mem
      ensures Valid() && text == old(text) + p.key + ValBytes(p)
      ensures words == old(words) + [|old(text)| + |p.key|, |text| + NullFlag(p)]
    {
      PutBytes(p.key);
      PutWord(dptr % 0x4000_0000);
      if p.val.None? {
        PutWord(dptr % 0x4000_0000 + ISNULL);
      } else {
        PutBytes(p.val.value);
        PutWord(dptr % 0x4000_0000);
      }
    }

    /** HS_COPYITEM: key and value lie next to each other in the source. */
    method CopyItem(src: Bytes, klen: nat, vlen: nat, vnull: bool)
      requires Valid() && dent + 2 <= 2 * capacity && |src| == klen + vlen
      requires 8 * capacity + dptr + klen + vlen <= mem.Length
      modifies this`dent, this`dptr, this`words, this`text, mem
      ensures Valid() && text == old(text) + src
      ensures words == old(words) + [|text| - vlen, |text| + if vnull then ISNULL else 0]
    {
      PutBytes(src);
      PutWord((dptr - vlen) % 0x4000_0000);
      PutWord(dptr % 0x4000_0000 + if vnull then ISNULL else 0);
    }

    /** The first entry gets its flag. */
    method FlagFirst()
      requires Valid() && words != []
      modifies mem
      ensures WordsIn(mem[..], Flagged(words)) && CharsIn(mem[..], 8 * capacity, text)
    {
      ghost var before := mem[..];
      assert WordIn(before, 0, words[0]);
      assert before[4 * 0 + 0] == Part(words[0], 0);
      var w := mem[0].word + ISFIRST;
      mem[0], mem[1], mem[2], mem[3] := Part(w, 0), Part(w, 1), Part(w, 2), Part(w, 3);
      FirstFlagged(before, mem[..], words, 8 * capacity, text);
    }

    /** HS_FINALIZE. */
    method Finalize(count: nat)
      requires Valid() && dent == 2 * count
      modifies this, mem
      ensures words == old(words) && text == old(text)
      ensures size == count + NEWVERSION && varsize == DataSize(count, |text|)
      ensures Holds(mem[..], HStore(varsize, size, Flagged(words), text))
    {
      hide WordsIn, CharsIn;
      if count > 0 {
        FlagFirst();
      }
      if count != size % 0x1000_0000 {
        size := count + NEWVERSION;
        MoveDown(8 * count);
      }
      varsize := DataSize(count, dptr);
    }

    /** memmove of the string area to the end of the entries in use. */
    method MoveDown(to: nat)
      requires to == 4 * |words| <= 8 * capacity && dptr == |text|
      requires WordsIn(mem[..], Flagged(words)) && CharsIn(mem[..], 8 * capacity, text)
      modifies mem
      ensures WordsIn(mem[..], Flagged(words)) && CharsIn(mem[..], to, text)
    {
      hide WordsIn, CharsIn, Overwritten;
      CharsInside(mem[..], 8 * capacity, text);
      ghost var before := mem[..];
      Memmove(mem, to, 8 * capacity, dptr);
      MovedDown(before, mem[..], Flagged(words), 8 * capacity, text);
    }
  }

  /** memmove of n cells, which may overlap. */
  method Memmove(mem: array<Cell>, to: nat, from: nat, n: nat)
    requires to <= from && from + n <= mem.Length
    modifies mem
    ensures Overwritten(old(mem[..]), mem[..], to, old(mem[from..from + n]))
  {
    ghost var cells := mem[from..from + n];
    forall k | to <= k < to + n {
      mem[k] := mem[k - to + from];
    }
    assert forall k | 0 <= k < n :: mem[to + k] == cells[k];
  }

  /** hstorePairs; buflen is the length of the string area, as hstoreUniquePairs computes it. */
  method HstorePairs(pairs: seq<Pair>, buflen: nat) returns (out: Option<Builder>)
    requires buflen == |Text(pairs, |pairs|)|
    ensures out.None? <==> !Fits(pairs)
    ensures out.Some? ==> fresh(out.value) && fresh(out.value.mem) && out.value.Is(Pack(pairs))
  {
    hide Text, Words, WordsIn, CharsIn;
    if DataSize(|pairs|, buflen) > MAX_ALLOC {
      return None;
    }
    var b := new Builder(|pairs|, buflen);
    NothingPacked(pairs);
    if |pairs| == 0 {
      return Some(b);
    }
    for i := 0 to |pairs|
      invariant fresh(b) && fresh(b.mem) && b.Valid() && b.capacity == |pairs| && b.mem.Length == 8 * |pairs| + buflen
      invariant b.dent == 2 * i && b.Has(pairs[..i])
    {
      RoomFor(pairs, i);
      PackNext(pairs[..i], pairs[i]);
      assert pairs[..i] + [pairs[i]] == pairs[..i + 1];
      b.AddItem(pairs[i]);
    }
    assert pairs[..|pairs|] == pairs;
    b.Finalize(|pairs|);
    out := Some(b);
  }

  lemma NothingPacked(pairs: seq<Pair>)
    ensures Text(pairs, 0) == [] && Words(pairs, 0) == []
    ensures Text(pairs[..0], 0) == [] && Words(pairs[..0], 0) == []
  {
  }

  lemma RoomFor(pairs: seq<Pair>, i: nat)
    requires i < |pairs|
    ensures |Text(pairs[..i], i)| + |pairs[i].key| + |ValBytes(pairs[i])| <= |Text(pairs, |pairs|)|
  {
    TextOfPrefix(pairs[..i], pairs, i);
    TextStep(pairs, i);
    TextPrefix(pairs, i + 1, |pairs|);
  }
}
