/** The bitmap freelist of src/flexalloc_freelist.c: a one bit marks a free entry. */
module Freelist {
  import opened Bits
  import opened SetFacts
  import opened FreeSets
  import PopCount

  /** Words needed for len bits. */
  function Elems(len: nat): nat { (len + 31) / 32 }

  /** Entry i of the bitmap is free. */
  predicate FreeAt(ws: seq<Word>, i: nat)
    requires i < 32 * |ws|
  {
    ws[i / 32][i % 32]
  }

  /** The free entries as a set of indices. */
  function Free(ws: seq<Word>): (s: set<nat>)
    ensures forall i: nat {:trigger i in s} :: i in s <==> i < 32 * |ws| && FreeAt(ws, i)
  {
    set i: nat | i < 32 * |ws| && FreeAt(ws, i)
  }

  /** Lengths are 32-bit numbers whose words hold fewer than 2^32 bits. */
  predicate HasLen(len: nat) { 0 < len <= 0xFFFF_FFE0 }

  /** The bitmap has the right number of words and no padding bit is free. */
  ghost predicate WellFormed(len: nat, ws: seq<Word>) {
    HasLen(len) && |ws| == Elems(len) && forall i :: i in Free(ws) ==> i < len
  }

  // ----- what a change of one word does to the set

  lemma SetEntry(ws: seq<Word>, k: nat, b: nat)
    requires k < |ws| && b < 32
    ensures Free(ws[k := Or(ws[k], Mask(b))]) == Free(ws) + {32 * k + b}
  {
  }

  lemma ClearEntry(ws: seq<Word>, k: nat, b: nat)
    requires k < |ws| && b < 32
    ensures Free(ws[k := And(ws[k], Not(Mask(b)))]) == Free(ws) - {32 * k + b}
  {
  }

  lemma FirstFree(ws: seq<Word>, k: nat, b: nat)
    requires k < |ws| && (forall i :: 0 <= i < k ==> ws[i] == ZERO) && IsLowest(ws[k], true, b)
    ensures IsMin(Free(ws), 32 * k + b)
  {
    assert forall i, j :: 0 <= i < k && 0 <= j < 32 ==> !ws[i][j];
    forall y | y in Free(ws)
      ensures 32 * k + b <= y
    {
      assert FreeAt(ws, y);
    }
    assert FreeAt(ws, 32 * k + b);
  }

  lemma NoneFree(ws: seq<Word>)
    requires forall i :: 0 <= i < |ws| ==> ws[i] == ZERO
    ensures Free(ws) == {}
  {
  }

  /** Words full of ones, the last one without its padding. */
  lemma AllFree(len: nat, ws: seq<Word>)
    requires HasLen(len) && |ws| == Elems(len) && (forall j :: 0 <= j < |ws| - 1 ==> ws[j] == ALL_ONES)
    requires ws[|ws| - 1] == Shr(ALL_ONES, |ws| * 32 - len)
    ensures WellFormed(len, ws) && Free(ws) == Upto(len)
  {
    forall i: nat | i < 32 * |ws|
      ensures FreeAt(ws, i) <==> i < len
    {
      BitOfFull(len, ws, i, i / 32, i % 32);
    }
  }

  lemma BitOfFull(len: nat, ws: seq<Word>, i: nat, k: nat, b: nat)
    requires 32 * (|ws| - 1) < len <= 32 * |ws| && k < |ws| && b < 32 && i == 32 * k + b
    requires forall j :: 0 <= j < |ws| - 1 ==> ws[j] == ALL_ONES
    requires ws[|ws| - 1] == Shr(ALL_ONES, |ws| * 32 - len)
    ensures ws[k][b] <==> i < len
  {
  }

  // ----- counting

  ghost function FreeBelow(ws: seq<Word>, n: nat): set<nat>
    requires n <= 32 * |ws|
  {
    set i: nat | i < n && FreeAt(ws, i)
  }

  lemma {:induction false} WordCount(ws: seq<Word>, k: nat, b: nat)
    requires k < |ws| && b <= 32
    ensures |FreeBelow(ws, 32 * k + b)| == |FreeBelow(ws, 32 * k)| + PopCount.Ones(ws[k], b)
  {
    if b > 0 {
      WordCount(ws, k, b - 1);
      OneBelow(ws, 32 * k + b - 1);
      assert (32 * k + b - 1) / 32 == k;
    }
  }

  lemma OneBelow(ws: seq<Word>, i: nat)
    requires i < 32 * |ws|
    ensures |FreeBelow(ws, i + 1)| == |FreeBelow(ws, i)| + if FreeAt(ws, i) then 1 else 0
  {
    var more := if FreeAt(ws, i) then {i} else {};
    assert FreeBelow(ws, i + 1) == FreeBelow(ws, i) + more;
  }

  // ----- the search's last word

  /** How far the search looks: the last word is skipped when it is full of entries. */
  function SearchEnd(len: nat): nat
  {
    if len % 32 == 0 && len > 0 then len - 32 else len
  }

  ghost predicate Before(s: seq<nat>, i: nat, j: nat)
    requires i < |s| && j < |s|
  {
    s[i] < s[j]
  }

  ghost predicate Ascending(s: seq<nat>) {
    forall i, j {:trigger Before(s, i, j)} :: 0 <= i < j < |s| ==> Before(s, i, j)
  }

  /** The calls are, in ascending order, the reserved entries below n that the search looks at. */
  ghost predicate Visited(ws: seq<Word>, len: nat, calls: seq<nat>, n: nat)
    requires |ws| == Elems(len)
  {
    Ascending(calls) && forall i: nat :: i in calls <==> i < n && i < SearchEnd(len) && !FreeAt(ws, i)
  }

  /** The search reaches every reserved entry unless a full last word holds one. */
  lemma SearchReachesAll(ws: seq<Word>, len: nat, calls: seq<nat>)
    requires WellFormed(len, ws) && Visited(ws, len, calls, len)
    ensures (forall i: nat :: i < len && !FreeAt(ws, i) ==> i in calls) <==>
            (len % 32 != 0 || forall i: nat :: len - 32 <= i < len ==> FreeAt(ws, i))
  {
    if len % 32 == 0 && !(forall i: nat :: len - 32 <= i < len ==> FreeAt(ws, i)) {
      var i: nat :| len - 32 <= i < len && !FreeAt(ws, i);
      assert i !in calls;
    }
  }

  /** With 32 entries, all reserved, the search calls nothing. */
  lemma SearchMissesFullWord()
    ensures WellFormed(32, [ZERO]) && Visited([ZERO], 32, [], 32) && !FreeAt([ZERO], 0)
  {
  }

  /** Freeing entry len of a list whose last word has padding makes the padding bit allocatable. */
  lemma FreeingLenBreaksTheList(len: nat, ws: seq<Word>)
    requires WellFormed(len, ws) && len % 32 != 0
    ensures !WellFormed(len, ws[len / 32 := Or(ws[len / 32], Mask(len % 32))])
  {
    SetEntry(ws, len / 32, len % 32);
    assert len in Free(ws[len / 32 := Or(ws[len / 32], Mask(len % 32))]);
  }

  /** The calls that f answers with 1, by their position. */
  function Ones(f: nat -> int, calls: seq<nat>): (s: set<nat>)
    ensures forall i: nat {:trigger i in s} :: i in s <==> i < |calls| && f(calls[i]) == 1
  {
    set i: nat | i < |calls| && f(calls[i]) == 1
  }

  /** Calls extended by the next reserved entry. */
  lemma VisitNext(ws: seq<Word>, len: nat, calls: seq<nat>, n: nat, z: nat)
    requires |ws| == Elems(len) && Visited(ws, len, calls, n)
    requires n <= z < SearchEnd(len) && !FreeAt(ws, z) && forall i: nat :: n <= i < z ==> FreeAt(ws, i)
    ensures Visited(ws, len, calls + [z], z + 1)
  {
    forall i, j | 0 <= i < j < |calls + [z]|
      ensures Before(calls + [z], i, j)
    {
      if j == |calls| {
        assert calls[i] in calls;
      } else {
        assert Before(calls, i, j);
      }
    }
  }

  /** No reserved entry between n and n'. */
  lemma VisitNone(ws: seq<Word>, len: nat, calls: seq<nat>, n: nat, n': nat)
    requires |ws| == Elems(len) && Visited(ws, len, calls, n) && n <= n'
    requires forall i: nat :: n <= i < n' && i < SearchEnd(len) ==> FreeAt(ws, i)
    ensures Visited(ws, len, calls, n')
  {
  }

  /** In the padded copy a zero is a reserved entry that the search looks at. */
  lemma PaddedWord(ws: seq<Word>, len: nat, u: nat, word: Word)
    requires 0 < len && |ws| == Elems(len) && u < |ws|
    requires word == if u + 1 == |ws| then Or(ws[u], Shl(ALL_ONES, len % 32)) else ws[u]
    ensures forall i :: 0 <= i < 32 ==> (!word[i] <==> 32 * u + i < SearchEnd(len) && !FreeAt(ws, 32 * u + i))
  {
  }

  /** The lowest zero of the copy, with the first p bits done, is the next reserved entry. */
  lemma NextReserved(ws: seq<Word>, len: nat, u: nat, word: Word, elem: Word, p: nat, z: nat)
    requires 0 < len && |ws| == Elems(len) && u < |ws| && p <= 32
    requires word == if u + 1 == |ws| then Or(ws[u], Shl(ALL_ONES, len % 32)) else ws[u]
    requires Passed(word, elem, p) && IsLowest(elem, false, z)
    ensures p <= z && 32 * u + z < SearchEnd(len) && !FreeAt(ws, 32 * u + z)
    ensures forall i: nat :: 32 * u + p <= i < 32 * u + z ==> FreeAt(ws, i)
  {
    PaddedWord(ws, len, u, word);
    forall i: nat | 32 * u + p <= i < 32 * u + z
      ensures FreeAt(ws, i)
    {
      assert word[i - 32 * u];
    }
  }

  lemma NoneReserved(ws: seq<Word>, len: nat, u: nat, word: Word, elem: Word, p: nat)
    requires 0 < len && |ws| == Elems(len) && u < |ws| && p <= 32
    requires word == if u + 1 == |ws| then Or(ws[u], Shl(ALL_ONES, len % 32)) else ws[u]
    requires Passed(word, elem, p) && (elem == ALL_ONES || p == 32)
    ensures forall i: nat :: 32 * u + p <= i < 32 * (u + 1) && i < SearchEnd(len) ==> FreeAt(ws, i)
  {
    PaddedWord(ws, len, u, word);
    forall i: nat | 32 * u + p <= i < 32 * (u + 1) && i < SearchEnd(len)
      ensures FreeAt(ws, i)
    {
      assert elem[i - 32 * u];
    }
  }

  /** The first p bits of the copy are done. */
  ghost predicate Passed(word: Word, elem: Word, p: nat) {
    forall i :: 0 <= i < 32 ==> elem[i] == (i < p || word[i])
  }

  method IsolateOne(elem: Word) returns (wndx: Word, bit: nat)
    requires elem != ZERO
    ensures IsLowest(elem, true, bit) && wndx == Mask(bit)
  {
    ghost var z := LowestExists(elem, true);
    LowestOne(elem, z);
    assert Mask(z)[z] != ZERO[z];
    wndx := And(elem, Neg(elem));
    bit := Ntz(wndx);
  }

  method IsolateZero(elem: Word) returns (wndx: Word, bit: nat)
    requires elem != ALL_ONES
    ensures IsLowest(elem, false, bit) && wndx == Mask(bit)
  {
    ghost var z := LowestExists(elem, false);
    LowestZero(elem, z);
    assert Mask(z)[z] != ZERO[z];
    wndx := And(Not(elem), Inc(elem));
    bit := Ntz(wndx);
  }

  lemma CallsGrow(f: nat -> int, calls: seq<nat>, entry: nat)
    ensures |Ones(f, calls + [entry])| == |Ones(f, calls)| + (if f(entry) == 1 then 1 else 0)
    ensures AllAnswered(f, calls + [entry]) <==> AllAnswered(f, calls) && (f(entry) == 0 || f(entry) == 1)
  {
    var more: set<nat> := if f(entry) == 1 then {|calls|} else {};
    assert Ones(f, calls + [entry]) == Ones(f, calls) + more;
    assert forall i :: 0 <= i < |calls| ==> (calls + [entry])[i] == calls[i];
    assert (calls + [entry])[|calls|] == entry;
  }

  /** One round of the inner loop: the lowest zero bit of the copy is the next reserved entry. */
  lemma VisitRound(ws: seq<Word>, len: nat, u: nat, word: Word, elem: Word, p: nat, bit: nat, calls: seq<nat>, n: nat, entry: nat)
    requires 0 < len && |ws| == Elems(len) && u < |ws| && p <= 32 && bit < 32 && n == 32 * u + p && entry == 32 * u + bit
    requires word == if u + 1 == |ws| then Or(ws[u], Shl(ALL_ONES, len % 32)) else ws[u]
    requires Passed(word, elem, p) && IsLowest(elem, false, bit) && Visited(ws, len, calls, n)
    ensures p <= bit && Visited(ws, len, calls + [entry], entry + 1)
    ensures Passed(word, Or(elem, Mask(bit)), bit + 1)
  {
    NextReserved(ws, len, u, word, elem, p, bit);
    VisitNext(ws, len, calls, n, entry);
    PassedNext(word, elem, p, bit);
  }

  lemma PassedNext(word: Word, elem: Word, p: nat, bit: nat)
    requires p <= bit < 32 && Passed(word, elem, p) && IsLowest(elem, false, bit)
    ensures Passed(word, Or(elem, Mask(bit)), bit + 1)
  {
  }

  /** The inner loop ends: the rest of the word has no reserved entry to look at. */
  lemma VisitRest(ws: seq<Word>, len: nat, u: nat, word: Word, elem: Word, p: nat, calls: seq<nat>, n: nat)
    requires 0 < len && |ws| == Elems(len) && u < |ws| && p <= 32 && n == 32 * u + p
    requires word == if u + 1 == |ws| then Or(ws[u], Shl(ALL_ONES, len % 32)) else ws[u]
    requires Passed(word, elem, p) && (elem == ALL_ONES || p == 32) && Visited(ws, len, calls, n)
    ensures Visited(ws, len, calls, 32 * (u + 1))
  {
    NoneReserved(ws, len, u, word, elem, p);
    VisitNone(ws, len, calls, n, 32 * (u + 1));
  }

  /** f answered 0 or 1 to every call. */
  predicate AllAnswered(f: nat -> int, calls: seq<nat>) {
    forall i :: 0 <= i < |calls| ==> f(calls[i]) == 0 || f(calls[i]) == 1
  }

  lemma FreeMore(before: set<nat>, now: set<nat>, ndx: nat, i: nat)
    requires now == before + Run(ndx, i)
    ensures now + {ndx + i} == before + Run(ndx, i + 1)
  {
  }

  lemma FreeKeepsForm(len: nat, ws: seq<Word>, ws': seq<Word>, ndx: nat)
    requires HasLen(len) && |ws| == |ws'| == Elems(len) && ndx <= len && Free(ws') == Free(ws) + {ndx}
    ensures WellFormed(len, ws') <==> WellFormed(len, ws) && ndx != len
  {
    assert ndx in Free(ws');
    assert forall i :: i in Free(ws) ==> i in Free(ws');
  }

  lemma RunKeepsForm(len: nat, ws: seq<Word>, ws': seq<Word>, ndx: nat, n: nat)
    requires HasLen(len) && |ws| == |ws'| == Elems(len) && (n == 0 || ndx + n <= len + 1) && Free(ws') == Free(ws) + Run(ndx, n)
    ensures WellFormed(len, ws') <==> WellFormed(len, ws) && !(ndx <= len < ndx + n)
  {
    assert forall i :: i in Free(ws) ==> i in Free(ws');
    assert ndx <= len < ndx + n ==> len in Free(ws');
  }

  lemma ShortfallTakesAll(s: set<nat>, num: nat)
    requires |s| < num
    ensures Lowest(s, num) == s
  {
    LowestSize(s, num);
    SubsetSameSize(Lowest(s, num), s);
  }

  /** Two entries asked of a list that has one: the call fails and the entry is gone. */
  method FailingCallTakes() returns (flist: Flist, ndx: int)
    ensures ndx == -1 && flist.len == 1 && 0 !in flist.FreeSet()
  {
    flist := new Flist(1);
    assert flist.FreeSet() == {0};
    ndx := flist.EntriesAlloc(2);
  }

  class Flist {
    var len: nat
    const words: array<Word>

    ghost predicate Valid()
      reads this, words
    {
      WellFormed(len, words[..])
    }

    ghost predicate Sized()
      reads this
    {
      HasLen(len) && words.Length == Elems(len)
    }

    ghost function FreeSet(): set<nat>
      reads words
    {
      Free(words[..])
    }

    /** All len entries start free. */
    constructor (len: nat)
      requires HasLen(len)
      ensures Valid() && fresh(words) && this.len == len
      ensures FreeSet() == Upto(len)
    {
      this.len := len;
      words := new Word[Elems(len)](_ => ZERO);
      new;
      Reset();
    }

    /** fla_flist_load: the list that these words are. */
    constructor Load(len: nat, ws: seq<Word>)
      requires HasLen(len) && |ws| == Elems(len)
      ensures Sized() && fresh(words) && this.len == len && words[..] == ws
    {
      this.len := len;
      words := new Word[|ws|](i requires 0 <= i < |ws| => ws[i]);
    }

    method Reset()
      requires Sized()
      modifies words
      ensures Valid() && FreeSet() == Upto(len)
    {
      var elems := Elems(len);
      for i := 0 to elems - 1
        invariant forall j :: 0 <= j < i ==> words[j] == ALL_ONES
      {
        words[i] := ALL_ONES;
      }
      var unused := elems * 32 - len;
      words[elems - 1] := Shr(ALL_ONES, unused);
      AllFree(len, words[..]);
    }

    /** Takes the lowest free entry and returns it as an int, which is -1 exactly when none is free. */
    method EntryAlloc() returns (ndx: int)
      requires Sized()
      modifies words
      ensures old(Valid()) ==> Valid()
      ensures ndx == -1 <==> old(FreeSet()) == {}
      ensures ndx == -1 ==> FreeSet() == {}
      ensures ndx != -1 ==> ndx == Int32(Min(old(FreeSet()))) && FreeSet() == old(FreeSet()) - {Min(old(FreeSet()))}
    {
      ghost var before := words[..];
      for i := 0 to words.Length
        invariant words[..] == before
        invariant forall j :: 0 <= j < i ==> words[j] == ZERO
      {
        if words[i] != ZERO {
          var wndx, b := IsolateOne(words[i]);
          words[i] := And(words[i], Not(wndx));
          assert words[..] == before[i := And(before[i], Not(Mask(b)))];
          ClearEntry(before, i, b);
          FirstFree(before, i, b);
          MinUnique(Free(before), i * 32 + b, Min(Free(before)));
          ndx := Int32(i * 32 + b);
          return;
        }
      }
      NoneFree(words[..]);
      ndx := -1;
    }

    /** The loop of EntriesAlloc, entered with one entry taken out of before. */
    method TakeMore(num: nat, ghost before: set<nat>) returns (ok: bool)
      requires Sized() && 0 < num && before != {} && FreeSet() == before - Lowest(before, 1)
      modifies words
      ensures FreeSet() == before - Lowest(before, num)
      ensures ok <==> num <= |before|
    {
      var count := 1;
      while count != num
        invariant 1 <= count <= num && count <= |before|
        invariant FreeSet() == before - Lowest(before, count)
      {
        ghost var left := FreeSet();
        var next := EntryAlloc();
        if next == -1 {
          LowestAll(before, count, num);
          return false;
        }
        AllocStep(before, count, left, Min(left));
        count := count + 1;
      }
      return true;
    }

    /**
     Takes num entries one by one, lowest first, and returns the first one.  A failing call keeps what it took
     before, so that it leaves the list alone exactly if nothing was free.  An entry from 2^31 on is returned as
     a negative number, which callers take for a failure.
     */
    method EntriesAlloc(num: nat) returns (ndx: int)
      requires Sized() && 0 < num
      modifies words
      ensures old(Valid()) ==> Valid()
      ensures FreeSet() == old(FreeSet()) - Lowest(old(FreeSet()), num)
      ensures |old(FreeSet())| < num ==> ndx == -1
      ensures num <= |old(FreeSet())| ==> ndx == Int32(Min(old(FreeSet()))) != -1
      ensures ndx == -1 ==> FreeSet() == {} && (FreeSet() == old(FreeSet()) <==> old(FreeSet()) == {})
    {
      ghost var before := FreeSet();
      assert before - Lowest(before, 0) == before;
      ndx := EntryAlloc();
      if ndx == -1 {
        // the loop would fail at once
        return;
      }
      LowestStep(before, 0, Min(before));
      if num == 1 {
        return;
      }
      var ok := TakeMore(num, before);
      if !ok {
        ShortfallTakesAll(before, num);
        ndx := -1;
      }
    }

    /** Frees one entry.  The code accepts every index up to and including len. */
    method EntryFree(ndx: nat) returns (err: int)
      requires Sized() && (ndx == len ==> len % 32 != 0)
      modifies words
      ensures ndx > len ==> err == -1 && words[..] == old(words[..])
      ensures ndx <= len ==> err == 0 && FreeSet() == old(FreeSet()) + {ndx}
      ensures Valid() <==> old(Valid()) && ndx != len
    {
      if ndx > len {
        return -1;
      }
      var elem, rest := 0, ndx;
      while rest >= 32
        invariant 32 * elem + rest == ndx && 0 <= rest
      {
        elem := elem + 1;
        rest := rest - 32;
      }
      ghost var before := words[..];
      words[elem] := Or(words[elem], Mask(rest));
      assert words[..] == before[elem := Or(before[elem], Mask(rest))];
      SetEntry(before, elem, rest);
      FreeKeepsForm(len, before, words[..], ndx);
      return 0;
    }

    /** Frees num entries one by one; the first index above len ends it, and those freed before stay free. */
    method EntriesFree(ndx: nat, num: nat) returns (err: int)
      requires Sized() && (ndx <= len < ndx + num ==> len % 32 != 0)
      modifies words
      ensures err == if num == 0 || ndx + num <= len + 1 then 0 else -1
      ensures FreeSet() == old(FreeSet()) + Run(ndx, Accepted(len, ndx, num))
      ensures Valid() <==> old(Valid()) && !(ndx <= len < ndx + num)
    {
      for i := 0 to num
        invariant i == 0 || ndx + i <= len + 1
        invariant FreeSet() == old(FreeSet()) + Run(ndx, i)
      {
        FreeMore(old(FreeSet()), FreeSet(), ndx, i);
        var e := EntryFree(ndx + i);
        if e != 0 {
          RunKeepsForm(len, old(words[..]), words[..], ndx, i);
          return -1;
        }
      }
      RunKeepsForm(len, old(words[..]), words[..], ndx, num);
      return 0;
    }

    method NumReserved() returns (reserved: int)
      requires Valid()
      ensures reserved == |Upto(len) - FreeSet()|
    {
      var free := 0;
      for i := 0 to words.Length
        invariant free == |FreeBelow(words[..], 32 * i)|
      {
        WordCount(words[..], i, 32);
        var val := PopCount.MachineWord(words[i]);
        var count := PopCount.CountSetBits(val, words[i]);
        free := free + count;
      }
      assert FreeBelow(words[..], 32 * words.Length) == FreeSet();
      DifferenceSize(Upto(len), FreeSet());
      reserved := len - free;
    }

    /** The inner loop: one call for each zero of elem, the copy of word u with its padding set. */
    method SearchWord(f: nat -> int, u: nat, word: Word, found0: nat, calls0: seq<nat>)
      returns (err: int, found: nat, calls: seq<nat>)
      requires Valid() && u < words.Length
      requires word == if u + 1 == words.Length then Or(words[u], Shl(ALL_ONES, len % 32)) else words[u]
      requires found0 == |Ones(f, calls0)| && AllAnswered(f, calls0) && Visited(words[..], len, calls0, 32 * u)
      ensures found == |Ones(f, calls)|
      ensures AllAnswered(f, calls) ==> Visited(words[..], len, calls, 32 * (u + 1))
      ensures !AllAnswered(f, calls) ==>
        calls != [] && err == f(calls[|calls| - 1]) && Visited(words[..], len, calls, calls[|calls| - 1] + 1)
    {
      var elem := word;
      found, calls, err := found0, calls0, 0;
      ghost var p, n := 0, 32 * u;
      var j := 0;
      while j < 32 && elem != ALL_ONES
        invariant j <= p <= 32 && n == 32 * u + p
        invariant Passed(word, elem, p)
        invariant found == |Ones(f, calls)| && AllAnswered(f, calls)
        invariant Visited(words[..], len, calls, n)
      {
        var wndx, bit := IsolateZero(elem);
        var entry := u * 32 + bit;
        var ret := f(entry);
        VisitRound(words[..], len, u, word, elem, p, bit, calls, n, entry);
        CallsGrow(f, calls, entry);
        calls := calls + [entry];
        if ret != 0 && ret != 1 {
          return ret, found, calls;
        }
        if ret == 1 {
          found := found + 1;
        }
        elem := Or(elem, wndx);
        p, n := bit + 1, entry + 1;
        j := j + 1;
      }
      VisitRest(words[..], len, u, word, elem, p, calls, n);
    }

    /**
     Calls f on the reserved entries; f answers 1 for found, 0 for not found, anything else ends the
     search.  The calls made are returned as well.
     */
    method Search(execFirst: bool, f: nat -> int) returns (err: int, found: nat, calls: seq<nat>)
      requires Valid()
      ensures !execFirst ==> err == -22 && calls == []
      ensures execFirst ==> found == |set i: nat | i < |calls| && f(calls[i]) == 1|
      ensures execFirst && AllAnswered(f, calls) ==> err == 0 && Visited(words[..], len, calls, len)
      ensures execFirst && !AllAnswered(f, calls) ==>
        calls != [] && err == f(calls[|calls| - 1]) && Visited(words[..], len, calls, calls[|calls| - 1] + 1)
    {
      found, calls := 0, [];
      if !execFirst {
        return -22, 0, [];
      }
      for u := 0 to words.Length
        invariant found == |Ones(f, calls)| && AllAnswered(f, calls)
        invariant Visited(words[..], len, calls, 32 * u)
      {
        var elem := words[u];
        if u + 1 == words.Length {
          elem := Or(elem, Shl(ALL_ONES, len % 32));
        }
        err, found, calls := SearchWord(f, u, elem, found, calls);
        if !AllAnswered(f, calls) {
          return;
        }
      }
      err := 0;
    }
  }
}
