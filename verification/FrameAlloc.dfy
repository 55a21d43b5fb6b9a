/** The physical frame allocator on top of the S-tree, libnux/pfnalloc.c. */
module FrameAlloc {
  import opened Frames
  import opened Powers
  import opened STreeLayout
  import opened STree

  /**
    The default allocator with its caller's bookkeeping: `live` holds the frames handed out and not
    yet freed, `pool` the frames that were free at the start.
   */
  class FrameAllocator {
    const tree: Bitmap
    const maxpfn: nat
    var freePages: nat
    ghost var live: set<nat>
    ghost const pool: set<nat>

    ghost predicate Valid()
      reads this, tree, tree.words
    {
      && tree.Valid()
      && freePages == |tree.Set()|
      && live !! tree.Set()
      && live + tree.Set() == pool
      && forall f :: f in pool ==> f < maxpfn && f < Pow2(tree.o)
    }

    /** stree_pfninit: the boot loader left a bitmap of the usable frames. */
    constructor (bitmap: Bitmap, maxpfn: nat)
      requires bitmap.Valid()
      requires forall f :: f in bitmap.Set() ==> f < maxpfn
      ensures Valid() && tree == bitmap && pool == bitmap.Set() && live == {}
    {
      tree := bitmap;
      this.maxpfn := maxpfn;
      pool := bitmap.Set();
      live := {};
      freePages := 0;
      new;
      freePages := tree.Count();
    }

    /** pfn_alloc with stree_pfnalloc: the lowest or highest free frame, never one that is live. */
    method Alloc(low: bool) returns (r: Pfn)
      requires Valid()
      modifies this`freePages, this`live, tree.words
      ensures Valid()
      ensures r == PfnInvalid <==> old(live) == pool
      ensures r == PfnInvalid ==> live == old(live) && freePages == old(freePages) == 0
      ensures r.Frame? ==>
                && r.pfn in pool - old(live)
                && live == old(live) + {r.pfn}
                && freePages == old(freePages) - 1
                && (forall f :: f in pool - old(live) ==> Before(low, r.pfn, f))
    {
      var pg := tree.BitSearch(low);
      assert IsExtreme(tree.Set(), low, pg);
      if pg >= 0 {
        assert freePages != 0;
        freePages := freePages - 1;
        tree.ClearBit(pg);
        live := live + {pg};
        return Frame(pg);
      }
      return PfnInvalid;
    }

    /**
      pfn_free with stree_pfnfree, for a frame of the tree that passes its two checks.  They do not
      see whether the frame is live: the books stay right exactly when it was.
     */
    method Free(p: Pfn)
      requires Valid() && p.Frame? && p.pfn < maxpfn && p.pfn < Pow2(tree.o)
      modifies this`freePages, this`live, tree.words
      ensures tree.Valid() && tree.Set() == old(tree.Set()) + {p.pfn}
      ensures live == old(live) - {p.pfn} && freePages == old(freePages) + 1
      ensures Valid() <==> p.pfn in old(live)
    {
      hide Bitmap.Valid, Bitmap.Set;
      tree.SetBit(p.pfn);
      freePages := freePages + 1;
      live := live - {p.pfn};
    }
  }

  // ----- the guard of the boot loader -----

  /**
    va_stree makes a tree of order stree_order(maxframe) and passes every frame up to and including
    maxframe to it.  The frame is one of the tree's bits unless it is maxframe itself and a power of two.
   */
  lemma {:induction false} GuardSafe(maxframe: nat, frame: nat)
    requires 1 <= maxframe < 0x1_0000_0000 && frame <= maxframe
    ensures frame < Pow2(Order(maxframe)) <==> frame < maxframe || maxframe != Pow2(Order(maxframe))
  {
    OrderLeast(maxframe);
  }

  /** The frame that slips through would be a bit of the first summary word: bit 0, which stands for frames 0 to 63. */
  lemma {:induction false} PastEndHitsSummary(o: nat)
    requires o >= 7
    ensures WordAt(o, 0, Pow2(o) / 64) == WordAt(o, 1, 0) && Pow2(o) % 64 == 0
    ensures InLevel(o, 1, 0)
  {
    Pow2Six(o - 6);
    assert LevelStart(o, 1) == LevelStart(o, 0) + LevelWords(o, 0);
  }

  /** The words of stree_setbit only gain bits, and a level above 0 does not touch the first word of all. */
  lemma {:induction false} SetFromGrows(s: seq<Word>, o: nat, a: nat, l: nat, i: nat)
    requires i < |s| && (l > 0 || a >= 64)
    ensures var r := SetFrom(s, o, a, l);
            |r| == |s| && s[i] <= r[i] && (i == 0 ==> r[0] == s[0])
    decreases Levels(o) - l
  {
    if l < Levels(o) {
      LaterWord(o, a, l);
      SetFromGrows(SetAt(s, o, l, Up(a, l)), o, a, l + 1, i);
    }
  }

  lemma {:induction false} ClearFromShrinks(s: seq<Word>, o: nat, a: nat, l: nat, i: nat)
    requires i < |s| && (l > 0 || a >= 64)
    ensures var r := ClearFrom(s, o, a, l);
            |r| == |s| && r[i] <= s[i] && (i == 0 ==> r[0] == s[0])
    decreases Levels(o) - l
  {
    if l < Levels(o) {
      LaterWord(o, a, l);
      ClearFromShrinks(ClearAt(s, o, l, Up(a, l)), o, a, l + 1, i);
    }
  }

  lemma {:induction false} LaterWord(o: nat, a: nat, l: nat)
    requires l > 0 || a >= 64
    ensures WordAt(o, l, Up(a, l) / 64) > 0
  {
    if l > 0 {
      StartMono(o, 0, l);
    }
  }

  /** Clearing that frame breaks every tree in which one of the frames 0 to 63 is free. */
  lemma {:induction false} ClearsSummary(s: seq<Word>, o: nat)
    requires o >= 7 && Good(s, o) && WordOf(s, o, 0, 0) != {}
    ensures !Good(ClearFrom(s, o, Pow2(o), 0), o)
  {
    var r := ClearFrom(s, o, Pow2(o), 0);
    var i := WordAt(o, 1, 0);
    PastEndHitsSummary(o);
    FirstWords(o);
    Pow2Six(o - 6);
    Pow2Mono(1, o - 6);
    var t := ClearAt(s, o, 0, Up(Pow2(o), 0));
    assert 0 !in t[i];
    ClearFromShrinks(s, o, Pow2(o), 0, 0);
    ClearFromShrinks(t, o, Pow2(o), 1, i);
    assert !Summary(r, o, 0, 0);
  }

  /** Setting it breaks every tree in which none of them is. */
  lemma {:induction false} SetsSummary(s: seq<Word>, o: nat)
    requires o >= 7 && Good(s, o) && WordOf(s, o, 0, 0) == {}
    ensures !Good(SetFrom(s, o, Pow2(o), 0), o)
  {
    var r := SetFrom(s, o, Pow2(o), 0);
    var i := WordAt(o, 1, 0);
    PastEndHitsSummary(o);
    FirstWords(o);
    Pow2Six(o - 6);
    Pow2Mono(1, o - 6);
    var t := SetAt(s, o, 0, Up(Pow2(o), 0));
    assert 0 in t[i];
    SetFromGrows(s, o, Pow2(o), 0, 0);
    SetFromGrows(t, o, Pow2(o), 1, i);
    assert !Summary(r, o, 0, 0);
  }

  lemma {:induction false} UpOfPower(o: nat, l: nat)
    requires 6 * l <= o
    ensures Up(Pow2(o), l) == Pow2(o - 6 * l)
    decreases l
  {
    if l > 0 {
      UpOfPower(o, l - 1);
      Pow2Six(o - 6 * l);
    }
  }

  /** On a level below the top, frame 2^o is bit 0 of the next level. */
  lemma {:induction false} PastEndUp(o: nat, l: nat)
    requires o >= 1 && l + 1 < Levels(o)
    ensures Pow2(o - 6 * l) % 64 == 0 && WordAt(o, l, Pow2(o - 6 * l) / 64) == WordAt(o, l + 1, 0) && InLevel(o, l + 1, 0)
  {
    Pow2Six(o - 6 * l - 6);
    assert LevelStart(o, l + 1) == LevelStart(o, l) + LevelWords(o, l);
  }

  /** On the top level it is past the bits of the only word, or in the word after the tree. */
  lemma {:induction false} PastEndTop(o: nat, l: nat)
    requires o >= 1 && l + 1 == Levels(o)
    ensures if o - 6 * l == 6 then WordAt(o, l, Pow2(o - 6 * l) / 64) == Size(o) else Pow2(o - 6 * l) < 64
  {
    Pow2Six(0);
    if o - 6 * l == 6 {
      LevelsFill(o);
      assert LevelStart(o, l + 1) == LevelStart(o, l) + LevelWords(o, l);
    } else {
      Pow2Lt(o - 6 * l, 6);
    }
  }

  /** Where the first word of level `l` is empty, clearing the frame from that level on changes nothing. */
  lemma {:induction false} ClearsNothing(s: seq<Word>, o: nat, l: nat)
    requires o >= 1 && Good(s, o) && l <= Levels(o) && (l + 1 < Levels(o) ==> WordOf(s, o, l, 0) == {})
    ensures ClearFrom(s, o, Pow2(o), l) == s
    decreases Levels(o) - l
  {
    if l < Levels(o) {
      UpOfPower(o, l);
      var x := Pow2(o - 6 * l);
      if l + 1 < Levels(o) {
        PastEndUp(o, l);
      } else {
        PastEndTop(o, l);
      }
      var w := WordOf(s, o, l, x / 64);
      assert x % 64 !in w by {
        if l + 1 < Levels(o) {
          assert InLevel(o, l, 0) && Summary(s, o, l, 0);
        } else if o - 6 * l < 6 {
          assert InLevel(o, l, 0) && WordOk(o, l, 0, WordOf(s, o, l, 0));
        }
      }
      assert w - {x % 64} == w;
      assert ClearAt(s, o, l, x) == s;
      if w == {} {
        ClearsNothing(s, o, l + 1);
      }
    }
  }

  lemma {:induction false} SetsNothing(s: seq<Word>, o: nat)
    requires o >= 7 && Good(s, o) && WordOf(s, o, 0, 0) != {}
    ensures SetFrom(s, o, Pow2(o), 0) == s
  {
    PastEndHitsSummary(o);
    FirstWords(o);
    assert Summary(s, o, 0, 0);
    var w := WordOf(s, o, 1, 0);
    assert w + {0} == w;
  }

  /** A tree of a single word, of which the frame is a bit that belongs to no frame. */
  lemma {:induction false} SetsOnly(s: seq<Word>, o: nat)
    requires 1 <= o <= 6 && Good(s, o)
    ensures Good(SetFrom(s, o, Pow2(o), 0), o) <==> o == 6
  {
    assert Levels(o) == 1;
    PastEndTop(o, 0);
    var t := SetAt(s, o, 0, Pow2(o));
    assert SetFrom(t, o, Pow2(o), 1) == t;
    assert SetFrom(s, o, Pow2(o), 0) == t;
    if o < 6 {
      WordsDisjoint(o, 0, 0, 0, 0);
      assert Pow2(o) in WordOf(t, o, 0, 0);
      assert InLevel(o, 0, 0) && !WordOk(o, 0, 0, WordOf(t, o, 0, 0));
    } else {
      assert t == s;
    }
  }

  /** Setting the frame leaves the tree right if and only if one of the frames 0 to 63 is free, or the bit is outside the tree. */
  lemma {:induction false} PastEndSets(s: seq<Word>, o: nat)
    requires o >= 1 && Good(s, o)
    ensures Good(SetFrom(s, o, Pow2(o), 0), o) <==> if o >= 7 then WordOf(s, o, 0, 0) != {} else o == 6
  {
    if o >= 7 {
      if WordOf(s, o, 0, 0) == {} {
        SetsSummary(s, o);
      } else {
        SetsNothing(s, o);
      }
    } else {
      SetsOnly(s, o);
    }
  }

  /** Clearing it leaves the tree right if and only if none of the frames 0 to 63 is free, or the tree is a single word. */
  lemma {:induction false} PastEndClears(s: seq<Word>, o: nat)
    requires o >= 1 && Good(s, o)
    ensures Good(ClearFrom(s, o, Pow2(o), 0), o) <==> o <= 6 || WordOf(s, o, 0, 0) == {}
  {
    if o >= 7 && WordOf(s, o, 0, 0) != {} {
      ClearsSummary(s, o);
    } else {
      ClearsNothing(s, o, 0);
    }
  }

  lemma {:induction false} FirstWords(o: nat)
    requires o >= 7
    ensures InLevel(o, 0, 0) && InLevel(o, 1, 0) && WordAt(o, 0, 0) == 0 && WordAt(o, 1, 0) < Size(o) && Levels(o) >= 2
  {
    WordsDisjoint(o, 1, 0, 0, 0);
  }
}
