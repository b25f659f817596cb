/** The lookup pages at the start of a block, which list the ids of the pages after them. */
module SpiffsLookup {
  import opened Arith

  /** A lookup entry: object id, and whether the page is an index page. */
  datatype LuEntry = LuEntry(objId: nat, isIndex: bool)

  /** A lookup page and the entries it still has room for. */
  datatype LuPage = LuPage(objIdsLimit: nat, objIds: seq<LuEntry>)

  /** The lookup pages of a block whose usable pages have `entries`: filled one after the other. */
  ghost function LuPagesOf(lim: nat, count: nat, entries: seq<LuEntry>): (pages: seq<LuPage>)
    ensures |pages| == count
  {
    if count == 0 then [] else
    if |entries| <= lim then [LuPage(lim - |entries|, entries)] + LuPagesOf(lim, count - 1, [])
    else [LuPage(0, entries[..lim])] + LuPagesOf(lim, count - 1, entries[lim..])
  }

  /** Page `pos` is the first lookup page that is not both full and followed by a used one. */
  ghost predicate AtLuPage(pages: seq<LuPage>, pos: nat) {
    && pos < |pages|
    && (forall i :: 0 <= i < pos ==> pages[i].objIdsLimit == 0)
    && (forall i :: pos < i < |pages| ==> pages[i].objIds == [])
  }

  /** `register_page` of a lookup page that has room. */
  function Registered(pages: seq<LuPage>, pos: nat, entry: LuEntry): seq<LuPage>
    requires pos < |pages| && pages[pos].objIdsLimit > 0
  {
    pages[pos := LuPage(pages[pos].objIdsLimit - 1, pages[pos].objIds + [entry])]
  }

  lemma {:induction false} RegisterKeeps(lim: nat, count: nat, entries: seq<LuEntry>, pos: nat, entry: LuEntry)
    requires lim >= 1
    requires AtLuPage(LuPagesOf(lim, count, entries), pos)
    requires LuPagesOf(lim, count, entries)[pos].objIdsLimit > 0
    ensures LuPagesOf(lim, count, entries + [entry]) == Registered(LuPagesOf(lim, count, entries), pos, entry)
  {
    hide LuPagesOf;
    var pages := LuPagesOf(lim, count, entries);
    FirstLuPage(lim, count, entries);
    FirstLuPage(lim, count, entries + [entry]);
    if |entries| < lim {
      assert pages[0].objIdsLimit > 0;
    } else {
      assert pages[0].objIdsLimit == 0;
      var rest := entries[lim..];
      assert pages[1..] == LuPagesOf(lim, count - 1, rest);
      forall i | 0 <= i < pos - 1 ensures pages[1..][i].objIdsLimit == 0 {
        assert pages[1..][i] == pages[i + 1];
      }
      RegisterKeeps(lim, count - 1, rest, pos - 1, entry);
      AppendSplit(entries, entry, lim);
      var last := LuPage(pages[pos].objIdsLimit - 1, pages[pos].objIds + [entry]);
      assert pages[pos := last] == [pages[0]] + pages[1..][pos - 1 := last];
    }
  }

  lemma FirstLuPage(lim: nat, count: nat, entries: seq<LuEntry>)
    requires count > 0
    ensures var pages := LuPagesOf(lim, count, entries);
      && (|entries| <= lim ==> pages == [LuPage(lim - |entries|, entries)] + LuPagesOf(lim, count - 1, []))
      && (|entries| >= lim ==> pages == [LuPage(0, entries[..lim])] + LuPagesOf(lim, count - 1, entries[lim..]))
  {
    if |entries| == lim { assert entries[..lim] == entries && entries[lim..] == []; }
  }

  lemma AppendSplit<T>(s: seq<T>, x: T, k: nat)
    requires k <= |s|
    ensures (s + [x])[..k] == s[..k] && (s + [x])[k..] == s[k..] + [x]
  {
  }

  /** While fewer entries than lookup slots are used, the current lookup page has room, or it is full
      and there is a next one, empty. */
  lemma {:induction false} LookupHasRoom(lim: nat, count: nat, entries: seq<LuEntry>, pos: nat)
    requires lim >= 1 && |entries| < count * lim
    requires AtLuPage(LuPagesOf(lim, count, entries), pos)
    ensures LuPagesOf(lim, count, entries)[pos].objIdsLimit == 0 ==>
      && pos + 1 < count
      && LuPagesOf(lim, count, entries)[pos + 1] == LuPage(lim, [])
  {
    var pages := LuPagesOf(lim, count, entries);
    assert count * lim == (count - 1) * lim + lim;
    if |entries| < lim {
      assert pages[0].objIdsLimit > 0;
    } else {
      var rest := entries[lim..];
      assert pages[1..] == LuPagesOf(lim, count - 1, rest);
      if pos == 0 {
        assert rest != [] ==> pages[1].objIds != [];
      } else {
        forall i | 0 <= i < pos - 1 ensures pages[1..][i].objIdsLimit == 0 {
          assert pages[1..][i] == pages[i + 1];
        }
        LookupHasRoom(lim, count - 1, rest, pos - 1);
      }
    }
  }

  /** Slot `s` of lookup page `k` lists usable page `i == k * lim + s`. */
  lemma {:induction false} LuPagesEntry(lim: nat, count: nat, entries: seq<LuEntry>, k: nat, s: nat, i: nat)
    requires k < count && s < lim && i == k * lim + s < |entries|
    ensures s < |LuPagesOf(lim, count, entries)[k].objIds|
    ensures LuPagesOf(lim, count, entries)[k].objIds[s] == entries[i]
  {
    hide LuPagesOf;
    FirstLuPage(lim, count, entries);
    if k > 0 {
      OneMore(k, lim);
      MulLe(0, k - 1, lim);
      LuPagesEntry(lim, count - 1, entries[lim..], k - 1, s, i - lim);
      assert entries[lim..][i - lim] == entries[i];
    }
  }

  /** Used and free slots of a lookup page add up to its size. */
  lemma {:induction false} LuPagesRoom(lim: nat, count: nat, entries: seq<LuEntry>, k: nat)
    requires k < count
    ensures |LuPagesOf(lim, count, entries)[k].objIds| + LuPagesOf(lim, count, entries)[k].objIdsLimit == lim
  {
    if k > 0 { LuPagesRoom(lim, count - 1, if |entries| <= lim then [] else entries[lim..], k - 1); }
  }

  lemma {:induction false} EmptyLuPages(lim: nat, count: nat)
    ensures LuPagesOf(lim, count, []) == seq(count, _ => LuPage(lim, []))
  {
    if count > 0 {
      EmptyLuPages(lim, count - 1);
    }
  }

  /** The last lookup page has the free slots left in all of them, but no more than its own. */
  lemma {:induction false} LastLuPageFree(lim: nat, count: nat, entries: seq<LuEntry>)
    requires count >= 1 && |entries| <= count * lim
    ensures LuPagesOf(lim, count, entries)[count - 1].objIdsLimit == Min(lim, count * lim - |entries|)
  {
    OneMore(count, lim);
    if count == 1 {
      assert LuPagesOf(lim, 0, []) == [];
    } else {
      var rest := if |entries| <= lim then [] else entries[lim..];
      MulLe(1, count - 1, lim);
      LastLuPageFree(lim, count - 1, rest);
    }
  }
}
