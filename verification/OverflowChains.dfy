// Values too large for a node page, kept on chains of overflow pages.
module OverflowChains {
  import opened HBtreeRecords
  import opened TreeInvariant
  import opened PageAccounts
  import opened Transaction

  function OverflowCapacity(pageSize: int): int {
    pageSize - PAGE_INFO_SIZE - NODE_HEADER_SIZE
  }

  /** The chain after one more page n with the next chunk of the value. */
  ghost function Extended(added: Chains, n: PageNo, chunk: Bytes, o: real): Chains {
    (map c | c in added :: Chain(added[c].owner, added[c].rest + chunk))[n := Chain(o, chunk)]
  }

  /** A chain for the entry at o that holds `data` from its first page on; `prev` is its last page. */
  ghost predicate Building(v: Pages, added: Chains, o: real, first: PageNo, prev: PageNo, data: Bytes) {
    && ChainsOk(v, added) && (forall c :: c in added ==> added[c].owner == o)
    && first in added && added[first].rest == data && prev in added
    && (forall c :: c in added ==> (v[c].next == INVALID_PAGE <==> c == prev))
  }

  /** The pages of a chain from page p on. */
  ghost function PagesFrom(v: Pages, chains: Chains, p: PageNo): set<PageNo>
    requires ChainsOk(v, chains) && p in chains
    decreases |chains[p].rest|
  {
    assert ChainOk(v[p], chains[p], chains);
    {p} + if v[p].next == INVALID_PAGE then {} else PagesFrom(v, chains, v[p].next)
  }

  lemma FirstPage(v: Pages, n: PageNo, chunk: Bytes, o: real)
    requires n in v && v[n] == OverflowPage(chunk, INVALID_PAGE) && |chunk| > 0 && n != INVALID_PAGE
    ensures Building(v, map[n := Chain(o, chunk)], o, n, n, chunk)
  {
  }

  /** putDataOnOverflow: the page before points to the new one. */
  lemma NextPage(v: Pages, added: Chains, o: real, first: PageNo, prev: PageNo, data: Bytes, n: PageNo, chunk: Bytes, w: Pages)
    requires Building(v, added, o, first, prev, data) && n !in added && n != INVALID_PAGE && |chunk| > 0
    requires Same(v, w, added.Keys - {prev}) && prev in w && w[prev] == v[prev].(next := n)
    requires n in w && w[n] == OverflowPage(chunk, INVALID_PAGE)
    ensures Building(w, Extended(added, n, chunk, o), o, first, n, data + chunk)
  {
    var e := Extended(added, n, chunk, o);
    forall c | c in e ensures c in w && c != INVALID_PAGE && ChainOk(w[c], e[c], e) {
      if c != n {
        assert ChainOk(v[c], added[c], added);
        if c != prev {
          var d := v[c].next;
          assert added[c].rest + chunk == v[c].data + (added[d].rest + chunk);
        }
      }
    }
    forall c | c in e ensures w[c].next == INVALID_PAGE <==> c == n {
      if c != n && c != prev {
        assert ChainOk(v[c], added[c], added);
      }
    }
  }

  lemma ExtendedKeys(added: Chains, n: PageNo, chunk: Bytes, o: real)
    ensures Extended(added, n, chunk, o).Keys == added.Keys + {n}
  {
  }

  lemma BuildingPages(v: Pages, added: Chains, o: real, first: PageNo, prev: PageNo, data: Bytes)
    requires Building(v, added, o, first, prev, data)
    ensures added.Keys <= v.Keys && first in added && added[first] == Chain(o, data)
    ensures ChainsOk(v, added) && forall c :: c in added ==> added[c].owner == o
  {
    forall c | c in added ensures c in v {
    }
  }

  lemma NewOverflowTxn(b: Books, t: Tree, x: set<PageNo>, n: PageNo, chunk: Bytes, lim: Limits, h: Health, s: set<PageNo>)
    requires TxnOk(b, t, x, lim) && Healthy(b.View(), t, s, lim.pageSize, h) && MayTake(b, n)
    ensures var c := NewPage(b, n, OverflowPage(chunk, INVALID_PAGE));
      TxnOk(c, t, x + {n}, lim) && Healthy(c.View(), t, s, lim.pageSize, h)
    ensures n !in t.Live() && n !in x && n !in b.dirty && n != INVALID_PAGE
  {
    hide BooksOk, TreeOk, LocalsOk;
    NewPageTxn(b, t, x, n, OverflowPage(chunk, INVALID_PAGE), lim);
    SameHealth(b.View(), NewPage(b, n, OverflowPage(chunk, INVALID_PAGE)).View(), t, s, lim.pageSize, h);
  }

  lemma SameHealth(v: Pages, w: Pages, t: Tree, s: set<PageNo>, pageSize: int, h: Health)
    requires Healthy(v, t, s, pageSize, h) && Same(v, w, t.Live())
    ensures Healthy(w, t, s, pageSize, h)
  {
    hide PageFits, PageFull;
  }

  lemma EditOverflowTxn(b: Books, t: Tree, x: set<PageNo>, p: PageNo, page: Page, lim: Limits, h: Health, s: set<PageNo>)
    requires TxnOk(b, t, x, lim) && Healthy(b.View(), t, s, lim.pageSize, h)
    requires p in x && p in b.dirty && b.dirty[p].OverflowPage? && page.OverflowPage?
    ensures TxnOk(Edit(b, p, page), t, x, lim) && Healthy(Edit(b, p, page).View(), t, s, lim.pageSize, h)
  {
    hide BooksOk, TreeOk, LocalsOk;
    EditKeepsBooks(b, p, page);
    LiveInView(b.View(), t);
    SameTxn(b, Edit(b, p, page), t, x, x, lim);
    SameHealth(b.View(), Edit(b, p, page).View(), t, s, lim.pageSize, h);
  }
}
