/** The scan over the page tree: the walk feeds the pass, so a pass covers the pages that hang from the root. */
module SiteScan {
  import opened Wrappers
  import opened LinkCheck
  import opened ContentTree
  import Scan = DeadLinkScan

  /** The links of each page's markdown, as link extraction returns them. */
  type Links = PageId -> seq<string>

  ghost predicate Trimmed(links: Links) {
    forall id, u :: u in links(id) ==> Trim(u) == u
  }

  function Extracted(ids: seq<PageId>, links: Links): (pages: seq<Scan.Page>)
    ensures |pages| == |ids| && forall i :: 0 <= i < |ids| ==> pages[i] == Scan.Page(ids[i].number, links(ids[i]))
  {
    seq(|ids|, i requires 0 <= i < |ids| => Scan.Page(ids[i].number, links(ids[i])))
  }

  /** `url` is a checkable link of some page that hangs from the root. */
  ghost predicate LiveLink(env: Scan.Env, t: Tree, links: Links, url: string) {
    Scan.Checkable(env, url) && exists id :: Rooted(t, id) && url in links(id)
  }

  /** The references of every page that hangs from the root are exactly its checkable links. */
  ghost predicate RefsAreLive(env: Scan.Env, t: Tree, links: Links, before: RefTable, after: RefTable) {
    forall id: PageId, u :: (id.number, u) in after <==>
      if Rooted(t, id) then u in links(id) && Scan.Checkable(env, u) else (id.number, u) in before
  }

  lemma WalkedPages(env: Scan.Env, t: Tree, links: Links, ids: seq<PageId>)
    requires Trimmed(links) && NoDuplicates(ids) && forall id :: id in ids <==> Rooted(t, id)
    ensures Scan.WellExtracted(Extracted(ids, links))
    ensures forall u :: Scan.IsTarget(env, Extracted(ids, links), u) <==> LiveLink(env, t, links, u)
    ensures forall id: PageId :: Scan.Enumerated(Extracted(ids, links), id.number) <==> Rooted(t, id)
    ensures forall id: PageId, u :: Rooted(t, id) ==>
              (Scan.Links(Extracted(ids, links), id.number, u) <==> u in links(id))
  {
    hide Rooted, Scan.Checkable;
    var pages := Extracted(ids, links);
    assert forall i :: 0 <= i < |ids| ==> ids[i] in ids;
    forall id | Rooted(t, id)
      ensures exists i :: 0 <= i < |pages| && pages[i].id == id.number && pages[i].links == links(id)
    {
      var i :| 0 <= i < |ids| && ids[i] == id;
      assert pages[i] == Scan.Page(id.number, links(id));
    }
    forall i, id: PageId | 0 <= i < |pages| && pages[i].id == id.number
      ensures ids[i] == id && Rooted(t, id) && pages[i].links == links(id)
    {
      assert PageId(ids[i].number) == ids[i];
    }
    forall u
      ensures Scan.IsTarget(env, pages, u) <==> LiveLink(env, t, links, u)
    {
      if i :| 0 <= i < |pages| && u in pages[i].links {
        assert Rooted(t, ids[i]) && u in links(ids[i]);
      }
    }
  }

  /** An internal link on which the pass ends. */
  ghost predicate FailsInside(env: Scan.Env, t: Tree, links: Links) {
    exists u :: LiveLink(env, t, links, u) && Scan.Classify(env, u).InternalTo? && Scan.Checked(env, u).None?
  }

  /** Every rooted page's references can be replaced. */
  ghost predicate AllRelink(env: Scan.Env, t: Tree) {
    forall id :: Rooted(t, id) ==> env.relinks(id.number)
  }

  /** The first fault decides how the pass ends. */
  ghost predicate EndsWell(env: Scan.Env, t: Tree, links: Links, e: Scan.Ending) {
    if !AllRelink(env, t) then e.AtPage?
    else if FailsInside(env, t, links) then e.AtInternal?
    else if !env.prunes then e.AtPrune?
    else if !env.summarizes then e.AtSummary?
    else e.AtEnd?
  }

  /** The checks made: none, some live internal links', or every live link's. */
  ghost predicate ChecksMade(env: Scan.Env, t: Tree, links: Links, e: Scan.Ending, order: seq<string>) {
    match e
    case AtPage(_) => order == []
    case AtInternal => forall u :: u in order ==> LiveLink(env, t, links, u) && Scan.Classify(env, u).InternalTo?
    case _ => forall u :: u in order <==> LiveLink(env, t, links, u)
  }

  ghost function RootedPages(t: Tree): set<PageId> {
    set id | id in t && Rooted(t, id)
  }

  /** One pass over the site, on any page tree: each distinct checkable link of the pages hanging from the root is
      checked exactly once, the table is the sequential pass's, and those pages' references are those links; unless
      a statement fails, and then the pass ends there. */
  method ScanSite(env: Scan.Env, store: LinkStore, t: Tree, links: Links, now: int, sqlNow: int)
    returns (summary: Option<Scan.ScanSummary>, ghost order: seq<string>, ghost fetched: seq<string>,
             ghost e: Scan.Ending)
    requires Trimmed(links)
    modifies store
    ensures EndsWell(env, t, links, e) && ChecksMade(env, t, links, e, order) && NoDuplicates(order)
    ensures Scan.OnlyForeign(env, order, fetched)
    ensures !e.AtPage? ==> RefsAreLive(env, t, links, old(store.refs), store.refs)
    ensures e.AtPage? ==> RefsAreLiveOrOld(env, t, links, old(store.refs), store.refs)
    ensures store.checks == Scan.TableAfter(env, e, order, old(store.checks), store.refs, now, sqlNow)
    ensures summary == if e.AtEnd? then Some(Scan.Summarize(store.checks, |RootedPages(t)|, |order|)) else None
  {
    hide Rooted, Scan.Checkable, Scan.Classify, Scan.Checked, Scan.TableAfter, Scan.Summarize, Scan.ReferencedByPages,
      Scan.EndsWell, Scan.ChecksMade, EndsWell, ChecksMade, RefsAreLive, RefsAreLiveOrOld, Scan.WellExtracted,
      Scan.OnlyForeign;
    var ids := AllPages(t);
    WalkedPages(env, t, links, ids);
    ghost var before := store.refs;
    summary, order, fetched, e := Scan.RunScan(env, store, Extracted(ids, links), now, sqlNow);
    EndingCarriesOver(env, t, links, ids, e, order);
    if e.AtPage? {
      SomeRefsCarryOver(env, t, links, ids, e.place, before, store.refs);
    } else {
      RefsCarryOver(env, t, links, ids, before, store.refs);
    }
    PagesCounted(t, ids);
  }

  /** A page's references are its live links, or still what they were. */
  ghost predicate RefsAreLiveOrOld(env: Scan.Env, t: Tree, links: Links, before: RefTable, after: RefTable) {
    forall id: PageId ::
      (Rooted(t, id) && forall u :: (id.number, u) in after <==> u in links(id) && Scan.Checkable(env, u)) ||
      (forall u :: (id.number, u) in after <==> (id.number, u) in before)
  }

  lemma PagesCounted(t: Tree, ids: seq<PageId>)
    requires NoDuplicates(ids) && forall id :: id in ids <==> Rooted(t, id)
    ensures |RootedPages(t)| == |ids|
  {
    forall id | Rooted(t, id)
      ensures id in t
    {
      RootedStep(t, id);
    }
    assert RootedPages(t) == Members(ids);
    MembersSize(ids);
  }

  function Members(ids: seq<PageId>): set<PageId> { set id | id in ids }

  lemma {:induction false} MembersSize(ids: seq<PageId>)
    requires NoDuplicates(ids)
    ensures |Members(ids)| == |ids|
  {
    if ids != [] {
      var n := |ids| - 1;
      MembersSize(ids[..n]);
      assert Members(ids) == Members(ids[..n]) + {ids[n]};
      assert ids[n] !in ids[..n];
    }
  }

  lemma EndingCarriesOver(env: Scan.Env, t: Tree, links: Links, ids: seq<PageId>, e: Scan.Ending, order: seq<string>)
    requires Trimmed(links) && NoDuplicates(ids) && forall id :: id in ids <==> Rooted(t, id)
    requires Scan.EndsWell(env, Extracted(ids, links), e) && Scan.ChecksMade(env, Extracted(ids, links), e, order)
    ensures EndsWell(env, t, links, e) && ChecksMade(env, t, links, e, order)
  {
    hide Rooted, Scan.Checkable, Scan.Classify, Scan.Checked, Scan.IsTarget, LiveLink;
    WalkedPages(env, t, links, ids);
    var pages := Extracted(ids, links);
    assert forall i :: 0 <= i < |ids| ==> ids[i] in ids && pages[i].id == ids[i].number;
    forall id | Rooted(t, id) && forall i :: 0 <= i < |pages| ==> env.relinks(pages[i].id)
      ensures env.relinks(id.number)
    {
      var i :| 0 <= i < |ids| && ids[i] == id;
      assert pages[i].id == id.number;
    }
    assert Scan.FailsInside(env, pages) <==> FailsInside(env, t, links);
  }

  lemma RefsCarryOver(env: Scan.Env, t: Tree, links: Links, ids: seq<PageId>, before: RefTable, after: RefTable)
    requires Trimmed(links) && NoDuplicates(ids) && forall id :: id in ids <==> Rooted(t, id)
    requires Scan.ReferencedByPages(env, Extracted(ids, links), before, after)
    ensures RefsAreLive(env, t, links, before, after)
  {
    hide Rooted, Scan.Checkable;
    WalkedPages(env, t, links, ids);
  }

  lemma SomeRefsCarryOver(env: Scan.Env, t: Tree, links: Links, ids: seq<PageId>, place: nat,
                          before: RefTable, after: RefTable)
    requires Trimmed(links) && NoDuplicates(ids) && forall id :: id in ids <==> Rooted(t, id)
    requires Scan.ReferencedByPages(env, Scan.Replaced(Extracted(ids, links), Scan.AtPage(place)), before, after)
    ensures RefsAreLiveOrOld(env, t, links, before, after)
  {
    hide Rooted, Scan.Checkable;
    var pages := Scan.Replaced(Extracted(ids, links), Scan.AtPage(place));
    forall id: PageId | Scan.Enumerated(pages, id.number)
      ensures Rooted(t, id) && forall u :: Scan.Links(pages, id.number, u) <==> u in links(id)
    {
      var i :| 0 <= i < |pages| && pages[i].id == id.number;
      assert PageId(ids[i].number) == ids[i] && ids[i] in ids;
      forall j | 0 <= j < |pages| && pages[j].id == id.number
        ensures pages[j].links == links(id)
      {
        assert PageId(ids[j].number) == ids[j];
      }
    }
  }
}
