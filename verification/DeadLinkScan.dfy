/** One scan pass: collect the targets, check each distinct URL once, prune, summarize. */
module DeadLinkScan {
  import opened Wrappers
  import opened Text
  import opened LinkCheck

  // ---- Classification ----

  datatype LinkTarget = InternalTo(path: string) | ExternalTo(url: string) | Skip

  datatype ParsedUrl = ParsedUrl(scheme: string, host: Option<string>, path: string,
                                 query: Option<string>, fragment: Option<string>)

  /** What the pass asks of the world: the URL parser, the site's host, in-database resolution (nothing when the
      look-up fails), the HTTP checker, the host a URL is grouped under, and whether the database takes the
      record of a URL, the references of a page, the prune and the summary query. */
  datatype Env = Env(parse: string -> Option<ParsedUrl>, site: string, resolve: string -> Option<CheckClass>,
                     check: string -> Outcome, host: string -> string, stores: string -> bool,
                     relinks: int -> bool, prunes: bool, summarizes: bool)

  function InternalPath(p: ParsedUrl): string {
    var query := if p.query.Some? then "?" + p.query.value else "";
    var fragment := if p.fragment.Some? then "#" + p.fragment.value else "";
    p.path + query + fragment
  }

  function Classify(env: Env, raw: string): LinkTarget {
    var url := Trim(raw);
    if url == "" || url[0] == '#' then Skip
    else if url[0] == '/' then if |url| >= 2 && url[1] == '/' then Skip else InternalTo(url)
    else match env.parse(url)
      case None => Skip
      case Some(p) =>
        if p.scheme != "http" && p.scheme != "https" then Skip
        else
          var host := AsciiLower(if p.host.Some? then p.host.value else "");
          if host == AsciiLower(env.site) || host == "www." + AsciiLower(env.site) then InternalTo(InternalPath(p))
          else ExternalTo(url)
  }

  /** Extracted links come trimmed, so an external target is the raw link itself. */
  lemma ExternalKeepsUrl(env: Env, raw: string)
    requires Trim(raw) == raw && Classify(env, raw).ExternalTo?
    ensures Classify(env, raw).url == raw
  {
  }

  /** An http or https URL of the site itself, with or without `www.`, letter case aside. */
  predicate OnOwnHost(env: Env, p: ParsedUrl) {
    var host := AsciiLower(if p.host.Some? then p.host.value else "");
    host == AsciiLower(env.site) || host == "www." + AsciiLower(env.site)
  }

  predicate IsHttp(p: ParsedUrl) { p.scheme == "http" || p.scheme == "https" }

  /** The URL a link is, once trimmed: nothing for a blank link, a fragment, or one from the root. */
  function Absolute(env: Env, raw: string): Option<ParsedUrl> {
    var url := Trim(raw);
    if url == "" || url[0] == '#' || url[0] == '/' then None else env.parse(url)
  }

  /** The link leads to another host. */
  predicate IsForeign(env: Env, raw: string) {
    Absolute(env, raw).Some? && IsHttp(Absolute(env, raw).value) && !OnOwnHost(env, Absolute(env, raw).value)
  }

  /** The path, query and fragment a link within the site leads to. */
  predicate LeadsTo(env: Env, raw: string, path: string) {
    var url := Trim(raw);
    if url != "" && url[0] == '/' then path == url && !(|url| >= 2 && url[1] == '/')
    else
      Absolute(env, raw).Some? &&
      var p := Absolute(env, raw).value;
      IsHttp(p) && OnOwnHost(env, p) &&
      path == p.path + (if p.query.None? then "" else "?" + p.query.value) +
              (if p.fragment.None? then "" else "#" + p.fragment.value)
  }

  /** External are exactly the http and https links to another host, under their own text; internal are exactly the
      links from the root and the http and https links to the site's own host. */
  lemma ClassifyIff(env: Env, raw: string, text: string)
    ensures Classify(env, raw) == ExternalTo(text) <==> IsForeign(env, raw) && text == Trim(raw)
    ensures Classify(env, raw) == InternalTo(text) <==> LeadsTo(env, raw, text)
  {
    hide AsciiLower, Trim;
  }

  lemma ExternalIff(env: Env, raw: string)
    ensures Classify(env, raw).ExternalTo? <==> IsForeign(env, raw)
  {
    hide Classify, IsForeign, LeadsTo;
    ClassifyIff(env, raw, Trim(raw));
    if Classify(env, raw).ExternalTo? {
      ClassifyIff(env, raw, Classify(env, raw).url);
    }
  }

  predicate Checkable(env: Env, raw: string) { !Classify(env, raw).Skip? }

  // ---- What one pass records ----

  function KindOf(env: Env, url: string): LinkKind {
    if Classify(env, url).InternalTo? then Internal else External
  }

  function InternalDetail(c: CheckClass): string {
    match c
    case Ok => "resolved"
    case Dead => "no such page or media"
    case _ => "unrecognized internal route"
  }

  /** What checking a URL gets to record, if look-up and record succeed. */
  function Checked(env: Env, url: string): Option<Outcome> {
    if !env.stores(url) then None
    else match Classify(env, url)
      case InternalTo(path) =>
        if env.resolve(path).None? then None
        else Some(Outcome(env.resolve(path).value, None, InternalDetail(env.resolve(path).value)))
      case _ => Some(env.check(url))
  }

  /** A failed look-up or record leaves the table alone. */
  function RecordUrl(env: Env, t: CheckTable, url: string, now: int): CheckTable {
    match Checked(env, url)
    case None => t
    case Some(o) => Recorded(t, url, KindOf(env, url), o, now)
  }

  /** The URLs recorded one after another. */
  function RecordAll(env: Env, t: CheckTable, order: seq<string>, now: int): CheckTable {
    if order == [] then t else RecordUrl(env, RecordAll(env, t, order[..|order| - 1], now), order[|order| - 1], now)
  }

  /** The table in which exactly the given URLs were checked, each from its row before the pass. */
  function CheckedTable(env: Env, t: CheckTable, urls: set<string>, now: int): CheckTable {
    map u | u in t.Keys + urls && (u in t || Checked(env, u).Some?) ::
      if u in urls && Checked(env, u).Some?
      then NextState(u, KindOf(env, u), Get(t, u), Checked(env, u).value, now, MIN_STREAK_INTERVAL)
      else t[u]
  }

  /** What a pass records of a checked link: a foreign one is fetched, one within the site is looked up by path. */
  lemma CheckedRowMeans(env: Env, t: CheckTable, urls: set<string>, url: string, path: string, now: int)
    requires url in urls && env.stores(url)
    ensures IsForeign(env, url) ==>
              var r := CheckedTable(env, t, urls, now)[url];
              r.kind == "external" && r.Class() == env.check(url).verdict && r.lastStatus == env.check(url).status
    ensures LeadsTo(env, url, path) && env.resolve(path).Some? ==>
              var r := CheckedTable(env, t, urls, now)[url];
              r.kind == "internal" && r.Class() == env.resolve(path).value && r.lastStatus == None &&
              r.detail == Some(match env.resolve(path).value
                               case Ok => "resolved"
                               case Dead => "no such page or media"
                               case _ => "unrecognized internal route")
    ensures LeadsTo(env, url, path) && env.resolve(path).None? ==>
              (url in CheckedTable(env, t, urls, now) <==> url in t)
  {
    hide Classify, IsForeign, LeadsTo, NextState, ClassFromStored, Trim, AllSpace;
    ExternalIff(env, url);
    ClassifyIff(env, url, path);
    if Checked(env, url).Some? {
      var o := Checked(env, url).value;
      NextStateCarries(url, KindOf(env, url), Get(t, url), o, now, MIN_STREAK_INTERVAL);
      InternalDetailsTrimmed();
    }
  }

  lemma InternalDetailsTrimmed()
    ensures forall c: CheckClass :: Trim(InternalDetail(c)) == InternalDetail(c) && !AllSpace(InternalDetail(c))
  {
    forall c: CheckClass
      ensures Trim(InternalDetail(c)) == InternalDetail(c) && !AllSpace(InternalDetail(c))
    {
      assert !IsSpace(InternalDetail(c)[0]);
    }
  }

  lemma CheckOneMore(env: Env, t: CheckTable, urls: set<string>, url: string, now: int)
    requires url !in urls
    ensures RecordUrl(env, CheckedTable(env, t, urls, now), url, now) == CheckedTable(env, t, urls + {url}, now)
  {
    hide NextState, Checked, KindOf;
    var before := CheckedTable(env, t, urls, now);
    assert Get(before, url) == Get(t, url);
  }

  function Elems<T>(s: seq<T>): set<T> { set x | x in s }

  /** Whatever order distinct URLs are recorded in, the table comes out the same. */
  lemma {:induction false} OrderIrrelevant(env: Env, t: CheckTable, order: seq<string>, now: int)
    requires NoDuplicates(order)
    ensures RecordAll(env, t, order, now) == CheckedTable(env, t, Elems(order), now)
  {
    hide RecordUrl, NextState, Checked, KindOf;
    if order == [] {
      assert CheckedTable(env, t, {}, now) == t;
    } else {
      var n := |order| - 1;
      var earlier := Elems(order[..n]);
      OrderIrrelevant(env, t, order[..n], now);
      CheckOneMore(env, t, earlier, order[n], now);
      assert Elems(order) == earlier + {order[n]};
    }
  }

  /** Any two interleavings of the same checks leave the same table. */
  lemma Confluence(env: Env, t: CheckTable, order: seq<string>, order': seq<string>, now: int)
    requires NoDuplicates(order) && NoDuplicates(order') && Elems(order) == Elems(order')
    ensures RecordAll(env, t, order, now) == RecordAll(env, t, order', now)
  {
    OrderIrrelevant(env, t, order, now);
    OrderIrrelevant(env, t, order', now);
  }

  // ---- The pass ----

  datatype Page = Page(id: int, links: seq<string>)

  /** What link extraction guarantees of a page, and the tree walk of the list. */
  predicate WellExtracted(pages: seq<Page>) {
    && (forall i, j :: 0 <= i < j < |pages| ==> pages[i].id != pages[j].id)
    && (forall i, u :: 0 <= i < |pages| && u in pages[i].links ==> Trim(u) == u)
  }

  predicate Links(pages: seq<Page>, id: int, url: string) {
    exists i :: 0 <= i < |pages| && pages[i].id == id && url in pages[i].links
  }

  predicate Enumerated(pages: seq<Page>, id: int) {
    exists i :: 0 <= i < |pages| && pages[i].id == id
  }

  ghost predicate IsTarget(env: Env, pages: seq<Page>, url: string) {
    Checkable(env, url) && exists i :: 0 <= i < |pages| && url in pages[i].links
  }

  ghost predicate ReferencedByPages(env: Env, pages: seq<Page>, before: RefTable, after: RefTable) {
    forall id, u :: (id, u) in after <==>
                    if Enumerated(pages, id) then Links(pages, id, u) && Checkable(env, u) else (id, u) in before
  }

  /** Phase 1 on one page: its checkable links, and the targets they add. */
  method PageTargets(env: Env, links: seq<string>, targets0: map<string, LinkTarget>)
    returns (urls: seq<string>, targets: map<string, LinkTarget>)
    ensures forall u :: u in urls <==> u in links && Checkable(env, u)
    ensures targets.Keys == targets0.Keys + set u | u in urls
    ensures forall u :: u in targets ==> targets[u] == if u in targets0 then targets0[u] else Classify(env, u)
  {
    hide Classify;
    urls, targets := [], targets0;
    for i := 0 to |links|
      invariant forall u :: u in urls <==> u in links[..i] && Checkable(env, u)
      invariant targets.Keys == targets0.Keys + set u | u in urls
      invariant forall u :: u in targets ==> targets[u] == if u in targets0 then targets0[u] else Classify(env, u)
    {
      var raw := links[i];
      var target := Classify(env, raw);
      if !target.Skip? {
        urls := urls + [raw];
        if raw !in targets {
          targets := targets[raw := target];
        }
      }
    }
    assert links[..|links|] == links;
  }

  /** Phase 1. The first page whose references cannot be replaced ends the pass. */
  method CollectTargets(env: Env, store: LinkStore, pages: seq<Page>)
    returns (ok: bool, targets: map<string, LinkTarget>, ghost done: nat)
    requires WellExtracted(pages)
    modifies store`refs
    ensures done <= |pages| && forall i :: 0 <= i < done ==> env.relinks(pages[i].id)
    ensures if ok then done == |pages| else done < |pages| && !env.relinks(pages[done].id)
    ensures forall u :: u in targets <==> IsTarget(env, pages[..done], u)
    ensures forall u :: u in targets ==> targets[u] == Classify(env, u)
    ensures ReferencedByPages(env, pages[..done], old(store.refs), store.refs)
  {
    hide Classify, Checkable;
    targets := map[];
    done := 0;
    for i := 0 to |pages|
      invariant done == i && forall j :: 0 <= j < i ==> env.relinks(pages[j].id)
      invariant forall u :: u in targets <==> IsTarget(env, pages[..i], u)
      invariant forall u :: u in targets ==> targets[u] == Classify(env, u)
      invariant forall id, u :: (id, u) in store.refs <==>
                                if Enumerated(pages[..i], id) then Links(pages[..i], id, u) && Checkable(env, u)
                                else (id, u) in old(store.refs)
    {
      if !env.relinks(pages[i].id) {
        return false, targets, done;
      }
      var urls, next := PageTargets(env, pages[i].links, targets);
      PrefixSteps(env, pages, i);
      targets := next;
      store.ReplaceForPage(pages[i].id, urls);
      done := done + 1;
    }
    ok := true;
  }

  /** One more page in the prefix. */
  lemma PrefixSteps(env: Env, pages: seq<Page>, i: nat)
    requires i < |pages| && WellExtracted(pages)
    ensures forall u :: IsTarget(env, pages[..i + 1], u) <==>
                        IsTarget(env, pages[..i], u) || (Checkable(env, u) && u in pages[i].links)
    ensures forall id :: Enumerated(pages[..i + 1], id) <==> Enumerated(pages[..i], id) || id == pages[i].id
    ensures forall id, u :: Links(pages[..i + 1], id, u) <==>
                            if id == pages[i].id then u in pages[i].links else Links(pages[..i], id, u)
  {
    hide Checkable;
    var a, b := pages[..i], pages[..i + 1];
    assert b == a + [pages[i]];
    forall u
      ensures IsTarget(env, b, u) <==> IsTarget(env, a, u) || (Checkable(env, u) && u in pages[i].links)
    {
      assert IsTarget(env, a, u) ==> exists k :: 0 <= k < |a| && u in b[k].links;
      assert u in b[i].links <==> u in pages[i].links;
    }
    assert b[i].id == pages[i].id;
    assert forall k :: 0 <= k < i ==> a[k] == b[k] == pages[k] && pages[k].id != pages[i].id;
    forall id, u
      ensures Links(b, id, u) <==> if id == pages[i].id then u in pages[i].links else Links(a, id, u)
    {
      if id == pages[i].id {
        assert u in pages[i].links ==> b[i].id == id && u in b[i].links;
      } else if Links(a, id, u) {
        var k :| 0 <= k < |a| && a[k].id == id && u in a[k].links;
        assert b[k].id == id && u in b[k].links;
      }
    }
  }

  /** The list holds exactly the internal targets outside `rest`, each once. */
  ghost predicate InternalList(internal: seq<(string, string)>, targets: map<string, LinkTarget>,
                               rest: map<string, LinkTarget>) {
    && NoDuplicates(Firsts(internal))
    && (forall i :: 0 <= i < |internal| ==>
          internal[i].0 in targets && targets[internal[i].0] == InternalTo(internal[i].1))
    && (forall u :: u in Firsts(internal) <==> u in targets && u !in rest && targets[u].InternalTo?)
  }

  ghost predicate ExternalList(external: seq<string>, targets: map<string, LinkTarget>, rest: map<string, LinkTarget>) {
    NoDuplicates(external) && forall u :: u in external <==> u in targets && u !in rest && targets[u].ExternalTo?
  }

  /** Phase 2: the hash map is drained in any order into the two lists. */
  method Partition(env: Env, targets: map<string, LinkTarget>)
    returns (internal: seq<(string, string)>, external: seq<string>)
    requires forall u :: u in targets ==> targets[u] == Classify(env, u) && Trim(u) == u
    ensures InternalList(internal, targets, map[])
    ensures ExternalList(external, targets, map[])
  {
    hide Classify, InternalList, ExternalList;
    internal, external := [], [];
    var rest := targets;
    ListsStart(targets);
    while rest != map[]
      invariant forall u :: u in rest ==> u in targets && rest[u] == targets[u]
      invariant InternalList(internal, targets, rest) && ExternalList(external, targets, rest)
      decreases |rest|
    {
      var url :| url in rest;
      ListsGrow(env, internal, external, targets, rest, url);
      match rest[url] {
        case InternalTo(path) => internal := internal + [(url, path)];
        case ExternalTo(u) => external := external + [u];
        case Skip =>
      }
      rest := rest - {url};
    }
  }

  function AddInternal(internal: seq<(string, string)>, url: string, target: LinkTarget): seq<(string, string)> {
    if target.InternalTo? then internal + [(url, target.path)] else internal
  }

  function AddExternal(external: seq<string>, target: LinkTarget): seq<string> {
    if target.ExternalTo? then external + [target.url] else external
  }

  lemma ListsStart(targets: map<string, LinkTarget>)
    ensures InternalList([], targets, targets) && ExternalList([], targets, targets)
  {
  }

  lemma ListsGrow(env: Env, internal: seq<(string, string)>, external: seq<string>,
                  targets: map<string, LinkTarget>, rest: map<string, LinkTarget>, url: string)
    requires InternalList(internal, targets, rest) && ExternalList(external, targets, rest)
    requires url in rest && url in targets && rest[url] == targets[url] == Classify(env, url) && Trim(url) == url
    ensures InternalList(AddInternal(internal, url, rest[url]), targets, rest - {url})
    ensures ExternalList(AddExternal(external, rest[url]), targets, rest - {url})
  {
    hide Classify;
    match rest[url] {
      case InternalTo(path) =>
        assert Firsts(internal + [(url, path)]) == Firsts(internal) + [url];
      case ExternalTo(u) =>
        ExternalKeepsUrl(env, url);
      case Skip =>
    }
  }

  function Firsts(s: seq<(string, string)>): (r: seq<string>)
    ensures |r| == |s| && forall i :: 0 <= i < |s| ==> r[i] == s[i].0
  {
    seq(|s|, i requires 0 <= i < |s| => s[i].0)
  }

  lemma InternalRecord(env: Env, t: CheckTable, url: string, path: string, now: int)
    requires Classify(env, url) == InternalTo(path)
    ensures Checked(env, url).None? <==> env.resolve(path).None? || !env.stores(url)
    ensures Checked(env, url).Some? ==>
              var verdict := env.resolve(path).value;
              RecordUrl(env, t, url, now) ==
              Recorded(t, url, Internal, Outcome(verdict, None, InternalDetail(verdict)), now)
  {
    hide NextState;
  }

  /** Phase 3: the internal links, one after another. The first failed look-up or record ends the pass. */
  method CheckInternal(env: Env, store: LinkStore, internal: seq<(string, string)>, now: int)
    returns (ok: bool, ghost done: nat)
    requires forall i :: 0 <= i < |internal| ==> Classify(env, internal[i].0) == InternalTo(internal[i].1)
    modifies store`checks
    ensures done <= |internal| && store.checks == RecordAll(env, old(store.checks), Firsts(internal)[..done], now)
    ensures forall i :: 0 <= i < done ==> Checked(env, internal[i].0).Some?
    ensures if ok then done == |internal| else done < |internal| && Checked(env, internal[done].0).None?
  {
    hide Classify, Checked, RecordUrl, Recorded;
    ghost var urls := Firsts(internal);
    done := 0;
    for i := 0 to |internal|
      invariant done == i && store.checks == RecordAll(env, old(store.checks), urls[..i], now)
      invariant forall j :: 0 <= j < i ==> Checked(env, internal[j].0).Some?
    {
      var (url, path) := internal[i];
      InternalRecord(env, store.checks, url, path, now);
      var verdict := env.resolve(path);
      if verdict.None? || !env.stores(url) {
        return false, done;
      }
      var _ := store.Record(url, Internal, Outcome(verdict.value, None, InternalDetail(verdict.value)), now);
      assert urls[..i + 1][..i] == urls[..i];
      done := done + 1;
    }
    ok := true;
  }

  // ---- Phase 4: hosts concurrent, each host's URLs in turn ----

  const MAX_CONCURRENT_HOSTS: nat := 4

  type Queues = map<string, seq<string>>

  /** The queues hold exactly the URLs still to do, each once, under its own host. */
  predicate QueuesHold(env: Env, queues: Queues, todo: set<string>) {
    && (forall h, u :: h in queues && u in queues[h] ==> u in todo && env.host(u) == h)
    && (forall u :: u in todo ==> env.host(u) in queues && u in queues[env.host(u)])
    && (forall h :: h in queues ==> NoDuplicates(queues[h]))
  }

  method GroupByHost(env: Env, external: seq<string>) returns (queues: Queues)
    requires NoDuplicates(external)
    ensures QueuesHold(env, queues, Elems(external))
    ensures forall h :: h in queues ==> queues[h] != []
  {
    hide QueuesHold;
    queues := map[];
    QueuesStart(env);
    for i := 0 to |external|
      invariant QueuesHold(env, queues, Elems(external[..i]))
      invariant forall h :: h in queues ==> queues[h] != []
    {
      var u := external[i];
      var host := env.host(u);
      assert u !in external[..i];
      assert Elems(external[..i + 1]) == Elems(external[..i]) + {u};
      QueuesGrow(env, queues, Elems(external[..i]), u);
      queues := queues[host := Rest(queues, host) + [u]];
    }
    assert external[..|external|] == external;
  }

  lemma QueuesStart(env: Env)
    ensures QueuesHold(env, map[], Elems([]))
  {
  }

  lemma QueuesGrow(env: Env, queues: Queues, todo: set<string>, u: string)
    requires QueuesHold(env, queues, todo) && u !in todo
    ensures QueuesHold(env, queues[env.host(u) := Rest(queues, env.host(u)) + [u]], todo + {u})
  {
    var h := env.host(u);
    var q := Rest(queues, h);
    assert forall v :: v in q + [u] <==> v in q || v == u;
    assert NoDuplicates(q + [u]) by {
      assert forall i :: 0 <= i < |q| ==> q[i] in q;
    }
  }

  /** Between two records: `order` was recorded, `todo` is queued, and together they are `urls`. */
  ghost predicate Progress(env: Env, t: CheckTable, urls: set<string>, now: int,
                           queues: Queues, todo: set<string>, order: seq<string>, checks: CheckTable) {
    && QueuesHold(env, queues, todo) && (forall h :: h in queues ==> queues[h] != [])
    && todo <= urls && (forall u :: u in urls ==> Classify(env, u).ExternalTo?)
    && NoDuplicates(order) && Elems(order) == urls - todo
    && checks == RecordAll(env, t, order, now)
  }

  lemma ProgressStarts(env: Env, t: CheckTable, urls: set<string>, now: int, queues: Queues)
    requires QueuesHold(env, queues, urls) && forall h :: h in queues ==> queues[h] != []
    requires forall u :: u in urls ==> Classify(env, u).ExternalTo?
    ensures Progress(env, t, urls, now, queues, urls, [], t)
  {
    hide Classify, QueuesHold;
  }

  lemma ProgressStep(env: Env, t: CheckTable, urls: set<string>, now: int,
                     queues: Queues, todo: set<string>, order: seq<string>, checks: CheckTable, h: string)
    requires Progress(env, t, urls, now, queues, todo, order, checks) && h in queues
    ensures queues[h] != [] && Classify(env, queues[h][0]).ExternalTo? && |todo - {queues[h][0]}| < |todo|
    ensures env.host(queues[h][0]) == h
    ensures var u := queues[h][0];
            Progress(env, t, urls, now, Advanced(queues, h), todo - {u}, order + [u], RecordUrl(env, checks, u, now))
  {
    hide Classify, RecordUrl, QueuesHold, NoDuplicates, Elems, RecordAll, Advanced;
    NextInQueue(env, queues, todo, h);
    OneDone(urls, todo, queues[h][0]);
    RecordedNext(env, t, order, queues[h][0], now);
  }

  lemma OneDone<T>(urls: set<T>, todo: set<T>, u: T)
    requires u in todo && todo <= urls
    ensures todo - {u} <= urls && |todo - {u}| < |todo| && u !in urls - todo
    ensures urls - (todo - {u}) == urls - todo + {u}
  {
  }

  function Advanced(queues: Queues, h: string): Queues
    requires h in queues && queues[h] != []
  {
    if |queues[h]| == 1 then queues - {h} else queues[h := queues[h][1..]]
  }

  lemma ProgressEnds(env: Env, t: CheckTable, urls: set<string>, now: int,
                     queues: Queues, todo: set<string>, order: seq<string>, checks: CheckTable)
    requires Progress(env, t, urls, now, queues, todo, order, checks) && queues.Keys == {}
    ensures NoDuplicates(order) && Elems(order) == urls && checks == RecordAll(env, t, order, now)
  {
    hide RecordAll;
    assert forall u :: u in todo ==> env.host(u) in queues.Keys;
    assert todo == {};
  }

  /** The records of one host among those made so far. */
  function RecordsOf(env: Env, order: seq<string>, h: string): seq<string> {
    if order == [] then []
    else
      var u := order[|order| - 1];
      var earlier := RecordsOf(env, order[..|order| - 1], h);
      if env.host(u) == h then earlier + [u] else earlier
  }

  function Rest(queues: Queues, h: string): seq<string> { if h in queues then queues[h] else [] }

  /** The hosts some but not all of whose URLs have been recorded. */
  function Begun(env: Env, queues0: Queues, order: seq<string>): set<string> {
    set h | h in queues0 && RecordsOf(env, order, h) != [] && |RecordsOf(env, order, h)| < |queues0[h]|
  }

  /** After any number of the records, at most four hosts are begun and not finished. */
  ghost predicate Capped(env: Env, queues0: Queues, order: seq<string>) {
    forall i :: 0 <= i <= |order| ==> |Begun(env, queues0, order[..i])| <= 4
  }

  /** Each host's records are the front of its queue, the rest is still queued, and a waiting host has none. */
  ghost predicate InTurn(env: Env, queues0: Queues, queues: Queues, waiting: set<string>, order: seq<string>) {
    && (forall h :: h in queues ==> h in queues0)
    && (forall h :: h in queues0 ==> RecordsOf(env, order, h) + Rest(queues, h) == queues0[h])
    && (forall h :: h in waiting ==> RecordsOf(env, order, h) == [])
  }

  lemma TurnsStart(env: Env, queues0: Queues)
    ensures InTurn(env, queues0, queues0, queues0.Keys, []) && Capped(env, queues0, [])
  {
    assert Begun(env, queues0, []) == {};
  }

  lemma OneMoreRecord(env: Env, order: seq<string>, u: string)
    ensures forall h :: RecordsOf(env, order + [u], h) ==
                        if env.host(u) == h then RecordsOf(env, order, h) + [u] else RecordsOf(env, order, h)
  {
    assert (order + [u])[..|order|] == order;
  }

  /** A worker records the next URL of a host in flight. */
  lemma TurnStep(env: Env, queues0: Queues, queues: Queues, waiting: set<string>, active: set<string>,
                 order: seq<string>, h: string)
    requires InTurn(env, queues0, queues, waiting, order) && Capped(env, queues0, order)
    requires Pools(queues, waiting, active) && h in active && h in queues && queues[h] != [] &&
        env.host(queues[h][0]) == h
    ensures InTurn(env, queues0, Advanced(queues, h), waiting, order + [queues[h][0]])
    ensures Capped(env, queues0, order + [queues[h][0]])
  {
    hide RecordsOf, Begun, InTurn, Advanced, Capped;
    var order' := order + [queues[h][0]];
    NextTurn(env, queues0, queues, waiting, order, h);
    BegunInFlight(env, queues0, Advanced(queues, h), waiting, order');
    SubsetSize(Begun(env, queues0, order'), active);
    CappedNext(env, queues0, order, queues[h][0]);
  }

  lemma NextTurn(env: Env, queues0: Queues, queues: Queues, waiting: set<string>, order: seq<string>, h: string)
    requires InTurn(env, queues0, queues, waiting, order) && h in queues && h !in waiting
    requires queues[h] != [] && env.host(queues[h][0]) == h
    ensures InTurn(env, queues0, Advanced(queues, h), waiting, order + [queues[h][0]])
    ensures Advanced(queues, h).Keys <= queues.Keys
  {
    hide RecordsOf, Rest, Advanced;
    var u := queues[h][0];
    OneMoreRecord(env, order, u);
    RestAfter(queues, h);
    forall g | g in queues0
      ensures RecordsOf(env, order + [u], g) + Rest(Advanced(queues, h), g) == queues0[g]
    {
      if g == h {
        MoveAcross(RecordsOf(env, order, h), u, Rest(Advanced(queues, h), h));
      }
    }
  }

  lemma RestAfter(queues: Queues, h: string)
    requires h in queues && queues[h] != []
    ensures Advanced(queues, h).Keys <= queues.Keys
    ensures Rest(queues, h) == [queues[h][0]] + Rest(Advanced(queues, h), h)
    ensures forall g :: g != h ==> Rest(Advanced(queues, h), g) == Rest(queues, g)
  {
    if |queues[h]| == 1 {
      assert queues[h] == [queues[h][0]] + [];
    } else {
      assert queues[h] == [queues[h][0]] + queues[h][1..];
    }
  }

  lemma MoveAcross(front: seq<string>, u: string, back: seq<string>)
    ensures front + ([u] + back) == front + [u] + back && front + [] == front
  {
  }

  /** A host begun and not finished is neither waiting nor out of the queues. */
  lemma BegunInFlight(env: Env, queues0: Queues, queues: Queues, waiting: set<string>, order: seq<string>)
    requires InTurn(env, queues0, queues, waiting, order)
    ensures Begun(env, queues0, order) <= queues.Keys - waiting
  {
    hide RecordsOf;
    forall g | g in Begun(env, queues0, order)
      ensures g in queues && g !in waiting
    {
      assert RecordsOf(env, order, g) + Rest(queues, g) == queues0[g];
    }
  }

  lemma CappedNext(env: Env, queues0: Queues, order: seq<string>, u: string)
    requires Capped(env, queues0, order) && |Begun(env, queues0, order + [u])| <= MAX_CONCURRENT_HOSTS
    ensures Capped(env, queues0, order + [u])
  {
    hide Begun;
    var order' := order + [u];
    forall i | 0 <= i <= |order'|
      ensures |Begun(env, queues0, order'[..i])| <= MAX_CONCURRENT_HOSTS
    {
      if i == |order'| {
        assert order'[..i] == order';
      } else {
        assert order'[..i] == order[..i];
      }
    }
  }

  lemma TurnsEnd(env: Env, queues0: Queues, queues: Queues, waiting: set<string>, order: seq<string>)
    requires InTurn(env, queues0, queues, waiting, order) && queues.Keys == {}
    ensures forall h :: h in queues0 ==> RecordsOf(env, order, h) == queues0[h]
  {
    hide RecordsOf;
    forall h | h in queues0
      ensures RecordsOf(env, order, h) == queues0[h]
    {
      assert h !in queues.Keys;
    }
  }

  /** Which of the hosts in flight records next, and when a waiting host starts, is arbitrary. `order` is the
      order in which the records happened: each host's are its queue in turn, and never are more than four hosts begun
      and not finished. */
  method CheckExternal(env: Env, store: LinkStore, queues0: Queues, ghost urls: set<string>, now: int)
    returns (ghost order: seq<string>)
    requires QueuesHold(env, queues0, urls) && forall h :: h in queues0 ==> queues0[h] != []
    requires forall u :: u in urls ==> Classify(env, u).ExternalTo?
    modifies store`checks
    ensures NoDuplicates(order) && Elems(order) == urls
    ensures forall h :: h in queues0 ==> RecordsOf(env, order, h) == queues0[h]
    ensures Capped(env, queues0, order)
    ensures store.checks == RecordAll(env, old(store.checks), order, now)
  {
    hide Progress, Advanced, QueuesHold, NoDuplicates, Elems, RecordAll, RecordUrl, Classify, InTurn, Capped, RecordsOf,
      Pools;
    order := [];
    var queues := queues0;
    var waiting, active := queues.Keys, {};
    ghost var todo, t := urls, store.checks;
    ProgressStarts(env, t, urls, now, queues);
    TurnsStart(env, queues0);
    PoolsStart(queues0);
    while waiting + active != {}
      invariant Progress(env, t, urls, now, queues, todo, order, store.checks)
      invariant Pools(queues, waiting, active)
      invariant InTurn(env, queues0, queues, waiting, order) && Capped(env, queues0, order)
      decreases |todo|, |waiting|
    {
      var start := *;
      if waiting != {} && |active| < MAX_CONCURRENT_HOSTS && (start || active == {}) {
        var h :| h in waiting;
        PoolStarts(queues, waiting, active, h);
        OneStarts(env, queues0, queues, waiting, order, h);
        waiting, active := waiting - {h}, active + {h};
      } else {
        var h :| h in active;
        PoolHolds(queues, waiting, active, h);
        ProgressStep(env, t, urls, now, queues, todo, order, store.checks, h);
        TurnStep(env, queues0, queues, waiting, active, order, h);
        ghost var u := queues[h][0];
        order, todo := order + [u], todo - {u};
        queues := RecordNext(env, store, queues, h, now);
        if h !in queues {
          active := active - {h};
        }
      }
    }
    PoolsEnd(queues, waiting, active);
    ProgressEnds(env, t, urls, now, queues, todo, order, store.checks);
    TurnsEnd(env, queues0, queues, waiting, order);
  }

  lemma PoolsStart(queues: Queues)
    ensures Pools(queues, queues.Keys, {})
  {
  }

  lemma PoolsEnd(queues: Queues, waiting: set<string>, active: set<string>)
    requires Pools(queues, waiting, active) && waiting + active == {}
    ensures queues.Keys == {}
  {
  }

  /** The hosts with URLs left are the waiting ones and those in flight. */
  ghost predicate Pools(queues: Queues, waiting: set<string>, active: set<string>) {
    waiting !! active && waiting + active == queues.Keys && |active| <= MAX_CONCURRENT_HOSTS
  }

  lemma PoolStarts(queues: Queues, waiting: set<string>, active: set<string>, h: string)
    requires Pools(queues, waiting, active) && h in waiting && |active| < MAX_CONCURRENT_HOSTS
    ensures Pools(queues, waiting - {h}, active + {h}) && |waiting - {h}| < |waiting|
  {
  }

  lemma PoolHolds(queues: Queues, waiting: set<string>, active: set<string>, h: string)
    requires Pools(queues, waiting, active) && h in active
    ensures h in queues
    ensures forall queues': Queues :: queues'.Keys == queues.Keys ==> Pools(queues', waiting, active)
    ensures forall queues': Queues :: queues'.Keys == queues.Keys - {h} ==> Pools(queues', waiting, active - {h})
  {
    assert |active - {h}| < |active|;
  }

  lemma OneStarts(env: Env, queues0: Queues, queues: Queues, waiting: set<string>, order: seq<string>, h: string)
    requires InTurn(env, queues0, queues, waiting, order)
    ensures InTurn(env, queues0, queues, waiting - {h}, order)
  {
    hide RecordsOf;
  }

  /** A worker checks the next URL of its host and records the outcome; a failed record is logged and passed over. */
  method RecordNext(env: Env, store: LinkStore, queues: Queues, h: string, now: int) returns (rest: Queues)
    requires h in queues && queues[h] != [] && Classify(env, queues[h][0]).ExternalTo?
    modifies store`checks
    ensures store.checks == RecordUrl(env, old(store.checks), queues[h][0], now)
    ensures rest == Advanced(queues, h)
    ensures if h in rest then rest.Keys == queues.Keys else rest.Keys == queues.Keys - {h}
  {
    hide Classify, NextState;
    var u := queues[h][0];
    var outcome := env.check(u);
    if env.stores(u) {
      var _ := store.Record(u, External, outcome, now);
    }
    rest := if |queues[h]| == 1 then queues - {h} else queues[h := queues[h][1..]];
  }

  lemma RecordedNext(env: Env, t: CheckTable, order: seq<string>, u: string, now: int)
    requires NoDuplicates(order) && u !in Elems(order)
    ensures NoDuplicates(order + [u]) && Elems(order + [u]) == Elems(order) + {u}
    ensures RecordAll(env, t, order + [u], now) == RecordUrl(env, RecordAll(env, t, order, now), u, now)
  {
    hide RecordUrl;
    assert (order + [u])[..|order|] == order;
  }

  lemma NextInQueue(env: Env, queues: Queues, todo: set<string>, h: string)
    requires QueuesHold(env, queues, todo) && h in queues && queues[h] != []
    ensures var u := queues[h][0];
            u in todo && u !in queues[h][1..] && env.host(u) == h &&
            QueuesHold(env, Advanced(queues, h), todo - {u})
    ensures (forall g :: g in queues ==> queues[g] != []) ==>
              forall g :: g in Advanced(queues, h) ==> Advanced(queues, h)[g] != []
  {
    var u, q := queues[h][0], queues[h];
    assert q == [u] + q[1..];
    forall v | v in q[1..]
      ensures v != u && v in q
    {
    }
    forall v | v in todo - {u}
      ensures env.host(v) == h ==> |q| > 1 && v in q[1..]
    {
    }
  }

  // ---- The whole pass ----

  datatype ScanSummary = ScanSummary(pagesScanned: nat, linksChecked: nat, confirmedDead: nat, failing: nat,
      needsReview: nat)

  /** The rows the admin view lists as problems. */
  function ProblemUrls(t: CheckTable): set<string> {
    set u | u in t && t[u].lastClass != "ok" && !t[u].ignored
  }

  function Summarize(t: CheckTable, pages: nat, links: nat): ScanSummary {
    ScanSummary(pages, links,
                |set u | u in ProblemUrls(t) && t[u].IsConfirmedDead()|,
                |set u | u in ProblemUrls(t) && t[u].IsFailing()|,
                |set u | u in ProblemUrls(t) && t[u].NeedsReview()|)
  }

  /** Every problem row falls in exactly one of the three buckets. */
  lemma BucketsPartition(t: CheckTable, pages: nat, links: nat)
    ensures var s := Summarize(t, pages, links); s.confirmedDead + s.failing + s.needsReview == |ProblemUrls(t)|
  {
    hide ClassFromStored;
    var problems := ProblemUrls(t);
    forall u | u in problems {
      BucketsMean(t[u]);
    }
    var dead := set u | u in problems && t[u].IsConfirmedDead();
    var failing := set u | u in problems && t[u].IsFailing();
    var review := set u | u in problems && t[u].NeedsReview();
    assert problems == dead + failing + review;
    assert dead !! failing && dead + failing !! review;
  }

  /** The rows of a stored class that nobody has marked ignored. */
  function Unignored(t: CheckTable, stored: string): set<string> {
    set u | u in t && !t[u].ignored && t[u].lastClass == stored
  }

  /** The first bucket holds the links dead three times over, the second those dead less often and the passing
      failures; ignored rows count nowhere. */
  lemma SummaryCounts(t: CheckTable, pages: nat, links: nat)
    ensures var s := Summarize(t, pages, links);
            s.pagesScanned == pages && s.linksChecked == links &&
            s.confirmedDead == |set u | u in Unignored(t, "dead") && t[u].consecutiveFailures >= 3| &&
            s.failing ==
              |(set u | u in Unignored(t, "dead") && t[u].consecutiveFailures < 3) + Unignored(t, "transient")|
  {
    hide ClassFromStored;
    forall u | u in t {
      BucketsMean(t[u]);
    }
    assert (set u | u in Unignored(t, "dead") && t[u].consecutiveFailures >= 3) ==
           set u | u in ProblemUrls(t) && t[u].IsConfirmedDead();
    assert (set u | u in Unignored(t, "dead") && t[u].consecutiveFailures < 3) + Unignored(t, "transient") ==
           set u | u in ProblemUrls(t) && t[u].IsFailing();
  }

  lemma TargetsTrimmed(env: Env, pages: seq<Page>, targets: map<string, LinkTarget>)
    requires WellExtracted(pages) && forall u :: u in targets <==> IsTarget(env, pages, u)
    ensures forall u :: u in targets ==> Trim(u) == u
  {
    hide Checkable, Trim;
  }

  lemma TargetsAreChecked(env: Env, pages: seq<Page>, targets: map<string, LinkTarget>)
    requires forall u :: u in targets <==> IsTarget(env, pages, u)
    requires forall u :: u in targets ==> targets[u] == Classify(env, u)
    ensures forall u :: u in targets ==> !targets[u].Skip?
  {
    hide Classify;
  }

  lemma PartitionCovers(env: Env, targets: map<string, LinkTarget>, internal: seq<(string, string)>,
      external: seq<string>)
    requires forall u :: u in targets ==> targets[u] == Classify(env, u) && !targets[u].Skip?
    requires InternalList(internal, targets, map[]) && ExternalList(external, targets, map[])
    ensures forall i :: 0 <= i < |internal| ==> Classify(env, internal[i].0) == InternalTo(internal[i].1)
    ensures NoDuplicates(external) && forall u :: u in Elems(external) ==> Classify(env, u).ExternalTo?
    ensures NoDuplicates(Firsts(internal)) && forall u :: u in Firsts(internal) ==> u !in external
    ensures forall u :: u in targets <==> u in Firsts(internal) || u in external
  {
    hide Classify;
    assert forall i :: 0 <= i < |internal| ==> internal[i].0 in targets;
  }

  lemma {:induction false} RecordedInTurn(env: Env, t: CheckTable, a: seq<string>, b: seq<string>, now: int)
    ensures RecordAll(env, t, a + b, now) == RecordAll(env, RecordAll(env, t, a, now), b, now)
  {
    hide RecordUrl;
    if b == [] {
      assert a + b == a;
    } else {
      var n := |b| - 1;
      RecordedInTurn(env, t, a, b[..n], now);
      assert (a + b)[..|a + b| - 1] == a + b[..n];
    }
  }

  lemma Joined(a: seq<string>, external: seq<string>, b: seq<string>)
    requires NoDuplicates(a) && NoDuplicates(b) && NoDuplicates(external) && Elems(b) == Elems(external)
    requires forall u :: u in a ==> u !in external
    ensures NoDuplicates(a + b) && |b| == |external|
    ensures forall u :: u in a + b <==> u in a || u in external
  {
    ElemsSize(b);
    ElemsSize(external);
    forall u
      ensures u in b <==> u in external
    {
      assert u in b <==> u in Elems(b);
      assert u in external <==> u in Elems(external);
    }
    assert forall i :: 0 <= i < |a| ==> a[i] in a;
    assert forall i :: 0 <= i < |b| ==> b[i] in b;
  }

  lemma {:induction false} ElemsSize(s: seq<string>)
    requires NoDuplicates(s)
    ensures |Elems(s)| == |s|
  {
    if s != [] {
      var n := |s| - 1;
      ElemsSize(s[..n]);
      assert Elems(s) == Elems(s[..n]) + {s[n]};
      assert s[n] !in s[..n];
    }
  }

  /** The internal targets on which the pass would end. */
  ghost predicate FailsInside(env: Env, pages: seq<Page>) {
    exists u :: IsTarget(env, pages, u) && Classify(env, u).InternalTo? && Checked(env, u).None?
  }

  /** How a pass went: cut short while replacing the references of the page at a place in the list, at an internal
      link, at the prune or at the summary, or to its end. */
  datatype Ending = AtPage(place: nat) | AtInternal | AtPrune | AtSummary | AtEnd

  /** The first fault decides. */
  ghost predicate EndsWell(env: Env, pages: seq<Page>, e: Ending) {
    if e.AtPage? then
      e.place < |pages| && !env.relinks(pages[e.place].id) && forall i :: 0 <= i < e.place ==> env.relinks(pages[i].id)
    else
      (forall i :: 0 <= i < |pages| ==> env.relinks(pages[i].id)) &&
      if FailsInside(env, pages) then e.AtInternal?
      else if !env.prunes then e.AtPrune?
      else if !env.summarizes then e.AtSummary?
      else e.AtEnd?
  }

  /** The checks made, in `order`: none, some of the internal targets', or every target's. */
  ghost predicate ChecksMade(env: Env, pages: seq<Page>, e: Ending, order: seq<string>) {
    match e
    case AtPage(_) => order == []
    case AtInternal => forall u :: u in order ==> IsTarget(env, pages, u) && Classify(env, u).InternalTo?
    case _ => forall u :: u in order <==> IsTarget(env, pages, u)
  }

  /** The table: the sequential pass's, pruned if the pass got that far. */
  function TableAfter(env: Env, e: Ending, order: seq<string>, before: CheckTable, refs: RefTable,
                      now: int, sqlNow: int): CheckTable {
    var checked := CheckedTable(env, before, Elems(order), now);
    if e.AtSummary? || e.AtEnd? then PrunedOrphans(checked, refs, RETAIN_DAYS, sqlNow) else checked
  }

  /** A pass that prunes keeps a row exactly when a page refers to its URL or its last check is at most thirty days
      old, and keeps it as it is. */
  lemma PrunedIff(env: Env, e: Ending, order: seq<string>, before: CheckTable, refs: RefTable, now: int, sqlNow: int,
                  u: string)
    requires e.AtSummary? || e.AtEnd?
    ensures var (after, checked) :=
              (TableAfter(env, e, order, before, refs, now, sqlNow), CheckedTable(env, before, Elems(order), now));
            (u in after <==> u in checked && ((exists r :: r in refs && r.1 == u) ||
                                              Secs(checked[u].lastCheckedAt) + 30 * 86_400 >= Secs(sqlNow))) &&
            (u in after ==> after[u] == checked[u])
  {
    hide CheckedTable;
  }

  /** The URLs handed to the HTTP check are those among the checked ones that lead to another host, each once. */
  ghost predicate OnlyForeign(env: Env, order: seq<string>, fetched: seq<string>) {
    NoDuplicates(fetched) && forall u :: u in fetched <==> u in order && IsForeign(env, u)
  }

  /** The pages whose references were replaced. */
  function Replaced(pages: seq<Page>, e: Ending): seq<Page> {
    if e.AtPage? && e.place < |pages| then pages[..e.place] else pages
  }

  /** One pass. Whatever the hash-map orders and the interleaving of the workers, each distinct checkable URL is
      checked exactly once (`order` lists the checks), the table is the one the sequential pass leaves, and the
      pages' references are their live links. Only links to other hosts are handed to the HTTP check, in `fetched`.
      Its first failed statement ends it; only a failed record of an external URL is passed over, and leaves that
      URL's row as it was. */
  method RunScan(env: Env, store: LinkStore, pages: seq<Page>, now: int, sqlNow: int)
    returns (summary: Option<ScanSummary>, ghost order: seq<string>, ghost fetched: seq<string>, ghost e: Ending)
    requires WellExtracted(pages)
    modifies store
    ensures OnlyForeign(env, order, fetched)
    ensures EndsWell(env, pages, e) && ChecksMade(env, pages, e, order) && NoDuplicates(order)
    ensures ReferencedByPages(env, Replaced(pages, e), old(store.refs), store.refs)
    ensures store.checks == TableAfter(env, e, order, old(store.checks), store.refs, now, sqlNow)
    ensures summary == if e.AtEnd? then Some(Summarize(store.checks, |pages|, |order|)) else None
  {
    hide Classify, IsTarget, CheckedTable, PrunedOrphans, Summarize, ReferencedByPages, Checked, FailsInside,
      ChecksMade, OnlyForeign;
    var ok, targets;
    ghost var replaced;
    ok, targets, replaced := CollectTargets(env, store, pages);
    if !ok {
      NothingChecked(env, pages, replaced, store.checks, now);
      return None, [], [], AtPage(replaced);
    }
    assert pages[..|pages|] == pages;
    var count;
    ok, count, order, fetched := CheckTargets(env, store, pages, targets, now);
    if !ok {
      return None, order, fetched, AtInternal;
    }
    EveryEnding(env, pages, order);
    if !env.prunes {
      return None, order, fetched, AtPrune;
    }
    var _ := store.PruneOrphans(RETAIN_DAYS, sqlNow);
    if !env.summarizes {
      return None, order, fetched, AtSummary;
    }
    e := AtEnd;
    summary := Some(Summarize(store.checks, |pages|, count));
  }

  lemma EveryEnding(env: Env, pages: seq<Page>, order: seq<string>)
    ensures ChecksMade(env, pages, AtEnd, order) ==>
              ChecksMade(env, pages, AtPrune, order) && ChecksMade(env, pages, AtSummary, order)
  {
  }

  /** Phases 2 to 4: the internal links and then the external ones. */
  method CheckTargets(env: Env, store: LinkStore, pages: seq<Page>, targets: map<string, LinkTarget>, now: int)
    returns (ok: bool, count: nat, ghost order: seq<string>, ghost fetched: seq<string>)
    requires WellExtracted(pages) && forall u :: u in targets <==> IsTarget(env, pages, u)
    requires forall u :: u in targets ==> targets[u] == Classify(env, u)
    modifies store`checks
    ensures ok <==> !FailsInside(env, pages)
    ensures NoDuplicates(order) && store.checks == CheckedTable(env, old(store.checks), Elems(order), now)
    ensures ChecksMade(env, pages, if ok then AtEnd else AtInternal, order)
    ensures ok ==> count == |order|
    ensures OnlyForeign(env, order, fetched)
  {
    hide Classify, IsForeign, IsTarget, InternalList, ExternalList, RecordAll, CheckedTable, Checked, Capped, RecordsOf,
      FailsInside;
    TargetsTrimmed(env, pages, targets);
    TargetsAreChecked(env, pages, targets);
    var internal, external := Partition(env, targets);
    PartitionCovers(env, targets, internal, external);
    ghost var done;
    ok, done := CheckInternal(env, store, internal, now);
    InternalFails(env, pages, targets, internal, external, ok, done);
    count := |internal| + |external|;
    if !ok {
      order := Firsts(internal)[..done];
      OrderIrrelevant(env, old(store.checks), order, now);
      PassCut(env, pages, targets, internal, external, done);
      fetched := [];
      NoneForeign(env, internal, done);
      return;
    }
    assert Firsts(internal)[..done] == Firsts(internal);
    var queues := GroupByHost(env, external);
    fetched := CheckExternal(env, store, queues, Elems(external), now);
    order := Firsts(internal) + fetched;
    RecordedInTurn(env, old(store.checks), Firsts(internal), fetched, now);
    Joined(Firsts(internal), external, fetched);
    AllForeign(env, internal, external, fetched);
    OrderIrrelevant(env, old(store.checks), order, now);
  }

  lemma NoneForeign(env: Env, internal: seq<(string, string)>, done: nat)
    requires forall i :: 0 <= i < |internal| ==> Classify(env, internal[i].0) == InternalTo(internal[i].1)
    requires done <= |internal|
    ensures OnlyForeign(env, Firsts(internal)[..done], [])
  {
    hide Classify, IsForeign;
    forall u | u in Firsts(internal)[..done]
      ensures !IsForeign(env, u)
    {
      ExternalIff(env, u);
    }
  }

  lemma AllForeign(env: Env, internal: seq<(string, string)>, external: seq<string>, fetched: seq<string>)
    requires forall i :: 0 <= i < |internal| ==> Classify(env, internal[i].0) == InternalTo(internal[i].1)
    requires forall u :: u in Elems(external) ==> Classify(env, u).ExternalTo?
    requires NoDuplicates(fetched) && Elems(fetched) == Elems(external)
    ensures OnlyForeign(env, Firsts(internal) + fetched, fetched)
  {
    hide Classify, IsForeign;
    NoneForeign(env, internal, |internal|);
    assert Firsts(internal)[..|internal|] == Firsts(internal);
    forall u | u in fetched
      ensures IsForeign(env, u)
    {
      assert u in Elems(fetched);
      ExternalIff(env, u);
    }
  }

  lemma NothingChecked(env: Env, pages: seq<Page>, place: nat, t: CheckTable, now: int)
    ensures CheckedTable(env, t, Elems([]), now) == t && ChecksMade(env, pages, AtPage(place), [])
    ensures OnlyForeign(env, [], [])
  {
  }

  lemma InternalFails(env: Env, pages: seq<Page>, targets: map<string, LinkTarget>, internal: seq<(string, string)>,
                      external: seq<string>, ok: bool, done: nat)
    requires forall u :: u in targets <==> IsTarget(env, pages, u)
    requires forall u :: u in targets <==> u in Firsts(internal) || u in external
    requires forall i :: 0 <= i < |internal| ==> Classify(env, internal[i].0) == InternalTo(internal[i].1)
    requires forall u :: u in Elems(external) ==> Classify(env, u).ExternalTo?
    requires done <= |internal| && forall i :: 0 <= i < done ==> Checked(env, internal[i].0).Some?
    requires if ok then done == |internal| else done < |internal| && Checked(env, internal[done].0).None?
    ensures !ok <==> FailsInside(env, pages)
  {
    hide Classify, Checked, IsTarget;
    if !ok {
      assert Firsts(internal)[done] == internal[done].0;
      assert internal[done].0 in targets && Classify(env, internal[done].0).InternalTo?;
    } else {
      forall u | IsTarget(env, pages, u) && Classify(env, u).InternalTo?
        ensures Checked(env, u).Some?
      {
        assert u in Elems(external) <==> u in external;
        var i :| 0 <= i < |internal| && Firsts(internal)[i] == u;
      }
    }
  }

  lemma PassCut(env: Env, pages: seq<Page>, targets: map<string, LinkTarget>, internal: seq<(string, string)>,
                external: seq<string>, done: nat)
    requires forall u :: u in targets <==> IsTarget(env, pages, u)
    requires forall u :: u in targets <==> u in Firsts(internal) || u in external
    requires forall i :: 0 <= i < |internal| ==> Classify(env, internal[i].0) == InternalTo(internal[i].1)
    requires done <= |internal| && NoDuplicates(Firsts(internal))
    ensures NoDuplicates(Firsts(internal)[..done])
    ensures ChecksMade(env, pages, AtInternal, Firsts(internal)[..done])
  {
    hide Classify, IsTarget;
    var order := Firsts(internal)[..done];
    forall u | u in order
      ensures IsTarget(env, pages, u) && Classify(env, u).InternalTo?
    {
      var i :| 0 <= i < done && order[i] == u;
      assert Firsts(internal)[i] == u && u in Firsts(internal);
    }
  }
}
